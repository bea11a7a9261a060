/**
 Byte strings, the multi-byte integers stored in them, and overwriting a range.
 */
module Bytes {

  type byte = x: int | 0 <= x < 256
  type uint8 = x: int | 0 <= x < 256
  type uint16 = x: int | 0 <= x < 0x1_0000
  type uint32 = x: int | 0 <= x < 0x1_0000_0000
  type uint64 = x: int | 0 <= x < 0x1_0000_0000_0000_0000

  function Zeros(n: nat): (r: seq<byte>)
    ensures |r| == n
    ensures forall i :: 0 <= i < n ==> r[i] == 0
  {
    seq(n, _ => 0)
  }

  /** `s` with the bytes at `[off, off + |d|)` replaced by `d`. */
  function Patch(s: seq<byte>, off: nat, d: seq<byte>): (r: seq<byte>)
    requires off + |d| <= |s|
    ensures |r| == |s|
    ensures forall i :: 0 <= i < |s| ==> r[i] == if off <= i < off + |d| then d[i - off] else s[i]
  {
    seq(|s|, i requires 0 <= i < |s| => if off <= i < off + |d| then d[i - off] else s[i])
  }

  /** A patch leaves every range disjoint from it alone. */
  lemma {:induction false} PatchOutside(s: seq<byte>, off: nat, d: seq<byte>, lo: nat, hi: nat)
    requires off + |d| <= |s| && lo <= hi <= |s|
    requires hi <= off || off + |d| <= lo
    ensures Patch(s, off, d)[lo..hi] == s[lo..hi]
  {
  }

  /** Two adjacent patches are one. */
  lemma {:induction false} PatchAdjacent(s: seq<byte>, off: nat, d: seq<byte>, e: seq<byte>)
    requires off + |d| + |e| <= |s|
    ensures Patch(Patch(s, off, d), off + |d|, e) == Patch(s, off, d + e)
  {
  }

  function BE16(v: uint16): (r: seq<byte>)
    ensures |r| == 2
  {
    [v / 0x100, v % 0x100]
  }

  function FromBE16(s: seq<byte>): (v: uint16)
    requires |s| == 2
  {
    s[0] as int * 0x100 + s[1]
  }

  /** Byte `k` of `v`, counted from the least significant. */
  function Digit(v: uint32, k: nat): byte {
    if k == 0 then v % 0x100
    else if k == 1 then v / 0x100 % 0x100
    else if k == 2 then v / 0x100 / 0x100 % 0x100
    else v / 0x100 / 0x100 / 0x100
  }

  function BE32(v: uint32): (r: seq<byte>)
    ensures |r| == 4
  {
    seq(4, i requires 0 <= i < 4 => Digit(v, 3 - i))
  }

  function FromBE32(s: seq<byte>): (v: uint32)
    requires |s| == 4
  {
    ((s[0] as int * 0x100 + s[1]) * 0x100 + s[2]) * 0x100 + s[3]
  }

  function BE64(v: uint64): (r: seq<byte>)
    ensures |r| == 8
  {
    BE32(v / 0x1_0000_0000) + BE32(v % 0x1_0000_0000)
  }

  function LE32(v: uint32): (r: seq<byte>)
    ensures |r| == 4
  {
    seq(4, i requires 0 <= i < 4 => Digit(v, i))
  }

  function FromLE32(s: seq<byte>): (v: uint32)
    requires |s| == 4
  {
    ((s[3] as int * 0x100 + s[2]) * 0x100 + s[1]) * 0x100 + s[0]
  }

  lemma {:induction false} BE16RoundTrip(v: uint16)
    ensures FromBE16(BE16(v)) == v
  {
  }

  lemma {:induction false} BE32RoundTrip(v: uint32)
    ensures FromBE32(BE32(v)) == v
  {
  }

  lemma {:induction false} LE32RoundTrip(v: uint32)
    ensures FromLE32(LE32(v)) == v
  {
  }

  /** The encodings of a list of things, one after the other. */
  function Flat<T>(ts: seq<T>, f: T -> seq<byte>): seq<byte> {
    if ts == [] then [] else Flat(ts[..|ts| - 1], f) + f(ts[|ts| - 1])
  }

  lemma {:induction false} FlatSnoc<T>(ts: seq<T>, t: T, f: T -> seq<byte>)
    ensures Flat(ts + [t], f) == Flat(ts, f) + f(t)
  {
    assert (ts + [t])[..|ts|] == ts;
  }

  lemma {:induction false} FlatConcat<T>(ts: seq<T>, us: seq<T>, f: T -> seq<byte>)
    ensures Flat(ts + us, f) == Flat(ts, f) + Flat(us, f)
    decreases |us|
  {
    if us == [] {
      assert ts + us == ts;
    } else {
      var u := us[..|us| - 1];
      assert ts + us == (ts + u) + [us[|us| - 1]];
      FlatConcat(ts, u, f);
      FlatSnoc(ts + u, us[|us| - 1], f);
      ConcatAssociates(Flat(ts, f), Flat(u, f), f(us[|us| - 1]));
    }
  }

  lemma {:induction false} ConcatAssociates(a: seq<byte>, b: seq<byte>, c: seq<byte>)
    ensures (a + b) + c == a + (b + c)
  {
  }

  lemma {:induction false} FlatSplit<T>(ts: seq<T>, i: nat, f: T -> seq<byte>)
    requires i < |ts|
    ensures Flat(ts, f) == Flat(ts[..i], f) + f(ts[i]) + Flat(ts[i + 1..], f)
    ensures Flat(ts[..i + 1], f) == Flat(ts[..i], f) + f(ts[i])
  {
    assert ts == ts[..i + 1] + ts[i + 1..] && ts[..i + 1] == ts[..i] + [ts[i]];
    FlatConcat(ts[..i + 1], ts[i + 1..], f);
    FlatSnoc(ts[..i], ts[i], f);
  }

  /** memcpy from a value into a buffer. */
  method Store(a: array<byte>, off: nat, d: seq<byte>)
    requires off + |d| <= a.Length
    modifies a
    ensures a[..] == Patch(old(a[..]), off, d)
  {
    Overwrite(a, off, d);
  }

  /** The same, told byte by byte. */
  method Overwrite(a: array<byte>, off: nat, d: seq<byte>)
    requires off + |d| <= a.Length
    modifies a
    ensures forall i :: 0 <= i < a.Length ==> a[i] == if off <= i < off + |d| then d[i - off] else old(a[i])
  {
    forall i | 0 <= i < |d| {
      a[off + i] := d[i];
    }
  }
}
