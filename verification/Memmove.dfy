/**
 memcpy and memmove on one byte-addressed memory, with the destination free to
 overlap the source.
 */
module Memmove {
  import opened Bits
  import opened Bytes

  /** `(size_t)dst - (size_t)src`, which wraps. */
  function Distance(dst: nat, src: nat): nat
    requires dst < TWO_64 && src < TWO_64
  {
    if dst >= src then dst - src else TWO_64 - (src - dst)
  }

  /** The one unsigned test says that the destination does not start inside the source. */
  lemma {:induction false} DirectionTest(dst: nat, src: nat, len: nat)
    requires src + len <= TWO_64 && dst + len <= TWO_64 && dst < TWO_64 && src < TWO_64
    ensures Distance(dst, src) >= len <==> !(src <= dst < src + len)
  {
  }

  /** `i` taken back by whole periods until it is below `p`. */
  function Within(i: nat, p: nat): (r: nat)
    requires p > 0
    ensures r < p && r <= i
  {
    if i < p then i else Within(i - p, p)
  }

  /**
   The source byte that ends up at `dst + i` after an upward copy: its own, or,
   when the destination starts inside the source, one of the bytes before it.
   */
  function Origin(dst: nat, src: nat, i: nat): nat {
    if dst <= src then src + i else src + Within(i, dst - src)
  }

  /** An upward copy is exact when the destination does not start inside the source. */
  lemma {:induction false} UpwardIsExact(dst: nat, src: nat, i: nat, len: nat)
    requires i < len && (dst <= src || src + len <= dst)
    ensures Origin(dst, src, i) == src + i
  {
  }

  /** The byte an upward copy reads at step `i` has the origin of step `i`. */
  lemma {:induction false} OriginStep(dst: nat, src: nat, i: nat)
    ensures src < dst <= src + i ==> Origin(dst, src, i) == Origin(dst, src, src + i - dst)
    ensures dst <= src || src + i < dst ==> Origin(dst, src, i) == src + i
  {
  }

  /** The forward byte loop, whatever the overlap. */
  method Memcpy(mem: array<byte>, dst: nat, src: nat, len: nat) returns (r: nat)
    requires src + len <= mem.Length && dst + len <= mem.Length
    modifies mem
    ensures r == dst
    ensures forall i :: 0 <= i < len ==>
      Origin(dst, src, i) < src + len && mem[dst + i] == old(mem[..])[Origin(dst, src, i)]
    ensures forall j :: 0 <= j < mem.Length && !(dst <= j < dst + len) ==> mem[j] == old(mem[j])
  {
    var s, d, n := src, dst, 0;
    while n < len
      invariant n <= len && s == src + n && d == dst + n
      invariant forall i :: 0 <= i < n ==>
        Origin(dst, src, i) < src + len && mem[dst + i] == old(mem[..])[Origin(dst, src, i)]
      invariant forall j :: 0 <= j < mem.Length && !(dst <= j < dst + n) ==> mem[j] == old(mem[j])
    {
      OriginStep(dst, src, n);
      assert src < dst <= src + n ==> mem[s] == mem[dst + (src + n - dst)];
      mem[d] := mem[s];
      s, d, n := s + 1, d + 1, n + 1;
    }
    return dst;
  }

  /** The destination gets the original source bytes and nothing else changes. */
  method Move(mem: array<byte>, dst: nat, src: nat, len: nat) returns (r: nat)
    requires mem.Length <= TWO_64 && src + len <= mem.Length && dst + len <= mem.Length
    requires dst < TWO_64 && src < TWO_64
    modifies mem
    ensures r == dst
    ensures mem[..] == Patch(old(mem[..]), dst, old(mem[src..src + len]))
  {
    DirectionTest(dst, src, len);
    if Distance(dst, src) >= len {
      r := Memcpy(mem, dst, src, len);
      forall j | dst <= j < dst + len
        ensures mem[j] == old(mem[j - dst + src])
      {
        UpwardIsExact(dst, src, j - dst, len);
        assert mem[dst + (j - dst)] == old(mem[..])[src + (j - dst)];
      }
    } else {
      var s, d := src + len, dst + len;
      while d != dst
        invariant dst <= d <= dst + len && s - src == d - dst
        invariant forall j :: 0 <= j < mem.Length && !(d <= j < dst + len) ==> mem[j] == old(mem[j])
        invariant forall j :: d <= j < dst + len ==> mem[j] == old(mem[j - dst + src])
        decreases d
      {
        s, d := s - 1, d - 1;
        mem[d] := mem[s];
      }
      r := dst;
    }
  }
}
