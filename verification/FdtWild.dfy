/**
 Calls of the sequential writer that store outside their place although their room
 test lets them through: what they damage, and which lists of calls have none.
 */
module FdtWild {
  import opened Bytes
  import opened Fdt
  import opened FdtWriter
  import opened FdtRoundTrip

  /** The strings as the buffer holds them after an entry was stored where the reserve map ends. */
  ghost function StringsAfter(w: Writer, e: (uint64, uint64)): seq<byte>
    requires Fits(w) && OffStruct(w) + 16 <= w.total
  {
    Patch(Layout(w), OffStruct(w), Entry(e))[w.total - |w.strings|..]
  }

  /** The last byte of an entry is the low byte of its size. */
  lemma {:induction false} EntryEnds(v: byte)
    ensures Entry((0, v))[15] == v
  {
    assert Entry((0, v))[15] == BE32(v % 0x1_0000_0000)[3];
  }

  /** With less than 16 free bytes, some entry changes a byte of the strings. */
  lemma {:induction false} EntryDamages(w: Writer) returns (e: (uint64, uint64))
    requires Fits(w) && w.tokens == [] && OffStruct(w) + 16 <= w.total && Gap(w) < 16
    ensures StringsAfter(w, e) != w.strings
  {
    var at := OffStruct(w) + 15 - (w.total - |w.strings|);
    var v: byte := if w.strings[at] == 0 then 1 else 0;
    e := (0, v);
    EntryEnds(v);
    assert StringsAfter(w, e)[at] == v;
  }

  /**
   An entry that the room test lets through leaves the strings alone, whatever it
   holds, exactly when 16 bytes are free: the test forgets the strings.
   */
  lemma {:induction false} ReserveSparesStrings(w: Writer)
    requires Fits(w) && w.tokens == [] && OffStruct(w) + 16 <= w.total
    ensures (forall e :: StringsAfter(w, e) == w.strings) <==> Gap(w) >= 16
  {
    StringsAt(w);
    if Gap(w) >= 16 {
      forall e ensures StringsAfter(w, e) == w.strings {
        PatchOutside(Layout(w), OffStruct(w), Entry(e), w.total - |w.strings|, w.total);
      }
    } else {
      var e := EntryDamages(w);
    }
  }

  /** Two calls on a buffer of 64 bytes after which a reserve map entry damages a name. */
  lemma {:induction false} ReserveMeetsStrings() returns (c: Call, e: (uint64, uint64))
    ensures var w := Writer(64, [], [], []);
      && GoodCall(c) && Step(w, c).1 == NoSpace && Step(Step(w, c).0, Reserve(e.0, e.1)).1 == Wild
      && Fits(Step(w, c).0) && OffStruct(Step(w, c).0) + 16 <= 64
      && StringsAfter(Step(w, c).0, e) != Step(w, c).0.strings
  {
    var w := Writer(64, [], [], []);
    var name: seq<byte> := seq(11, _ => 1);
    c := Property(name, []);
    var s := name + [0];
    assert FindString([], s, 0) < 0;
    assert s + [] == s;
    assert Step(w, c).0 == w.(strings := s);
    e := EntryDamages(Step(w, c).0);
  }

  /** A name longer than the buffer: the room test lets it through, and it would start in front of the buffer. */
  lemma {:induction false} LongNameGoesWild() returns (c: Call)
    ensures GoodCall(c) && c.Property? && Step(Writer(64, [], [], []), c).1 == Wild
    ensures StringRoom(64, 48, 0, |c.name| + 1) && |c.name| + 1 > 64
  {
    var name: seq<byte> := seq(64, _ => 1);
    c := Property(name, []);
    assert FindString([], name + [0], 0) < 0;
  }

  /** Call `j` of a run is a property that finds no room. */
  ghost predicate NoRoomAt(total: nat, cs: seq<Call>, j: nat) {
    && j < |cs| && cs[j].Property? && Run(total, cs[..j]).Some?
    && Step(Run(total, cs[..j]).value.0, cs[j]).1 == NoSpace
  }

  lemma {:induction false} NoRoomStays(total: nat, cs: seq<Call>, n: nat, j: nat)
    requires n <= |cs| && NoRoomAt(total, cs[..n], j)
    ensures NoRoomAt(total, cs, j)
  {
    assert cs[..n][..j] == cs[..j];
  }

  /** Strings without a token are left by a property that found no room. */
  lemma {:induction false} StringsLeft(total: nat, cs: seq<Call>)
    requires Run(total, cs).Some?
    requires var w := Run(total, cs).value.0; w.tokens == [] && w.strings != []
    ensures exists j: nat :: NoRoomAt(total, cs, j)
  {
    var n := |cs| - 1;
    var w, c := Run(total, cs[..n]).value.0, cs[n];
    if w.strings != [] && w.tokens == [] {
      StringsLeft(total, cs[..n]);
      var j: nat :| NoRoomAt(total, cs[..n], j);
      NoRoomStays(total, cs, n, j);
    } else {
      assert NoRoomAt(total, cs, n);
    }
  }

  /** In every run, a reserve map entry that reaches into the strings comes behind a property that found no room. */
  lemma {:induction false} WildReserveFollowsNoRoom(total: nat, cs: seq<Call>, address: uint64, size: uint64)
    requires Run(total, cs).Some? && Step(Run(total, cs).value.0, Reserve(address, size)).1 == Wild
    ensures exists j: nat :: NoRoomAt(total, cs, j)
  {
    var w := Run(total, cs).value.0;
    NoTokens(w);
    assert w.strings != [];
    StringsLeft(total, cs);
  }

  /** The reserve map is written before the properties, and names are shorter than 48 bytes. */
  predicate Tame(cs: seq<Call>) {
    && (forall j, k :: 0 <= j < k < |cs| && cs[j].Property? ==> !cs[k].Reserve?)
    && (forall k :: 0 <= k < |cs| && cs[k].Property? ==> |cs[k].name| < 48)
  }

  /** Without a property there are no strings. */
  lemma {:induction false} NoPropertyNoStrings(total: nat, cs: seq<Call>)
    requires Run(total, cs).Some? && forall k :: 0 <= k < |cs| ==> !cs[k].Property?
    ensures Run(total, cs).value.0.strings == []
  {
    if cs != [] {
      NoPropertyNoStrings(total, cs[..|cs| - 1]);
    }
  }

  lemma {:induction false} ShortNamesFit(w: Writer, name: seq<byte>, value: seq<byte>)
    requires Fits(w) && |name| < 48
    ensures Step(w, Property(name, value)).1 != Wild
  {
  }

  /** Such lists of calls never leave their place: every one of them is a run. */
  lemma {:induction false} TameCallsRun(total: nat, cs: seq<Call>)
    requires RSVMAP_OFFSET <= total < INT_LIMIT && (forall i :: 0 <= i < |cs| ==> GoodCall(cs[i])) && Tame(cs)
    ensures Run(total, cs).Some?
  {
    if cs != [] {
      var n := |cs| - 1;
      TameCallsRun(total, cs[..n]);
      RunKeepsInv(total, cs[..n]);
      var w, c := Run(total, cs[..n]).value.0, cs[n];
      if c.Reserve? {
        NoPropertyNoStrings(total, cs[..n]);
      } else if c.Property? {
        ShortNamesFit(w, c.name, c.value);
      }
    }
  }
}
