/**
 Which calls of the sequential writer succeed, in bytes: for one call, and for a
 whole list of calls on an empty buffer.
 */
module FdtRoom {
  import opened Bytes
  import opened Options
  import opened Fdt
  import opened FdtWriter
  import opened FdtRoundTrip

  /** Bytes a call adds in front of the free space. */
  function SizeOf(c: Call): nat {
    match c
    case Reserve(_, _) => 16
    case Begin(name) => 4 + TagAlign(|name| + 1)
    case EndCall => 4
    case Property(_, value) => 12 + TagAlign(|value|)
  }

  /** The string stands somewhere in the strings block. */
  ghost predicate Occurs(tab: seq<byte>, s: seq<byte>) {
    exists q: nat :: StringAt(tab, q, s)
  }

  /** Bytes a call adds behind the free space: the name of a property, if it is new. */
  ghost function NewName(tab: seq<byte>, c: Call): seq<byte> {
    if c.Property? && !Occurs(tab, c.name + [0]) then c.name + [0] else []
  }

  lemma {:induction false} FoundIfOccurs(tab: seq<byte>, s: seq<byte>)
    ensures FindString(tab, s, 0) >= 0 <==> Occurs(tab, s)
  {
    FindStringFirst(tab, s, 0, 0);
    if q: nat :| StringAt(tab, q, s) {
      FindStringFirst(tab, s, 0, q);
    }
  }

  /**
   A call succeeds exactly if what it adds fits the free space, and, for a reserve
   entry, no token was written yet. It then takes just that space.
   */
  lemma {:induction false} CallSucceeds(w: Writer, c: Call)
    requires Fits(w) && GoodCall(c)
    ensures Step(w, c).1 == Ok <==>
      SizeOf(c) + |NewName(w.strings, c)| <= Gap(w) && (c.Reserve? ==> w.tokens == [])
    ensures Step(w, c).1 == Ok ==> Gap(Step(w, c).0) == Gap(w) - SizeOf(c) - |NewName(w.strings, c)|
    ensures Step(w, c).1 == Ok ==> Step(w, c).0.strings == NewName(w.strings, c) + w.strings
    ensures Step(w, c).1 == BadState <==> c.Reserve? && w.tokens != []
  {
    match c
    case Reserve(address, size) =>
      NoTokens(w);
      if w.tokens == [] {
        ReserveTakes(w, (address, size));
      }
    case Begin(name) => StructureSnoc(w, BeginNode(name));
    case EndCall => StructureSnoc(w, EndNode);
    case Property(name, value) => PropertySucceeds(w, c);
  }

  lemma {:induction false} PropertySucceeds(w: Writer, c: Call)
    requires Fits(w) && GoodCall(c) && c.Property?
    ensures Step(w, c).1 != BadState
    ensures Step(w, c).1 == Ok <==> SizeOf(c) + |NewName(w.strings, c)| <= Gap(w)
    ensures Step(w, c).1 == Ok ==> Gap(Step(w, c).0) == Gap(w) - SizeOf(c) - |NewName(w.strings, c)|
    ensures Step(w, c).1 == Ok ==> Step(w, c).0.strings == NewName(w.strings, c) + w.strings
  {
    FoundIfOccurs(w.strings, c.name + [0]);
    var found := FindAddString(w, c.name + [0]);
    assert found.2 == Ok ==> found.0 == w.(strings := NewName(w.strings, c) + w.strings);
    StructureSnoc(found.0, Prop(found.1, c.value));
  }

  lemma {:induction false} ReserveTakes(w: Writer, e: (uint64, uint64))
    requires w.tokens == []
    ensures |Structure(w)| == 0 && Gap(w.(reserved := w.reserved + [e])) == Gap(w) - 16
  {
    FlatSnoc(w.reserved, e, Entry);
  }

  /** Reserve entries come before everything else. */
  predicate ReservesFirst(cs: seq<Call>) {
    forall j, k :: 0 <= j < k < |cs| && cs[k].Reserve? ==> cs[j].Reserve?
  }

  /** The names of the properties, each once. */
  ghost function Names(cs: seq<Call>): seq<byte> {
    if cs == [] then [] else NewName(Names(cs[..|cs| - 1]), cs[|cs| - 1]) + Names(cs[..|cs| - 1])
  }

  function Sizes(cs: seq<Call>): nat {
    if cs == [] then 0 else Sizes(cs[..|cs| - 1]) + SizeOf(cs[|cs| - 1])
  }

  /** What a list of calls needs, header included. */
  ghost function Needs(cs: seq<Call>): nat {
    RSVMAP_OFFSET + Sizes(cs) + |Names(cs)|
  }

  ghost predicate AllSucceed(total: nat, cs: seq<Call>) {
    Run(total, cs).Some? && Run(total, cs).value.1 == cs
  }

  lemma {:induction false} DoneShorter(total: nat, cs: seq<Call>)
    requires Run(total, cs).Some?
    ensures |Run(total, cs).value.1| <= |cs|
    ensures cs != [] && Run(total, cs).value.1 == cs ==>
      AllSucceed(total, cs[..|cs| - 1]) && Step(Run(total, cs[..|cs| - 1]).value.0, cs[|cs| - 1]).1 == Ok
  {
    if cs != [] {
      DoneShorter(total, cs[..|cs| - 1]);
      assert cs[..|cs| - 1] + [cs[|cs| - 1]] == cs;
    }
  }

  /** The writer once every call has succeeded. */
  ghost predicate Describes(w: Writer, total: nat, cs: seq<Call>) {
    && Gap(w) == total - Needs(cs) && w.strings == Names(cs)
    && (w.tokens == [] <==> forall k :: 0 <= k < |cs| ==> cs[k].Reserve?)
  }

  lemma {:induction false} TokensIfAny(w: Writer, c: Call)
    requires Fits(w) && GoodCall(c) && Step(w, c).1 == Ok
    ensures Step(w, c).0.tokens == [] <==> w.tokens == [] && c.Reserve?
  {
  }

  lemma {:induction false} AfterSuccess(total: nat, cs: seq<Call>)
    requires RSVMAP_OFFSET <= total < INT_LIMIT && (forall i :: 0 <= i < |cs| ==> GoodCall(cs[i]))
    requires AllSucceed(total, cs)
    ensures Fits(Run(total, cs).value.0) && Describes(Run(total, cs).value.0, total, cs)
  {
    RunKeepsInv(total, cs);
    if cs != [] {
      var init, c := cs[..|cs| - 1], cs[|cs| - 1];
      DoneShorter(total, cs);
      AfterSuccess(total, init);
      DescribesNext(Run(total, init).value.0, total, init, c);
      assert init + [c] == cs;
    }
  }

  lemma {:induction false} NeedsNext(cs: seq<Call>, c: Call)
    ensures Names(cs + [c]) == NewName(Names(cs), c) + Names(cs)
    ensures Needs(cs + [c]) == Needs(cs) + SizeOf(c) + |NewName(Names(cs), c)|
    ensures (forall k :: 0 <= k < |cs + [c]| ==> (cs + [c])[k].Reserve?)
       <==> c.Reserve? && forall k :: 0 <= k < |cs| ==> cs[k].Reserve?
  {
    assert (cs + [c])[..|cs|] == cs && (cs + [c])[|cs|] == c;
    assert forall k :: 0 <= k < |cs| ==> (cs + [c])[k] == cs[k];
  }

  lemma {:induction false} DescribesNext(w: Writer, total: nat, cs: seq<Call>, c: Call)
    requires Fits(w) && GoodCall(c) && Step(w, c).1 == Ok && Describes(w, total, cs)
    ensures Describes(Step(w, c).0, total, cs + [c])
  {
    CallSucceeds(w, c);
    TokensIfAny(w, c);
    NeedsNext(cs, c);
  }

  /**
   All calls of a list succeed on an empty buffer exactly if the reserve entries
   come first and what the calls need is not more than the buffer.
   */
  lemma {:induction false} CallsSucceed(total: nat, cs: seq<Call>)
    requires RSVMAP_OFFSET <= total < INT_LIMIT && forall i :: 0 <= i < |cs| ==> GoodCall(cs[i])
    ensures AllSucceed(total, cs) <==> ReservesFirst(cs) && Needs(cs) <= total
    ensures AllSucceed(total, cs) ==> Gap(Run(total, cs).value.0) == total - Needs(cs)
  {
    if cs != [] {
      var init, c := cs[..|cs| - 1], cs[|cs| - 1];
      CallsSucceed(total, init);
      if AllSucceed(total, init) {
        LastSucceeds(total, cs);
      }
    }
    if AllSucceed(total, cs) {
      DoneShorter(total, cs);
      AfterSuccess(total, cs);
    }
  }

  lemma {:induction false} FirstNext(cs: seq<Call>, c: Call)
    requires ReservesFirst(cs)
    ensures ReservesFirst(cs + [c]) <==> (c.Reserve? ==> forall k :: 0 <= k < |cs| ==> cs[k].Reserve?)
  {
    assert (cs + [c])[|cs|] == c;
    assert forall k :: 0 <= k < |cs| ==> (cs + [c])[k] == cs[k];
  }

  lemma {:induction false} NextFits(w: Writer, total: nat, cs: seq<Call>, c: Call)
    requires Fits(w) && GoodCall(c) && Describes(w, total, cs) && ReservesFirst(cs)
    ensures Step(w, c).1 == Ok <==> ReservesFirst(cs + [c]) && Needs(cs + [c]) <= total
  {
    CallSucceeds(w, c);
    NeedsNext(cs, c);
    FirstNext(cs, c);
  }

  lemma {:induction false} SucceedNext(total: nat, cs: seq<Call>)
    requires cs != [] && AllSucceed(total, cs[..|cs| - 1])
    ensures AllSucceed(total, cs) <==> Step(Run(total, cs[..|cs| - 1]).value.0, cs[|cs| - 1]).1 == Ok
  {
    if AllSucceed(total, cs) {
      DoneShorter(total, cs);
    }
    assert cs[..|cs| - 1] + [cs[|cs| - 1]] == cs;
  }

  lemma {:induction false} LastSucceeds(total: nat, cs: seq<Call>)
    requires RSVMAP_OFFSET <= total < INT_LIMIT && forall i :: 0 <= i < |cs| ==> GoodCall(cs[i])
    requires cs != [] && AllSucceed(total, cs[..|cs| - 1]) && ReservesFirst(cs[..|cs| - 1])
    ensures AllSucceed(total, cs) <==> ReservesFirst(cs) && Needs(cs) <= total
  {
    var init, c := cs[..|cs| - 1], cs[|cs| - 1];
    AfterSuccess(total, init);
    NextFits(Run(total, init).value.0, total, init, c);
    SucceedNext(total, cs);
    assert init + [c] == cs;
  }

  /** The structure calls of a list whose first `n` calls are its reserve entries. */
  lemma {:induction false} StructuralRest(cs: seq<Call>, n: nat)
    requires n <= |cs| && forall k :: 0 <= k < |cs| ==> (cs[k].Reserve? <==> k < n)
    ensures Structural(cs) == cs[n..]
  {
    if cs != [] {
      var init := cs[..|cs| - 1];
      StructuralRest(init, if n == |cs| then n - 1 else n);
      if n < |cs| {
        assert init[n..] + [cs[|cs| - 1]] == cs[n..];
      }
    }
  }

  /** Reserve entries, then structure calls that need no more than the buffer with its terminator: all are read back. */
  lemma {:induction false} AllReadBack(total: nat, cs: seq<Call>, n: nat)
    requires RSVMAP_OFFSET <= total < INT_LIMIT && forall i :: 0 <= i < |cs| ==> GoodCall(cs[i])
    requires n <= |cs| && forall k :: 0 <= k < |cs| ==> (cs[k].Reserve? <==> k < n)
    requires Needs(cs) + 4 <= total
    ensures Run(total, cs).Some? && Gap(Run(total, cs).value.0) >= 4
    ensures Structural(Run(total, cs).value.1) == cs[n..]
  {
    CallsSucceed(total, cs);
    StructuralRest(cs, n);
  }
}
