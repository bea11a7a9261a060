/**
 Which option lists the image tool accepts, and what each option then has in the
 layout, by counting options and adding up sizes.
 */
module ContainerPlan {
  import opened Bits
  import opened Bytes
  import opened Options
  import opened Container

  /** Containers begun. */
  function Begun(opts: seq<Opt>): nat {
    if opts == [] then 0
    else Begun(opts[..|opts| - 1]) + if opts[|opts| - 1].NewContainer? then 1 else 0
  }

  /** Entries an option takes: SCFW has one more for its DCD, unless that is skipped. */
  function Taken(o: Opt, dcdSkip: bool): nat {
    if !o.Image? then 0 else if o.kind.Scfw? && !dcdSkip then 2 else 1
  }

  /** Entries in the container begun last. */
  function Filled(opts: seq<Opt>, dcdSkip: bool): nat {
    if opts == [] || opts[|opts| - 1].NewContainer? then 0
    else Filled(opts[..|opts| - 1], dcdSkip) + Taken(opts[|opts| - 1], dcdSkip)
  }

  /** The file position behind the options: images add their span, and a file offset starts anew. */
  function Position(opts: seq<Opt>, sector: nat): nat
    requires 0 < sector < INT_LIMIT
  {
    if opts == [] then 0x2000
    else
      var o, before := opts[|opts| - 1], Position(opts[..|opts| - 1], sector);
      if o.Image? then before + Span(o, sector) else if o.FileOff? then o.dst else before
  }

  /** The option can follow those before it. */
  ghost predicate CanFollow(before: seq<Opt>, o: Opt, sector: nat, dcdSkip: bool)
    requires 0 < sector < INT_LIMIT
  {
    match o
    case Image(_, _, _, _) =>
      Begun(before) > 0 && Filled(before, dcdSkip) + Taken(o, dcdSkip) <= 6
        && Position(before + [o], sector) < 0x8000_0000
    case NewContainer => Begun(before) < 2
    case FileOff(dst) => Position(before, sector) <= dst < 0x8000_0000 && Multiple(dst, sector)
    case Unrecognized => false
    case _ => true
  }

  lemma {:induction false} AlignedIsMultiple(x: nat, sector: nat)
    requires SectorOk(sector) && x < INT_LIMIT
    ensures x == Align(x, sector) <==> Multiple(x, sector)
  {
    var k: nat :| sector == Pow2(k);
    AlignRoundsUp(x, sector, k);
    if Multiple(x, sector) {
      MultipleGap(Align(x, sector), x, sector);
    }
  }

  /** The layout as counted. */
  ghost predicate Counted(l: Layout, opts: seq<Opt>, sector: nat, dcdSkip: bool)
    requires 0 < sector < INT_LIMIT
  {
    && l.fileOff == Position(opts, sector) && |l.srcs| == |opts| && |l.conts| == Begun(opts) <= 2
    && (l.conts != [] ==> |l.conts[|l.conts| - 1]| == Filled(opts, dcdSkip))
  }

  lemma {:induction false} PlaceCounts(l: Layout, before: seq<Opt>, o: Opt, sector: nat, dcdSkip: bool)
    requires SectorOk(sector) && Counted(l, before, sector, dcdSkip)
    ensures Place(l, o, sector, dcdSkip).Some? <==> CanFollow(before, o, sector, dcdSkip)
    ensures Place(l, o, sector, dcdSkip).Some? ==>
      Counted(Place(l, o, sector, dcdSkip).value, before + [o], sector, dcdSkip)
  {
    assert (before + [o])[..|before|] == before;
    if o.FileOff? && o.dst < INT_LIMIT {
      AlignedIsMultiple(o.dst, sector);
    }
  }

  ghost predicate AllFollow(opts: seq<Opt>, sector: nat, dcdSkip: bool)
    requires 0 < sector < INT_LIMIT
  {
    forall k :: 0 <= k < |opts| ==> CanFollow(opts[..k], opts[k], sector, dcdSkip)
  }

  lemma {:induction false} AllButLast(opts: seq<Opt>, sector: nat, dcdSkip: bool)
    requires 0 < sector < INT_LIMIT && opts != []
    ensures AllFollow(opts, sector, dcdSkip) <==>
      AllFollow(opts[..|opts| - 1], sector, dcdSkip)
      && CanFollow(opts[..|opts| - 1], opts[|opts| - 1], sector, dcdSkip)
  {
    var init := opts[..|opts| - 1];
    assert forall k :: 0 <= k < |init| ==> init[k] == opts[k] && init[..k] == opts[..k];
    assert AllFollow(opts, sector, dcdSkip) ==> AllFollow(init, sector, dcdSkip) by {
      if AllFollow(opts, sector, dcdSkip) {
        forall k | 0 <= k < |init| ensures CanFollow(init[..k], init[k], sector, dcdSkip) {
          assert CanFollow(opts[..k], opts[k], sector, dcdSkip);
        }
      }
    }
  }

  /** A list of options is accepted exactly if each of them can follow those before it. */
  lemma {:induction false} AcceptedOptions(opts: seq<Opt>, sector: nat, dcdSkip: bool)
    requires SectorOk(sector)
    ensures PlaceAll(opts, sector, dcdSkip).Some? <==> AllFollow(opts, sector, dcdSkip)
    ensures PlaceAll(opts, sector, dcdSkip).Some? ==>
      Counted(PlaceAll(opts, sector, dcdSkip).value, opts, sector, dcdSkip)
  {
    if opts != [] {
      var init, o := opts[..|opts| - 1], opts[|opts| - 1];
      AcceptedOptions(init, sector, dcdSkip);
      assert init + [o] == opts;
      AllButLast(opts, sector, dcdSkip);
      if PlaceAll(init, sector, dcdSkip).Some? {
        PlaceCounts(PlaceAll(init, sector, dcdSkip).value, init, o, sector, dcdSkip);
      }
    }
  }

  predicate IsEntry(e: Entry, offset: nat, size: nat, fields: seq<byte>, image: nat) {
    e.offset == offset && e.size == size && e.fields == fields && e.image == image
  }

  /** Option `k` is an image with its entry, its DCD entry if it has one, and its place. */
  ghost predicate HasItsEntries(l: Layout, opts: seq<Opt>, sector: nat, dcdSkip: bool, k: nat)
    requires 0 < sector < INT_LIMIT && k < |opts| && opts[k].Image?
  {
    var o, at, c, j := opts[k], Position(opts[..k], sector), Begun(opts[..k]) - 1, Filled(opts[..k], dcdSkip);
    && |l.srcs| == |opts| && l.srcs[k] == at < 0x8000_0000
    && 0 <= c < |l.conts| && j + Taken(o, dcdSkip) <= |l.conts[c]|
    && IsEntry(l.conts[c][j], at, Span(o, sector), o.fields, k)
    && (Taken(o, dcdSkip) == 2 ==> IsEntry(l.conts[c][j + 1], at, 0, o.dcdFields, k))
  }

  lemma {:induction false} EntriesKept(l: Layout, opts: seq<Opt>, o: Opt, sector: nat, dcdSkip: bool, k: nat)
    requires 0 < sector < INT_LIMIT && k < |opts| && opts[k].Image? && Place(l, o, sector, dcdSkip).Some?
    requires HasItsEntries(l, opts, sector, dcdSkip, k)
    ensures HasItsEntries(Place(l, o, sector, dcdSkip).value, opts + [o], sector, dcdSkip, k)
  {
    assert (opts + [o])[..k] == opts[..k] && (opts + [o])[k] == opts[k];
    var l', c := Place(l, o, sector, dcdSkip).value, Begun(opts[..k]) - 1;
    assert l.conts[c] <= l'.conts[c];
  }

  /**
   In every accepted list, each image stands where the positions say, and has its
   entries in the container begun last before it.
   */
  lemma {:induction false} EntriesByCount(opts: seq<Opt>, sector: nat, dcdSkip: bool, k: nat)
    requires SectorOk(sector) && PlaceAll(opts, sector, dcdSkip).Some? && k < |opts| && opts[k].Image?
    ensures HasItsEntries(PlaceAll(opts, sector, dcdSkip).value, opts, sector, dcdSkip, k)
  {
    var init, o := opts[..|opts| - 1], opts[|opts| - 1];
    var l := PlaceAll(init, sector, dcdSkip).value;
    AcceptedOptions(init, sector, dcdSkip);
    assert init + [o] == opts;
    if k < |init| {
      assert init[k] == opts[k];
      EntriesByCount(init, sector, dcdSkip, k);
      EntriesKept(l, init, o, sector, dcdSkip, k);
    } else {
      assert opts[..k] == init;
      PlaceCounts(l, init, o, sector, dcdSkip);
    }
  }
}
