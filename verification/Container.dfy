/**
 Layout of the boot container image: where every image goes, what the container
 headers say about it, and what the finished file holds.
 */
module Container {
  import opened Bits
  import opened Bytes
  import opened Options

  datatype Kind = Ap | M4 | Scfw | Data | MsgBlock | Seco

  /**
   One command line option. `fields` and `dcdFields` are the bytes of an image
   array entry behind its offset and size (addresses, flags, hash, iv).
   */
  datatype Opt =
    | Image(kind: Kind, file: seq<byte>, fields: seq<byte>, dcdFields: seq<byte>)
    | NewContainer
    | Flag(entry: uint64)
    | FileOff(dst: uint64)
    | Partition(entry: uint64)
    | Unrecognized

  const MAX_NUM_IMGS: nat := 6
  const MAX_NUM_OF_CONTAINER: nat := 2
  const IMAGE_START: nat := 0x2000
  const CONTAINER_ALIGNMENT: nat := 0x400
  const IMG_ARRAY_OFFSET: nat := 0x10
  const IMG_ENTRY_SIZE: nat := 128
  const MAX_ALIGN: nat := 0x4000
  const INT_LIMIT: nat := 0x8000_0000

  /** An image array entry; `image` is the option it was made for. */
  datatype Entry = Entry(offset: uint32, size: uint32, fields: seq<byte>, image: nat)

  datatype Layout = Layout(fileOff: nat, conts: seq<seq<Entry>>, srcs: seq<nat>)

  predicate WellFormed(o: Opt) {
    o.Image? ==> |o.fields| == 120 && |o.dcdFields| == 120 && |o.file| < INT_LIMIT
  }

  /** The sector sizes the tool uses are powers of two. */
  ghost predicate SectorOk(sector: nat) {
    0 < sector < INT_LIMIT && exists k: nat :: sector == Pow2(k)
  }

  /** Bytes of the file reserved for an image: SECO is not rounded up. */
  function Span(o: Opt, sector: nat): nat
    requires o.Image? && 0 < sector < INT_LIMIT
  {
    if o.kind.Seco? then |o.file| else Align(|o.file|, sector)
  }

  /** `set_image_array_entry`: SCFW also gets a DCD entry of size 0 at the same place. */
  function NewEntries(o: Opt, offset: uint32, size: uint32, image: nat, dcdSkip: bool): (r: seq<Entry>)
    requires o.Image?
    ensures 0 < |r| <= 2
  {
    var dcd := if o.kind.Scfw? && !dcdSkip then [Entry(offset, 0, o.dcdFields, image)] else [];
    [Entry(offset, size, o.fields, image)] + dcd
  }

  /** One option of the layout loop; `None` where the tool gives up or leaves its tables. */
  function Place(l: Layout, o: Opt, sector: nat, dcdSkip: bool): Option<Layout>
    requires 0 < sector < INT_LIMIT
  {
    match o
    case Image(_, _, _, _) =>
      var size := Span(o, sector);
      if l.conts == [] || l.fileOff + size >= INT_LIMIT then None
      else
        var last := l.conts[|l.conts| - 1];
        var es := NewEntries(o, l.fileOff, size, |l.srcs|, dcdSkip);
        if |last| + |es| > MAX_NUM_IMGS then None
        else Some(Layout(l.fileOff + size, l.conts[|l.conts| - 1 := last + es], l.srcs + [l.fileOff]))
    case NewContainer =>
      if |l.conts| == MAX_NUM_OF_CONTAINER then None
      else Some(Layout(l.fileOff, l.conts + [[]], l.srcs + [0]))
    case Flag(_) => Some(Layout(l.fileOff, l.conts, l.srcs + [0]))
    case FileOff(dst) =>
      if l.fileOff > dst || dst >= INT_LIMIT || dst != Align(dst, sector) then None
      else Some(Layout(dst, l.conts, l.srcs + [0]))
    case Partition(_) => Some(Layout(l.fileOff, l.conts, l.srcs + [0]))
    case Unrecognized => None
  }

  function PlaceAll(opts: seq<Opt>, sector: nat, dcdSkip: bool): Option<Layout>
    requires 0 < sector < INT_LIMIT
  {
    if opts == [] then Some(Layout(IMAGE_START, [], []))
    else
      match PlaceAll(opts[..|opts| - 1], sector, dcdSkip)
      case None => None
      case Some(l) => Place(l, opts[|opts| - 1], sector, dcdSkip)
  }

  /** Images follow each other in the file without overlap, behind the headers. */
  ghost predicate InOrder(l: Layout, opts: seq<Opt>, sector: nat)
    requires 0 < sector < INT_LIMIT
  {
    && |l.srcs| == |opts| && IMAGE_START <= l.fileOff
    && (forall k :: 0 <= k < |opts| && opts[k].Image? ==>
      IMAGE_START <= l.srcs[k] && l.srcs[k] + Span(opts[k], sector) <= l.fileOff < INT_LIMIT)
    && (forall j, k :: 0 <= j < k < |opts| && opts[j].Image? && opts[k].Image? ==>
      l.srcs[j] + Span(opts[j], sector) <= l.srcs[k])
  }

  /** An entry tells the place of its image. */
  ghost predicate EntryOk(e: Entry, l: Layout, opts: seq<Opt>, sector: nat)
    requires 0 < sector < INT_LIMIT
  {
    && e.image < |opts| == |l.srcs| && opts[e.image].Image? && |e.fields| == 120
    && e.offset == l.srcs[e.image] && IMAGE_START <= e.offset
    && (e.size == Span(opts[e.image], sector) || (opts[e.image].kind.Scfw? && e.size == 0))
  }

  ghost predicate EntriesOk(es: seq<Entry>, l: Layout, opts: seq<Opt>, sector: nat)
    requires 0 < sector < INT_LIMIT
  {
    |es| <= MAX_NUM_IMGS && forall j :: 0 <= j < |es| ==> EntryOk(es[j], l, opts, sector)
  }

  ghost predicate TablesOk(l: Layout, opts: seq<Opt>, sector: nat)
    requires 0 < sector < INT_LIMIT
  {
    |l.conts| <= MAX_NUM_OF_CONTAINER && forall c :: 0 <= c < |l.conts| ==> EntriesOk(l.conts[c], l, opts, sector)
  }

  lemma {:induction false} SpanCovers(o: Opt, sector: nat)
    requires o.Image? && |o.file| < INT_LIMIT && SectorOk(sector)
    ensures |o.file| <= Span(o, sector) < |o.file| + sector
    ensures if o.kind.Seco? then Span(o, sector) == |o.file| else Multiple(Span(o, sector), sector)
  {
    var k: nat :| sector == Pow2(k);
    AlignRoundsUp(|o.file|, sector, k);
  }

  lemma {:induction false} PlaceInOrder(l: Layout, opts: seq<Opt>, o: Opt, sector: nat, dcdSkip: bool)
    requires SectorOk(sector) && InOrder(l, opts, sector) && Place(l, o, sector, dcdSkip).Some?
    ensures InOrder(Place(l, o, sector, dcdSkip).value, opts + [o], sector)
  {
    var l', opts' := Place(l, o, sector, dcdSkip).value, opts + [o];
    assert l.fileOff <= l'.fileOff && |l'.srcs| == |opts'|;
    assert forall k :: 0 <= k < |opts| ==> opts'[k] == opts[k] && l'.srcs[k] == l.srcs[k];
    assert o.Image? ==> l'.srcs[|opts|] == l.fileOff && l'.fileOff == l.fileOff + Span(o, sector);
  }

  lemma {:induction false} EntryStays(e: Entry, l: Layout, l': Layout, opts: seq<Opt>, o: Opt, sector: nat)
    requires 0 < sector < INT_LIMIT && EntryOk(e, l, opts, sector) && l.srcs <= l'.srcs && |l'.srcs| == |opts| + 1
    ensures EntryOk(e, l', opts + [o], sector)
  {
    assert (opts + [o])[e.image] == opts[e.image] && l'.srcs[e.image] == l.srcs[e.image];
  }

  lemma {:induction false} EntriesStay(es: seq<Entry>, l: Layout, l': Layout, opts: seq<Opt>, o: Opt, sector: nat)
    requires 0 < sector < INT_LIMIT && EntriesOk(es, l, opts, sector) && l.srcs <= l'.srcs && |l'.srcs| == |opts| + 1
    ensures EntriesOk(es, l', opts + [o], sector)
  {
    forall j | 0 <= j < |es| ensures EntryOk(es[j], l', opts + [o], sector) {
      EntryStays(es[j], l, l', opts, o, sector);
    }
  }

  lemma {:induction false} PlaceTables(l: Layout, opts: seq<Opt>, o: Opt, sector: nat, dcdSkip: bool)
    requires 0 < sector < INT_LIMIT && |l.srcs| == |opts| && IMAGE_START <= l.fileOff && WellFormed(o)
    requires TablesOk(l, opts, sector) && Place(l, o, sector, dcdSkip).Some?
    ensures TablesOk(Place(l, o, sector, dcdSkip).value, opts + [o], sector)
  {
    var l', opts' := Place(l, o, sector, dcdSkip).value, opts + [o];
    assert l.srcs <= l'.srcs;
    forall c | 0 <= c < |l'.conts| ensures EntriesOk(l'.conts[c], l', opts', sector) {
      if c < |l.conts| {
        EntriesStay(l.conts[c], l, l', opts, o, sector);
        if o.Image? && c == |l.conts| - 1 {
          assert opts'[|opts|] == o && l'.srcs[|opts|] == l.fileOff;
        }
      }
    }
  }

  /** The layout of every option list that is accepted. */
  lemma {:induction false} LayoutSound(opts: seq<Opt>, sector: nat, dcdSkip: bool)
    requires SectorOk(sector) && PlaceAll(opts, sector, dcdSkip).Some?
    requires forall k :: 0 <= k < |opts| ==> WellFormed(opts[k])
    ensures InOrder(PlaceAll(opts, sector, dcdSkip).value, opts, sector)
    ensures TablesOk(PlaceAll(opts, sector, dcdSkip).value, opts, sector)
  {
    if opts != [] {
      var init, o := opts[..|opts| - 1], opts[|opts| - 1];
      LayoutSound(init, sector, dcdSkip);
      var l := PlaceAll(init, sector, dcdSkip).value;
      assert init + [o] == opts;
      PlaceInOrder(l, init, o, sector, dcdSkip);
      PlaceTables(l, init, o, sector, dcdSkip);
    }
  }

  /** Some entry was made for image `k`, with its reserved size. */
  ghost predicate Listed(l: Layout, k: nat, size: nat) {
    exists c, j :: 0 <= c < |l.conts| && 0 <= j < |l.conts[c]| && l.conts[c][j].image == k && l.conts[c][j].size == size
  }

  lemma {:induction false} ListedStays(l: Layout, o: Opt, sector: nat, dcdSkip: bool, k: nat, size: nat)
    requires 0 < sector < INT_LIMIT && Place(l, o, sector, dcdSkip).Some? && Listed(l, k, size)
    ensures Listed(Place(l, o, sector, dcdSkip).value, k, size)
  {
    var l' := Place(l, o, sector, dcdSkip).value;
    var c, j :| 0 <= c < |l.conts| && 0 <= j < |l.conts[c]| && l.conts[c][j].image == k && l.conts[c][j].size == size;
    assert c < |l'.conts| && l.conts[c] <= l'.conts[c];
    assert l'.conts[c][j] == l.conts[c][j];
  }

  /** Every image of an accepted option list has an entry of its own. */
  lemma {:induction false} EveryImageListed(opts: seq<Opt>, sector: nat, dcdSkip: bool, k: nat)
    requires 0 < sector < INT_LIMIT && PlaceAll(opts, sector, dcdSkip).Some? && k < |opts| && opts[k].Image?
    ensures |PlaceAll(opts, sector, dcdSkip).value.srcs| == |opts|
    ensures Listed(PlaceAll(opts, sector, dcdSkip).value, k, Span(opts[k], sector))
  {
    var n := |opts| - 1;
    var l := PlaceAll(opts[..n], sector, dcdSkip).value;
    SrcPerOption(opts, sector, dcdSkip);
    if k < n {
      EveryImageListed(opts[..n], sector, dcdSkip, k);
      ListedStays(l, opts[n], sector, dcdSkip, k, Span(opts[k], sector));
    } else {
      SrcPerOption(opts[..n], sector, dcdSkip);
      var l' := PlaceAll(opts, sector, dcdSkip).value;
      var c := |l.conts| - 1;
      assert l'.conts[c][|l.conts[c]|] == Entry(l.fileOff, Span(opts[k], sector), opts[k].fields, n);
    }
  }

  lemma {:induction false} SrcPerOption(opts: seq<Opt>, sector: nat, dcdSkip: bool)
    requires 0 < sector < INT_LIMIT && PlaceAll(opts, sector, dcdSkip).Some?
    ensures |PlaceAll(opts, sector, dcdSkip).value.srcs| == |opts|
  {
    if opts != [] {
      SrcPerOption(opts[..|opts| - 1], sector, dcdSkip);
    }
  }
}
