/**
 Building the container file: the layout loop, the flattened headers and the
 ordered writes of the images, whose padding may spill over what follows.
 */
module ContainerBuild {
  import opened Bits
  import opened Bytes
  import opened Options
  import opened Container
  import opened ContainerHeader
  import opened ContainerPlan

  /** write(2) at an offset: the file grows, with zeros in a gap. */
  function WriteAt(out: seq<byte>, off: nat, d: seq<byte>): (r: seq<byte>)
    ensures d == [] ==> r == out
    ensures d != [] ==> |r| == if off + |d| > |out| then off + |d| else |out|
    ensures forall i :: 0 <= i < |r| ==>
      r[i] == if off <= i < off + |d| then d[i - off] else if i < |out| then out[i] else 0
  {
    if d == [] then out
    else if off + |d| <= |out| then Patch(out, off, d)
    else Patch(out + Zeros(off + |d| - |out|), off, d)
  }

  /** The bytes `d` stand in the file at `off`. */
  ghost predicate Stands(out: seq<byte>, off: nat, d: seq<byte>) {
    d != [] ==> off + |d| <= |out| && out[off..off + |d|] == d
  }

  function Padded(file: seq<byte>, n: nat): (r: seq<byte>)
    requires |file| <= n
    ensures |r| == n
  {
    file + Zeros(n - |file|)
  }

  lemma {:induction false} WriteStands(out: seq<byte>, off: nat, d: seq<byte>, e: seq<byte>)
    requires e <= d
    ensures Stands(WriteAt(out, off, d), off, e)
  {
  }

  /** A write leaves alone what stands before it. */
  lemma {:induction false} WriteBehind(out: seq<byte>, off: nat, d: seq<byte>, at: nat, e: seq<byte>)
    requires Stands(out, at, e) && at + |e| <= off
    ensures Stands(WriteAt(out, off, d), at, e)
  {
    if e != [] {
      var r := WriteAt(out, off, d);
      assert r[at..at + |e|] == out[at..at + |e|];
    }
  }

  lemma {:induction false} WriteTwice(out: seq<byte>, off: nat, a: seq<byte>, b: seq<byte>)
    requires a != []
    ensures WriteAt(WriteAt(out, off, a), off + |a|, b) == WriteAt(out, off, a + b)
  {
    if b == [] {
      assert a + b == a;
    }
  }

  /** The file after copying one image to its place. */
  function CopyOf(out: seq<byte>, off: nat, file: seq<byte>, sector: nat): seq<byte>
    requires 0 < sector < INT_LIMIT && |file| <= Align(|file|, sector)
  {
    if file == [] then out else WriteAt(out, off, Padded(file, Align(|file|, sector)))
  }

  lemma {:induction false} AlignCovers(n: nat, sector: nat)
    requires SectorOk(sector) && n < INT_LIMIT
    ensures n <= Align(n, sector) < n + sector
    ensures n == 0 ==> Align(n, sector) == 0
  {
    var k: nat :| sector == Pow2(k);
    AlignRoundsUp(n, sector, k);
    if n == 0 {
      MultipleGap(Align(n, sector), 0, sector);
    }
  }

  lemma {:induction false} PaddedPrefix(file: seq<byte>, n: nat, m: nat)
    requires |file| <= n <= m
    ensures Padded(file, n) <= Padded(file, m)
  {
  }

  /** Image `k` stands at its place, with zeros up to the size its entry tells. */
  ghost predicate ImageStands(out: seq<byte>, l: Layout, opts: seq<Opt>, sector: nat, k: nat)
    requires 0 < sector < INT_LIMIT && k < |opts| == |l.srcs|
  {
    opts[k].Image? ==>
      && |opts[k].file| <= Span(opts[k], sector)
      && Stands(out, l.srcs[k], Padded(opts[k].file, Span(opts[k], sector)))
  }

  /** Copying image `k` to its place gives image `k` and keeps what came before. */
  lemma {:induction false} CopyKeeps(out: seq<byte>, l: Layout, opts: seq<Opt>, sector: nat, hs: seq<byte>, k: nat)
    requires SectorOk(sector) && InOrder(l, opts, sector) && k < |opts| && opts[k].Image? && WellFormed(opts[k])
    requires |hs| <= IMAGE_START && hs <= out && forall j :: 0 <= j < k ==> ImageStands(out, l, opts, sector, j)
    ensures |opts[k].file| <= Align(|opts[k].file|, sector)
    ensures var out' := CopyOf(out, l.srcs[k], opts[k].file, sector);
      hs <= out' && forall j :: 0 <= j <= k ==> ImageStands(out', l, opts, sector, j)
  {
    var o, src := opts[k], l.srcs[k];
    AlignCovers(|o.file|, sector);
    SpanCovers(o, sector);
    var d := Padded(o.file, Align(|o.file|, sector));
    var out' := CopyOf(out, src, o.file, sector);
    forall j | 0 <= j <= k ensures ImageStands(out', l, opts, sector, j) {
      if j < k && opts[j].Image? {
        assert ImageStands(out, l, opts, sector, j);
        WriteBehind(out, src, d, l.srcs[j], Padded(opts[j].file, Span(opts[j], sector)));
      } else if j == k {
        PaddedPrefix(o.file, Span(o, sector), Align(|o.file|, sector));
        WriteStands(out, src, d, Padded(o.file, Span(o, sector)));
      }
    }
    PrefixKept(out, src, d, hs);
  }

  lemma {:induction false} PrefixKept(out: seq<byte>, off: nat, d: seq<byte>, hs: seq<byte>)
    requires hs <= out && |hs| <= off
    ensures hs <= WriteAt(out, off, d)
  {
    assert forall i :: 0 <= i < |hs| ==> hs[i] == out[i];
  }

  lemma {:induction false} Append(pre: seq<byte>, n: nat, d: seq<byte>)
    requires |pre| + |d| <= n
    ensures Patch(pre + Zeros(n - |pre|), |pre|, d) == (pre + d) + Zeros(n - |pre| - |d|)
  {
  }

  /** `append`: copy to the moving pointer in a zeroed buffer. */
  method AppendTo(flat: array<byte>, ptr: nat, d: seq<byte>, ghost pre: seq<byte>) returns (next: nat)
    requires ptr == |pre| && ptr + |d| <= flat.Length && flat[..] == pre + Zeros(flat.Length - |pre|)
    modifies flat
    ensures next == |pre + d| && flat[..] == (pre + d) + Zeros(flat.Length - |pre + d|)
  {
    Append(pre, flat.Length, d);
    Store(flat, ptr, d);
    next := ptr + |d|;
  }

  /** The file position and tables while options are placed, and the output file. */
  class Builder {
    var fileOff: nat
    var conts: seq<seq<Entry>>
    var srcs: seq<nat>
    var out: seq<byte>

    constructor ()
      ensures fileOff == IMAGE_START && conts == [] && srcs == [] && out == []
    {
      fileOff, conts, srcs, out := IMAGE_START, [], [], [];
    }

    function View(): Layout
      reads this
    {
      Layout(fileOff, conts, srcs)
    }

    /** `set_image_array_entry` on the current container. */
    method SetImageArrayEntry(o: Opt, offset: uint32, size: uint32, dcdSkip: bool) returns (ok: bool)
      requires o.Image? && conts != []
      modifies this`conts
      ensures ok == (|old(conts)[|old(conts)| - 1]| + |NewEntries(o, offset, size, |srcs|, dcdSkip)| <= MAX_NUM_IMGS)
      ensures ok ==> conts == old(conts)[|old(conts)| - 1 :=
        old(conts)[|old(conts)| - 1] + NewEntries(o, offset, size, |srcs|, dcdSkip)]
    {
      var last := conts[|conts| - 1];
      last := last + [Entry(offset, size, o.fields, |srcs|)];
      if o.kind.Scfw? && !dcdSkip {
        last := last + [Entry(offset, 0, o.dcdFields, |srcs|)];
      }
      if |last| > MAX_NUM_IMGS {
        return false;
      }
      assert last == conts[|conts| - 1] + NewEntries(o, offset, size, |srcs|, dcdSkip);
      conts := conts[|conts| - 1 := last];
      return true;
    }

    /** One turn of the layout loop. */
    method PlaceOption(o: Opt, sector: nat, dcdSkip: bool) returns (ok: bool)
      requires 0 < sector < INT_LIMIT
      modifies this`fileOff, this`conts, this`srcs
      ensures ok == Place(old(View()), o, sector, dcdSkip).Some?
      ensures ok ==> View() == Place(old(View()), o, sector, dcdSkip).value
    {
      var src := 0;
      match o {
        case Image(_, _, _, _) => {
          var size := Span(o, sector);
          if conts == [] || fileOff + size >= INT_LIMIT {
            return false;
          }
          ok := SetImageArrayEntry(o, fileOff, size, dcdSkip);
          if !ok {
            return;
          }
          src := fileOff;
          fileOff := fileOff + size;
        }
        case NewContainer => {
          if |conts| == MAX_NUM_OF_CONTAINER {
            return false;
          }
          conts := conts + [[]];
        }
        case Flag(_) => {
        }
        case FileOff(dst) => {
          if fileOff > dst || dst >= INT_LIMIT || dst != Align(dst, sector) {
            return false;
          }
          fileOff := dst;
        }
        case Partition(_) => {
        }
        case Unrecognized => {
          return false;
        }
      }
      srcs := srcs + [src];
      return true;
    }

    method PlaceOptions(opts: seq<Opt>, sector: nat, dcdSkip: bool) returns (ok: bool)
      requires 0 < sector < INT_LIMIT && View() == Layout(IMAGE_START, [], [])
      modifies this`fileOff, this`conts, this`srcs
      ensures ok == PlaceAll(opts, sector, dcdSkip).Some?
      ensures ok ==> View() == PlaceAll(opts, sector, dcdSkip).value
    {
      for k := 0 to |opts|
        invariant PlaceAll(opts[..k], sector, dcdSkip) == Some(View())
      {
        assert opts[..k + 1][..k] == opts[..k];
        ok := PlaceOption(opts[k], sector, dcdSkip);
        if !ok {
          PlacePrefix(opts, sector, dcdSkip, k + 1);
          return;
        }
      }
      assert opts[..|opts|] == opts;
      return true;
    }

    /** The first loop of the flattening: how large all headers are. */
    method HeaderSize() returns (size: nat)
      requires AllSized(conts)
      ensures size == CONTAINER_ALIGNMENT * |conts|
    {
      size := 0;
      for c := 0 to |conts|
        invariant size == CONTAINER_ALIGNMENT * c
      {
        PaddedHeader(|conts[c]|);
        size := size + Align(HeaderLength(|conts[c]|), CONTAINER_ALIGNMENT);
      }
    }

    /** `flatten_container_header` */
    method Flatten(v: Versions) returns (flat: array<byte>)
      requires AllSized(conts)
      ensures fresh(flat) && flat[..] == Headers(conts, v)
    {
      var size := HeaderSize();
      flat := new byte[size](_ => 0);
      FlattenInto(v, flat);
    }

    /** Its second loop, on the zeroed buffer. */
    method FlattenInto(v: Versions, flat: array<byte>)
      requires AllSized(conts) && flat.Length == CONTAINER_ALIGNMENT * |conts| && flat[..] == Zeros(flat.Length)
      modifies flat
      ensures flat[..] == Headers(conts, v)
    {
      var ptr := 0;
      assert Headers(conts[..0], v) + Zeros(flat.Length) == Zeros(flat.Length);
      for c := 0 to |conts|
        invariant ptr == CONTAINER_ALIGNMENT * c
        invariant flat[..] == Headers(conts[..c], v) + Zeros(flat.Length - ptr)
      {
        ptr := FlattenNext(c, v, flat, ptr);
      }
      AllHeaders(conts, v);
    }

    method FlattenNext(c: nat, v: Versions, flat: array<byte>, start: nat) returns (ptr: nat)
      requires AllSized(conts) && c < |conts| && flat.Length == CONTAINER_ALIGNMENT * |conts|
      requires start == CONTAINER_ALIGNMENT * c && flat[..] == Headers(conts[..c], v) + Zeros(flat.Length - start)
      modifies flat
      ensures ptr == CONTAINER_ALIGNMENT * (c + 1)
      ensures flat[..] == Headers(conts[..c + 1], v) + Zeros(flat.Length - ptr)
    {
      HeadersSnoc(conts, v, c);
      ptr := FlattenOne(conts[c], v, flat, start, Headers(conts[..c], v));
    }

    /** The header, adjusted entries, signature block and padding of one container. */
    method FlattenOne(es: seq<Entry>, v: Versions, flat: array<byte>, start: nat, ghost pre: seq<byte>)
      returns (ptr: nat)
      requires Sized(es) && start == |pre| < 0x1_0000_0000
      requires start + CONTAINER_ALIGNMENT <= flat.Length && flat[..] == pre + Zeros(flat.Length - |pre|)
      modifies flat
      ensures ptr == start + CONTAINER_ALIGNMENT
      ensures flat[..] == (pre + ContainerBytes(es, start, v)) + Zeros(flat.Length - ptr)
    {
      ptr := start;
      ghost var done := pre;
      ContainerLength(es, start, v);
      EntriesLength(AdjustAll(es, start));
      ptr := AppendTo(flat, ptr, HeaderFields(|es|, v), done);
      done := done + HeaderFields(|es|, v);
      ptr := FlattenEntries(es, flat, start, ptr, done);
      done := done + Flat(AdjustAll(es, start), EntryBytes);
      ptr := AppendTo(flat, ptr, SigBlock(), done);
      done := done + SigBlock();
      PaddedHeader(|es|);
      ptr := ptr + (Align(HeaderLength(|es|), CONTAINER_ALIGNMENT) - HeaderLength(|es|));
      PadByZeros(pre, HeaderFields(|es|, v), Flat(AdjustAll(es, start), EntryBytes), SigBlock(), Padding(|es|),
        flat.Length);
    }

    method FlattenEntries(es: seq<Entry>, flat: array<byte>, start: uint32, at: nat, ghost pre: seq<byte>)
      returns (ptr: nat)
      requires Sized(es) && at == |pre| && at + IMG_ENTRY_SIZE * |es| <= flat.Length
      requires flat[..] == pre + Zeros(flat.Length - |pre|)
      modifies flat
      ensures ptr == at + IMG_ENTRY_SIZE * |es|
      ensures flat[..] == (pre + Flat(AdjustAll(es, start), EntryBytes)) + Zeros(flat.Length - ptr)
    {
      ptr := at;
      ghost var all := AdjustAll(es, start);
      ghost var done := pre;
      EntriesPrefix(pre, all, 0);
      for j := 0 to |es|
        invariant ptr == at + IMG_ENTRY_SIZE * j == |done| && done == pre + Flat(all[..j], EntryBytes)
        invariant flat[..] == done + Zeros(flat.Length - ptr)
      {
        var e := Adjusted(es[j], start);
        EntryFields(e);
        EntriesPrefix(pre, all, j);
        ptr := AppendTo(flat, ptr, EntryBytes(e), done);
        done := done + EntryBytes(e);
      }
      assert all[..|es|] == all;
    }

    /** `copy_file_aligned`; it refuses alignments above its zero buffer. */
    method CopyFileAligned(file: seq<byte>, offset: nat, sector: nat) returns (ok: bool)
      requires SectorOk(sector) && |file| < INT_LIMIT
      modifies this`out
      ensures ok == (sector <= MAX_ALIGN)
      ensures |file| <= Align(|file|, sector)
      ensures ok ==> out == CopyOf(old(out), offset, file, sector)
    {
      AlignCovers(|file|, sector);
      if sector > MAX_ALIGN {
        return false;
      }
      if |file| == 0 {
        return true;
      }
      WriteTwice(out, offset, file, Zeros(Align(|file|, sector) - |file|));
      out := WriteAt(out, offset, file);
      out := WriteAt(out, offset + |file|, Zeros(Align(|file|, sector) - |file|));
      return true;
    }

    /** The whole tool: layout, headers, then the images in option order. */
    method Build(opts: seq<Opt>, sector: nat, dcdSkip: bool, v: Versions) returns (ok: bool)
      requires View() == Layout(IMAGE_START, [], []) && out == []
      requires SectorOk(sector) && forall k :: 0 <= k < |opts| ==> WellFormed(opts[k])
      modifies this
      ensures ok <==>
        PlaceAll(opts, sector, dcdSkip).Some? && (sector <= MAX_ALIGN || forall k :: 0 <= k < |opts| ==>
          !opts[k].Image?)
      ensures ok ==> View() == PlaceAll(opts, sector, dcdSkip).value && Finished(out, opts, View(), sector, v)
      ensures PlaceAll(opts, sector, dcdSkip).Some? <==> AllFollow(opts, sector, dcdSkip)
      ensures ok ==> forall k :: 0 <= k < |opts| && opts[k].Image? ==> HasItsEntries(View(), opts, sector, dcdSkip, k)
    {
      AcceptedOptions(opts, sector, dcdSkip);
      ok := PlaceOptions(opts, sector, dcdSkip);
      if !ok {
        return;
      }
      LayoutSound(opts, sector, dcdSkip);
      LayoutSized(View(), opts, sector);
      HeadersLength(conts, v);
      var flat := Flatten(v);
      out := WriteAt(out, 0, flat[..]);
      ok := CopyImages(opts, sector, Headers(conts, v));
      forall k | 0 <= k < |opts| && opts[k].Image? ensures HasItsEntries(View(), opts, sector, dcdSkip, k) {
        EntriesByCount(opts, sector, dcdSkip, k);
      }
    }

    /** The second pass over the options, which copies the images. */
    method CopyImages(opts: seq<Opt>, sector: nat, ghost hs: seq<byte>) returns (ok: bool)
      requires SectorOk(sector) && InOrder(View(), opts, sector) && hs <= out && |hs| <= IMAGE_START
      requires forall k :: 0 <= k < |opts| ==> WellFormed(opts[k])
      modifies this`out
      ensures ok <==> sector <= MAX_ALIGN || forall k :: 0 <= k < |opts| ==> !opts[k].Image?
      ensures ok ==> hs <= out && forall k :: 0 <= k < |opts| ==> ImageStands(out, View(), opts, sector, k)
    {
      for k := 0 to |opts|
        invariant hs <= out
        invariant forall j :: 0 <= j < k ==> ImageStands(out, View(), opts, sector, j)
        invariant sector <= MAX_ALIGN || forall j :: 0 <= j < k ==> !opts[j].Image?
      {
        if opts[k].Image? {
          CopyKeeps(out, View(), opts, sector, hs, k);
          ok := CopyFileAligned(opts[k].file, srcs[k], sector);
          if !ok {
            return;
          }
        }
      }
      return true;
    }
  }

  /** The finished file: headers in front, every image at its place, nothing in between overlaps. */
  ghost predicate Finished(out: seq<byte>, opts: seq<Opt>, l: Layout, sector: nat, v: Versions)
    requires SectorOk(sector)
  {
    && InOrder(l, opts, sector) && TablesOk(l, opts, sector) && AllSized(l.conts)
    && Headers(l.conts, v) <= out && |Headers(l.conts, v)| <= IMAGE_START
    && forall k :: 0 <= k < |opts| ==> ImageStands(out, l, opts, sector, k)
  }

  lemma {:induction false} LayoutSized(l: Layout, opts: seq<Opt>, sector: nat)
    requires 0 < sector < INT_LIMIT && TablesOk(l, opts, sector)
    ensures AllSized(l.conts)
  {
    forall c | 0 <= c < |l.conts| ensures Sized(l.conts[c]) {
      assert EntriesOk(l.conts[c], l, opts, sector);
      forall j | 0 <= j < |l.conts[c]| ensures |l.conts[c][j].fields| == 120 {
        assert EntryOk(l.conts[c][j], l, opts, sector);
      }
    }
  }

  lemma {:induction false} HeadersSnoc(conts: seq<seq<Entry>>, v: Versions, c: nat)
    requires AllSized(conts) && c < |conts|
    ensures Headers(conts[..c + 1], v) == Headers(conts[..c], v) + ContainerBytes(conts[c], CONTAINER_ALIGNMENT * c, v)
    ensures |Headers(conts[..c + 1], v)| == CONTAINER_ALIGNMENT * (c + 1)
  {
    assert conts[..c + 1][..c] == conts[..c];
    HeadersLength(conts[..c + 1], v);
  }

  lemma {:induction false} AllHeaders(conts: seq<seq<Entry>>, v: Versions)
    requires AllSized(conts)
    ensures Headers(conts[..|conts|], v) + Zeros(0) == Headers(conts, v)
  {
    assert conts[..|conts|] == conts;
  }

  lemma {:induction false} EntriesPrefix(pre: seq<byte>, all: seq<Entry>, j: nat)
    requires j <= |all|
    ensures pre + Flat(all[..0], EntryBytes) == pre
    ensures j < |all| ==> pre + Flat(all[..j + 1], EntryBytes) == pre + Flat(all[..j], EntryBytes) + EntryBytes(all[j])
  {
    if j < |all| {
      FlatSplit(all, j, EntryBytes);
    }
  }

  lemma {:induction false} PadByZeros(pre: seq<byte>, h: seq<byte>, f: seq<byte>, s: seq<byte>, p: nat, n: nat)
    requires |pre| + |h| + |f| + |s| + p <= n
    ensures (((pre + h) + f) + s) + Zeros(n - |((pre + h) + f) + s|)
         == (pre + (h + f + s + Zeros(p))) + Zeros(n - |pre| - |h| - |f| - |s| - p)
  {
  }

  lemma {:induction false} PlacePrefix(opts: seq<Opt>, sector: nat, dcdSkip: bool, k: nat)
    requires 0 < sector < INT_LIMIT && k <= |opts| && PlaceAll(opts[..k], sector, dcdSkip).None?
    ensures PlaceAll(opts, sector, dcdSkip).None?
    decreases |opts| - k
  {
    if k < |opts| {
      assert opts[..k + 1][..k] == opts[..k];
      PlacePrefix(opts, sector, dcdSkip, k + 1);
    } else {
      assert opts[..k] == opts;
    }
  }

  /**
   A reader that follows entry `j` of container `c` of a finished file finds the
   image the entry was made for, padded with zeros to the size the entry tells.
   */
  lemma {:induction false} ImageFound(out: seq<byte>, opts: seq<Opt>, l: Layout, sector: nat, v: Versions, c: nat,
      j: nat)
    requires SectorOk(sector) && Finished(out, opts, l, sector, v) && c < |l.conts| && j < |l.conts[c]|
    ensures var pos := CONTAINER_ALIGNMENT * c;
      var at := pos + IMG_ARRAY_OFFSET + IMG_ENTRY_SIZE * j;
      && at + IMG_ENTRY_SIZE <= |out|
      && var image, place, size := l.conts[c][j].image, FromLE32(out[at..at + 4]) + pos, FromLE32(out[at + 4..at + 8]);
      && image < |opts| == |l.srcs| && opts[image].Image? && place == l.srcs[image]
      && (size == 0 || (|opts[image].file| <= size && Stands(out, place, Padded(opts[image].file, size))))
  {
    EntryOf(out, opts, l, sector, v, c, j);
    EntryReadBack(out, l.conts, v, c, j);
  }

  lemma {:induction false} EntryOf(out: seq<byte>, opts: seq<Opt>, l: Layout, sector: nat, v: Versions, c: nat, j: nat)
    requires SectorOk(sector) && Finished(out, opts, l, sector, v) && c < |l.conts| && j < |l.conts[c]|
    ensures var e := l.conts[c][j];
      EntryOk(e, l, opts, sector) && (e.size != 0 ==> e.size == Span(opts[e.image], sector))
      && ImageStands(out, l, opts, sector, e.image)
  {
    assert EntriesOk(l.conts[c], l, opts, sector);
    assert EntryOk(l.conts[c][j], l, opts, sector);
  }
}
