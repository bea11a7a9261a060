/**
 The container headers as bytes: flattening them, and reading the place of every
 image back.
 */
module ContainerHeader {
  import opened Bits
  import opened Bytes
  import opened Container

  const HEADER_TAG: byte := 0x87
  const SIG_BLOCK_TAG: byte := 0x90
  const SIG_BLOCK_LENGTH: nat := 16
  const FLAGS_DEFAULT: uint32 := 0x10

  /** Header fields that come from the command line. */
  datatype Versions = Versions(sw: uint16, fuse: byte)

  function LE16(v: uint16): (r: seq<byte>)
    ensures |r| == 2
  {
    [v % 0x100, v / 0x100]
  }

  function FromLE16(s: seq<byte>): (v: uint16)
    requires |s| == 2
  {
    var low: int, high: int := s[0], s[1];
    low + 0x100 * high
  }

  function HeaderLength(n: nat): nat {
    IMG_ARRAY_OFFSET + IMG_ENTRY_SIZE * n + SIG_BLOCK_LENGTH
  }

  function HeaderFields(n: nat, v: Versions): (r: seq<byte>)
    requires n <= MAX_NUM_IMGS
    ensures |r| == 16 && r[3] == HEADER_TAG && r[11] == n
  {
    [0] + LE16(HeaderLength(n)) + [HEADER_TAG] + LE32(FLAGS_DEFAULT) + LE16(v.sw) + [v.fuse, n]
      + LE16(IMG_ARRAY_OFFSET + IMG_ENTRY_SIZE * n) + [0, 0]
  }

  /** An entry with its offset counted from the container's start; unsigned 32-bit. */
  function Adjusted(e: Entry, start: uint32): Entry {
    Entry((e.offset - start) % 0x1_0000_0000, e.size, e.fields, e.image)
  }

  function AdjustAll(es: seq<Entry>, start: uint32): (r: seq<Entry>)
    ensures |r| == |es|
  {
    seq(|es|, j requires 0 <= j < |es| => Adjusted(es[j], start))
  }

  function EntryBytes(e: Entry): seq<byte> {
    LE32(e.offset) + LE32(e.size) + e.fields
  }

  function SigBlock(): (r: seq<byte>)
    ensures |r| == SIG_BLOCK_LENGTH
  {
    [0] + LE16(16) + [SIG_BLOCK_TAG] + Zeros(12)
  }

  lemma {:induction false} AlignmentPower() returns (k: nat)
    ensures Pow2(k) == CONTAINER_ALIGNMENT
  {
    k := 10;
    assert Pow2(2) == 4;
    Pow2Byte(2);
  }

  /** With at most six entries a header fills exactly one unit of 0x400 bytes. */
  lemma {:induction false} PaddedHeader(n: nat)
    requires n <= MAX_NUM_IMGS
    ensures Align(HeaderLength(n), CONTAINER_ALIGNMENT) == CONTAINER_ALIGNMENT
  {
    var k := AlignmentPower();
    AlignRoundsUp(HeaderLength(n), CONTAINER_ALIGNMENT, k);
    var x := Align(HeaderLength(n), CONTAINER_ALIGNMENT);
    assert Multiple(CONTAINER_ALIGNMENT, CONTAINER_ALIGNMENT) by {
      assert Multiple(0, CONTAINER_ALIGNMENT);
    }
    MultipleGap(x, CONTAINER_ALIGNMENT, CONTAINER_ALIGNMENT);
    MultipleGap(CONTAINER_ALIGNMENT, x, CONTAINER_ALIGNMENT);
  }

  predicate Sized(es: seq<Entry>) {
    |es| <= MAX_NUM_IMGS && forall j :: 0 <= j < |es| ==> |es[j].fields| == 120
  }

  /** Zero bytes behind a header of `n` entries. */
  function Padding(n: nat): nat
    requires n <= MAX_NUM_IMGS
  {
    PaddedHeader(n);
    Align(HeaderLength(n), CONTAINER_ALIGNMENT) - HeaderLength(n)
  }

  /** One container header, as it stands in the file at `start`. */
  function ContainerBytes(es: seq<Entry>, start: uint32, v: Versions): seq<byte>
    requires Sized(es)
  {
    HeaderFields(|es|, v) + Flat(AdjustAll(es, start), EntryBytes) + SigBlock() + Zeros(Padding(|es|))
  }

  lemma {:induction false} EntriesLength(es: seq<Entry>)
    requires forall j :: 0 <= j < |es| ==> |es[j].fields| == 120
    ensures |Flat(es, EntryBytes)| == IMG_ENTRY_SIZE * |es|
  {
    if es != [] {
      EntriesLength(es[..|es| - 1]);
    }
  }

  lemma {:induction false} ContainerLength(es: seq<Entry>, start: uint32, v: Versions)
    requires Sized(es)
    ensures |ContainerBytes(es, start, v)| == CONTAINER_ALIGNMENT
  {
    EntriesLength(AdjustAll(es, start));
    PaddedHeader(|es|);
  }

  ghost predicate AllSized(conts: seq<seq<Entry>>) {
    |conts| <= MAX_NUM_OF_CONTAINER && forall c :: 0 <= c < |conts| ==> Sized(conts[c])
  }

  /** All container headers, one after the other. */
  ghost function Headers(conts: seq<seq<Entry>>, v: Versions): seq<byte>
    requires AllSized(conts)
  {
    if conts == [] then []
    else Headers(conts[..|conts| - 1], v) + ContainerBytes(conts[|conts| - 1], CONTAINER_ALIGNMENT * (|conts| - 1), v)
  }

  lemma {:induction false} HeadersLength(conts: seq<seq<Entry>>, v: Versions)
    requires AllSized(conts)
    ensures |Headers(conts, v)| == CONTAINER_ALIGNMENT * |conts|
  {
    if conts != [] {
      HeadersLength(conts[..|conts| - 1], v);
      ContainerLength(conts[|conts| - 1], CONTAINER_ALIGNMENT * (|conts| - 1), v);
    }
  }

  lemma {:induction false} SliceOfPrefix(out: seq<byte>, hs: seq<byte>, at: nat, b: seq<byte>)
    requires hs <= out && at + |b| <= |hs| && hs[at..at + |b|] == b
    ensures out[at..at + |b|] == b
  {
    assert out[..|hs|] == hs;
    assert out[at..at + |b|] == out[..|hs|][at..at + |b|];
  }

  lemma {:induction false} SliceOfSlice(out: seq<byte>, at: nat, b: seq<byte>, off: nat, e: seq<byte>)
    requires at + |b| <= |out| && out[at..at + |b|] == b && off + |e| <= |b| && b[off..off + |e|] == e
    ensures out[at + off..at + off + |e|] == e
  {
    var x := out[at + off..at + off + |e|];
    forall i | 0 <= i < |e| ensures x[i] == e[i] {
      assert e[i] == b[off..off + |e|][i] == b[off + i];
      assert b[off + i] == out[at..at + |b|][off + i] == out[at + (off + i)];
    }
  }

  lemma {:induction false} SliceOfConcat(a: seq<byte>, b: seq<byte>)
    ensures a <= a + b && (a + b)[|a|..|a| + |b|] == b
  {
  }

  /** Container `c` stands at `0x400 * c`. */
  lemma {:induction false} ContainerAt(conts: seq<seq<Entry>>, v: Versions, c: nat)
    requires AllSized(conts) && c < |conts|
    ensures var at := CONTAINER_ALIGNMENT * c;
      && at + CONTAINER_ALIGNMENT <= |Headers(conts, v)|
      && Headers(conts, v)[at..at + CONTAINER_ALIGNMENT] == ContainerBytes(conts[c], at, v)
  {
    var n := |conts| - 1;
    LastContainer(conts, v);
    if c < n {
      ContainerAt(conts[..n], v, c);
      assert conts[..n][c] == conts[c];
      ContainerLength(conts[c], CONTAINER_ALIGNMENT * c, v);
      SliceOfPrefix(Headers(conts, v), Headers(conts[..n], v), CONTAINER_ALIGNMENT * c,
        ContainerBytes(conts[c], CONTAINER_ALIGNMENT * c, v));
    }
  }

  lemma {:induction false} LastContainer(conts: seq<seq<Entry>>, v: Versions)
    requires AllSized(conts) && conts != []
    ensures var n := |conts| - 1;
      var at := CONTAINER_ALIGNMENT * n;
      && |Headers(conts[..n], v)| == at && |Headers(conts, v)| == at + CONTAINER_ALIGNMENT
      && Headers(conts[..n], v) <= Headers(conts, v)
      && Headers(conts, v)[at..at + CONTAINER_ALIGNMENT] == ContainerBytes(conts[n], at, v)
  {
    var n := |conts| - 1;
    HeadersLength(conts[..n], v);
    ContainerLength(conts[n], CONTAINER_ALIGNMENT * n, v);
    SliceOfConcat(Headers(conts[..n], v), ContainerBytes(conts[n], CONTAINER_ALIGNMENT * n, v));
  }

  /** Entry `j` of a flat entry list. */
  lemma {:induction false} EntryAt(es: seq<Entry>, j: nat)
    requires j < |es| && forall i :: 0 <= i < |es| ==> |es[i].fields| == 120
    ensures var at := IMG_ENTRY_SIZE * j;
      && at + IMG_ENTRY_SIZE <= |Flat(es, EntryBytes)|
      && Flat(es, EntryBytes)[at..at + IMG_ENTRY_SIZE] == EntryBytes(es[j])
  {
    FlatSplit(es, j, EntryBytes);
    EntriesLength(es[..j]);
    var a, b, c := Flat(es[..j], EntryBytes), EntryBytes(es[j]), Flat(es[j + 1..], EntryBytes);
    assert (a + b + c)[|a|..|a| + |b|] == b;
  }

  /** What a reader of a container header finds in entry `j`. */
  lemma {:induction false} ContainerEntry(es: seq<Entry>, start: uint32, v: Versions, j: nat)
    requires Sized(es) && j < |es|
    ensures var at, b := IMG_ARRAY_OFFSET + IMG_ENTRY_SIZE * j, ContainerBytes(es, start, v);
      at + IMG_ENTRY_SIZE <= |b| && b[at..at + IMG_ENTRY_SIZE] == EntryBytes(Adjusted(es[j], start))
  {
    var h, f, t := HeaderFields(|es|, v), Flat(AdjustAll(es, start), EntryBytes), SigBlock() + Zeros(Padding(|es|));
    EntryAt(AdjustAll(es, start), j);
    var at := IMG_ENTRY_SIZE * j;
    assert ContainerBytes(es, start, v) == h + f + t;
    assert (h + f + t)[|h| + at..|h| + at + IMG_ENTRY_SIZE] == f[at..at + IMG_ENTRY_SIZE];
  }

  lemma {:induction false} EntryFields(e: Entry)
    requires |e.fields| == 120
    ensures |EntryBytes(e)| == 128 && FromLE32(EntryBytes(e)[..4]) == e.offset
    ensures FromLE32(EntryBytes(e)[4..8]) == e.size && EntryBytes(e)[8..128] == e.fields
  {
    LE32RoundTrip(e.offset);
    LE32RoundTrip(e.size);
    assert EntryBytes(e)[..4] == LE32(e.offset) && EntryBytes(e)[4..8] == LE32(e.size);
  }

  lemma {:induction false} OffsetRestored(e: Entry, start: uint32)
    requires start <= e.offset
    ensures Adjusted(e, start).offset + start == e.offset
  {
  }

  /**
   Reading entry `j` of container `c` from any file that starts with the headers:
   the stored offset plus the container's position is the image's place.
   */
  lemma {:induction false} EntryReadBack(out: seq<byte>, conts: seq<seq<Entry>>, v: Versions, c: nat, j: nat)
    requires AllSized(conts) && c < |conts| && j < |conts[c]| && Headers(conts, v) <= out
    requires conts[c][j].offset >= IMAGE_START
    ensures var pos := CONTAINER_ALIGNMENT * c;
      var at := pos + IMG_ARRAY_OFFSET + IMG_ENTRY_SIZE * j;
      && at + IMG_ENTRY_SIZE <= |out|
      && FromLE32(out[at..at + 4]) + pos == conts[c][j].offset
      && FromLE32(out[at + 4..at + 8]) == conts[c][j].size
      && out[at + 8..at + 128] == conts[c][j].fields
  {
    var pos := CONTAINER_ALIGNMENT * c;
    var off := IMG_ARRAY_OFFSET + IMG_ENTRY_SIZE * j;
    var b, e := ContainerBytes(conts[c], pos, v), Adjusted(conts[c][j], pos);
    ContainerAt(conts, v, c);
    ContainerLength(conts[c], pos, v);
    ContainerEntry(conts[c], pos, v, j);
    EntryFields(e);
    SliceOfPrefix(out, Headers(conts, v), pos, b);
    SliceOfSlice(out, pos, b, off, EntryBytes(e));
    SliceOfSlice(out, pos + off, EntryBytes(e), 0, EntryBytes(e)[..4]);
    SliceOfSlice(out, pos + off, EntryBytes(e), 4, EntryBytes(e)[4..8]);
    SliceOfSlice(out, pos + off, EntryBytes(e), 8, EntryBytes(e)[8..128]);
    OffsetRestored(conts[c][j], pos);
  }

  /** The fixed fields of a container header, as a reader finds them at `pos`. */
  datatype Fixed = Fixed(version: byte, length: uint16, tag: byte, flags: uint32, sw: uint16, fuse: byte, images: byte,
                         sigOffset: uint16)

  function ReadFixed(b: seq<byte>, pos: nat): Fixed
    requires pos + 16 <= |b|
  {
    Fixed(b[pos], FromLE16(b[pos + 1..pos + 3]), b[pos + 3], FromLE32(b[pos + 4..pos + 8]),
          FromLE16(b[pos + 8..pos + 10]), b[pos + 10], b[pos + 11], FromLE16(b[pos + 12..pos + 14]))
  }

  /** A signature block header at `at`: version 0, its own length, tag 0x90, and no block behind it yet. */
  predicate SigBlockAt(b: seq<byte>, at: nat) {
    && at + 16 <= |b| && b[at] == 0 && FromLE16(b[at + 1..at + 3]) == 16 && b[at + 3] == 0x90
    && forall i :: at + 4 <= i < at + 16 ==> b[i] == 0
  }

  lemma {:induction false} LE16RoundTrip(v: uint16)
    ensures FromLE16(LE16(v)) == v
  {
  }

  lemma {:induction false} FixedFields(n: nat, v: Versions)
    requires n <= MAX_NUM_IMGS
    ensures ReadFixed(HeaderFields(n, v), 0) == Fixed(0, 32 + 128 * n, 0x87, 0x10, v.sw, v.fuse, n, 16 + 128 * n)
  {
    var b := HeaderFields(n, v);
    assert b[1..3] == LE16(HeaderLength(n)) && b[4..8] == LE32(FLAGS_DEFAULT) && b[8..10] == LE16(v.sw);
    assert b[12..14] == LE16(IMG_ARRAY_OFFSET + IMG_ENTRY_SIZE * n);
    LE32RoundTrip(FLAGS_DEFAULT);
  }

  lemma {:induction false} ReadFixedIn(out: seq<byte>, pos: nat, h: seq<byte>)
    requires |h| == 16 && pos + 16 <= |out| && out[pos..pos + 16] == h
    ensures ReadFixed(out, pos) == ReadFixed(h, 0)
  {
    forall i | 0 <= i < 16 ensures out[pos + i] == h[i] {
      assert out[pos + i] == out[pos..pos + 16][i];
    }
    assert out[pos + 1..pos + 3] == h[1..3] && out[pos + 4..pos + 8] == h[4..8];
    assert out[pos + 8..pos + 10] == h[8..10] && out[pos + 12..pos + 14] == h[12..14];
  }

  lemma {:induction false} SigBlockIn(out: seq<byte>, at: nat)
    requires at + 16 <= |out| && out[at..at + 16] == SigBlock()
    ensures SigBlockAt(out, at)
  {
    var s := SigBlock();
    forall i | 0 <= i < 16 ensures out[at + i] == s[i] {
      assert out[at + i] == out[at..at + 16][i];
    }
    assert s[1..3] == LE16(16) && out[at + 1..at + 3] == s[1..3];
    forall i | at + 4 <= i < at + 16 ensures out[i] == 0 {
      assert out[i] == s[i - at];
    }
  }

  /** The parts of a container header, the signature block right behind the last entry. */
  lemma {:induction false} ContainerParts(es: seq<Entry>, start: uint32, v: Versions)
    requires Sized(es)
    ensures var b, sig := ContainerBytes(es, start, v), IMG_ARRAY_OFFSET + IMG_ENTRY_SIZE * |es|;
      && |b| == CONTAINER_ALIGNMENT && sig + 16 <= |b|
      && b[..16] == HeaderFields(|es|, v) && b[sig..sig + 16] == SigBlock()
      && forall i :: sig + 16 <= i < |b| ==> b[i] == 0
  {
    ContainerLength(es, start, v);
    EntriesLength(AdjustAll(es, start));
    var h, f := HeaderFields(|es|, v), Flat(AdjustAll(es, start), EntryBytes);
    assert ContainerBytes(es, start, v) == h + f + (SigBlock() + Zeros(Padding(|es|)));
  }

  lemma {:induction false} HeaderAt(out: seq<byte>, pos: uint32, es: seq<Entry>, v: Versions)
    requires Sized(es) && pos + 0x400 <= |out| && out[pos..pos + 0x400] == ContainerBytes(es, pos, v)
    ensures var h := ReadFixed(out, pos);
      && h == Fixed(0, h.length, 0x87, 0x10, v.sw, v.fuse, |es|, 16 + 128 * |es|) && h.length == h.sigOffset + 16
      && SigBlockAt(out, pos + h.sigOffset)
      && forall i :: pos + h.length <= i < pos + 0x400 ==> out[i] == 0
  {
    FixedPart(out, pos, es, v);
    TailPart(out, pos, es, v);
  }

  lemma {:induction false} FixedPart(out: seq<byte>, pos: uint32, es: seq<Entry>, v: Versions)
    requires Sized(es) && pos + 0x400 <= |out| && out[pos..pos + 0x400] == ContainerBytes(es, pos, v)
    ensures ReadFixed(out, pos) == Fixed(0, 32 + 128 * |es|, 0x87, 0x10, v.sw, v.fuse, |es|, 16 + 128 * |es|)
  {
    ContainerParts(es, pos, v);
    FixedAt(out, pos, ContainerBytes(es, pos, v));
    FixedFields(|es|, v);
  }

  lemma {:induction false} TailPart(out: seq<byte>, pos: uint32, es: seq<Entry>, v: Versions)
    requires Sized(es) && pos + 0x400 <= |out| && out[pos..pos + 0x400] == ContainerBytes(es, pos, v)
    ensures SigBlockAt(out, pos + 16 + 128 * |es|)
    ensures forall i :: pos + 32 + 128 * |es| <= i < pos + 0x400 ==> out[i] == 0
  {
    var sig := 16 + 128 * |es|;
    ContainerParts(es, pos, v);
    SigAt(out, pos, ContainerBytes(es, pos, v), sig);
    ZerosBehind(out, pos, ContainerBytes(es, pos, v), sig + 16);
  }

  lemma {:induction false} FixedAt(out: seq<byte>, pos: nat, b: seq<byte>)
    requires pos + |b| <= |out| && out[pos..pos + |b|] == b && |b| >= 16
    ensures ReadFixed(out, pos) == ReadFixed(b[..16], 0)
  {
    SliceOfSlice(out, pos, b, 0, b[..16]);
    ReadFixedIn(out, pos, b[..16]);
  }

  lemma {:induction false} SigAt(out: seq<byte>, pos: nat, b: seq<byte>, sig: nat)
    requires pos + |b| <= |out| && out[pos..pos + |b|] == b && sig + 16 <= |b| && b[sig..sig + 16] == SigBlock()
    ensures SigBlockAt(out, pos + sig)
  {
    SliceOfSlice(out, pos, b, sig, SigBlock());
    SigBlockIn(out, pos + sig);
  }

  lemma {:induction false} ZerosBehind(out: seq<byte>, pos: nat, b: seq<byte>, from: nat)
    requires pos + |b| <= |out| && out[pos..pos + |b|] == b && forall i :: from <= i < |b| ==> b[i] == 0
    ensures forall i :: pos + from <= i < pos + |b| ==> out[i] == 0
  {
    forall i | pos + from <= i < pos + |b| ensures out[i] == 0 {
      assert out[i] == out[pos..pos + |b|][i - pos];
    }
  }

  /**
   Reading the header of container `c` from any file that starts with the headers:
   all fields are as given, the signature block offset leads to the signature block
   behind the last entry, the length is where that block ends, and zeros follow up to
   the next container.
   */
  lemma {:induction false} HeaderReadBack(out: seq<byte>, conts: seq<seq<Entry>>, v: Versions, c: nat)
    requires AllSized(conts) && c < |conts| && Headers(conts, v) <= out
    ensures 0x400 * c + 0x400 <= |out|
    ensures var pos, n := 0x400 * c, |conts[c]|;
      var h := ReadFixed(out, pos);
      && h == Fixed(0, h.length, 0x87, 0x10, v.sw, v.fuse, n, 16 + 128 * n) && h.length == h.sigOffset + 16
      && SigBlockAt(out, pos + h.sigOffset)
      && forall i :: pos + h.length <= i < pos + 0x400 ==> out[i] == 0
  {
    var pos := 0x400 * c;
    ContainerAt(conts, v, c);
    SliceOfPrefix(out, Headers(conts, v), pos, ContainerBytes(conts[c], pos, v)) by {
      ContainerLength(conts[c], pos, v);
    }
    HeaderAt(out, pos, conts[c], v);
  }
}
