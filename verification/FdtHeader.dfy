/**
 The readers of header and reserve map, on what the writer leaves: the header
 check, and the entries found through the offset the header gives.
 */
module FdtHeader {
  import opened Bytes
  import opened Options
  import opened Fdt
  import opened FdtWriter
  import opened FdtWalk
  import opened FdtFinish
  import opened FdtRoundTrip

  const OFF_RSVMAP: nat := 4
  const LAST_COMP_VERSION: nat := 6

  const ERR_BADSTATE: int := -7
  const ERR_BADMAGIC: int := -9
  const ERR_BADVERSION: int := -10

  /** `fdt_check_header` */
  function CheckHeader(b: seq<byte>): int
    requires |b| >= HEADER_SIZE
  {
    if Field(b, MAGIC) == FDT_MAGIC then
      if Field(b, VERSION) < FIRST_VERSION || Field(b, LAST_COMP_VERSION) > LAST_VERSION then ERR_BADVERSION else 0
    else if Field(b, MAGIC) == SW_MAGIC then
      if Field(b, SIZE_STRUCT) == 0 then ERR_BADSTATE else 0
    else ERR_BADMAGIC
  }

  function FromBE64(s: seq<byte>): (v: uint64)
    requires |s| == 8
  {
    FromBE32(s[..4]) * TWO_32 + FromBE32(s[4..])
  }

  lemma {:induction false} BE64RoundTrip(v: uint64)
    ensures FromBE64(BE64(v)) == v
  {
    var hi, lo := BE32(v / TWO_32), BE32(v % TWO_32);
    assert BE64(v) == hi + lo && (hi + lo)[..4] == hi && (hi + lo)[4..] == lo;
    BE32RoundTrip(v / TWO_32);
    BE32RoundTrip(v % TWO_32);
  }

  /** `fdt_get_mem_rsv`; `None` where it would read past the buffer. */
  function MemRsv(b: seq<byte>, n: nat): Option<(uint64, uint64)>
    requires |b| >= HEADER_SIZE
  {
    var at := Field(b, OFF_RSVMAP) + 16 * n;
    if at + 16 > |b| then None else Some((FromBE64(b[at..at + 8]), FromBE64(b[at + 8..at + 16])))
  }

  /** `fdt_num_mem_rsv`, from entry `n` on: the first entry of size 0. */
  function NumMemRsv(b: seq<byte>, n: nat): Option<nat>
    requires |b| >= HEADER_SIZE
    decreases |b| - n
  {
    match MemRsv(b, n)
    case None => None
    case Some(e) => if e.1 == 0 then Some(n) else NumMemRsv(b, n + 1)
  }

  /** Its loop. */
  method FdtNumMemRsv(b: seq<byte>) returns (r: Option<nat>)
    requires |b| >= HEADER_SIZE
    ensures r == NumMemRsv(b, 0)
  {
    var i := 0;
    while true
      invariant NumMemRsv(b, i) == NumMemRsv(b, 0)
      decreases |b| - i
    {
      var e := MemRsv(b, i);
      if e.None? {
        return None;
      }
      if e.value.1 == 0 {
        return Some(i);
      }
      i := i + 1;
    }
  }

  lemma {:induction false} FinalField(w: Writer, buf: seq<byte>, i: nat)
    requires Fits(w) && Gap(w) >= 4 && FinalBlob(w) <= buf && i < 10
    ensures |FinalBlob(w)| >= HEADER_SIZE && Field(buf, i) == FinalFields(w)[i]
  {
    var rest := Pre(w) + EncodeAll(FinalTokens(w)) + w.strings;
    assert FinalBlob(w) == Words(FinalFields(w)) + rest;
    FieldOfWords(FinalFields(w), rest, i);
    SliceOfPrefix(FinalBlob(w), buf, 4 * i, 4 * i + 4);
  }

  /**
   The header of a finished blob passes the check, and places header, reserve map,
   structure block and strings one behind the other, up to the blob's size, which
   is what the writer used with its terminator.
   */
  lemma {:induction false} FinalHeader(w: Writer, buf: seq<byte>)
    requires Fits(w) && Gap(w) >= 4 && FinalBlob(w) <= buf
    ensures |FinalBlob(w)| >= HEADER_SIZE && CheckHeader(buf) == 0 && Field(buf, MAGIC) == 0xd00dfeed
    ensures Field(buf, VERSION) == 17 && Field(buf, LAST_COMP_VERSION) == 16
    ensures Field(buf, OFF_RSVMAP) == 48 && Field(buf, OFF_STRUCT) == 48 + 16 * |w.reserved|
    ensures Field(buf, OFF_STRINGS) == Field(buf, OFF_STRUCT) + Field(buf, SIZE_STRUCT)
    ensures Field(buf, TOTALSIZE) == Field(buf, OFF_STRINGS) + Field(buf, SIZE_STRINGS)
         == |FinalBlob(w)| == w.total - Gap(w) + 4
  {
    forall i | 0 <= i < 10 ensures Field(buf, i) == FinalFields(w)[i] {
      FinalField(w, buf, i);
    }
    FlatFixedLength(w.reserved, Entry, 16);
    StringsBehind(w);
  }

  /** Before the tree is finished, the check refuses the blob exactly as long as it has no token. */
  lemma {:induction false} UnfinishedHeader(w: Writer)
    requires Fits(w) && w.total >= RSVMAP_OFFSET
    ensures CheckHeader(Layout(w)) == if w.tokens == [] then ERR_BADSTATE else 0
  {
    LayoutField(w, MAGIC);
    LayoutField(w, SIZE_STRUCT);
    NoTokens(w);
  }

  lemma {:induction false} HalvesOfEntry(b: seq<byte>, at: nat, e: (uint64, uint64))
    requires at + 16 <= |b| && b[at..at + 16] == Entry(e)
    ensures FromBE64(b[at..at + 8]) == e.0 && FromBE64(b[at + 8..at + 16]) == e.1
  {
    var x := b[at..at + 16];
    assert b[at..at + 8] == x[..8] == BE64(e.0);
    assert b[at + 8..at + 16] == x[8..] == BE64(e.1);
    BE64RoundTrip(e.0);
    BE64RoundTrip(e.1);
  }

  /** Entry `k` is read back through the offset in the header. */
  lemma {:induction false} ReserveReadBack(w: Writer, buf: seq<byte>, k: nat)
    requires Fits(w) && Gap(w) >= 4 && FinalBlob(w) <= buf && k < |w.reserved|
    ensures |buf| >= HEADER_SIZE && MemRsv(buf, k) == Some(w.reserved[k])
  {
    FinalField(w, buf, OFF_RSVMAP);
    EntryInBuffer(w, buf, k);
    HalvesOfEntry(buf, RSVMAP_OFFSET + 16 * k, w.reserved[k]);
  }

  lemma {:induction false} EntryInBuffer(w: Writer, buf: seq<byte>, k: nat)
    requires Fits(w) && Gap(w) >= 4 && FinalBlob(w) <= buf && k < |w.reserved|
    ensures var at := RSVMAP_OFFSET + 16 * k; at + 16 <= |buf| && buf[at..at + 16] == Entry(w.reserved[k])
  {
    var at := RSVMAP_OFFSET + 16 * k;
    ReserveEntryAt(w, k);
    SliceOfPrefix(FinalBlob(w), buf, at, at + 16);
  }

  /** Counting from entry `k` on, where the entries are those of `rs`. */
  lemma {:induction false} CountedFrom(b: seq<byte>, rs: seq<(uint64, uint64)>, k: nat)
    requires |b| >= HEADER_SIZE && k < |rs| && forall i :: 0 <= i < |rs| ==> MemRsv(b, i) == Some(rs[i])
    requires forall i :: 0 <= i < |rs| ==> (rs[i].1 == 0 <==> i == |rs| - 1)
    ensures NumMemRsv(b, k) == Some(|rs| - 1)
    decreases |rs| - k
  {
    if k < |rs| - 1 {
      CountedFrom(b, rs, k + 1);
    }
  }

  /** A map that ends with the first entry of size 0 is counted right. */
  lemma {:induction false} ReservesCounted(w: Writer, buf: seq<byte>)
    requires Fits(w) && Gap(w) >= 4 && FinalBlob(w) <= buf && w.reserved != []
    requires forall i :: 0 <= i < |w.reserved| ==> (w.reserved[i].1 == 0 <==> i == |w.reserved| - 1)
    ensures |buf| >= HEADER_SIZE && NumMemRsv(buf, 0) == Some(|w.reserved| - 1)
  {
    FinalField(w, buf, OFF_RSVMAP);
    forall i | 0 <= i < |w.reserved| ensures MemRsv(buf, i) == Some(w.reserved[i]) {
      ReserveReadBack(w, buf, i);
    }
    CountedFrom(buf, w.reserved, 0);
  }
}
