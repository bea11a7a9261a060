/**
 What `fdt_finish` makes of a writer: the strings moved down to the structure
 block, every property's name offset turned into an offset from their start,
 and the header of a complete blob.
 */
module FdtFinish {
  import opened Bytes
  import opened Fdt
  import opened FdtWriter
  import opened FdtWalk

  /** Name offsets counted from the end become offsets from the start of `n` string bytes. */
  function Fix(t: Token, n: nat): Token {
    if t.Prop? then Prop((t.nameoff + n) % TWO_32, t.value) else t
  }

  /** The first `k` tokens fixed. */
  function FixFirst(ts: seq<Token>, n: nat, k: nat): (us: seq<Token>)
    ensures |us| == |ts|
    ensures forall i :: 0 <= i < |ts| ==> us[i] == if i < k then Fix(ts[i], n) else ts[i]
  {
    seq(|ts|, i requires 0 <= i < |ts| => if i < k then Fix(ts[i], n) else ts[i])
  }

  /** The tokens of the finished blob. */
  function FinalTokens(w: Writer): seq<Token> {
    FixFirst(w.tokens + [End], |w.strings|, |w.tokens| + 1)
  }

  /** A buffer by its parts: header words, reserve map, structure block, and what follows. */
  function Staged(ws: seq<uint32>, pre: seq<byte>, ts: seq<Token>, rest: seq<byte>): seq<byte> {
    Words(ws) + pre + EncodeAll(ts) + rest
  }

  function Pre(w: Writer): (r: seq<byte>)
    ensures HEADER_SIZE + |r| == OffStruct(w)
  {
    Zeros(8) + ReserveMap(w)
  }

  /** Header words of the finished blob. */
  function FinalFields(w: Writer): (ws: seq<uint32>)
    requires Roomy(w) && Gap(w) >= 4
    ensures |ws| == 10
  {
    var strings := OffStruct(w) + |Structure(w)| + 4;
    [FDT_MAGIC, strings + |w.strings|, OffStruct(w), strings, RSVMAP_OFFSET, LAST_VERSION, FIRST_VERSION, 0,
     |w.strings|, |Structure(w)| + 4]
  }

  function FinalBlob(w: Writer): seq<byte>
    requires Roomy(w) && Gap(w) >= 4
  {
    Staged(FinalFields(w), Pre(w), FinalTokens(w), w.strings)
  }

  lemma {:induction false} FlatSameLengths<T>(ts: seq<T>, us: seq<T>, f: T -> seq<byte>)
    requires |ts| == |us| && forall i :: 0 <= i < |ts| ==> |f(ts[i])| == |f(us[i])|
    ensures |Flat(ts, f)| == |Flat(us, f)|
  {
    if ts != [] {
      FlatSameLengths(ts[..|ts| - 1], us[..|us| - 1], f);
      assert |f(ts[|ts| - 1])| == |f(us[|ts| - 1])|;
    }
  }

  lemma {:induction false} FixKeepsLength(t: Token, n: nat)
    ensures |Encode(Fix(t, n))| == |Encode(t)|
  {
  }

  /** Fixing names moves no token. */
  lemma {:induction false} FixKeepsOffsets(ts: seq<Token>, n: nat, k: nat, i: nat)
    requires i <= |ts|
    ensures Offset(FixFirst(ts, n, k), i) == Offset(ts, i)
  {
    var us := FixFirst(ts, n, k);
    forall j | 0 <= j < i ensures |Encode(ts[..i][j])| == |Encode(us[..i][j])| {
      FixKeepsLength(ts[j], n);
    }
    FlatSameLengths(ts[..i], us[..i], Encode);
  }

  lemma {:induction false} FixKeepsSize(ts: seq<Token>, n: nat, k: nat)
    ensures |EncodeAll(FixFirst(ts, n, k))| == |EncodeAll(ts)|
  {
    FixKeepsOffsets(ts, n, k, |ts|);
    assert ts[..|ts|] == ts && FixFirst(ts, n, k)[..|ts|] == FixFirst(ts, n, k);
  }

  lemma {:induction false} FixKeepsGood(ts: seq<Token>, n: nat, k: nat)
    requires GoodTokens(ts)
    ensures GoodTokens(FixFirst(ts, n, k))
  {
  }

  /** The header words of a staged buffer describe it. */
  ghost predicate Describes(ws: seq<uint32>, pre: seq<byte>, ts: seq<Token>, rest: seq<byte>) {
    && |ws| == 10 && GoodTokens(ts)
    && ws[OFF_STRUCT] == HEADER_SIZE + |pre| && ws[SIZE_STRUCT] == |EncodeAll(ts)|
    && ws[VERSION] == LAST_VERSION && ws[TOTALSIZE] < INT_LIMIT
    && ws[OFF_STRUCT] + ws[SIZE_STRUCT] <= ws[TOTALSIZE] <= HEADER_SIZE + |pre| + |EncodeAll(ts)| + |rest|
  }

  lemma {:induction false} StagedFields(ws: seq<uint32>, pre: seq<byte>, ts: seq<Token>, rest: seq<byte>)
    requires |ws| == 10
    ensures var b := Staged(ws, pre, ts, rest);
      |b| >= HEADER_SIZE && Parse(b) == Blob(b, ws[TOTALSIZE], ws[OFF_STRUCT], ws[OFF_STRINGS], ws[VERSION],
                                             ws[SIZE_STRINGS], ws[SIZE_STRUCT])
  {
    var tail := pre + EncodeAll(ts) + rest;
    assert Staged(ws, pre, ts, rest) == Words(ws) + tail;
    FieldOfWords(ws, tail, TOTALSIZE);
    FieldOfWords(ws, tail, OFF_STRUCT);
    FieldOfWords(ws, tail, OFF_STRINGS);
    FieldOfWords(ws, tail, VERSION);
    FieldOfWords(ws, tail, SIZE_STRINGS);
    FieldOfWords(ws, tail, SIZE_STRUCT);
  }

  lemma {:induction false} StagedHasTokens(ws: seq<uint32>, pre: seq<byte>, ts: seq<Token>, rest: seq<byte>)
    requires Describes(ws, pre, ts, rest)
    ensures |Staged(ws, pre, ts, rest)| >= HEADER_SIZE && HasTokens(Parse(Staged(ws, pre, ts, rest)), ts)
  {
    StagedFields(ws, pre, ts, rest);
    MiddleOf(Words(ws) + pre, EncodeAll(ts), rest);
  }

  lemma {:induction false} MiddleOf(x: seq<byte>, y: seq<byte>, z: seq<byte>)
    ensures (x + y + z)[|x|..|x| + |y|] == y
  {
  }

  lemma {:induction false} FlatUpdate<T>(ts: seq<T>, k: nat, t: T, f: T -> seq<byte>)
    requires k < |ts|
    ensures Flat(ts[k := t], f) == Flat(ts[..k], f) + f(t) + Flat(ts[k + 1..], f)
  {
    var us := ts[k := t];
    FlatSplit(us, k, f);
    assert us[..k] == ts[..k] && us[k + 1..] == ts[k + 1..];
  }

  lemma {:induction false} NameoffPatch(a: uint32, b: uint32, value: seq<byte>)
    ensures Patch(Encode(Prop(a, value)), 8, BE32(b)) == Encode(Prop(b, value))
  {
  }

  /** Patching inside one token of the structure block. */
  lemma {:induction false} PatchInside(x: seq<byte>, p: seq<byte>, e: seq<byte>, q: seq<byte>, z: seq<byte>, at: nat,
      d: seq<byte>)
    requires at + |d| <= |e|
    ensures Patch(x + (p + e + q) + z, |x| + |p| + at, d) == x + (p + Patch(e, at, d) + q) + z
  {
  }

  /** One iteration of the loop in `fdt_finish`. */
  lemma {:induction false} FixOne(ws: seq<uint32>, pre: seq<byte>, ts: seq<Token>, n: nat, k: nat, rest: seq<byte>)
    requires k < |ts| && ts[k].Prop? && |ws| == 10
    ensures var at := HEADER_SIZE + |pre| + Offset(ts, k) + 8;
      && at + 4 <= |Staged(ws, pre, FixFirst(ts, n, k), rest)|
      && Patch(Staged(ws, pre, FixFirst(ts, n, k), rest), at, BE32((ts[k].nameoff + n) % TWO_32))
         == Staged(ws, pre, FixFirst(ts, n, k + 1), rest)
  {
    var us, v := FixFirst(ts, n, k), Fix(ts[k], n);
    var p, q := Flat(us[..k], Encode), Flat(us[k + 1..], Encode);
    assert FixFirst(ts, n, k + 1) == us[k := v];
    FixKeepsOffsets(ts, n, k, k);
    FlatSplit(us, k, Encode);
    FlatUpdate(us, k, v, Encode);
    NameoffPatch(ts[k].nameoff, v.nameoff, ts[k].value);
    PatchInside(Words(ws) + pre, p, Encode(us[k]), q, rest, 8, BE32(v.nameoff));
  }

  lemma {:induction false} FixNone(ts: seq<Token>, n: nat, k: nat)
    requires k < |ts| && !ts[k].Prop?
    ensures FixFirst(ts, n, k + 1) == FixFirst(ts, n, k)
  {
  }

  /** Moving the strings down does not touch the structure block. */
  lemma {:induction false} MoveStrings(a: seq<byte>, f: seq<byte>, g: nat, z: seq<byte>) returns (tail: seq<byte>)
    ensures |tail| == g && Patch(a + (f + Zeros(g) + z), |a| + |f|, z) == a + (f + (z + tail))
  {
    var b := Patch(a + (f + Zeros(g) + z), |a| + |f|, z);
    tail := b[|a| + |f| + |z|..];
    assert b == a + (f + (z + tail));
  }

  /** What the loop sees at token `k` when the tokens before it are fixed. */
  lemma {:induction false} StagedStep(ws: seq<uint32>, pre: seq<byte>, ts: seq<Token>, n: nat, k: nat, rest: seq<byte>)
    requires Describes(ws, pre, ts, rest) && k < |ts|
    ensures |Staged(ws, pre, FixFirst(ts, n, k), rest)| >= HEADER_SIZE
    ensures var b := Parse(Staged(ws, pre, FixFirst(ts, n, k), rest));
      && b.offStruct == HEADER_SIZE + |pre| && b.sizeStrings == ws[SIZE_STRINGS]
      && Sound(b) && IsInt(Offset(ts, k)) && NextTag(b, Offset(ts, k)) == TagAt(Tag(ts[k]), Offset(ts, k + 1))
      && (ts[k].Prop? ==> Offset(ts, k) + 12 <= Room(b) && Word(b, Offset(ts, k) + 8) == ts[k].nameoff)
  {
    var us := FixFirst(ts, n, k);
    FixKeepsSize(ts, n, k);
    FixKeepsGood(ts, n, k);
    StagedFields(ws, pre, us, rest);
    StagedHasTokens(ws, pre, us, rest);
    var b := Parse(Staged(ws, pre, us, rest));
    FixKeepsOffsets(ts, n, k, k);
    FixKeepsOffsets(ts, n, k, k + 1);
    NextTagAt(b, us, k);
    if ts[k].Prop? {
      TokenBytes(b, us, k);
      PropBytes(b, Offset(ts, k), ts[k].nameoff, ts[k].value);
    }
  }

  /** The finished buffer begins with the final blob. */
  lemma {:induction false} FinalParts(w: Writer, ws: seq<uint32>, tail: seq<byte>)
    requires Roomy(w) && Gap(w) >= 4 && ws == FinalFields(w)
    ensures FinalBlob(w) <= Staged(ws, Pre(w), FinalTokens(w), w.strings + tail)
    ensures Field(Staged(ws, Pre(w), FinalTokens(w), w.strings + tail), MAGIC) == FDT_MAGIC
  {
    var rest := Pre(w) + EncodeAll(FinalTokens(w)) + (w.strings + tail);
    assert Staged(ws, Pre(w), FinalTokens(w), w.strings + tail) == FinalBlob(w) + tail == Words(ws) + rest;
    FieldOfWords(ws, rest, MAGIC);
  }

  lemma {:induction false} RelocatedParts(ws: seq<uint32>, w: Writer, tail: seq<byte>)
    ensures Words(ws) + (Front(w) + (w.strings + tail)) == Staged(ws, Pre(w), w.tokens, w.strings + tail)
  {
  }

  /** The header of the relocated buffer describes it. */
  lemma {:induction false} RelocatedDescribes(w: Writer, w1: Writer, ws: seq<uint32>, tail: seq<byte>)
    requires Fits(w) && Gap(w) >= 4 && w1 == AddToken(w, End) && Roomy(w1) && |tail| == Gap(w1)
    requires ws == Fields(w1)[OFF_STRINGS := OffStruct(w1) + |Structure(w1)|]
    ensures w1.tokens != [] && w1.tokens[..|w1.tokens| - 1] == w.tokens && w1.tokens[|w1.tokens| - 1] == End
    ensures Pre(w1) == Pre(w) && Describes(ws, Pre(w1), w1.tokens, w1.strings + tail)
    ensures ws[SIZE_STRINGS] == |w.strings| && ws[OFF_STRINGS] + |w.strings| < INT_LIMIT
    ensures FixFirst(w1.tokens, |w.strings|, |w1.tokens|) == FinalTokens(w)
    ensures ws[TOTALSIZE := ws[OFF_STRINGS] + ws[SIZE_STRINGS]][MAGIC := FDT_MAGIC] == FinalFields(w)
  {
    StructureSnoc(w, End);
  }
}
