/**
 The flattened device tree format, version 17 (Devicetree Specification v0.2,
 sections 5.2 to 5.6): header words, structure block tokens, strings block.
 */
module Fdt {
  import opened Bytes

  const FDT_MAGIC: uint32 := 0xd00dfeed
  /** Magic of a blob still being written: the complement. */
  const SW_MAGIC: uint32 := 0x2ff20112
  const LAST_VERSION: uint32 := 17
  const FIRST_VERSION: uint32 := 16

  const TAG_BEGIN_NODE: uint32 := 1
  const TAG_END_NODE: uint32 := 2
  const TAG_PROP: uint32 := 3
  const TAG_NOP: uint32 := 4
  const TAG_END: uint32 := 9

  /** Indices of the header words. */
  const MAGIC: nat := 0
  const TOTALSIZE: nat := 1
  const OFF_STRUCT: nat := 2
  const OFF_STRINGS: nat := 3
  const VERSION: nat := 5
  const SIZE_STRINGS: nat := 8
  const SIZE_STRUCT: nat := 9

  /** The header takes 40 bytes and the reserve map starts at the next multiple of 16. */
  const HEADER_SIZE: nat := 40
  const RSVMAP_OFFSET: nat := 48

  /** Sizes and offsets are C `int`s. */
  const INT_LIMIT: int := 0x8000_0000
  const TWO_32: nat := 0x1_0000_0000

  datatype Token =
    | BeginNode(name: seq<byte>)
    | EndNode
    | Prop(nameoff: uint32, value: seq<byte>)
    | Nop
    | End

  /** Conversions to C `uint32_t` and `int`. */
  function U32(x: int): uint32 {
    x % TWO_32
  }

  function I32(x: int): int {
    if U32(x) < INT_LIMIT then U32(x) else U32(x) - TWO_32
  }

  /** `FDT_TAGALIGN`. */
  function TagAlign(x: nat): (r: nat)
    ensures x <= r < x + 4 && r % 4 == 0
  {
    (x + 3) / 4 * 4
  }

  function Padded(s: seq<byte>): (r: seq<byte>)
    ensures |r| == TagAlign(|s|) && s <= r
  {
    s + Zeros(TagAlign(|s|) - |s|)
  }

  predicate GoodToken(t: Token) {
    && (t.BeginNode? ==> 0 !in t.name)
    && (t.Prop? ==> |t.value| < INT_LIMIT)
  }

  function Tag(t: Token): uint32 {
    match t
    case BeginNode(_) => TAG_BEGIN_NODE
    case EndNode => TAG_END_NODE
    case Prop(_, _) => TAG_PROP
    case Nop => TAG_NOP
    case End => TAG_END
  }

  function Encode(t: Token): (r: seq<byte>)
    ensures |r| >= 4 && |r| % 4 == 0
  {
    match t
    case BeginNode(name) => BE32(TAG_BEGIN_NODE) + Padded(name + [0])
    case EndNode => BE32(TAG_END_NODE)
    case Prop(nameoff, value) => BE32(TAG_PROP) + BE32(|value| % TWO_32) + BE32(nameoff) + Padded(value)
    case Nop => BE32(TAG_NOP)
    case End => BE32(TAG_END)
  }

  predicate GoodTokens(ts: seq<Token>) {
    forall i :: 0 <= i < |ts| ==> GoodToken(ts[i])
  }

  /** The structure block of a list of tokens. */
  function EncodeAll(ts: seq<Token>): seq<byte> {
    Flat(ts, Encode)
  }

  /** Byte offset of token `i` in the structure block. */
  function Offset(ts: seq<Token>, i: nat): nat
    requires i <= |ts|
  {
    |Flat(ts[..i], Encode)|
  }

  /** Big-endian 32-bit words, one after the other. */
  function Words(ws: seq<uint32>): (r: seq<byte>)
    ensures |r| == 4 * |ws|
  {
    seq(4 * |ws|, i requires 0 <= i < 4 * |ws| => BE32(ws[i / 4])[i % 4])
  }

  lemma {:induction false} WordAt(ws: seq<uint32>, i: nat)
    requires i < |ws|
    ensures Words(ws)[4 * i..4 * i + 4] == BE32(ws[i])
  {
    forall k | 0 <= k < 4 ensures Words(ws)[4 * i + k] == BE32(ws[i])[k] {
      assert (4 * i + k) / 4 == i && (4 * i + k) % 4 == k;
    }
  }

  lemma {:induction false} WordSet(ws: seq<uint32>, i: nat, v: uint32)
    requires i < |ws|
    ensures Patch(Words(ws), 4 * i, BE32(v)) == Words(ws[i := v])
  {
    forall k | 0 <= k < 4 * |ws| ensures Patch(Words(ws), 4 * i, BE32(v))[k] == Words(ws[i := v])[k] {
      assert 4 * i <= k < 4 * i + 4 <==> k / 4 == i;
    }
  }

  /** Header word `i` of a blob. */
  function Field(b: seq<byte>, i: nat): uint32
    requires 4 * i + 4 <= |b|
  {
    FromBE32(b[4 * i..4 * i + 4])
  }

  lemma {:induction false} FieldOfWords(ws: seq<uint32>, rest: seq<byte>, i: nat)
    requires i < |ws|
    ensures Field(Words(ws) + rest, i) == ws[i]
  {
    WordAt(ws, i);
    var w := (Words(ws) + rest)[4 * i..4 * i + 4];
    assert w == BE32(ws[i]);
    BE32RoundTrip(ws[i]);
  }

  lemma {:induction false} FieldSet(ws: seq<uint32>, rest: seq<byte>, i: nat, v: uint32)
    requires i < |ws|
    ensures Patch(Words(ws) + rest, 4 * i, BE32(v)) == Words(ws[i := v]) + rest
  {
    WordSet(ws, i, v);
    assert Patch(Words(ws) + rest, 4 * i, BE32(v)) == Patch(Words(ws), 4 * i, BE32(v)) + rest;
  }

  /** A blob with the header words its readers use. */
  datatype Blob = Blob(bytes: seq<byte>, total: uint32, offStruct: uint32, offStrings: uint32, version: uint32,
                       sizeStrings: uint32, sizeStruct: uint32)

  function Parse(b: seq<byte>): Blob
    requires |b| >= HEADER_SIZE
  {
    Blob(b, Field(b, TOTALSIZE), Field(b, OFF_STRUCT), Field(b, OFF_STRINGS), Field(b, VERSION),
         Field(b, SIZE_STRINGS), Field(b, SIZE_STRUCT))
  }
}
