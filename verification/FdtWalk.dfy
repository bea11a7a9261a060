/**
 Reading a flattened device tree: the bounds check every access goes through
 and the token walker, on the 32-bit arithmetic the code uses.
 */
module FdtWalk {
  import opened Bytes
  import opened Fdt

  const ERR_NOTFOUND: int := -1
  const ERR_BADOFFSET: int := -4
  const ERR_TRUNCATED: int := -8
  const ERR_BADSTRUCTURE: int := -11

  predicate IsInt(x: int) {
    -INT_LIMIT <= x < INT_LIMIT
  }

  /** A blob that lies in memory as far as its header says. */
  predicate Sound(b: Blob) {
    b.total <= |b.bytes| && b.total < INT_LIMIT
  }

  /** The header places the structure block inside the blob, and its size counts. */
  predicate Consistent(b: Blob) {
    Sound(b) && b.version >= 17 && b.offStruct + b.sizeStruct <= b.total
  }

  /** How far the structure block can be read: to its end if the version has a size, and never past the blob. */
  function Room(b: Blob): (r: nat)
    ensures b.offStruct <= b.total ==> b.offStruct + r <= b.total
    ensures Consistent(b) ==> r == b.sizeStruct
  {
    if b.offStruct > b.total then 0
    else if b.version >= 0x11 && b.offStruct + b.sizeStruct <= b.total then b.sizeStruct
    else b.total - b.offStruct
  }

  /** `fdt_offset_ptr` does not return NULL. */
  predicate OffsetPtr(b: Blob, offset: int, len: uint32)
  {
    var abs := U32(offset + b.offStruct);
    && !(abs < U32(offset) || U32(abs + len) < abs || U32(abs + len) > b.total)
    && !(b.version >= 0x11
         && (U32(offset + len) < U32(offset) || U32(offset + len) > b.sizeStruct))
  }

  /** For every header: the wrapping comparisons check the offset, taken as unsigned, against blob and structure. */
  lemma {:induction false} OffsetPtrUnsigned(b: Blob, offset: int, len: uint32)
    requires IsInt(offset)
    ensures OffsetPtr(b, offset, len) <==>
      b.offStruct + U32(offset) + len <= b.total && (b.version >= 0x11 ==> U32(offset) + len <= b.sizeStruct)
  {
    SumOfWords(offset, b.offStruct);
    SumOfWords(offset, len);
    BlobTest(U32(offset), b.offStruct, len, b.total);
    WrapTest(U32(offset), len);
  }

  lemma {:induction false} SumOfWords(x: int, y: uint32)
    ensures U32(x + y) == U32(U32(x) + y)
  {
  }

  /** A sum of two 32-bit words is below the first exactly if it wraps. */
  lemma {:induction false} WrapTest(x: uint32, y: uint32)
    ensures U32(x + y) < x <==> x + y >= TWO_32
    ensures x + y < TWO_32 ==> U32(x + y) == x + y
  {
  }

  lemma {:induction false} BlobTest(u: uint32, off: uint32, len: uint32, total: uint32)
    ensures var abs := U32(u + off);
      !(abs < u || U32(abs + len) < abs || U32(abs + len) > total) <==> off + u + len <= total
  {
    WrapTest(u, off);
    if u + off < TWO_32 {
      WrapTest(u + off, len);
    }
  }

  /** A blob of 2^31 bytes or more lets negative offsets through. */
  lemma {:induction false} NegativeOffsetPasses() returns (b: Blob, offset: int)
    ensures IsInt(offset) && offset < 0 && b.total == 0x8000_0010 && OffsetPtr(b, offset, 4)
  {
    b, offset := Blob([], 0x8000_0010, 0, 0, 16, 0, 0), -0x8000_0000;
  }

  /** Below 2^31 bytes it is a plain bounds check on what can be read of the structure block. */
  lemma {:induction false} OffsetPtrIsBounds(b: Blob, offset: int, len: uint32)
    requires Sound(b) && IsInt(offset)
    ensures OffsetPtr(b, offset, len) <==> b.offStruct <= b.total && 0 <= offset && offset + len <= Room(b)
  {
    OffsetPtrUnsigned(b, offset, len);
  }

  function Word(b: Blob, offset: nat): uint32
    requires Sound(b) && offset + 4 <= Room(b)
  {
    var at := b.offStruct + offset;
    FromBE32(b.bytes[at..at + 4])
  }

  /** Where the name scan that starts at `o` stops: one past the NUL, or -1. */
  function NameEnd(b: Blob, o: nat): (r: int)
    requires Sound(b) && o < INT_LIMIT
    ensures r == -1 || o < r <= Room(b)
    decreases INT_LIMIT - o
  {
    OffsetPtrIsBounds(b, o, 1);
    if !OffsetPtr(b, o, 1) then -1
    else if b.bytes[b.offStruct + o] == 0 then o + 1
    else NameEnd(b, o + 1)
  }

  datatype TagAt = TagAt(tag: uint32, next: int)

  /** `fdt_next_tag`: the tag at `start`, and the next token's offset or an error. */
  function NextTag(b: Blob, start: int): (r: TagAt)
    requires Sound(b) && IsInt(start)
    ensures r.next >= 0 ==> 0 <= start && start + 4 <= Room(b) && r.tag == Word(b, start)
    ensures r.next >= 0 && r.tag == TAG_PROP ==> start + 8 <= Room(b)
    ensures r.next < 0 ==> r.tag == TAG_END
    ensures r.next < INT_LIMIT + 4
  {
    OffsetPtrIsBounds(b, start, 4);
    if !OffsetPtr(b, start, 4) then TagAt(TAG_END, ERR_TRUNCATED)
    else
      var tag := Word(b, start);
      if tag == TAG_BEGIN_NODE then
        var o := NameEnd(b, start + 4);
        if o == -1 then TagAt(TAG_END, ERR_BADSTRUCTURE) else Finish(b, tag, start, o)
      else if tag == TAG_PROP then
        OffsetPtrIsBounds(b, start + 4, 4);
        if !OffsetPtr(b, start + 4, 4) then TagAt(TAG_END, ERR_BADSTRUCTURE)
        else Finish(b, tag, start, I32(start + 12 + Word(b, start + 4)))
      else if tag == TAG_END || tag == TAG_END_NODE || tag == TAG_NOP then Finish(b, tag, start, start + 4)
      else TagAt(TAG_END, ERR_BADSTRUCTURE)
  }

  /** The check on the whole token that closes `fdt_next_tag`, and the alignment of the next offset. */
  function Finish(b: Blob, tag: uint32, start: nat, o: int): (r: TagAt)
    requires Sound(b) && b.offStruct <= b.total && start < INT_LIMIT && IsInt(o)
    ensures r == (if start <= o <= Room(b) then TagAt(tag, TagAlign(o))
                  else TagAt(TAG_END, ERR_BADSTRUCTURE))
  {
    OffsetPtrIsBounds(b, start, U32(o - start));
    if !OffsetPtr(b, start, U32(o - start)) then TagAt(TAG_END, ERR_BADSTRUCTURE) else TagAt(tag, TagAlign(o))
  }

  /** A NUL stands in the structure block at or behind `o`. */
  ghost predicate HasNul(b: Blob, o: nat)
    requires Sound(b)
  {
    exists z: nat :: o <= z && NulAt(b, z)
  }

  predicate NulAt(b: Blob, z: nat)
    requires Sound(b)
  {
    z < Room(b) && b.bytes[b.offStruct + z] == 0
  }

  lemma {:induction false} NameEndsAtNul(b: Blob, o: nat)
    requires Sound(b) && o < INT_LIMIT
    ensures NameEnd(b, o) >= 0 <==> HasNul(b, o)
    decreases INT_LIMIT - o
  {
    OffsetPtrIsBounds(b, o, 1);
    if OffsetPtr(b, o, 1) && !NulAt(b, o) {
      NameEndsAtNul(b, o + 1);
    }
  }

  /**
   The tokens the walker accepts, for any bytes whatever: a name needs its NUL, a
   property its length word and its end inside the block, and the other three tags
   are one word. Anything else is a bad structure, and no word at all a short one.
   */
  lemma {:induction false} TokenAccepted(b: Blob, start: nat)
    requires Sound(b) && start < INT_LIMIT
    ensures NextTag(b, start).next == ERR_TRUNCATED <==> Room(b) < start + 4
    ensures Room(b) >= start + 4 ==>
      var tag := Word(b, start);
      if tag == 2 || tag == 4 || tag == 9 then NextTag(b, start) == TagAt(tag, TagAlign(start + 4))
      else if (tag == 1 && HasNul(b, start + 4))
        || (tag == 3 && start + 8 <= Room(b) && start <= I32(start + 12 + Word(b, start + 4)) <= Room(b))
        then NextTag(b, start).tag == tag && NextTag(b, start).next >= 0
      else NextTag(b, start) == TagAt(TAG_END, ERR_BADSTRUCTURE)
  {
    OffsetPtrIsBounds(b, start, 4);
    if OffsetPtr(b, start, 4) {
      OffsetPtrIsBounds(b, start + 4, 4);
      NameEndsAtNul(b, start + 4);
    }
  }

  lemma {:induction false} PropSpan(start: nat, len: uint32, size: nat)
    requires start <= size < INT_LIMIT && start <= I32(start + 12 + len) <= size
    ensures I32(start + 12 + len) == start <==> len == 0xFFFF_FFF4
  {
  }

  /** Every token ends past its start, but for a property that spans 2^32 bytes. */
  lemma {:induction false} TokenEnd(b: Blob, start: nat) returns (o: nat)
    requires Sound(b) && start < INT_LIMIT && NextTag(b, start).next >= 0
    ensures start <= o && NextTag(b, start).next == TagAlign(o)
    ensures o == start <==> Word(b, start) == TAG_PROP && Word(b, start + 4) == 0xFFFF_FFF4
  {
    var tag := Word(b, start);
    OffsetPtrIsBounds(b, start + 4, 4);
    if tag == TAG_PROP {
      o := I32(start + 12 + Word(b, start + 4));
      PropSpan(start, Word(b, start + 4), Room(b));
    } else {
      o := if tag == TAG_BEGIN_NODE then NameEnd(b, start + 4) else start + 4;
    }
  }

  lemma {:induction false} AlignAdvances(start: nat, o: nat)
    requires start % 4 == 0 && start <= o
    ensures if o == start then TagAlign(o) == start else TagAlign(o) >= start + 4
  {
  }

  /**
   The walker moves forward by at least one word from every token but one: a
   property whose length word is 2^32 - 12 leads back to itself.
   */
  lemma {:induction false} AdvancesUnlessStuck(b: Blob, start: nat)
    requires Sound(b) && start < INT_LIMIT && start % 4 == 0 && NextTag(b, start).next >= 0
    ensures var next := NextTag(b, start).next;
      if Word(b, start) == TAG_PROP && Word(b, start + 4) == 0xFFFF_FFF4 then next == start else next >= start + 4
  {
    var o := TokenEnd(b, start);
    AlignAdvances(start, o);
  }

  /** A blob of 52 bytes: ten header words and a structure block of three. */
  const STUCK_WORDS: seq<uint32> := [FDT_MAGIC, 52, 40, 52, 40, 17, 16, 0, 0, 12, TAG_PROP, 0xFFFF_FFF4, 0]

  /** A blob with its header on which the walker never gets past its first token. */
  lemma {:induction false} StuckBlob() returns (blob: seq<byte>)
    ensures |blob| == 52 && Field(blob, MAGIC) == FDT_MAGIC && Consistent(Parse(blob))
    ensures NextTag(Parse(blob), 0) == TagAt(TAG_PROP, 0)
  {
    blob := Words(STUCK_WORDS);
    StuckFields(blob);
    StuckStep(Parse(blob));
  }

  lemma {:induction false} StuckFields(blob: seq<byte>)
    requires blob == Words(STUCK_WORDS)
    ensures |blob| == 52 && Field(blob, MAGIC) == FDT_MAGIC && Field(blob, 10) == TAG_PROP
    ensures Field(blob, 11) == 0xFFFF_FFF4
    ensures var b := Parse(blob); b.total == 52 && b.offStruct == 40 && b.sizeStruct == 12 && b.version == 17
  {
    StuckWord(blob, MAGIC);
    StuckWord(blob, 10);
    StuckWord(blob, 11);
    StuckPlaces(blob);
  }

  lemma {:induction false} StuckPlaces(blob: seq<byte>)
    requires blob == Words(STUCK_WORDS)
    ensures |blob| == 52 && Field(blob, TOTALSIZE) == 52 && Field(blob, OFF_STRUCT) == 40
    ensures Field(blob, SIZE_STRUCT) == 12 && Field(blob, VERSION) == 17
  {
    StuckWord(blob, TOTALSIZE);
    StuckWord(blob, OFF_STRUCT);
    StuckWord(blob, VERSION);
    StuckWord(blob, SIZE_STRUCT);
  }

  lemma {:induction false} StuckWord(blob: seq<byte>, i: nat)
    requires blob == Words(STUCK_WORDS) && i < |STUCK_WORDS|
    ensures 4 * i + 4 <= |blob| && Field(blob, i) == STUCK_WORDS[i]
  {
    assert blob + [] == blob;
    FieldOfWords(STUCK_WORDS, [], i);
  }

  lemma {:induction false} StuckStep(b: Blob)
    requires Consistent(b) && b.offStruct == 40 && b.sizeStruct == 12
    requires Field(b.bytes, 10) == TAG_PROP && Field(b.bytes, 11) == 0xFFFF_FFF4
    ensures NextTag(b, 0) == TagAt(TAG_PROP, 0)
  {
    assert Word(b, 0) == Field(b.bytes, 10) && Word(b, 4) == Field(b.bytes, 11);
    OffsetPtrIsBounds(b, 0, 4);
    OffsetPtrIsBounds(b, 4, 4);
  }

  /** The scan over a node name. */
  method SkipName(b: Blob, from: nat) returns (end: int)
    requires Sound(b) && from < INT_LIMIT
    ensures end == NameEnd(b, from)
  {
    var offset := from;
    while true
      invariant from <= offset < INT_LIMIT && NameEnd(b, offset) == NameEnd(b, from)
      decreases INT_LIMIT - offset
    {
      OffsetPtrIsBounds(b, offset, 1);
      if !OffsetPtr(b, offset, 1) {
        return -1;
      }
      if b.bytes[b.offStruct + offset] == 0 {
        return offset + 1;
      }
      offset := offset + 1;
    }
  }

  /** `fdt_next_tag` as it runs. */
  method FdtNextTag(b: Blob, startoffset: int) returns (tag: uint32, nextoffset: int)
    requires Sound(b) && IsInt(startoffset)
    ensures TagAt(tag, nextoffset) == NextTag(b, startoffset)
  {
    var offset := startoffset;
    OffsetPtrIsBounds(b, offset, 4);
    if !OffsetPtr(b, offset, 4) {
      return TAG_END, ERR_TRUNCATED;
    }
    tag := Word(b, offset);
    offset := offset + 4;
    if tag == TAG_BEGIN_NODE {
      offset := SkipName(b, offset);
      if offset == -1 {
        return TAG_END, ERR_BADSTRUCTURE;
      }
    } else if tag == TAG_PROP {
      OffsetPtrIsBounds(b, offset, 4);
      if !OffsetPtr(b, offset, 4) {
        return TAG_END, ERR_BADSTRUCTURE;
      }
      offset := I32(offset + 8 + Word(b, offset));
    } else if tag != TAG_END && tag != TAG_END_NODE && tag != TAG_NOP {
      return TAG_END, ERR_BADSTRUCTURE;
    }
    var r := Finish(b, tag, startoffset, offset);
    tag, nextoffset := r.tag, r.next;
  }

  /** The structure block of `b` is the encoding of `ts`. */
  ghost predicate HasTokens(b: Blob, ts: seq<Token>) {
    Consistent(b) && GoodTokens(ts) &&
    var off, size := b.offStruct, b.sizeStruct;
    size == |EncodeAll(ts)| && b.bytes[off..off + size] == EncodeAll(ts)
  }

  lemma {:induction false} FlatAligned<T(!new)>(ts: seq<T>, f: T -> seq<byte>)
    requires forall t :: |f(t)| % 4 == 0
    ensures |Flat(ts, f)| % 4 == 0
  {
    if ts != [] {
      FlatAligned(ts[..|ts| - 1], f);
      var a, c := |Flat(ts[..|ts| - 1], f)|, |f(ts[|ts| - 1])|;
      assert |Flat(ts, f)| == a + c;
    }
  }

  lemma {:induction false} OffsetAligned(ts: seq<Token>, i: nat)
    requires i <= |ts|
    ensures Offset(ts, i) % 4 == 0
  {
    FlatAligned(ts[..i], Encode);
  }

  lemma {:induction false} TokenBytes(b: Blob, ts: seq<Token>, i: nat)
    requires HasTokens(b, ts) && i < |ts|
    ensures Offset(ts, i + 1) == Offset(ts, i) + |Encode(ts[i])| <= Room(b)
    ensures StoredAt(b, Offset(ts, i), ts[i])
  {
    FlatSplit(ts, i, Encode);
    InMiddle(b.bytes, b.offStruct, Flat(ts[..i], Encode), Encode(ts[i]), Flat(ts[i + 1..], Encode));
  }

  lemma {:induction false} InMiddle(b: seq<byte>, off: nat, x: seq<byte>, y: seq<byte>, z: seq<byte>)
    requires off + |x| + |y| + |z| <= |b| && b[off..off + |x| + |y| + |z|] == x + y + z
    ensures b[off + |x|..off + |x| + |y|] == y
  {
    var w := b[off..off + |x| + |y| + |z|];
    forall k | 0 <= k < |y| ensures b[off + |x| + k] == y[k] {
      assert b[off + |x| + k] == w[|x| + k] == (x + y + z)[|x| + k];
    }
  }

  /** A word of the structure block, found inside a token. */
  lemma {:induction false} WordInToken(b: Blob, o: nat, k: nat, enc: seq<byte>, v: uint32)
    requires Sound(b) && k + 4 <= |enc| && o + |enc| <= Room(b)
    requires var at := b.offStruct + o; b.bytes[at..at + |enc|] == enc
    requires enc[k..k + 4] == BE32(v)
    ensures Word(b, o + k) == v
  {
    var at := b.offStruct + o;
    InMiddle(b.bytes, at, enc[..k], enc[k..k + 4], enc[k + 4..]) by {
      assert enc == enc[..k] + enc[k..k + 4] + enc[k + 4..];
    }
    BE32RoundTrip(v);
  }

  /** The scan over a NUL-terminated name ends right behind the NUL. */
  lemma {:induction false} NameScan(b: Blob, o: nat, name: seq<byte>)
    requires Sound(b) && 0 !in name && o + |name| + 1 <= Room(b)
    requires var at := b.offStruct + o; b.bytes[at..at + |name| + 1] == name + [0]
    ensures NameEnd(b, o) == o + |name| + 1
    decreases |name|
  {
    var at := b.offStruct + o;
    var w := b.bytes[at..at + |name| + 1];
    OffsetPtrIsBounds(b, o, 1);
    assert b.bytes[at] == w[0] == (name + [0])[0];
    if name != [] {
      assert name[0] in name;
      assert b.bytes[at + 1..at + |name| + 1] == w[1..];
      assert w[1..] == name[1..] + [0];
      NameScan(b, o + 1, name[1..]);
    }
  }

  lemma {:induction false} AlignShift(o: nat, x: nat)
    requires o % 4 == 0
    ensures TagAlign(o + x) == o + TagAlign(x)
  {
  }

  lemma {:induction false} PropEnd(b: Blob, o: nat, len: nat)
    requires Sound(b) && len < INT_LIMIT && o + 12 + len <= Room(b)
    requires Word(b, o) == TAG_PROP && Word(b, o + 4) == len
    ensures NextTag(b, o) == Finish(b, TAG_PROP, o, o + 12 + len)
  {
    OffsetPtrIsBounds(b, o, 4);
    OffsetPtrIsBounds(b, o + 4, 4);
    I32Small(o + 12 + len);
  }

  lemma {:induction false} OverProp(b: Blob, o: nat, len: nat)
    requires Sound(b) && o % 4 == 0 && len < INT_LIMIT && o + 12 + TagAlign(len) <= Room(b)
    requires Word(b, o) == TAG_PROP && Word(b, o + 4) == len
    ensures NextTag(b, o) == TagAt(TAG_PROP, o + 12 + TagAlign(len))
  {
    AlignShift(o + 12, len);
    PropEnd(b, o, len);
  }

  lemma {:induction false} I32Small(x: int)
    requires IsInt(x)
    ensures I32(x) == x
  {
  }

  lemma {:induction false} OverName(b: Blob, o: nat, n: nat)
    requires Sound(b) && o % 4 == 0 && o + 4 + TagAlign(n) <= Room(b)
    requires Word(b, o) == TAG_BEGIN_NODE && NameEnd(b, o + 4) == o + 4 + n
    ensures NextTag(b, o) == TagAt(TAG_BEGIN_NODE, o + 4 + TagAlign(n))
  {
    BeginTag(b, o, o + 4 + n);
    AlignShift(o + 4, n);
  }

  lemma {:induction false} BeginTag(b: Blob, o: nat, e: nat)
    requires Sound(b) && o + 4 <= e <= Room(b) && Word(b, o) == TAG_BEGIN_NODE && NameEnd(b, o + 4) == e
    ensures NextTag(b, o) == TagAt(TAG_BEGIN_NODE, TagAlign(e))
  {
    OffsetPtrIsBounds(b, o, 4);
  }

  lemma {:induction false} OverWord(b: Blob, o: nat)
    requires Sound(b) && o % 4 == 0 && o + 4 <= Room(b)
    requires Word(b, o) == TAG_END_NODE || Word(b, o) == TAG_END || Word(b, o) == TAG_NOP
    ensures NextTag(b, o) == TagAt(Word(b, o), o + 4)
  {
    OffsetPtrIsBounds(b, o, 4);
  }

  /** Token `t` is stored at offset `o` of the structure block. */
  ghost predicate StoredAt(b: Blob, o: nat, t: Token) {
    Sound(b) && o + |Encode(t)| <= Room(b) &&
    var at := b.offStruct + o; b.bytes[at..at + |Encode(t)|] == Encode(t)
  }

  lemma {:induction false} BeginNodeBytes(b: Blob, o: nat, name: seq<byte>)
    requires StoredAt(b, o, BeginNode(name))
    ensures |Encode(BeginNode(name))| == 4 + TagAlign(|name| + 1)
    ensures Word(b, o) == TAG_BEGIN_NODE
    ensures var at := b.offStruct + o + 4; b.bytes[at..at + |name| + 1] == name + [0]
  {
    var enc, at := Encode(BeginNode(name)), b.offStruct + o;
    var tag, pad := BE32(TAG_BEGIN_NODE), Zeros(TagAlign(|name| + 1) - |name| - 1);
    WordInToken(b, o, 0, enc, TAG_BEGIN_NODE);
    assert enc == tag + (name + [0]) + pad;
    InMiddle(b.bytes, at, tag, name + [0], pad);
  }

  /** Four-byte parts of a stored token, read back. */
  lemma {:induction false} PartsAt(b: Blob, o: nat, t: seq<byte>, l: seq<byte>, n: seq<byte>, v: seq<byte>)
    requires Sound(b) && |t| == |l| == |n| == 4 && o + 12 + |v| <= Room(b)
    requires var at := b.offStruct + o; b.bytes[at..at + 12 + |v|] == t + l + n + v
    ensures Word(b, o) == FromBE32(t) && Word(b, o + 4) == FromBE32(l) && Word(b, o + 8) == FromBE32(n)
  {
    var at := b.offStruct + o;
    assert t + l + n + v == [] + t + (l + n + v) == t + l + (n + v);
    InMiddle(b.bytes, at, [], t, l + n + v);
    InMiddle(b.bytes, at, t, l, n + v);
    InMiddle(b.bytes, at, t + l, n, v);
  }

  lemma {:induction false} PropLength(nameoff: uint32, value: seq<byte>)
    requires |value| < INT_LIMIT
    ensures var pad := Zeros(TagAlign(|value|) - |value|);
      Encode(Prop(nameoff, value)) == BE32(TAG_PROP) + BE32(|value|) + BE32(nameoff) + (value + pad)
    ensures |Encode(Prop(nameoff, value))| == 12 + TagAlign(|value|)
  {
  }

  lemma {:induction false} PropBytes(b: Blob, o: nat, nameoff: uint32, value: seq<byte>)
    requires StoredAt(b, o, Prop(nameoff, value)) && |value| < INT_LIMIT
    ensures |Encode(Prop(nameoff, value))| == 12 + TagAlign(|value|)
    ensures Word(b, o) == TAG_PROP && Word(b, o + 4) == |value| && Word(b, o + 8) == nameoff
    ensures var at := b.offStruct + o; b.bytes[at + 12..at + 12 + |value|] == value
  {
    var pad := Zeros(TagAlign(|value|) - |value|);
    var head := BE32(TAG_PROP) + BE32(|value|) + BE32(nameoff);
    PropLength(nameoff, value);
    PartsAt(b, o, BE32(TAG_PROP), BE32(|value|), BE32(nameoff), value + pad);
    assert head + (value + pad) == head + value + pad;
    InMiddle(b.bytes, b.offStruct + o, head, value, pad);
    BE32RoundTrip(TAG_PROP);
    BE32RoundTrip(|value|);
    BE32RoundTrip(nameoff);
  }

  lemma {:induction false} OverBeginNode(b: Blob, o: nat, name: seq<byte>)
    requires StoredAt(b, o, BeginNode(name)) && o % 4 == 0 && 0 !in name
    ensures NextTag(b, o) == TagAt(TAG_BEGIN_NODE, o + |Encode(BeginNode(name))|)
  {
    BeginNodeBytes(b, o, name);
    NameScan(b, o + 4, name);
    OverName(b, o, |name| + 1);
  }

  lemma {:induction false} OverProperty(b: Blob, o: nat, nameoff: uint32, value: seq<byte>)
    requires StoredAt(b, o, Prop(nameoff, value)) && o % 4 == 0 && |value| < INT_LIMIT
    ensures NextTag(b, o) == TagAt(TAG_PROP, o + |Encode(Prop(nameoff, value))|)
  {
    PropBytes(b, o, nameoff, value);
    OverProp(b, o, |value|);
  }

  lemma {:induction false} StepOver(b: Blob, o: nat, t: Token)
    requires StoredAt(b, o, t) && o % 4 == 0 && GoodToken(t)
    ensures NextTag(b, o) == TagAt(Tag(t), o + |Encode(t)|)
  {
    match t
    case BeginNode(name) => OverBeginNode(b, o, name);
    case Prop(nameoff, value) => OverProperty(b, o, nameoff, value);
    case _ =>
      WordInToken(b, o, 0, Encode(t), Tag(t));
      OverWord(b, o);
  }

  /** On an encoded structure block, the walker steps from token to token. */
  lemma {:induction false} NextTagAt(b: Blob, ts: seq<Token>, i: nat)
    requires HasTokens(b, ts) && i < |ts|
    ensures Offset(ts, i) < INT_LIMIT
    ensures NextTag(b, Offset(ts, i)) == TagAt(Tag(ts[i]), Offset(ts, i + 1))
  {
    TokenBytes(b, ts, i);
    OffsetAligned(ts, i);
    StepOver(b, Offset(ts, i), ts[i]);
  }
}
