/**
 The sequential writer, described by what it has written so far: reserve
 entries, tokens and the strings block, with free space between the last two.
 `Layout` is the buffer those make up, header included.
 */
module FdtWriter {
  import Bits
  import opened Bytes
  import opened Fdt

  datatype Writer = Writer(total: nat, reserved: seq<(uint64, uint64)>, tokens: seq<Token>, strings: seq<byte>)

  datatype Call =
    | Reserve(address: uint64, size: uint64)
    | Begin(name: seq<byte>)
    | EndCall
    | Property(name: seq<byte>, value: seq<byte>)

  /** `Wild`: the code would store outside the free space, and what follows is undefined. */
  datatype Code = Ok | NoSpace | BadState | BadMagic | Wild

  function Entry(e: (uint64, uint64)): (r: seq<byte>)
    ensures |r| == 16
  {
    BE64(e.0) + BE64(e.1)
  }

  function ReserveMap(w: Writer): seq<byte> {
    Flat(w.reserved, Entry)
  }

  function Structure(w: Writer): seq<byte> {
    EncodeAll(w.tokens)
  }

  function OffStruct(w: Writer): nat {
    RSVMAP_OFFSET + |ReserveMap(w)|
  }

  /** Free bytes between the structure block and the strings. */
  function Gap(w: Writer): int {
    w.total - OffStruct(w) - |Structure(w)| - |w.strings|
  }

  /** The blocks fit the buffer. */
  predicate Roomy(w: Writer) {
    w.total < INT_LIMIT && Gap(w) >= 0
  }

  /** No END token before the tree is finished. */
  predicate Open(ts: seq<Token>) {
    forall i :: 0 <= i < |ts| ==> !ts[i].End?
  }

  ghost predicate Fits(w: Writer) {
    Roomy(w) && GoodTokens(w.tokens) && Open(w.tokens)
  }

  function Fields(w: Writer): (ws: seq<uint32>)
    requires Roomy(w)
    ensures |ws| == 10
  {
    [SW_MAGIC, w.total, OffStruct(w), w.total, RSVMAP_OFFSET, LAST_VERSION, FIRST_VERSION, 0,
     |w.strings|, |Structure(w)|]
  }

  /** Everything between the header and the free space. */
  function Front(w: Writer): (r: seq<byte>)
    ensures HEADER_SIZE + |r| == OffStruct(w) + |Structure(w)|
  {
    Zeros(8) + ReserveMap(w) + Structure(w)
  }

  function Body(w: Writer): seq<byte>
    requires Roomy(w)
  {
    Front(w) + Zeros(Gap(w)) + w.strings
  }

  function Layout(w: Writer): (r: seq<byte>)
    requires Roomy(w)
    ensures |r| == w.total
  {
    Words(Fields(w)) + Body(w)
  }

  predicate StringAt(tab: seq<byte>, p: nat, s: seq<byte>) {
    p + |s| <= |tab| && tab[p..p + |s|] == s
  }

  /** `_fdt_find_string`: the first place at or after `from` where `s` occurs, or -1. */
  function FindString(tab: seq<byte>, s: seq<byte>, from: nat): (p: int)
    ensures p == -1 || from <= p <= |tab| - |s|
    decreases |tab| - from
  {
    if from + |s| > |tab| then -1
    else if tab[from..from + |s|] == s then from
    else if from < |tab| then FindString(tab, s, from + 1)
    else -1
  }

  /** A found position holds the string, and nothing before it does. */
  lemma {:induction false} FindStringFirst(tab: seq<byte>, s: seq<byte>, from: nat, q: nat)
    requires from <= q
    ensures var p := FindString(tab, s, from);
      && (p >= 0 ==> StringAt(tab, p, s))
      && (p == -1 || q < p ==> !StringAt(tab, q, s))
    decreases |tab| - from
  {
    if from + |s| <= |tab| && tab[from..from + |s|] != s && from < |tab| {
      FindStringFirst(tab, s, from + 1, if q == from then q + 1 else q);
    }
  }

  function AddToken(w: Writer, t: Token): Writer {
    w.(tokens := w.tokens + [t])
  }

  /** What a call does to the writer and what it returns. */
  function Step(w: Writer, c: Call): (Writer, Code) {
    match c
    case Reserve(address, size) =>
      if |Structure(w)| != 0 then (w, BadState)
      else if OffStruct(w) + 16 > w.total then (w, NoSpace)
      else if Gap(w) < 16 then (w, Wild)
      else (w.(reserved := w.reserved + [(address, size)]), Ok)
    case Begin(name) => Append(w, BeginNode(name))
    case EndCall => Append(w, EndNode)
    case Property(name, value) =>
      var (w', nameoff, code) := FindAddString(w, name + [0]);
      if code == Ok then Append(w', Prop(nameoff, value)) else (w', code)
  }

  function Append(w: Writer, t: Token): (Writer, Code) {
    if |Encode(t)| > Gap(w) then (w, NoSpace) else (AddToken(w, t), Ok)
  }

  /** `-n` as a 32-bit word. */
  function Back(n: nat): uint32 {
    if 0 < n < TWO_32 then TWO_32 - n else 0
  }

  /** Offsets into the strings count back from their end, as 32-bit negative numbers. */
  function FindAddString(w: Writer, s: seq<byte>): (r: (Writer, uint32, Code))
    ensures r.0 == w || r.0 == w.(strings := s + w.strings)
  {
    var p := FindString(w.strings, s, 0);
    if p >= 0 then (w, Back(|w.strings| - p), Ok)
    else if |s| <= Gap(w) then
      var w' := w.(strings := s + w.strings);
      (w', Back(|w'.strings|), Ok)
    else if |w.strings| + |s| > w.total then (w, 0, Wild)
    else (w, 0, NoSpace)
  }

  /** The tests the code makes, on C `int`, `uint32_t` and 64-bit `size_t`. */

  /** `_fdt_grab_space` does not return NULL. */
  predicate GrabAllows(total: uint32, offStruct: uint32, sizeStrings: uint32, sizeStruct: uint32, len: nat) {
    var spaceleft := I32(total - offStruct - sizeStrings);
    var end := (I32(sizeStruct) + len) % Bits.TWO_64;
    !(end < I32(sizeStruct) % Bits.TWO_64 || end > spaceleft % Bits.TWO_64)
  }

  /** The test in `_fdt_find_add_string` finds room for `len` more string bytes. */
  predicate StringRoom(total: uint32, structTop: uint32, sizeStrings: uint32, len: nat) {
    !((total - sizeStrings - len) % TWO_32 < structTop)
  }

  /** As long as the blocks fit the buffer, the unsigned test is the intended one. */
  lemma {:induction false} GrabIsSpaceTest(total: uint32, offStruct: uint32, sizeStrings: uint32, sizeStruct: uint32,
      len: nat)
    requires offStruct + sizeStruct + sizeStrings <= total < INT_LIMIT && len < TWO_32
    ensures GrabAllows(total, offStruct, sizeStrings, sizeStruct, len)
       <==> offStruct + sizeStruct + len + sizeStrings <= total
  {
    SmallInt(total - offStruct - sizeStrings);
    SmallInt(sizeStruct);
    SmallSize(total - offStruct - sizeStrings);
    SmallSize(sizeStruct);
    SmallSize(sizeStruct + len);
  }

  /** Conversions that change nothing. */
  lemma {:induction false} SmallInt(x: int)
    requires 0 <= x < INT_LIMIT
    ensures I32(x) == x
  {
  }

  lemma {:induction false} SmallSize(x: int)
    requires 0 <= x < Bits.TWO_64
    ensures x % Bits.TWO_64 == x
  {
  }

  /** A buffer of 40 to 47 bytes is accepted by `fdt_create`, and then every token is let through. */
  lemma {:induction false} SmallBufferHasNoTest(total: uint32, sizeStrings: uint32, sizeStruct: uint32, len: nat)
    requires HEADER_SIZE <= total < RSVMAP_OFFSET && len < TWO_32
    requires sizeStruct < INT_LIMIT && sizeStrings + RSVMAP_OFFSET - total <= INT_LIMIT
    ensures GrabAllows(total, RSVMAP_OFFSET, sizeStrings, sizeStruct, len)
  {
  }

  /** The room test is the intended one exactly for names that fit behind the buffer's start. */
  lemma {:induction false} StringRoomTest(total: uint32, structTop: uint32, sizeStrings: uint32, len: nat)
    requires structTop + sizeStrings <= total < INT_LIMIT && 0 < len < INT_LIMIT
    ensures StringRoom(total, structTop, sizeStrings, len)
       <==> structTop + sizeStrings + len <= total || sizeStrings + len > total
  {
  }

  /** Names are C strings, and lengths fit a C `int`. */
  predicate GoodCall(c: Call) {
    && (c.Begin? || c.Property? ==> 0 !in c.name && |c.name| + 1 < INT_LIMIT)
    && (c.Property? ==> |c.value| < INT_LIMIT)
  }

  lemma {:induction false} StructureSnoc(w: Writer, t: Token)
    ensures Structure(AddToken(w, t)) == Structure(w) + Encode(t)
    ensures Gap(AddToken(w, t)) == Gap(w) - |Encode(t)|
    ensures OffStruct(AddToken(w, t)) == OffStruct(w)
  {
    FlatSnoc(w.tokens, t, Encode);
  }

  /** The strings end the buffer. */
  lemma {:induction false} StringsAt(w: Writer)
    requires Roomy(w)
    ensures Layout(w)[w.total - |w.strings|..] == w.strings
  {
    var front := Words(Fields(w)) + (Front(w) + Zeros(Gap(w)));
    assert Layout(w) == front + w.strings;
  }

  /** Every token takes some bytes. */
  lemma {:induction false} NoTokens(w: Writer)
    ensures |Structure(w)| == 0 ==> w.tokens == []
  {
    if w.tokens != [] {
      FlatSplit(w.tokens, |w.tokens| - 1, Encode);
    }
  }

  /** What was written stays: entries and tokens in front, strings at the back. */
  ghost predicate Kept(w: Writer, w': Writer) {
    && w'.total == w.total && w.reserved <= w'.reserved && w.tokens <= w'.tokens
    && |w.strings| <= |w'.strings| && w'.strings[|w'.strings| - |w.strings|..] == w.strings
  }

  lemma {:induction false} AppendKeeps(w: Writer, t: Token)
    requires Fits(w) && GoodToken(t) && !t.End?
    ensures var (w', code) := Append(w, t);
      Fits(w') && Kept(w, w') && w'.strings == w.strings && w'.reserved == w.reserved && (code != Ok ==> w' == w)
  {
    StructureSnoc(w, t);
  }

  lemma {:induction false} FindAddKeeps(w: Writer, s: seq<byte>)
    requires Fits(w)
    ensures var w' := FindAddString(w, s).0;
      Fits(w') && Kept(w, w') && w'.tokens == w.tokens && w'.reserved == w.reserved
  {
  }

  lemma {:induction false} PropertyKeeps(w: Writer, name: seq<byte>, value: seq<byte>)
    requires Fits(w) && GoodCall(Property(name, value))
    ensures var (w', code) := Step(w, Property(name, value));
      Fits(w') && Kept(w, w') && w'.reserved == w.reserved && (code != Ok ==> w'.tokens == w.tokens)
  {
    FindAddKeeps(w, name + [0]);
    var found := FindAddString(w, name + [0]);
    AppendAfter(w, found.0, Prop(found.1, value));
  }

  lemma {:induction false} AppendAfter(w: Writer, w': Writer, t: Token)
    requires Fits(w') && Kept(w, w') && w'.tokens == w.tokens && w'.reserved == w.reserved && GoodToken(t) && !t.End?
    ensures var (w'', code) := Append(w', t);
      Fits(w'') && Kept(w, w'') && w''.reserved == w.reserved && (code != Ok ==> w''.tokens == w.tokens)
  {
    AppendKeeps(w', t);
    KeptThrough(w, w', Append(w', t).0);
  }

  lemma {:induction false} KeptThrough(w: Writer, w': Writer, w'': Writer)
    requires Kept(w, w') && w''.strings == w'.strings && w''.reserved == w'.reserved
    requires w''.total == w'.total && w'.tokens <= w''.tokens
    ensures Kept(w, w'')
  {
  }

  /**
   The space invariant, and what every call keeps: the blocks never meet, what
   was written stays, and a failing call adds neither a token nor an entry.
   */
  lemma {:induction false} StepKeepsFits(w: Writer, c: Call)
    requires Fits(w) && GoodCall(c)
    ensures var (w', code) := Step(w, c);
      Fits(w') && Kept(w, w') && (code != Ok ==> w'.tokens == w.tokens && w'.reserved == w.reserved)
  {
    match c
    case Reserve(address, size) => FlatSnoc(w.reserved, (address, size), Entry);
    case Begin(name) => AppendKeeps(w, BeginNode(name));
    case EndCall => AppendKeeps(w, EndNode);
    case Property(name, value) => PropertyKeeps(w, name, value);
  }

  /** Filling the front of the free space. */
  lemma {:induction false} GapFront(a: seq<byte>, f: seq<byte>, g: nat, z: seq<byte>, d: seq<byte>, pad: nat)
    requires |d| + pad <= g
    ensures Patch(a + (f + Zeros(g) + z), |a| + |f|, d)
         == a + (f + (d + Zeros(pad)) + Zeros(g - |d| - pad) + z)
  {
  }

  /** Filling the back of the free space. */
  lemma {:induction false} GapBack(a: seq<byte>, f: seq<byte>, g: nat, z: seq<byte>, d: seq<byte>)
    requires |d| <= g
    ensures Patch(a + (f + Zeros(g) + z), |a| + |f| + g - |d|, d)
         == a + (f + Zeros(g - |d|) + (d + z))
  {
  }

  /** Counting a token in the structure size, then storing all of it but its zero padding. */
  lemma {:induction false} AppendLayout(w: Writer, t: Token, d: seq<byte>, pad: nat)
    requires Roomy(w) && Encode(t) == d + Zeros(pad) && |Encode(t)| <= Gap(w)
    ensures var w' := AddToken(w, t);
      && Roomy(w') && |Structure(w')| == |Structure(w)| + |Encode(t)| < INT_LIMIT
      && Patch(Patch(Layout(w), 4 * SIZE_STRUCT, BE32(|Structure(w')|)), OffStruct(w) + |Structure(w)|, d) == Layout(w')
  {
    var w' := AddToken(w, t);
    TokenSnoc(w, t);
    var ws := Fields(w)[SIZE_STRUCT := |Structure(w')|];
    FieldSet(Fields(w), Body(w), SIZE_STRUCT, |Structure(w')|);
    GapFront(Words(ws), Front(w), Gap(w), w.strings, d, pad);
  }

  lemma {:induction false} TokenSnoc(w: Writer, t: Token)
    requires Roomy(w) && |Encode(t)| <= Gap(w)
    ensures var w' := AddToken(w, t);
      && Roomy(w') && |Structure(w')| == |Structure(w)| + |Encode(t)| < INT_LIMIT
      && Fields(w') == Fields(w)[SIZE_STRUCT := |Structure(w')|]
      && Body(w') == Front(w) + Encode(t) + Zeros(Gap(w) - |Encode(t)|) + w.strings
  {
    StructureSnoc(w, t);
    assert Front(AddToken(w, t)) == Front(w) + Encode(t);
  }

  lemma {:induction false} StringLayout(w: Writer, s: seq<byte>)
    requires Fits(w) && |s| <= Gap(w)
    ensures var w' := w.(strings := s + w.strings);
      && Fits(w') && |w'.strings| < INT_LIMIT
      && Patch(Patch(Layout(w), w.total - |w.strings| - |s|, s), 4 * SIZE_STRINGS, BE32(|w'.strings|)) == Layout(w')
  {
    var w' := w.(strings := s + w.strings);
    GapBack(Words(Fields(w)), Front(w), Gap(w), w.strings, s);
    assert Fields(w') == Fields(w)[SIZE_STRINGS := |w'.strings|];
    FieldSet(Fields(w), Body(w'), SIZE_STRINGS, |w'.strings|);
  }

  lemma {:induction false} ReserveLayout(w: Writer, e: (uint64, uint64))
    requires Fits(w) && w.tokens == [] && Gap(w) >= 16
    ensures var w' := w.(reserved := w.reserved + [e]);
      && Fits(w') && OffStruct(w') == OffStruct(w) + 16 < INT_LIMIT
      && Patch(Patch(Layout(w), OffStruct(w), Entry(e)), 4 * OFF_STRUCT, BE32(OffStruct(w'))) == Layout(w')
  {
    var w' := w.(reserved := w.reserved + [e]);
    FlatSnoc(w.reserved, e, Entry);
    assert Structure(w) == [] && Structure(w') == [];
    GapFront(Words(Fields(w)), Front(w), Gap(w), w.strings, Entry(e), 0);
    assert Front(w') == Front(w) + (Entry(e) + Zeros(0));
    assert Fields(w') == Fields(w)[OFF_STRUCT := OffStruct(w')];
    FieldSet(Fields(w), Body(w'), OFF_STRUCT, OffStruct(w'));
  }

  lemma {:induction false} LayoutField(w: Writer, i: nat)
    requires Roomy(w) && i < 10
    ensures w.total >= HEADER_SIZE && Field(Layout(w), i) == Fields(w)[i]
  {
    FieldOfWords(Fields(w), Body(w), i);
  }
}
