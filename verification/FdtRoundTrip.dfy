/**
 Writing and reading undo each other: whatever calls a run makes, walking the
 finished blob yields exactly the calls that succeeded.
 */
module FdtRoundTrip {
  import opened Bytes
  import opened Options
  import opened Fdt
  import opened FdtWriter
  import opened FdtWalk
  import opened FdtFinish

  /** The C string at a position, if it ends inside the bytes. */
  function CString(b: seq<byte>, at: nat): Option<seq<byte>>
    decreases |b| - at
  {
    if at >= |b| then None
    else if b[at] == 0 then Some([])
    else
      match CString(b, at + 1)
      case None => None
      case Some(s) => Some([b[at]] + s)
  }

  /** The call a token stands for, its name and value read from the blob. */
  function ReadToken(b: Blob, o: nat, tag: uint32): Option<Call>
    requires Sound(b)
  {
    if tag == TAG_END_NODE then Some(EndCall)
    else if tag == TAG_BEGIN_NODE then
      match CString(b.bytes, b.offStruct + o + 4)
      case None => None
      case Some(name) => Some(Begin(name))
    else if tag == TAG_PROP && o + 12 <= Room(b) then
      var at := b.offStruct + o + 12;
      if at + Word(b, o + 4) > |b.bytes| || Word(b, o + 8) >= b.sizeStrings then None
      else
        match CString(b.bytes, b.offStrings + Word(b, o + 8))
        case None => None
        case Some(name) => Some(Property(name, b.bytes[at..at + Word(b, o + 4)]))
    else None
  }

  /** Read calls from offset `o` up to the END token. */
  function Walk(b: Blob, o: nat): Option<seq<Call>>
    requires Sound(b) && o < INT_LIMIT
    decreases INT_LIMIT - o
  {
    var t := NextTag(b, o);
    if t.tag == TAG_END then if t.next >= 0 then Some([]) else None
    else if t.next <= o || t.next >= INT_LIMIT then None
    else
      match (ReadToken(b, o, t.tag), Walk(b, t.next))
      case (Some(c), Some(cs)) => Some([c] + cs)
      case _ => None
  }

  /** A name offset counted from the end of the strings points at a NUL-terminated name. */
  ghost predicate NamedAt(strings: seq<byte>, nameoff: uint32, name: seq<byte>) {
    var back := TWO_32 - nameoff;
    0 < back <= |strings| && name + [0] <= strings[|strings| - back..]
  }

  ghost predicate StandsFor(t: Token, c: Call, strings: seq<byte>) {
    match c
    case Begin(name) => t == BeginNode(name)
    case EndCall => t == EndNode
    case Property(name, value) => t.Prop? && t.value == value && NamedAt(strings, t.nameoff, name)
    case Reserve(_, _) => false
  }

  ghost predicate Matches(w: Writer, cs: seq<Call>) {
    |cs| == |w.tokens| && forall i :: 0 <= i < |cs| ==> GoodCall(cs[i]) && StandsFor(w.tokens[i], cs[i], w.strings)
  }

  lemma {:induction false} CStringAt(b: seq<byte>, at: nat, name: seq<byte>)
    requires 0 !in name && at + |name| + 1 <= |b| && b[at..at + |name| + 1] == name + [0]
    ensures CString(b, at) == Some(name)
    decreases |name|
  {
    var w := b[at..at + |name| + 1];
    assert b[at] == w[0] == (name + [0])[0];
    if name != [] {
      assert name[0] in name;
      assert b[at + 1..at + |name| + 1] == w[1..];
      assert w[1..] == name[1..] + [0];
      CStringAt(b, at + 1, name[1..]);
      assert [name[0]] + name[1..] == name;
    }
  }

  /** A fixed offset finds its name in the finished blob. */
  lemma {:induction false} NameFound(b: Blob, strings: seq<byte>, nameoff: uint32, name: seq<byte>)
    requires |strings| < INT_LIMIT && NamedAt(strings, nameoff, name) && 0 !in name
    requires b.offStrings + |strings| <= |b.bytes| && b.bytes[b.offStrings..b.offStrings + |strings|] == strings
    ensures var off := (nameoff + |strings|) % TWO_32;
      off + |name| + 1 <= |strings| && CString(b.bytes, b.offStrings + off) == Some(name)
  {
    var off := |strings| - (TWO_32 - nameoff);
    assert off == (nameoff + |strings|) % TWO_32;
    InsideSlice(b.bytes, b.offStrings, strings, off, name + [0]);
    CStringAt(b.bytes, b.offStrings + off, name);
  }

  lemma {:induction false} InsideSlice(b: seq<byte>, lo: nat, s: seq<byte>, off: nat, d: seq<byte>)
    requires lo + |s| <= |b| && b[lo..lo + |s|] == s && off <= |s| && d <= s[off..]
    ensures off + |d| <= |s| && b[lo + off..lo + off + |d|] == d
  {
    var w := b[lo..lo + |s|];
    forall k | 0 <= k < |d| ensures b[lo + off + k] == d[k] {
      assert b[lo + off + k] == w[off + k] == s[off..][k];
    }
  }

  lemma {:induction false} FinalDescribed(w: Writer)
    requires Fits(w) && Gap(w) >= 4
    ensures |EncodeAll(FinalTokens(w))| == |Structure(w)| + 4
    ensures Describes(FinalFields(w), Pre(w), FinalTokens(w), w.strings)
  {
    var ts := w.tokens + [End];
    StructureSnoc(w, End);
    FixKeepsSize(ts, |w.strings|, |ts|);
    FixKeepsGood(ts, |w.strings|, |ts|);
  }

  /** The strings block of the finished blob. */
  ghost predicate HasStrings(b: Blob, strings: seq<byte>) {
    && b.sizeStrings == |strings| && b.offStrings + |strings| <= |b.bytes|
    && b.bytes[b.offStrings..b.offStrings + |strings|] == strings
  }

  lemma {:induction false} LastPart(x: seq<byte>, y: seq<byte>)
    ensures (x + y)[|x|..|x| + |y|] == y
  {
  }

  lemma {:induction false} FinalStrings(w: Writer)
    requires Fits(w) && Gap(w) >= 4 && |FinalBlob(w)| >= HEADER_SIZE
    ensures HasStrings(Parse(FinalBlob(w)), w.strings)
  {
    var ws, ts := FinalFields(w), FinalTokens(w);
    StagedFields(ws, Pre(w), ts, w.strings);
    StringsBehind(w);
    LastPart(Words(ws) + Pre(w) + EncodeAll(ts), w.strings);
  }

  lemma {:induction false} StringsBehind(w: Writer)
    requires Fits(w) && Gap(w) >= 4
    ensures |Words(FinalFields(w)) + Pre(w) + EncodeAll(FinalTokens(w))| == FinalFields(w)[OFF_STRINGS]
    ensures FinalFields(w)[SIZE_STRINGS] == |w.strings|
    ensures FinalBlob(w) == Words(FinalFields(w)) + Pre(w) + EncodeAll(FinalTokens(w)) + w.strings
  {
    FinalDescribed(w);
  }

  lemma {:induction false} SliceOfPrefix(blob: seq<byte>, buf: seq<byte>, lo: nat, hi: nat)
    requires blob <= buf && lo <= hi <= |blob|
    ensures buf[lo..hi] == blob[lo..hi]
  {
    assert buf[..|blob|][lo..hi] == buf[lo..hi];
  }

  lemma {:induction false} SameHeader(blob: seq<byte>, buf: seq<byte>)
    requires HEADER_SIZE <= |blob| && blob <= buf
    ensures Parse(buf) == Parse(blob).(bytes := buf)
  {
    forall i: nat | i < 10 ensures Field(buf, i) == Field(blob, i) {
      SliceOfPrefix(blob, buf, 4 * i, 4 * i + 4);
    }
  }

  /** Bytes behind the blob do not disturb its readers. */
  lemma {:induction false} ShapeExtends(blob: seq<byte>, buf: seq<byte>, ts: seq<Token>, strings: seq<byte>)
    requires HEADER_SIZE <= |blob| && blob <= buf
    requires HasTokens(Parse(blob), ts) && HasStrings(Parse(blob), strings)
    ensures HasTokens(Parse(buf), ts) && HasStrings(Parse(buf), strings)
  {
    var b := Parse(blob);
    SameHeader(blob, buf);
    SliceOfPrefix(blob, buf, b.offStruct, b.offStruct + b.sizeStruct);
    SliceOfPrefix(blob, buf, b.offStrings, b.offStrings + |strings|);
  }

  /** A buffer that starts with the finished blob, as its readers see it. */
  lemma {:induction false} FinalShape(w: Writer, buf: seq<byte>)
    requires Fits(w) && Gap(w) >= 4 && FinalBlob(w) <= buf
    ensures |FinalBlob(w)| >= HEADER_SIZE
    ensures HasTokens(Parse(buf), FinalTokens(w)) && HasStrings(Parse(buf), w.strings)
  {
    FinalDescribed(w);
    StagedHasTokens(FinalFields(w), Pre(w), FinalTokens(w), w.strings);
    FinalStrings(w);
    ShapeExtends(FinalBlob(w), buf, FinalTokens(w), w.strings);
  }

  lemma {:induction false} ReadBackNode(b: Blob, o: nat, name: seq<byte>)
    requires StoredAt(b, o, BeginNode(name)) && 0 !in name
    ensures ReadToken(b, o, TAG_BEGIN_NODE) == Some(Begin(name))
  {
    BeginNodeBytes(b, o, name);
    CStringAt(b.bytes, b.offStruct + o + 4, name);
  }

  lemma {:induction false} ReadProp(b: Blob, o: nat, nameoff: uint32, name: seq<byte>, value: seq<byte>)
    requires Sound(b) && o + 12 + |value| <= Room(b) && nameoff < b.sizeStrings
    requires Word(b, o + 4) == |value| && Word(b, o + 8) == nameoff
    requires var at := b.offStruct + o; b.bytes[at + 12..at + 12 + |value|] == value
    requires CString(b.bytes, b.offStrings + nameoff) == Some(name)
    ensures ReadToken(b, o, TAG_PROP) == Some(Property(name, value))
  {
  }

  lemma {:induction false} ReadBackProp(b: Blob, o: nat, strings: seq<byte>, nameoff: uint32, name: seq<byte>,
      value: seq<byte>)
    requires HasStrings(b, strings) && |strings| < INT_LIMIT && NamedAt(strings, nameoff, name) && 0 !in name
    requires |value| < INT_LIMIT && StoredAt(b, o, Prop((nameoff + |strings|) % TWO_32, value))
    ensures ReadToken(b, o, TAG_PROP) == Some(Property(name, value))
  {
    var fixed := (nameoff + |strings|) % TWO_32;
    PropBytes(b, o, fixed, value);
    NameFound(b, strings, nameoff, name);
    ReadProp(b, o, fixed, name, value);
  }

  /** Reading a fixed token gives back the call. */
  lemma {:induction false} ReadBack(b: Blob, o: nat, t: Token, c: Call, strings: seq<byte>)
    requires HasStrings(b, strings) && |strings| < INT_LIMIT && StandsFor(t, c, strings) && GoodCall(c)
    requires StoredAt(b, o, Fix(t, |strings|))
    ensures ReadToken(b, o, Tag(t)) == Some(c)
  {
    match c
    case Begin(name) => ReadBackNode(b, o, name);
    case EndCall =>
    case Property(name, value) => ReadBackProp(b, o, strings, t.nameoff, name, value);
  }

  lemma {:induction false} WalkStep(b: Blob, o: nat, next: nat, tag: uint32, c: Call, cs: seq<Call>)
    requires Sound(b) && o < next < INT_LIMIT && tag != TAG_END && NextTag(b, o) == TagAt(tag, next)
    requires ReadToken(b, o, tag) == Some(c) && Walk(b, next) == Some(cs)
    ensures Walk(b, o) == Some([c] + cs)
  {
  }

  /** At token `k` the walker reads call `k`. */
  lemma {:induction false} TokenRead(w: Writer, cs: seq<Call>, b: Blob, k: nat)
    requires Matches(w, cs) && k < |cs| && |w.strings| < INT_LIMIT
    requires HasTokens(b, FinalTokens(w)) && HasStrings(b, w.strings)
    ensures var o, next := Offset(FinalTokens(w), k), Offset(FinalTokens(w), k + 1);
      && o < next < INT_LIMIT && NextTag(b, o) == TagAt(Tag(w.tokens[k]), next)
      && ReadToken(b, o, Tag(w.tokens[k])) == Some(cs[k]) && Tag(w.tokens[k]) != TAG_END
  {
    var ts, t := FinalTokens(w), w.tokens[k];
    assert StandsFor(t, cs[k], w.strings);
    NextTagAt(b, ts, k);
    TokenBytes(b, ts, k);
    assert ts[k] == Fix(t, |w.strings|) && Tag(ts[k]) == Tag(t);
    ReadBack(b, Offset(ts, k), t, cs[k], w.strings);
  }

  /** Results that each add one call in front of the next result. */
  lemma {:induction false} Chained(ws: seq<Option<seq<Call>>>, cs: seq<Call>, k: nat)
    requires |ws| == |cs| + 1 && k <= |cs| && ws[|cs|] == Some([])
    requires forall i :: 0 <= i < |cs| && ws[i + 1].Some? ==> ws[i] == Some([cs[i]] + ws[i + 1].value)
    ensures ws[k] == Some(cs[k..])
    decreases |cs| - k
  {
    if k < |cs| {
      Chained(ws, cs, k + 1);
      assert [cs[k]] + cs[k + 1..] == cs[k..];
    } else {
      assert cs[k..] == [];
    }
  }

  /** The walk from token `k`. */
  ghost function WalkAt(w: Writer, b: Blob, k: nat): Option<seq<Call>>
    requires k < |FinalTokens(w)|
  {
    if Sound(b) && Offset(FinalTokens(w), k) < INT_LIMIT then Walk(b, Offset(FinalTokens(w), k)) else None
  }

  lemma {:induction false} WalkOne(w: Writer, cs: seq<Call>, b: Blob, k: nat)
    requires Matches(w, cs) && k < |cs| && |w.strings| < INT_LIMIT
    requires HasTokens(b, FinalTokens(w)) && HasStrings(b, w.strings)
    ensures WalkAt(w, b, k + 1).Some? ==> WalkAt(w, b, k) == Some([cs[k]] + WalkAt(w, b, k + 1).value)
  {
    TokenRead(w, cs, b, k);
    if WalkAt(w, b, k + 1).Some? {
      WalkStep(b, Offset(FinalTokens(w), k), Offset(FinalTokens(w), k + 1), Tag(w.tokens[k]), cs[k],
        WalkAt(w, b, k + 1).value);
    }
  }

  lemma {:induction false} WalkTokens(w: Writer, cs: seq<Call>, b: Blob)
    requires Matches(w, cs) && |w.strings| < INT_LIMIT
    requires HasTokens(b, FinalTokens(w)) && HasStrings(b, w.strings)
    ensures Walk(b, 0) == Some(cs)
  {
    var ts, n := FinalTokens(w), |cs|;
    var ws := seq(n + 1, i requires 0 <= i <= n => WalkAt(w, b, i));
    forall i | 0 <= i < n ensures ws[i + 1].Some? ==> ws[i] == Some([cs[i]] + ws[i + 1].value) {
      WalkOne(w, cs, b, i);
    }
    NextTagAt(b, ts, n);
    WalkEnd(b, Offset(ts, n), Offset(ts, n + 1));
    Chained(ws, cs, 0);
    assert ts[..0] == [] && cs[0..] == cs;
  }

  lemma {:induction false} WalkEnd(b: Blob, o: nat, next: nat)
    requires Sound(b) && o < INT_LIMIT && NextTag(b, o) == TagAt(TAG_END, next)
    ensures Walk(b, o) == Some([])
  {
  }

  /** Walking a buffer that starts with the finished blob yields the calls its tokens stand for. */
  lemma {:induction false} WalkFinal(w: Writer, cs: seq<Call>, buf: seq<byte>)
    requires Fits(w) && Gap(w) >= 4 && Matches(w, cs) && FinalBlob(w) <= buf
    ensures |buf| >= HEADER_SIZE && Sound(Parse(buf)) && Walk(Parse(buf), 0) == Some(cs)
  {
    FinalShape(w, buf);
    WalkTokens(w, cs, Parse(buf));
  }

  /** Calls a run makes one after the other, failures included; `None` once a call is wild. */
  function Run(total: nat, cs: seq<Call>): Option<(Writer, seq<Call>)> {
    if cs == [] then Some((Writer(total, [], [], []), []))
    else
      match Run(total, cs[..|cs| - 1])
      case None => None
      case Some((w, done)) =>
        var c := cs[|cs| - 1];
        var (w', code) := Step(w, c);
        if code == Wild then None else Some((w', if code == Ok then done + [c] else done))
  }

  /** The calls that write the structure block. */
  function Structural(cs: seq<Call>): seq<Call> {
    if cs == [] then []
    else if cs[|cs| - 1].Reserve? then Structural(cs[..|cs| - 1])
    else Structural(cs[..|cs| - 1]) + [cs[|cs| - 1]]
  }

  /** The entries of the reserve map. */
  function Reserves(cs: seq<Call>): seq<(uint64, uint64)> {
    if cs == [] then []
    else if cs[|cs| - 1].Reserve? then Reserves(cs[..|cs| - 1]) + [(cs[|cs| - 1].address, cs[|cs| - 1].size)]
    else Reserves(cs[..|cs| - 1])
  }

  ghost predicate RunInv(w: Writer, done: seq<Call>) {
    Fits(w) && Matches(w, Structural(done)) && w.reserved == Reserves(done)
  }

  lemma {:induction false} NamesSurvive(w: Writer, w': Writer, cs: seq<Call>)
    requires Matches(w, cs) && w'.tokens == w.tokens
    requires |w.strings| <= |w'.strings| && w'.strings[|w'.strings| - |w.strings|..] == w.strings
    ensures Matches(w', cs)
  {
    forall i | 0 <= i < |cs| ensures StandsFor(w'.tokens[i], cs[i], w'.strings) {
      if cs[i].Property? {
        SuffixNamed(w.strings, w'.strings, w.tokens[i].nameoff, cs[i].name);
      }
    }
  }

  lemma {:induction false} SuffixNamed(s: seq<byte>, s': seq<byte>, nameoff: uint32, name: seq<byte>)
    requires |s| <= |s'| && s'[|s'| - |s|..] == s && NamedAt(s, nameoff, name)
    ensures NamedAt(s', nameoff, name)
  {
    var back := TWO_32 - nameoff;
    assert s'[|s'| - back..] == s'[|s'| - |s|..][|s| - back..];
  }

  lemma {:induction false} FoundIsNamed(strings: seq<byte>, name: seq<byte>, p: nat)
    requires |strings| < INT_LIMIT && StringAt(strings, p, name + [0])
    ensures NamedAt(strings, Back(|strings| - p), name)
  {
    assert strings[p..][..|name| + 1] == name + [0];
  }

  lemma {:induction false} AddedIsNamed(strings: seq<byte>, name: seq<byte>)
    requires |name + [0] + strings| < INT_LIMIT
    ensures NamedAt(name + [0] + strings, Back(|name + [0] + strings|), name)
  {
    var all := name + [0] + strings;
    assert all[0..|name| + 1] == name + [0];
    FoundIsNamed(all, name, 0);
  }

  lemma {:induction false} FoundCase(w: Writer, name: seq<byte>)
    requires |w.strings| < INT_LIMIT && FindString(w.strings, name + [0], 0) >= 0
    ensures var (w', nameoff, _) := FindAddString(w, name + [0]); NamedAt(w'.strings, nameoff, name)
  {
    FindStringFirst(w.strings, name + [0], 0, 0);
    FoundIsNamed(w.strings, name, FindString(w.strings, name + [0], 0));
  }

  lemma {:induction false} AddedCase(w: Writer, name: seq<byte>)
    requires |name + [0] + w.strings| < INT_LIMIT && FindString(w.strings, name + [0], 0) < 0 && |name + [0]| <= Gap(w)
    ensures var (w', nameoff, _) := FindAddString(w, name + [0]); NamedAt(w'.strings, nameoff, name)
  {
    AddedIsNamed(w.strings, name);
  }

  /** The offset a property gets points at its name. */
  lemma {:induction false} OffsetIsNamed(w: Writer, name: seq<byte>)
    requires Fits(w)
    ensures var (w', nameoff, code) := FindAddString(w, name + [0]); code == Ok ==> NamedAt(w'.strings, nameoff, name)
  {
    if FindString(w.strings, name + [0], 0) >= 0 {
      FoundCase(w, name);
    } else if |name + [0]| <= Gap(w) {
      AddedCase(w, name);
    }
  }

  lemma {:induction false} Appended(w: Writer, cs: seq<Call>, t: Token, c: Call)
    requires Matches(w, cs) && GoodCall(c) && StandsFor(t, c, w.strings)
    ensures Matches(AddToken(w, t), cs + [c])
  {
  }

  lemma {:induction false} PropertyMatches(w: Writer, cs: seq<Call>, c: Call)
    requires Fits(w) && Matches(w, cs) && c.Property? && GoodCall(c)
    ensures var (w', code) := Step(w, c); Matches(w', if code == Ok then cs + [c] else cs)
  {
    var (w', nameoff, code) := FindAddString(w, c.name + [0]);
    FindAddKeeps(w, c.name + [0]);
    NamesSurvive(w, w', cs);
    if code == Ok {
      OffsetIsNamed(w, c.name);
      Appended(w', cs, Prop(nameoff, c.value), c);
    }
  }

  lemma {:induction false} StepMatches(w: Writer, done: seq<Call>, c: Call)
    requires RunInv(w, done) && GoodCall(c)
    ensures var (w', code) := Step(w, c); RunInv(w', if code == Ok then done + [c] else done)
  {
    StepKeepsFits(w, c);
    var done' := done + [c];
    assert done'[..|done'| - 1] == done;
    match c
    case Reserve(_, _) =>
    case Begin(name) => Appended(w, Structural(done), BeginNode(name), c);
    case EndCall => Appended(w, Structural(done), EndNode, c);
    case Property(_, _) =>
      PropertyMatches(w, Structural(done), c);
      PropertyKeeps(w, c.name, c.value);
  }

  lemma {:induction false} RunKeepsInv(total: nat, cs: seq<Call>)
    requires RSVMAP_OFFSET <= total < INT_LIMIT && (forall i :: 0 <= i < |cs| ==> GoodCall(cs[i]))
    requires Run(total, cs).Some?
    ensures RunInv(Run(total, cs).value.0, Run(total, cs).value.1)
  {
    if cs != [] {
      RunKeepsInv(total, cs[..|cs| - 1]);
      var (w, done) := Run(total, cs[..|cs| - 1]).value;
      StepMatches(w, done, cs[|cs| - 1]);
    }
  }

  /**
   For every run of writer calls that ends with room for the terminator, every
   buffer that starts with the finished blob reads back as exactly the successful
   structure calls, names and values included, and the reserve map holds exactly
   the successful entries.
   */
  lemma {:induction false} RoundTrip(total: nat, cs: seq<Call>, buf: seq<byte>)
    requires RSVMAP_OFFSET <= total < INT_LIMIT && (forall i :: 0 <= i < |cs| ==> GoodCall(cs[i]))
    requires Run(total, cs).Some? && Gap(Run(total, cs).value.0) >= 4
    ensures var (w, done) := Run(total, cs).value;
      && Fits(w) && w.reserved == Reserves(done)
      && (FinalBlob(w) <= buf ==>
            |buf| >= HEADER_SIZE && Sound(Parse(buf)) && Walk(Parse(buf), 0) == Some(Structural(done)))
  {
    RunKeepsInv(total, cs);
    var (w, done) := Run(total, cs).value;
    if FinalBlob(w) <= buf {
      WalkFinal(w, Structural(done), buf);
    }
  }

  lemma {:induction false} FlatFixedAt<T>(ts: seq<T>, f: T -> seq<byte>, n: nat, k: nat)
    requires k < |ts| && forall i :: 0 <= i < |ts| ==> |f(ts[i])| == n
    ensures |Flat(ts, f)| == n * |ts| && n * k + n <= n * |ts| && Flat(ts, f)[n * k..n * k + n] == f(ts[k])
  {
    FlatSplit(ts, k, f);
    FlatFixedLength(ts, f, n);
    FlatFixedLength(ts[..k], f, n);
    assert n * k + n == n * (k + 1) && n * (k + 1) + n * (|ts| - k - 1) == n * |ts|;
  }

  lemma {:induction false} FlatFixedLength<T>(ts: seq<T>, f: T -> seq<byte>, n: nat)
    requires forall i :: 0 <= i < |ts| ==> |f(ts[i])| == n
    ensures |Flat(ts, f)| == n * |ts|
  {
    if ts != [] {
      FlatFixedLength(ts[..|ts| - 1], f, n);
      assert n * |ts| == n * (|ts| - 1) + n;
    }
  }

  /** Entry `k` of the reserve map lies at byte 48 + 16 k of the blob. */
  lemma {:induction false} ReserveEntryAt(w: Writer, k: nat)
    requires Fits(w) && Gap(w) >= 4 && k < |w.reserved|
    ensures var at := RSVMAP_OFFSET + 16 * k;
      at + 16 <= |FinalBlob(w)| && FinalBlob(w)[at..at + 16] == Entry(w.reserved[k])
  {
    FlatFixedAt(w.reserved, Entry, 16, k);
    var x := Words(FinalFields(w)) + Zeros(8);
    var z := EncodeAll(FinalTokens(w)) + w.strings;
    assert FinalBlob(w) == x + ReserveMap(w) + z;
    MiddleOf(x, ReserveMap(w), z);
    InsideSlice(FinalBlob(w), |x|, ReserveMap(w), 16 * k, Entry(w.reserved[k])) by {
      assert ReserveMap(w)[16 * k..][..16] == ReserveMap(w)[16 * k..16 * k + 16];
    }
  }
}
