/**
 The bytes of a finished DCD table at their places, and which configuration lines
 fit it.
 */
module DcdFormat {
  import opened Bytes
  import opened Options
  import opened Dcd

  /** Tag of a command: 0xCC writes data, 0xCF checks data. */
  function TagOf(c: Cmd): byte {
    match c
    case WriteData => 0xCC
    case ClrBit => 0xCC
    case SetBit => 0xCC
    case _ => 0xCF
  }

  /** Word width in bits 2 to 0, and in bits 4 and 3 (5 and 4 for checks) what is done with the mask. */
  function ParamOf(c: Cmd): byte {
    match c
    case WriteData => 4
    case ClrBit => 4 + 8
    case SetBit => 4 + 8 + 16
    case CheckBitsClr => 4
    case CheckBitsSet => 4 + 16
    case CheckAnyBitClr => 4 + 32
    case CheckAnyBitSet => 4 + 16 + 32
  }

  /** A command with its entries stands at byte `at`. */
  ghost predicate CommandAt(b: seq<byte>, at: nat, g: Group) {
    && at + 4 + 8 * |g.entries| <= |b|
    && b[at] == TagOf(g.cmd) && FromBE16(b[at + 1..at + 3]) == 4 + 8 * |g.entries| && b[at + 3] == ParamOf(g.cmd)
    && forall j :: 0 <= j < |g.entries| ==> EntryAt(b, at + 4 + 8 * j, g.entries[j])
  }

  /** An address and the value or mask behind it. */
  predicate EntryAt(b: seq<byte>, at: nat, e: (uint32, uint32)) {
    at + 8 <= |b| && FromBE32(b[at..at + 4]) == e.0 && FromBE32(b[at + 4..at + 8]) == e.1
  }

  lemma {:induction false} EntryInFlat(es: seq<(uint32, uint32)>, j: nat)
    requires j < |es|
    ensures |Flat(es, EntryBytes)| == 8 * |es| && EntryAt(Flat(es, EntryBytes), 8 * j, es[j])
  {
    FlatSplit(es, j, EntryBytes);
    EntriesLength(es);
    EntriesLength(es[..j]);
    var x, y, z := Flat(es[..j], EntryBytes), EntryBytes(es[j]), Flat(es[j + 1..], EntryBytes);
    var b := x + y + z;
    assert Flat(es, EntryBytes) == b;
    assert b[8 * j..8 * j + 4] == BE32(es[j].0) && b[8 * j + 4..8 * j + 8] == BE32(es[j].1);
    BE32RoundTrip(es[j].0);
    BE32RoundTrip(es[j].1);
  }

  lemma {:induction false} EntryBehind(pre: seq<byte>, d: seq<byte>, post: seq<byte>, at: nat, e: (uint32, uint32))
    requires EntryAt(d, at, e)
    ensures EntryAt(pre + d + post, |pre| + at, e)
  {
    var b := pre + d + post;
    assert b[|pre| + at..|pre| + at + 4] == d[at..at + 4];
    assert b[|pre| + at + 4..|pre| + at + 8] == d[at + 4..at + 8];
  }

  lemma {:induction false} HeaderFields(tag: byte, length: uint16, param: byte, rest: seq<byte>)
    ensures var b := HeaderBytes(tag, length, param) + rest;
      |b| == 4 + |rest| && b[0] == tag && FromBE16(b[1..3]) == length && b[3] == param
  {
    var h := HeaderBytes(tag, length, param);
    assert (h + rest)[1..3] == h[1..3] == BE16(length);
    BE16RoundTrip(length);
  }

  lemma {:induction false} EntriesBehind(h: seq<byte>, es: seq<(uint32, uint32)>, j: nat)
    requires |h| == 4 && j < |es|
    ensures EntryAt(h + Flat(es, EntryBytes), 4 + 8 * j, es[j])
  {
    var f := Flat(es, EntryBytes);
    EntryInFlat(es, j);
    EntryBehind(h, f, [], 8 * j, es[j]);
    assert h + f + [] == h + f;
  }

  lemma {:induction false} GroupHead(g: Group)
    requires GroupLength(g) < 0x1_0000
    ensures var b := GroupBytes(g);
      |b| == GroupLength(g) && b[0] == TagOf(g.cmd) && FromBE16(b[1..3]) == GroupLength(g) && b[3] == ParamOf(g.cmd)
  {
    EntriesLength(g.entries);
    HeaderFields(CmdTag(g.cmd), GroupLength(g), CmdParam(g.cmd), Flat(g.entries, EntryBytes));
  }

  lemma {:induction false} GroupEntry(g: Group, j: nat)
    requires GroupLength(g) < 0x1_0000 && j < |g.entries|
    ensures EntryAt(GroupBytes(g), 4 + 8 * j, g.entries[j])
  {
    EntriesBehind(HeaderBytes(CmdTag(g.cmd), GroupLength(g), CmdParam(g.cmd)), g.entries, j);
  }

  lemma {:induction false} CommandAlone(g: Group)
    requires GroupLength(g) < 0x1_0000
    ensures |GroupBytes(g)| == GroupLength(g) && CommandAt(GroupBytes(g), 0, g)
  {
    GroupHead(g);
    forall j | 0 <= j < |g.entries| ensures EntryAt(GroupBytes(g), 4 + 8 * j, g.entries[j]) {
      GroupEntry(g, j);
    }
  }

  lemma {:induction false} CommandBehind(pre: seq<byte>, d: seq<byte>, post: seq<byte>, g: Group)
    requires CommandAt(d, 0, g)
    ensures CommandAt(pre + d + post, |pre|, g)
  {
    var b, at := pre + d + post, |pre|;
    assert b[at + 1..at + 3] == d[1..3];
    forall j | 0 <= j < |g.entries| ensures EntryAt(b, at + 4 + 8 * j, g.entries[j]) {
      EntryBehind(pre, d, post, 4 + 8 * j, g.entries[j]);
    }
  }

  lemma {:induction false} TableHeader(gs: seq<Group>)
    requires End(gs) <= TABLE_SIZE
    ensures var b := TableBytes(gs); |b| == End(gs) && b[0] == 0xD2 && FromBE16(b[1..3]) == |b| && b[3] == 0x43
  {
    EndIsLength(gs);
    HeaderFields(HEADER_TAG, End(gs), HEADER_VERSION, Flat(gs, GroupBytes));
  }

  /** The bytes in front of command `i`. */
  function Before(gs: seq<Group>, i: nat): seq<byte>
    requires i <= |gs|
  {
    HeaderBytes(HEADER_TAG, End(gs) % 0x1_0000, HEADER_VERSION) + Flat(gs[..i], GroupBytes)
  }

  lemma {:induction false} BeforeLength(gs: seq<Group>, i: nat)
    requires i <= |gs|
    ensures |Before(gs, i)| == End(gs[..i])
  {
    EndIsLength(gs[..i]);
  }

  lemma {:induction false} TableSplit(gs: seq<Group>, i: nat)
    requires i < |gs|
    ensures TableBytes(gs) == Before(gs, i) + GroupBytes(gs[i]) + Flat(gs[i + 1..], GroupBytes)
  {
    FlatSplit(gs, i, GroupBytes);
    InFront(HeaderBytes(HEADER_TAG, End(gs) % 0x1_0000, HEADER_VERSION), Flat(gs, GroupBytes),
      Flat(gs[..i], GroupBytes), GroupBytes(gs[i]), Flat(gs[i + 1..], GroupBytes));
  }

  lemma {:induction false} InFront(h: seq<byte>, b: seq<byte>, x: seq<byte>, y: seq<byte>, z: seq<byte>)
    requires b == x + y + z
    ensures h + b == (h + x) + y + z
  {
  }

  /**
   Every finished table, byte by byte: the header with tag 0xD2, the table's length
   and version 0x43, and each command with its entries where those before it end.
   */
  lemma {:induction false} CommandsStand(gs: seq<Group>, i: nat)
    requires End(gs) <= TABLE_SIZE && i < |gs|
    ensures var b := TableBytes(gs);
      && |b| == End(gs) && b[0] == 0xD2 && FromBE16(b[1..3]) == |b| && b[3] == 0x43
      && CommandAt(b, End(gs[..i]), gs[i])
  {
    TableHeader(gs);
    GroupFits(gs, i);
    TableSplit(gs, i);
    BeforeLength(gs, i);
    CommandAlone(gs[i]);
    CommandBehind(Before(gs, i), GroupBytes(gs[i]), Flat(gs[i + 1..], GroupBytes), gs[i]);
  }

  /** A complete line shares the header in front of it if that is for the same kind of write. */
  predicate Shares(ls: seq<Line>, k: nat)
    requires k < |ls|
  {
    k > 0 && IsWrite(ls[k].cmd) && ls[k - 1].cmd == ls[k].cmd
  }

  /** Bytes of a table of complete lines. */
  function TableLength(ls: seq<Line>): nat {
    if ls == [] then 4 else TableLength(ls[..|ls| - 1]) + if Shares(ls, |ls| - 1) then 8 else 12
  }

  /** The table of complete lines: all groups have entries, and the last line is in the last group. */
  ghost predicate Tabled(t: Table, ls: seq<Line>) {
    && End(t.groups) == TableLength(ls) && t.count == |ls| && (t.groups == [] <==> ls == [])
    && (ls != [] ==> Last(t.groups).entries != [] && Last(t.groups).cmd == ls[|ls| - 1].cmd)
  }

  /** A complete line takes 8 bytes behind a header it can share, and 12 otherwise, if there is room for them. */
  lemma {:induction false} LineTakes(t: Table, ls: seq<Line>, l: Line)
    requires Tabled(t, ls) && |l.args| >= 3
    ensures AddLine(t, l).Some? <==> TableLength(ls + [l]) <= TABLE_SIZE && |ls| < MAX_ENTRIES
    ensures AddLine(t, l).Some? ==> Tabled(AddLine(t, l).value, ls + [l])
  {
    assert (ls + [l])[..|ls|] == ls;
    GroupsSnoc(t.groups, Group(l.cmd, []));
    var gs := if Shares(ls + [l], |ls|) then t.groups else t.groups + [Group(l.cmd, [])];
    assert Param(t.groups, l.cmd) == if gs == t.groups || End(t.groups) + 4 <= TABLE_SIZE then Some(gs) else None;
    AddEntryLists(gs, (l.args[1], l.args[2]));
  }

  lemma {:induction false} BytesGrow(ls: seq<Line>)
    requires ls != []
    ensures TableLength(ls) >= TableLength(ls[..|ls| - 1]) + 8
  {
  }

  /**
   Complete lines are accepted exactly if their table has at most 2880 bytes, with
   4 for its header, 8 for each line and 4 for each header of a command, and there
   are at most 359 of them.
   */
  lemma {:induction false} LinesFit(ls: seq<Line>)
    requires forall k :: 0 <= k < |ls| ==> |ls[k].args| >= 3
    ensures AddLines(ls).Some? <==> TableLength(ls) <= 2880 && |ls| <= 359
    ensures AddLines(ls).Some? ==> Tabled(AddLines(ls).value, ls)
  {
    if ls != [] {
      var init, l := ls[..|ls| - 1], ls[|ls| - 1];
      LinesFit(init);
      BytesGrow(ls);
      assert init + [l] == ls;
      if AddLines(init).Some? {
        LineTakes(AddLines(init).value, init, l);
      }
    }
  }

  lemma {:induction false} CheckBytes(ls: seq<Line>)
    requires forall k :: 0 <= k < |ls| ==> !IsWrite(ls[k].cmd)
    ensures TableLength(ls) == 4 + 12 * |ls|
  {
    if ls != [] {
      CheckBytes(ls[..|ls| - 1]);
    }
  }

  /** Complete checks fit if and only if there are at most 239: far less than the limit of 359 entries. */
  lemma {:induction false} ChecksFit(ls: seq<Line>)
    requires forall k :: 0 <= k < |ls| ==> !IsWrite(ls[k].cmd) && |ls[k].args| >= 3
    ensures AddLines(ls).Some? <==> |ls| <= 239
  {
    CheckBytes(ls);
    LinesFit(ls);
  }
}
