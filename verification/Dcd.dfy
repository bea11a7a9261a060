/**
 The DCD table of the boot image tool: register writes and checks from the
 configuration file, grouped under command headers in a fixed table.
 */
module Dcd {
  import opened Bytes
  import opened Options

  datatype Cmd = WriteData | ClrBit | SetBit | CheckBitsSet | CheckBitsClr | CheckAnyBitClr | CheckAnyBitSet

  /** One command header and the (address, value) pairs under it. */
  datatype Group = Group(cmd: Cmd, entries: seq<(uint32, uint32)>)

  /** A configuration line: a register command and the numbers after it. */
  datatype Line = Line(cmd: Cmd, args: seq<uint32>)

  const TABLE_SIZE: nat := 2880
  const MAX_ENTRIES: nat := 359
  const HEADER_TAG: byte := 0xD2
  const HEADER_VERSION: byte := 0x43
  const WRITE_TAG: byte := 0xCC
  const CHECK_TAG: byte := 0xCF

  predicate IsWrite(c: Cmd) {
    c.WriteData? || c.ClrBit? || c.SetBit?
  }

  function CmdTag(c: Cmd): byte {
    if IsWrite(c) then WRITE_TAG else CHECK_TAG
  }

  function CmdParam(c: Cmd): byte {
    match c
    case WriteData => 0x04
    case ClrBit => 0x0C
    case SetBit => 0x1C
    case CheckBitsClr => 0x04
    case CheckBitsSet => 0x14
    case CheckAnyBitClr => 0x24
    case CheckAnyBitSet => 0x34
  }

  function HeaderBytes(tag: byte, length: uint16, param: byte): (r: seq<byte>)
    ensures |r| == 4
  {
    [tag] + BE16(length) + [param]
  }

  function EntryBytes(e: (uint32, uint32)): (r: seq<byte>)
    ensures |r| == 8
  {
    BE32(e.0) + BE32(e.1)
  }

  function GroupLength(g: Group): nat {
    4 + 8 * |g.entries|
  }

  function GroupBytes(g: Group): seq<byte> {
    HeaderBytes(CmdTag(g.cmd), GroupLength(g) % 0x1_0000, CmdParam(g.cmd)) + Flat(g.entries, EntryBytes)
  }

  /** Where the next byte behind the groups goes: a header of 4 bytes, then 4 + 8k for k entries. */
  function End(gs: seq<Group>): (r: nat)
    ensures r >= 4
  {
    if gs == [] then 4 else End(gs[..|gs| - 1]) + GroupLength(gs[|gs| - 1])
  }

  function Last(gs: seq<Group>): Group
    requires gs != []
  {
    gs[|gs| - 1]
  }

  /** `set_dcd_param_v2`: the group a line of this command goes to; `None` past the table. */
  function Param(gs: seq<Group>, cmd: Cmd): (r: Option<seq<Group>>)
    ensures r.Some? ==> r.value != []
  {
    if gs != [] && IsWrite(cmd) && Last(gs).cmd == cmd then Some(gs)
    else if gs != [] && Last(gs).entries == [] then Some(gs[..|gs| - 1] + [Group(cmd, [])])
    else if End(gs) + 4 > TABLE_SIZE then None
    else Some(gs + [Group(cmd, [])])
  }

  function AddEntry(gs: seq<Group>, e: (uint32, uint32)): seq<Group>
    requires gs != []
  {
    gs[..|gs| - 1] + [Group(Last(gs).cmd, Last(gs).entries + [e])]
  }

  /** The groups and the number of entries so far. */
  datatype Table = Table(groups: seq<Group>, count: nat)

  /** One line; `None` when it leaves the table or exceeds the entry limit. */
  function AddLine(t: Table, l: Line): Option<Table> {
    if l.args == [] then Some(t)
    else
      match Param(t.groups, l.cmd)
      case None => None
      case Some(gs) =>
        if |l.args| >= 2 && End(gs) + 4 > TABLE_SIZE then None
        else if |l.args| < 3 then Some(Table(gs, t.count))
        else if End(gs) + 8 > TABLE_SIZE || t.count + 1 > MAX_ENTRIES then None
        else Some(Table(AddEntry(gs, (l.args[1], l.args[2])), t.count + 1))
  }

  function AddLines(ls: seq<Line>): Option<Table> {
    if ls == [] then Some(Table([], 0))
    else
      match AddLines(ls[..|ls| - 1])
      case None => None
      case Some(t) => AddLine(t, ls[|ls| - 1])
  }

  /** `set_dcd_rst_v2` leaves out a last group without entries. */
  function Complete(gs: seq<Group>): seq<Group> {
    if gs != [] && Last(gs).entries == [] then gs[..|gs| - 1] else gs
  }

  function TableBytes(gs: seq<Group>): seq<byte> {
    HeaderBytes(HEADER_TAG, End(gs) % 0x1_0000, HEADER_VERSION) + Flat(gs, GroupBytes)
  }

  /** What the lines ask for: only complete lines count. */
  function Requested(ls: seq<Line>): seq<(Cmd, uint32, uint32)> {
    if ls == [] then []
    else
      var l := ls[|ls| - 1];
      Requested(ls[..|ls| - 1]) + if |l.args| >= 3 then [(l.cmd, l.args[1], l.args[2])] else []
  }

  /** Reading the table back. */

  function CmdOf(tag: byte, param: byte): Option<Cmd> {
    if tag == WRITE_TAG then
      if param == 0x04 then Some(WriteData) else if param == 0x0C then Some(ClrBit)
      else if param == 0x1C then Some(SetBit) else None
    else if tag == CHECK_TAG then
      if param == 0x04 then Some(CheckBitsClr) else if param == 0x14 then Some(CheckBitsSet)
      else if param == 0x24 then Some(CheckAnyBitClr) else if param == 0x34 then Some(CheckAnyBitSet) else None
    else None
  }

  function DecodeEntries(cmd: Cmd, b: seq<byte>): seq<(Cmd, uint32, uint32)> {
    if |b| < 8 then [] else [(cmd, FromBE32(b[..4]), FromBE32(b[4..8]))] + DecodeEntries(cmd, b[8..])
  }

  function DecodeGroups(b: seq<byte>): Option<seq<(Cmd, uint32, uint32)>> {
    if b == [] then Some([])
    else if |b| < 4 then None
    else
      var length, cmd := FromBE16(b[1..3]), CmdOf(b[0], b[3]);
      if cmd.None? || length < 4 || length > |b| || (length - 4) % 8 != 0 then None
      else
        match DecodeGroups(b[length..])
        case None => None
        case Some(rest) => Some(DecodeEntries(cmd.value, b[4..length]) + rest)
  }

  function Decode(b: seq<byte>): Option<seq<(Cmd, uint32, uint32)>> {
    if |b| < 4 || b[0] != HEADER_TAG || b[3] != HEADER_VERSION || FromBE16(b[1..3]) != |b| then None
    else DecodeGroups(b[4..])
  }

  /** The entries of the groups in order. */
  function Tagged(cmd: Cmd, es: seq<(uint32, uint32)>): (r: seq<(Cmd, uint32, uint32)>)
    ensures |r| == |es|
  {
    seq(|es|, i requires 0 <= i < |es| => (cmd, es[i].0, es[i].1))
  }

  function Listed(gs: seq<Group>): seq<(Cmd, uint32, uint32)> {
    if gs == [] then [] else Listed(gs[..|gs| - 1]) + Tagged(Last(gs).cmd, Last(gs).entries)
  }

  lemma {:induction false} FlatCons<T>(ts: seq<T>, f: T -> seq<byte>)
    requires ts != []
    ensures Flat(ts, f) == f(ts[0]) + Flat(ts[1..], f)
  {
    FlatSplit(ts, 0, f);
    assert ts[..0] == [];
  }

  lemma {:induction false} ListedConcat(gs: seq<Group>, hs: seq<Group>)
    ensures Listed(gs + hs) == Listed(gs) + Listed(hs)
    decreases |hs|
  {
    if hs == [] {
      assert gs + hs == gs;
    } else {
      var h := hs[..|hs| - 1];
      assert (gs + hs)[..|gs + hs| - 1] == gs + h;
      ListedConcat(gs, h);
    }
  }

  lemma {:induction false} ListedCons(gs: seq<Group>)
    requires gs != []
    ensures Listed(gs) == Tagged(gs[0].cmd, gs[0].entries) + Listed(gs[1..])
  {
    assert gs == [gs[0]] + gs[1..];
    ListedConcat([gs[0]], gs[1..]);
    assert [gs[0]][..0] == [];
  }

  lemma {:induction false} EntriesDecode(cmd: Cmd, es: seq<(uint32, uint32)>)
    ensures DecodeEntries(cmd, Flat(es, EntryBytes)) == Tagged(cmd, es)
  {
    if es != [] {
      var b, rest := EntryBytes(es[0]), Flat(es[1..], EntryBytes);
      FlatCons(es, EntryBytes);
      assert (b + rest)[..4] == BE32(es[0].0) && (b + rest)[4..8] == BE32(es[0].1) && (b + rest)[8..] == rest;
      BE32RoundTrip(es[0].0);
      BE32RoundTrip(es[0].1);
      EntriesDecode(cmd, es[1..]);
      assert Tagged(cmd, es) == [(cmd, es[0].0, es[0].1)] + Tagged(cmd, es[1..]);
    }
  }

  lemma {:induction false} EntriesLength(es: seq<(uint32, uint32)>)
    ensures |Flat(es, EntryBytes)| == 8 * |es|
  {
    if es != [] {
      EntriesLength(es[..|es| - 1]);
    }
  }

  /** The groups' bytes end where the arithmetic says. */
  lemma {:induction false} EndIsLength(gs: seq<Group>)
    ensures End(gs) == 4 + |Flat(gs, GroupBytes)|
  {
    if gs != [] {
      EndIsLength(gs[..|gs| - 1]);
      EntriesLength(gs[|gs| - 1].entries);
    }
  }

  lemma {:induction false} GroupHeader(g: Group, rest: seq<byte>)
    requires GroupLength(g) < 0x1_0000
    ensures var b := GroupBytes(g) + rest;
      && |GroupBytes(g)| == GroupLength(g)
      && FromBE16(b[1..3]) == GroupLength(g) && CmdOf(b[0], b[3]) == Some(g.cmd)
      && b[4..GroupLength(g)] == Flat(g.entries, EntryBytes) && b[GroupLength(g)..] == rest
  {
    EntriesLength(g.entries);
    BE16RoundTrip(GroupLength(g));
    var h, e := HeaderBytes(CmdTag(g.cmd), GroupLength(g), CmdParam(g.cmd)), Flat(g.entries, EntryBytes);
    var b := GroupBytes(g) + rest;
    assert b == h + e + rest;
    assert h[1..3] == BE16(GroupLength(g));
    assert b[1..3] == h[1..3];
  }

  /** Bytes `b` start with a whole command: `cmd` with `body` behind its header, then `rest`. */
  ghost predicate StartsWith(b: seq<byte>, cmd: Cmd, body: seq<byte>, rest: seq<byte>) {
    exists length: uint16 ::
      && 4 <= length <= |b| && (length - 4) % 8 == 0
      && FromBE16(b[1..3]) == length && CmdOf(b[0], b[3]) == Some(cmd)
      && b[4..length] == body && b[length..] == rest
  }

  lemma {:induction false} GroupStarts(g: Group, rest: seq<byte>)
    requires GroupLength(g) < 0x1_0000
    ensures StartsWith(GroupBytes(g) + rest, g.cmd, Flat(g.entries, EntryBytes), rest)
  {
    GroupHeader(g, rest);
  }

  lemma {:induction false} DecodeStep(b: seq<byte>, cmd: Cmd, body: seq<byte>, rest: seq<byte>)
    requires StartsWith(b, cmd, body, rest) && DecodeGroups(rest).Some?
    ensures DecodeGroups(b) == Some(DecodeEntries(cmd, body) + DecodeGroups(rest).value)
  {
  }

  lemma {:induction false} GroupsDecode(gs: seq<Group>)
    requires forall i :: 0 <= i < |gs| ==> GroupLength(gs[i]) < 0x1_0000
    ensures DecodeGroups(Flat(gs, GroupBytes)) == Some(Listed(gs))
  {
    if gs != [] {
      var rest := Flat(gs[1..], GroupBytes);
      GroupsDecode(gs[1..]);
      GroupStarts(gs[0], rest);
      FlatCons(gs, GroupBytes);
      DecodeStep(Flat(gs, GroupBytes), gs[0].cmd, Flat(gs[0].entries, EntryBytes), rest);
      EntriesDecode(gs[0].cmd, gs[0].entries);
      ListedCons(gs);
    }
  }

  /** No group can be longer than what all of them take. */
  lemma {:induction false} GroupFits(gs: seq<Group>, i: nat)
    requires i < |gs|
    ensures GroupLength(gs[i]) + 4 <= End(gs)
  {
    FlatSplit(gs, i, GroupBytes);
    EntriesLength(gs[i].entries);
    EndIsLength(gs);
  }

  /** The table decodes to what its groups list. */
  lemma {:induction false} TableDecodes(gs: seq<Group>)
    requires End(gs) <= TABLE_SIZE
    ensures |TableBytes(gs)| == End(gs) && Decode(TableBytes(gs)) == Some(Listed(gs))
  {
    var h, body := HeaderBytes(HEADER_TAG, End(gs), HEADER_VERSION), Flat(gs, GroupBytes);
    var b := TableBytes(gs);
    EndIsLength(gs);
    assert b == h + body;
    BE16RoundTrip(End(gs));
    assert h[1..3] == BE16(End(gs));
    assert b[1..3] == h[1..3];
    assert b[4..] == body;
    forall i | 0 <= i < |gs| ensures GroupLength(gs[i]) < 0x1_0000 {
      GroupFits(gs, i);
    }
    GroupsDecode(gs);
  }

  lemma {:induction false} GroupsSnoc(gs: seq<Group>, g: Group)
    ensures Listed(gs + [g]) == Listed(gs) + Tagged(g.cmd, g.entries)
    ensures Flat(gs + [g], GroupBytes) == Flat(gs, GroupBytes) + GroupBytes(g)
    ensures End(gs + [g]) == End(gs) + GroupLength(g)
  {
    assert (gs + [g])[..|gs|] == gs;
  }

  lemma {:induction false} GroupsInit(gs: seq<Group>)
    requires gs != []
    ensures var init := gs[..|gs| - 1];
      && gs == init + [Last(gs)] && Listed(gs) == Listed(init) + Tagged(Last(gs).cmd, Last(gs).entries)
      && Flat(gs, GroupBytes) == Flat(init, GroupBytes) + GroupBytes(Last(gs))
      && End(gs) == End(init) + GroupLength(Last(gs))
  {
  }

  lemma {:induction false} EmptyGroupBytes(cmd: Cmd)
    ensures GroupBytes(Group(cmd, [])) == HeaderBytes(CmdTag(cmd), 4, CmdParam(cmd))
    ensures Tagged(cmd, []) == []
  {
  }

  lemma {:induction false} ParamKeeps(gs: seq<Group>, cmd: Cmd)
    requires End(gs) <= TABLE_SIZE && Param(gs, cmd).Some?
    ensures var gs' := Param(gs, cmd).value;
      Listed(gs') == Listed(gs) && End(gs') <= TABLE_SIZE && Last(gs').cmd == cmd
  {
    EmptyGroupBytes(cmd);
    if gs != [] && Last(gs).entries == [] {
      GroupsInit(gs);
      EmptyGroupBytes(Last(gs).cmd);
      GroupsSnoc(gs[..|gs| - 1], Group(cmd, []));
    } else {
      GroupsSnoc(gs, Group(cmd, []));
    }
  }

  lemma {:induction false} AddEntryLists(gs: seq<Group>, e: (uint32, uint32))
    requires gs != []
    ensures Listed(AddEntry(gs, e)) == Listed(gs) + [(Last(gs).cmd, e.0, e.1)]
    ensures End(AddEntry(gs, e)) == End(gs) + 8
  {
    var init, g := gs[..|gs| - 1], Last(gs);
    var g' := Group(g.cmd, g.entries + [e]);
    GroupsInit(gs);
    GroupsSnoc(init, g');
    assert Tagged(g.cmd, g'.entries) == Tagged(g.cmd, g.entries) + [(g.cmd, e.0, e.1)];
    EntriesLength(g.entries);
    EntriesLength(g'.entries);
  }

  lemma {:induction false} LineLists(t: Table, l: Line)
    requires End(t.groups) <= TABLE_SIZE && AddLine(t, l).Some?
    ensures var t' := AddLine(t, l).value;
      && End(t'.groups) <= TABLE_SIZE
      && Listed(t'.groups) == Listed(t.groups) + if |l.args| >= 3 then [(l.cmd, l.args[1], l.args[2])] else []
  {
    if l.args != [] {
      ParamKeeps(t.groups, l.cmd);
      AddEntryLists(Param(t.groups, l.cmd).value, if |l.args| >= 3 then (l.args[1], l.args[2]) else (0, 0));
    }
  }

  lemma {:induction false} LinesList(ls: seq<Line>)
    requires AddLines(ls).Some?
    ensures End(AddLines(ls).value.groups) <= TABLE_SIZE && Listed(AddLines(ls).value.groups) == Requested(ls)
  {
    if ls != [] {
      LinesList(ls[..|ls| - 1]);
      LineLists(AddLines(ls[..|ls| - 1]).value, ls[|ls| - 1]);
    }
  }

  lemma {:induction false} CompleteLists(gs: seq<Group>)
    ensures Listed(Complete(gs)) == Listed(gs) && End(Complete(gs)) <= End(gs)
  {
    if gs != [] {
      GroupsInit(gs);
      EmptyGroupBytes(Last(gs).cmd);
    }
  }

  /**
   Round trip: for every list of lines that stays inside the table, decoding the
   finished table gives exactly the complete lines, in order.
   */
  lemma {:induction false} RoundTrip(ls: seq<Line>)
    requires AddLines(ls).Some?
    ensures Decode(TableBytes(Complete(AddLines(ls).value.groups))) == Some(Requested(ls))
  {
    LinesList(ls);
    CompleteLists(AddLines(ls).value.groups);
    TableDecodes(Complete(AddLines(ls).value.groups));
  }

  /** Neighbouring writes of one kind share a header, and every check has its own. */
  ghost predicate Coalesced(gs: seq<Group>) {
    && (forall i :: 0 <= i < |gs| ==> gs[i].entries != [] && (!IsWrite(gs[i].cmd) ==> |gs[i].entries| == 1))
    && (forall i :: 0 < i < |gs| ==> IsWrite(gs[i].cmd) ==> gs[i - 1].cmd != gs[i].cmd)
  }

  lemma {:induction false} EntryCoalesces(gs: seq<Group>, e: (uint32, uint32))
    requires gs != [] && Coalesced(gs[..|gs| - 1])
    requires !IsWrite(Last(gs).cmd) ==> Last(gs).entries == []
    requires |gs| > 1 && IsWrite(Last(gs).cmd) ==> gs[|gs| - 2].cmd != Last(gs).cmd
    ensures Coalesced(AddEntry(gs, e))
  {
    var hs := AddEntry(gs, e);
    forall i | 0 <= i < |hs|
      ensures hs[i].entries != [] && (!IsWrite(hs[i].cmd) ==> |hs[i].entries| == 1)
    {
      if i < |gs| - 1 {
        assert hs[i] == gs[..|gs| - 1][i];
      }
    }
    forall i | 0 < i < |hs|
      ensures IsWrite(hs[i].cmd) ==> hs[i - 1].cmd != hs[i].cmd
    {
      if i < |gs| - 1 {
        assert hs[i] == gs[..|gs| - 1][i] && hs[i - 1] == gs[..|gs| - 1][i - 1];
      }
    }
  }

  lemma {:induction false} CoalescedInit(gs: seq<Group>)
    requires gs != [] && Coalesced(gs)
    ensures Coalesced(gs[..|gs| - 1]) && Last(gs).entries != []
    ensures |gs| > 1 && IsWrite(Last(gs).cmd) ==> gs[|gs| - 2].cmd != Last(gs).cmd
  {
  }

  lemma {:induction false} LineCoalesces(t: Table, l: Line)
    requires Coalesced(t.groups) && |l.args| >= 3 && AddLine(t, l).Some?
    ensures Coalesced(AddLine(t, l).value.groups)
  {
    var gs := t.groups;
    if gs != [] {
      CoalescedInit(gs);
    }
    var hs := Param(gs, l.cmd).value;
    assert hs == gs || hs[..|hs| - 1] == gs;
    EntryCoalesces(hs, (l.args[1], l.args[2]));
  }

  lemma {:induction false} LinesCoalesce(ls: seq<Line>)
    requires AddLines(ls).Some? && forall i :: 0 <= i < |ls| ==> |ls[i].args| >= 3
    ensures Coalesced(AddLines(ls).value.groups)
  {
    if ls != [] {
      LinesCoalesce(ls[..|ls| - 1]);
      LineCoalesces(AddLines(ls[..|ls| - 1]).value, ls[|ls| - 1]);
    }
  }

  lemma {:induction false} ParamGrows(gs: seq<Group>, cmd: Cmd)
    requires End(gs) + 4 <= TABLE_SIZE
    ensures Param(gs, cmd).Some? && End(Param(gs, cmd).value) <= End(gs) + 4
  {
    if gs != [] && Last(gs).entries == [] {
      GroupsSnoc(gs[..|gs| - 1], Group(cmd, []));
    } else {
      GroupsSnoc(gs, Group(cmd, []));
    }
  }

  /** A line takes at most twelve bytes and one of the counted entries. */
  lemma {:induction false} LineGrows(t: Table, l: Line)
    requires End(t.groups) + 12 <= TABLE_SIZE && t.count < MAX_ENTRIES
    ensures AddLine(t, l).Some?
    ensures var t' := AddLine(t, l).value; End(t'.groups) <= End(t.groups) + 12 && t'.count <= t.count + 1
  {
    if l.args != [] {
      ParamGrows(t.groups, l.cmd);
      AddEntryLists(Param(t.groups, l.cmd).value, if |l.args| >= 3 then (l.args[1], l.args[2]) else (0, 0));
    }
  }

  lemma {:induction false} LinesGrow(ls: seq<Line>)
    requires |ls| <= 239
    ensures AddLines(ls).Some?
    ensures End(AddLines(ls).value.groups) <= 4 + 12 * |ls| && AddLines(ls).value.count <= |ls|
  {
    if ls != [] {
      LinesGrow(ls[..|ls| - 1]);
      LineGrows(AddLines(ls[..|ls| - 1]).value, ls[|ls| - 1]);
    }
  }

  /** Any 239 lines fit the table. */
  lemma {:induction false} FewLinesFit(ls: seq<Line>)
    requires |ls| <= 239
    ensures AddLines(ls).Some?
  {
    LinesGrow(ls);
  }
}
