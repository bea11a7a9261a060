/**
 The encoder that fills the DCD table in place, one number of the configuration
 file at a time, shown to build exactly the groups of module Dcd.
 */
module DcdTable {
  import opened Bytes
  import opened Options
  import opened Dcd

  /** The bytes `s` stand in `t` at `off`. */
  predicate At(t: seq<byte>, off: nat, s: seq<byte>) {
    off + |s| <= |t| && forall i :: 0 <= i < |s| ==> t[off + i] == s[i]
  }

  lemma {:induction false} AtConcat(t: seq<byte>, off: nat, a: seq<byte>, b: seq<byte>)
    ensures At(t, off, a + b) <==> At(t, off, a) && At(t, off + |a|, b)
  {
    if At(t, off, a + b) {
      assert forall i :: 0 <= i < |a| ==> a[i] == (a + b)[i];
      assert forall i :: 0 <= i < |b| ==> b[i] == (a + b)[|a| + i];
    }
    if At(t, off, a) && At(t, off + |a|, b) {
      forall i | 0 <= i < |a + b| ensures t[off + i] == (a + b)[i] {
        assert i >= |a| ==> (a + b)[i] == b[i - |a|];
      }
    }
  }

  /** What stands apart from a patch stays. */
  lemma {:induction false} AtPatched(t: seq<byte>, at: nat, d: seq<byte>, off: nat, s: seq<byte>)
    requires at + |d| <= |t| && At(t, off, s) && (off + |s| <= at || at + |d| <= off)
    ensures At(Patch(t, at, d), off, s)
  {
  }

  lemma {:induction false} PatchStands(t: seq<byte>, at: nat, d: seq<byte>)
    requires at + |d| <= |t|
    ensures At(Patch(t, at, d), at, d)
  {
  }

  lemma {:induction false} AtSlice(t: seq<byte>, s: seq<byte>)
    requires At(t, 0, s)
    ensures t[..|s|] == s
  {
    assert forall i :: 0 <= i < |s| ==> t[..|s|][i] == t[0 + i];
  }

  ghost predicate HeaderAt(t: seq<byte>, d: nat, cmd: Cmd, length: uint16) {
    At(t, d, HeaderBytes(CmdTag(cmd), length, CmdParam(cmd)))
  }

  /** A group's header and entries stand at `d`. */
  ghost predicate GroupAt(t: seq<byte>, d: nat, g: Group) {
    GroupLength(g) < 0x1_0000 && HeaderAt(t, d, g.cmd, GroupLength(g)) && At(t, d + 4, Flat(g.entries, EntryBytes))
  }

  ghost predicate GroupsAt(t: seq<byte>, gs: seq<Group>) {
    gs == [] || (GroupsAt(t, gs[..|gs| - 1]) && GroupAt(t, End(gs[..|gs| - 1]), gs[|gs| - 1]))
  }

  /** Bytes `t` hold the groups behind the table header. */
  ghost predicate Holds(t: seq<byte>, gs: seq<Group>) {
    |t| == TABLE_SIZE && End(gs) <= TABLE_SIZE && GroupsAt(t, gs)
  }

  /** Offset of the last group's header. */
  function LastAt(gs: seq<Group>): nat
    requires gs != []
  {
    End(gs[..|gs| - 1])
  }

  lemma {:induction false} GroupBytesShape(g: Group)
    requires GroupLength(g) < 0x1_0000
    ensures |GroupBytes(g)| == GroupLength(g)
    ensures GroupBytes(g) == HeaderBytes(CmdTag(g.cmd), GroupLength(g), CmdParam(g.cmd)) + Flat(g.entries, EntryBytes)
  {
    EntriesLength(g.entries);
  }

  /** Groups that stand one after the other are the encoded list. */
  lemma {:induction false} GroupsAreFlat(t: seq<byte>, gs: seq<Group>)
    requires |t| >= 4 && GroupsAt(t, gs)
    ensures At(t, 4, Flat(gs, GroupBytes))
  {
    if gs != [] {
      var init, g := gs[..|gs| - 1], gs[|gs| - 1];
      GroupsAreFlat(t, init);
      EndIsLength(init);
      GroupBytesShape(g);
      AtConcat(t, End(init), HeaderBytes(CmdTag(g.cmd), GroupLength(g), CmdParam(g.cmd)), Flat(g.entries, EntryBytes));
      AtConcat(t, 4, Flat(init, GroupBytes), GroupBytes(g));
    }
  }

  /** Groups stay where they stand when bytes behind them change. */
  lemma {:induction false} GroupsPatched(t: seq<byte>, at: nat, d: seq<byte>, gs: seq<Group>)
    requires at + |d| <= |t| && End(gs) <= at && GroupsAt(t, gs)
    ensures GroupsAt(Patch(t, at, d), gs)
  {
    if gs != [] {
      var init, g := gs[..|gs| - 1], gs[|gs| - 1];
      EntriesLength(g.entries);
      GroupsPatched(t, at, d, init);
      AtPatched(t, at, d, End(init), HeaderBytes(CmdTag(g.cmd), GroupLength(g), CmdParam(g.cmd)));
      AtPatched(t, at, d, End(init) + 4, Flat(g.entries, EntryBytes));
    }
  }

  /** What the encoder finds at its last header. */
  lemma {:induction false} LastHeader(t: seq<byte>, gs: seq<Group>)
    requires gs != [] && Holds(t, gs)
    ensures 4 <= LastAt(gs) && LastAt(gs) + GroupLength(Last(gs)) == End(gs) && GroupLength(Last(gs)) < 0x1_0000
    ensures Holds(t, gs[..|gs| - 1])
    ensures HeaderAt(t, LastAt(gs), Last(gs).cmd, GroupLength(Last(gs)))
    ensures At(t, LastAt(gs) + 4, Flat(Last(gs).entries, EntryBytes))
  {
  }

  /** Header bytes, read back field by field. */
  lemma {:induction false} HeaderFields(t: seq<byte>, d: nat, cmd: Cmd, length: uint16)
    requires HeaderAt(t, d, cmd, length)
    ensures d + 4 <= |t| && t[d] == CmdTag(cmd) && FromBE16([t[d + 1], t[d + 2]]) == length && t[d + 3] == CmdParam(cmd)
  {
    var h := HeaderBytes(CmdTag(cmd), length, CmdParam(cmd));
    BE16RoundTrip(length);
    assert h[0] == t[d + 0] && h[1] == t[d + 1] && h[2] == t[d + 2] && h[3] == t[d + 3];
    assert [h[1], h[2]] == BE16(length);
  }

  /** A group with its bytes behind those of other groups. */
  lemma {:induction false} HoldsSnoc(t: seq<byte>, gs: seq<Group>, g: Group)
    requires Holds(t, gs) && End(gs) + GroupLength(g) <= TABLE_SIZE
    requires HeaderAt(t, End(gs), g.cmd, GroupLength(g))
    requires At(t, End(gs) + 4, Flat(g.entries, EntryBytes))
    ensures Holds(t, gs + [g]) && LastAt(gs + [g]) == End(gs) && End(gs + [g]) == End(gs) + GroupLength(g)
  {
    assert (gs + [g])[..|gs|] == gs;
  }

  /** The state behind the current header, told from the groups alone. */
  function CurrentAt(gs: seq<Group>): nat {
    if gs == [] then 4 else LastAt(gs)
  }

  ghost predicate Ready(t: seq<byte>, gs: seq<Group>) {
    Holds(t, gs) && (gs == [] ==> At(t, 4, Zeros(4)))
  }

  /** The current header's fields, as the encoder reads them. */
  lemma {:induction false} Here(t: seq<byte>, gs: seq<Group>)
    requires Ready(t, gs)
    ensures var d := CurrentAt(gs);
      && 4 <= d && d + 4 <= TABLE_SIZE
      && (gs == [] ==> t[d] == 0 && FromBE16([t[d + 1], t[d + 2]]) == 0)
      && (gs != [] ==>
           && d + GroupLength(Last(gs)) == End(gs)
           && t[d] == CmdTag(Last(gs).cmd) && t[d + 3] == CmdParam(Last(gs).cmd)
           && FromBE16([t[d + 1], t[d + 2]]) == GroupLength(Last(gs)))
  {
    if gs == [] {
      var z := Zeros(4);
      assert z[0] == t[4 + 0] && z[1] == t[4 + 1] && z[2] == t[4 + 2];
    } else {
      LastHeader(t, gs);
      HeaderFields(t, LastAt(gs), Last(gs).cmd, GroupLength(Last(gs)));
    }
  }

  /** Without its empty last group, a table still holds the rest. */
  lemma {:induction false} HoldsComplete(t: seq<byte>, gs: seq<Group>)
    requires Ready(t, gs)
    ensures Holds(t, Complete(gs)) && 4 <= End(Complete(gs)) <= TABLE_SIZE
    ensures gs != [] && Last(gs).entries == [] ==> End(Complete(gs)) == LastAt(gs)
    ensures gs == [] || Last(gs).entries != [] ==> End(Complete(gs)) == End(gs)
  {
    if gs != [] {
      LastHeader(t, gs);
    }
  }

  /** Starting a group: a header of length 4 behind the complete groups. */
  lemma {:induction false} Started(t: seq<byte>, t': seq<byte>, gs: seq<Group>, cmd: Cmd)
    requires Holds(t, gs) && End(gs) + 4 <= TABLE_SIZE
    requires t' == Patch(t, End(gs), HeaderBytes(CmdTag(cmd), 4, CmdParam(cmd)))
    ensures Ready(t', gs + [Group(cmd, [])]) && LastAt(gs + [Group(cmd, [])]) == End(gs)
  {
    var h := HeaderBytes(CmdTag(cmd), 4, CmdParam(cmd));
    GroupsPatched(t, End(gs), h, gs);
    PatchStands(t, End(gs), h);
    HoldsSnoc(t', gs, Group(cmd, []));
  }

  /** Restarting an empty group of the same command rewrites the same header. */
  lemma {:induction false} Restarted(t: seq<byte>, d: nat, cmd: Cmd)
    requires HeaderAt(t, d, cmd, 4)
    ensures Patch(t, d, HeaderBytes(CmdTag(cmd), 4, CmdParam(cmd))) == t
  {
    var h := HeaderBytes(CmdTag(cmd), 4, CmdParam(cmd));
    forall i | 0 <= i < |t| ensures Patch(t, d, h)[i] == t[i] {
      assert d <= i < d + 4 ==> h[i - d] == t[d + (i - d)];
    }
  }

  lemma {:induction false} Starts(t: seq<byte>, gs: seq<Group>, cmd: Cmd)
    requires Ready(t, gs) && End(Complete(gs)) + 4 <= TABLE_SIZE
    ensures var gs' := Complete(gs) + [Group(cmd, [])];
      var t' := Patch(t, End(Complete(gs)), HeaderBytes(CmdTag(cmd), 4, CmdParam(cmd)));
      Ready(t', gs') && LastAt(gs') == End(Complete(gs)) && (gs' == gs ==> t' == t)
  {
    HoldsComplete(t, gs);
    Started(t, Patch(t, End(Complete(gs)), HeaderBytes(CmdTag(cmd), 4, CmdParam(cmd))), Complete(gs), cmd);
    if Complete(gs) + [Group(cmd, [])] == gs {
      LastHeader(t, gs);
      Restarted(t, End(Complete(gs)), cmd);
    }
  }

  /** Which group a command goes to, by the test the encoder makes on the header. */
  lemma {:induction false} ReuseTest(t: seq<byte>, gs: seq<Group>, cmd: Cmd)
    requires Ready(t, gs)
    ensures 4 <= CurrentAt(gs) && CurrentAt(gs) + 4 <= TABLE_SIZE
    ensures IsWrite(cmd) ==>
      ((t[CurrentAt(gs)] == WRITE_TAG && t[CurrentAt(gs) + 3] == CmdParam(cmd)) <==> (gs != [] && Last(gs).cmd == cmd))
  {
    Here(t, gs);
  }

  /** A new group is `Complete` plus one, whether or not an empty one is replaced. */
  lemma {:induction false} ParamStarts(gs: seq<Group>, cmd: Cmd)
    requires !(gs != [] && IsWrite(cmd) && Last(gs).cmd == cmd) && End(gs) <= TABLE_SIZE
    ensures Param(gs, cmd) == if End(Complete(gs)) + 4 > TABLE_SIZE then None else Some(Complete(gs) + [Group(cmd, [])])
  {
  }

  /** Bytes after storing a value behind an address and a new length in the header. */
  function Entered(t: seq<byte>, d: nat, e: nat, value: uint32, length: uint16): seq<byte>
    requires d + 4 <= e && e + 8 <= |t|
  {
    Patch(Patch(t, e + 4, BE32(value)), d + 1, BE16(length))
  }

  lemma {:induction false} EntryParts(t: seq<byte>, gs: seq<Group>, addr: uint32, value: uint32, length: uint16)
    requires gs != [] && Holds(t, gs) && End(gs) + 8 <= TABLE_SIZE && LastAt(gs) + 4 <= End(gs)
    requires At(t, End(gs), BE32(addr))
    ensures LastAt(gs) + GroupLength(Last(gs)) == End(gs)
    ensures var t' := Entered(t, LastAt(gs), End(gs), value, length);
      && Holds(t', gs[..|gs| - 1]) && HeaderAt(t', LastAt(gs), Last(gs).cmd, length)
      && At(t', LastAt(gs) + 4, Flat(Last(gs).entries + [(addr, value)], EntryBytes))
  {
    var g := Last(gs);
    LastHeader(t, gs);
    EntriesLength(g.entries);
    FlatSnoc(g.entries, (addr, value), EntryBytes);
    InitStays(t, gs[..|gs| - 1], LastAt(gs), End(gs), value, length);
    BytesEntered(t, LastAt(gs), g.cmd, GroupLength(g), Flat(g.entries, EntryBytes), addr, value, length);
  }

  lemma {:induction false} InitStays(t: seq<byte>, gs: seq<Group>, d: nat, e: nat, value: uint32, length: uint16)
    requires Holds(t, gs) && End(gs) <= d && d + 4 <= e && e + 8 <= |t|
    ensures Holds(Entered(t, d, e, value, length), gs)
  {
    GroupsPatched(t, e + 4, BE32(value), gs);
    GroupsPatched(Patch(t, e + 4, BE32(value)), d + 1, BE16(length), gs);
  }

  /** Storing the second half of an entry completes it, once the length says so. */
  lemma {:induction false} EntryStored(t: seq<byte>, gs: seq<Group>, addr: uint32, value: uint32, length: uint16)
    requires gs != [] && Holds(t, gs) && End(gs) + 8 <= TABLE_SIZE && LastAt(gs) + 4 <= End(gs)
    requires At(t, End(gs), BE32(addr)) && length == GroupLength(Last(gs)) + 8
    ensures Holds(Entered(t, LastAt(gs), End(gs), value, length), AddEntry(gs, (addr, value)))
    ensures LastAt(AddEntry(gs, (addr, value))) == LastAt(gs)
  {
    EntryParts(t, gs, addr, value, length);
    var t' := Entered(t, LastAt(gs), End(gs), value, length);
    var init, g' := gs[..|gs| - 1], Group(Last(gs).cmd, Last(gs).entries + [(addr, value)]);
    assert GroupLength(g') == length && AddEntry(gs, (addr, value)) == init + [g'];
    HoldsSnoc(t', init, g');
  }

  lemma {:induction false} ValueStored(t: seq<byte>, gs: seq<Group>, addr: uint32, value: uint32, off: nat)
    returns (t': seq<byte>)
    requires gs != [] && Ready(t, gs) && End(gs) + 8 <= TABLE_SIZE && At(t, End(gs), BE32(addr))
    requires off == |Last(gs).entries|
    ensures LastAt(gs) + 4 <= End(gs) && 8 * (off + 1) + 4 < 0x1_0000
    ensures AddEntry(gs, (addr, value)) != [] && LastAt(AddEntry(gs, (addr, value))) == LastAt(gs)
    ensures t' == Entered(t, LastAt(gs), End(gs), value, 8 * (off + 1) + 4) && Ready(t', AddEntry(gs, (addr, value)))
  {
    LastHeader(t, gs);
    EntryStored(t, gs, addr, value, 8 * (off + 1) + 4);
    t' := Entered(t, LastAt(gs), End(gs), value, 8 * (off + 1) + 4);
  }

  /** The same on bytes: a header at `d`, entries so far, an address. */
  lemma {:induction false} BytesEntered(t: seq<byte>, d: nat, cmd: Cmd, length: uint16, es: seq<byte>, addr: uint32,
      value: uint32, length': uint16)
    requires HeaderAt(t, d, cmd, length) && At(t, d + 4, es)
    requires d + 12 + |es| <= |t| && At(t, d + 4 + |es|, BE32(addr))
    ensures var t' := Entered(t, d, d + 4 + |es|, value, length');
      HeaderAt(t', d, cmd, length') && At(t', d + 4, es + EntryBytes((addr, value)))
  {
    var e := d + 4 + |es|;
    var u := Patch(t, e + 4, BE32(value));
    AtPatched(t, e + 4, BE32(value), d, HeaderBytes(CmdTag(cmd), length, CmdParam(cmd)));
    HeaderLength(u, d, cmd, length, length');
    EntryBehind(t, d + 4, es, BE32(addr), BE32(value));
    AtPatched(u, d + 1, BE16(length'), d + 4, es + EntryBytes((addr, value)));
  }

  lemma {:induction false} HeaderLength(u: seq<byte>, d: nat, cmd: Cmd, length: uint16, length': uint16)
    requires d + 4 <= |u| && HeaderAt(u, d, cmd, length)
    ensures HeaderAt(Patch(u, d + 1, BE16(length')), d, cmd, length')
  {
    var h := HeaderBytes(CmdTag(cmd), length, CmdParam(cmd));
    assert h[0] == u[d + 0] && h[3] == u[d + 3];
  }

  lemma {:induction false} EntryBehind(t: seq<byte>, lo: nat, b: seq<byte>, x: seq<byte>, y: seq<byte>)
    requires At(t, lo, b) && lo + |b| + |x| + |y| <= |t| && At(t, lo + |b|, x)
    ensures At(Patch(t, lo + |b| + |x|, y), lo, b + (x + y))
  {
    var e := lo + |b|;
    var u := Patch(t, e + |x|, y);
    AtPatched(t, e + |x|, y, lo, b);
    AtPatched(t, e + |x|, y, e, x);
    PatchStands(t, e + |x|, y);
    AtConcat(u, e, x, y);
    AtConcat(u, lo, b, x + y);
  }

  lemma {:induction false} ParamTwice(gs: seq<Group>, cmd: Cmd)
    requires Param(gs, cmd).Some?
    ensures Param(Param(gs, cmd).value, cmd) == Param(gs, cmd)
  {
    var hs := Param(gs, cmd).value;
    assert Last(hs).cmd == cmd && (IsWrite(cmd) || Last(hs).entries == []);
    assert hs[..|hs| - 1] + [Last(hs)] == hs;
  }

  /** A line is refused exactly where one of its numbers is, and else has this result. */
  lemma {:induction false} LineResult(t0: Table, l: Line, gs: seq<Group>)
    requires l.args != [] && Param(t0.groups, l.cmd) == Some(gs)
    ensures |l.args| == 1 ==> AddLine(t0, l) == Some(Table(gs, t0.count))
    ensures |l.args| >= 2 && End(gs) + 4 > TABLE_SIZE ==> AddLine(t0, l) == None
    ensures |l.args| == 2 && End(gs) + 4 <= TABLE_SIZE ==> AddLine(t0, l) == Some(Table(gs, t0.count))
    ensures |l.args| >= 3 && End(gs) + 4 <= TABLE_SIZE ==>
      AddLine(t0, l) == if End(gs) + 8 > TABLE_SIZE || t0.count + 1 > MAX_ENTRIES then None
                        else Some(Table(AddEntry(gs, (l.args[1], l.args[2])), t0.count + 1))
  {
  }

  lemma {:induction false} HeaderInFront(t: seq<byte>, body: seq<byte>, h: seq<byte>)
    requires At(t, 4, body) && |h| == 4
    ensures Patch(t, 0, h)[..4 + |body|] == h + body
  {
    AtPatched(t, 0, h, 4, body);
    PatchStands(t, 0, h);
    AtConcat(Patch(t, 0, h), 0, h, body);
    AtSlice(Patch(t, 0, h), h + body);
  }

  lemma {:induction false} FinishedBody(t: seq<byte>, gs: seq<Group>) returns (body: seq<byte>)
    requires Ready(t, gs)
    ensures At(t, 4, body) && End(Complete(gs)) == 4 + |body| <= TABLE_SIZE
    ensures TableBytes(Complete(gs)) == HeaderBytes(HEADER_TAG, 4 + |body|, HEADER_VERSION) + body
  {
    HoldsComplete(t, gs);
    GroupsAreFlat(t, Complete(gs));
    body := TableBody(Complete(gs));
  }

  lemma {:induction false} TableBody(gs: seq<Group>) returns (body: seq<byte>)
    requires End(gs) <= TABLE_SIZE
    ensures body == Flat(gs, GroupBytes) && End(gs) == 4 + |body|
    ensures TableBytes(gs) == HeaderBytes(HEADER_TAG, 4 + |body|, HEADER_VERSION) + body
  {
    EndIsLength(gs);
    body := Flat(gs, GroupBytes);
    assert End(gs) % 0x1_0000 == 4 + |body|;
  }

  lemma {:induction false} AddressStored(t: seq<byte>, gs: seq<Group>, value: uint32)
    requires Ready(t, gs) && gs != [] && End(gs) + 4 <= TABLE_SIZE
    ensures var t' := Patch(t, End(gs), BE32(value)); Ready(t', gs) && At(t', End(gs), BE32(value))
  {
    GroupsPatched(t, End(gs), BE32(value), gs);
    PatchStands(t, End(gs), BE32(value));
  }

  method StoreHeader(a: array<byte>, h: seq<byte>, ghost body: seq<byte>)
    requires At(a[..], 4, body) && |h| == 4
    modifies a
    ensures a[..4 + |body|] == h + body
  {
    HeaderInFront(a[..], body, h);
    Store(a, 0, h);
    assert a[..4 + |body|] == a[..][..4 + |body|];
  }

  method StoreEntry(a: array<byte>, d: nat, e: nat, value: uint32, length: uint16, ghost t: seq<byte>)
    requires d + 4 <= e && e + 8 <= a.Length && t == Entered(a[..], d, e, value, length)
    modifies a
    ensures a[..] == t
  {
    Store(a, e + 4, BE32(value));
    Store(a, d + 1, BE16(length));
  }

  method StoreValue(a: array<byte>, d: nat, e: nat, off: nat, value: uint32, ghost gs: seq<Group>, ghost addr: uint32)
    requires gs != [] && Ready(a[..], gs) && d == LastAt(gs) && e == End(gs) && off == |Last(gs).entries|
    requires e + 8 <= TABLE_SIZE && At(a[..], e, BE32(addr))
    modifies a
    ensures Ready(a[..], AddEntry(gs, (addr, value)))
    ensures AddEntry(gs, (addr, value)) != [] && LastAt(AddEntry(gs, (addr, value))) == d
  {
    ghost var t := ValueStored(a[..], gs, addr, value, off);
    StoreEntry(a, d, e, value, 8 * (off + 1) + 4, t);
  }

  class Encoder {
    const table: array<byte>
    /** `gd_last_cmd`, as an offset into the table; 0 stands for the null pointer. */
    var last: nat
    var count: nat
    ghost var groups: seq<Group>

    ghost predicate Valid()
      reads this, table
    {
      Ready(table[..], groups) && last == if groups == [] then 0 else LastAt(groups)
    }

    constructor ()
      ensures Valid() && groups == [] && count == 0 && fresh(table)
    {
      table := new byte[TABLE_SIZE](_ => 0);
      last, count, groups := 0, 0, [];
      new;
    }

    /** The current header, and the offset behind its command as its length field says. */
    method Behind() returns (d: nat, e: nat)
      requires Valid()
      ensures d == CurrentAt(groups) && e == End(Complete(groups))
    {
      d := if last == 0 then 4 else last;
      Here(table[..], groups);
      HoldsComplete(table[..], groups);
      var len := FromBE16([table[d + 1], table[d + 2]]);
      e := if len > 4 then d + len else d;
    }

    /** Entering a command: its header is reused or a new one is started. */
    method SetDcdParam(cmd: Cmd) returns (ok: bool)
      requires Valid()
      modifies this, table
      ensures count == old(count)
      ensures ok == Param(old(groups), cmd).Some?
      ensures ok ==> Valid() && groups == Param(old(groups), cmd).value
      ensures ok && groups == old(groups) ==> table[..] == old(table[..])
    {
      var d, d2 := Behind();
      ReuseTest(table[..], groups, cmd);
      if IsWrite(cmd) && table[d] == WRITE_TAG && table[d + 3] == CmdParam(cmd) {
        last := d;
        return true;
      }
      ParamStarts(groups, cmd);
      if d2 + 4 > TABLE_SIZE {
        return false;
      }
      StartCommand(cmd, d2);
      return true;
    }

    /** A header of length 4 behind the complete commands. */
    method StartCommand(cmd: Cmd, d: nat)
      requires Valid() && d == End(Complete(groups)) && d + 4 <= TABLE_SIZE
      modifies this, table
      ensures count == old(count) && Valid() && groups == Complete(old(groups)) + [Group(cmd, [])]
      ensures groups == old(groups) ==> table[..] == old(table[..])
    {
      Starts(table[..], groups, cmd);
      Store(table, d, HeaderBytes(CmdTag(cmd), 4, CmdParam(cmd)));
      groups := Complete(groups) + [Group(cmd, [])];
      last := d;
    }

    /** The bytes where the next entry's address goes. */
    ghost predicate Pending(addr: uint32)
      reads this, table
    {
      At(table[..], End(groups), BE32(addr))
    }

    /** How many entries the last command has, from its length field. */
    method Entries() returns (off: nat)
      requires Valid() && groups != []
      ensures off == |Last(groups).entries|
      ensures 4 <= last && last + GroupLength(Last(groups)) == End(groups)
    {
      Here(table[..], groups);
      off := (FromBE16([table[last + 1], table[last + 2]]) - 4) / 8;
    }

    /** `set_dcd_val_v2` for an address field. */
    method SetAddress(value: uint32) returns (ok: bool)
      requires Valid() && groups != []
      modifies table
      ensures ok == (End(groups) + 4 <= TABLE_SIZE)
      ensures ok ==> Valid() && Pending(value)
    {
      var off := Entries();
      var at := last + 4 + 8 * off;
      if at + 4 > TABLE_SIZE {
        return false;
      }
      AddressStored(table[..], groups, value);
      Store(table, at, BE32(value));
      return true;
    }

    /** `set_dcd_val_v2` for a value field: the entry is complete. */
    method SetValue(ghost addr: uint32, value: uint32) returns (ok: bool)
      requires Valid() && groups != [] && Pending(addr)
      modifies this, table
      ensures count == old(count)
      ensures ok == (End(old(groups)) + 8 <= TABLE_SIZE)
      ensures ok ==> Valid() && groups == AddEntry(old(groups), (addr, value))
    {
      var off := Entries();
      var at := last + 4 + 8 * off;
      if at + 8 > TABLE_SIZE {
        return false;
      }
      StoreValue(table, last, at, off, value, groups, addr);
      groups := AddEntry(groups, (addr, value));
      return true;
    }

    /** A value field also counts against the entry limit. */
    method AddValue(ghost addr: uint32, value: uint32) returns (ok: bool)
      requires Valid() && groups != [] && Pending(addr)
      modifies this, table
      ensures ok == (End(old(groups)) + 8 <= TABLE_SIZE && old(count) + 1 <= MAX_ENTRIES)
      ensures ok ==> Valid() && groups == AddEntry(old(groups), (addr, value)) && count == old(count) + 1
    {
      ok := SetValue(addr, value);
      count := count + 1;
      if count > MAX_ENTRIES {
        ok := false;
      }
    }

    /** The first `fld` numbers of a line are in. */
    ghost predicate Progress(t0: Table, l: Line, fld: nat)
      reads this, table
    {
      && Valid() && fld <= |l.args|
      && (fld == 0 ==> Table(groups, count) == t0)
      && (fld == 1 || fld == 2 ==> Param(t0.groups, l.cmd) == Some(groups) && count == t0.count)
      && (fld == 2 ==> End(groups) + 4 <= TABLE_SIZE && Pending(l.args[1]))
      && (fld >= 3 ==> AddLine(t0, l) == Some(Table(groups, count)))
    }

    /** Entering the command of the last group once more changes nothing. */
    method EnterAgain(cmd: Cmd, ghost gs: seq<Group>)
      requires Valid() && Param(gs, cmd) == Some(groups)
      modifies this, table
      ensures Valid() && groups == old(groups) && count == old(count) && table[..] == old(table[..])
    {
      ParamTwice(gs, cmd);
      var ok := SetDcdParam(cmd);
      assert ok;
    }

    /** The size field only enters the command. */
    method SizeField(l: Line, ghost t0: Table) returns (ok: bool)
      requires 0 < |l.args| && Progress(t0, l, 0)
      modifies this, table
      ensures ok ==> Progress(t0, l, 1)
      ensures !ok ==> AddLine(t0, l).None?
    {
      ok := SetDcdParam(l.cmd);
    }

    method AddressField(l: Line, ghost t0: Table) returns (ok: bool)
      requires 1 < |l.args| && Progress(t0, l, 1)
      modifies this, table
      ensures ok ==> Progress(t0, l, 2)
      ensures !ok ==> AddLine(t0, l).None?
    {
      LineResult(t0, l, groups);
      EnterAgain(l.cmd, t0.groups);
      ok := SetAddress(l.args[1]);
    }

    method ValueField(l: Line, ghost t0: Table) returns (ok: bool)
      requires 2 < |l.args| && Progress(t0, l, 2)
      modifies this, table
      ensures ok ==> Progress(t0, l, 3)
      ensures !ok ==> AddLine(t0, l).None?
    {
      LineResult(t0, l, groups);
      EnterAgain(l.cmd, t0.groups);
      ok := AddValue(l.args[1], l.args[2]);
    }

    /** One number of a line. */
    method ParseCfgFld(l: Line, fld: nat, ghost t0: Table) returns (ok: bool)
      requires fld < |l.args| && Progress(t0, l, fld)
      modifies this, table
      ensures ok ==> Progress(t0, l, fld + 1)
      ensures !ok ==> AddLine(t0, l).None?
    {
      if fld == 0 {
        ok := SizeField(l, t0);
      } else if fld == 1 {
        ok := AddressField(l, t0);
      } else if fld == 2 {
        ok := ValueField(l, t0);
      } else {
        ok := true;
      }
    }

    /** The numbers of one line, field by field. */
    method ParseLine(l: Line) returns (ok: bool)
      requires Valid()
      modifies this, table
      ensures ok == AddLine(Table(old(groups), old(count)), l).Some?
      ensures ok ==> Valid() && Table(groups, count) == AddLine(Table(old(groups), old(count)), l).value
    {
      ghost var t0 := Table(groups, count);
      for fld := 0 to |l.args|
        invariant Progress(t0, l, fld)
      {
        ok := ParseCfgFld(l, fld, t0);
        if !ok {
          return;
        }
      }
      if 0 < |l.args| < 3 {
        LineResult(t0, l, groups);
      }
      return true;
    }

    /** `set_dcd_rst_v2`: the table header, with the length of everything complete. */
    method SetDcdRst() returns (length: nat)
      requires Valid()
      modifies table
      ensures length == End(Complete(groups)) <= TABLE_SIZE == table.Length
      ensures table[..length] == TableBytes(Complete(groups))
    {
      var d;
      d, length := Behind();
      ghost var body := FinishedBody(table[..], groups);
      StoreHeader(table, HeaderBytes(HEADER_TAG, length, HEADER_VERSION), body);
    }

    /** The whole configuration file: it succeeds exactly when the lines fit. */
    method ParseCfgFile(ls: seq<Line>) returns (ok: bool, length: nat)
      requires Valid() && groups == [] && count == 0
      modifies this, table
      ensures ok == AddLines(ls).Some?
      ensures ok ==> length <= table.Length && table[..length] == TableBytes(Complete(AddLines(ls).value.groups))
      ensures ok ==> Decode(table[..length]) == Some(Requested(ls))
    {
      length := 0;
      for i := 0 to |ls|
        invariant Valid() && AddLines(ls[..i]) == Some(Table(groups, count))
      {
        assert ls[..i + 1][..i] == ls[..i];
        ok := ParseLine(ls[i]);
        if !ok {
          LinesPrefix(ls, i + 1);
          return;
        }
      }
      assert ls[..|ls|] == ls;
      length := SetDcdRst();
      RoundTrip(ls);
      ok := true;
    }
  }

  lemma {:induction false} LinesPrefix(ls: seq<Line>, i: nat)
    requires i <= |ls| && AddLines(ls[..i]).None?
    ensures AddLines(ls).None?
    decreases |ls| - i
  {
    if i < |ls| {
      assert ls[..i + 1][..i] == ls[..i];
      LinesPrefix(ls, i + 1);
    } else {
      assert ls[..i] == ls;
    }
  }
}
