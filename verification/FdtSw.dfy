/**
 The calls of the sequential writer on the caller's buffer: every header word
 and every byte is updated in place. Each call is proved to turn the layout of
 the old writer into the layout of the new one.
 */
module FdtSw {
  import opened Bytes
  import Memmove
  import opened Fdt
  import opened FdtWriter
  import opened FdtWalk
  import opened FdtFinish

  class SwBlob {
    const buf: array<byte>
    ghost var w: Writer

    /** The buffer is the layout of `w`. */
    ghost predicate Writing()
      reads this, buf
    {
      Fits(w) && buf[..] == Layout(w)
    }

    /** The buffer holds a finished blob. */
    ghost predicate Finished()
      reads this, buf
    {
      buf.Length >= HEADER_SIZE && Field(buf[..], MAGIC) == FDT_MAGIC
    }

    constructor (buf: array<byte>)
      ensures this.buf == buf
    {
      this.buf := buf;
      w := Writer(0, [], [], []);
    }

    method GetField(i: nat) returns (v: uint32)
      requires 4 * i + 4 <= buf.Length
      ensures v == Field(buf[..], i)
    {
      v := FromBE32(buf[4 * i..4 * i + 4]);
      assert buf[4 * i..4 * i + 4] == buf[..][4 * i..4 * i + 4];
    }

    method SetField(i: nat, v: uint32)
      requires 4 * i + 4 <= buf.Length
      modifies buf
      ensures buf[..] == Patch(old(buf[..]), 4 * i, BE32(v))
    {
      Store(buf, 4 * i, BE32(v));
    }

    /** A writer header word, read back. */
    method Get(i: nat) returns (v: uint32)
      requires Writing() && i < 10
      ensures v == Fields(w)[i]
    {
      LayoutField(w, i);
      v := GetField(i);
    }

    /** `_fdt_sw_check_header`. */
    method IsWriting() returns (ok: bool)
      requires Writing() || Finished()
      ensures ok <==> Field(buf[..], MAGIC) == SW_MAGIC
      ensures Writing() ==> ok
    {
      if Writing() {
        LayoutField(w, MAGIC);
      }
      var magic := GetField(MAGIC);
      ok := magic == SW_MAGIC;
    }

    /** `fdt_create`. A buffer too small for the reserve map is accepted too: its offsets then lie behind its end. */
    method Create() returns (r: Code)
      requires buf.Length < INT_LIMIT
      modifies this, buf
      ensures r == if buf.Length < HEADER_SIZE then NoSpace else Ok
      ensures buf.Length < HEADER_SIZE ==> buf[..] == old(buf[..])
      ensures buf.Length >= HEADER_SIZE ==> buf[..] == Words(EmptyHeader(buf.Length)) + Zeros(buf.Length - HEADER_SIZE)
      ensures buf.Length >= RSVMAP_OFFSET ==> Writing() && w == Writer(buf.Length, [], [], [])
    {
      if buf.Length < HEADER_SIZE {
        return NoSpace;
      }
      Store(buf, 0, Zeros(buf.Length));
      ghost var ws: seq<uint32> := seq(10, _ => 0);
      ghost var rest := Zeros(buf.Length - HEADER_SIZE);
      ZeroWords(10);
      assert buf[..] == Words(ws) + rest;
      ws := SetWord(ws, rest, MAGIC, SW_MAGIC);
      ws := SetWord(ws, rest, VERSION, LAST_VERSION);
      ws := SetWord(ws, rest, VERSION + 1, FIRST_VERSION);
      ws := SetWord(ws, rest, TOTALSIZE, buf.Length);
      ws := SetWord(ws, rest, OFF_STRUCT + 2, RSVMAP_OFFSET);
      ws := SetWord(ws, rest, OFF_STRUCT, RSVMAP_OFFSET);
      ws := SetWord(ws, rest, OFF_STRINGS, buf.Length);
      assert ws == EmptyHeader(buf.Length);
      w := Writer(buf.Length, [], [], []);
      if buf.Length >= RSVMAP_OFFSET {
        assert ws == Fields(w);
        assert rest == Body(w);
      }
      r := Ok;
    }

    /** Header words of an empty tree in a buffer of `total` bytes. */
    ghost function EmptyHeader(total: uint32): seq<uint32> {
      [SW_MAGIC, total, RSVMAP_OFFSET, total, RSVMAP_OFFSET, LAST_VERSION, FIRST_VERSION, 0, 0, 0]
    }

    lemma {:induction false} ZeroWords(n: nat)
      ensures Words(seq(n, _ => 0)) == Zeros(4 * n)
    {
      assert BE32(0) == Zeros(4);
    }

    method SetWord(ghost ws: seq<uint32>, ghost rest: seq<byte>, i: nat, v: uint32) returns (ghost ws': seq<uint32>)
      requires i < |ws| && buf[..] == Words(ws) + rest
      modifies buf
      ensures ws' == ws[i := v] && buf[..] == Words(ws') + rest
    {
      SetField(i, v);
      FieldSet(ws, rest, i, v);
      ws' := ws[i := v];
    }

    /** `fdt_add_reservemap_entry`. `Wild` stands for a success whose entry reaches into the strings. */
    method AddReservemapEntry(address: uint64, size: uint64) returns (r: Code)
      requires Writing() || Finished()
      modifies this, buf
      ensures !old(Writing()) ==> r == BadMagic && buf[..] == old(buf[..]) && w == old(w)
      ensures old(Writing()) ==> r == Step(old(w), Reserve(address, size)).1
      ensures old(Writing()) && r != Wild ==> Writing() && w == Step(old(w), Reserve(address, size)).0
      ensures old(Writing()) && r == Wild ==> OffStruct(old(w)) + 16 <= buf.Length && w == old(w)
      ensures old(Writing()) && r == Wild ==>
        var off := OffStruct(old(w));
        buf[..] == Patch(Patch(old(buf[..]), off, Entry((address, size))), 4 * OFF_STRUCT, BE32(off + 16))
    {
      var ok := IsWriting();
      if !ok {
        return BadMagic;
      }
      var sizeStruct := Get(SIZE_STRUCT);
      if sizeStruct != 0 {
        return BadState;
      }
      var offset := Get(OFF_STRUCT);
      var total := Get(TOTALSIZE);
      if offset + 16 > total {
        return NoSpace;
      }
      var strings := Get(SIZE_STRINGS);
      NoTokens(w);
      r := PutEntry(offset, (address, size));
      if offset + 16 + strings > total {
        return Wild;
      }
      w := w.(reserved := w.reserved + [(address, size)]);
    }

    /** The stores of a reserve map entry and of the new start of the structure block. */
    method PutEntry(offset: nat, e: (uint64, uint64)) returns (r: Code)
      requires Writing() && w.tokens == [] && offset == OffStruct(w) && offset + 16 <= w.total
      modifies buf
      ensures r == Ok
      ensures buf[..] == Patch(Patch(old(buf[..]), offset, Entry(e)), 4 * OFF_STRUCT, BE32(offset + 16))
      ensures Gap(w) >= 16 ==>
        var w' := w.(reserved := w.reserved + [e]);
        Fits(w') && buf[..] == Layout(w')
    {
      if Gap(w) >= 16 {
        ReserveLayout(w, e);
      }
      StoreThenSet(offset, BE64(e.0) + BE64(e.1), OFF_STRUCT, offset + 16);
      r := Ok;
    }

    /** `_fdt_grab_space`: the position of the new token, or -1 for NULL. */
    method GrabSpace(len: nat) returns (p: int)
      requires Writing() && len < TWO_32
      modifies buf
      ensures len > Gap(w) ==> p == -1 && buf[..] == old(buf[..])
      ensures len <= Gap(w) ==> p == OffStruct(w) + |Structure(w)|
      ensures len <= Gap(w) ==> buf[..] == Patch(old(buf[..]), 4 * SIZE_STRUCT, BE32(|Structure(w)| + len))
    {
      var offset := Get(SIZE_STRUCT);
      var total := Get(TOTALSIZE);
      var offStruct := Get(OFF_STRUCT);
      var strings := Get(SIZE_STRINGS);
      GrabIsSpaceTest(total, offStruct, strings, offset, len);
      if !GrabAllows(total, offStruct, strings, offset, len) {
        return -1;
      }
      SetField(SIZE_STRUCT, offset + len);
      p := offStruct + offset;
    }

    method BeginNode(name: seq<byte>) returns (r: Code)
      requires (Writing() || Finished()) && GoodCall(Begin(name))
      modifies this, buf
      ensures !old(Writing()) ==> r == BadMagic && buf[..] == old(buf[..]) && w == old(w)
      ensures old(Writing()) ==> Writing() && (w, r) == Step(old(w), Begin(name))
    {
      var ok := IsWriting();
      if !ok {
        return BadMagic;
      }
      r := AppendNode(name);
    }

    method AppendNode(name: seq<byte>) returns (r: Code)
      requires Writing() && GoodCall(Begin(name))
      modifies this, buf
      ensures Writing() && (w, r) == Append(old(w), Token.BeginNode(name))
    {
      BeginLength(name);
      var p := GrabSpace(4 + TagAlign(|name| + 1));
      if p == -1 {
        return NoSpace;
      }
      ghost var grabbed := buf[..];
      StoreTwo(p, BE32(TAG_BEGIN_NODE), name + [0]);
      Complete(grabbed, Token.BeginNode(name), BE32(TAG_BEGIN_NODE) + (name + [0]), TagAlign(|name| + 1) - |name| - 1);
      r := Ok;
    }

    method StoreTwo(p: nat, d: seq<byte>, e: seq<byte>)
      requires p + |d| + |e| <= buf.Length
      modifies buf
      ensures buf[..] == Patch(old(buf[..]), p, d + e)
    {
      PatchAdjacent(buf[..], p, d, e);
      Store(buf, p, d);
      Store(buf, p + |d|, e);
    }

    /** The bytes of token `t`, all but its zero padding, were stored in grabbed space. */
    ghost method Complete(grabbed: seq<byte>, t: Token, d: seq<byte>, pad: nat)
      requires Fits(w) && GoodToken(t) && !t.End? && Encode(t) == d + Zeros(pad) && |Encode(t)| <= Gap(w)
      requires OffStruct(w) + |Structure(w)| + |d| <= w.total && |Structure(w)| + |Encode(t)| < INT_LIMIT
      requires grabbed == Patch(Layout(w), 4 * SIZE_STRUCT, BE32(|Structure(w)| + |Encode(t)|))
      requires buf[..] == Patch(grabbed, OffStruct(w) + |Structure(w)|, d)
      modifies this
      ensures w == AddToken(old(w), t) && Writing()
    {
      AppendLayout(w, t, d, pad);
      w := AddToken(w, t);
    }

    lemma {:induction false} BeginLength(name: seq<byte>)
      ensures var e := Encode(Token.BeginNode(name));
        && |e| == 4 + TagAlign(|name| + 1)
        && e == BE32(TAG_BEGIN_NODE) + (name + [0]) + Zeros(TagAlign(|name| + 1) - |name| - 1)
    {
    }

    method EndNode() returns (r: Code)
      requires Writing() || Finished()
      modifies this, buf
      ensures !old(Writing()) ==> r == BadMagic && buf[..] == old(buf[..]) && w == old(w)
      ensures old(Writing()) ==> Writing() && (w, r) == Step(old(w), EndCall)
    {
      var ok := IsWriting();
      if !ok {
        return BadMagic;
      }
      r := AppendWord(Token.EndNode, TAG_END_NODE);
    }

    /** A token that is only its tag. */
    method AppendWord(ghost t: Token, tag: uint32) returns (r: Code)
      requires Writing() && GoodToken(t) && !t.End? && Encode(t) == BE32(tag)
      modifies this, buf
      ensures Writing() && (w, r) == Append(old(w), t)
    {
      var p := GrabSpace(4);
      if p == -1 {
        return NoSpace;
      }
      assert Encode(t) == BE32(tag) + Zeros(0);
      ghost var grabbed := buf[..];
      Store(buf, p, BE32(tag));
      Complete(grabbed, t, BE32(tag), 0);
      r := Ok;
    }

    /** `_fdt_find_string` on the strings block. */
    method FindInStrings(tab: seq<byte>, s: seq<byte>) returns (p: int)
      ensures p == FindString(tab, s, 0)
    {
      var q := 0;
      while q + |s| <= |tab|
        invariant 0 <= q && FindString(tab, s, q) == FindString(tab, s, 0)
        decreases |tab| - q
      {
        if tab[q..q + |s|] == s {
          return q;
        }
        if q == |tab| {
          break;
        }
        q := q + 1;
      }
      p := -1;
    }

    method FindName(s: seq<byte>) returns (p: int)
      requires Writing()
      ensures p == FindString(w.strings, s, 0)
    {
      var total := Get(TOTALSIZE);
      var strtabsize := Get(SIZE_STRINGS);
      StringsAt(w);
      assert buf[total - strtabsize..total] == buf[..][total - strtabsize..];
      p := FindInStrings(buf[total - strtabsize..total], s);
    }

    method AddString(s: seq<byte>) returns (code: Code)
      requires Writing() && 0 < |s| < INT_LIMIT
      modifies this, buf
      ensures code == if |s| <= Gap(old(w)) then Ok else if |old(w).strings| + |s| > old(w).total then Wild else NoSpace
      ensures code == Ok ==> Writing() && w == old(w).(strings := s + old(w).strings)
      ensures code != Ok ==> w == old(w) && buf[..] == old(buf[..])
    {
      var total := Get(TOTALSIZE);
      var strtabsize := Get(SIZE_STRINGS);
      var offStruct := Get(OFF_STRUCT);
      var sizeStruct := Get(SIZE_STRUCT);
      StringRoomTest(total, offStruct + sizeStruct, strtabsize, |s|);
      if !StringRoom(total, offStruct + sizeStruct, strtabsize, |s|) {
        return NoSpace;
      }
      if strtabsize + |s| > total {
        return Wild;
      }
      PutString(total, strtabsize, s);
      code := Ok;
    }

    method PutString(total: uint32, strtabsize: uint32, s: seq<byte>)
      requires Writing() && |s| <= Gap(w) && total == w.total && strtabsize == |w.strings|
      modifies this, buf
      ensures Writing() && w == old(w).(strings := s + old(w).strings)
    {
      ghost var w' := w.(strings := s + w.strings);
      StringLayout(w, s);
      StoreThenSet(total - strtabsize - |s|, s, SIZE_STRINGS, strtabsize + |s|);
      w := w';
    }

    /** Bytes stored first, then the header word that accounts for them. */
    method StoreThenSet(at: nat, d: seq<byte>, i: nat, v: uint32)
      requires at + |d| <= buf.Length && 4 * i + 4 <= buf.Length
      modifies buf
      ensures buf[..] == Patch(Patch(old(buf[..]), at, d), 4 * i, BE32(v))
    {
      Store(buf, at, d);
      SetField(i, v);
    }

    /** `_fdt_find_add_string`: the name's offset from the end of the strings block. */
    method FindAdd(s: seq<byte>) returns (nameoff: int, code: Code)
      requires Writing() && 0 < |s| < INT_LIMIT
      modifies this, buf
      ensures code == FindAddString(old(w), s).2
      ensures code != Wild ==> Writing() && w == FindAddString(old(w), s).0
      ensures code == Ok ==> -INT_LIMIT < nameoff < 0 && nameoff % TWO_32 == FindAddString(old(w), s).1
    {
      var strtabsize := Get(SIZE_STRINGS);
      var p := FindName(s);
      code := Ok;
      if p >= 0 {
        nameoff := p - strtabsize;
      } else {
        code := AddString(s);
        nameoff := -strtabsize - |s|;
      }
    }

    method SetProperty(name: seq<byte>, value: seq<byte>) returns (r: Code)
      requires (Writing() || Finished()) && GoodCall(Property(name, value))
      modifies this, buf
      ensures !old(Writing()) ==> r == BadMagic && buf[..] == old(buf[..]) && w == old(w)
      ensures old(Writing()) ==> r == Step(old(w), Property(name, value)).1
      ensures old(Writing()) && r != Wild ==> Writing() && w == Step(old(w), Property(name, value)).0
    {
      var ok := IsWriting();
      if !ok {
        return BadMagic;
      }
      var nameoff;
      nameoff, r := FindAdd(name + [0]);
      if r == Ok {
        r := AppendProp(nameoff % TWO_32, value);
      }
    }

    method AppendProp(nameoff: uint32, value: seq<byte>) returns (r: Code)
      requires Writing() && |value| < INT_LIMIT
      modifies this, buf
      ensures Writing() && (w, r) == Append(old(w), Prop(nameoff, value))
    {
      PropLength(nameoff, value);
      var p := GrabSpace(12 + TagAlign(|value|));
      if p == -1 {
        return NoSpace;
      }
      FillProp(p, nameoff, value, Prop(nameoff, value));
      r := Ok;
    }

    method FillProp(p: nat, nameoff: uint32, value: seq<byte>, ghost t: Token)
      requires Fits(w) && |value| < INT_LIMIT && GoodToken(t) && !t.End?
      requires Encode(t) == PropFields(nameoff, value) + Zeros(TagAlign(|value|) - |value|)
      requires |Encode(t)| <= Gap(w) && p == OffStruct(w) + |Structure(w)| && |Structure(w)| + |Encode(t)| < INT_LIMIT
      requires buf[..] == Patch(Layout(w), 4 * SIZE_STRUCT, BE32(|Structure(w)| + |Encode(t)|))
      modifies this, buf
      ensures Writing() && w == AddToken(old(w), t)
    {
      ghost var grabbed := buf[..];
      StoreProp(p, nameoff, value);
      Complete(grabbed, t, PropFields(nameoff, value), TagAlign(|value|) - |value|);
    }

    /** All of a property token but its padding. */
    ghost function PropFields(nameoff: uint32, value: seq<byte>): (d: seq<byte>)
      requires |value| < INT_LIMIT
      ensures |d| == 12 + |value|
    {
      BE32(TAG_PROP) + BE32(|value|) + BE32(nameoff) + value
    }

    lemma {:induction false} PropLength(nameoff: uint32, value: seq<byte>)
      requires |value| < INT_LIMIT
      ensures |Encode(Prop(nameoff, value))| == 12 + TagAlign(|value|)
      ensures Encode(Prop(nameoff, value)) == PropFields(nameoff, value) + Zeros(TagAlign(|value|) - |value|)
    {
    }

    /** The fields of a property, in the order the code stores them. */
    method StoreProp(p: nat, nameoff: uint32, value: seq<byte>)
      requires p + 12 + |value| <= buf.Length && |value| < INT_LIMIT
      modifies buf
      ensures buf[..] == Patch(old(buf[..]), p, PropFields(nameoff, value))
    {
      PropPatches(buf[..], p, BE32(TAG_PROP), BE32(|value|), BE32(nameoff), value);
      Store(buf, p, BE32(TAG_PROP));
      Store(buf, p + 8, BE32(nameoff));
      Store(buf, p + 4, BE32(|value|));
      Store(buf, p + 12, value);
    }

    lemma {:induction false} PropPatches(s: seq<byte>, p: nat, t: seq<byte>, l: seq<byte>, n: seq<byte>, v: seq<byte>)
      requires |t| == |l| == |n| == 4 && p + 12 + |v| <= |s|
      ensures Patch(Patch(Patch(Patch(s, p, t), p + 8, n), p + 4, l), p + 12, v) == Patch(s, p, t + l + n + v)
    {
    }

    /** A header word of a buffer known by its parts. */
    method GetWord(ghost ws: seq<uint32>, ghost rest: seq<byte>, i: nat) returns (v: uint32)
      requires |ws| == 10 && i < 10 && buf[..] == Words(ws) + rest
      ensures v == ws[i]
    {
      FieldOfWords(ws, rest, i);
      v := GetField(i);
    }

    /** Move the strings down to the structure block. */
    method Relocate(ghost w1: Writer) returns (ghost ws: seq<uint32>, ghost tail: seq<byte>)
      requires Roomy(w1) && buf[..] == Layout(w1)
      modifies buf
      ensures |tail| == Gap(w1)
      ensures ws == Fields(w1)[OFF_STRINGS := OffStruct(w1) + |Structure(w1)|]
      ensures buf[..] == Staged(ws, Pre(w1), w1.tokens, w1.strings + tail)
    {
      ghost var ws0 := Fields(w1);
      var offStruct := GetWord(ws0, Body(w1), OFF_STRUCT);
      var sizeStruct := GetWord(ws0, Body(w1), SIZE_STRUCT);
      tail := MoveDown(w1, offStruct + sizeStruct);
      ws := SetWord(ws0, Front(w1) + (w1.strings + tail), OFF_STRINGS, offStruct + sizeStruct);
      RelocatedParts(ws, w1, tail);
    }

    method MoveDown(ghost w1: Writer, to: nat) returns (ghost tail: seq<byte>)
      requires Roomy(w1) && buf[..] == Layout(w1) && to == OffStruct(w1) + |Structure(w1)|
      modifies buf
      ensures |tail| == Gap(w1) && buf[..] == Words(Fields(w1)) + (Front(w1) + (w1.strings + tail))
    {
      var total := GetWord(Fields(w1), Body(w1), TOTALSIZE);
      var strings := GetWord(Fields(w1), Body(w1), SIZE_STRINGS);
      StringsAt(w1);
      ShiftDown(to, total - strings, strings, w1.strings);
      tail := MovedDown(w1);
    }

    /** The memmove of the strings `z`, which end the buffer. */
    method ShiftDown(to: nat, from: nat, n: nat, ghost z: seq<byte>)
      requires to <= from && from + n == buf.Length < INT_LIMIT && buf[..][from..] == z
      modifies buf
      ensures to + |z| <= |old(buf[..])| && buf[..] == Patch(old(buf[..]), to, z)
    {
      assert buf[from..from + n] == buf[..][from..];
      var _ := Memmove.Move(buf, to, from, n);
    }

    lemma {:induction false} MovedDown(w1: Writer) returns (tail: seq<byte>)
      requires Roomy(w1)
      ensures |tail| == Gap(w1) && OffStruct(w1) + |Structure(w1)| + |w1.strings| <= |Layout(w1)|
      ensures Patch(Layout(w1), OffStruct(w1) + |Structure(w1)|, w1.strings)
           == Words(Fields(w1)) + (Front(w1) + (w1.strings + tail))
    {
      tail := MoveStrings(Words(Fields(w1)), Front(w1), Gap(w1), w1.strings);
    }

    /** Walk the structure block and correct every property's name offset. */
    method FixNames(ghost ws: seq<uint32>, ghost pre: seq<byte>, ghost ts: seq<Token>, ghost rest: seq<byte>)
      requires Describes(ws, pre, ts, rest) && buf[..] == Staged(ws, pre, ts, rest)
      requires ts != [] && Open(ts[..|ts| - 1]) && ts[|ts| - 1].End?
      modifies buf
      ensures buf[..] == Staged(ws, pre, FixFirst(ts, ws[SIZE_STRINGS], |ts|), rest)
    {
      ghost var n, k := ws[SIZE_STRINGS], 0;
      var offset, done := 0, false;
      assert FixFirst(ts, n, 0) == ts;
      while !done
        invariant 0 <= k <= |ts| && (done <==> k == |ts|) && offset == Offset(ts, k)
        invariant buf[..] == Staged(ws, pre, FixFirst(ts, n, k), rest)
        decreases |ts| - k
      {
        assert k < |ts| - 1 ==> !ts[..|ts| - 1][k].End?;
        offset, done := FixAt(ws, pre, ts, rest, k, offset);
        k := k + 1;
      }
    }

    /** One iteration: the next token's offset, and whether this one ends the tree. */
    method FixAt(ghost ws: seq<uint32>, ghost pre: seq<byte>, ghost ts: seq<Token>, ghost rest: seq<byte>,
                 ghost k: nat, offset: nat) returns (next: nat, done: bool)
      requires Describes(ws, pre, ts, rest) && k < |ts| && offset == Offset(ts, k)
      requires buf[..] == Staged(ws, pre, FixFirst(ts, ws[SIZE_STRINGS], k), rest)
      modifies buf
      ensures next == Offset(ts, k + 1) && (done <==> ts[k].End?)
      ensures buf[..] == Staged(ws, pre, FixFirst(ts, ws[SIZE_STRINGS], k + 1), rest)
    {
      var tag, at, nameoff, strings;
      tag, next, at, nameoff, strings := TokenAt(ws, pre, ts, rest, k, offset);
      done := tag == TAG_END;
      if tag == TAG_PROP {
        PatchName(ws, pre, ts, rest, k, at, nameoff, strings);
      } else {
        FixNone(ts, ws[SIZE_STRINGS], k);
      }
    }

    /** What the walker reads at token `k`, and where a property's name offset is. */
    method TokenAt(ghost ws: seq<uint32>, ghost pre: seq<byte>, ghost ts: seq<Token>, ghost rest: seq<byte>,
                   ghost k: nat, offset: nat)
      returns (tag: uint32, next: int, at: nat, nameoff: uint32, strings: uint32)
      requires Describes(ws, pre, ts, rest) && k < |ts| && offset == Offset(ts, k)
      requires buf[..] == Staged(ws, pre, FixFirst(ts, ws[SIZE_STRINGS], k), rest)
      ensures next == Offset(ts, k + 1) && tag == Tag(ts[k]) && strings == ws[SIZE_STRINGS]
      ensures ts[k].Prop? ==> at == HEADER_SIZE + |pre| + Offset(ts, k) + 8 && nameoff == ts[k].nameoff
    {
      StagedStep(ws, pre, ts, ws[SIZE_STRINGS], k, rest);
      var b := Parse(buf[..]);
      tag, next := FdtNextTag(b, offset);
      at, strings, nameoff := b.offStruct + offset + 8, b.sizeStrings, 0;
      if tag == TAG_PROP {
        nameoff := Word(b, offset + 8);
      }
    }

    method PatchName(ghost ws: seq<uint32>, ghost pre: seq<byte>, ghost ts: seq<Token>, ghost rest: seq<byte>,
                     ghost k: nat, at: nat, nameoff: uint32, strings: uint32)
      requires |ws| == 10 && k < |ts| && ts[k].Prop? && strings == ws[SIZE_STRINGS]
      requires at == HEADER_SIZE + |pre| + Offset(ts, k) + 8 && nameoff == ts[k].nameoff
      requires buf[..] == Staged(ws, pre, FixFirst(ts, strings, k), rest)
      modifies buf
      ensures buf[..] == Staged(ws, pre, FixFirst(ts, strings, k + 1), rest)
    {
      FixOne(ws, pre, ts, strings, k, rest);
      Store(buf, at, BE32((nameoff + strings) % TWO_32));
    }

    method Finish() returns (r: Code)
      requires Writing() || Finished()
      modifies this, buf
      ensures !old(Writing()) ==> r == BadMagic && buf[..] == old(buf[..]) && w == old(w)
      ensures old(Writing()) && Gap(old(w)) < 4 ==> r == NoSpace && Writing() && w == old(w)
      ensures old(Writing()) && Gap(old(w)) >= 4 ==> r == Ok && Finished() && FinalBlob(old(w)) <= buf[..]
    {
      var ok := IsWriting();
      if !ok {
        return BadMagic;
      }
      var p := GrabSpace(4);
      if p == -1 {
        return NoSpace;
      }
      FinishGrabbed(p);
      r := Ok;
    }

    /** The rest of `fdt_finish`, once there is room for the terminator. */
    method FinishGrabbed(p: nat)
      requires Fits(w) && Gap(w) >= 4 && p == OffStruct(w) + |Structure(w)|
      requires buf[..] == Patch(Layout(w), 4 * SIZE_STRUCT, BE32(|Structure(w)| + 4))
      modifies buf
      ensures Finished() && FinalBlob(w) <= buf[..]
    {
      ghost var w1 := AddToken(w, Token.End);
      StoreEnd(p, w1);
      ghost var ws, tail := Relocate(w1);
      RelocatedDescribes(w, w1, ws, tail);
      FixNames(ws, Pre(w), w1.tokens, w.strings + tail);
      FinishHeader(ws, tail);
    }

    method StoreEnd(p: nat, ghost w1: Writer)
      requires Fits(w) && Gap(w) >= 4 && p == OffStruct(w) + |Structure(w)| && w1 == AddToken(w, Token.End)
      requires buf[..] == Patch(Layout(w), 4 * SIZE_STRUCT, BE32(|Structure(w)| + 4))
      modifies buf
      ensures Roomy(w1) && buf[..] == Layout(w1)
    {
      assert Encode(Token.End) == BE32(TAG_END) + Zeros(0);
      AppendLayout(w, Token.End, BE32(TAG_END), 0);
      Store(buf, p, BE32(TAG_END));
    }

    /** The last two header words. */
    method FinishHeader(ghost ws: seq<uint32>, ghost tail: seq<byte>)
      requires Roomy(w) && Gap(w) >= 4 && |ws| == 10
      requires buf[..] == Staged(ws, Pre(w), FinalTokens(w), w.strings + tail)
      requires ws[OFF_STRINGS] + ws[SIZE_STRINGS] < INT_LIMIT
      requires ws[TOTALSIZE := ws[OFF_STRINGS] + ws[SIZE_STRINGS]][MAGIC := FDT_MAGIC] == FinalFields(w)
      modifies buf
      ensures Finished() && FinalBlob(w) <= buf[..]
    {
      ghost var after := Pre(w) + EncodeAll(FinalTokens(w)) + (w.strings + tail);
      assert buf[..] == Words(ws) + after;
      var newstr := GetWord(ws, after, OFF_STRINGS);
      var strings := GetWord(ws, after, SIZE_STRINGS);
      ghost var ws' := SetWord(ws, after, TOTALSIZE, newstr + strings);
      ws' := SetWord(ws', after, MAGIC, FDT_MAGIC);
      FinalParts(w, ws', tail);
      assert buf[..] == Staged(ws', Pre(w), FinalTokens(w), w.strings + tail);
    }
  }
}
