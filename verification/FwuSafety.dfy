/**
 What every run of firmware update SMCs keeps: progress and table bookkeeping,
 disjoint images, and memory that is exactly what was copied and authenticated.
 */
module FwuSafety {
  import opened Bytes
  import opened Options
  import opened Fwu

  /** Per image: the blocks copied since it left RESET, and the bytes last accepted by authentication. */
  datatype History = History(blocks: map<uint32, seq<byte>>, accepted: map<uint32, seq<byte>>)

  /** Number of bytes a successful copy moves. */
  function Taken(d: Image, e: Smc): nat
    requires e.ImageCopy?
  {
    var remaining := if d.phase == Copying then d.size - d.copied else e.imageSize;
    if e.blockSize > remaining then if remaining < 0 then 0 else remaining else e.blockSize
  }

  /** A block that was copied, behind the blocks that came before it. */
  function WithBlock(s: State, h: History, id: uint32, block: seq<byte>): History
    requires id in s.images
  {
    var before := if s.images[id].phase == Copying && id in h.blocks then h.blocks[id] else [];
    h.(blocks := h.blocks[id := before + block])
  }

  /** The bytes a copy of `n` bytes puts behind the copied part of the image. */
  function BlockOf(mem: seq<byte>, d: Image, e: Smc, n: nat): (r: seq<byte>)
    requires e.ImageCopy? && e.src + n <= |mem|
    ensures |r| == n
  {
    Block(mem, d.base + if d.phase == Copying then d.copied else 0, e.src, n)
  }

  function Record(s: State, h: History, e: Smc): History
    requires |s.mem| == ADDRESSES
  {
    if !Step(s, e).Done? || Step(s, e).code != Ok then h
    else if e.ImageCopy? && e.id in s.images && e.src + Taken(s.images[e.id], e) <= ADDRESSES then
      WithBlock(s, h, e.id, BlockOf(s.mem, s.images[e.id], e, Taken(s.images[e.id], e)))
    else if e.ImageAuth? && e.id in s.images then
      var d := s.images[e.id];
      var at, len := if d.phase == Copied then d.base else e.src, if d.phase == Copied then d.size else e.imageSize;
      if at + len <= ADDRESSES then h.(accepted := h.accepted[e.id := s.mem[at..at + len]]) else h
    else h
  }

  predicate Live(d: Image) {
    d.secure && d.phase != Reset
  }

  /** COPYING means partly copied, every later phase wholly copied; non-secure images are never copied. */
  predicate Progress(d: Image) {
    && d.base + d.maxSize <= ADDRESSES
    && (Live(d) ==> 0 < d.copied <= d.size <= d.maxSize && (d.phase == Copying <==> d.copied < d.size))
    && (!d.secure ==> d.copied == 0 && (d.phase == Reset || d.phase == Authenticated || d.phase == Executed))
  }

  predicate MustBeListed(d: Image) {
    d.phase != Reset && (d.secure || d.phase != Executed)
  }

  /** No id occupies two slots. */
  predicate NoDuplicates(t: seq<uint32>) {
    forall i, j :: 0 <= i < j < |t| && t[i] == t[j] ==> t[i] == INVALID_ID
  }

  predicate Disjoint(a: Image, b: Image) {
    Live(a) && Live(b) ==> Separate(a.base, a.size, b.base, b.size)
  }

  /** Memory holds the copied blocks, and past authentication they are the accepted bytes. */
  predicate Faithful(d: Image, id: uint32, mem: seq<byte>, h: History)
    requires |mem| == ADDRESSES && Progress(d)
  {
    Live(d) ==>
      && id in h.blocks && h.blocks[id] == mem[d.base..d.base + d.copied]
      && (d.phase != Copying && d.phase != Copied ==> id in h.accepted && h.accepted[id] == h.blocks[id])
  }

  predicate Local(s: State, h: History, id: uint32)
    requires |s.mem| == ADDRESSES && id in s.images
  {
    var d := s.images[id];
    id != INVALID_ID && Progress(d) && (MustBeListed(d) ==> id in s.table) && Faithful(d, id, s.mem, h)
  }

  ghost predicate Inv(s: State, h: History) {
    && |s.mem| == ADDRESSES
    && NoDuplicates(s.table)
    && (forall b :: b in s.table ==> b == INVALID_ID || b in s.images)
    && (forall id :: id in s.images ==> Local(s, h, id))
    && (forall a, b :: a in s.images && b in s.images && a != b ==> Disjoint(s.images[a], s.images[b]))
  }

  /** The table changes in at most the slot of `id`. */
  ghost predicate TableChange(t: seq<uint32>, t': seq<uint32>, id: uint32) {
    && NoDuplicates(t')
    && (forall b :: b in t && b != id ==> b in t' || b == INVALID_ID)
    && (forall b :: b in t' ==> b == INVALID_ID || b == id || b in t)
  }

  /** One image, its slot and its history change; memory changes only where no other live image is. */
  ghost predicate Changes(s: State, h: History, s': State, h': History, id: uint32, lo: nat, data: seq<byte>)
    requires |s.mem| == ADDRESSES
  {
    && id in s.images && id in s'.images && s'.images == s.images[id := s'.images[id]]
    && TableChange(s.table, s'.table, id)
    && lo + |data| <= ADDRESSES && s'.mem == Patch(s.mem, lo, data)
    && (forall b :: b in s.images && b != id && Live(s.images[b]) ==>
          Separate(lo, |data|, s.images[b].base, s.images[b].size))
    && (forall b :: b != id && b in h.blocks ==> b in h'.blocks && h'.blocks[b] == h.blocks[b])
    && (forall b :: b != id && b in h.accepted ==> b in h'.accepted && h'.accepted[b] == h.accepted[b])
  }

  lemma {:induction false} OtherImage(s: State, h: History, s': State, h': History, id: uint32, lo: nat,
      data: seq<byte>, b: uint32)
    requires Inv(s, h) && Changes(s, h, s', h', id, lo, data) && b in s.images && b != id
    ensures b in s'.images && Local(s', h', b)
  {
    assert Local(s, h, b);
    var d := s.images[b];
    if Live(d) && |data| > 0 {
      PatchOutside(s.mem, lo, data, d.base, d.base + d.copied);
    } else if Live(d) {
      assert s'.mem == s.mem;
    }
  }

  /** It is enough to look at the changed image. */
  lemma {:induction false} ChangeKeepsInv(s: State, h: History, s': State, h': History, id: uint32, lo: nat,
      data: seq<byte>)
    requires Inv(s, h) && Changes(s, h, s', h', id, lo, data)
    requires Local(s', h', id)
    requires forall b :: b in s.images && b != id ==> Disjoint(s'.images[id], s.images[b])
    ensures Inv(s', h')
  {
    forall b | b in s'.images ensures Local(s', h', b) {
      if b != id {
        OtherImage(s, h, s', h', id, lo, data, b);
      }
    }
    forall a, b | a in s'.images && b in s'.images && a != b ensures Disjoint(s'.images[a], s'.images[b]) {
      if a != id && b != id {
        assert Disjoint(s.images[a], s.images[b]);
      }
    }
  }

  lemma {:induction false} AddIdKeeps(t: seq<uint32>, id: uint32)
    requires NoDuplicates(t) && id != INVALID_ID && AddId(t, id).Some?
    ensures var t' := AddId(t, id).value; TableChange(t, t', id) && id in t'
  {
    var t' := AddId(t, id).value;
    if id !in t {
      var k := IndexOf(t, INVALID_ID);
      assert t'[k] == id;
      forall b | b in t && b != INVALID_ID ensures b in t' {
        var j :| 0 <= j < |t| && t[j] == b;
        assert t'[j] == b;
      }
    }
  }

  lemma {:induction false} RemoveIdKeeps(t: seq<uint32>, id: uint32)
    requires NoDuplicates(t) && RemoveId(t, id).Some?
    ensures var t' := RemoveId(t, id).value; TableChange(t, t', id) && (id != INVALID_ID ==> id !in t')
  {
    var t' := RemoveId(t, id).value;
    forall b | b in t && b != id ensures b in t' {
      var j :| 0 <= j < |t| && t[j] == b;
      assert t'[j] == b;
    }
  }

  /** A clear check separates the image from every live image in the table. */
  lemma {:induction false} ClearMeansSeparate(images: map<uint32, Image>, t: seq<uint32>, id: uint32, b: uint32)
    requires id in images && 0 < images[id].size <= images[id].maxSize && Progress(images[id])
    requires b in images && b != id && Live(images[b]) && Progress(images[b]) && b in t && b != INVALID_ID
    requires CheckOverlaps(images, t, id).Clear?
    ensures Separate(images[id].base, images[id].size, images[b].base, images[b].size)
  {
    if t[0] != b {
      ClearMeansSeparate(images, t[1..], id, b);
    }
  }

  lemma {:induction false} NoChange(mem: seq<byte>)
    requires |mem| == ADDRESSES
    ensures Patch(mem, 0, []) == mem
  {
  }

  predicate SameRegion(d: Image, d': Image) {
    d'.secure == d.secure && d'.base == d.base && d'.maxSize == d.maxSize
  }

  /** An image that stays in RESET may change its sizes, and its id may enter or leave the table. */
  lemma {:induction false} ResetEdit(s: State, h: History, id: uint32, d': Image, t: seq<uint32>)
    requires Inv(s, h) && id in s.images
    requires s.images[id].phase == Reset && d'.phase == Reset && SameRegion(s.images[id], d')
    requires !d'.secure ==> d'.copied == 0
    requires TableChange(s.table, t, id)
    ensures Inv(SetImage(s, id, d').(table := t), h)
  {
    NoChange(s.mem);
    assert Local(s, h, id);
    ChangeKeepsInv(s, h, SetImage(s, id, d').(table := t), h, id, 0, []);
  }

  /** The descriptor a copy works on: a fresh one is sized and checked first. */
  ghost predicate ReadyToCopy(s: State, e: Smc, d': Image)
    requires e.ImageCopy? && e.id in s.images
  {
    var d := s.images[e.id];
    && d.secure && GoodRange(e.src, e.blockSize)
    && (d.phase == Copying ==> d' == d)
    && (d.phase != Copying ==>
          && d.phase == Reset && 0 < e.imageSize <= d.maxSize
          && d' == d.(size := e.imageSize, copied := 0)
          && forall b :: b in s.images && b != e.id && Live(s.images[b]) ==>
               Separate(d.base, e.imageSize, s.images[b].base, s.images[b].size))
  }

  lemma {:induction false} BlockAppended(mem: seq<byte>, base: nat, dest: nat, block: seq<byte>)
    requires base <= dest && dest + |block| <= |mem|
    ensures Patch(mem, dest, block)[base..dest + |block|] == mem[base..dest] + block
  {
  }

  function AfterBlock(d: Image, n: nat): Image
    requires d.copied + n <= d.size
  {
    d.(copied := d.copied + n, phase := if n == d.size - d.copied then Copied else Copying)
  }

  lemma {:induction false} CopiedImage(s: State, h: History, e: Smc, d': Image, t: seq<uint32>, block: seq<byte>)
    requires |s.mem| == ADDRESSES && e.ImageCopy? && e.id in s.images && Local(s, h, e.id)
    requires s.images[e.id].phase == Copying ==> d' == s.images[e.id]
    requires s.images[e.id].phase != Copying ==> d'.copied == 0
    requires d'.secure && SameRegion(s.images[e.id], d')
    requires d'.copied < d'.size <= d'.maxSize && e.id in t
    requires 0 < |block| <= d'.size - d'.copied
    ensures d'.base + d'.copied + |block| <= ADDRESSES
    ensures Local(BlockTaken(s, e, d', t, block), WithBlock(s, h, e.id, block), e.id)
  {
    assert Progress(AfterBlock(d', |block|));
    BlocksExtended(s, h, e, d', block);
    BlockFaithful(AfterBlock(d', |block|), e.id, s.mem, block, WithBlock(s, h, e.id, block));
    var s' := BlockTaken(s, e, d', t, block);
    assert s'.images[e.id] == AfterBlock(d', |block|) && s'.table == t;
    assert s'.mem == Patch(s.mem, d'.base + d'.copied, block);
  }

  lemma {:induction false} BlockFaithful(d: Image, id: uint32, mem: seq<byte>, block: seq<byte>, h: History)
    requires |mem| == ADDRESSES && Progress(d) && Live(d) && (d.phase == Copying || d.phase == Copied)
    requires |block| <= d.copied && id in h.blocks
    requires h.blocks[id] == mem[d.base..d.base + d.copied - |block|] + block
    ensures Faithful(d, id, Patch(mem, d.base + d.copied - |block|, block), h)
  {
    BlockAppended(mem, d.base, d.base + d.copied - |block|, block);
  }

  /** The recorded blocks are the copied part of the image and the new block. */
  lemma {:induction false} BlocksExtended(s: State, h: History, e: Smc, d': Image, block: seq<byte>)
    requires |s.mem| == ADDRESSES && e.ImageCopy? && e.id in s.images && Local(s, h, e.id)
    requires s.images[e.id].phase == Copying ==> d' == s.images[e.id]
    requires s.images[e.id].phase != Copying ==> d'.copied == 0
    requires d'.secure && SameRegion(s.images[e.id], d')
    requires d'.copied < d'.size <= d'.maxSize
    ensures d'.base + d'.copied <= ADDRESSES
    ensures WithBlock(s, h, e.id, block).blocks[e.id] == s.mem[d'.base..d'.base + d'.copied] + block
  {
    if d'.copied == 0 {
      assert s.mem[d'.base..d'.base] + block == [] + block == block;
    }
  }

  /** The state after a block was copied. */
  function BlockTaken(s: State, e: Smc, d': Image, t: seq<uint32>, block: seq<byte>): State
    requires |s.mem| == ADDRESSES && e.ImageCopy? && d'.copied + |block| <= d'.size
    requires d'.base + d'.copied + |block| <= ADDRESSES
  {
    SetImage(s, e.id, AfterBlock(d', |block|)).(table := t, mem := Patch(s.mem, d'.base + d'.copied, block))
  }

  lemma {:induction false} CopySeparate(s: State, h: History, e: Smc, d': Image, n: nat)
    requires Inv(s, h) && e.ImageCopy? && e.id in s.images && ReadyToCopy(s, e, d')
    requires 0 < n && d'.copied + n <= d'.size
    ensures forall b :: b in s.images && b != e.id && Live(s.images[b]) ==>
      Separate(d'.base + d'.copied, n, s.images[b].base, s.images[b].size)
  {
    CopyDisjoint(s, h, e, d', n);
    forall b | b in s.images && b != e.id && Live(s.images[b])
      ensures Separate(d'.base + d'.copied, n, s.images[b].base, s.images[b].size)
    {
      assert Local(s, h, b);
      assert Disjoint(AfterBlock(d', n), s.images[b]);
    }
  }

  lemma {:induction false} CopyChanges(s: State, h: History, e: Smc, d': Image, t: seq<uint32>, block: seq<byte>)
    requires Inv(s, h) && e.ImageCopy? && e.id in s.images && ReadyToCopy(s, e, d')
    requires d'.copied < d'.size <= d'.maxSize && AddId(s.table, e.id) == Some(t)
    requires 0 < |block| <= d'.size - d'.copied && d'.base + d'.copied + |block| <= ADDRESSES
    ensures Changes(s, h, BlockTaken(s, e, d', t, block), WithBlock(s, h, e.id, block), e.id,
                    d'.base + d'.copied, block)
  {
    TableGrown(s, h, e.id, t);
    CopySeparate(s, h, e, d', |block|);
    TakenChanges(s, h, e, d', t, block);
  }

  lemma {:induction false} TakenChanges(s: State, h: History, e: Smc, d': Image, t: seq<uint32>, block: seq<byte>)
    requires |s.mem| == ADDRESSES && e.ImageCopy? && e.id in s.images && TableChange(s.table, t, e.id)
    requires d'.copied + |block| <= d'.size && d'.base + d'.copied + |block| <= ADDRESSES
    requires forall b :: b in s.images && b != e.id && Live(s.images[b]) ==>
      Separate(d'.base + d'.copied, |block|, s.images[b].base, s.images[b].size)
    ensures Changes(s, h, BlockTaken(s, e, d', t, block), WithBlock(s, h, e.id, block), e.id,
                    d'.base + d'.copied, block)
  {
    OthersRecorded(s, h, e, block);
    TakenImages(s, e, d', t, block);
  }

  lemma {:induction false} TakenImages(s: State, e: Smc, d': Image, t: seq<uint32>, block: seq<byte>)
    requires |s.mem| == ADDRESSES && e.ImageCopy? && e.id in s.images && d'.copied + |block| <= d'.size
    requires d'.base + d'.copied + |block| <= ADDRESSES
    ensures var s' := BlockTaken(s, e, d', t, block);
      e.id in s'.images && s'.images == s.images[e.id := s'.images[e.id]]
  {
  }

  lemma {:induction false} TableGrown(s: State, h: History, id: uint32, t: seq<uint32>)
    requires Inv(s, h) && id in s.images && AddId(s.table, id) == Some(t)
    ensures TableChange(s.table, t, id) && id in t
  {
    assert Local(s, h, id);
    AddIdKeeps(s.table, id);
  }

  lemma {:induction false} OthersRecorded(s: State, h: History, e: Smc, block: seq<byte>)
    requires e.ImageCopy? && e.id in s.images
    ensures var h' := WithBlock(s, h, e.id, block);
      && (forall b :: b != e.id && b in h.blocks ==> b in h'.blocks && h'.blocks[b] == h.blocks[b])
      && h'.accepted == h.accepted
  {
  }

  lemma {:induction false} CopyDisjoint(s: State, h: History, e: Smc, d': Image, n: nat)
    requires Inv(s, h) && e.ImageCopy? && e.id in s.images && ReadyToCopy(s, e, d') && d'.copied + n <= d'.size
    ensures forall b :: b in s.images && b != e.id ==> Disjoint(AfterBlock(d', n), s.images[b])
  {
    forall b | b in s.images && b != e.id ensures Disjoint(AfterBlock(d', n), s.images[b]) {
      assert Disjoint(s.images[e.id], s.images[b]);
    }
  }

  lemma {:induction false} CopiedLocal(s: State, h: History, e: Smc, d': Image, t: seq<uint32>, block: seq<byte>)
    requires Inv(s, h) && e.ImageCopy? && e.id in s.images && ReadyToCopy(s, e, d')
    requires d'.copied < d'.size <= d'.maxSize && AddId(s.table, e.id) == Some(t)
    requires 0 < |block| <= d'.size - d'.copied && d'.base + d'.copied + |block| <= ADDRESSES
    ensures Local(BlockTaken(s, e, d', t, block), WithBlock(s, h, e.id, block), e.id)
  {
    assert Local(s, h, e.id);
    AddIdKeeps(s.table, e.id);
    CopiedImage(s, h, e, d', t, block);
  }

  /** A copied block extends both the recorded blocks and the memory they sit in. */
  lemma {:induction false} CopiedBlock(s: State, h: History, e: Smc, d': Image, t: seq<uint32>, block: seq<byte>)
    requires Inv(s, h) && e.ImageCopy? && e.id in s.images && ReadyToCopy(s, e, d')
    requires d'.copied < d'.size <= d'.maxSize && AddId(s.table, e.id) == Some(t)
    requires 0 < |block| <= d'.size - d'.copied && d'.base + d'.copied + |block| <= ADDRESSES
    ensures Inv(BlockTaken(s, e, d', t, block), WithBlock(s, h, e.id, block))
  {
    CopyAltered(s, h, e, d', t, block);
    AlteredKeepsInv(s, h, BlockTaken(s, e, d', t, block), WithBlock(s, h, e.id, block), e.id);
  }

  /** Some change of one image after which that image is sound and apart from the others. */
  ghost predicate Altered(s: State, h: History, s': State, h': History, id: uint32)
    requires |s.mem| == ADDRESSES
  {
    exists lo: nat, data: seq<byte> ::
      && Changes(s, h, s', h', id, lo, data)
      && Local(s', h', id)
      && forall b :: b in s.images && b != id ==> Disjoint(s'.images[id], s.images[b])
  }

  lemma {:induction false} AlteredKeepsInv(s: State, h: History, s': State, h': History, id: uint32)
    requires Inv(s, h) && Altered(s, h, s', h', id)
    ensures Inv(s', h')
  {
    var lo: nat, data: seq<byte> :| Changes(s, h, s', h', id, lo, data)
      && Local(s', h', id)
      && forall b :: b in s.images && b != id ==> Disjoint(s'.images[id], s.images[b]);
    ChangeKeepsInv(s, h, s', h', id, lo, data);
  }

  lemma {:induction false} CopyAltered(s: State, h: History, e: Smc, d': Image, t: seq<uint32>, block: seq<byte>)
    requires Inv(s, h) && e.ImageCopy? && e.id in s.images && ReadyToCopy(s, e, d')
    requires d'.copied < d'.size <= d'.maxSize && AddId(s.table, e.id) == Some(t)
    requires 0 < |block| <= d'.size - d'.copied && d'.base + d'.copied + |block| <= ADDRESSES
    ensures Altered(s, h, BlockTaken(s, e, d', t, block), WithBlock(s, h, e.id, block), e.id)
  {
    CopiedLocal(s, h, e, d', t, block);
    CopyChanges(s, h, e, d', t, block);
    TakenDisjoint(s, h, e, d', t, block);
  }

  lemma {:induction false} TakenDisjoint(s: State, h: History, e: Smc, d': Image, t: seq<uint32>, block: seq<byte>)
    requires Inv(s, h) && e.ImageCopy? && e.id in s.images && ReadyToCopy(s, e, d')
    requires 0 < |block| <= d'.size - d'.copied && d'.base + d'.copied + |block| <= ADDRESSES
    ensures forall b :: b in s.images && b != e.id ==>
      Disjoint(BlockTaken(s, e, d', t, block).images[e.id], s.images[b])
  {
    CopyDisjoint(s, h, e, d', |block|);
  }

  lemma {:induction false} OverlapCheckCovers(s: State, h: History, e: Smc)
    requires Inv(s, h) && e.ImageCopy? && e.id in s.images && GoodRange(e.src, e.blockSize)
    requires s.images[e.id].secure && s.images[e.id].phase == Reset && 0 < e.imageSize <= s.images[e.id].maxSize
    requires CheckOverlaps(s.images[e.id := s.images[e.id].(size := e.imageSize)], s.table, e.id).Clear?
    ensures ReadyToCopy(s, e, s.images[e.id].(size := e.imageSize, copied := 0))
  {
    var sized := s.images[e.id := s.images[e.id].(size := e.imageSize)];
    assert Local(s, h, e.id);
    forall b | b in s.images && b != e.id && Live(s.images[b])
      ensures Separate(s.images[e.id].base, e.imageSize, s.images[b].base, s.images[b].size)
    {
      assert Local(s, h, b);
      ClearMeansSeparate(sized, s.table, e.id, b);
    }
  }

  /** The new state of a copy that succeeds, read off the code. */
  lemma {:induction false} CopyBlockState(s: State, e: Smc, d': Image)
    requires |s.mem| == ADDRESSES && e.ImageCopy? && e.id in s.images && GoodRange(e.src, e.blockSize)
    requires d'.copied < d'.size
    requires var o := CopyBlock(SetImage(s, e.id, d'), e); o.Done? && o.code == Ok
    ensures var n := BlockBytes(d', e);
      && n > 0 && e.src + n <= ADDRESSES && d'.base + d'.copied + n <= ADDRESSES && AddId(s.table, e.id).Some?
      && CopyBlock(SetImage(s, e.id, d'), e).state
         == BlockTaken(s, e, d', AddId(s.table, e.id).value, Block(s.mem, d'.base + d'.copied, e.src, n))
  {
    var n := BlockBytes(d', e);
    assert s.images[e.id := d'][e.id := AfterBlock(d', n)] == s.images[e.id := AfterBlock(d', n)];
  }

  lemma {:induction false} TakenKeepsInv(s: State, h: History, e: Smc, d': Image, s': State)
    requires Inv(s, h) && e.ImageCopy? && e.id in s.images && ReadyToCopy(s, e, d') && AddId(s.table, e.id).Some?
    requires d'.copied < d'.size <= d'.maxSize
    requires var n := BlockBytes(d', e);
      && n > 0 && e.src + n <= ADDRESSES && d'.base + d'.copied + n <= ADDRESSES
      && s' == BlockTaken(s, e, d', AddId(s.table, e.id).value, Block(s.mem, d'.base + d'.copied, e.src, n))
    ensures Inv(s', WithBlock(s, h, e.id, Block(s.mem, d'.base + d'.copied, e.src, BlockBytes(d', e))))
  {
    CopiedBlock(s, h, e, d', AddId(s.table, e.id).value, Block(s.mem, d'.base + d'.copied, e.src, BlockBytes(d', e)));
  }

  lemma {:induction false} CopyBlockKeepsInv(s: State, h: History, e: Smc, d': Image)
    requires Inv(s, h) && e.ImageCopy? && e.id in s.images && ReadyToCopy(s, e, d')
    requires d'.copied < d'.size <= d'.maxSize
    requires CopyBlock(SetImage(s, e.id, d'), e).Done?
    ensures var o := CopyBlock(SetImage(s, e.id, d'), e);
      if o.code == Ok then
        var n := BlockBytes(d', e);
        && e.src + n <= ADDRESSES
        && Inv(o.state, WithBlock(s, h, e.id, Block(s.mem, d'.base + d'.copied, e.src, n)))
      else Inv(o.state, h)
  {
    if CopyBlock(SetImage(s, e.id, d'), e).code == Ok {
      CopyBlockState(s, e, d');
      TakenKeepsInv(s, h, e, d', CopyBlock(SetImage(s, e.id, d'), e).state);
    } else {
      NotCopied(s, h, e, d');
    }
  }

  lemma {:induction false} CopyKeepsInv(s: State, h: History, e: Smc)
    requires Inv(s, h) && e.ImageCopy? && Step(s, e).Done?
    ensures Inv(Step(s, e).state, Record(s, h, e))
  {
    if e.id in s.images && Step(s, e).state != s {
      assert Progress(s.images[e.id]) by {
        assert Local(s, h, e.id);
      }
      if s.images[e.id].phase == Copying {
        CopyGoesOn(s, h, e);
      } else {
        CopyStarts(s, h, e);
      }
    }
  }

  lemma {:induction false} BlockSame(mem: seq<byte>, d: Image, d': Image, e: Smc)
    requires |mem| == ADDRESSES && e.ImageCopy? && GoodRange(e.src, e.blockSize)
    requires d'.copied < d'.size && d'.base == d.base
    requires if d.phase == Copying then d' == d else d'.copied == 0 && d'.size == e.imageSize
    ensures Taken(d, e) == BlockBytes(d', e) && e.src + Taken(d, e) <= ADDRESSES
    ensures BlockOf(mem, d, e, Taken(d, e)) == Block(mem, d'.base + d'.copied, e.src, BlockBytes(d', e))
  {
  }

  /** What is recorded for a copy that gets as far as its block. */
  lemma {:induction false} RecordCopy(s: State, h: History, e: Smc, d': Image)
    requires |s.mem| == ADDRESSES && e.ImageCopy? && e.id in s.images && GoodRange(e.src, e.blockSize)
    requires d'.copied < d'.size && d'.base == s.images[e.id].base && Step(s, e).Done?
    requires if s.images[e.id].phase == Copying then d' == s.images[e.id] else d'.copied == 0 && d'.size == e.imageSize
    ensures e.src + BlockBytes(d', e) <= ADDRESSES
    ensures Step(s, e).code == Ok ==>
      Record(s, h, e) == WithBlock(s, h, e.id, Block(s.mem, d'.base + d'.copied, e.src, BlockBytes(d', e)))
    ensures Step(s, e).code != Ok ==> Record(s, h, e) == h
  {
    BlockSame(s.mem, s.images[e.id], d', e);
  }

  lemma {:induction false} CopyGoesOn(s: State, h: History, e: Smc)
    requires Inv(s, h) && e.ImageCopy? && Step(s, e).Done? && e.id in s.images && Step(s, e).state != s
    requires Progress(s.images[e.id]) && s.images[e.id].phase == Copying
    ensures Inv(Step(s, e).state, Record(s, h, e))
  {
    var d := s.images[e.id];
    assert SetImage(s, e.id, d) == s by {
      assert s.images[e.id := d] == s.images;
    }
    CopyTakesBlock(s, h, e, d);
  }

  lemma {:induction false} CopyTakesBlock(s: State, h: History, e: Smc, d': Image)
    requires Inv(s, h) && e.ImageCopy? && e.id in s.images && ReadyToCopy(s, e, d')
    requires d'.copied < d'.size <= d'.maxSize
    requires Step(s, e) == CopyBlock(SetImage(s, e.id, d'), e) && Step(s, e).Done?
    ensures Inv(Step(s, e).state, Record(s, h, e))
  {
    RecordCopy(s, h, e, d');
    CopyBlockKeepsInv(s, h, e, d');
  }

  lemma {:induction false} CopyStarts(s: State, h: History, e: Smc)
    requires Inv(s, h) && e.ImageCopy? && Step(s, e).Done? && e.id in s.images && Step(s, e).state != s
    requires Progress(s.images[e.id]) && s.images[e.id].phase != Copying
    ensures Inv(Step(s, e).state, Record(s, h, e))
  {
    var d := s.images[e.id];
    if CheckOverlaps(s.images[e.id := d.(size := e.imageSize)], s.table, e.id).Clear? {
      CopyClear(s, h, e);
    } else {
      ResetEdit(s, h, e.id, d.(size := 0), s.table);
    }
  }

  lemma {:induction false} CopyClear(s: State, h: History, e: Smc)
    requires Inv(s, h) && e.ImageCopy? && Step(s, e).Done? && e.id in s.images && Step(s, e).state != s
    requires Progress(s.images[e.id]) && s.images[e.id].phase != Copying && e.imageSize > 0
    requires CheckOverlaps(s.images[e.id := s.images[e.id].(size := e.imageSize)], s.table, e.id).Clear?
    ensures Inv(Step(s, e).state, Record(s, h, e))
  {
    OverlapCheckCovers(s, h, e);
    CopyTakesBlock(s, h, e, s.images[e.id].(size := e.imageSize, copied := 0));
  }

  /** A refused copy leaves the image where it was, though a fresh one may keep its slot. */
  lemma {:induction false} NotCopied(s: State, h: History, e: Smc, d': Image)
    requires Inv(s, h) && e.ImageCopy? && e.id in s.images && ReadyToCopy(s, e, d')
    requires d'.copied < d'.size <= d'.maxSize
    requires var o := CopyBlock(SetImage(s, e.id, d'), e); o.Done? && o.code != Ok
    ensures Inv(CopyBlock(SetImage(s, e.id, d'), e).state, h)
  {
    var o := CopyBlock(SetImage(s, e.id, d'), e);
    assert Local(s, h, e.id);
    if s.images[e.id].phase == Reset {
      if o.state.table != s.table {
        AddIdKeeps(s.table, e.id);
      }
      ResetEdit(s, h, e.id, d', o.state.table);
    } else {
      assert o.state == s by {
        assert s.images[e.id := d'] == s.images;
      }
    }
  }

  /** An image leaves every live phase for RESET; its range may be cleared on the way. */
  lemma {:induction false} BackToReset(s: State, h: History, id: uint32, d': Image, t: seq<uint32>, len: nat)
    requires Inv(s, h) && id in s.images
    requires d'.phase == Reset && SameRegion(s.images[id], d') && (!d'.secure ==> d'.copied == 0)
    requires len <= s.images[id].size && (len > 0 ==> Live(s.images[id]))
    requires TableChange(s.table, t, id)
    ensures s.images[id].base + len <= ADDRESSES
    ensures Inv(SetImage(s, id, d').(table := t, mem := Patch(s.mem, s.images[id].base, Zeros(len))), h)
  {
    var d := s.images[id];
    assert Local(s, h, id);
    var s' := SetImage(s, id, d').(table := t, mem := Patch(s.mem, d.base, Zeros(len)));
    if len == 0 {
      NoChange(s.mem);
      assert Patch(s.mem, d.base, Zeros(0)) == s.mem;
      ChangeKeepsInv(s, h, s', h, id, 0, []);
    } else {
      forall b | b in s.images && b != id && Live(s.images[b])
        ensures Separate(d.base, len, s.images[b].base, s.images[b].size)
      {
        assert Disjoint(d, s.images[b]);
      }
      ChangeKeepsInv(s, h, s', h, id, d.base, Zeros(len));
    }
  }

  /** An image moves on to a phase beyond COPIED. */
  lemma {:induction false} MoveOn(s: State, h: History, h': History, id: uint32, phase: Phase)
    requires Inv(s, h) && id in s.images && Live(s.images[id])
    requires s.images[id].phase != Copying && phase != Copying && phase != Copied && phase != Reset
    requires id in h.blocks && h' == h.(accepted := h.accepted[id := h.blocks[id]])
    ensures Inv(SetImage(s, id, s.images[id].(phase := phase)), h')
  {
    NoChange(s.mem);
    assert Local(s, h, id);
    forall b | b in s.images && b != id ensures Disjoint(s.images[id].(phase := phase), s.images[b]) {
      assert Disjoint(s.images[id], s.images[b]);
    }
    ChangeKeepsInv(s, h, SetImage(s, id, s.images[id].(phase := phase)), h', id, 0, []);
  }

  lemma {:induction false} AcceptedAlready(s: State, h: History, id: uint32)
    requires Inv(s, h) && id in s.images && Live(s.images[id])
    requires s.images[id].phase != Copying && s.images[id].phase != Copied
    ensures id in h.blocks && h == h.(accepted := h.accepted[id := h.blocks[id]])
  {
    assert Local(s, h, id);
  }

  /** Fields no invariant mentions. */
  lemma {:induction false} Immaterial(s: State, h: History, secExec: uint32, flags: set<uint32>)
    requires Inv(s, h)
    ensures Inv(s.(secExec := secExec, authFlags := flags), h)
  {
    var s' := s.(secExec := secExec, authFlags := flags);
    forall id | id in s'.images ensures Local(s', h, id) {
      assert Local(s, h, id);
    }
  }

  /** The secure world authenticates no secure image; other software writes around the live images. */
  ghost predicate Allowed(s: State, e: Smc) {
    && (e.ImageAuth? && e.fromSecure ==> e.id !in s.images || !s.images[e.id].secure)
    && (e.WorldWrite? ==> forall b :: b in s.images && Live(s.images[b]) ==>
          Separate(e.addr, |e.data|, s.images[b].base, s.images[b].size))
  }

  /** A non-secure image authenticated where it lies. */
  lemma {:induction false} AuthInPlace(s: State, h: History, h': History, e: Smc, t: seq<uint32>, phase: Phase)
    requires Inv(s, h) && e.ImageAuth? && e.id in s.images && !s.images[e.id].secure && s.images[e.id].phase == Reset
    requires phase == Reset || (phase == Authenticated && e.id in t)
    requires TableChange(s.table, t, e.id)
    requires h'.blocks == h.blocks
    requires forall b :: b != e.id && b in h.accepted ==> b in h'.accepted && h'.accepted[b] == h.accepted[b]
    ensures Inv(SetImage(s, e.id, s.images[e.id].(size := e.imageSize, phase := phase)).(table := t), h')
  {
    NoChange(s.mem);
    assert Local(s, h, e.id);
    ChangeKeepsInv(s, h, SetImage(s, e.id, s.images[e.id].(size := e.imageSize, phase := phase)).(table := t), h',
                   e.id, 0, []);
  }

  lemma {:induction false} AuthCopiedKeepsInv(s: State, h: History, e: Smc)
    requires Inv(s, h) && e.ImageAuth? && Step(s, e).Done? && Step(s, e).state != s
    requires e.id in s.images && s.images[e.id].phase == Copied
    ensures Inv(Step(s, e).state, Record(s, h, e))
  {
    var d := s.images[e.id];
    assert Local(s, h, e.id);
    if e.accepted {
      MoveOn(s, h, Record(s, h, e), e.id, Authenticated);
      Immaterial(SetImage(s, e.id, d.(phase := Authenticated)), Record(s, h, e), s.secExec, s.authFlags + {e.id});
    } else {
      RemoveIdKeeps(s.table, e.id);
      BackToReset(s, h, e.id, d.(phase := Reset), RemoveId(s.table, e.id).value, d.size);
    }
  }

  lemma {:induction false} AuthInPlaceKeepsInv(s: State, h: History, e: Smc)
    requires Inv(s, h) && e.ImageAuth? && Step(s, e).Done? && Step(s, e).state != s
    requires e.id in s.images && !s.images[e.id].secure
    ensures Inv(Step(s, e).state, Record(s, h, e))
  {
    var d := s.images[e.id];
    assert Local(s, h, e.id);
    AddIdKeeps(s.table, e.id);
    var t := AddId(s.table, e.id).value;
    if e.accepted {
      AuthInPlace(s, h, Record(s, h, e), e, t, Authenticated);
      var s1 := SetImage(s, e.id, d.(size := e.imageSize, phase := Authenticated)).(table := t);
      Immaterial(s1, Record(s, h, e), s.secExec, s.authFlags + {e.id});
      assert Step(s, e).state == s1.(authFlags := s.authFlags + {e.id}) by {
        assert Step(s, e).state.images == s1.images;
      }
    } else {
      RemoveIdKeeps(t, e.id);
      AuthInPlace(s, h, h, e, RemoveId(t, e.id).value, Reset);
    }
  }

  lemma {:induction false} ExecuteKeepsInv(s: State, h: History, e: Smc)
    requires Inv(s, h) && e.ImageExecute? && Step(s, e).Done? && Step(s, e).state != s
    ensures Inv(Step(s, e).state, h)
  {
    AcceptedAlready(s, h, e.id);
    MoveOn(s, h, h, e.id, Executed);
    Immaterial(SetImage(s, e.id, s.images[e.id].(phase := Executed)), h, e.id, s.authFlags);
  }

  lemma {:induction false} ResumeKeepsInv(s: State, h: History, e: Smc)
    requires Inv(s, h) && e.ImageResume? && Step(s, e).Done? && Step(s, e).state != s
    ensures Inv(Step(s, e).state, h)
  {
    AcceptedAlready(s, h, s.secExec);
    MoveOn(s, h, h, s.secExec, if e.fromSecure then Interrupted else Executed);
  }

  lemma {:induction false} ImageDoneKeepsInv(s: State, h: History, e: Smc)
    requires Inv(s, h) && e.SecImageDone? && Step(s, e).Done? && Step(s, e).state != s
    ensures Inv(Step(s, e).state, h)
  {
    var id, d := s.secExec, s.images[s.secExec];
    RemoveIdKeeps(s.table, id);
    assert Local(s, h, id);
    var t := RemoveId(s.table, id).value;
    ResetWithoutClearing(s, h, id, d.(phase := Reset), t);
    Immaterial(SetImage(s, id, d.(phase := Reset)).(table := t), h, INVALID_ID, s.authFlags);
  }

  lemma {:induction false} ResetWithoutClearing(s: State, h: History, id: uint32, d': Image, t: seq<uint32>)
    requires Inv(s, h) && id in s.images
    requires d'.phase == Reset && SameRegion(s.images[id], d') && (!d'.secure ==> d'.copied == 0)
    requires TableChange(s.table, t, id)
    ensures Inv(SetImage(s, id, d').(table := t), h)
  {
    BackToReset(s, h, id, d', t, 0);
    assert Patch(s.mem, s.images[id].base, Zeros(0)) == s.mem;
  }

  lemma {:induction false} ResetKeepsInv(s: State, h: History, e: Smc)
    requires Inv(s, h) && e.ImageReset? && Step(s, e).Done? && Step(s, e).state != s
    ensures Inv(Step(s, e).state, h)
  {
    var d := s.images[e.id];
    RemoveIdKeeps(s.table, e.id);
    assert Local(s, h, e.id);
    var t, d' := RemoveId(s.table, e.id).value, d.(copied := 0, size := 0, phase := Reset);
    if d.copied > 0 {
      BackToReset(s, h, e.id, d', t, d.copied);
      Immaterial(SetImage(s, e.id, d').(table := t, mem := Patch(s.mem, d.base, Zeros(d.copied))), h,
                 s.secExec, s.authFlags - {e.id});
    } else {
      ResetWithoutClearing(s, h, e.id, d', t);
      Immaterial(SetImage(s, e.id, d').(table := t), h, s.secExec, s.authFlags - {e.id});
    }
  }

  lemma {:induction false} WorldWriteKeepsInv(s: State, h: History, e: Smc)
    requires Inv(s, h) && e.WorldWrite? && Allowed(s, e) && Step(s, e).Done?
    ensures Inv(Step(s, e).state, h)
  {
    var s' := Step(s, e).state;
    forall id | id in s'.images ensures Local(s', h, id) {
      assert Local(s, h, id);
      var d := s.images[id];
      if Live(d) && |e.data| > 0 {
        PatchOutside(s.mem, e.addr, e.data, d.base, d.base + d.copied);
      } else if Live(d) {
        assert s'.mem == s.mem;
      }
    }
  }

  lemma {:induction false} StepKeepsInv(s: State, h: History, e: Smc)
    requires Inv(s, h) && Allowed(s, e) && Step(s, e).Done?
    ensures Inv(Step(s, e).state, Record(s, h, e))
  {
    match e
    case ImageCopy(_, _, _, _, _, _, _) => CopyKeepsInv(s, h, e);
    case ImageAuth(_, _, _, _, _, _, _) =>
      if Step(s, e).state != s {
        if s.images[e.id].phase == Copied {
          AuthCopiedKeepsInv(s, h, e);
        } else {
          AuthInPlaceKeepsInv(s, h, e);
        }
      }
    case WorldWrite(_, _) => WorldWriteKeepsInv(s, h, e);
    case _ =>
      if Step(s, e).state != s {
        match e
        case ImageExecute(_, _) => ExecuteKeepsInv(s, h, e);
        case ImageResume(_, _) => ResumeKeepsInv(s, h, e);
        case SecImageDone(_) => ImageDoneKeepsInv(s, h, e);
        case ImageReset(_, _) => ResetKeepsInv(s, h, e);
      }
  }

  /** State of BL1 when an update starts: nothing is loaded, and at most a non-secure boot image runs. */
  ghost predicate Boot(s: State) {
    && |s.mem| == ADDRESSES
    && (forall i :: 0 <= i < |s.table| ==> s.table[i] == INVALID_ID)
    && forall id :: id in s.images ==>
         var d := s.images[id];
         && id != INVALID_ID && d.base + d.maxSize <= ADDRESSES
         && (d.secure ==> d.phase == Reset)
         && (!d.secure ==> d.copied == 0 && (d.phase == Reset || d.phase == Executed))
  }

  /** A run of SMCs and what is known after it; `None` once a step halts. */
  function Run(s: State, es: seq<Smc>): (r: Option<(State, History)>)
    requires |s.mem| == ADDRESSES
    ensures r.Some? ==> |r.value.0.mem| == ADDRESSES
  {
    if es == [] then Some((s, History(map[], map[])))
    else
      match Run(s, es[..|es| - 1])
      case None => None
      case Some((s', h)) =>
        var e := es[|es| - 1];
        match Step(s', e)
        case Halt => None
        case Done(_, t) => Some((t, Record(s', h, e)))
  }

  /** Every event was allowed in the state it met. */
  ghost predicate AllowedRun(s: State, es: seq<Smc>)
    requires |s.mem| == ADDRESSES
  {
    es == [] ||
    var before := Run(s, es[..|es| - 1]);
    before.Some? && AllowedRun(s, es[..|es| - 1]) && Allowed(before.value.0, es[|es| - 1])
  }

  lemma {:induction false} RunKeepsInv(s: State, es: seq<Smc>)
    requires Boot(s) && AllowedRun(s, es) && Run(s, es).Some?
    ensures Inv(Run(s, es).value.0, Run(s, es).value.1)
  {
    if es != [] {
      RunKeepsInv(s, es[..|es| - 1]);
      var (s', h) := Run(s, es[..|es| - 1]).value;
      StepKeepsInv(s', h, es[|es| - 1]);
    }
  }

  /**
   In every run, a secure image that IMAGE_EXECUTE starts has in memory exactly
   its copied blocks, and those bytes are the ones last accepted for it.
   */
  lemma {:induction false} ExecutedImageIsAuthentic(s: State, es: seq<Smc>, id: uint32)
    requires Boot(s) && AllowedRun(s, es) && Run(s, es).Some?
    requires var o := Step(Run(s, es).value.0, ImageExecute(id, false)); o.Done? && o.code == Ok
    ensures var h := Run(s, es).value.1;
      var s' := Step(Run(s, es).value.0, ImageExecute(id, false)).state;
      && id in s'.images && id in h.blocks && id in h.accepted
      && var d := s'.images[id];
      && d.secure && d.executable && d.phase == Executed && s'.secExec == id && d.base + d.size <= ADDRESSES
      && s'.mem[d.base..d.base + d.size] == h.blocks[id] == h.accepted[id]
  {
    RunKeepsInv(s, es);
    var (t, h) := Run(s, es).value;
    assert Local(t, h, id);
  }

  /** In every run, two images loaded by copying and not in RESET never share an address. */
  lemma {:induction false} LoadedImagesDisjoint(s: State, es: seq<Smc>, a: uint32, b: uint32, addr: nat)
    requires Boot(s) && AllowedRun(s, es) && Run(s, es).Some?
    requires var images := Run(s, es).value.0.images;
      && a in images && b in images && a != b && Live(images[a]) && Live(images[b])
      && images[a].base <= addr < images[a].base + images[a].size
    ensures var d := Run(s, es).value.0.images[b]; !(d.base <= addr < d.base + d.size)
  {
    RunKeepsInv(s, es);
    var (t, h) := Run(s, es).value;
    assert Disjoint(t.images[a], t.images[b]);
  }

  ghost predicate ListedOnce(t: seq<uint32>, id: uint32) {
    exists i :: 0 <= i < |t| && t[i] == id && forall j :: 0 <= j < |t| && j != i ==> t[j] != id
  }

  /** In every run, the table and the progress counters agree with the phases. */
  lemma {:induction false} TableAndProgress(s: State, es: seq<Smc>, id: uint32)
    requires Boot(s) && AllowedRun(s, es) && Run(s, es).Some?
    requires id in Run(s, es).value.0.images
    ensures var t := Run(s, es).value.0; var d := t.images[id];
      && ((d.phase != Reset && d.phase != Executed) || (d.secure && d.phase == Executed) ==> ListedOnce(t.table, id))
      && (d.phase == Copying ==> 0 < d.copied < d.size <= d.maxSize)
      && (d.secure && d.phase != Reset && d.phase != Copying ==> 0 < d.copied == d.size <= d.maxSize)
  {
    RunKeepsInv(s, es);
    var (t, h) := Run(s, es).value;
    assert Local(t, h, id);
    if MustBeListed(t.images[id]) {
      var i :| 0 <= i < |t.table| && t.table[i] == id;
      forall j | 0 <= j < |t.table| && j != i ensures t.table[j] != id {
        assert j < i ==> t.table[j] != t.table[i];
      }
    }
  }

  /**
   In every run the lookups of IMAGE_RESET and SEC_IMAGE_DONE succeed: a reset
   that does not halt reports success, and only a missing executing image makes
   a secure SEC_IMAGE_DONE halt.
   */
  lemma {:induction false} LookupsSucceed(s: State, es: seq<Smc>, id: uint32)
    requires Boot(s) && AllowedRun(s, es) && Run(s, es).Some?
    ensures var t := Run(s, es).value.0;
      && (Step(t, SecImageDone(true)).Done? <==> Running(t))
      && (id in t.images ==>
            var o := Step(t, ImageReset(id, false));
            if t.images[id].phase == Executed then o.Halt? else o.Done? && o.code == Ok)
  {
    RunKeepsInv(s, es);
    var (t, h) := Run(s, es).value;
    DoneLookup(t, h);
    if id in t.images {
      ResetLookup(t, h, id);
    }
  }

  lemma {:induction false} DoneLookup(t: State, h: History)
    requires Inv(t, h)
    ensures Step(t, SecImageDone(true)).Done? <==> Running(t)
  {
    if Running(t) {
      assert Local(t, h, t.secExec);
    }
  }

  lemma {:induction false} ResetLookup(t: State, h: History, id: uint32)
    requires Inv(t, h) && id in t.images
    ensures var o := Step(t, ImageReset(id, false));
      if t.images[id].phase == Executed then o.Halt? else o.Done? && o.code == Ok
  {
    assert Local(t, h, id);
  }
}
