/**
 The SMC handlers of BL1 as they run: descriptors, flags and memory updated in
 place, the id table a fixed array searched by loops. Each handler is proved to
 take the step that module `Fwu` describes.
 */
module FwuMachine {
  import opened Bytes
  import opened Options
  import opened Fwu
  import opened FwuSafety
  import Memmove

  /** `None` stands for a halted run; then nothing is said about the state. */
  ghost predicate Takes(s: State, e: Smc, r: Option<Code>, s': State)
    requires |s.mem| == ADDRESSES
  {
    match Step(s, e)
    case Halt => r.None?
    case Done(code, t) => r == Some(code) && s' == t
  }

  class Bl1 {
    var images: map<uint32, Image>
    const loadedIds: array<uint32>
    var secExecImageId: uint32
    var authFlags: set<uint32>
    var mem: seq<byte>

    ghost function View(): State
      reads this, loadedIds
    {
      State(images, loadedIds[..], secExecImageId, authFlags, mem)
    }

    ghost predicate Valid()
      reads this
    {
      |mem| == ADDRESSES
    }

    constructor (images: map<uint32, Image>, slots: nat, mem: seq<byte>)
      requires |mem| == ADDRESSES
      ensures Valid() && View() == State(images, seq(slots, _ => INVALID_ID), INVALID_ID, {}, mem)
    {
      this.images, secExecImageId, authFlags, this.mem := images, INVALID_ID, {}, mem;
      loadedIds := new uint32[slots](_ => INVALID_ID);
      new;
      assert loadedIds[..] == seq(slots, _ => INVALID_ID);
    }

    /** Slot of an id: the first that holds it, or the table's length. */
    method FindSlot(id: uint32) returns (i: nat)
      ensures i == IndexOf(loadedIds[..], id)
    {
      i := 0;
      while i < loadedIds.Length && loadedIds[i] != id
        invariant i <= loadedIds.Length
        invariant forall j :: 0 <= j < i ==> loadedIds[j] != id
      {
        i := i + 1;
      }
      FirstIndex(loadedIds[..], id, i);
    }

    lemma {:induction false} FirstIndex(t: seq<uint32>, id: uint32, i: nat)
      requires i <= |t| && (i < |t| ==> t[i] == id) && forall j :: 0 <= j < i ==> t[j] != id
      ensures i == IndexOf(t, id)
    {
    }

    method AddLoadedId(id: uint32) returns (full: bool)
      modifies loadedIds
      ensures full <==> AddId(old(loadedIds[..]), id).None?
      ensures loadedIds[..] == if full then old(loadedIds[..]) else AddId(old(loadedIds[..]), id).value
    {
      var i := FindSlot(id);
      if i < loadedIds.Length {
        return false;
      }
      i := FindSlot(INVALID_ID);
      if i < loadedIds.Length {
        loadedIds[i] := id;
        return false;
      }
      return true;
    }

    method RemoveLoadedId(id: uint32) returns (missing: bool)
      modifies loadedIds
      ensures missing <==> RemoveId(old(loadedIds[..]), id).None?
      ensures loadedIds[..] == if missing then old(loadedIds[..]) else RemoveId(old(loadedIds[..]), id).value
    {
      var i := FindSlot(id);
      if i < loadedIds.Length {
        loadedIds[i] := INVALID_ID;
        return false;
      }
      return true;
    }

    method ImageCheckOverlaps(id: uint32) returns (v: Overlap)
      requires id in images && images[id].size > 0
      ensures v == CheckOverlaps(images, loadedIds[..], id)
    {
      var checked := images[id];
      var checkedEnd := (checked.base + checked.size - 1) % ADDRESSES;
      var i := 0;
      assert loadedIds[0..] == loadedIds[..];
      while i < loadedIds.Length
        invariant 0 <= i <= loadedIds.Length
        invariant CheckOverlaps(images, loadedIds[..], id) == CheckOverlaps(images, loadedIds[i..], id)
      {
        assert loadedIds[i..][1..] == loadedIds[i + 1..];
        var slot := loadedIds[i];
        if slot != INVALID_ID && slot != id {
          if slot !in images || images[slot].phase == Reset {
            return AssertFails;
          }
          var info := images[slot];
          if info.size != 0 {
            var imageEnd := (info.base + info.size - 1) % ADDRESSES;
            if !(imageEnd > info.base) {
              return AssertFails;
            }
            if !(imageEnd < checked.base || checkedEnd < info.base) {
              return Overlaps;
            }
          }
        }
        i := i + 1;
      }
      v := Clear;
    }

    method ImageCopy(e: Smc) returns (r: Option<Code>)
      requires Valid() && e.ImageCopy?
      modifies this, loadedIds
      ensures Valid() && Takes(old(View()), e, r, View())
    {
      if e.id !in images || e.fromSecure || !images[e.id].secure {
        return Some(EPerm);
      }
      var d := images[e.id];
      if d.phase != Reset && d.phase != Copying {
        return Some(EPerm);
      }
      if !GoodRange(e.src, e.blockSize) {
        return Some(ENoMem);
      }
      if d.phase == Copying {
        if d.copied == 0 || d.size == 0 || d.copied >= d.size {
          return None;
        }
      } else {
        if e.imageSize == 0 || e.imageSize > d.maxSize {
          return Some(ENoMem);
        }
        var v := SizeImage(e.id, e.imageSize);
        if v.AssertFails? {
          return None;
        }
        if v.Overlaps? {
          return Some(EPerm);
        }
      }
      assert Step(old(View()), e) == CopyBlock(View(), e);
      r := ImageCopyBlock(e);
    }

    /** A fresh image gets its size, unless it then overlaps another. */
    method SizeImage(id: uint32, size: uint32) returns (v: Overlap)
      requires Valid() && id in images && 0 < size
      modifies this`images
      ensures Valid() && v == CheckOverlaps(old(images)[id := old(images)[id].(size := size)], loadedIds[..], id)
      ensures !v.AssertFails? ==> images == old(images)[id :=
        if v.Overlaps? then old(images)[id].(size := 0) else old(images)[id].(size := size, copied := 0)]
    {
      var d := images[id];
      images := images[id := d.(size := size)];
      v := ImageCheckOverlaps(id);
      if v.Overlaps? {
        images := images[id := d.(size := 0)];
      } else {
        images := images[id := d.(size := size, copied := 0)];
      }
    }

    /** Second half of the copy handler, once the image is sized. */
    method ImageCopyBlock(e: Smc) returns (r: Option<Code>)
      requires Valid() && e.ImageCopy? && e.id in images && GoodRange(e.src, e.blockSize)
      requires images[e.id].copied < images[e.id].size
      modifies this, loadedIds
      ensures Valid()
      ensures CopyBlock(old(View()), e) == if r.None? then Halt else Done(r.value, View())
    {
      if !e.mapped {
        return Some(ENoMem);
      }
      var full := AddLoadedId(e.id);
      if full {
        return Some(ENoMem);
      }
      if images[e.id].phase == Reset && !e.preLoadOk {
        return Some(EPerm);
      }
      r := TakeBlock(e);
    }

    /** The memcpy and the progress it makes, once the image has its slot. */
    method TakeBlock(e: Smc) returns (r: Option<Code>)
      requires Valid() && e.ImageCopy? && e.id in images && GoodRange(e.src, e.blockSize)
      requires images[e.id].copied < images[e.id].size
      modifies this`mem, this`images
      ensures Valid()
      ensures var o := CopyListed(old(View()), e);
        if r.None? then o.Halt? else r == Some(Ok) && o.Done? && images == o.state.images && mem == o.state.mem
    {
      var d := images[e.id];
      var blockSize := ClipBlock(d, e);
      var dest := d.base + d.copied;
      if dest + blockSize > ADDRESSES {
        return None;
      }
      CopyBytes(dest, e.src, blockSize);
      var next := if blockSize == d.size - d.copied then Copied else Copying;
      images := images[e.id := d.(copied := d.copied + blockSize, phase := next)];
      r := Some(Ok);
    }

    method ClipBlock(d: Image, e: Smc) returns (n: nat)
      requires e.ImageCopy? && d.copied < d.size
      ensures n == BlockBytes(d, e)
    {
      n := e.blockSize;
      var remaining := d.size - d.copied;
      if n > remaining {
        n := remaining;
      }
    }

    method CopyBytes(dest: nat, src: nat, n: nat)
      requires Valid() && src + n <= ADDRESSES && dest + n <= ADDRESSES
      modifies this`mem
      ensures Valid() && mem == Patch(old(mem), dest, Block(old(mem), dest, src, n))
    {
      mem := Patch(mem, dest, Block(mem, dest, src, n));
    }

    method ImageAuth(e: Smc) returns (r: Option<Code>)
      requires Valid() && e.ImageAuth?
      modifies this, loadedIds
      ensures Valid() && Takes(old(View()), e, r, View())
    {
      if e.id !in images || !AuthAllowed(images[e.id], e.fromSecure) {
        return Some(EPerm);
      }
      var d := images[e.id];
      if d.phase == Copied {
        if d.base + d.size > ADDRESSES {
          return None;
        }
      } else {
        if !GoodRange(e.src, e.imageSize) || !e.mapped {
          return Some(ENoMem);
        }
        var full := AddLoadedId(e.id);
        if full {
          return Some(ENoMem);
        }
        images := images[e.id := d.(size := e.imageSize)];
      }
      if !e.accepted {
        if d.phase == Copied {
          mem := Patch(mem, d.base, Zeros(d.size));
          images := images[e.id := d.(phase := Reset)];
        }
        var _ := RemoveLoadedId(e.id);
        return Some(EAuth);
      }
      images := images[e.id := images[e.id].(phase := Authenticated)];
      authFlags := authFlags + {e.id};
      if !e.postLoadOk {
        return None;
      }
      r := Some(Ok);
    }

    method ImageExecute(e: Smc) returns (r: Option<Code>)
      requires Valid() && e.ImageExecute?
      modifies this
      ensures Valid() && Takes(old(View()), e, r, View())
    {
      if e.id !in images || e.fromSecure || !images[e.id].secure || !images[e.id].executable
         || images[e.id].phase != Authenticated {
        return Some(EPerm);
      }
      images := images[e.id := images[e.id].(phase := Executed)];
      secExecImageId := e.id;
      r := Some(Ok);
    }

    method ImageResume(e: Smc) returns (r: Option<Code>)
      requires Valid() && e.ImageResume?
      modifies this
      ensures Valid() && Takes(old(View()), e, r, View())
    {
      if secExecImageId !in images {
        return if e.fromSecure then None else Some(EPerm);
      }
      var d := images[secExecImageId];
      if !d.secure || !d.executable {
        return None;
      }
      if e.fromSecure {
        if d.phase != Executed {
          return None;
        }
        images := images[secExecImageId := d.(phase := Interrupted)];
      } else {
        if d.phase != Interrupted {
          return None;
        }
        images := images[secExecImageId := d.(phase := Executed)];
      }
      r := Some(Param(e.param));
    }

    method SecImageDone(e: Smc) returns (r: Option<Code>)
      requires Valid() && e.SecImageDone?
      modifies this, loadedIds
      ensures Valid() && Takes(old(View()), e, r, View())
    {
      if !e.fromSecure {
        return Some(EPerm);
      }
      if secExecImageId !in images {
        return None;
      }
      var d := images[secExecImageId];
      if !d.secure || !d.executable || d.phase != Executed {
        return None;
      }
      var missing := RemoveLoadedId(secExecImageId);
      if missing {
        return None;
      }
      images := images[secExecImageId := d.(phase := Reset)];
      secExecImageId := INVALID_ID;
      r := Some(Ok);
    }

    method ImageReset(e: Smc) returns (r: Option<Code>)
      requires Valid() && e.ImageReset?
      modifies this, loadedIds
      ensures Valid() && Takes(old(View()), e, r, View())
    {
      if e.id !in images || e.fromSecure {
        return Some(EPerm);
      }
      var d := images[e.id];
      if d.phase == Reset {
        return Some(Ok);
      }
      if d.phase == Executed {
        return None;
      }
      var missing := RemoveLoadedId(e.id);
      if missing {
        return Some(EPerm);
      }
      if d.copied > 0 {
        if !d.secure || d.base + d.copied > ADDRESSES {
          return None;
        }
        mem := Patch(mem, d.base, Zeros(d.copied));
      }
      images := images[e.id := d.(copied := 0, size := 0, phase := Reset)];
      authFlags := authFlags - {e.id};
      r := Some(Ok);
    }

    /** One SMC, or one store by other software. */
    method Handle(e: Smc) returns (r: Option<Code>)
      requires Valid()
      modifies this, loadedIds
      ensures Valid() && Takes(old(View()), e, r, View())
    {
      match e {
        case ImageCopy(_, _, _, _, _, _, _) => { r := ImageCopy(e); }
        case ImageAuth(_, _, _, _, _, _, _) => { r := ImageAuth(e); }
        case ImageExecute(_, _) => { r := ImageExecute(e); }
        case ImageResume(_, _) => { r := ImageResume(e); }
        case SecImageDone(_) => { r := SecImageDone(e); }
        case ImageReset(_, _) => { r := ImageReset(e); }
        case WorldWrite(addr, data) => {
          if addr + |data| > ADDRESSES {
            return None;
          }
          mem := Patch(mem, addr, data);
          r := Some(Ok);
        }
      }
    }

    /**
     One SMC after the other, up to a halt. After every allowed run from boot,
     each secure image that executes has in memory exactly its copied blocks, and
     these are the bytes last accepted for it.
     */
    method Serve(es: seq<Smc>) returns (halted: bool)
      requires Valid()
      modifies this, loadedIds
      ensures halted <==> Run(old(View()), es).None?
      ensures !halted ==> Valid() && View() == Run(old(View()), es).value.0
      ensures !halted && Boot(old(View())) && AllowedRun(old(View()), es) ==>
        forall id :: id in images && images[id].secure && images[id].phase == Executed ==>
          Authentic(images[id], id, mem, Run(old(View()), es).value.1)
    {
      ghost var s := View();
      for k := 0 to |es|
        invariant Valid() && |s.mem| == ADDRESSES && Run(s, es[..k]).Some? && View() == Run(s, es[..k]).value.0
      {
        RunSnoc(s, es, k);
        var r := Handle(es[k]);
        if r.None? {
          RunPrefix(s, es, k + 1);
          return true;
        }
      }
      assert es[..|es|] == es;
      if Boot(s) && AllowedRun(s, es) {
        ExecutingAuthentic(s, es);
      }
      return false;
    }
  }

  lemma {:induction false} BlockAt(mem: seq<byte>, dest: nat, src: nat, n: nat, i: nat)
    requires i < n && src + n <= |mem|
    ensures Memmove.Origin(dest, src, i) < |mem| && Block(mem, dest, src, n)[i] == mem[Memmove.Origin(dest, src, i)]
  {
    if i < n - 1 {
      BlockAt(mem, dest, src, n - 1, i);
    }
  }

  /** What an image copy puts into memory is what memcpy does on an array, for every overlap. */
  method CopyInArray(a: array<byte>, dest: nat, src: nat, n: nat)
    requires src + n <= a.Length && dest + n <= a.Length
    modifies a
    ensures a[..] == Patch(old(a[..]), dest, Block(old(a[..]), dest, src, n))
  {
    var _ := Memmove.Memcpy(a, dest, src, n);
    forall i | 0 <= i < n ensures a[dest + i] == Block(old(a[..]), dest, src, n)[i] {
      BlockAt(old(a[..]), dest, src, n, i);
    }
    ghost var mem := Patch(old(a[..]), dest, Block(old(a[..]), dest, src, n));
    forall j | 0 <= j < a.Length ensures a[j] == mem[j] {
      if dest <= j < dest + n {
        assert a[dest + (j - dest)] == mem[j];
      }
    }
  }

  /** Memory holds the image's copied blocks, and they are the bytes last accepted for it. */
  ghost predicate Authentic(d: Image, id: uint32, mem: seq<byte>, h: History)
    requires |mem| == ADDRESSES
  {
    && d.base + d.size <= ADDRESSES && id in h.blocks && id in h.accepted
    && mem[d.base..d.base + d.size] == h.blocks[id] == h.accepted[id]
  }

  lemma {:induction false} ExecutingAuthentic(s: State, es: seq<Smc>)
    requires Boot(s) && AllowedRun(s, es) && Run(s, es).Some?
    ensures var (t, h) := Run(s, es).value;
      forall id :: id in t.images && t.images[id].secure && t.images[id].phase == Executed ==>
        Authentic(t.images[id], id, t.mem, h)
  {
    RunKeepsInv(s, es);
    var (t, h) := Run(s, es).value;
    forall id | id in t.images && t.images[id].secure && t.images[id].phase == Executed
      ensures Authentic(t.images[id], id, t.mem, h)
    {
      assert Local(t, h, id);
    }
  }

  lemma {:induction false} RunSnoc(s: State, es: seq<Smc>, k: nat)
    requires |s.mem| == ADDRESSES && k < |es| && Run(s, es[..k]).Some?
    ensures var (t, h) := Run(s, es[..k]).value;
      Run(s, es[..k + 1]) ==
        match Step(t, es[k])
        case Halt => None
        case Done(_, t') => Some((t', Record(t, h, es[k])))
  {
    assert es[..k + 1][..k] == es[..k];
  }

  lemma {:induction false} RunPrefix(s: State, es: seq<Smc>, k: nat)
    requires |s.mem| == ADDRESSES && k <= |es| && Run(s, es[..k]).None?
    ensures Run(s, es).None?
    decreases |es| - k
  {
    if k < |es| {
      assert es[..k + 1][..k] == es[..k];
      RunPrefix(s, es, k + 1);
    } else {
      assert es[..k] == es;
    }
  }
}
