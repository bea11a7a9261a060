/**
 Which firmware update SMCs succeed in a state that a run can reach, what they
 then leave, and that an update which keeps to the protocol goes through.
 */
module FwuProgress {
  import opened Bytes
  import opened Options
  import opened Fwu
  import opened FwuSafety
  import opened FwuAsserts

  /** Some allowed run from boot leads to this state. */
  ghost predicate Reached(t: State, h: History) {
    exists s: State, es: seq<Smc> ::
      |s.mem| == ADDRESSES && Boot(s) && AllowedRun(s, es) && Run(s, es) == Some((t, h))
  }

  lemma {:induction false} ReachedInv(t: State, h: History)
    requires Reached(t, h)
    ensures Inv(t, h)
  {
    var s: State, es: seq<Smc> :|
      |s.mem| == ADDRESSES && Boot(s) && AllowedRun(s, es) && Run(s, es) == Some((t, h));
    RunKeepsInv(s, es);
  }

  /** Every allowed step leads to a reached state again. */
  lemma {:induction false} ReachedNext(t: State, h: History, e: Smc)
    requires Reached(t, h) && |t.mem| == ADDRESSES && Allowed(t, e) && Step(t, e).Done?
    ensures Reached(Step(t, e).state, Record(t, h, e))
  {
    var s: State, es: seq<Smc> :|
      |s.mem| == ADDRESSES && Boot(s) && AllowedRun(s, es) && Run(s, es) == Some((t, h));
    assert (es + [e])[..|es|] == es;
    assert AllowedRun(s, es + [e]) && Run(s, es + [e]) == Some((Step(t, e).state, Record(t, h, e)));
  }

  /** The range is not empty, does not start at address 0 and ends inside the address space. */
  predicate WholeRange(src: nat, len: nat) {
    src > 0 && len > 0 && src + len <= ADDRESSES
  }

  predicate SlotFor(t: State, id: uint32) {
    id in t.table || INVALID_ID in t.table
  }

  /** Only image `id` differs, and of it neither region nor kind. */
  ghost predicate OnlyImage(t: State, u: State, id: uint32) {
    && id in t.images && id in u.images && u.images == t.images[id := u.images[id]]
    && SameRegion(t.images[id], u.images[id]) && u.images[id].executable == t.images[id].executable
  }

  /** Memory differs only in `n` bytes from `base` on, which are now zero. */
  ghost predicate Cleared(mem: seq<byte>, mem': seq<byte>, base: nat, n: nat) {
    && |mem'| == |mem|
    && forall i :: 0 <= i < |mem| ==> mem'[i] == if base <= i < base + n then 0 else mem[i]
  }

  lemma {:induction false} ClearVerdict(images: map<uint32, Image>, t: seq<uint32>, id: uint32)
    requires id in images && images[id].size > 0 && images[id].base + images[id].size <= ADDRESSES
    requires forall b :: b in t ==> b == INVALID_ID || b in images
    ensures CheckOverlaps(images, t, id).Clear? <==> forall b :: b in t ==> Passed(images, b, id)
  {
    if t != [] {
      SlotVerdict(images, t[0], id);
      ClearVerdict(images, t[1..], id);
      assert t == [t[0]] + t[1..];
    }
  }

  /** What IMAGE_COPY asks of its caller, of the platform and of the other images. */
  ghost predicate CopyAllowed(t: State, e: Smc)
    requires e.ImageCopy?
  {
    && e.id in t.images && t.images[e.id].secure && !e.fromSecure
    && WholeRange(e.src, e.blockSize) && e.mapped && SlotFor(t, e.id)
    && var d := t.images[e.id];
       || d.phase == Copying
       || (&& d.phase == Reset && e.preLoadOk && 0 < e.imageSize <= d.maxSize
           && var sized := t.images[e.id := d.(size := e.imageSize)];
              forall b :: b in t.table ==> Passed(sized, b, e.id))
  }

  /** How far a copy gets: the block is added, but never past the size of the image. */
  predicate Advanced(d: Image, u: Image, e: Smc)
    requires e.ImageCopy?
  {
    var size, before := if d.phase == Copying then d.size else e.imageSize, if d.phase == Copying then d.copied else 0;
    && u.size == size && u.copied == (if before + e.blockSize < size then before + e.blockSize else size)
    && u.phase == (if u.copied == size then Copied else Copying)
  }

  /** In every reached state, a copy succeeds exactly if it is allowed, and then advances by its block. */
  lemma {:induction false} CopySucceeds(t: State, h: History, e: Smc)
    requires Reached(t, h) && |t.mem| == ADDRESSES && e.ImageCopy?
    ensures Step(t, e).Done? && Step(t, e).code == Ok <==> CopyAllowed(t, e)
    ensures CopyAllowed(t, e) ==> var u := Step(t, e).state;
      && OnlyImage(t, u, e.id) && Advanced(t.images[e.id], u.images[e.id], e)
      && e.id in u.table && u.secExec == t.secExec && u.authFlags == t.authFlags
  {
    ReachedInv(t, h);
    if e.id in t.images {
      if t.images[e.id].phase == Reset && 0 < e.imageSize <= t.images[e.id].maxSize {
        OverlapVerdict(t, h, e);
      }
      if CopyAllowed(t, e) {
        assert Local(t, h, e.id);
        var d := t.images[e.id];
        CopyEffect(t, e, if d.phase == Copying then d else d.(size := e.imageSize, copied := 0));
      } else {
        CopyRefused(t, e);
      }
    }
  }

  lemma {:induction false} OverlapVerdict(t: State, h: History, e: Smc)
    requires Inv(t, h) && e.ImageCopy? && e.id in t.images
    requires t.images[e.id].phase == Reset && 0 < e.imageSize <= t.images[e.id].maxSize
    ensures var sized := t.images[e.id := t.images[e.id].(size := e.imageSize)];
      CheckOverlaps(sized, t.table, e.id).Clear? <==> forall b :: b in t.table ==> Passed(sized, b, e.id)
  {
    assert Local(t, h, e.id);
    ClearVerdict(t.images[e.id := t.images[e.id].(size := e.imageSize)], t.table, e.id);
  }

  lemma {:induction false} CopyEffect(t: State, e: Smc, d': Image)
    requires |t.mem| == ADDRESSES && e.ImageCopy? && CopyAllowed(t, e) && d'.copied < d'.size
    requires d' == if t.images[e.id].phase == Copying then t.images[e.id]
                   else t.images[e.id].(size := e.imageSize, copied := 0)
    requires d'.base + d'.size <= ADDRESSES
    ensures var o := CopyBlock(SetImage(t, e.id, d'), e);
      && o.Done? && o.code == Ok
      && OnlyImage(t, o.state, e.id) && Advanced(t.images[e.id], o.state.images[e.id], e)
      && e.id in o.state.table && o.state.secExec == t.secExec && o.state.authFlags == t.authFlags
  {
    var u := AfterBlock(d', BlockBytes(d', e));
    assert t.images[e.id := d'][e.id := u] == t.images[e.id := u];
    SlotTaken(t.table, e.id);
  }

  lemma {:induction false} SlotTaken(t: seq<uint32>, id: uint32)
    ensures AddId(t, id).Some? <==> id in t || INVALID_ID in t
    ensures AddId(t, id).Some? ==> id in AddId(t, id).value
  {
    if id !in t && INVALID_ID in t {
      assert AddId(t, id).value[IndexOf(t, INVALID_ID)] == id;
    }
  }

  lemma {:induction false} CopyRefused(t: State, e: Smc)
    requires |t.mem| == ADDRESSES && e.ImageCopy? && e.id in t.images && !CopyAllowed(t, e)
    requires t.images[e.id].phase == Reset && 0 < e.imageSize <= t.images[e.id].maxSize ==>
      var sized := t.images[e.id := t.images[e.id].(size := e.imageSize)];
      CheckOverlaps(sized, t.table, e.id).Clear? <==> forall b :: b in t.table ==> Passed(sized, b, e.id)
    ensures !(Step(t, e).Done? && Step(t, e).code == Ok)
  {
    SlotTaken(t.table, e.id);
  }

  /**
   A copy that is refused moves nothing: memory and phases stay, and a slot is
   only taken by a fresh image whose pre-load hook then fails.
   */
  lemma {:induction false} RefusedCopyHarmless(t: State, h: History, e: Smc)
    requires Reached(t, h) && |t.mem| == ADDRESSES && e.ImageCopy?
    requires Step(t, e).Done? && Step(t, e).code != Ok
    ensures var o := Step(t, e);
      && (o.code == EPerm || o.code == ENoMem)
      && o.state == t.(images := o.state.images, table := o.state.table)
      && (o.state.images != t.images ==>
            t.images[e.id].phase == Reset && OnlyImage(t, o.state, e.id) && o.state.images[e.id].phase == Reset)
      && (o.state.table != t.table ==> o.code == EPerm && !e.preLoadOk && e.id !in t.table && e.id in o.state.table)
  {
    ReachedInv(t, h);
    if e.id in t.images {
      assert Local(t, h, e.id);
      SlotTaken(t.table, e.id);
      assert t.images[e.id := t.images[e.id]] == t.images;
    }
  }

  /** What a refused copy leaves of a fresh image's sizes: 0 if a listed image was in the way. */
  lemma {:induction false} RefusedCopySizes(t: State, h: History, e: Smc)
    requires Reached(t, h) && |t.mem| == ADDRESSES && e.ImageCopy?
    requires Step(t, e).Done? && Step(t, e).code != Ok && Step(t, e).state.images != t.images
    ensures e.id in t.images
    ensures var d := t.images[e.id];
      var sized := t.images[e.id := d.(size := e.imageSize)];
      Step(t, e).state.images == t.images[e.id :=
        if forall b :: b in t.table ==> Passed(sized, b, e.id) then d.(size := e.imageSize, copied := 0)
        else d.(size := 0)]
  {
    ReachedInv(t, h);
    assert t.images[e.id := t.images[e.id]] == t.images;
    OverlapVerdict(t, h, e);
  }

  /** The image is where the caller may have it authenticated: where it lies, or copied. */
  predicate RightPhase(d: Image, fromSecure: bool) {
    d.phase == if d.secure && !fromSecure then Copied else Reset
  }

  /** An authentication in place has to name its bytes and needs a slot. */
  predicate Presented(t: State, e: Smc)
    requires e.ImageAuth? && e.id in t.images
  {
    t.images[e.id].phase == Copied || (WholeRange(e.src, e.imageSize) && e.mapped && SlotFor(t, e.id))
  }

  /**
   In every reached state, what IMAGE_AUTH answers: it asks for the right phase,
   then for the bytes, and then the verdict of the authentication module decides.
   */
  lemma {:induction false} AuthAnswers(t: State, h: History, e: Smc)
    requires Reached(t, h) && |t.mem| == ADDRESSES && e.ImageAuth?
    ensures var o := Step(t, e);
      if e.id !in t.images || !RightPhase(t.images[e.id], e.fromSecure) then o == Done(EPerm, t)
      else if !Presented(t, e) then o == Done(ENoMem, t)
      else if !e.accepted then o.Done? && o.code == EAuth
      else if !e.postLoadOk then o.Halt?
      else o.Done? && o.code == Ok
  {
    ReachedInv(t, h);
    if e.id in t.images {
      assert Local(t, h, e.id);
      SlotTaken(t.table, e.id);
    }
  }

  /** An accepted image is marked so and listed, and memory stays as it is. */
  lemma {:induction false} AuthAccepts(t: State, h: History, e: Smc)
    requires Reached(t, h) && |t.mem| == ADDRESSES && e.ImageAuth?
    requires Step(t, e).Done? && Step(t, e).code == Ok
    ensures e.id in t.images
    ensures var u := Step(t, e).state;
      && OnlyImage(t, u, e.id) && u.images[e.id].phase == Authenticated
      && u.images[e.id].copied == t.images[e.id].copied
      && u.images[e.id].size == (if t.images[e.id].phase == Copied then t.images[e.id].size else e.imageSize)
      && e.id in u.table && u.authFlags == t.authFlags + {e.id} && u.mem == t.mem && u.secExec == t.secExec
  {
    ReachedInv(t, h);
    assert Local(t, h, e.id);
    SlotTaken(t.table, e.id);
  }

  lemma {:induction false} SlotFreed(t: seq<uint32>, id: uint32)
    requires NoDuplicates(t) && id != INVALID_ID
    ensures RemoveId(t, id).Some? <==> id in t
    ensures RemoveId(t, id).Some? ==> id !in RemoveId(t, id).value
  {
    if id in t {
      RemoveIdKeeps(t, id);
    }
  }

  /** A refused image is in RESET and off the table, and if it had been copied, its bytes are gone. */
  lemma {:induction false} AuthRefuses(t: State, h: History, e: Smc)
    requires Reached(t, h) && |t.mem| == ADDRESSES && e.ImageAuth?
    requires Step(t, e).Done? && Step(t, e).code == EAuth
    ensures e.id in t.images
    ensures var d, u := t.images[e.id], Step(t, e).state;
      && OnlyImage(t, u, e.id) && u.images[e.id].phase == Reset && e.id !in u.table
      && Cleared(t.mem, u.mem, d.base, if d.phase == Copied then d.size else 0)
      && u.authFlags == t.authFlags && u.secExec == t.secExec
  {
    ReachedInv(t, h);
    assert Local(t, h, e.id);
    SlotTaken(t.table, e.id);
    SlotFreed(t.table, e.id);
    if AddId(t.table, e.id).Some? {
      AddIdKeeps(t.table, e.id);
      SlotFreed(AddId(t.table, e.id).value, e.id);
    }
  }

  /** IMAGE_EXECUTE starts exactly the authenticated secure executable images, for the normal world. */
  lemma {:induction false} ExecuteAnswers(t: State, id: uint32, fromSecure: bool)
    requires |t.mem| == ADDRESSES
    ensures var o := Step(t, ImageExecute(id, fromSecure));
      if id in t.images && !fromSecure && t.images[id].secure && t.images[id].executable
        && t.images[id].phase == Authenticated
      then
        && o.Done? && o.code == Ok && OnlyImage(t, o.state, id) && Running(o.state) && o.state.secExec == id
        && o.state == t.(images := o.state.images, secExec := id)
        && o.state.images[id] == t.images[id].(phase := Executed)
      else o == Done(EPerm, t)
  {
  }

  /** The secure image that executed last was interrupted. */
  predicate Waiting(s: State) {
    s.secExec in s.images &&
    var d := s.images[s.secExec]; d.secure && d.executable && d.phase == Interrupted
  }

  /** The two directions of IMAGE_RESUME, and that each takes back the other: the image waits or runs, and no more. */
  lemma {:induction false} ResumeUndone(t: State, p: int, q: int)
    requires |t.mem| == ADDRESSES
    ensures var o := Step(t, ImageResume(p, true));
      && (o.Done? <==> Running(t))
      && (Running(t) ==> o.code == Param(p) && Waiting(o.state) && !Running(o.state)
                         && Step(o.state, ImageResume(q, false)) == Done(Param(q), t))
    ensures var o := Step(t, ImageResume(p, false));
      && (o.Done? <==> Waiting(t) || t.secExec !in t.images)
      && (Waiting(t) ==> o.code == Param(p) && Running(o.state)
                         && Step(o.state, ImageResume(q, true)) == Done(Param(q), t))
      && (t.secExec !in t.images ==> o == Done(EPerm, t))
  {
    if t.secExec in t.images {
      var d := t.images[t.secExec];
      assert t.images[t.secExec := d] == t.images;
      forall ph: Phase | d.phase == Executed || d.phase == Interrupted
        ensures t.images[t.secExec := d.(phase := ph)][t.secExec := d] == t.images
      {
      }
    }
  }

  /** In every reached state, an image that was resumed can finish, and a finished one is in RESET and off the table. */
  lemma {:induction false} ResumedCanFinish(t: State, h: History, p: int)
    requires Reached(t, h) && |t.mem| == ADDRESSES && Waiting(t)
    ensures var u := Step(t, ImageResume(p, false)).state;
      && Reached(u, h) && |u.mem| == ADDRESSES && Running(u)
      && Step(u, SecImageDone(true)).Done? && Step(u, SecImageDone(true)).code == Ok
  {
    ResumeUndone(t, p, p);
    ReachedNext(t, h, ImageResume(p, false));
    var u := Step(t, ImageResume(p, false)).state;
    DoneAnswers(u, h, true);
  }

  /** In every reached state, SEC_IMAGE_DONE ends exactly the running image; memory keeps its bytes. */
  lemma {:induction false} DoneAnswers(t: State, h: History, fromSecure: bool)
    requires Reached(t, h) && |t.mem| == ADDRESSES
    ensures var o := Step(t, SecImageDone(fromSecure));
      if !fromSecure then o == Done(EPerm, t)
      else if !Running(t) then o.Halt?
      else
        && o.Done? && o.code == Ok && OnlyImage(t, o.state, t.secExec)
        && o.state.images[t.secExec] == t.images[t.secExec].(phase := Reset)
        && t.secExec !in o.state.table && o.state.secExec == INVALID_ID
        && o.state.mem == t.mem && o.state.authFlags == t.authFlags
  {
    ReachedInv(t, h);
    if fromSecure && Running(t) {
      assert Local(t, h, t.secExec);
      SlotFreed(t.table, t.secExec);
    }
  }

  /**
   In every reached state, IMAGE_RESET works on every image that is not executing,
   and leaves it as if it had never been loaded, its copied bytes cleared.
   */
  lemma {:induction false} ResetAnswers(t: State, h: History, id: uint32, fromSecure: bool)
    requires Reached(t, h) && |t.mem| == ADDRESSES
    ensures var o := Step(t, ImageReset(id, fromSecure));
      if id !in t.images || fromSecure then o == Done(EPerm, t)
      else if t.images[id].phase == Executed then o.Halt?
      else if t.images[id].phase == Reset then o == Done(Ok, t)
      else
        && o.Done? && o.code == Ok && OnlyImage(t, o.state, id)
        && o.state.images[id] == t.images[id].(phase := Reset, copied := 0, size := 0)
        && id !in o.state.table && o.state.authFlags == t.authFlags - {id} && o.state.secExec == t.secExec
        && Cleared(t.mem, o.state.mem, t.images[id].base, t.images[id].copied)
  {
    ReachedInv(t, h);
    if id in t.images {
      assert Local(t, h, id);
      SlotFreed(t.table, id);
    }
  }

  /** The state after calls that all succeed; `None` once one does not. */
  function Served(t: State, es: seq<Smc>): Option<State>
    requires |t.mem| == ADDRESSES
    decreases |es|
  {
    if es == [] then Some(t)
    else
      match Step(t, es[0])
      case Halt => None
      case Done(code, u) => if code == Ok || code.Param? then Served(u, es[1..]) else None
  }

  lemma {:induction false} ServedThen(t: State, es: seq<Smc>, fs: seq<Smc>)
    requires |t.mem| == ADDRESSES && Served(t, es).Some? && |Served(t, es).value.mem| == ADDRESSES
    ensures Served(t, es + fs) == Served(Served(t, es).value, fs)
    decreases |es|
  {
    if es == [] {
      assert es + fs == fs;
    } else {
      assert (es + fs)[1..] == es[1..] + fs;
      ServedThen(Step(t, es[0]).state, es[1..], fs);
    }
  }

  /** A block of the image that can be copied. */
  predicate GoodBlock(e: Smc, id: uint32) {
    e.ImageCopy? && e.id == id && !e.fromSecure && e.mapped && WholeRange(e.src, e.blockSize)
  }

  function Total(es: seq<Smc>): nat {
    if es == [] then 0 else (if es[0].ImageCopy? then es[0].blockSize else 0) + Total(es[1..])
  }

  /** What an update of image `id` may have changed. */
  ghost predicate Apart(t: State, u: State, id: uint32) {
    && |u.mem| == ADDRESSES && OnlyImage(t, u, id) && u.secExec == t.secExec && u.authFlags == t.authFlags
    && id in u.table
  }

  lemma {:induction false} ApartThen(t: State, u: State, v: State, id: uint32)
    requires Apart(t, u, id) && Apart(u, v, id)
    ensures Apart(t, v, id)
  {
    OnlyThen(t, u, v, id);
  }

  /** Once its first block is copied, the rest of an image may come in blocks of any sizes. */
  lemma {:induction false} BlocksAddUp(t: State, h: History, id: uint32, es: seq<Smc>) returns (u: State, h': History)
    requires Reached(t, h) && |t.mem| == ADDRESSES && id in t.images && id in t.table
    requires t.images[id].secure && t.images[id].copied <= t.images[id].size
    requires t.images[id].phase == if t.images[id].copied == t.images[id].size then Copied else Copying
    requires forall k :: 0 <= k < |es| ==> GoodBlock(es[k], id)
    requires es != [] ==> t.images[id].copied + Total(es[..|es| - 1]) < t.images[id].size
    ensures Served(t, es) == Some(u) && Reached(u, h') && Apart(t, u, id)
    ensures var d, n := u.images[id], t.images[id].copied + Total(es);
      && d.size == t.images[id].size && d.copied == (if n < d.size then n else d.size)
      && d.phase == if d.copied == d.size then Copied else Copying
    decreases |es|
  {
    u, h' := t, h;
    if es != [] {
      var e, rest := es[0], es[1..];
      TotalInit(es);
      CopySucceeds(t, h, e);
      ReachedNext(t, h, e);
      var v := Step(t, e).state;
      u, h' := BlocksAddUp(v, Record(t, h, e), id, rest);
      ApartThen(t, v, u, id);
    }
  }

  lemma {:induction false} TotalInit(es: seq<Smc>)
    requires es != [] && es[0].ImageCopy?
    ensures |es| > 1 ==> Total(es[..|es| - 1]) == es[0].blockSize + Total(es[1..][..|es| - 2])
    ensures |es| == 1 ==> Total(es[..|es| - 1]) == 0
  {
    if |es| > 1 {
      assert es[..|es| - 1][1..] == es[1..][..|es| - 2];
    }
  }

  /** The calls that follow once the image is copied, with both worlds taking turns. */
  function Rest(id: uint32, p: int, q: int): seq<Smc> {
    [ImageAuth(id, 0, 0, false, false, true, true), ImageExecute(id, false), ImageResume(p, true),
     ImageResume(q, false), SecImageDone(true)]
  }

  /** A copied secure executable image can be authenticated and started. */
  lemma {:induction false} Started(t: State, h: History, id: uint32) returns (t1: State, t2: State, h2: History)
    requires Reached(t, h) && |t.mem| == ADDRESSES && id in t.images
    requires t.images[id].secure && t.images[id].executable && t.images[id].phase == Copied
    ensures Step(t, Rest(id, 0, 0)[0]) == Done(Ok, t1) && |t1.mem| == ADDRESSES
    ensures Step(t1, Rest(id, 0, 0)[1]) == Done(Ok, t2) && Reached(t2, h2)
    ensures OnlyImage(t, t2, id) && t2.images[id] == t.images[id].(phase := Executed) && Running(t2)
    ensures t2.secExec == id && t2.mem == t.mem && t2.authFlags == t.authFlags + {id}
  {
    var es := Rest(id, 0, 0);
    AuthAnswers(t, h, es[0]);
    AuthAccepts(t, h, es[0]);
    ReachedNext(t, h, es[0]);
    t1 := Step(t, es[0]).state;
    ExecuteAnswers(t1, id, false);
    ReachedNext(t1, Record(t, h, es[0]), es[1]);
    t2, h2 := Step(t1, es[1]).state, Record(t1, Record(t, h, es[0]), es[1]);
    OnlyThen(t, t1, t2, id);
  }

  /** A secure executable image that was copied goes through the rest of its update. */
  lemma {:induction false} RestSucceeds(t: State, h: History, id: uint32, p: int, q: int)
    requires Reached(t, h) && |t.mem| == ADDRESSES && id in t.images
    requires t.images[id].secure && t.images[id].executable && t.images[id].phase == Copied
    ensures Served(t, Rest(id, p, q)).Some?
    ensures var u := Served(t, Rest(id, p, q)).value;
      && OnlyImage(t, u, id) && u.images[id] == t.images[id].(phase := Reset) && id !in u.table
      && u.secExec == INVALID_ID && u.mem == t.mem && u.authFlags == t.authFlags + {id}
  {
    var es := Rest(id, p, q);
    var t1, t2, h2 := Started(t, h, id);
    ResumeUndone(t2, p, q);
    DoneAnswers(t2, h2, true);
    var t4 := Step(t2, SecImageDone(true)).state;
    FourSteps(t, es, t1, t2, Step(t2, es[2]).state, t4);
    OnlyThen(t, t2, t4, id);
  }

  lemma {:induction false} FourSteps(t: State, es: seq<Smc>, t1: State, t2: State, t3: State, t4: State)
    requires |t.mem| == |t1.mem| == |t2.mem| == |t3.mem| == ADDRESSES && |es| == 5
    requires Step(t, es[0]) == Done(Ok, t1) && Step(t1, es[1]) == Done(Ok, t2)
    requires Step(t2, es[2]).Done? && Step(t2, es[2]).code.Param? && Step(t2, es[2]).state == t3
    requires Step(t3, es[3]).Done? && Step(t3, es[3]).code.Param? && Step(t3, es[3]).state == t2
    requires Step(t2, es[4]) == Done(Ok, t4)
    ensures Served(t, es) == Some(t4)
  {
    assert Served(t2, es[4..]) == Some(t4);
    assert es[3..][1..] == es[4..] && Served(t3, es[3..]) == Some(t4);
    assert es[2..][1..] == es[3..] && Served(t2, es[2..]) == Some(t4);
    assert es[1..][1..] == es[2..] && Served(t1, es[1..]) == Some(t4);
  }

  lemma {:induction false} CopiesSucceed(t: State, h: History, id: uint32, first: Smc, es: seq<Smc>)
    returns (u: State, h': History)
    requires Reached(t, h) && |t.mem| == ADDRESSES && GoodBlock(first, id) && CopyAllowed(t, first)
    requires t.images[id].phase == Reset && forall k :: 0 <= k < |es| ==> GoodBlock(es[k], id)
    requires first.blockSize + Total(es) >= first.imageSize
    requires es != [] ==> first.blockSize + Total(es[..|es| - 1]) < first.imageSize
    ensures Served(t, [first] + es) == Some(u) && Reached(u, h') && Apart(t, u, id)
    ensures u.images[id].phase == Copied && u.images[id].size == first.imageSize
  {
    CopySucceeds(t, h, first);
    ReachedNext(t, h, first);
    var t1 := Step(t, first).state;
    u, h' := BlocksAddUp(t1, Record(t, h, first), id, es);
    assert ([first] + es)[1..] == es;
    ApartThen(t, t1, u, id);
  }

  /**
   An update that keeps to the protocol goes through. In every reached state, if the
   first copy of a secure executable image in RESET is allowed and further blocks
   fill it, then all calls succeed up to SEC_IMAGE_DONE, and what remains of them is
   the image's bytes, its sizes and its authentication flag.
   */
  lemma {:induction false} UpdateSucceeds(t: State, h: History, id: uint32, first: Smc, es: seq<Smc>, p: int, q: int)
    requires Reached(t, h) && |t.mem| == ADDRESSES && GoodBlock(first, id) && CopyAllowed(t, first)
    requires t.images[id].phase == Reset && t.images[id].executable
    requires forall k :: 0 <= k < |es| ==> GoodBlock(es[k], id)
    requires first.blockSize + Total(es) >= first.imageSize
    requires es != [] ==> first.blockSize + Total(es[..|es| - 1]) < first.imageSize
    ensures Served(t, [first] + es + Rest(id, p, q)).Some?
    ensures var u := Served(t, [first] + es + Rest(id, p, q)).value;
      && OnlyImage(t, u, id) && u.images[id].phase == Reset && u.images[id].size == first.imageSize
      && id !in u.table && u.secExec == INVALID_ID && u.authFlags == t.authFlags + {id}
  {
    var v, h' := CopiesSucceed(t, h, id, first, es);
    RestSucceeds(v, h', id, p, q);
    ServedThen(t, [first] + es, Rest(id, p, q));
    OnlyThen(t, v, Served(v, Rest(id, p, q)).value, id);
  }

  lemma {:induction false} OnlyThen(t: State, u: State, v: State, id: uint32)
    requires OnlyImage(t, u, id) && OnlyImage(u, v, id)
    ensures OnlyImage(t, v, id)
  {
    assert t.images[id := u.images[id]][id := v.images[id]] == t.images[id := v.images[id]];
  }
}
