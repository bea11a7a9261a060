/**
 Why the secure world must not authenticate secure images: what such a call does
 to the guarantee, and a run in which it harms an image authenticated long before.
 */
module FwuSecureAuth {
  import opened Bytes
  import opened Options
  import opened Fwu
  import opened FwuSafety

  /**
   A secure image that the secure world authenticates in place can be executed at
   once, and is then executed with the accepted bytes exactly if its load region
   happened to hold the same bytes as the place that was authenticated.
   */
  lemma {:induction false} SecureAuthEffect(s: State, h: History, e: Smc)
    requires |s.mem| == ADDRESSES && e.ImageAuth? && e.fromSecure && e.id in s.images
    requires s.images[e.id].secure && s.images[e.id].executable && s.images[e.id].base + e.imageSize <= ADDRESSES
    requires Step(s, e).Done? && Step(s, e).code == Ok
    ensures e.src + e.imageSize <= ADDRESSES
    ensures var o, h' := Step(Step(s, e).state, ImageExecute(e.id, false)), Record(s, h, e);
      && o.Done? && o.code == Ok && e.id in o.state.images && e.id in h'.accepted
      && var d := o.state.images[e.id];
      && d.phase == Executed && d.size == e.imageSize && d.base == s.images[e.id].base
      && (o.state.mem[d.base..d.base + d.size] == h'.accepted[e.id]
          <==> s.mem[d.base..d.base + d.size] == s.mem[e.src..e.src + d.size])
  {
  }

  /** An SMC comes from the world that runs: the secure one while a secure image is executing. */
  predicate Plausible(s: State, e: Smc) {
    e.WorldWrite? || (e.fromSecure <==> Running(s))
  }

  ghost predicate PlausibleRun(s: State, es: seq<Smc>)
    requires |s.mem| == ADDRESSES
  {
    es == [] ||
    var before := Run(s, es[..|es| - 1]);
    before.Some? && PlausibleRun(s, es[..|es| - 1]) && Plausible(before.value.0, es[|es| - 1])
  }

  /**
   The run: `X` is refused and keeps its copied size in RESET; `Y`, whose region
   overlaps that of `X`, and `Z` are loaded and accepted; `Z` is executed,
   authenticates `X` in place and hands back; resetting `X` then clears `Y`.
   */
  const X: uint32 := 1
  const Y: uint32 := 2
  const Z: uint32 := 3

  const EVENTS: seq<Smc> := [
    ImageCopy(X, 1000, 10, 10, false, true, true),
    ImageAuth(X, 0, 0, false, true, false, true),
    ImageCopy(Y, 1000, 2, 2, false, true, true),
    ImageAuth(Y, 0, 0, false, true, true, true),
    ImageCopy(Z, 1000, 2, 2, false, true, true),
    ImageAuth(Z, 0, 0, false, true, true, true),
    ImageExecute(Z, false),
    ImageAuth(X, 1000, 2, true, true, true, true),
    ImageResume(0, true),
    ImageReset(X, false)]

  const ZEROS: seq<byte> := [0, 0, 0, 0, 0, 0, 0, 0, 0, 0]
  const SEVENS: seq<byte> := [7, 7, 7, 7, 7, 7, 7, 7, 7, 7]
  const Y_LOADED: seq<byte> := [0, 0, 0, 0, 7, 7, 0, 0, 0, 0]

  function ImageX(phase: Phase, copied: uint32, size: uint32): Image {
    Image(true, true, 100, 10, phase, copied, size)
  }

  function ImageY(phase: Phase, size: uint32): Image {
    Image(true, true, 104, 10, phase, size, size)
  }

  function ImageZ(phase: Phase, size: uint32): Image {
    Image(true, true, 200, 10, phase, size, size)
  }

  /** All zero but for the source at 1000, the ten bytes at 100 and the two at 200. */
  ghost function Memory(at100: seq<byte>, at200: byte): (m: seq<byte>)
    requires |at100| == 10
    ensures |m| == ADDRESSES
  {
    Patch(Patch(Patch(Zeros(ADDRESSES), 1000, SEVENS), 100, at100), 200, [at200, at200])
  }

  function Images(x: Image, y: Image, z: Image): map<uint32, Image> {
    map[X := x, Y := y, Z := z]
  }

  ghost function At(x: Image, y: Image, z: Image, t: seq<uint32>, sec: uint32, flags: set<uint32>, at100: seq<byte>,
      at200: byte): (s: State)
    requires |at100| == 10
    ensures |s.mem| == ADDRESSES
  {
    State(Images(x, y, z), t, sec, flags, Memory(at100, at200))
  }

  /** The states between the events. */
  ghost function Stage(k: nat): (s: State)
    requires k <= 10
    ensures |s.mem| == ADDRESSES
  {
    var i := INVALID_ID;
    var x0, y0, z0 := ImageX(Reset, 0, 0), ImageY(Reset, 0), ImageZ(Reset, 0);
    var refused, xa := ImageX(Reset, 10, 10), ImageX(Authenticated, 10, 2);
    var ya, za := ImageY(Authenticated, 2), ImageZ(Authenticated, 2);
    if k == 0 then At(x0, y0, z0, [i, i, i], i, {}, ZEROS, 0)
    else if k == 1 then At(ImageX(Copied, 10, 10), y0, z0, [X, i, i], i, {}, SEVENS, 0)
    else if k == 2 then At(refused, y0, z0, [i, i, i], i, {}, ZEROS, 0)
    else if k == 3 then At(refused, ImageY(Copied, 2), z0, [Y, i, i], i, {}, Y_LOADED, 0)
    else if k == 4 then At(refused, ya, z0, [Y, i, i], i, {Y}, Y_LOADED, 0)
    else if k == 5 then At(refused, ya, ImageZ(Copied, 2), [Y, Z, i], i, {Y}, Y_LOADED, 7)
    else if k == 6 then At(refused, ya, za, [Y, Z, i], i, {Y, Z}, Y_LOADED, 7)
    else if k == 7 then At(refused, ya, ImageZ(Executed, 2), [Y, Z, i], Z, {Y, Z}, Y_LOADED, 7)
    else if k == 8 then At(xa, ya, ImageZ(Executed, 2), [Y, Z, X], Z, {X, Y, Z}, Y_LOADED, 7)
    else if k == 9 then At(xa, ya, ImageZ(Interrupted, 2), [Y, Z, X], Z, {X, Y, Z}, Y_LOADED, 7)
    else At(x0, ya, ImageZ(Interrupted, 2), [Y, Z, i], Z, {Y, Z}, ZEROS, 7)
  }

  /** Writing inside the ten bytes at 100. */
  lemma {:induction false} WriteAt100(a: seq<byte>, at200: byte, off: nat, d: seq<byte>)
    requires |a| == 10 && off + |d| <= 10
    ensures Patch(Memory(a, at200), 100 + off, d) == Memory(Patch(a, off, d), at200)
    ensures Memory(a, at200)[1000..1010] == SEVENS && Memory(a, at200)[1000..1002] == [7, 7]
  {
    var m := Memory(a, at200);
    assert forall i :: 0 <= i < 10 ==> m[1000..1010][i] == SEVENS[i];
    assert m[1000..1002] == m[1000..1010][..2];
  }

  lemma {:induction false} ImageUpdates(x: Image, y: Image, z: Image, d: Image)
    ensures Images(x, y, z)[X := d] == Images(d, y, z)
    ensures Images(x, y, z)[Y := d] == Images(x, d, z)
    ensures Images(x, y, z)[Z := d] == Images(x, y, d)
  {
  }

  /** Table lookups on the three-slot table. */
  lemma {:induction false} Slots(a: uint32, b: uint32, c: uint32, id: uint32)
    ensures IndexOf([a, b, c], id) == if a == id then 0 else if b == id then 1 else if c == id then 2 else 3
    ensures forall v: uint32 ::
      [a, b, c][0 := v] == [v, b, c] && [a, b, c][1 := v] == [a, v, c] && [a, b, c][2 := v] == [a, b, v]
  {
    assert [a, b, c][1..] == [b, c] && [b, c][1..] == [c] && [c][1..] == [];
  }

  lemma {:induction false} CheckThree(images: map<uint32, Image>, a: uint32, b: uint32, c: uint32, id: uint32)
    requires id in images && images[id].size > 0
    requires SlotOverlap(images, a, id).Clear? && SlotOverlap(images, b, id).Clear? && SlotOverlap(images, c, id).Clear?
    ensures CheckOverlaps(images, [a, b, c], id).Clear?
  {
    assert [a, b, c][1..] == [b, c] && [b, c][1..] == [c] && [c][1..] == [];
    assert CheckOverlaps(images, [c], id).Clear?;
    assert CheckOverlaps(images, [b, c], id).Clear?;
  }

  /** A whole image copied in one block. */
  lemma {:induction false} CopyWhole(s: State, e: Smc, t: seq<uint32>)
    requires |s.mem| == ADDRESSES && e.ImageCopy? && e.id in s.images && !e.fromSecure && e.mapped && e.preLoadOk
    requires var d := s.images[e.id]; d.secure && d.phase == Reset && 0 < e.imageSize == e.blockSize <= d.maxSize
    requires GoodRange(e.src, e.blockSize) && s.images[e.id].base + e.imageSize <= ADDRESSES
    requires Separate(e.src, e.imageSize, s.images[e.id].base, e.imageSize) && AddId(s.table, e.id) == Some(t)
    requires CheckOverlaps(s.images[e.id := s.images[e.id].(size := e.imageSize)], s.table, e.id).Clear?
    ensures var d, n := s.images[e.id], e.imageSize;
      Step(s, e) == Done(Ok, SetImage(s, e.id, d.(size := n, copied := n, phase := Copied))
                             .(table := t, mem := Patch(s.mem, d.base, s.mem[e.src..e.src + n])))
  {
    var d, n := s.images[e.id], e.imageSize;
    var sized := d.(size := n, copied := 0);
    assert Step(s, e) == CopyBlock(SetImage(s, e.id, sized), e);
    BlockWhole(SetImage(s, e.id, sized), e, t);
    assert s.images[e.id := sized][e.id := sized.(copied := n, phase := Copied)]
        == s.images[e.id := sized.(copied := n, phase := Copied)];
  }

  lemma {:induction false} BlockWhole(s: State, e: Smc, t: seq<uint32>)
    requires |s.mem| == ADDRESSES && e.ImageCopy? && e.id in s.images && e.mapped && e.preLoadOk
    requires s.images[e.id].copied == 0 && s.images[e.id].size == e.blockSize && GoodRange(e.src, e.blockSize)
    requires s.images[e.id].base + e.blockSize <= ADDRESSES && AddId(s.table, e.id) == Some(t)
    requires Separate(e.src, e.blockSize, s.images[e.id].base, e.blockSize)
    ensures var d, n := s.images[e.id], e.blockSize;
      CopyBlock(s, e) == Done(Ok, SetImage(s, e.id, d.(copied := n, phase := Copied))
                                  .(table := t, mem := Patch(s.mem, d.base, s.mem[e.src..e.src + n])))
  {
    ListedWhole(s.(table := t), e);
  }

  lemma {:induction false} ListedWhole(s: State, e: Smc)
    requires |s.mem| == ADDRESSES && e.ImageCopy? && e.id in s.images && GoodRange(e.src, e.blockSize)
    requires s.images[e.id].copied == 0 && s.images[e.id].size == e.blockSize
    requires s.images[e.id].base + e.blockSize <= ADDRESSES
    requires Separate(e.src, e.blockSize, s.images[e.id].base, e.blockSize)
    ensures var d, n := s.images[e.id], e.blockSize;
      CopyListed(s, e) == Done(Ok, SetImage(s, e.id, d.(copied := n, phase := Copied))
                                   .(mem := Patch(s.mem, d.base, s.mem[e.src..e.src + n])))
  {
  }

  /** The overlap check passes and a slot is found, as long as no listed image is in the way. */
  lemma {:induction false} MayCopy(s: State, id: uint32, size: uint32, a: uint32)
    requires s.table == [a, INVALID_ID, INVALID_ID] && id in s.images && id != INVALID_ID && id != a && size > 0
    requires SlotOverlap(s.images[id := s.images[id].(size := size)], a, id).Clear?
    ensures CheckOverlaps(s.images[id := s.images[id].(size := size)], s.table, id).Clear?
    ensures AddId(s.table, id) == Some(if a == INVALID_ID then [id, INVALID_ID, INVALID_ID] else [a, id, INVALID_ID])
  {
    var i := INVALID_ID;
    Slots(a, i, i, i);
    CheckThree(s.images[id := s.images[id].(size := size)], a, i, i, id);
  }

  lemma {:induction false} CopyX()
    ensures Step(Stage(0), EVENTS[0]) == Done(Ok, Stage(1))
  {
    MayCopy(Stage(0), X, 10, INVALID_ID);
    CopyWhole(Stage(0), EVENTS[0], [X, INVALID_ID, INVALID_ID]);
    CopiedX();
  }

  lemma {:induction false} CopiedX()
    ensures var s, d := Stage(0), ImageX(Copied, 10, 10);
      SetImage(s, X, d).(table := [X, INVALID_ID, INVALID_ID], mem := Patch(s.mem, 100, s.mem[1000..1010])) == Stage(1)
  {
    ImageUpdates(ImageX(Reset, 0, 0), ImageY(Reset, 0), ImageZ(Reset, 0), ImageX(Copied, 10, 10));
    WriteAt100(ZEROS, 0, 0, SEVENS);
    assert Patch(ZEROS, 0, SEVENS) == SEVENS;
  }

  lemma {:induction false} RejectX()
    ensures Step(Stage(1), EVENTS[1]) == Done(EAuth, Stage(2))
  {
    var i := INVALID_ID;
    ImageUpdates(ImageX(Copied, 10, 10), ImageY(Reset, 0), ImageZ(Reset, 0), ImageX(Reset, 10, 10));
    Slots(X, i, i, X);
    WriteAt100(SEVENS, 0, 0, Zeros(10));
    assert Patch(SEVENS, 0, Zeros(10)) == ZEROS;
  }

  lemma {:induction false} CopyY()
    ensures Step(Stage(2), EVENTS[2]) == Done(Ok, Stage(3))
  {
    MayCopy(Stage(2), Y, 2, INVALID_ID);
    CopyWhole(Stage(2), EVENTS[2], [Y, INVALID_ID, INVALID_ID]);
    CopiedY();
  }

  lemma {:induction false} CopiedY()
    ensures var s, d := Stage(2), ImageY(Copied, 2);
      SetImage(s, Y, d).(table := [Y, INVALID_ID, INVALID_ID], mem := Patch(s.mem, 104, s.mem[1000..1002])) == Stage(3)
  {
    ImageUpdates(ImageX(Reset, 10, 10), ImageY(Reset, 0), ImageZ(Reset, 0), ImageY(Copied, 2));
    WriteAt100(ZEROS, 0, 4, [7, 7]);
    assert Patch(ZEROS, 4, [7, 7]) == Y_LOADED;
  }

  lemma {:induction false} AcceptY()
    ensures Step(Stage(3), EVENTS[3]) == Done(Ok, Stage(4))
  {
    ImageUpdates(ImageX(Reset, 10, 10), ImageY(Copied, 2), ImageZ(Reset, 0), ImageY(Authenticated, 2));
  }

  lemma {:induction false} CopyZ()
    ensures Step(Stage(4), EVENTS[4]) == Done(Ok, Stage(5))
  {
    MayCopy(Stage(4), Z, 2, Y);
    CopyWhole(Stage(4), EVENTS[4], [Y, Z, INVALID_ID]);
    CopiedZ();
  }

  lemma {:induction false} CopiedZ()
    ensures var s, d := Stage(4), ImageZ(Copied, 2);
      SetImage(s, Z, d).(table := [Y, Z, INVALID_ID], mem := Patch(s.mem, 200, s.mem[1000..1002])) == Stage(5)
  {
    ImageUpdates(ImageX(Reset, 10, 10), ImageY(Authenticated, 2), ImageZ(Reset, 0), ImageZ(Copied, 2));
    WriteAt100(Y_LOADED, 0, 0, []);
    assert Patch(Memory(Y_LOADED, 0), 200, [7, 7]) == Memory(Y_LOADED, 7);
  }

  lemma {:induction false} AcceptZ()
    ensures Step(Stage(5), EVENTS[5]) == Done(Ok, Stage(6))
  {
    ImageUpdates(ImageX(Reset, 10, 10), ImageY(Authenticated, 2), ImageZ(Copied, 2), ImageZ(Authenticated, 2));
    assert {Y} + {Z} == {Y, Z};
  }

  lemma {:induction false} ExecuteZ()
    ensures Step(Stage(6), EVENTS[6]) == Done(Ok, Stage(7))
  {
    ImageUpdates(ImageX(Reset, 10, 10), ImageY(Authenticated, 2), ImageZ(Authenticated, 2), ImageZ(Executed, 2));
  }

  lemma {:induction false} AuthenticateXInPlace()
    ensures Step(Stage(7), EVENTS[7]) == Done(Ok, Stage(8))
  {
    var y, z, sized := ImageY(Authenticated, 2), ImageZ(Executed, 2), ImageX(Reset, 10, 2);
    ImageUpdates(ImageX(Reset, 10, 10), y, z, sized);
    ImageUpdates(sized, y, z, ImageX(Authenticated, 10, 2));
    Slots(Y, Z, INVALID_ID, INVALID_ID);
    assert {Y, Z} + {X} == {X, Y, Z};
  }

  lemma {:induction false} HandBack()
    ensures Step(Stage(8), EVENTS[8]) == Done(Param(0), Stage(9))
  {
    ImageUpdates(ImageX(Authenticated, 10, 2), ImageY(Authenticated, 2), ImageZ(Executed, 2), ImageZ(Interrupted, 2));
  }

  lemma {:induction false} ResetX()
    ensures Step(Stage(9), EVENTS[9]) == Done(Ok, Stage(10))
  {
    Slots(Y, Z, X, X);
    ClearedX();
  }

  lemma {:induction false} ClearedX()
    ensures var s := Stage(9);
      SetImage(s, X, ImageX(Reset, 0, 0)).(table := [Y, Z, INVALID_ID], mem := Patch(s.mem, 100, Zeros(10)),
        authFlags := s.authFlags - {X}) == Stage(10)
  {
    ImageUpdates(ImageX(Authenticated, 10, 2), ImageY(Authenticated, 2), ImageZ(Interrupted, 2), ImageX(Reset, 0, 0));
    WriteAt100(Y_LOADED, 7, 0, Zeros(10));
    assert Patch(Y_LOADED, 0, Zeros(10)) == ZEROS;
    assert {X, Y, Z} - {X} == {Y, Z};
  }

  lemma {:induction false} StageStep(k: nat)
    requires k < 10
    ensures Step(Stage(k), EVENTS[k]).Done? && Step(Stage(k), EVENTS[k]).state == Stage(k + 1)
  {
    if k == 0 { CopyX(); }
    else if k == 1 { RejectX(); }
    else if k == 2 { CopyY(); }
    else if k == 3 { AcceptY(); }
    else if k == 4 { CopyZ(); }
    else if k == 5 { AcceptZ(); }
    else if k == 6 { ExecuteZ(); }
    else if k == 7 { AuthenticateXInPlace(); }
    else if k == 8 { HandBack(); }
    else { ResetX(); }
  }

  /** The secure world runs before events 7 and 8 only, and they are the only ones it makes. */
  lemma {:induction false} StagePlausible(k: nat)
    requires k < 10
    ensures Plausible(Stage(k), EVENTS[k])
  {
  }

  /** An authentication of another image, or any other step, leaves what was accepted for `id`. */
  lemma {:induction false} RecordKeeps(s: State, h: History, e: Smc, id: uint32)
    requires |s.mem| == ADDRESSES && id in h.accepted && !(e.ImageAuth? && e.id == id)
    ensures id in Record(s, h, e).accepted && Record(s, h, e).accepted[id] == h.accepted[id]
  {
  }

  lemma {:induction false} AcceptedForY(h: History)
    ensures var h' := Record(Stage(3), h, EVENTS[3]); Y in h'.accepted && h'.accepted[Y] == [7, 7]
  {
    AcceptY();
    assert Memory(Y_LOADED, 0)[104..106] == [7, 7];
  }

  /** The first `k` events lead to stage `k`. */
  lemma {:induction false} RunTo(k: nat)
    requires k <= 10
    ensures PlausibleRun(Stage(0), EVENTS[..k]) && Run(Stage(0), EVENTS[..k]).Some?
    ensures Run(Stage(0), EVENTS[..k]).value.0 == Stage(k)
  {
    if k > 0 {
      RunTo(k - 1);
      StageStep(k - 1);
      StagePlausible(k - 1);
      Prefix(k);
      OneMore(Stage(0), EVENTS[..k], Stage(k - 1));
    }
  }

  lemma {:induction false} Prefix(k: nat)
    requires 0 < k <= 10
    ensures var es := EVENTS[..k]; |es| == k && es[..k - 1] == EVENTS[..k - 1] && es[k - 1] == EVENTS[k - 1]
  {
  }

  lemma {:induction false} OneMore(s: State, es: seq<Smc>, t: State)
    requires |s.mem| == ADDRESSES && es != [] && var init := es[..|es| - 1];
      PlausibleRun(s, init) && Run(s, init).Some? && Run(s, init).value.0 == t
    requires |t.mem| == ADDRESSES && Step(t, es[|es| - 1]).Done? && Plausible(t, es[|es| - 1])
    ensures PlausibleRun(s, es) && Run(s, es).Some? && Run(s, es).value.0 == Step(t, es[|es| - 1]).state
    ensures Run(s, es).value.1 == Record(t, Run(s, es[..|es| - 1]).value.1, es[|es| - 1])
  {
  }

  lemma {:induction false} OneMoreAccepted(s: State, es: seq<Smc>, t: State, id: uint32)
    requires |s.mem| == ADDRESSES && es != [] && |t.mem| == ADDRESSES && var init := es[..|es| - 1];
      && Run(s, init).Some? && Run(s, init).value.0 == t && id in Run(s, init).value.1.accepted
    requires Step(t, es[|es| - 1]).Done? && !(es[|es| - 1].ImageAuth? && es[|es| - 1].id == id)
    ensures Run(s, es).Some? && id in Run(s, es).value.1.accepted
    ensures Run(s, es).value.1.accepted[id] == Run(s, es[..|es| - 1]).value.1.accepted[id]
  {
    RecordKeeps(t, Run(s, es[..|es| - 1]).value.1, es[|es| - 1], id);
  }

  lemma {:induction false} AcceptedFirst()
    ensures Run(Stage(0), EVENTS[..4]).Some?
    ensures var h := Run(Stage(0), EVENTS[..4]).value.1; Y in h.accepted && h.accepted[Y] == [7, 7]
  {
    RunTo(3);
    AcceptY();
    StagePlausible(3);
    Prefix(4);
    OneMore(Stage(0), EVENTS[..4], Stage(3));
    AcceptedForY(Run(Stage(0), EVENTS[..3]).value.1);
  }

  /** From the fourth event on, two sevens were accepted for `Y`. */
  lemma {:induction false} AcceptedTo(k: nat)
    requires 4 <= k <= 10
    ensures Run(Stage(0), EVENTS[..k]).Some?
    ensures var h := Run(Stage(0), EVENTS[..k]).value.1; Y in h.accepted && h.accepted[Y] == [7, 7]
  {
    if k == 4 {
      AcceptedFirst();
    } else {
      AcceptedTo(k - 1);
      RunTo(k - 1);
      StageStep(k - 1);
      Prefix(k);
      OneMoreAccepted(Stage(0), EVENTS[..k], Stage(k - 1), Y);
    }
  }

  lemma {:induction false} ExecuteY(t: State)
    requires t == Stage(10)
    ensures var o := Step(t, ImageExecute(Y, false));
      Plausible(t, ImageExecute(Y, false)) && o.Done? && o.code == Ok && o.state.mem[104..106] == [0, 0]
  {
    assert Memory(ZEROS, 7)[104..106] == [0, 0];
  }

  lemma {:induction false} StartIsBoot()
    ensures Boot(Stage(0))
  {
  }

  lemma {:induction false} OneSecureAuth(i: nat)
    requires i < |EVENTS| && EVENTS[i].ImageAuth? && EVENTS[i].fromSecure
    ensures i == 7
  {
  }

  /** The run reaches stage 10 with two sevens accepted for `Y`. */
  lemma {:induction false} WholeRun()
    ensures PlausibleRun(Stage(0), EVENTS) && Run(Stage(0), EVENTS).Some?
    ensures var (t, h) := Run(Stage(0), EVENTS).value; t == Stage(10) && Y in h.accepted && h.accepted[Y] == [7, 7]
  {
    RunTo(10);
    AcceptedTo(10);
    assert EVENTS[..10] == EVENTS;
  }

  /**
   A run each of whose calls comes from the world that runs, with one IMAGE_AUTH
   of a secure image from the secure world: afterwards `Y` is executed with other
   bytes than were accepted for it.
   */
  lemma {:induction false} SecureAuthBreaksTheGuarantee() returns (s: State)
    ensures Boot(s) && PlausibleRun(s, EVENTS) && Run(s, EVENTS).Some?
    ensures forall i :: 0 <= i < |EVENTS| && EVENTS[i].ImageAuth? && EVENTS[i].fromSecure ==> i == 7
    ensures var (t, h) := Run(s, EVENTS).value;
      var o := Step(t, ImageExecute(Y, false));
      && Plausible(t, ImageExecute(Y, false)) && o.Done? && o.code == Ok && Y in h.accepted
      && o.state.mem[104..106] == [0, 0] && h.accepted[Y] == [7, 7]
  {
    s := Stage(0);
    StartIsBoot();
    WholeRun();
    ExecuteY(Run(s, EVENTS).value.0);
    forall i | 0 <= i < |EVENTS| && EVENTS[i].ImageAuth? && EVENTS[i].fromSecure ensures i == 7 {
      OneSecureAuth(i);
    }
  }
}
