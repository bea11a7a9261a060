/**
 The assertions of the overlap check: when exactly they fail, and two short runs
 of the normal world in which they do.
 */
module FwuAsserts {
  import opened Bytes
  import opened Options
  import opened Fwu
  import opened FwuSafety

  /** A listed image on which an assertion of the check fails: not loaded, of one byte, or past the last address. */
  predicate BadSlot(images: map<uint32, Image>, slot: uint32, id: uint32) {
    && slot != INVALID_ID && slot != id && slot in images
    && var d := images[slot];
       d.phase == Reset || d.size == 1 || d.base + d.size > ADDRESSES
  }

  /** A slot the check passes over: free, the image's own, empty or apart. */
  predicate Passed(images: map<uint32, Image>, slot: uint32, id: uint32)
    requires id in images
  {
    || slot == INVALID_ID || slot == id
    || (&& slot in images && !BadSlot(images, slot, id)
        && var a, b := images[slot], images[id];
           a.size == 0 || Separate(a.base, a.size, b.base, b.size))
  }

  lemma {:induction false} SlotVerdict(images: map<uint32, Image>, slot: uint32, id: uint32)
    requires id in images && images[id].size > 0 && images[id].base + images[id].size <= ADDRESSES
    requires slot == INVALID_ID || slot in images
    ensures SlotOverlap(images, slot, id).AssertFails? <==> BadSlot(images, slot, id)
    ensures SlotOverlap(images, slot, id).Clear? <==> Passed(images, slot, id)
  {
  }

  /** Slot `i` is bad and the check gets there. */
  ghost predicate FailsAt(images: map<uint32, Image>, t: seq<uint32>, id: uint32, i: nat)
    requires id in images
  {
    i < |t| && BadSlot(images, t[i], id) && forall j :: 0 <= j < i ==> Passed(images, t[j], id)
  }

  lemma {:induction false} CheckVerdict(images: map<uint32, Image>, t: seq<uint32>, id: uint32)
    requires id in images && images[id].size > 0 && images[id].base + images[id].size <= ADDRESSES
    requires forall b :: b in t ==> b == INVALID_ID || b in images
    ensures CheckOverlaps(images, t, id).AssertFails? <==> exists i: nat :: FailsAt(images, t, id, i)
  {
    if t != [] {
      SlotVerdict(images, t[0], id);
      CheckVerdict(images, t[1..], id);
      if BadSlot(images, t[0], id) {
        assert FailsAt(images, t, id, 0);
      }
      if i: nat :| FailsAt(images, t[1..], id, i) && Passed(images, t[0], id) {
        FailsLater(images, t, id, i);
      }
      if i: nat :| FailsAt(images, t, id, i) && i > 0 {
        assert Passed(images, t[0], id);
        FailsEarlier(images, t, id, i);
      }
    }
  }

  lemma {:induction false} FailsLater(images: map<uint32, Image>, t: seq<uint32>, id: uint32, i: nat)
    requires id in images && t != [] && FailsAt(images, t[1..], id, i) && Passed(images, t[0], id)
    ensures FailsAt(images, t, id, i + 1)
  {
    forall j | 0 <= j < i + 1 ensures Passed(images, t[j], id) {
      assert j > 0 ==> t[j] == t[1..][j - 1];
    }
  }

  lemma {:induction false} FailsEarlier(images: map<uint32, Image>, t: seq<uint32>, id: uint32, i: nat)
    requires id in images && FailsAt(images, t, id, i) && i > 0
    ensures FailsAt(images, t[1..], id, i - 1)
  {
    forall j | 0 <= j < i - 1 ensures Passed(images, t[1..][j], id) {
      assert t[1..][j] == t[j + 1];
    }
  }

  /** The copy gets as far as the overlap check. */
  predicate ChecksOverlaps(t: State, e: Smc) {
    && e.ImageCopy? && e.id in t.images && !e.fromSecure && t.images[e.id].secure && t.images[e.id].phase == Reset
    && GoodRange(e.src, e.blockSize) && 0 < e.imageSize <= t.images[e.id].maxSize
  }

  /**
   In every allowed run, an assertion of IMAGE_COPY's overlap check fails, and
   BL1 halts, exactly when the check comes to a listed image that is in RESET, has
   one byte or wraps. That a listed id has a descriptor always holds.
   */
  lemma {:induction false} OverlapCheckHalts(s: State, es: seq<Smc>, e: Smc)
    requires Boot(s) && AllowedRun(s, es) && Run(s, es).Some? && ChecksOverlaps(Run(s, es).value.0, e)
    ensures var t := Run(s, es).value.0;
      var sized := t.images[e.id := t.images[e.id].(size := e.imageSize)];
      && (CheckOverlaps(sized, t.table, e.id).AssertFails? <==> exists i: nat :: FailsAt(sized, t.table, e.id, i))
      && (CheckOverlaps(sized, t.table, e.id).AssertFails? ==> Step(t, e).Halt?)
      && (forall b :: b in t.table ==> b == INVALID_ID || b in t.images)
  {
    RunKeepsInv(s, es);
    var (t, h) := Run(s, es).value;
    assert Local(t, h, e.id);
    CheckVerdict(t.images[e.id := t.images[e.id].(size := e.imageSize)], t.table, e.id);
  }

  /** Two secure images in RESET and one table slot. */
  const X: uint32 := 1
  const Y: uint32 := 2
  const IMAGE_X: Image := Image(true, true, 100, 10, Reset, 0, 0)
  const IMAGE_Y: Image := Image(true, true, 200, 10, Reset, 0, 0)

  ghost function Start(): (s: State)
    ensures Boot(s)
  {
    State(map[X := IMAGE_X, Y := IMAGE_Y], [INVALID_ID], INVALID_ID, {}, Zeros(ADDRESSES))
  }

  lemma {:induction false} RunOne(s: State, e: Smc)
    requires Boot(s) && Step(s, e).Done? && Allowed(s, e)
    ensures Run(s, [e]).Some? && Run(s, [e]).value.0 == Step(s, e).state && AllowedRun(s, [e])
  {
    assert [e][..0] == [];
  }

  /** Copying `X` into the empty table gets as far as the copy itself. */
  lemma {:induction false} FirstCopy(e: Smc)
    requires e.ImageCopy? && e.id == X && !e.fromSecure && 0 < e.imageSize <= 10 && GoodRange(e.src, e.blockSize)
    ensures Step(Start(), e) == CopyBlock(SetImage(Start(), X, IMAGE_X.(size := e.imageSize)), e)
    ensures AddId([INVALID_ID], X) == Some([X])
  {
    var sized := SetImage(Start(), X, IMAGE_X.(size := e.imageSize));
    assert [INVALID_ID][1..] == [];
    assert CheckOverlaps(sized.images, [INVALID_ID], X).Clear?;
    assert [INVALID_ID][0 := X] == [X];
  }

  /** Copying `Y` meets `X` in the table. */
  lemma {:induction false} SecondCopy(t: State, e: Smc)
    requires |t.mem| == ADDRESSES && t.table == [X] && X in t.images && Y in t.images && t.images[Y] == IMAGE_Y
    requires e.ImageCopy? && e.id == Y && !e.fromSecure && 0 < e.imageSize <= 10 && GoodRange(e.src, e.blockSize)
    requires t.images[X].phase == Reset || t.images[X].size == 1
    ensures Step(t, e).Halt?
  {
    var sized := t.images[Y := IMAGE_Y.(size := e.imageSize)];
    SlotVerdict(sized, X, Y);
    assert CheckOverlaps(sized, [X], Y).AssertFails?;
  }

  /** A copy that the pre-load hook refuses keeps its slot; the next copy of another image halts BL1. */
  lemma {:induction false} LeakedSlotHalts() returns (s: State, e: Smc, next: Smc)
    ensures e.ImageCopy? && !e.fromSecure && next.ImageCopy? && !next.fromSecure
    ensures Boot(s) && AllowedRun(s, [e]) && Run(s, [e]).Some? && !e.preLoadOk
    ensures Step(s, e).Done? && Step(s, e).code == EPerm
    ensures Step(Run(s, [e]).value.0, next).Halt?
  {
    s, e, next := Start(), ImageCopy(X, 1000, 2, 2, false, true, false), ImageCopy(Y, 1000, 2, 2, false, true, true);
    FirstCopy(e);
    RunOne(s, e);
    SecondCopy(Step(s, e).state, next);
  }

  /** So does the next copy after that of a one-byte image. */
  lemma {:induction false} OneByteImageHalts() returns (s: State, e: Smc, next: Smc)
    ensures e.ImageCopy? && !e.fromSecure && next.ImageCopy? && !next.fromSecure
    ensures Boot(s) && AllowedRun(s, [e]) && Run(s, [e]).Some? && e.imageSize == 1
    ensures Step(s, e).Done? && Step(s, e).code == Ok
    ensures Step(Run(s, [e]).value.0, next).Halt?
  {
    s, e, next := Start(), ImageCopy(X, 1000, 1, 1, false, true, true), ImageCopy(Y, 1000, 2, 2, false, true, true);
    FirstCopy(e);
    RunOne(s, e);
    SecondCopy(Step(s, e).state, next);
  }
}
