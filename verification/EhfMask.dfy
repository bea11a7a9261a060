/**
 What a caller of the exception priority framework can rely on: when a call
 panics, what the interrupt mask is while levels are active, and which calls undo
 each other.
 */
module EhfMask {
  import opened Bytes
  import opened Options
  import opened Bits
  import opened Ehf

  /** A level is a stretch of `2^(7 - priBits)` neighbouring priorities. */
  lemma {:induction false} LevelOfPriority(p: Platform, priority: uint32)
    requires p.Good()
    ensures var idx, width := PriToIdx(p, priority), Pow2(7 - p.priBits);
      width > 0 && idx * width <= priority % 0x80 < (idx + 1) * width
  {
    var width := Pow2(7 - p.priBits);
    ShrIsDiv(priority % 0x80, 7 - p.priBits);
    RoundDown(priority % 0x80, width);
    assert (PriToIdx(p, priority) + 1) * width == PriToIdx(p, priority) * width + width;
  }

  /** The lowest set bit, without counting zeros. */
  ghost predicate Lowest(x: nat, i: nat) {
    Bit(x, i) && forall j: nat :: Bit(x, j) ==> i <= j
  }

  lemma {:induction false} BitNotBelow(x: nat, i: nat)
    requires x > 0
    ensures Bit(x, i) ==> Ctz(x) <= i
    ensures Bit(x, Ctz(x))
  {
    if x % 2 == 0 {
      BitNotBelow(x / 2, if i == 0 then 0 else i - 1);
    }
  }

  lemma {:induction false} LowestIsCtz(x: nat, i: nat)
    requires x > 0
    ensures Lowest(x, i) <==> i == Ctz(x)
  {
    BitNotBelow(x, i);
    forall j: nat ensures Bit(x, j) ==> Ctz(x) <= j {
      BitNotBelow(x, j);
    }
  }

  /** Level `i` is above every set bit: a lower level is a higher priority. */
  ghost predicate AboveAll(x: nat, i: nat) {
    forall j: nat :: Bit(x, j) ==> i < j
  }

  lemma {:induction false} AboveAllIsCtz(x: nat, i: nat)
    ensures AboveAll(x, i) <==> x == 0 || i < Ctz(x)
  {
    if x == 0 {
      forall j: nat ensures !Bit(x, j) {
        ZeroHasNoBit(j);
      }
    } else {
      forall j: nat ensures Bit(x, j) ==> Ctz(x) <= j {
        BitNotBelow(x, j);
      }
      BitNotBelow(x, Ctz(x));
      assert AboveAll(x, i) ==> i < Ctz(x);
    }
  }

  /**
   An activation goes through exactly if its level is registered and lies above
   everything there is: the running priority, every active level and the mask.
   */
  lemma {:induction false} ActivationAllowed(p: Platform, s: Pe, priority: uint32, running: uint32)
    requires p.Good()
    ensures Step(p, s, Activate(priority, running)).Some? <==>
      && PriToIdx(p, priority) in p.valid
      && priority < running && priority < s.pmr && AboveAll(s.bits, PriToIdx(p, priority))
  {
    AboveAllIsCtz(s.bits, PriToIdx(p, priority));
  }

  /** A deactivation goes through exactly if it names the highest active level and the mask is not below it. */
  lemma {:induction false} DeactivationAllowed(p: Platform, s: Pe, priority: uint32, running: uint32)
    requires p.Good()
    ensures Step(p, s, Deactivate(priority, running)).Some? <==>
      && PriToIdx(p, priority) in p.valid
      && s.pmr <= priority < running && Lowest(s.bits, PriToIdx(p, priority))
  {
    if s.bits == 0 {
      ZeroHasNoBit(PriToIdx(p, priority));
    } else {
      LowestIsCtz(s.bits, PriToIdx(p, priority));
    }
  }

  lemma {:induction false} PushPop(x: nat, i: nat)
    requires x > 0 ==> i < Ctz(x)
    ensures var y := Or(x, Pow2(i)); y > 0 && Ctz(y) == i && And(y, y - 1) == x
  {
    SetBelow(x, i);
    ClearLowest(x + Pow2(i));
  }

  /** The state once an activation was undone. */
  function Undone(p: Platform, s: Pe, priority: uint32, running: uint32): Option<Pe>
    requires p.Good()
  {
    match Step(p, s, Activate(priority, running))
    case None => None
    case Some(t) => Step(p, t, Deactivate(priority, running))
  }

  /**
   An activation can always be undone. That gives the levels back; the mask it
   gives back exactly if no level was active before, as it stays at the level that
   was left otherwise, and not at the next one as the comment has it.
   */
  lemma {:induction false} ActivationUndone(p: Platform, s: Pe, priority: uint32, running: uint32)
    requires p.Good() && Step(p, s, Activate(priority, running)).Some?
    ensures Undone(p, s, priority, running).Some?
    ensures var u := Undone(p, s, priority, running).value;
      && u.bits == s.bits && u.nsMask == s.nsMask
      && (u.pmr == s.pmr <==> s.bits == 0) && (s.bits != 0 ==> u.pmr == priority && u.initMask == s.initMask)
  {
    PushPop(s.bits, PriToIdx(p, priority));
  }

  /** And so the same level can be activated again exactly if none was active before; else that panics. */
  lemma {:induction false} Reactivation(p: Platform, s: Pe, priority: uint32, running: uint32)
    requires p.Good() && Step(p, s, Activate(priority, running)).Some?
    ensures Undone(p, s, priority, running).Some?
    ensures Step(p, Undone(p, s, priority, running).value, Activate(priority, running)).Some? <==> s.bits == 0
  {
    ActivationUndone(p, s, priority, running);
  }

  /** Four calls that panic, though each deactivation matches its activation. */
  lemma {:induction false} NestedTwicePanics() returns (p: Platform, es: seq<Event>)
    ensures p.Good() && |es| == 4 && es[1] == es[3]
    ensures Run(p, Pe(0, 0, 0, 0xF0), es[..3]).Some? && Run(p, Pe(0, 0, 0, 0xF0), es) == None
  {
    p := Platform(3, {1, 2});
    var outer, inner, done := Activate(0x20, 0xFF), Activate(0x10, 0xFF), Deactivate(0x10, 0xFF);
    es := [outer, inner, done, inner];
    var s := Pe(0, 0, 0, 0xF0);
    Levels12(p);
    SetBelow(0, 2);
    var t := Pe(4, 0xF0, 0, 0x20);
    assert Step(p, s, outer) == Some(t);
    Reactivation(p, t, 0x10, 0xFF);
    var u, v := Step(p, t, inner).value, Undone(p, t, 0x10, 0xFF).value;
    assert es[1..] == [inner, done, inner] && es[1..][1..] == [done, inner] && es[1..][1..][1..] == [inner];
    assert es[..3][1..] == [inner, done] && es[..3][1..][1..] == [done];
    assert Run(p, v, [inner]) == None;
    assert Run(p, u, [done, inner]) == None && Run(p, u, [done]) == Some(v);
    assert Run(p, t, [inner, done, inner]) == None && Run(p, t, [inner, done]) == Some(v);
  }

  lemma {:induction false} Levels12(p: Platform)
    requires p.priBits == 3 && p.Good()
    ensures PriToIdx(p, 0x20) == 2 && PriToIdx(p, 0x10) == 1 && Pow2(2) == 4
  {
    assert Pow2(2) == 4 && Pow2(4) == 4 * Pow2(2);
    ShrIsDiv(0x20, 4);
    ShrIsDiv(0x10, 4);
  }

  /** No level active, nothing stashed, and the mask outside the secure range. */
  predicate Settled(s: Pe) {
    s.bits == 0 && s.nsMask == 0 && s.pmr >= 0x80
  }

  /** Leaving the normal world masks its interrupts, and panics exactly if there already is a stash or a secure mask. */
  lemma {:induction false} LeavingMasks(p: Platform, s: Pe, running: uint32)
    requires p.Good()
    ensures var r := Step(p, s, ExitedNormalWorld(running));
      if Secure(running) || s.bits != 0 then r == Some(s)
      else (r.Some? <==> Settled(s)) && (r.Some? ==> r.value == Pe(0, s.initMask, s.pmr, 0x80))
  {
  }

  /**
   Returning puts a stashed mask in force and drops it, and panics exactly if the
   mask is neither that one nor the one set on leaving; allowing preemption does the
   same, and panics exactly without a stash or with a level active.
   */
  lemma {:induction false} ReturningRestores(p: Platform, s: Pe, running: uint32)
    requires p.Good()
    ensures var r, restored := Step(p, s, EnteringNormalWorld(running)), Pe(s.bits, s.initMask, 0, s.nsMask);
      if Secure(running) || s.bits != 0 || s.nsMask == 0 then r == Some(s)
      else r == if s.pmr == 0x80 || s.pmr == s.nsMask then Some(restored) else None
    ensures Step(p, s, AllowNsPreemption) ==
      if s.nsMask == 0 || s.bits != 0 then None else Some(Pe(0, s.initMask, 0, s.nsMask))
  {
  }

  /** A running priority is secure if bit 7 of it is clear. */
  lemma {:induction false} SecureRange(running: uint32)
    requires running < 0x100
    ensures Secure(running) <==> running < 0x80
  {
  }

  /**
   From leaving the normal world on, whatever is called: returning never panics,
   preemption can be allowed exactly if no level is active and it was not allowed
   yet, and that puts the mask of the normal world in force.
   */
  lemma {:induction false} CrossingsSucceed(p: Platform, s: Pe, leaving: uint32, es: seq<Event>, returning: uint32)
    requires p.Good() && Settled(s) && !Secure(leaving)
    requires Run(p, DoExited(s, leaving).value, es).Some?
    ensures var t := Run(p, DoExited(s, leaving).value, es).value;
      && Step(p, t, EnteringNormalWorld(returning)).Some?
      && (Secure(returning) || t.bits != 0 ==> Step(p, t, EnteringNormalWorld(returning)).value == t)
      && (Step(p, t, AllowNsPreemption).Some? <==> t.nsMask != 0 && t.bits == 0)
      && (t.nsMask == 0 || t.nsMask == s.pmr)
      && (t.nsMask != 0 && t.bits == 0 ==> t.pmr == 0x80 && Step(p, t, AllowNsPreemption).value.pmr == s.pmr)
  {
    RunKeepsStash(p, DoExited(s, leaving).value, es, s.pmr);
  }
}
