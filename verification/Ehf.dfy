/**
 EL3 exception priorities: a stack of active priority levels kept as a 32-bit
 bitmap, and the interrupt priority mask saved and restored around it.
 */
module Ehf {
  import opened Bytes
  import opened Options
  import opened Bits

  /** Highest non-secure priority (`GIC_HIGHEST_NS_PRIORITY`). */
  const HIGHEST_NS: uint8 := 0x80
  const LEVELS: nat := 32

  /** Priority bits and registered levels of the platform, as `ehf_init` expects them. */
  datatype Platform = Platform(priBits: nat, valid: set<nat>) {
    predicate Good() {
      1 <= priBits <= 7 && forall i :: i in valid ==> i < LEVELS
    }
  }

  /** Per-CPU data, and the CPU's priority mask register. */
  datatype Pe = Pe(bits: nat, initMask: uint8, nsMask: uint8, pmr: uint8)

  /** One call, with the running priority the interrupt controller reports. */
  datatype Event =
    | Activate(priority: uint32, running: uint32)
    | Deactivate(priority: uint32, running: uint32)
    | ExitedNormalWorld(running: uint32)
    | EnteringNormalWorld(running: uint32)
    | AllowNsPreemption

  /** `__builtin_ctz`. */
  function Ctz(x: nat): nat
    requires x > 0
  {
    if x % 2 == 1 then 0 else 1 + Ctz(x / 2)
  }

  function PriToIdx(p: Platform, priority: uint32): nat
    requires p.Good()
  {
    Shr(priority % 0x80, 7 - p.priBits)
  }

  predicate Secure(priority: uint32) {
    priority / 0x80 % 2 == 0
  }

  function DoActivate(p: Platform, s: Pe, priority: uint32, running: uint32): Option<Pe>
    requires p.Good()
  {
    var idx := PriToIdx(p, priority);
    if priority >= running || idx !in p.valid then None
    else if s.bits != 0 && idx >= Ctz(s.bits) then None
    else if priority >= s.pmr then None
    else Some(s.(bits := Or(s.bits, Pow2(idx)), pmr := priority,
                 initMask := if s.bits == 0 then s.pmr else s.initMask))
  }

  function DoDeactivate(p: Platform, s: Pe, priority: uint32, running: uint32): Option<Pe>
    requires p.Good()
  {
    var idx := PriToIdx(p, priority);
    if priority >= running || idx !in p.valid then None
    else if s.bits == 0 || idx != Ctz(s.bits) then None
    else if s.pmr > priority then None
    else
      var bits := And(s.bits, s.bits - 1);
      Some(s.(bits := bits, pmr := if bits == 0 then s.initMask else priority % 0x100))
  }

  function DoExited(s: Pe, running: uint32): Option<Pe> {
    if Secure(running) || s.bits != 0 then Some(s)
    else if s.nsMask != 0 || Secure(s.pmr) then None
    else Some(s.(nsMask := s.pmr, pmr := HIGHEST_NS))
  }

  function DoEntering(s: Pe, running: uint32): Option<Pe> {
    if Secure(running) || s.bits != 0 || s.nsMask == 0 then Some(s)
    else if s.pmr != HIGHEST_NS && s.pmr != s.nsMask then None
    else Some(s.(pmr := s.nsMask, nsMask := 0))
  }

  function DoAllow(s: Pe): Option<Pe> {
    if s.nsMask == 0 || s.bits != 0 then None
    else Some(s.(pmr := s.nsMask, nsMask := 0))
  }

  /** `None` is a panic or a failed assertion. */
  function Step(p: Platform, s: Pe, e: Event): Option<Pe>
    requires p.Good()
  {
    match e
    case Activate(priority, running) => DoActivate(p, s, priority, running)
    case Deactivate(priority, running) => DoDeactivate(p, s, priority, running)
    case ExitedNormalWorld(running) => DoExited(s, running)
    case EnteringNormalWorld(running) => DoEntering(s, running)
    case AllowNsPreemption => DoAllow(s)
  }

  function Run(p: Platform, s: Pe, es: seq<Event>): Option<Pe>
    requires p.Good()
    decreases |es|
  {
    if es == [] then Some(s)
    else
      match Step(p, s, es[0])
      case None => None
      case Some(t) => Run(p, t, es[1..])
  }

  /** `x & (x - 1)` removes exactly the lowest set bit. */
  lemma {:induction false} ClearLowest(x: nat)
    requires x > 0
    ensures And(x, x - 1) == x - Pow2(Ctz(x))
  {
    AndPredecessor(x);
    if x % 2 == 0 {
      ClearLowest(x / 2);
    }
  }

  /** Setting a bit below the lowest one makes it the lowest. */
  lemma {:induction false} SetBelow(x: nat, i: nat)
    requires x > 0 ==> i < Ctz(x)
    ensures Or(x, Pow2(i)) == x + Pow2(i) && Ctz(x + Pow2(i)) == i
    decreases i
  {
    if i == 0 {
      OrOne(x);
    } else if x == 0 {
      SetBelow(0, i - 1);
      assert Pow2(i) / 2 == Pow2(i - 1);
    } else {
      SetBelow(x / 2, i - 1);
      assert Or(x, Pow2(i)) == 2 * Or(x / 2, Pow2(i - 1)) by {
        OrEven(x / 2, Pow2(i - 1));
      }
      assert (x + Pow2(i)) / 2 == x / 2 + Pow2(i - 1);
    }
  }

  lemma {:induction false} OrOne(x: nat)
    requires x % 2 == 0
    ensures Or(x, 1) == x + 1
  {
    assert Or(x / 2, 0) == x / 2;
  }

  lemma {:induction false} OrEven(h: nat, g: nat)
    ensures Or(2 * h, 2 * g) == 2 * Or(h, g)
  {
  }

  /** The bitmap `x` holds the levels of the stack `st`, most recent first. */
  ghost predicate Holds(x: nat, st: seq<nat>) {
    if st == [] then x == 0
    else x > 0 && Ctz(x) == st[0] && Holds(And(x, x - 1), st[1..])
  }

  lemma {:induction false} Push(x: nat, st: seq<nat>, i: nat)
    requires Holds(x, st) && (x > 0 ==> i < Ctz(x))
    ensures Or(x, Pow2(i)) > 0 && Holds(Or(x, Pow2(i)), [i] + st)
  {
    SetBelow(x, i);
    ClearLowest(x + Pow2(i));
    assert ([i] + st)[1..] == st;
  }

  /** Bit `i` of `x`. */
  predicate Bit(x: nat, i: nat) {
    if i == 0 then x % 2 == 1 else Bit(x / 2, i - 1)
  }

  lemma {:induction false} BitAfterClear(x: nat, i: nat)
    requires x > 0
    ensures Bit(x, i) <==> i == Ctz(x) || Bit(And(x, x - 1), i)
    ensures And(x, x - 1) > 0 ==> Ctz(x) < Ctz(And(x, x - 1))
    decreases i + x
  {
    AndPredecessor(x);
    if x % 2 == 0 {
      BitAfterClear(x / 2, if i == 0 then 0 else i - 1);
    } else if x > 1 && i > 0 {
      assert (x - 1) / 2 == x / 2;
    }
  }

  /** The set bits are exactly the levels on the stack, and these strictly increase from the top. */
  lemma {:induction false} BitsAreLevels(x: nat, st: seq<nat>, i: nat)
    requires Holds(x, st)
    ensures Bit(x, i) <==> i in st
    ensures forall j, k :: 0 <= j < k < |st| ==> st[j] < st[k]
    decreases |st|
  {
    if st != [] {
      BitAfterClear(x, i);
      BitsAreLevels(And(x, x - 1), st[1..], i);
      if |st| > 1 {
        assert st[1..][0] == st[1];
        BitAfterClear(x, 0);
      }
      assert st == [st[0]] + st[1..];
    } else {
      ZeroHasNoBit(i);
    }
  }

  lemma {:induction false} ZeroHasNoBit(i: nat)
    ensures !Bit(0, i)
  {
    if i > 0 {
      ZeroHasNoBit(i - 1);
    }
  }

  /** What one call does to a stack of levels. */
  function After(p: Platform, e: Event, st: seq<nat>): seq<nat>
    requires p.Good()
  {
    match e
    case Activate(priority, _) => [PriToIdx(p, priority)] + st
    case Deactivate(_, _) => if st == [] then [] else st[1..]
    case _ => st
  }

  /** The stack of levels the calls describe, without looking at any bitmap. */
  function Levels(p: Platform, es: seq<Event>, st: seq<nat>): seq<nat>
    requires p.Good()
    decreases |es|
  {
    if es == [] then st else Levels(p, es[1..], After(p, es[0], st))
  }

  /** A deactivation names the level on top. */
  lemma {:induction false} StepHolds(p: Platform, s: Pe, e: Event, st: seq<nat>)
    requires p.Good() && Holds(s.bits, st) && Step(p, s, e).Some?
    ensures e.Deactivate? ==> st != [] && st[0] == PriToIdx(p, e.priority)
    ensures Holds(Step(p, s, e).value.bits, After(p, e, st))
  {
    if e.Activate? {
      Push(s.bits, st, PriToIdx(p, e.priority));
    }
  }

  lemma {:induction false} RunHolds(p: Platform, s: Pe, es: seq<Event>, st: seq<nat>)
    requires p.Good() && Holds(s.bits, st) && Run(p, s, es).Some?
    ensures Holds(Run(p, s, es).value.bits, Levels(p, es, st))
    decreases |es|
  {
    if es != [] {
      StepHolds(p, s, es[0], st);
      RunHolds(p, Step(p, s, es[0]).value, es[1..], After(p, es[0], st));
    }
  }

  /**
   In every run that does not panic, the bitmap is exactly the stack of levels
   activated and not yet deactivated: the same set, strictly increasing from the
   top, and its lowest set bit is the latest activation.
   */
  lemma {:induction false} BitmapIsStack(p: Platform, s: Pe, es: seq<Event>, i: nat)
    requires p.Good() && s.bits == 0 && Run(p, s, es).Some?
    ensures var x, st := Run(p, s, es).value.bits, Levels(p, es, []);
      && (Bit(x, i) <==> i in st)
      && (forall j, k :: 0 <= j < k < |st| ==> st[j] < st[k])
      && (x == 0 <==> st == []) && (x > 0 ==> Ctz(x) == st[0])
  {
    RunHolds(p, s, es, []);
    BitsAreLevels(Run(p, s, es).value.bits, Levels(p, es, []), i);
  }

  /** The mask the CPU has, or will have back, with no level active. */
  function BaseMask(s: Pe): uint8 {
    if s.bits == 0 then s.pmr else s.initMask
  }

  lemma {:induction false} ActivateKeepsBase(p: Platform, s: Pe, e: Event)
    requires p.Good() && Step(p, s, e).Some? && (e.Activate? || e.Deactivate? || s.bits != 0)
    ensures BaseMask(Step(p, s, e).value) == BaseMask(s) && Step(p, s, e).value.nsMask == s.nsMask
  {
  }

  /** The state a run is in before its event `k`. */
  function StateAt(p: Platform, s: Pe, es: seq<Event>, k: nat): Pe
    requires p.Good() && Run(p, s, es).Some? && k <= |es|
    decreases |es|
  {
    if k == 0 then s else StateAt(p, Step(p, s, es[0]).value, es[1..], k - 1)
  }

  lemma {:induction false} StateAtEnd(p: Platform, s: Pe, es: seq<Event>)
    requires p.Good() && Run(p, s, es).Some?
    ensures StateAt(p, s, es, |es|) == Run(p, s, es).value
    decreases |es|
  {
    if es != [] {
      StateAtEnd(p, Step(p, s, es[0]).value, es[1..]);
    }
  }

  /** While levels stay active, whatever is called, the mask to come back is kept. */
  lemma {:induction false} BaseKept(p: Platform, s: Pe, es: seq<Event>, j: nat)
    requires p.Good() && Run(p, s, es).Some? && j <= |es|
    requires forall k :: 0 <= k < j ==> StateAt(p, s, es, k).bits != 0
    ensures BaseMask(StateAt(p, s, es, j)) == BaseMask(s)
    decreases |es|
  {
    if j > 0 {
      var t := Step(p, s, es[0]).value;
      assert StateAt(p, s, es, 0).bits != 0;
      ActivateKeepsBase(p, s, es[0]);
      forall k | 0 <= k < j - 1 ensures StateAt(p, t, es[1..], k).bits != 0 {
        assert StateAt(p, s, es, k + 1).bits != 0;
      }
      BaseKept(p, t, es[1..], j - 1);
    }
  }

  /** Event `i` activates a level while none is active, and before event `j` none is for the first time since. */
  predicate Episode(p: Platform, s: Pe, es: seq<Event>, i: nat, j: nat)
    requires p.Good() && Run(p, s, es).Some?
  {
    && i < j <= |es| && es[i].Activate?
    && StateAt(p, s, es, i).bits == 0 && StateAt(p, s, es, j).bits == 0
    && forall k :: i < k < j ==> StateAt(p, s, es, k).bits != 0
  }

  /**
   In every run, from an activation with no level active to the next moment when
   none is, whatever is called in between: the mask is again what it was just
   before that activation.
   */
  lemma {:induction false} MaskRestored(p: Platform, s: Pe, es: seq<Event>, i: nat, j: nat)
    requires p.Good() && Run(p, s, es).Some? && Episode(p, s, es, i, j)
    ensures StateAt(p, s, es, j).pmr == StateAt(p, s, es, i).pmr
    decreases |es|
  {
    var t := Step(p, s, es[0]).value;
    EpisodeTail(p, s, es, i, j);
    if i > 0 {
      MaskRestored(p, t, es[1..], i - 1, j - 1);
    } else {
      ActivateKeepsBase(p, s, es[0]);
      BaseKept(p, t, es[1..], j - 1);
    }
  }

  lemma {:induction false} EpisodeTail(p: Platform, s: Pe, es: seq<Event>, i: nat, j: nat)
    requires p.Good() && Run(p, s, es).Some? && i < j <= |es|
    requires forall k :: i < k < j ==> StateAt(p, s, es, k).bits != 0
    ensures forall k :: i <= k < j - 1 ==> StateAt(p, Step(p, s, es[0]).value, es[1..], k).bits != 0
  {
    forall k | i <= k < j - 1 ensures StateAt(p, Step(p, s, es[0]).value, es[1..], k).bits != 0 {
      assert StateAt(p, s, es, k + 1).bits != 0;
    }
  }

  /** In secure execution, `m` is either stashed or in force. */
  predicate Stashed(s: Pe, m: uint8) {
    (s.nsMask == m && BaseMask(s) == HIGHEST_NS) || (s.nsMask == 0 && BaseMask(s) == m)
  }

  lemma {:induction false} StepKeepsStash(p: Platform, s: Pe, e: Event, m: uint8)
    requires p.Good() && Step(p, s, e).Some? && Stashed(s, m) && m >= HIGHEST_NS
    ensures Stashed(Step(p, s, e).value, m)
  {
    if e.Activate? || e.Deactivate? || s.bits != 0 {
      ActivateKeepsBase(p, s, e);
    }
  }

  lemma {:induction false} RunKeepsStash(p: Platform, s: Pe, es: seq<Event>, m: uint8)
    requires p.Good() && Run(p, s, es).Some? && Stashed(s, m) && m >= HIGHEST_NS
    ensures Stashed(Run(p, s, es).value, m)
    decreases |es|
  {
    if es != [] {
      StepKeepsStash(p, s, es[0], m);
      RunKeepsStash(p, Step(p, s, es[0]).value, es[1..], m);
    }
  }

  /**
   Leaving the normal world, any calls at all, and returning to it with no level
   active, the running priority outside the secure range at both crossings: the
   mask on return is the mask at leaving, whether or not preemption was allowed.
   */
  lemma {:induction false} NormalWorldMaskRestored(p: Platform, s: Pe, leaving: uint32, es: seq<Event>,
      returning: uint32)
    requires p.Good() && s.bits == 0 && !Secure(leaving) && !Secure(returning)
    requires DoExited(s, leaving).Some? && Run(p, DoExited(s, leaving).value, es).Some?
    requires var t := Run(p, DoExited(s, leaving).value, es).value;
      t.bits == 0 && DoEntering(t, returning).Some?
    ensures var u := DoEntering(Run(p, DoExited(s, leaving).value, es).value, returning).value;
      u.pmr == s.pmr && u.nsMask == 0 && u.bits == 0
  {
    RunKeepsStash(p, DoExited(s, leaving).value, es, s.pmr);
  }

  lemma {:induction false} StateAfter(p: Platform, s: Pe, es: seq<Event>, k: nat)
    requires p.Good() && Run(p, s, es).Some? && k < |es|
    ensures Step(p, StateAt(p, s, es, k), es[k]) == Some(StateAt(p, s, es, k + 1))
    decreases |es|
  {
    if k > 0 {
      StateAfter(p, Step(p, s, es[0]).value, es[1..], k - 1);
    }
  }

  /** In every run, an activation programs the mask to its priority, and that masks more than before. */
  lemma {:induction false} ActivationMasks(p: Platform, s: Pe, es: seq<Event>, k: nat)
    requires p.Good() && Run(p, s, es).Some? && k < |es| && es[k].Activate?
    ensures StateAt(p, s, es, k + 1).pmr == es[k].priority < StateAt(p, s, es, k).pmr
  {
    StateAfter(p, s, es, k);
  }

  /** Event `i` is the last activation or deactivation before event `j`, and levels are active since. */
  ghost predicate LastChange(p: Platform, s: Pe, es: seq<Event>, i: nat, j: nat)
    requires p.Good() && Run(p, s, es).Some?
  {
    && i < j <= |es| && (es[i].Activate? || es[i].Deactivate?)
    && (forall k :: i < k < j ==> !es[k].Activate? && !es[k].Deactivate?)
    && StateAt(p, s, es, i + 1).bits != 0
  }

  lemma {:induction false} ActiveUntouched(p: Platform, s: Pe, es: seq<Event>, i: nat, j: nat)
    requires p.Good() && Run(p, s, es).Some? && i <= j <= |es| && StateAt(p, s, es, i).bits != 0
    requires forall k :: i <= k < j ==> !es[k].Activate? && !es[k].Deactivate?
    ensures StateAt(p, s, es, j) == StateAt(p, s, es, i)
    decreases j
  {
    if i < j {
      ActiveUntouched(p, s, es, i, j - 1);
      StateAfter(p, s, es, j - 1);
    }
  }

  /**
   In every run, while levels are active the mask is the priority of the last
   activation or deactivation: crossings between the worlds leave it alone.
   */
  lemma {:induction false} MaskWhileActive(p: Platform, s: Pe, es: seq<Event>, i: nat, j: nat)
    requires p.Good() && Run(p, s, es).Some? && LastChange(p, s, es, i, j)
    ensures StateAt(p, s, es, j).pmr == es[i].priority % 0x100
  {
    StateAfter(p, s, es, i);
    ActiveUntouched(p, s, es, i + 1, j);
  }

  /** The calls as they update one CPU's data; `false` stands for a panic. */
  class Cpu {
    var activePriBits: nat
    var initPriMask: uint8
    var nsPriMask: uint8
    var priorityMask: uint8

    ghost function View(): Pe
      reads this
    {
      Pe(activePriBits, initPriMask, nsPriMask, priorityMask)
    }

    constructor (mask: uint8)
      ensures View() == Pe(0, 0, 0, mask)
    {
      activePriBits, initPriMask, nsPriMask, priorityMask := 0, 0, 0, mask;
    }

    /** `plat_ic_set_priority_mask`: programs the register and returns what it held. */
    method SetPriorityMask(mask: uint32) returns (before: uint8)
      modifies this`priorityMask
      ensures before == old(priorityMask) && priorityMask == mask % 0x100
    {
      before := priorityMask;
      priorityMask := mask % 0x100;
    }

    function HighestActiveIdx(): int
      reads this
    {
      if activePriBits == 0 then -1 else Ctz(activePriBits)
    }

    method ActivatePriority(p: Platform, priority: uint32, running: uint32) returns (ok: bool)
      requires p.Good()
      modifies this
      ensures ok <==> DoActivate(p, old(View()), priority, running).Some?
      ensures ok ==> View() == DoActivate(p, old(View()), priority, running).value
      ensures ok ==> priorityMask == priority < old(priorityMask)
    {
      if priority >= running {
        return false;
      }
      var cur := HighestActiveIdx();
      var idx := PriToIdx(p, priority);
      if idx !in p.valid || (cur != -1 && idx >= cur) {
        return false;
      }
      activePriBits := Or(activePriBits, Pow2(idx));
      var oldMask := SetPriorityMask(priority);
      if priority >= oldMask {
        return false;
      }
      if cur == -1 {
        initPriMask := oldMask;
      }
      ok := true;
    }

    method DeactivatePriority(p: Platform, priority: uint32, running: uint32) returns (ok: bool)
      requires p.Good()
      modifies this
      ensures ok <==> DoDeactivate(p, old(View()), priority, running).Some?
      ensures ok ==> View() == DoDeactivate(p, old(View()), priority, running).value
    {
      if priority >= running {
        return false;
      }
      var cur := HighestActiveIdx();
      var idx := PriToIdx(p, priority);
      if idx !in p.valid || cur == -1 || idx != cur {
        return false;
      }
      activePriBits := And(activePriBits, activePriBits - 1);
      cur := HighestActiveIdx();
      var oldMask;
      if cur == -1 {
        oldMask := SetPriorityMask(initPriMask);
      } else {
        oldMask := SetPriorityMask(priority);
      }
      ok := !(oldMask > priority);
    }

    method ExitedNormalWorld(running: uint32) returns (ok: bool)
      modifies this
      ensures ok <==> DoExited(old(View()), running).Some?
      ensures ok ==> View() == DoExited(old(View()), running).value
    {
      if Secure(running) || activePriBits != 0 {
        return true;
      }
      if nsPriMask != 0 {
        return false;
      }
      nsPriMask := SetPriorityMask(HIGHEST_NS);
      ok := !Secure(nsPriMask);
    }

    method EnteringNormalWorld(running: uint32) returns (ok: bool)
      modifies this
      ensures ok <==> DoEntering(old(View()), running).Some?
      ensures ok ==> View() == DoEntering(old(View()), running).value
    {
      if Secure(running) || activePriBits != 0 || nsPriMask == 0 {
        return true;
      }
      var oldPmr := SetPriorityMask(nsPriMask);
      if oldPmr != HIGHEST_NS && oldPmr != nsPriMask {
        return false;
      }
      nsPriMask := 0;
      ok := true;
    }

    method AllowNsPreemption() returns (ok: bool)
      modifies this
      ensures ok <==> DoAllow(old(View())).Some?
      ensures ok ==> View() == DoAllow(old(View())).value
    {
      if nsPriMask == 0 || activePriBits != 0 {
        return false;
      }
      var _ := SetPriorityMask(nsPriMask);
      nsPriMask := 0;
      ok := true;
    }

    /** One call after the other, up to a panic. */
    method Serve(p: Platform, es: seq<Event>) returns (ok: bool)
      requires p.Good()
      modifies this
      ensures ok <==> Run(p, old(View()), es).Some?
      ensures ok ==> View() == Run(p, old(View()), es).value
      ensures ok && old(activePriBits) == 0 ==>
        forall i: nat :: Bit(activePriBits, i) <==> i in Levels(p, es, [])
      ensures ok ==> forall i: nat :: Episode(p, old(View()), es, i, |es|) ==>
        priorityMask == StateAt(p, old(View()), es, i).pmr
      ensures ok ==> forall i: nat :: LastChange(p, old(View()), es, i, |es|) ==>
        priorityMask == es[i].priority % 0x100
    {
      ghost var s := View();
      for k := 0 to |es|
        invariant Run(p, s, es) == Run(p, View(), es[k..])
      {
        assert es[k..][1..] == es[k + 1..];
        ok := Call(p, es[k]);
        if !ok {
          return;
        }
      }
      forall i: nat ensures s.bits == 0 ==> (Bit(activePriBits, i) <==> i in Levels(p, es, [])) {
        if s.bits == 0 {
          BitmapIsStack(p, s, es, i);
        }
      }
      StateAtEnd(p, s, es);
      forall i: nat | Episode(p, s, es, i, |es|) ensures priorityMask == StateAt(p, s, es, i).pmr {
        MaskRestored(p, s, es, i, |es|);
      }
      forall i: nat | LastChange(p, s, es, i, |es|) ensures priorityMask == es[i].priority % 0x100 {
        MaskWhileActive(p, s, es, i, |es|);
      }
      return true;
    }

    method Call(p: Platform, e: Event) returns (ok: bool)
      requires p.Good()
      modifies this
      ensures ok <==> Step(p, old(View()), e).Some?
      ensures ok ==> View() == Step(p, old(View()), e).value
    {
      match e {
        case Activate(priority, running) => { ok := ActivatePriority(p, priority, running); }
        case Deactivate(priority, running) => { ok := DeactivatePriority(p, priority, running); }
        case ExitedNormalWorld(running) => { ok := ExitedNormalWorld(running); }
        case EnteringNormalWorld(running) => { ok := EnteringNormalWorld(running); }
        case AllowNsPreemption => { ok := AllowNsPreemption(); }
      }
    }
  }
}
