/**
 The authentication module and the recursive image loader, which keep the history
 of module ChainOfTrust in every run.
 */
module AuthModule {
  import opened Bytes
  import opened Options
  import opened DerInteger
  import opened ChainOfTrust
  import opened TrustKeys

  datatype LoadResult = Loaded | LoadFailed | NotAuthentic

  /** What storage delivers for one load: whether it succeeds, and what is in memory then. */
  datatype Load = Load(ok: bool, content: seq<byte>)

  /** Load number `k`. */
  function Nth(loads: nat -> Load, k: nat): Load {
    loads(k)
  }

  /** No counter is lower than before. */
  ghost predicate Raised(before: seq<uint32>, after: seq<uint32>) {
    |after| == |before| && forall c :: 0 <= c < |before| ==> before[c] <= after[c]
  }

  /** The content claims a counter value that is below the platform's. */
  ghost predicate TooOld(env: Env, cot: Cot, counters: seq<uint32>, i: nat, content: seq<byte>) {
    exists c: nat, v: uint32 :: Claims(env, cot, Event(i, content, 0), c, v) && (c < |counters| ==> v < counters[c])
  }

  /** A reason to refuse the content as image `i`. */
  ghost predicate Refusable(env: Env, cot: Cot, bufs: Buffers, counters: seq<uint32>, i: nat, content: seq<byte>)
    requires i < |cot| && Shaped(cot, bufs)
  {
    || !env.integrity(i, content)
    || !Endorsed(env, cot, bufs, i, content, |cot[i].checks|)
    || TooOld(env, cot, counters, i, content)
    || exists j :: 0 <= j < |cot[i].slots| && !Extracts(env, i, cot[i].slots[j], content)
  }

  /** The content is refused with reason, as image `i` or one of its ancestors. */
  ghost predicate RefusedOnTheWay(env: Env, cot: Cot, rank: seq<nat>, bufs: Buffers, counters: seq<uint32>, i: nat,
      content: seq<byte>)
    requires Acyclic(cot, rank) && Shaped(cot, bufs) && i < |cot|
  {
    exists a: nat :: a < |cot| && Ancestor(cot, rank, a, i) && Refusable(env, cot, bufs, counters, a, content)
  }

  lemma {:induction false} RefusedAbove(env: Env, cot: Cot, rank: seq<nat>, bufs: Buffers, counters: seq<uint32>,
      i: nat, content: seq<byte>)
    requires Acyclic(cot, rank) && Shaped(cot, bufs) && i < |cot|
    ensures Refusable(env, cot, bufs, counters, i, content) ==>
      RefusedOnTheWay(env, cot, rank, bufs, counters, i, content)
    ensures cot[i].parent.Some? && RefusedOnTheWay(env, cot, rank, bufs, counters, cot[i].parent.value, content) ==>
      RefusedOnTheWay(env, cot, rank, bufs, counters, i, content)
  {
    assert Ancestor(cot, rank, i, i);
    if cot[i].parent.Some? && RefusedOnTheWay(env, cot, rank, bufs, counters, cot[i].parent.value, content) {
      var a: nat :| a < |cot| && Ancestor(cot, rank, a, cot[i].parent.value) && Refusable(env, cot, bufs, counters, a,
        content);
      assert Ancestor(cot, rank, a, i);
    }
  }

  datatype State = State(bufs: Buffers, counters: seq<uint32>, log: seq<Event>, memory: seq<byte>)

  /** The image and all its ancestors are flagged. */
  ghost predicate TrustedWithAncestors(cot: Cot, rank: seq<nat>, log: seq<Event>, i: nat)
    requires Acyclic(cot, rank) && i < |cot|
  {
    forall a: nat :: Ancestor(cot, rank, a, i) ==> Flagged(cot, log, a)
  }

  /** How a load ended: accepted content in memory, a failed load, or a refused and wiped image. */
  ghost predicate EndedAs(env: Env, cot: Cot, rank: seq<nat>, s: State, last: Load, i: nat, r: LoadResult, failed: bool)
    requires Acyclic(cot, rank) && Shaped(cot, s.bufs) && i < |cot|
  {
    match r
    case Loaded =>
      && last.ok && s.memory == last.content && s.log != [] && s.log[|s.log| - 1] == Event(i, s.memory, |cot[i].slots|)
      && TrustedWithAncestors(cot, rank, s.log, i)
    case LoadFailed => !last.ok
    case NotAuthentic =>
      && last.ok && s.memory == Zeros(|last.content|)
      && (failed || RefusedOnTheWay(env, cot, rank, s.bufs, s.counters, i, last.content))
  }

  lemma {:induction false} EndsLoaded(env: Env, cot: Cot, rank: seq<nat>, b0: Buffers, s: State, last: Load, i: nat,
      failed: bool)
    requires Acyclic(cot, rank) && Shaped(cot, b0) && Shaped(cot, s.bufs) && i < |cot| && Chain(env, cot, b0, s.log)
    requires last.ok && s.memory == last.content && s.log != []
    requires s.log[|s.log| - 1] == Event(i, s.memory, |cot[i].slots|)
    requires Flagged(cot, s.log, i)
    ensures EndedAs(env, cot, rank, s, last, i, Loaded, failed)
  {
    forall a: nat | Ancestor(cot, rank, a, i) ensures Flagged(cot, s.log, a) {
      AncestorsFlagged(env, cot, rank, b0, s.log, a, i);
    }
  }

  lemma {:induction false} EndsRefused(env: Env, cot: Cot, rank: seq<nat>, s: State, last: Load, i: nat, failed: bool)
    requires Acyclic(cot, rank) && Shaped(cot, s.bufs) && i < |cot| && last.ok && s.memory == Zeros(|last.content|)
    requires failed || Refusable(env, cot, s.bufs, s.counters, i, last.content)
    ensures EndedAs(env, cot, rank, s, last, i, NotAuthentic, failed)
  {
    RefusedAbove(env, cot, rank, s.bufs, s.counters, i, last.content);
  }

  lemma {:induction false} EndsVerified(env: Env, cot: Cot, rank: seq<nat>, b0: Buffers, s: State, last: Load, i: nat,
      ok: bool, failed: bool)
    requires Acyclic(cot, rank) && Shaped(cot, b0) && Shaped(cot, s.bufs) && i < |cot| && Chain(env, cot, b0, s.log)
    requires last.ok
    requires ok ==> s.memory == last.content && Flagged(cot, s.log, i) && s.log != []
    requires ok ==> s.log[|s.log| - 1] == Event(i, s.memory, |cot[i].slots|)
    requires !ok ==>
      s.memory == Zeros(|last.content|) && (failed || Refusable(env, cot, s.bufs, s.counters, i, last.content))
    ensures EndedAs(env, cot, rank, s, last, i, if ok then Loaded else NotAuthentic, failed)
  {
    if ok {
      EndsLoaded(env, cot, rank, b0, s, last, i, failed);
    } else {
      EndsRefused(env, cot, rank, s, last, i, failed);
    }
  }

  lemma {:induction false} EndsAbove(env: Env, cot: Cot, rank: seq<nat>, s: State, last: Load, i: nat, r: LoadResult,
      failed: bool)
    requires Acyclic(cot, rank) && Shaped(cot, s.bufs) && i < |cot| && cot[i].parent.Some?
    requires EndedAs(env, cot, rank, s, last, cot[i].parent.value, r, failed) && !r.Loaded?
    ensures EndedAs(env, cot, rank, s, last, i, r, failed)
  {
    RefusedAbove(env, cot, rank, s.bufs, s.counters, i, last.content);
  }

  /** The value a counter check finds is not below the platform's. */
  predicate NotOld(env: Env, counters: seq<uint32>, i: nat, k: Check, content: seq<byte>)
    requires k.Counter?
  {
    var v := CertCounter(env, i, k.cert, content);
    k.counter < |counters| && v.Some? && counters[k.counter] <= v.value
  }

  /** It is above the platform's. */
  predicate Exceeds(env: Env, counters: seq<uint32>, i: nat, k: Check, content: seq<byte>)
    requires k.Counter?
  {
    var v := CertCounter(env, i, k.cert, content);
    k.counter < |counters| && v.Some? && counters[k.counter] < v.value
  }

  /** No counter check among the first `n` finds an old value. */
  ghost predicate NoneOld(env: Env, cot: Cot, counters: seq<uint32>, i: nat, content: seq<byte>, n: nat)
    requires i < |cot| && n <= |cot[i].checks|
  {
    forall k :: 0 <= k < n && cot[i].checks[k].Counter? ==> NotOld(env, counters, i, cot[i].checks[k], content)
  }

  /** Check `m` is a counter check that finds a higher value, and all checks before it pass. */
  ghost predicate Raises(env: Env, cot: Cot, bufs: Buffers, counters: seq<uint32>, i: nat, content: seq<byte>, m: nat)
    requires i < |cot| && Shaped(cot, bufs)
  {
    && m < |cot[i].checks| && cot[i].checks[m].Counter?
    && Endorsed(env, cot, bufs, i, content, m) && NoneOld(env, cot, counters, i, content, m)
    && Exceeds(env, counters, i, cot[i].checks[m], content)
  }

  /** One of the first `n` checks raises a counter. */
  ghost predicate RaisedBy(env: Env, cot: Cot, bufs: Buffers, counters: seq<uint32>, i: nat, content: seq<byte>, n: nat)
    requires i < |cot| && Shaped(cot, bufs)
  {
    exists m: nat :: m < n && Raises(env, cot, bufs, counters, i, content, m)
  }

  /** A check that passes raises the counters for the first time exactly if it is one that raises. */
  lemma {:induction false} RaisingGoesOn(env: Env, cot: Cot, bufs: Buffers, c0: seq<uint32>, c: seq<uint32>,
      c': seq<uint32>, i: nat, content: seq<byte>, n: nat)
    requires i < |cot| && Shaped(cot, bufs) && n < |cot[i].checks| && Endorsed(env, cot, bufs, i, content, n)
    requires NoneOld(env, cot, c0, i, content, n) && Raised(c0, c) && Raised(c, c')
    requires c != c0 <==> RaisedBy(env, cot, bufs, c0, i, content, n)
    requires var k := cot[i].checks[n];
      if k.Counter? then NotOld(env, c, i, k, content) && (c' != c <==> Exceeds(env, c, i, k, content)) else c' == c
    ensures NoneOld(env, cot, c0, i, content, n + 1)
    ensures c' != c0 <==> RaisedBy(env, cot, bufs, c0, i, content, n + 1)
  {
    if c != c0 {
      var m: nat :| m < n && Raises(env, cot, bufs, c0, i, content, m);
      StaysRaised(c0, c, c');
    } else if c' != c0 {
      assert Raises(env, cot, bufs, c0, i, content, n);
    }
  }

  lemma {:induction false} StaysRaised(c0: seq<uint32>, c: seq<uint32>, c': seq<uint32>)
    requires Raised(c0, c) && Raised(c, c') && c != c0
    ensures c' != c0
  {
  }

  /** Behind a check that does not pass, nothing is raised. */
  lemma {:induction false} RaisingStops(env: Env, cot: Cot, bufs: Buffers, c0: seq<uint32>, c: seq<uint32>,
      i: nat, content: seq<byte>, n: nat, failed: bool)
    requires i < |cot| && Shaped(cot, bufs) && n < |cot[i].checks|
    requires c != c0 <==> RaisedBy(env, cot, bufs, c0, i, content, n)
    requires var k := cot[i].checks[n];
      failed || if k.Counter? then !NotOld(env, c, i, k, content) else !CheckPasses(env, cot, bufs, i, k, content)
    ensures c != c0 ==> RaisedBy(env, cot, bufs, c0, i, content, |cot[i].checks|)
    ensures !failed && RaisedBy(env, cot, bufs, c0, i, content, |cot[i].checks|) ==> c != c0
  {
    if c != c0 {
      var m: nat :| m < n && Raises(env, cot, bufs, c0, i, content, m);
      assert m < |cot[i].checks|;
    } else if !failed {
      forall m: nat | m < |cot[i].checks| ensures !Raises(env, cot, bufs, c0, i, content, m) {
        assert m < n && Raises(env, cot, bufs, c0, i, content, m) ==> RaisedBy(env, cot, bufs, c0, i, content, n);
      }
    }
  }

  class Loader {
    const env: Env
    const cot: Cot
    ghost const rank: seq<nat>
    ghost const b0: Buffers
    /** The platform never fails to read or to store a counter. */
    const reliable: bool
    /** The results of all loads to come, and how many were made. */
    const loads: nat -> Load
    var made: nat
    /** `auth_img_flags` */
    const flags: array<bool>
    /** The parameter buffers of all descriptors. */
    var bufs: Buffers
    /** The platform's non-volatile counters. */
    var counters: seq<uint32>
    /** The image region as the last load left it. */
    var memory: seq<byte>
    ghost var log: seq<Event>

    ghost predicate Valid()
      reads this`bufs, this`counters, this`log, flags
    {
      && Acyclic(cot, rank) && Shaped(cot, b0) && flags.Length == |cot|
      && bufs == After(env, cot, b0, log)
      && Chain(env, cot, b0, log)
      && (forall i :: 0 <= i < |cot| ==> flags[i] == Flagged(cot, log, i))
      && Covered(env, cot, log, counters) && NoRollback(env, cot, log)
    }

    constructor (env0: Env, cot0: Cot, ghost rank0: seq<nat>, bufs0: Buffers, counters0: seq<uint32>,
        loads0: nat -> Load, reliable0: bool)
      requires Acyclic(cot0, rank0) && Shaped(cot0, bufs0)
      ensures Valid() && fresh(flags) && log == [] && counters == counters0 && cot == cot0 && env == env0
      ensures rank == rank0
      ensures bufs == bufs0 && loads == loads0 && made == 0 && memory == [] && reliable == reliable0
    {
      env, cot, rank, b0, loads, made, reliable := env0, cot0, rank0, bufs0, loads0, 0, reliable0;
      flags := new bool[|cot0|](_ => false);
      bufs, counters, memory, log := bufs0, counters0, [], [];
    }

    /** What every call keeps: history only grows and counters only rise. */
    twostate predicate Advances()
      reads this`log, this`counters
    {
      old(log) <= log && Raised(old(counters), counters)
    }

    /** `auth_mod_get_parent_id`: the parent still to be authenticated, if any. */
    method GetParentId(i: nat) returns (r: Option<nat>)
      requires Valid() && i < |cot|
      ensures r.Some? ==> cot[i].parent == r && !Flagged(cot, log, r.value)
      ensures r.None? ==> cot[i].parent.None? || Flagged(cot, log, cot[i].parent.value)
    {
      if cot[i].parent.None? || flags[cot[i].parent.value] {
        return None;
      }
      return cot[i].parent;
    }

    /** Whether a call to the platform's counters fails. */
    method PlatformFails() returns (failed: bool)
      ensures reliable ==> !failed
    {
      failed := *;
      failed := failed && !reliable;
    }

    /** `auth_nvctr`; `failed` tells that the platform could not read or store a counter. */
    method AuthNvctr(i: nat, cert: nat, counter: nat) returns (ok: bool, failed: bool)
      modifies this`counters
      ensures Raised(old(counters), counters)
      ensures forall c :: 0 <= c < |counters| && c != counter ==> counters[c] == old(counters[c])
      ensures ok ==> var v := CertCounter(env, i, cert, memory);
        v.Some? && counter < |counters| && old(counters[counter]) <= v.value == counters[counter]
      ensures !ok ==> counters == old(counters)
      ensures !ok && !failed ==> var v := CertCounter(env, i, cert, memory);
        v.None? || counter >= |counters| || v.value < counters[counter]
      ensures (reliable ==> !failed) && (ok ==> !failed)
    {
      ok, failed := false, false;
      var p := env.param(i, cert, memory);
      if p.None? {
        return;
      }
      var v := ReadCounter(p.value);
      if v.None? || counter >= |counters| {
        return;
      }
      failed := PlatformFails();
      if failed || v.value < counters[counter] {
        return;
      }
      if v.value > counters[counter] {
        failed := PlatformFails();
        if failed {
          return;
        }
        counters := counters[counter := v.value];
      }
      ok := true;
    }

    /** `auth_get_param`, on the slots of image `p`. */
    method AuthGetParam(p: nat, q: nat) returns (r: Option<seq<byte>>)
      requires p < |cot| == |bufs| && |bufs[p]| == |cot[p].slots|
      ensures r == GetParam(cot[p].slots, bufs[p], q)
    {
      var slots := cot[p].slots;
      for j := 0 to |slots|
        invariant GetParam(slots, bufs[p], q) == GetParam(slots[j..], bufs[p][j..], q)
      {
        assert slots[j..][1..] == slots[j + 1..] && bufs[p][j..][1..] == bufs[p][j + 1..];
        if slots[j].None? {
          return None;
        }
        if slots[j].value.param == q {
          return Some(bufs[p][j]);
        }
      }
      return None;
    }

    /** What the parent of an image holds for a parameter. */
    method AuthParentParam(i: nat, q: nat) returns (r: Option<seq<byte>>)
      requires i < |cot| && Shaped(cot, bufs)
      ensures r == ParentParam(cot, bufs, i, q)
    {
      if cot[i].parent.None? || cot[i].parent.value >= |cot| {
        return None;
      }
      assert SlotsShaped(cot[cot[i].parent.value].slots, bufs[cot[i].parent.value]);
      r := AuthGetParam(cot[i].parent.value, q);
    }

    /** `auth_hash` */
    method AuthHash(i: nat, data: nat, hash: nat) returns (ok: bool)
      requires i < |cot| && Shaped(cot, bufs)
      ensures ok == HashPasses(env, cot, bufs, i, data, hash, memory)
    {
      var h := AuthParentParam(i, hash);
      if h.None? {
        return false;
      }
      var d := env.param(i, data, memory);
      if d.None? {
        return false;
      }
      ok := env.hashMatches(d.value, h.value);
    }

    /** `auth_signature` */
    method AuthSignature(i: nat, pk: nat, sig: nat, alg: nat, signed: nat) returns (ok: bool)
      requires i < |cot| && Shaped(cot, bufs)
      ensures ok == SignaturePasses(env, cot, bufs, i, Signature(pk, sig, alg, signed), memory)
    {
      var d, s, a := env.param(i, signed, memory), env.param(i, sig, memory), env.param(i, alg, memory);
      if d.None? || s.None? || a.None? {
        return false;
      }
      var key, isHash, notDeployed := None, false, false;
      if cot[i].parent.Some? {
        key := AuthParentParam(i, pk);
      } else {
        var root := env.rotpk(pk);
        if root.Some? {
          key, isHash, notDeployed := Some(root.value.key), root.value.isHash, root.value.notDeployed;
        }
      }
      if key.None? {
        return false;
      }
      if !isHash && !notDeployed {
        return env.signatureMatches(d.value, s.value, a.value, key.value);
      }
      var own := env.param(i, pk, memory);
      if own.None? || !env.signatureMatches(d.value, s.value, a.value, own.value) {
        return false;
      }
      ok := notDeployed || env.hashMatches(own.value, key.value);
    }

    /** One authentication method of a descriptor. */
    method RunCheck(i: nat, n: nat) returns (ok: bool, failed: bool)
      requires i < |cot| && Shaped(cot, bufs) && n < |cot[i].checks|
      modifies this`counters
      ensures Raised(old(counters), counters)
      ensures !cot[i].checks[n].Counter? || !ok ==> counters == old(counters)
      ensures ok ==> CheckPasses(env, cot, bufs, i, cot[i].checks[n], memory)
      ensures ok ==> forall c: nat, v: uint32 :: ClaimedBy(env, Event(i, memory, 0), cot[i].checks[n], c, v) ==>
        c < |counters| && old(counters)[c] <= v <= counters[c]
      ensures !ok && !failed ==>
        !CheckPasses(env, cot, bufs, i, cot[i].checks[n], memory) || TooOld(env, cot, counters, i, memory)
      ensures !cot[i].checks[n].Counter? ==> !failed && ok == CheckPasses(env, cot, bufs, i, cot[i].checks[n], memory)
      ensures cot[i].checks[n].Counter? && !failed ==> ok == NotOld(env, old(counters), i, cot[i].checks[n], memory)
      ensures cot[i].checks[n].Counter? && ok ==> NotOld(env, old(counters), i, cot[i].checks[n], memory)
      ensures cot[i].checks[n].Counter? && ok ==>
        (counters != old(counters) <==> Exceeds(env, old(counters), i, cot[i].checks[n], memory))
      ensures (reliable ==> !failed) && (ok ==> !failed)
    {
      failed := false;
      match cot[i].checks[n] {
        case NoCheck => { ok := true; }
        case Hash(data, hash) => { ok := AuthHash(i, data, hash); }
        case Signature(pk, sig, alg, signed) => { ok := AuthSignature(i, pk, sig, alg, signed); }
        case Counter(cert, counter) => {
          ok, failed := AuthNvctr(i, cert, counter);
          ghost var v := CertCounter(env, i, cert, memory);
          if !ok && !failed && v.Some? {
            assert ClaimedBy(env, Event(i, memory, 0), cot[i].checks[n], counter, v.value);
            assert Claims(env, cot, Event(i, memory, 0), counter, v.value);
          }
        }
        case UnknownCheck => { ok := false; }
      }
    }

    /** All authentication methods, in the descriptor's order. */
    method RunChecks(i: nat) returns (ok: bool, failed: bool)
      requires i < |cot| && Shaped(cot, bufs) && env.integrity(i, memory)
      modifies this`counters
      ensures Raised(old(counters), counters)
      ensures ok ==> Endorsed(env, cot, bufs, i, memory, |cot[i].checks|)
      ensures ok ==> forall c: nat, v: uint32 :: Claims(env, cot, Event(i, memory, 0), c, v) ==>
        c < |counters| && old(counters)[c] <= v <= counters[c]
      ensures !ok && !failed ==>
        !Endorsed(env, cot, bufs, i, memory, |cot[i].checks|) || TooOld(env, cot, counters, i, memory)
      ensures counters != old(counters) ==> RaisedBy(env, cot, bufs, old(counters), i, memory, |cot[i].checks|)
      ensures !failed && RaisedBy(env, cot, bufs, old(counters), i, memory, |cot[i].checks|) ==>
        counters != old(counters)
      ensures reliable ==> !failed
    {
      ok, failed := true, false;
      ghost var e, c0 := Event(i, memory, 0), counters;
      for n := 0 to |cot[i].checks|
        invariant ok && Raised(old(counters), counters)
        invariant Endorsed(env, cot, bufs, i, memory, n)
        invariant forall k, c: nat, v: uint32 :: 0 <= k < n && ClaimedBy(env, e, cot[i].checks[k], c, v) ==>
          c < |counters| && old(counters)[c] <= v <= counters[c]
        invariant !failed && NoneOld(env, cot, c0, i, memory, n)
        invariant counters != c0 <==> RaisedBy(env, cot, bufs, c0, i, memory, n)
      {
        ghost var before := counters;
        ok, failed := RunCheck(i, n);
        if !ok {
          RaisingStops(env, cot, bufs, c0, before, i, memory, n, failed);
          return;
        }
        RaisingGoesOn(env, cot, bufs, c0, before, counters, i, memory, n);
      }
    }

    /** The parameters for the children; it stops at one that is missing or too long. */
    method CopyParams(i: nat) returns (copied: nat)
      requires i < |cot| && Shaped(cot, bufs)
      modifies this`bufs
      ensures copied <= |cot[i].slots| && bufs == Copied(env, cot, old(bufs), i, memory, copied)
      ensures forall j :: 0 <= j < copied ==> Extracts(env, i, cot[i].slots[j], memory)
      ensures copied < |cot[i].slots| ==> !Extracts(env, i, cot[i].slots[copied], memory)
    {
      copied := 0;
      while copied < |cot[i].slots|
        invariant copied <= |cot[i].slots| && bufs == Copied(env, cot, old(bufs), i, memory, copied)
        invariant forall j :: 0 <= j < copied ==> Extracts(env, i, cot[i].slots[j], memory)
      {
        var s := cot[i].slots[copied];
        if s.Some? {
          var p := env.param(i, s.value.param, memory);
          if p.None? || |p.value| > s.value.size {
            return;
          }
          assert SlotsShaped(cot[i].slots, bufs[i]);
          bufs := bufs[i := bufs[i][copied := Patch(bufs[i][copied], 0, p.value)]];
        }
        copied := copied + 1;
      }
    }

    /** `auth_mod_verify_img` on the image in memory. */
    method VerifyImg(i: nat) returns (ok: bool, failed: bool)
      requires Valid() && i < |cot|
      requires cot[i].parent.Some? ==> Flagged(cot, log, cot[i].parent.value)
      modifies this`counters, this`bufs, this`log, flags
      ensures Valid() && Advances()
      ensures ok ==> Flagged(cot, log, i) && log == old(log) + [Event(i, memory, |cot[i].slots|)]
      ensures !ok ==> flags[..] == old(flags[..])
      ensures ok ==> Endorsed(env, cot, old(bufs), i, memory, |cot[i].checks|)
      ensures ok ==> forall j :: 0 <= j < |cot[i].slots| ==> Extracts(env, i, cot[i].slots[j], memory)
      ensures !ok && !failed ==> Refusable(env, cot, bufs, counters, i, memory)
      ensures counters != old(counters) ==> RaisedBy(env, cot, old(bufs), old(counters), i, memory, |cot[i].checks|)
      ensures !failed && RaisedBy(env, cot, old(bufs), old(counters), i, memory, |cot[i].checks|) ==>
        counters != old(counters)
      ensures reliable ==> !failed
    {
      ok, failed := false, false;
      if !env.integrity(i, memory) {
        return;
      }
      ghost var before := counters;
      ok, failed := RunChecks(i);
      CoveredStays(env, cot, log, before, counters);
      if ok {
        ok := TakeParams(i, before);
      }
    }

    /** The end of `auth_mod_verify_img`: the parameters are taken, and with all of them the image is flagged. */
    method TakeParams(i: nat, ghost before: seq<uint32>) returns (ok: bool)
      requires Valid() && i < |cot| && Endorsed(env, cot, bufs, i, memory, |cot[i].checks|)
      requires cot[i].parent.Some? ==> Flagged(cot, log, cot[i].parent.value)
      requires Covered(env, cot, log, before) && Raised(before, counters)
      requires forall c: nat, v: uint32 :: Claims(env, cot, Event(i, memory, 0), c, v) ==>
        c < |counters| && before[c] <= v <= counters[c]
      modifies this`bufs, this`log, flags
      ensures Valid() && old(log) <= log
      ensures ok ==> Flagged(cot, log, i) && log == old(log) + [Event(i, memory, |cot[i].slots|)]
      ensures ok <==> forall j :: 0 <= j < |cot[i].slots| ==> Extracts(env, i, cot[i].slots[j], memory)
      ensures !ok ==> flags[..] == old(flags[..]) && Refusable(env, cot, bufs, counters, i, memory)
    {
      var copied := CopyParams(i);
      ghost var e := Event(i, memory, copied);
      SameClaims(env, cot, Event(i, memory, 0), e);
      Accepted(env, cot, b0, log, e);
      ClaimsAccepted(env, cot, log, e, before, counters);
      log := log + [e];
      ok := copied == |cot[i].slots|;
      if ok {
        flags[i] := true;
      }
    }

    /** `load_image`: whatever the storage delivers. */
    method LoadImage(i: nat) returns (ok: bool)
      modifies this`memory, this`made
      ensures made == old(made) + 1 && memory == Nth(loads, old(made)).content && ok == Nth(loads, old(made)).ok
    {
      memory, ok := Nth(loads, made).content, Nth(loads, made).ok;
      made := made + 1;
    }

    ghost function Facts(): State
      reads this
    {
      State(bufs, counters, log, memory)
    }

    ghost predicate Ended(i: nat, r: LoadResult, failed: bool)
      requires Valid() && i < |cot| && made > 0
      reads this, flags
    {
      EndedAs(env, cot, rank, Facts(), Nth(loads, made - 1), i, r, failed)
    }

    /**
     `load_auth_image_internal`: parents first, up to one that is already trusted;
     `failed` tells that the platform could not read or store a counter.
     */
    method LoadInternal(i: nat) returns (r: LoadResult, failed: bool)
      requires Valid() && i < |cot|
      modifies this`counters, this`bufs, this`log, this`memory, this`made, flags
      ensures Valid() && Advances() && made > old(made)
      ensures Ended(i, r, failed)
      decreases rank[i]
    {
      failed := false;
      var parent := GetParentId(i);
      if parent.Some? {
        r, failed := LoadInternal(parent.value);
        if !r.Loaded? {
          EndsAbove(env, cot, rank, Facts(), Nth(loads, made - 1), i, r, failed);
          return;
        }
        assert Ancestor(cot, rank, parent.value, parent.value);
      }
      r, failed := LoadOne(i);
    }

    /** Load and verify one image whose parent is trusted. */
    method LoadOne(i: nat) returns (r: LoadResult, failed: bool)
      requires Valid() && i < |cot|
      requires cot[i].parent.Some? ==> Flagged(cot, log, cot[i].parent.value)
      modifies this`counters, this`bufs, this`log, this`memory, this`made, flags
      ensures Valid() && Advances() && made > old(made)
      ensures Ended(i, r, failed)
    {
      var ok := LoadImage(i);
      assert Valid();
      assert log == old(log) && counters == old(counters);
      if ok {
        r, failed := VerifyOrWipe(i, Nth(loads, made - 1));
      } else {
        r, failed := LoadFailed, false;
      }
    }

    /** Verify the image in memory; a refused image is zeroed. */
    method VerifyOrWipe(i: nat, ghost last: Load) returns (r: LoadResult, failed: bool)
      requires Valid() && i < |cot| && last.ok && memory == last.content
      requires cot[i].parent.Some? ==> Flagged(cot, log, cot[i].parent.value)
      modifies this`counters, this`bufs, this`log, this`memory, flags
      ensures Valid() && Advances() && EndedAs(env, cot, rank, Facts(), last, i, r, failed)
    {
      var ok;
      ok, failed := VerifyImg(i);
      if !ok {
        memory := Zeros(|memory|);
      }
      r := if ok then Loaded else NotAuthentic;
      EndsVerified(env, cot, rank, b0, Facts(), last, i, ok, failed);
    }

    /** `load_auth_image`: retried while the platform has another boot source. */
    method LoadAuthImage(i: nat, sources: nat) returns (r: LoadResult, failed: bool, tries: nat)
      requires Valid() && i < |cot|
      modifies this`counters, this`bufs, this`log, this`memory, this`made, flags
      ensures Valid() && Advances() && made > old(made)
      ensures Ended(i, r, failed)
      ensures 1 <= tries <= sources + 1 && (!r.Loaded? ==> tries == sources + 1)
    {
      r, failed := LoadInternal(i);
      tries := 1;
      while !r.Loaded? && tries <= sources
        invariant Valid() && Advances() && made > old(made)
        invariant Ended(i, r, failed)
        invariant 1 <= tries <= sources + 1
      {
        r, failed := LoadInternal(i);
        tries := tries + 1;
      }
    }

    /** Any sequence of loads: every image that was accepted in them rests on the platform's root key. */
    method LoadAll(ids: seq<nat>, sources: nat) returns (rs: seq<LoadResult>)
      requires Valid() && forall k :: 0 <= k < |ids| ==> ids[k] < |cot|
      modifies this`counters, this`bufs, this`log, this`memory, this`made, flags
      ensures Valid() && Advances() && |rs| == |ids|
      ensures forall k :: 0 <= k < |ids| && rs[k].Loaded? ==> TrustedWithAncestors(cot, rank, log, ids[k])
      ensures forall k :: 0 <= k < |log| ==> Vouched(env, cot, log, k)
    {
      rs := [];
      for k := 0 to |ids|
        invariant Valid() && Advances() && |rs| == k
        invariant forall j :: 0 <= j < k && rs[j].Loaded? ==> TrustedWithAncestors(cot, rank, log, ids[j])
      {
        ghost var was := log;
        var r := LoadNext(ids[k], sources);
        TrustAllStays(cot, rank, was, log, ids, rs);
        rs := rs + [r];
      }
      forall k | 0 <= k < |log| ensures Vouched(env, cot, log, k) {
        RootOfTrust(env, cot, b0, log, k);
      }
    }

    method LoadNext(i: nat, sources: nat) returns (r: LoadResult)
      requires Valid() && i < |cot|
      modifies this`counters, this`bufs, this`log, this`memory, this`made, flags
      ensures Valid() && Advances() && (r.Loaded? ==> TrustedWithAncestors(cot, rank, log, i))
    {
      var failed, tries;
      r, failed, tries := LoadAuthImage(i, sources);
    }
  }

  lemma {:induction false} TrustStays(cot: Cot, rank: seq<nat>, was: seq<Event>, log: seq<Event>, i: nat)
    requires Acyclic(cot, rank) && i < |cot| && was <= log && TrustedWithAncestors(cot, rank, was, i)
    ensures TrustedWithAncestors(cot, rank, log, i)
  {
    assert log[..|was|] == was;
    forall a: nat | Ancestor(cot, rank, a, i) ensures Flagged(cot, log, a) {
      FlagStays(cot, log, |was|, a);
    }
  }

  lemma {:induction false} TrustAllStays(cot: Cot, rank: seq<nat>, was: seq<Event>, log: seq<Event>, ids: seq<nat>,
      rs: seq<LoadResult>)
    requires Acyclic(cot, rank) && was <= log && |rs| <= |ids| && forall k :: 0 <= k < |ids| ==> ids[k] < |cot|
    requires forall j :: 0 <= j < |rs| && rs[j].Loaded? ==> TrustedWithAncestors(cot, rank, was, ids[j])
    ensures forall j :: 0 <= j < |rs| && rs[j].Loaded? ==> TrustedWithAncestors(cot, rank, log, ids[j])
  {
    forall j | 0 <= j < |rs| && rs[j].Loaded? ensures TrustedWithAncestors(cot, rank, log, ids[j]) {
      TrustStays(cot, rank, was, log, ids[j]);
    }
  }

  lemma {:induction false} SameClaims(env: Env, cot: Cot, e: Event, f: Event)
    requires e.img == f.img && e.content == f.content
    ensures forall c: nat, v: uint32 :: Claims(env, cot, e, c, v) <==> Claims(env, cot, f, c, v)
  {
    forall c: nat, v: uint32 ensures Claims(env, cot, e, c, v) <==> Claims(env, cot, f, c, v) {
      assert e.img < |cot| ==> forall n :: 0 <= n < |cot[e.img].checks| ==>
        ClaimedBy(env, e, cot[e.img].checks[n], c, v) == ClaimedBy(env, f, cot[e.img].checks[n], c, v);
    }
  }

  lemma {:induction false} CoveredStays(env: Env, cot: Cot, log: seq<Event>, before: seq<uint32>, counters: seq<uint32>)
    requires Covered(env, cot, log, before) && Raised(before, counters)
    ensures Covered(env, cot, log, counters)
  {
  }

  /** A chain of one image: signature first, then its counter, and a parameter buffer without room. */
  const LONE: Cot := [Desc(None, [Signature(1, 2, 3, 4), Counter(0, 0)], [Some(Slot(6, 0))])]

  /** Every signature matches, and every parameter is the encoding of 5. */
  function Trusting(): Env {
    Env((i, content) => true,
        (i, p, content) => Some(Encode(5)),
        (data, hash) => false,
        (data, sig, alg, pk) => true,
        p => Some(Rotpk([], false, false)))
  }

  lemma {:induction false} LoneImage()
    ensures Shaped(LONE, [[[]]]) && Raises(Trusting(), LONE, [[[]]], [3], 0, [], 1)
    ensures !Extracts(Trusting(), 0, LONE[0].slots[0], [])
  {
    CounterRoundTrip(5, []);
    assert Encode(5) + [] == Encode(5);
    assert CertCounter(Trusting(), 0, 0, []) == Some(5);
  }

  /**
   An image that is refused may raise a counter: here its signature matches and its
   counter is higher, and it is refused because a parameter does not fit its buffer.
   */
  method RefusedImageRaisesCounter() returns (l: Loader, ok: bool)
    ensures fresh(l) && l.cot == LONE && l.env == Trusting()
    ensures !ok && !Flagged(LONE, l.log, 0) && Raised([3], l.counters) && l.counters != [3]
  {
    LoneImage();
    l := new Loader(Trusting(), LONE, [0], [[[]]], [3], k => Load(true, []), true);
    assert !l.flags[0];
    var failed;
    ok, failed := l.VerifyImg(0);
  }
}
