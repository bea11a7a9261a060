/**
 The chain of trust: image descriptors, the authentication methods, and what the
 history of accepted images says about every flag, parameter buffer and counter.
 */
module ChainOfTrust {
  import opened Bytes
  import opened Options
  import opened DerInteger

  /** Authentication methods; parameters are named by number. */
  datatype Check =
    | NoCheck
    | Hash(data: nat, hash: nat)
    | Signature(pk: nat, sig: nat, alg: nat, signed: nat)
    | Counter(cert: nat, counter: nat)
    | UnknownCheck

  /** A buffer for a parameter that children are authenticated with. */
  datatype Slot = Slot(param: nat, size: nat)

  datatype Desc = Desc(parent: Option<nat>, checks: seq<Check>, slots: seq<Option<Slot>>)

  datatype Rotpk = Rotpk(key: seq<byte>, isHash: bool, notDeployed: bool)

  /** Image parser, crypto module and root key: functions of the bytes they get. */
  datatype Env = Env(
    integrity: (nat, seq<byte>) -> bool,
    param: (nat, nat, seq<byte>) -> Option<seq<byte>>,
    hashMatches: (seq<byte>, seq<byte>) -> bool,
    signatureMatches: (seq<byte>, seq<byte>, seq<byte>, seq<byte>) -> bool,
    rotpk: nat -> Option<Rotpk>)

  type Cot = seq<Desc>

  /** Contents of every image's parameter buffers. */
  type Buffers = seq<seq<seq<byte>>>

  /** Parents exist, and `rank` falls along them, so the relation has no cycle. */
  ghost predicate Acyclic(cot: Cot, rank: seq<nat>) {
    && |rank| == |cot|
    && forall i :: 0 <= i < |cot| ==> cot[i].parent.Some? ==>
      cot[i].parent.value < |cot| && rank[cot[i].parent.value] < rank[i]
  }

  predicate Shaped(cot: Cot, bufs: Buffers) {
    && |bufs| == |cot|
    && forall i :: 0 <= i < |cot| ==> SlotsShaped(cot[i].slots, bufs[i])
  }

  predicate SlotsShaped(slots: seq<Option<Slot>>, bs: seq<seq<byte>>) {
    |bs| == |slots| && forall j :: 0 <= j < |slots| ==> slots[j].Some? ==> |bs[j]| == slots[j].value.size
  }

  /** `auth_get_param`: the first buffer for the parameter. */
  function GetParam(slots: seq<Option<Slot>>, bs: seq<seq<byte>>, p: nat): Option<seq<byte>>
    requires |bs| == |slots|
  {
    if slots == [] || slots[0].None? then None
    else if slots[0].value.param == p then Some(bs[0])
    else GetParam(slots[1..], bs[1..], p)
  }

  function ParentParam(cot: Cot, bufs: Buffers, i: nat, p: nat): Option<seq<byte>>
    requires i < |cot| && Shaped(cot, bufs)
  {
    if cot[i].parent.Some? && cot[i].parent.value < |cot| then
      GetParam(cot[cot[i].parent.value].slots, bufs[cot[i].parent.value], p)
    else None
  }

  /** `auth_hash` */
  predicate HashPasses(env: Env, cot: Cot, bufs: Buffers, i: nat, data: nat, hash: nat, content: seq<byte>)
    requires i < |cot| && Shaped(cot, bufs)
  {
    var h, d := ParentParam(cot, bufs, i, hash), env.param(i, data, content);
    h.Some? && d.Some? && env.hashMatches(d.value, h.value)
  }

  /** `auth_signature` */
  predicate SignaturePasses(env: Env, cot: Cot, bufs: Buffers, i: nat, c: Check, content: seq<byte>)
    requires i < |cot| && Shaped(cot, bufs) && c.Signature?
  {
    var d, s, a := env.param(i, c.signed, content), env.param(i, c.sig, content), env.param(i, c.alg, content);
    var key := if cot[i].parent.Some? then
                 match ParentParam(cot, bufs, i, c.pk)
                 case None => None
                 case Some(k) => Some(Rotpk(k, false, false))
               else env.rotpk(c.pk);
    && d.Some? && s.Some? && a.Some? && key.Some?
    && if key.value.isHash || key.value.notDeployed then
         var pk := env.param(i, c.pk, content);
         && pk.Some? && env.signatureMatches(d.value, s.value, a.value, pk.value)
         && (key.value.notDeployed || env.hashMatches(pk.value, key.value.key))
       else env.signatureMatches(d.value, s.value, a.value, key.value.key)
  }

  /** The counter value an image carries. */
  function CertCounter(env: Env, i: nat, cert: nat, content: seq<byte>): Option<uint32> {
    match env.param(i, cert, content)
    case None => None
    case Some(p) => Decode(p)
  }

  /** A check passes, as far as it depends on the image and its parent's buffers. */
  predicate CheckPasses(env: Env, cot: Cot, bufs: Buffers, i: nat, c: Check, content: seq<byte>)
    requires i < |cot| && Shaped(cot, bufs)
  {
    match c
    case NoCheck => true
    case Hash(data, hash) => HashPasses(env, cot, bufs, i, data, hash, content)
    case Signature(_, _, _, _) => SignaturePasses(env, cot, bufs, i, c, content)
    case Counter(cert, _) => CertCounter(env, i, cert, content).Some?
    case UnknownCheck => false
  }

  /** Integrity and the first `n` checks pass. */
  ghost predicate Endorsed(env: Env, cot: Cot, bufs: Buffers, i: nat, content: seq<byte>, n: nat)
    requires i < |cot| && Shaped(cot, bufs) && n <= |cot[i].checks|
  {
    env.integrity(i, content) && forall k :: 0 <= k < n ==> CheckPasses(env, cot, bufs, i, cot[i].checks[k], content)
  }

  /** A parameter can be taken from the image and fits its buffer. */
  predicate Extracts(env: Env, i: nat, s: Option<Slot>, content: seq<byte>) {
    s.None? || var p := env.param(i, s.value.param, content); p.Some? && |p.value| <= s.value.size
  }

  /** The first `n` parameters of an image copied to its buffers. */
  function Copied(env: Env, cot: Cot, bufs: Buffers, i: nat, content: seq<byte>, n: nat): (r: Buffers)
    requires i < |cot| && Shaped(cot, bufs) && n <= |cot[i].slots|
    ensures Shaped(cot, r) && forall k :: 0 <= k < |cot| && k != i ==> r[k] == bufs[k]
  {
    if n == 0 then bufs
    else
      var b, s := Copied(env, cot, bufs, i, content, n - 1), cot[i].slots[n - 1];
      if s.None? || !Extracts(env, i, s, content) then b
      else b[i := b[i][n - 1 := Patch(b[i][n - 1], 0, env.param(i, s.value.param, content).value)]]
  }

  /** An image whose checks all passed; `copied` parameters were then taken from it. */
  datatype Event = Event(img: nat, content: seq<byte>, copied: nat)

  /** The buffers are the initial ones with the parameters of the accepted images. */
  function After(env: Env, cot: Cot, b0: Buffers, log: seq<Event>): (r: Buffers)
    requires Shaped(cot, b0)
    ensures Shaped(cot, r)
  {
    if log == [] then b0
    else
      var b, e := After(env, cot, b0, log[..|log| - 1]), log[|log| - 1];
      if e.img < |cot| && e.copied <= |cot[e.img].slots| then Copied(env, cot, b, e.img, e.content, e.copied) else b
  }

  /** All parameters were taken: this is when the image is flagged. */
  predicate IsComplete(cot: Cot, e: Event) {
    e.img < |cot| && e.copied == |cot[e.img].slots|
  }

  predicate Flagged(cot: Cot, log: seq<Event>, i: nat) {
    log != [] && ((log[|log| - 1].img == i && IsComplete(cot, log[|log| - 1])) || Flagged(cot, log[..|log| - 1], i))
  }

  /** An accepted image passed all checks against the buffers of its time, and its parent came first. */
  ghost predicate Backed(env: Env, cot: Cot, b0: Buffers, log: seq<Event>, e: Event)
    requires Shaped(cot, b0)
  {
    && e.img < |cot| && e.copied <= |cot[e.img].slots|
    && Endorsed(env, cot, After(env, cot, b0, log), e.img, e.content, |cot[e.img].checks|)
    && (forall j :: 0 <= j < e.copied ==> Extracts(env, e.img, cot[e.img].slots[j], e.content))
    && (cot[e.img].parent.Some? ==> Flagged(cot, log, cot[e.img].parent.value))
  }

  /** Every event is backed by those before it. */
  ghost predicate Chain(env: Env, cot: Cot, b0: Buffers, log: seq<Event>)
    requires Shaped(cot, b0)
  {
    log == [] || (Chain(env, cot, b0, log[..|log| - 1]) && Backed(env, cot, b0, log[..|log| - 1], log[|log| - 1]))
  }

  /** An accepted image claims counter `c` at value `v`. */
  ghost predicate Claims(env: Env, cot: Cot, e: Event, c: nat, v: uint32) {
    e.img < |cot| && exists n :: 0 <= n < |cot[e.img].checks| && ClaimedBy(env, e, cot[e.img].checks[n], c, v)
  }

  predicate ClaimedBy(env: Env, e: Event, k: Check, c: nat, v: uint32) {
    k.Counter? && k.counter == c && CertCounter(env, e.img, k.cert, e.content) == Some(v)
  }

  /** No platform counter is below a value that was accepted. */
  ghost predicate Covered(env: Env, cot: Cot, log: seq<Event>, counters: seq<uint32>) {
    forall k, c: nat, v: uint32 :: 0 <= k < |log| && Claims(env, cot, log[k], c, v) ==>
      c < |counters| && v <= counters[c]
  }

  /** No image was accepted after one with a higher value of the same counter. */
  ghost predicate NoRollback(env: Env, cot: Cot, log: seq<Event>) {
    forall j, k, c: nat, v: uint32, w: uint32 ::
      0 <= j < k < |log| && Claims(env, cot, log[j], c, v) && Claims(env, cot, log[k], c, w) ==> v <= w
  }

  /** `a` is `i` or one of its ancestors. */
  ghost predicate Ancestor(cot: Cot, rank: seq<nat>, a: nat, i: nat)
    requires Acyclic(cot, rank) && i < |cot|
    decreases rank[i]
  {
    a == i || (cot[i].parent.Some? && Ancestor(cot, rank, a, cot[i].parent.value))
  }

  lemma {:induction false} FlagAppears(cot: Cot, log: seq<Event>, i: nat) returns (k: nat)
    requires Flagged(cot, log, i)
    ensures k < |log| && log[k].img == i && IsComplete(cot, log[k])
  {
    var n := |log| - 1;
    if log[n].img == i && IsComplete(cot, log[n]) {
      k := n;
    } else {
      k := FlagAppears(cot, log[..n], i);
    }
  }

  lemma {:induction false} FlagStays(cot: Cot, log: seq<Event>, n: nat, i: nat)
    requires n <= |log| && Flagged(cot, log[..n], i)
    ensures Flagged(cot, log, i)
    decreases |log| - n
  {
    if n < |log| {
      assert log[..n + 1][..n] == log[..n];
      FlagStays(cot, log, n + 1, i);
    } else {
      assert log[..n] == log;
    }
  }

  lemma {:induction false} ChainAt(env: Env, cot: Cot, b0: Buffers, log: seq<Event>, k: nat)
    requires Shaped(cot, b0) && Chain(env, cot, b0, log) && k < |log|
    ensures Chain(env, cot, b0, log[..k]) && Backed(env, cot, b0, log[..k], log[k])
  {
    var n := |log| - 1;
    if k < n {
      ChainAt(env, cot, b0, log[..n], k);
      assert log[..n][..k] == log[..k] && log[..n][k] == log[k];
    }
  }

  /** Flags are closed under parent, hence cover all ancestors. */
  lemma {:induction false} AncestorsFlagged(env: Env, cot: Cot, rank: seq<nat>, b0: Buffers, log: seq<Event>, a: nat,
      i: nat)
    requires Acyclic(cot, rank) && Shaped(cot, b0) && Chain(env, cot, b0, log)
    requires i < |cot| && Flagged(cot, log, i) && Ancestor(cot, rank, a, i)
    ensures Flagged(cot, log, a)
    decreases rank[i]
  {
    if a != i {
      var k := FlagAppears(cot, log, i);
      ChainAt(env, cot, b0, log, k);
      FlagStays(cot, log, k, cot[i].parent.value);
      AncestorsFlagged(env, cot, rank, b0, log, a, cot[i].parent.value);
    }
  }

  /** Copying takes the parameters of this content to the front of the buffers. */
  lemma {:induction false} CopiedSlot(env: Env, cot: Cot, bufs: Buffers, i: nat, content: seq<byte>, n: nat, j: nat)
    requires i < |cot| && Shaped(cot, bufs) && j < n <= |cot[i].slots| && cot[i].slots[j].Some?
    requires Extracts(env, i, cot[i].slots[j], content)
    ensures var p := env.param(i, cot[i].slots[j].value.param, content).value;
      |Copied(env, cot, bufs, i, content, n)[i][j]| == cot[i].slots[j].value.size
      && Copied(env, cot, bufs, i, content, n)[i][j][..|p|] == p
  {
    if j == n - 1 {
      var b := Copied(env, cot, bufs, i, content, j);
      var p := env.param(i, cot[i].slots[j].value.param, content).value;
      assert SlotsShaped(cot[i].slots, b[i]);
      assert Patch(b[i][j], 0, p)[..|p|] == p;
    } else {
      CopiedSlot(env, cot, bufs, i, content, n - 1, j);
    }
  }

  lemma {:induction false} CopiedBehind(env: Env, cot: Cot, bufs: Buffers, i: nat, content: seq<byte>, n: nat, j: nat)
    requires i < |cot| && Shaped(cot, bufs) && n <= j < |cot[i].slots|
    ensures |Copied(env, cot, bufs, i, content, n)[i]| == |bufs[i]| == |cot[i].slots|
    ensures Copied(env, cot, bufs, i, content, n)[i][j] == bufs[i][j]
  {
    if n > 0 {
      CopiedBehind(env, cot, bufs, i, content, n - 1, j);
    }
  }

  /** The event fills slot `j` of descriptor `p`. */
  predicate Fills(e: Event, p: nat, j: nat) {
    e.img == p && j < e.copied
  }

  /** Bytes `b` start with the parameter `q` of this content. */
  predicate StartsWithParam(env: Env, p: nat, q: nat, content: seq<byte>, b: seq<byte>) {
    var v := env.param(p, q, content);
    v.Some? && |v.value| <= |b| && b[..|v.value|] == v.value
  }

  /**
   Where the bytes of a parameter buffer come from: it starts with the parameter
   taken from the last accepted image of its own descriptor that filled it, and
   before there is one (`-1`) it is as it was at first.
   */
  lemma {:induction false} BuffersFromAccepted(env: Env, cot: Cot, b0: Buffers, log: seq<Event>, p: nat, j: nat)
    returns (k: int)
    requires Shaped(cot, b0) && Chain(env, cot, b0, log) && p < |cot| && j < |cot[p].slots| && cot[p].slots[j].Some?
    ensures -1 <= k < |log| && forall m :: k < m < |log| ==> !Fills(log[m], p, j)
    ensures var bs := After(env, cot, b0, log)[p];
      && |bs| == |b0[p]| == |cot[p].slots| && (k == -1 ==> bs[j] == b0[p][j])
      && (k >= 0 ==> Fills(log[k], p, j) && StartsWithParam(env, p, cot[p].slots[j].value.param, log[k].content, bs[j]))
  {
    if log == [] {
      assert SlotsShaped(cot[p].slots, b0[p]);
      k := -1;
    } else {
      var init, e := log[..|log| - 1], log[|log| - 1];
      var bufs := After(env, cot, b0, init);
      if Fills(e, p, j) {
        CopiedSlot(env, cot, bufs, p, e.content, e.copied, j);
        assert SlotsShaped(cot[p].slots, b0[p]) && SlotsShaped(cot[p].slots, After(env, cot, b0, log)[p]);
        k := |log| - 1;
      } else {
        k := BuffersFromAccepted(env, cot, b0, init, p, j);
        if e.img == p {
          CopiedBehind(env, cot, bufs, p, e.content, e.copied, j);
        }
      }
    }
  }

  /** The bytes are those of parameter `q`, taken from an accepted image of descriptor `p`. */
  ghost predicate FromAccepted(env: Env, cot: Cot, log: seq<Event>, p: nat, q: nat, b: seq<byte>) {
    exists k :: 0 <= k < |log| && log[k].img == p && StartsWithParam(env, p, q, log[k].content, b)
  }

  /** A parameter that is found is the contents of a buffer for it. */
  lemma {:induction false} ParamSlot(slots: seq<Option<Slot>>, bs: seq<seq<byte>>, q: nat) returns (j: nat)
    requires |bs| == |slots| && GetParam(slots, bs, q).Some?
    ensures j < |slots| && slots[j].Some? && slots[j].value.param == q && GetParam(slots, bs, q).value == bs[j]
  {
    if slots[0].value.param == q {
      j := 0;
    } else {
      j := ParamSlot(slots[1..], bs[1..], q);
      j := j + 1;
    }
  }

  /**
   In every history, whatever an accepted image was checked with is what its parent's
   buffers held then, and that had been taken from an accepted image of the parent.
   */
  lemma {:induction false} CheckedWithAcceptedData(env: Env, cot: Cot, b0: Buffers, log: seq<Event>, k: nat, q: nat)
    requires Shaped(cot, b0) && Chain(env, cot, b0, log) && k < |log|
    ensures log[k].img < |cot|
    ensures var b := ParentParam(cot, After(env, cot, b0, log[..k]), log[k].img, q);
      b.Some? ==> FromAccepted(env, cot, log[..k], cot[log[k].img].parent.value, q, b.value)
  {
    ChainAt(env, cot, b0, log, k);
    var before, d := log[..k], cot[log[k].img];
    var bufs := After(env, cot, b0, before);
    if ParentParam(cot, bufs, log[k].img, q).Some? {
      var p := d.parent.value;
      assert SlotsShaped(cot[p].slots, bufs[p]);
      var j := ParamSlot(cot[p].slots, bufs[p], q);
      var m := BuffersFromAccepted(env, cot, b0, before, p, j);
      FlaggedFills(cot, before, p, j);
    }
  }

  /** A flagged image filled all its slots once. */
  lemma {:induction false} FlaggedFills(cot: Cot, log: seq<Event>, p: nat, j: nat)
    requires p < |cot| && j < |cot[p].slots| && Flagged(cot, log, p)
    ensures exists m :: 0 <= m < |log| && Fills(log[m], p, j)
  {
    var m := FlagAppears(cot, log, p);
    assert Fills(log[m], p, j);
  }

  /** One more accepted image keeps the whole history sound. */
  lemma {:induction false} Accepted(env: Env, cot: Cot, b0: Buffers, log: seq<Event>, e: Event)
    requires Shaped(cot, b0) && Chain(env, cot, b0, log) && Backed(env, cot, b0, log, e)
    ensures Chain(env, cot, b0, log + [e])
    ensures After(env, cot, b0, log + [e]) == Copied(env, cot, After(env, cot, b0, log), e.img, e.content, e.copied)
    ensures forall i: nat :: Flagged(cot, log + [e], i) <==> (i == e.img && IsComplete(cot, e)) || Flagged(cot, log, i)
  {
    assert (log + [e])[..|log|] == log;
  }

  lemma {:induction false} ClaimsAccepted(env: Env, cot: Cot, log: seq<Event>, e: Event, before: seq<uint32>,
      counters: seq<uint32>)
    requires Covered(env, cot, log, before) && NoRollback(env, cot, log) && |before| == |counters|
    requires forall c :: 0 <= c < |before| ==> before[c] <= counters[c]
    requires forall c: nat, v: uint32 :: Claims(env, cot, e, c, v) ==> c < |counters| && before[c] <= v <= counters[c]
    ensures Covered(env, cot, log + [e], counters) && NoRollback(env, cot, log + [e])
  {
    var log' := log + [e];
    forall k, c: nat, v: uint32 | 0 <= k < |log'| && Claims(env, cot, log'[k], c, v)
      ensures c < |counters| && v <= counters[c]
    {
      assert k < |log| ==> log'[k] == log[k];
    }
    forall j, k, c: nat, v: uint32, w: uint32 |
        0 <= j < k < |log'| && Claims(env, cot, log'[j], c, v) && Claims(env, cot, log'[k], c, w)
      ensures v <= w
    {
      assert log'[j] == log[j] && (k < |log| ==> log'[k] == log[k]);
    }
  }
}
