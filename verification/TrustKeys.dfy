/**
 Which key an image's signature is checked with, which hash its data, and how far
 up the chain of trust that leads.
 */
module TrustKeys {
  import opened Bytes
  import opened Options
  import opened DerInteger
  import opened ChainOfTrust

  /** The signature the image carries, over the data it names, verifies under `key`. */
  predicate SignedWith(env: Env, i: nat, c: Check, content: seq<byte>, key: seq<byte>)
    requires c.Signature?
  {
    var signed, sig, alg := env.param(i, c.signed, content), env.param(i, c.sig, content), env.param(i, c.alg, content);
    signed.Some? && sig.Some? && alg.Some? && env.signatureMatches(signed.value, sig.value, alg.value, key)
  }

  /** The image carries a key of its own that its signature verifies under. */
  ghost predicate SelfSigned(env: Env, i: nat, c: Check, content: seq<byte>, key: seq<byte>)
    requires c.Signature?
  {
    env.param(i, c.pk, content) == Some(key) && SignedWith(env, i, c, content, key)
  }

  /** The platform's root key stands for an image without a parent. */
  ghost predicate RootVouches(env: Env, i: nat, c: Check, content: seq<byte>, root: Rotpk)
    requires c.Signature?
  {
    if root.notDeployed then exists key :: SelfSigned(env, i, c, content, key)
    else if root.isHash then exists key :: SelfSigned(env, i, c, content, key) && env.hashMatches(key, root.key)
    else SignedWith(env, i, c, content, root.key)
  }

  /**
   An image without a parent passes its signature check exactly if the platform's
   root key vouches for it: by verifying the signature itself, or where it is a hash
   by that of a key from the image. A key that is not deployed asks for any key.
   */
  lemma {:induction false} RootSignature(env: Env, cot: Cot, bufs: Buffers, i: nat, c: Check, content: seq<byte>)
    requires i < |cot| && Shaped(cot, bufs) && c.Signature? && cot[i].parent.None?
    ensures CheckPasses(env, cot, bufs, i, c, content) <==>
      env.rotpk(c.pk).Some? && RootVouches(env, i, c, content, env.rotpk(c.pk).value)
  {
    var own := env.param(i, c.pk, content);
    if own.Some? {
      assert SelfSigned(env, i, c, content, own.value) <==> SignedWith(env, i, c, content, own.value);
    }
  }

  /** The first buffer for parameter `q` among the slots in use. */
  ghost predicate BufferFor(slots: seq<Option<Slot>>, q: nat, j: nat) {
    && j < |slots| && slots[j].Some? && slots[j].value.param == q
    && forall k :: 0 <= k < j ==> slots[k].Some? && slots[k].value.param != q
  }

  lemma {:induction false} ParamFound(slots: seq<Option<Slot>>, bs: seq<seq<byte>>, q: nat)
    requires |bs| == |slots|
    ensures GetParam(slots, bs, q).Some? <==> exists j: nat :: BufferFor(slots, q, j)
    ensures forall j: nat :: BufferFor(slots, q, j) ==> GetParam(slots, bs, q) == Some(bs[j])
  {
    if slots != [] && slots[0].Some? {
      if slots[0].value.param == q {
        assert BufferFor(slots, q, 0);
      } else {
        ParamFound(slots[1..], bs[1..], q);
        forall j: nat | BufferFor(slots, q, j) ensures BufferFor(slots[1..], q, j - 1) {
          assert slots[1..][j - 1] == slots[j];
          assert forall k :: 0 <= k < j - 1 ==> slots[1..][k] == slots[k + 1];
        }
        forall j: nat | BufferFor(slots[1..], q, j) ensures BufferFor(slots, q, j + 1) {
          assert slots[1..][j] == slots[j + 1];
          assert forall k :: 1 <= k < j + 1 ==> slots[k] == slots[1..][k - 1];
        }
        if GetParam(slots, bs, q).Some? {
          var j: nat :| BufferFor(slots[1..], q, j);
          assert BufferFor(slots, q, j + 1);
        }
      }
    }
  }

  /** An image with a parent passes exactly if its signature verifies under the parent's first buffer for the key. */
  lemma {:induction false} ChildSignature(env: Env, cot: Cot, bufs: Buffers, i: nat, c: Check, content: seq<byte>,
      p: nat)
    requires i < |cot| && Shaped(cot, bufs) && c.Signature? && cot[i].parent == Some(p) && p < |cot|
    ensures |bufs[p]| == |cot[p].slots|
    ensures CheckPasses(env, cot, bufs, i, c, content) <==>
      exists j: nat :: BufferFor(cot[p].slots, c.pk, j) && SignedWith(env, i, c, content, bufs[p][j])
  {
    assert SlotsShaped(cot[p].slots, bufs[p]);
    ParamFound(cot[p].slots, bufs[p], c.pk);
  }

  /** A hash check passes exactly if the image's data matches what the parent's first buffer for the hash holds. */
  lemma {:induction false} ChildHash(env: Env, cot: Cot, bufs: Buffers, i: nat, data: nat, hash: nat,
      content: seq<byte>, p: nat)
    requires i < |cot| && Shaped(cot, bufs) && cot[i].parent == Some(p) && p < |cot|
    ensures |bufs[p]| == |cot[p].slots|
    ensures CheckPasses(env, cot, bufs, i, Hash(data, hash), content) <==>
      exists j: nat :: BufferFor(cot[p].slots, hash, j)
        && env.param(i, data, content).Some? && env.hashMatches(env.param(i, data, content).value, bufs[p][j])
  {
    assert SlotsShaped(cot[p].slots, bufs[p]);
    ParamFound(cot[p].slots, bufs[p], hash);
  }

  /** Without a parent no hash can be looked up; no method asks for nothing, and an unknown one refuses everything. */
  lemma {:induction false} OtherChecks(env: Env, cot: Cot, bufs: Buffers, i: nat, data: nat, hash: nat,
      content: seq<byte>)
    requires i < |cot| && Shaped(cot, bufs)
    ensures cot[i].parent.None? ==> !CheckPasses(env, cot, bufs, i, Hash(data, hash), content)
    ensures CheckPasses(env, cot, bufs, i, NoCheck, content) && !CheckPasses(env, cot, bufs, i, UnknownCheck, content)
  {
  }

  /** A parameter can be taken exactly if some contents of its buffer start with it. */
  lemma {:induction false} ExtractsIfItFits(env: Env, i: nat, s: Slot, content: seq<byte>)
    ensures Extracts(env, i, Some(s), content) <==>
      exists b: seq<byte> :: |b| == s.size && StartsWithParam(env, i, s.param, content, b)
  {
    if Extracts(env, i, Some(s), content) {
      var v := env.param(i, s.param, content).value;
      assert StartsWithParam(env, i, s.param, content, v + Zeros(s.size - |v|));
    }
  }

  /** Some earlier accepted image of the parent carried parameter `q`, which `b` starts with, and was vouched for. */
  ghost predicate ParentVouches(env: Env, cot: Cot, log: seq<Event>, k: nat, q: nat, b: seq<byte>)
    requires k < |log|
    decreases k, 0
  {
    log[k].img < |cot| && cot[log[k].img].parent.Some? &&
    exists m :: 0 <= m < k && log[m].img == cot[log[k].img].parent.value
      && StartsWithParam(env, log[m].img, q, log[m].content, b) && Vouched(env, cot, log, m)
  }

  /**
   Every check of accepted image `k` rests on the platform's root key: directly, or
   on data from an earlier accepted image of its parent, which itself rests on it.
   */
  ghost predicate Vouched(env: Env, cot: Cot, log: seq<Event>, k: nat)
    requires k < |log|
    decreases k, 2
  {
    var e := log[k];
    e.img < |cot| && forall n :: 0 <= n < |cot[e.img].checks| ==> VouchedCheck(env, cot, log, k, cot[e.img].checks[n])
  }

  ghost predicate VouchedCheck(env: Env, cot: Cot, log: seq<Event>, k: nat, c: Check)
    requires k < |log|
    decreases k, 1
  {
    var e := log[k];
    match c
    case Signature(pk, _, _, _) =>
      e.img < |cot| &&
      if cot[e.img].parent.None? then
        env.rotpk(pk).Some? && RootVouches(env, e.img, c, e.content, env.rotpk(pk).value)
      else exists key :: SignedWith(env, e.img, c, e.content, key) && ParentVouches(env, cot, log, k, pk, key)
    case Hash(data, hash) =>
      var d := env.param(e.img, data, e.content);
      d.Some? && exists h :: env.hashMatches(d.value, h) && ParentVouches(env, cot, log, k, hash, h)
    case _ => true
  }

  /** In every history, every accepted image rests on the platform's root key. */
  lemma {:induction false} RootOfTrust(env: Env, cot: Cot, b0: Buffers, log: seq<Event>, k: nat)
    requires Shaped(cot, b0) && Chain(env, cot, b0, log) && k < |log|
    ensures Vouched(env, cot, log, k)
    decreases k, 2
  {
    ChainAt(env, cot, b0, log, k);
    var e := log[k];
    forall n | 0 <= n < |cot[e.img].checks| ensures VouchedCheck(env, cot, log, k, cot[e.img].checks[n]) {
      assert CheckPasses(env, cot, After(env, cot, b0, log[..k]), e.img, cot[e.img].checks[n], e.content);
      CheckVouched(env, cot, b0, log, k, cot[e.img].checks[n]);
    }
  }

  lemma {:induction false} CheckVouched(env: Env, cot: Cot, b0: Buffers, log: seq<Event>, k: nat, c: Check)
    requires Shaped(cot, b0) && Chain(env, cot, b0, log) && k < |log| && log[k].img < |cot|
    requires CheckPasses(env, cot, After(env, cot, b0, log[..k]), log[k].img, c, log[k].content)
    ensures VouchedCheck(env, cot, log, k, c)
    decreases k, 1
  {
    var bufs, e := After(env, cot, b0, log[..k]), log[k];
    match c
    case Signature(pk, _, _, _) =>
      if cot[e.img].parent.None? {
        RootSignature(env, cot, bufs, e.img, c, e.content);
      } else {
        var key := ParentParam(cot, bufs, e.img, pk).value;
        DataVouched(env, cot, b0, log, k, pk, key);
        assert SignedWith(env, e.img, c, e.content, key);
      }
    case Hash(data, hash) =>
      var h := ParentParam(cot, bufs, e.img, hash).value;
      DataVouched(env, cot, b0, log, k, hash, h);
      assert env.hashMatches(env.param(e.img, data, e.content).value, h);
    case _ =>
  }

  lemma {:induction false} DataVouched(env: Env, cot: Cot, b0: Buffers, log: seq<Event>, k: nat, q: nat, b: seq<byte>)
    requires Shaped(cot, b0) && Chain(env, cot, b0, log) && k < |log| && log[k].img < |cot|
    requires ParentParam(cot, After(env, cot, b0, log[..k]), log[k].img, q) == Some(b)
    ensures ParentVouches(env, cot, log, k, q, b)
    decreases k, 0
  {
    CheckedWithAcceptedData(env, cot, b0, log, k, q);
    var p := cot[log[k].img].parent.value;
    var m :| 0 <= m < k && log[..k][m].img == p && StartsWithParam(env, p, q, log[..k][m].content, b);
    assert log[..k][m] == log[m];
    RootOfTrust(env, cot, b0, log, m);
  }

  /**
   In every history, an accepted image without a parent that is to be signed carries
   a key that verifies its signature and hashes to what the platform holds, wherever
   the platform holds the hash of a deployed key.
   */
  lemma {:induction false} AcceptedUnderRootHash(env: Env, cot: Cot, b0: Buffers, log: seq<Event>, k: nat, c: Check,
      hash: seq<byte>)
    requires Shaped(cot, b0) && Chain(env, cot, b0, log) && k < |log|
    requires log[k].img < |cot| ==> cot[log[k].img].parent.None? && c in cot[log[k].img].checks
    requires c.Signature? && env.rotpk(c.pk) == Some(Rotpk(hash, true, false))
    ensures exists key :: SelfSigned(env, log[k].img, c, log[k].content, key) && env.hashMatches(key, hash)
  {
    RootOfTrust(env, cot, b0, log, k);
    var n :| 0 <= n < |cot[log[k].img].checks| && cot[log[k].img].checks[n] == c;
    assert VouchedCheck(env, cot, log, k, cot[log[k].img].checks[n]);
  }
}
