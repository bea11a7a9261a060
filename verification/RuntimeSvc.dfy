/**
 Runtime service dispatch: a 128-entry table of descriptor indices, filled once
 and looked up for every SMC, against a linear search of the descriptors.
 */
module RuntimeSvc {
  import opened Bits
  import opened Bytes
  import opened Options

  const MAX_RT_SVCS: nat := 128
  const OEN_LIMIT: nat := 64
  const OEN_MASK: nat := 0x3f
  const TYPE_MASK: nat := 0x1
  const OEN_WIDTH: nat := 6

  /** A descriptor. `init` is the result its initialiser will return, if it has one. */
  datatype Desc = Desc(startOen: uint8, endOen: uint8, callType: uint8, init: Option<int>, hasHandle: bool)

  /** `validate_rt_svc_desc` */
  predicate ValidDesc(d: Desc) {
    && d.startOen <= d.endOen < OEN_LIMIT
    && (d.callType == 0 || d.callType == 1)
    && (d.init.Some? || d.hasHandle)
  }

  /** C `x << k`, where nothing is shifted out. */
  function Shl(x: nat, k: nat): nat {
    if k == 0 then x else 2 * Shl(x, k - 1)
  }

  /** `get_unique_oen` */
  function UniqueOen(oen: nat, callType: nat): nat {
    Or(And(oen, OEN_MASK), Shl(And(callType, TYPE_MASK), OEN_WIDTH))
  }

  /** `get_unique_oen_from_smc_fid` */
  function UniqueOenOfFid(fid: uint32): nat {
    UniqueOen(And(Shr(fid, 24), OEN_MASK), And(Shr(fid, 31), TYPE_MASK))
  }

  /** Bits 29 to 24 of a function id: the owning entity. */
  function Oen(fid: uint32): nat {
    fid / 0x100_0000 % 64
  }

  /** Bit 31 of a function id: fast or yielding. */
  function CallType(fid: uint32): nat {
    fid / 0x8000_0000
  }

  predicate Started(d: Desc) {
    d.init.None? || d.init.value == 0
  }

  /** The descriptor answers the function id. */
  predicate Answers(d: Desc, fid: uint32) {
    Started(d) && d.callType == CallType(fid) && d.startOen <= Oen(fid) <= d.endOen
  }

  /** Linear search: the last of the first `n` descriptors that answers. */
  function Search(ds: seq<Desc>, n: nat, fid: uint32): (r: Option<nat>)
    requires n <= |ds|
    ensures r.Some? ==> r.value < n && Answers(ds[r.value], fid) && forall i :: r.value < i < n ==> !Answers(ds[i], fid)
    ensures r.None? ==> forall i :: 0 <= i < n ==> !Answers(ds[i], fid)
  {
    if n == 0 then None
    else if Answers(ds[n - 1], fid) then Some(n - 1)
    else Search(ds, n - 1, fid)
  }

  lemma {:induction false} OrDisjoint(x: nat, y: nat, k: nat)
    requires x < Pow2(k)
    ensures Or(x, Shl(y, k)) == x + Shl(y, k)
  {
    if k > 0 {
      OrDisjoint(x / 2, y, k - 1);
      OrStep(x, Shl(y, k), x / 2, Shl(y, k - 1), x % 2);
    }
  }

  lemma {:induction false} ShlSix(y: nat)
    ensures Shl(y, 6) == 64 * y
  {
    assert Shl(y, 1) == 2 * y;
    assert Shl(y, 2) == 2 * Shl(y, 1);
    assert Shl(y, 4) == 4 * Shl(y, 2);
    assert Shl(y, 6) == 4 * Shl(y, 4);
  }

  lemma {:induction false} OrStep(x: nat, y: nat, h: nat, g: nat, a: nat)
    requires x == 2 * h + a && a < 2 && y == 2 * g
    ensures Or(x, y) == 2 * Or(h, g) + a
  {
    assert x / 2 == h && y / 2 == g && x % 2 == a && y % 2 == 0;
  }

  lemma {:induction false} Pow2Values()
    ensures Pow2(6) == 64 && Pow2(1) == 2
  {
    assert Pow2(3) == 8;
  }

  lemma {:induction false} MaskOen(x: nat)
    ensures And(x, OEN_MASK) == x % 64
  {
    Pow2Values();
    AndMask(x, 6);
  }

  lemma {:induction false} MaskType(x: nat)
    ensures And(x, TYPE_MASK) == x % 2
  {
    Pow2Values();
    AndMask(x, 1);
  }

  lemma {:induction false} UniqueOenValue(oen: nat, callType: nat)
    requires oen < 64 && callType < 2
    ensures UniqueOen(oen, callType) == oen + 64 * callType
  {
    MasksKeep(oen, callType);
    OrFields(oen, callType);
  }

  lemma {:induction false} MasksKeep(oen: nat, callType: nat)
    requires oen < 64 && callType < 2
    ensures And(oen, OEN_MASK) == oen && And(callType, TYPE_MASK) == callType
  {
    MaskOen(oen);
    MaskType(callType);
  }

  lemma {:induction false} OrFields(oen: nat, callType: nat)
    requires oen < 64
    ensures Or(oen, Shl(callType, OEN_WIDTH)) == oen + 64 * callType
  {
    Pow2Values();
    OrDisjoint(oen, callType, OEN_WIDTH);
    ShlSix(callType);
  }

  lemma {:induction false} BigPowers()
    ensures Pow2(24) == 0x100_0000 && Pow2(31) == 0x8000_0000
  {
    Pow2Byte(0);
    Pow2Byte(8);
    Pow2Byte(16);
    Pow2Byte(24);
    assert Pow2(32) == 2 * Pow2(31);
  }

  lemma {:induction false} FidFields(fid: uint32)
    ensures And(Shr(fid, 24), OEN_MASK) == Oen(fid) && And(Shr(fid, 31), TYPE_MASK) == CallType(fid)
  {
    BigPowers();
    ShrIsDiv(fid, 24);
    MaskOen(Shr(fid, 24));
    ShrIsDiv(fid, 31);
    MaskType(Shr(fid, 31));
  }

  /** The table index of a function id. */
  lemma {:induction false} FidIndex(fid: uint32)
    ensures UniqueOenOfFid(fid) == Oen(fid) + 64 * CallType(fid) < MAX_RT_SVCS
  {
    FidFields(fid);
    UniqueOenValue(Oen(fid), CallType(fid));
  }

  /** A valid descriptor covers the table indices of exactly the ids it is for. */
  lemma {:induction false} RangeCovers(d: Desc, fid: uint32)
    requires ValidDesc(d)
    ensures UniqueOen(d.startOen, d.callType) == d.startOen + 64 * d.callType
    ensures UniqueOen(d.endOen, d.callType) == d.endOen + 64 * d.callType < MAX_RT_SVCS
    ensures UniqueOen(d.startOen, d.callType) <= UniqueOenOfFid(fid) <= UniqueOen(d.endOen, d.callType)
        <==> d.callType == CallType(fid) && d.startOen <= Oen(fid) <= d.endOen
  {
    UniqueOenValue(d.startOen, d.callType);
    UniqueOenValue(d.endOen, d.callType);
    FidIndex(fid);
    assert Oen(fid) < 64 && CallType(fid) < 2;
  }

  /**
   A descriptor is sound if a table index stands for each of its entities and for
   nothing else, and the service has some function at all.
   */
  ghost predicate SoundDesc(d: Desc) {
    && (d.init.Some? || d.hasHandle) && d.startOen <= d.endOen
    && forall oen: nat :: d.startOen <= oen <= d.endOen ==> Callable(d.callType, oen)
  }

  /** Some function id is of this type and entity. */
  ghost predicate Callable(callType: nat, oen: nat) {
    exists fid: uint32 :: CallType(fid) == callType && Oen(fid) == oen
  }

  lemma {:induction false} FidOf(oen: nat, callType: nat) returns (fid: uint32)
    requires oen < 64 && callType < 2
    ensures Oen(fid) == oen && CallType(fid) == callType
  {
    fid := 0x100_0000 * oen + 0x8000_0000 * callType;
  }

  /** `validate_rt_svc_desc` lets through exactly the descriptors all of whose entities can be called. */
  lemma {:induction false} ValidMeansSound(d: Desc)
    ensures ValidDesc(d) <==> SoundDesc(d)
  {
    if ValidDesc(d) {
      forall oen: nat | d.startOen <= oen <= d.endOen ensures Callable(d.callType, oen) {
        var fid := FidOf(oen, d.callType);
      }
    }
    if SoundDesc(d) {
      assert Callable(d.callType, d.endOen);
      var fid: uint32 :| CallType(fid) == d.callType && Oen(fid) == d.endOen;
      assert Oen(fid) < 64 && CallType(fid) < 2;
    }
  }

  /** A descriptor with an initialiser and no handler is let through, and calls can reach it. */
  lemma {:induction false} NoHandlerReached(fid: uint32) returns (d: Desc)
    ensures ValidDesc(d) && !d.hasHandle && Search([d], 1, fid) == Some(0)
  {
    d := Desc(Oen(fid), Oen(fid), CallType(fid), Some(0), false);
    assert Answers(d, fid);
  }

  /** The index the table holds for a search result. */
  function Stored(r: Option<nat>): int {
    if r.Some? then r.value else 0xFF
  }

  class Services {
    const descs: seq<Desc>
    const indices: array<uint8>

    constructor (ds: seq<Desc>)
      ensures descs == ds && indices.Length == MAX_RT_SVCS && fresh(indices)
    {
      descs := ds;
      indices := new uint8[MAX_RT_SVCS](_ => 0);
    }

    /** The table agrees with a search of the first `n` descriptors. */
    ghost predicate Agrees(n: nat)
      reads indices
      requires n <= |descs|
    {
      && indices.Length == MAX_RT_SVCS
      && forall fid: uint32 ::
           UniqueOenOfFid(fid) < MAX_RT_SVCS && indices[UniqueOenOfFid(fid)] == Stored(Search(descs, n, fid))
    }

    /** Without descriptors the table is left as it was. */
    ghost predicate Initialised()
      reads indices
    {
      indices.Length == MAX_RT_SVCS && |descs| < MAX_RT_SVCS && (descs != [] ==> Agrees(|descs|))
    }

    /** `runtime_svc_init`; it panics exactly on an invalid descriptor. */
    method Init() returns (ok: bool)
      requires |descs| < MAX_RT_SVCS && indices.Length == MAX_RT_SVCS
      modifies indices
      ensures ok <==> forall i :: 0 <= i < |descs| ==> SoundDesc(descs[i])
      ensures ok ==> Initialised()
    {
      forall i | 0 <= i < |descs| ensures ValidDesc(descs[i]) <==> SoundDesc(descs[i]) {
        ValidMeansSound(descs[i]);
      }
      if |descs| == 0 {
        return true;
      }
      forall i | 0 <= i < MAX_RT_SVCS {
        indices[i] := 0xFF;
      }
      forall fid: uint32 ensures UniqueOenOfFid(fid) < MAX_RT_SVCS {
        FidIndex(fid);
      }
      for n := 0 to |descs|
        invariant forall i :: 0 <= i < n ==> ValidDesc(descs[i])
        invariant Agrees(n)
      {
        if !ValidDesc(descs[n]) {
          return false;
        }
        if !Started(descs[n]) {
          continue;
        }
        Fill(n);
      }
      return true;
    }

    /** The inner loop. */
    method FillRange(start: nat, end: nat, n: uint8)
      requires start <= end < MAX_RT_SVCS == indices.Length
      modifies indices
      ensures forall j :: 0 <= j < MAX_RT_SVCS ==> indices[j] == if start <= j <= end then n else old(indices[j])
    {
      var i := start;
      while i <= end
        invariant start <= i <= end + 1
        invariant forall j :: 0 <= j < MAX_RT_SVCS ==> indices[j] == if start <= j < i then n else old(indices[j])
      {
        indices[i] := n;
        i := i + 1;
      }
    }

    /** Descriptor `n` takes over its range. */
    method Fill(n: nat)
      requires n < |descs| < MAX_RT_SVCS && ValidDesc(descs[n]) && Started(descs[n]) && Agrees(n)
      modifies indices
      ensures Agrees(n + 1)
    {
      var d := descs[n];
      RangeCovers(d, 0);
      FillRange(UniqueOen(d.startOen, d.callType), UniqueOen(d.endOen, d.callType), n);
      forall fid: uint32
        ensures UniqueOenOfFid(fid) < MAX_RT_SVCS && indices[UniqueOenOfFid(fid)] == Stored(Search(descs, n + 1, fid))
      {
        RangeCovers(d, fid);
        FidIndex(fid);
      }
    }

    /** `handle_runtime_svc`: the chosen descriptor; `None` is SMC_UNK. */
    method Handle(fid: uint32) returns (r: Option<nat>)
      requires Initialised()
      ensures r == Search(descs, |descs|, fid)
      ensures r.Some? ==> r.value < |descs| && var d := descs[r.value];
        && (d.init == None || d.init == Some(0))
        && d.callType == fid / 0x8000_0000 && d.startOen <= fid / 0x100_0000 % 64 <= d.endOen
      ensures forall n :: (if r.Some? then r.value + 1 else 0) <= n < |descs| ==> var d := descs[n];
        || (d.init != None && d.init != Some(0))
        || d.callType != fid / 0x8000_0000 || fid / 0x100_0000 % 64 < d.startOen || d.endOen < fid / 0x100_0000 % 64
    {
      FidIndex(fid);
      var index := indices[UniqueOenOfFid(fid)];
      if index >= |descs| {
        return None;
      }
      return Some(index);
    }
  }
}
