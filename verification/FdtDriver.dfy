/**
 A program that uses the library: it makes writer calls on a buffer, finishes the
 blob and walks the buffer again.
 */
module FdtDriver {
  import opened Bytes
  import opened Options
  import opened Fdt
  import opened FdtWriter
  import opened FdtWalk
  import opened FdtFinish
  import opened FdtSw
  import opened FdtRoundTrip
  import opened FdtRoom

  method Make(sw: SwBlob, c: Call) returns (code: Code)
    requires sw.Writing() && GoodCall(c)
    modifies sw, sw.buf
    ensures code == Step(old(sw.w), c).1
    ensures code != Wild ==> sw.Writing() && sw.w == Step(old(sw.w), c).0
  {
    match c {
      case Reserve(address, size) => { code := sw.AddReservemapEntry(address, size); }
      case Begin(name) => { code := sw.BeginNode(name); }
      case EndCall => { code := sw.EndNode(); }
      case Property(name, value) => { code := sw.SetProperty(name, value); }
    }
  }

  lemma {:induction false} RunSnoc(total: nat, cs: seq<Call>, k: nat)
    requires k < |cs| && Run(total, cs[..k]).Some?
    ensures var (w, done) := Run(total, cs[..k]).value;
      Run(total, cs[..k + 1]) ==
        if Step(w, cs[k]).1 == Wild then None
        else Some((Step(w, cs[k]).0, if Step(w, cs[k]).1 == Ok then done + [cs[k]] else done))
  {
    assert cs[..k + 1][..k] == cs[..k];
  }

  lemma {:induction false} RunPrefix(total: nat, cs: seq<Call>, k: nat)
    requires k <= |cs| && Run(total, cs[..k]).None?
    ensures Run(total, cs).None?
    decreases |cs| - k
  {
    if k < |cs| {
      assert cs[..k + 1][..k] == cs[..k];
      RunPrefix(total, cs, k + 1);
    } else {
      assert cs[..k] == cs;
    }
  }

  /** Calls that fail are passed over; a call that would write outside its place ends the run. */
  method WriteTree(buf: array<byte>, cs: seq<Call>) returns (ok: bool)
    requires RSVMAP_OFFSET <= buf.Length < INT_LIMIT && forall i :: 0 <= i < |cs| ==> GoodCall(cs[i])
    modifies buf
    ensures ok <==> Run(buf.Length, cs).Some? && Gap(Run(buf.Length, cs).value.0) >= 4
    ensures ok ==> Fits(Run(buf.Length, cs).value.0) && FinalBlob(Run(buf.Length, cs).value.0) <= buf[..]
  {
    var sw := new SwBlob(buf);
    var code := sw.Create();
    for k := 0 to |cs|
      invariant sw.buf == buf && sw.Writing() && fresh(sw)
      invariant Run(buf.Length, cs[..k]).Some? && Run(buf.Length, cs[..k]).value.0 == sw.w
    {
      RunSnoc(buf.Length, cs, k);
      code := Make(sw, cs[k]);
      if code == Wild {
        RunPrefix(buf.Length, cs, k + 1);
        return false;
      }
    }
    assert cs[..|cs|] == cs;
    code := sw.Finish();
    ok := code == Ok;
  }

  /** A call in front of those still to be read. */
  function Prepend(c: Call, rest: Option<seq<Call>>): Option<seq<Call>> {
    match rest
    case None => None
    case Some(cs) => Some([c] + cs)
  }

  /** What one step of a walk finds. */
  datatype Found = Stop | Broken | Read(call: Call, next: nat)

  /** One step of the walk, with names and values read from the blob. */
  method ReadNext(b: Blob, offset: nat) returns (f: Found)
    requires Sound(b) && offset < INT_LIMIT
    ensures match f
            case Stop => Walk(b, offset) == Some([])
            case Broken => Walk(b, offset) == None
            case Read(c, next) => offset < next < INT_LIMIT && Walk(b, offset) == Prepend(c, Walk(b, next))
  {
    var tag, next := FdtNextTag(b, offset);
    if tag == TAG_END {
      return if next >= 0 then Stop else Broken;
    }
    if next <= offset || next >= INT_LIMIT {
      return Broken;
    }
    var c := ReadToken(b, offset, tag);
    f := if c.None? then Broken else Read(c.value, next);
  }

  /** Walk a blob from an offset on and collect the calls its tokens stand for. */
  method ReadTree(b: Blob, offset: nat) returns (r: Option<seq<Call>>)
    requires Sound(b) && offset < INT_LIMIT
    ensures r == Walk(b, offset)
    decreases INT_LIMIT - offset
  {
    var f := ReadNext(b, offset);
    match f {
      case Stop => { r := Some([]); }
      case Broken => { r := None; }
      case Read(c, next) => {
        var rest := ReadTree(b, next);
        r := Prepend(c, rest);
      }
    }
  }

  /** The first `n` calls are the reserve entries, and all calls fit with the terminator. */
  ghost predicate FitsBuffer(total: nat, cs: seq<Call>, n: nat) {
    n <= |cs| && (forall k :: 0 <= k < |cs| ==> (cs[k].Reserve? <==> k < n)) && Needs(cs) + 4 <= total
  }

  /**
   Writing and walking one buffer: for every list of calls that leaves room for
   the terminator, the calls read back are exactly the structure calls that
   succeeded; for a list that fits the buffer these are all of them.
   */
  method WriteAndRead(buf: array<byte>, cs: seq<Call>) returns (r: Option<seq<Call>>)
    requires RSVMAP_OFFSET <= buf.Length < INT_LIMIT && forall i :: 0 <= i < |cs| ==> GoodCall(cs[i])
    modifies buf
    ensures r == if Run(buf.Length, cs).Some? && Gap(Run(buf.Length, cs).value.0) >= 4
                 then Some(Structural(Run(buf.Length, cs).value.1)) else None
    ensures forall n: nat :: FitsBuffer(buf.Length, cs, n) ==> r == Some(cs[n..])
  {
    forall n: nat | FitsBuffer(buf.Length, cs, n)
      ensures Run(buf.Length, cs).Some? && Gap(Run(buf.Length, cs).value.0) >= 4
      ensures Structural(Run(buf.Length, cs).value.1) == cs[n..]
    {
      AllReadBack(buf.Length, cs, n);
    }
    var ok := WriteTree(buf, cs);
    if !ok {
      return None;
    }
    RoundTrip(buf.Length, cs, buf[..]);
    r := ReadTree(Parse(buf[..]), 0);
  }
}
