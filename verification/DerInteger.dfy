/**
 Non-volatile counter values as the certificates carry them: a DER encoded
 integer (section 8.3 of ITU-T X.690), read by hand in auth_nvctr.
 */
module DerInteger {
  import opened Bits
  import opened Bytes
  import opened Options

  const ASN1_INTEGER: byte := 0x02

  /** Big-endian value of a byte string. */
  function Value(s: seq<byte>): nat {
    if s == [] then 0 else 0x100 * Value(s[..|s| - 1]) + s[|s| - 1]
  }

  function Decode(p: seq<byte>): Option<uint32> {
    if |p| < 3 || p[0] != ASN1_INTEGER then None
    else if p[1] >= 0x80 || p[1] > 4 || p[2] >= 0x80 || |p| < 2 + p[1] then None
    else
      ValueBound(p[2..2 + p[1]]);
      Some(Value(p[2..2 + p[1]]))
  }

  lemma {:induction false} ValueBound(s: seq<byte>)
    requires |s| <= 4
    ensures Value(s) < 0x1_0000_0000
    ensures |s| == 1 ==> Value(s) == s[0]
    ensures |s| <= 1 ==> Value(s) < 0x100
    ensures |s| <= 2 ==> Value(s) < 0x1_0000
    ensures |s| <= 3 ==> Value(s) < 0x100_0000
  {
    if s != [] {
      ValueBound(s[..|s| - 1]);
    }
  }

  /** The reading loop of auth_nvctr. */
  method ReadCounter(p: seq<byte>) returns (r: Option<uint32>)
    ensures r == Decode(p)
  {
    if |p| < 3 || p[0] != ASN1_INTEGER {
      return None;
    }
    var len := And(p[1], 0x7f);
    LengthByte(p[1]);
    if p[1] >= 0x80 || len > 4 || p[2] >= 0x80 || |p| < 2 + len {
      return None;
    }
    var value: uint32 := 0;
    var body := p[2..2 + len];
    for i := 0 to len
      invariant value == Value(body[..i])
    {
      assert body[..i + 1][..i] == body[..i];
      ValueBound(body[..i + 1]);
      value := 0x100 * value + body[i];
    }
    assert body[..len] == body;
    return Some(value);
  }

  lemma {:induction false} LengthByte(x: byte)
    ensures x < 0x80 ==> And(x, 0x7f) == x
  {
    var k := SevenBits();
    AndLowMask(x, k);
    if x < 0x80 {
      LowAll(x, k);
    }
  }

  lemma {:induction false} SevenBits() returns (k: nat)
    ensures Pow2(k) == 0x80
  {
    k := 7;
    assert Pow2(2) == 4;
    assert Pow2(4) == 16;
    assert Pow2(6) == 64;
  }

  /** Octets of `v`, most significant first, without leading zeros. */
  function Octets(v: nat): (r: seq<byte>)
    ensures v > 0 ==> r != [] && r[0] != 0
  {
    if v == 0 then [] else Octets(v / 0x100) + [v % 0x100]
  }

  /** The DER contents octets: the shortest two's complement form. */
  function Contents(v: nat): (r: seq<byte>)
    ensures r != []
  {
    if v == 0 then [0]
    else if Octets(v)[0] >= 0x80 then [0] + Octets(v)
    else Octets(v)
  }

  function Encode(v: uint32): seq<byte> {
    [ASN1_INTEGER, |Contents(v)| % 0x100] + Contents(v)
  }

  lemma {:induction false} OctetsValue(v: nat)
    ensures Value(Octets(v)) == v
  {
    if v > 0 {
      OctetsValue(v / 0x100);
    }
  }

  lemma {:induction false} LeadingZero(s: seq<byte>)
    ensures Value([0] + s) == Value(s)
  {
    if s != [] {
      assert ([0] + s)[..|s|] == [0] + s[..|s| - 1];
      LeadingZero(s[..|s| - 1]);
    }
  }

  /** How many octets a 32-bit value takes, and when the top bit of the first is set. */
  lemma {:induction false} OctetsShape(v: uint32)
    ensures |Octets(v)| <= 4
    ensures v > 0 && |Octets(v)| == 4 ==> (Octets(v)[0] >= 0x80 <==> v >= 0x8000_0000)
    ensures v >= 0x100_0000 ==> |Octets(v)| == 4
  {
    var a, b, c := v / 0x100, v / 0x100 / 0x100, v / 0x100 / 0x100 / 0x100;
    assert c / 0x100 == 0;
    Octet(v);
    Octet(a);
    Octet(b);
    Octet(c);
  }

  lemma {:induction false} Octet(v: nat)
    ensures v > 0 ==> Octets(v) == Octets(v / 0x100) + [v % 0x100] && |Octets(v)| == |Octets(v / 0x100)| + 1
    ensures v >= 0x100 ==> Octets(v)[0] == Octets(v / 0x100)[0]
    ensures 0 < v < 0x100 ==> Octets(v)[0] == v
    ensures v == 0 ==> Octets(v) == []
  {
  }

  /**
   A counter is read back from its DER encoding exactly when it is below 2^31:
   larger ones take a fifth octet, which the reader refuses.
   */
  lemma {:induction false} CounterRoundTrip(v: uint32, rest: seq<byte>)
    ensures Decode(Encode(v) + rest) == if v < 0x8000_0000 then Some(v) else None
  {
    ContentsLength(v);
    ContentsValue(v);
    ReadsContents(Contents(v), rest);
  }

  /** The contents take five octets from 2^31 on, and four at most below. */
  lemma {:induction false} ContentsLength(v: uint32)
    ensures |Contents(v)| <= 5 && (|Contents(v)| <= 4 <==> v < 0x8000_0000)
  {
    OctetsShape(v);
  }

  /** They have the value, and a first octet that is not negative. */
  lemma {:induction false} ContentsValue(v: uint32)
    ensures Value(Contents(v)) == v && Contents(v)[0] < 0x80
  {
    if v == 0 {
      assert [0][..0] == [];
    } else {
      OctetsValue(v);
      LeadingZero(Octets(v));
    }
  }

  /** The reader takes contents of at most four octets and refuses longer ones. */
  lemma {:induction false} ReadsContents(c: seq<byte>, rest: seq<byte>)
    requires 0 < |c| <= 5 && c[0] < 0x80
    ensures var p := [ASN1_INTEGER, |c|] + c + rest;
      if |c| <= 4 then Value(c) < 0x1_0000_0000 && Decode(p) == Some(Value(c)) else Decode(p) == None
  {
    var p := [ASN1_INTEGER, |c|] + c + rest;
    assert p[1] == |c| && p[2] == c[0] && p[2..2 + |c|] == c;
    if |c| <= 4 {
      ValueBound(c);
    }
  }

  /** An integer without contents, which DER does not have, is read as 0; the octet behind it is still looked at. */
  lemma {:induction false} EmptyContentsRead(b: byte, rest: seq<byte>)
    ensures Decode([0x02, 0, b] + rest) == if b < 0x80 then Some(0) else None
  {
    var p: seq<byte> := [0x02, 0, b] + rest;
    assert p[0] == 0x02 && p[1] == 0 && p[2] == b && p[2..2] == [];
    assert Value(p[2..2]) == 0;
  }
}
