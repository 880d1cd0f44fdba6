/** The UTF-8 validator, against the encoding of section 3 of RFC 3629. */
module Utf8 {
  import opened Words

  /** Unicode scalar values: code points that are not surrogates. */
  predicate IsScalar(c: int) {
    0 <= c < 0xD800 || 0xE000 <= c <= 0x10FFFF
  }

  type Scalar = c: int | IsScalar(c)

  function Byte(x: int): byte
    requires 0 <= x < 256
  {
    x as byte
  }

  function EncodeOne(c: Scalar): (s: seq<byte>)
    ensures 1 <= |s| <= 4
  {
    assert IsScalar(c);
    if c < 0x80 then [Byte(c)]
    else if c < 0x800 then [Byte(0xC0 + c / 64), Byte(0x80 + c % 64)]
    else if c < 0x10000 then [Byte(0xE0 + c / 4096), Byte(0x80 + c / 64 % 64), Byte(0x80 + c % 64)]
    else
      [Byte(0xF0 + c / 262144), Byte(0x80 + c / 4096 % 64), Byte(0x80 + c / 64 % 64), Byte(0x80 + c % 64)]
  }

  function Encode(cs: seq<Scalar>): seq<byte> {
    if cs == [] then [] else EncodeOne(cs[0]) + Encode(cs[1..])
  }

  // ------------------------------------------------ one character

  predicate IsUTF8TrailByte(t: byte) {
    0x80 <= t <= 0xbf
  }

  /** The length of the character the validator accepts at the head of `s`, or 0. */
  function HeadLength(s: seq<byte>): (n: nat)
    requires s != []
    ensures n <= |s|
  {
    var lead := s[0];
    if lead <= 0x7f then 1
    else if lead < 0xc2 then 0
    else if lead <= 0xdf && 2 <= |s| && IsUTF8TrailByte(s[1]) then 2
    else if 0xe0 <= lead && lead <= 0xef && 3 <= |s| && IsUTF8TrailByte(s[1]) && IsUTF8TrailByte(s[2])
         && (lead != 0xe0 || s[1] >= 0xa0) && (lead != 0xed || s[1] < 0xa0) then 3
    else if 0xf0 <= lead && lead <= 0xf4 && 4 <= |s|
         && IsUTF8TrailByte(s[1]) && IsUTF8TrailByte(s[2]) && IsUTF8TrailByte(s[3])
         && (lead != 0xf0 || s[1] >= 0x90) && (lead != 0xf4 || s[1] < 0x90) then 4
    else 0
  }

  /** The number spelled by an accepted character. */
  function HeadValue(s: seq<byte>): int
    requires s != [] && HeadLength(s) > 0
  {
    var n, b := HeadLength(s), s[0] as int;
    if n == 1 then b
    else if n == 2 then (b - 0xC0) * 64 + (s[1] as int - 0x80)
    else if n == 3 then (b - 0xE0) * 4096 + (s[1] as int - 0x80) * 64 + (s[2] as int - 0x80)
    else (b - 0xF0) * 262144 + (s[1] as int - 0x80) * 4096 + (s[2] as int - 0x80) * 64 + (s[3] as int - 0x80)
  }

  /** Digits of a number written in base 64. */
  lemma Base64(a: int, b: int, c: int)
    requires 0 <= b < 64 && 0 <= c < 64
    ensures (a * 64 + b) / 64 == a && (a * 64 + b) % 64 == b
    ensures (a * 4096 + b * 64 + c) / 4096 == a && (a * 4096 + b * 64 + c) / 64 % 64 == b
    ensures (a * 4096 + b * 64 + c) % 64 == c
  {
  }

  /** Whatever the validator accepts is the encoding of a scalar value. */
  lemma HeadDecodes(s: seq<byte>)
    requires s != [] && HeadLength(s) > 0
    ensures IsScalar(HeadValue(s)) && EncodeOne(HeadValue(s)) == s[..HeadLength(s)]
  {
    var n, c := HeadLength(s), HeadValue(s);
    if n == 2 {
      Base64(s[0] as int - 0xC0, s[1] as int - 0x80, 0);
    } else if n == 3 {
      Base64(s[0] as int - 0xE0, s[1] as int - 0x80, s[2] as int - 0x80);
    } else if n == 4 {
      HeadDecodesFour(s);
    }
  }

  lemma HeadDecodesFour(s: seq<byte>)
    requires s != [] && HeadLength(s) == 4
    ensures IsScalar(HeadValue(s)) && EncodeOne(HeadValue(s)) == s[..4]
  {
    var a, b, d, e := s[0] as int - 0xF0, s[1] as int - 0x80, s[2] as int - 0x80, s[3] as int - 0x80;
    var c := HeadValue(s);
    var top := a * 64 + b;
    assert c == top * 4096 + d * 64 + e;
    Base64(a, b, 0);
    Base64(top, d, e);
    assert c / 262144 == a;
  }

  lemma EncodedShort(c: Scalar, rest: seq<byte>)
    requires c < 0x800
    ensures HeadLength(EncodeOne(c) + rest) == |EncodeOne(c)| && HeadValue(EncodeOne(c) + rest) == c
  {
  }

  lemma EncodedThree(c: Scalar, rest: seq<byte>)
    requires 0x800 <= c < 0x10000
    ensures HeadLength(EncodeOne(c) + rest) == 3 && HeadValue(EncodeOne(c) + rest) == c
  {
    assert IsScalar(c);
    var a, b, d := c / 4096, c / 64 % 64, c % 64;
    assert c == a * 4096 + b * 64 + d;
    var s := EncodeOne(c) + rest;
    assert s[0] as int == 0xE0 + a && s[1] as int == 0x80 + b && s[2] as int == 0x80 + d;
  }

  lemma FourParts(c: int, a: int, b: int, d: int, e: int)
    requires 0x10000 <= c <= 0x10FFFF
    requires a == c / 262144 && b == c / 4096 % 64 && d == c / 64 % 64 && e == c % 64
    ensures c == a * 262144 + b * 4096 + d * 64 + e
    ensures 0 <= a <= 4 && 0 <= b < 64 && 0 <= d < 64 && 0 <= e < 64
    ensures (a == 0 ==> b >= 16) && (a == 4 ==> b < 16)
  {
  }

  lemma EncodedFour(c: Scalar, rest: seq<byte>)
    requires 0x10000 <= c
    ensures HeadLength(EncodeOne(c) + rest) == 4 && HeadValue(EncodeOne(c) + rest) == c
  {
    assert IsScalar(c);
    var a, b, d, e := c / 262144, c / 4096 % 64, c / 64 % 64, c % 64;
    FourParts(c, a, b, d, e);
    var s := EncodeOne(c) + rest;
    assert s[0] as int == 0xF0 + a && s[1] as int == 0x80 + b;
    assert s[2] as int == 0x80 + d && s[3] as int == 0x80 + e;
  }

  /** The encoding of a scalar value is accepted, whatever follows it, and read back. */
  lemma HeadEncoded(c: Scalar, rest: seq<byte>)
    ensures HeadLength(EncodeOne(c) + rest) == |EncodeOne(c)|
    ensures HeadValue(EncodeOne(c) + rest) == c
  {
    if c < 0x800 {
      EncodedShort(c, rest);
    } else if c < 0x10000 {
      EncodedThree(c, rest);
    } else {
      EncodedFour(c, rest);
    }
  }

  // ------------------------------------------------ strings

  predicate Accepted(s: seq<byte>)
    decreases |s|
  {
    s == [] || (HeadLength(s) > 0 && Accepted(s[HeadLength(s)..]))
  }

  function Decode(s: seq<byte>): seq<Scalar>
    requires Accepted(s)
    decreases |s|
  {
    if s == [] then []
    else
      HeadDecodes(s);
      [HeadValue(s)] + Decode(s[HeadLength(s)..])
  }

  lemma EncodeJoin(s: seq<byte>, n: nat, c: Scalar, cs: seq<Scalar>)
    requires n <= |s| && EncodeOne(c) == s[..n] && Encode(cs) == s[n..]
    ensures Encode([c] + cs) == s
  {
    assert ([c] + cs)[1..] == cs;
    assert s == s[..n] + s[n..];
  }

  lemma {:induction false} EncodeDecoded(s: seq<byte>)
    requires Accepted(s)
    ensures Encode(Decode(s)) == s
    decreases |s|
  {
    if s != [] {
      var n, c := HeadLength(s), HeadValue(s);
      HeadDecodes(s);
      EncodeDecoded(s[n..]);
      EncodeJoin(s, n, c, Decode(s[n..]));
    }
  }

  lemma {:induction false} DecodeEncoded(cs: seq<Scalar>)
    ensures Accepted(Encode(cs)) && Decode(Encode(cs)) == cs
  {
    if cs != [] {
      var rest := Encode(cs[1..]);
      var s := EncodeOne(cs[0]) + rest;
      HeadEncoded(cs[0], rest);
      assert s[HeadLength(s)..] == rest;
      DecodeEncoded(cs[1..]);
      assert [cs[0]] + cs[1..] == cs;
    }
  }

  /** Accepted strings are exactly the encodings, each of one sequence of scalar values. */
  lemma AcceptedExactly(s: seq<byte>)
    ensures Accepted(s) <==> exists cs: seq<Scalar> :: Encode(cs) == s
    ensures forall cs: seq<Scalar>, ds: seq<Scalar> :: Encode(cs) == s && Encode(ds) == s ==> cs == ds
  {
    if Accepted(s) {
      EncodeDecoded(s);
    }
    forall cs: seq<Scalar> | Encode(cs) == s ensures Accepted(s) && Decode(s) == cs {
      DecodeEncoded(cs);
    }
  }

  method IsValidUTF8(s: seq<byte>) returns (valid: bool)
    ensures valid <==> exists cs: seq<Scalar> :: Encode(cs) == s
  {
    AcceptedExactly(s);
    var i := 0;
    assert s[0..] == s;
    while i < |s|
      invariant 0 <= i <= |s| && (Accepted(s) <==> Accepted(s[i..]))
      decreases |s| - i
    {
      Step(s, i);
      var lead := s[i];
      i := i + 1;
      if lead <= 0x7f {
        continue;
      }
      if lead < 0xc2 {
        return false;
      } else if lead <= 0xdf && i + 1 <= |s| && IsUTF8TrailByte(s[i]) {
        i := i + 1;
      } else if 0xe0 <= lead && lead <= 0xef && i + 2 <= |s|
             && IsUTF8TrailByte(s[i]) && IsUTF8TrailByte(s[i + 1])
             && (lead != 0xe0 || s[i] >= 0xa0) && (lead != 0xed || s[i] < 0xa0) {
        i := i + 2;
      } else if 0xf0 <= lead && lead <= 0xf4 && i + 3 <= |s|
             && IsUTF8TrailByte(s[i]) && IsUTF8TrailByte(s[i + 1]) && IsUTF8TrailByte(s[i + 2])
             && (lead != 0xf0 || s[i] >= 0x90) && (lead != 0xf4 || s[i] < 0x90) {
        i := i + 3;
      } else {
        return false;
      }
    }
    return true;
  }

  lemma Step(s: seq<byte>, i: nat)
    requires i < |s|
    ensures Accepted(s[i..]) <==> HeadLength(s[i..]) > 0 && Accepted(s[i + HeadLength(s[i..])..])
  {
    assert s[i..][HeadLength(s[i..])..] == s[i + HeadLength(s[i..])..];
  }
}
