/** Unpadded base64url (section 5 of RFC 4648), on octets. */
module Base64Url {
  import opened Common

  /** The alphabet: A-Z a-z 0-9 - _ */
  function Char(v: nat): (c: byte)
    requires v < 64
    ensures IsChar(c)
  {
    if v < 26 then 65 + v
    else if v < 52 then 97 + (v - 26)
    else if v < 62 then 48 + (v - 52)
    else if v == 62 then 45 else 95
  }

  predicate IsChar(c: byte) {
    65 <= c <= 90 || 97 <= c <= 122 || 48 <= c <= 57 || c == 45 || c == 95
  }

  function Sextet(c: byte): (v: nat)
    requires IsChar(c)
    ensures v < 64
  {
    if 65 <= c <= 90 then c - 65
    else if 97 <= c <= 122 then c - 97 + 26
    else if 48 <= c <= 57 then c - 48 + 52
    else if c == 45 then 62 else 63
  }

  lemma SextetOfChar(v: nat)
    requires v < 64
    ensures Sextet(Char(v)) == v
  {
  }

  function Encode(b: seq<byte>): (s: seq<byte>)
    ensures AllChars(s)
  {
    if |b| == 0 then []
    else if |b| == 1 then [Char(b[0] / 4), Char(b[0] % 4 * 16)]
    else if |b| == 2 then [Char(b[0] / 4), Char(b[0] % 4 * 16 + b[1] / 16), Char(b[1] % 16 * 4)]
    else EncodeTriple(b[0], b[1], b[2]) + Encode(b[3..])
  }

  function EncodeTriple(x: byte, y: byte, z: byte): (s: seq<byte>)
    ensures |s| == 4 && AllChars(s)
  {
    [Char(x / 4), Char(x % 4 * 16 + y / 16), Char(y % 16 * 4 + z / 64), Char(z % 64)]
  }

  predicate AllChars(s: seq<byte>) {
    forall i :: 0 <= i < |s| ==> IsChar(s[i])
  }

  function Decode(s: seq<byte>): Option<seq<byte>> {
    if !AllChars(s) || |s| % 4 == 1 then None else Some(DecodeChars(s))
  }

  function DecodeChars(s: seq<byte>): seq<byte>
    requires AllChars(s) && |s| % 4 != 1
  {
    if |s| == 0 then []
    else if |s| == 2 then [Sextet(s[0]) * 4 + Sextet(s[1]) / 16]
    else if |s| == 3 then
      [Sextet(s[0]) * 4 + Sextet(s[1]) / 16, Sextet(s[1]) % 16 * 16 + Sextet(s[2]) / 4]
    else DecodeQuad(Sextet(s[0]), Sextet(s[1]), Sextet(s[2]), Sextet(s[3])) + DecodeChars(s[4..])
  }

  function DecodeQuad(a: nat, b: nat, c: nat, d: nat): seq<byte>
    requires a < 64 && b < 64 && c < 64 && d < 64
  {
    [a * 4 + b / 16, b % 16 * 16 + c / 4, c % 4 * 64 + d]
  }

  lemma TripleRoundTrip(x: byte, y: byte, z: byte)
    ensures DecodeQuad(x / 4, x % 4 * 16 + y / 16, y % 16 * 4 + z / 64, z % 64) == [x, y, z]
  {
  }

  lemma DecodeAfterTriple(x: byte, y: byte, z: byte, rest: seq<byte>)
    requires AllChars(rest) && |rest| % 4 != 1
    ensures var s := EncodeTriple(x, y, z) + rest;
            AllChars(s) && |s| % 4 != 1 && DecodeChars(s) == [x, y, z] + DecodeChars(rest)
  {
    var s := EncodeTriple(x, y, z) + rest;
    SextetOfChar(x / 4);
    SextetOfChar(x % 4 * 16 + y / 16);
    SextetOfChar(y % 16 * 4 + z / 64);
    SextetOfChar(z % 64);
    TripleRoundTrip(x, y, z);
    assert s[4..] == rest;
  }

  lemma ShortRoundTrip(b: seq<byte>)
    requires |b| < 3
    ensures |Encode(b)| % 4 != 1 && DecodeChars(Encode(b)) == b
  {
    if |b| == 1 {
      SextetOfChar(b[0] / 4);
      SextetOfChar(b[0] % 4 * 16);
    } else if |b| == 2 {
      SextetOfChar(b[0] / 4);
      SextetOfChar(b[0] % 4 * 16 + b[1] / 16);
      SextetOfChar(b[1] % 16 * 4);
    }
  }

  lemma {:induction false} RoundTripChars(b: seq<byte>)
    ensures |Encode(b)| % 4 != 1 && DecodeChars(Encode(b)) == b
  {
    if |b| < 3 {
      ShortRoundTrip(b);
    } else {
      RoundTripChars(b[3..]);
      DecodeAfterTriple(b[0], b[1], b[2], Encode(b[3..]));
      assert b == [b[0], b[1], b[2]] + b[3..];
    }
  }

  /** Decoding inverts encoding. */
  lemma RoundTrip(b: seq<byte>)
    ensures Decode(Encode(b)) == Some(b)
  {
    RoundTripChars(b);
  }

  /** Table 2 of RFC 4648. */
  lemma Alphabet(v: nat)
    requires v < 64
    ensures v < 26 ==> Char(v) == 'A' as int + v
    ensures 26 <= v < 52 ==> Char(v) == 'a' as int + v - 26
    ensures 52 <= v < 62 ==> Char(v) == '0' as int + v - 52
    ensures Char(62) == '-' as int && Char(63) == '_' as int
  {
  }

  /** Its examples of one, two and three octets. */
  lemma Examples()
    ensures Encode(Ascii("f")) == Ascii("Zg")
    ensures Encode(Ascii("fo")) == Ascii("Zm8")
    ensures Encode(Ascii("foo")) == Ascii("Zm9v")
  {
    assert Ascii("f") == [102] && Ascii("fo") == [102, 111] && Ascii("foo") == [102, 111, 111];
    assert Encode([102]) == [90, 103] && Encode([102, 111]) == [90, 109, 56];
    EncodeThree(102, 111, 111);
    assert EncodeTriple(102, 111, 111) == [90, 109, 57, 118];
  }

  lemma EncodeThree(x: byte, y: byte, z: byte)
    ensures Encode([x, y, z]) == EncodeTriple(x, y, z)
  {
    assert [x, y, z][3..] == [];
  }

  lemma EncodeInjective(a: seq<byte>, b: seq<byte>)
    requires Encode(a) == Encode(b)
    ensures a == b
  {
    RoundTrip(a);
    RoundTrip(b);
  }
}
