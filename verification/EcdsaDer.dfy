/** From a DER Ecdsa-Sig-Value (section 2.2.3 of RFC 3279) to the fixed-width
    r||s that COSE signatures use (section 2.1 of RFC 9053). */
module EcdsaDer {
  import opened BigEndian
  import opened Common

  // ---------------------------------------------------- filling the buffer

  /** big.Int.FillBytes on buf[lo..hi]: x in big-endian, zero-extended. */
  method FillBytes(buf: array<byte>, lo: nat, hi: nat, x: nat)
    requires lo <= hi <= buf.Length && x < Pow256(hi - lo)
    modifies buf
    ensures Number(buf[lo..hi]) == x
    ensures forall k :: 0 <= k < buf.Length && !(lo <= k < hi) ==> buf[k] == old(buf[k])
  {
    var i: nat, rest: nat := hi, x;
    assert rest * Pow256(0) == x;
    while i > lo
      invariant lo <= i <= hi
      invariant Number(buf[i..hi]) + rest * Pow256(hi - i) == x
      invariant forall k :: 0 <= k < buf.Length && !(i <= k < hi) ==> buf[k] == old(buf[k])
    {
      ghost var was := buf[i..hi];
      i := i - 1;
      buf[i] := rest % 256;
      assert buf[i + 1..hi] == was;
      assert buf[i..hi] == [buf[i]] + was;
      NumberFront(rest % 256, was);
      DivideOut(rest, Pow256(|was|));
      rest := rest / 256;
    }
    ZeroOrAtLeast(rest, Pow256(hi - lo));
  }

  lemma DivideOut(x: nat, p: nat)
    ensures x * p == x % 256 * p + x / 256 * (256 * p)
  {
    assert x == x % 256 + 256 * (x / 256);
  }

  lemma ZeroOrAtLeast(x: nat, p: nat)
    ensures x == 0 || x * p >= p
  {
    if x > 0 {
      assert x * p == p + (x - 1) * p;
    }
  }

  // ---------------------------------------------------------------- DER

  function Abs(x: int): nat {
    if x < 0 then -x else x
  }

  /** Two's complement content octets. */
  function SignedValue(content: seq<byte>): int
    requires content != []
  {
    if content[0] >= 128 then Number(content) - Pow256(|content|) else Number(content)
  }

  /** DER wants the shortest form: no leading octet that only repeats the sign. */
  predicate Minimal(content: seq<byte>) {
    && content != []
    && (|content| > 1 ==> !(content[0] == 0 && content[1] < 128) && !(content[0] == 255 && content[1] >= 128))
  }

  /** A length in its shortest form, and what follows. The decoder gives up on
      lengths of more than 31 bits. */
  function ParseLength(s: seq<byte>): Option<(nat, seq<byte>)> {
    if s == [] then None
    else if s[0] < 128 then Some((s[0], s[1..]))
    else
      var n := s[0] - 128;
      if n == 0 || |s| < 1 + n || s[1] == 0 || Number(s[1..n]) >= 0x80_0000 || Number(s[1..1 + n]) < 128 then None
      else Some((Number(s[1..1 + n]), s[1 + n..]))
  }

  /** The content octets under the given tag, and what follows. */
  function ParseTlv(tag: byte, s: seq<byte>): Option<(seq<byte>, seq<byte>)> {
    if s == [] || s[0] != tag then None
    else match ParseLength(s[1..])
      case None => None
      case Some((n, rest)) => if |rest| < n then None else Some((rest[..n], rest[n..]))
  }

  function ParseInteger(s: seq<byte>): Option<(int, seq<byte>)> {
    match ParseTlv(0x02, s)
    case None => None
    case Some((content, rest)) => if Minimal(content) then Some((SignedValue(content), rest)) else None
  }

  /** SEQUENCE { r INTEGER, s INTEGER }. As encoding/asn1 does, ignores octets
      after the sequence and further members at the end of it. */
  function ParseSignature(der: seq<byte>): Option<(int, int)> {
    match ParseTlv(0x30, der)
    case None => None
    case Some((body, _)) =>
      match ParseInteger(body)
      case None => None
      case Some((r, rest)) =>
        match ParseInteger(rest)
        case None => None
        case Some((s, _)) => Some((r, s))
  }

  datatype Failure = SignerFailed | BadDer | Panic

  /** The verifier's reading: each half of 64 octets, big-endian. */
  predicate StandsFor(out: seq<byte>, r: int, s: int) {
    |out| == 64 && Number(out[..32]) == r && Number(out[32..]) == s
  }

  method FillHalves(r: nat, s: nat) returns (out: array<byte>)
    requires r < Pow256(32) && s < Pow256(32)
    ensures fresh(out) && StandsFor(out[..], r, s)
  {
    out := new byte[64](_ => 0);
    FillBytes(out, 0, 32, r);
    ghost var first := out[..32];
    FillBytes(out, 32, 64, s);
    assert out[..][..32] == first == out[0..32] && out[..][32..] == out[32..64];
  }

  /** Reading back is unambiguous both ways: equal outputs mean equal pairs, and
      equal pairs equal outputs. */
  lemma RawSignatureIsFaithful(x: seq<byte>, r: nat, s: nat, y: seq<byte>, r': nat, s': nat)
    requires StandsFor(x, r, s) && StandsFor(y, r', s')
    ensures x == y <==> r == r' && s == s'
  {
    if r == r' && s == s' {
      NumberInjective(x[..32], y[..32]);
      NumberInjective(x[32..], y[32..]);
      assert x == x[..32] + x[32..] && y == y[..32] + y[32..];
    }
  }

  /** What becomes of the signer's answer. FillBytes takes absolute values, and
      panics on a number wider than its buffer. */
  function RawOf(der: seq<byte>): Result<seq<byte>, Failure> {
    match ParseSignature(der)
    case None => Err(BadDer)
    case Some((r, s)) =>
      if Abs(r) < Pow256(32) && Abs(s) < Pow256(32) then Ok(Octets(Abs(r), 32) + Octets(Abs(s), 32)) else Err(Panic)
  }

  /** der is what the signer answers for the hash of the data, if it answers. */
  function RawSignature(der: Option<seq<byte>>): (r: Result<seq<byte>, Failure>)
    ensures r == Err(SignerFailed) <==> der == None
    ensures r == Err(BadDer) <==> der.Some? && ParseSignature(der.value) == None
    ensures r == Err(Panic) <==>
              && der.Some? && ParseSignature(der.value).Some?
              && var (r, s) := ParseSignature(der.value).value; Abs(r) >= Pow256(32) || Abs(s) >= Pow256(32)
  {
    if der == None then Err(SignerFailed) else RawOf(der.value)
  }

  /** So the output stands for the signer's numbers exactly when neither is
      negative. */
  lemma RawStandsFor(der: seq<byte>)
    requires RawOf(der).Ok?
    ensures var (r, s) := ParseSignature(der).value;
            && StandsFor(RawOf(der).value, Abs(r), Abs(s))
            && (StandsFor(RawOf(der).value, r, s) <==> 0 <= r && 0 <= s)
  {
    var (r, s) := ParseSignature(der).value;
    OctetsRoundTrip(Abs(r), 32);
    OctetsRoundTrip(Abs(s), 32);
    var out := RawOf(der).value;
    assert out[..32] == Octets(Abs(r), 32) && out[32..] == Octets(Abs(s), 32);
  }

  /** Two answers give the same output exactly when their numbers agree up to
      sign. */
  lemma SameRawMeansSameMagnitudes(x: seq<byte>, y: seq<byte>)
    requires RawOf(x).Ok? && RawOf(y).Ok?
    ensures var (p, q) := (ParseSignature(x).value, ParseSignature(y).value);
            RawOf(x) == RawOf(y) <==> Abs(p.0) == Abs(q.0) && Abs(p.1) == Abs(q.1)
  {
    var (p, q) := (ParseSignature(x).value, ParseSignature(y).value);
    RawStandsFor(x);
    RawStandsFor(y);
    RawSignatureIsFaithful(RawOf(x).value, Abs(p.0), Abs(p.1), RawOf(y).value, Abs(q.0), Abs(q.1));
  }

  method SignRawP1363(der: Option<seq<byte>>) returns (res: Result<array<byte>, Failure>)
    ensures match RawSignature(der)
            case Ok(out) => res.Ok? && fresh(res.value) && res.value[..] == out
            case Err(e) => res == Err(e)
    ensures res.Ok? ==>
              && var (r, s) := ParseSignature(der.value).value;
              && StandsFor(res.value[..], Abs(r), Abs(s))
              && (StandsFor(res.value[..], r, s) <==> 0 <= r && 0 <= s)
  {
    if der == None {
      return Err(SignerFailed);
    }
    var parsed := ParseSignature(der.value);
    if parsed == None {
      return Err(BadDer);
    }
    var (r, s) := parsed.value;
    if Abs(r) >= Pow256(32) || Abs(s) >= Pow256(32) {
      return Err(Panic);
    }
    var out := FillHalves(Abs(r), Abs(s));
    RawStandsFor(der.value);
    RawSignatureIsFaithful(out[..], Abs(r), Abs(s), RawOf(der.value).value, Abs(r), Abs(s));
    return Ok(out);
  }

  lemma AtLeastOctet(n: nat)
    requires n > 0
    ensures Pow256(n) >= 256
  {
    assert Pow256(n) == 256 * Pow256(n - 1);
  }

  lemma OctetInteger(v: byte, rest: seq<byte>)
    ensures ParseInteger([0x02, 1, v] + rest) == Some((if v >= 128 then v - 256 else v, rest))
  {
    var s := [0x02, 1, v] + rest;
    assert s[1..][1..] == [v] + rest;
    assert ([v] + rest)[..1] == [v] && ([v] + rest)[1..] == rest;
    assert [v][..0] == [];
    assert Number([v]) == v && Pow256(1) == 256;
  }

  lemma OctetIntegers(v: byte) returns (der: seq<byte>)
    ensures der == [0x30, 6, 0x02, 1, v, 0x02, 1, 1]
    ensures ParseSignature(der) == Some((if v >= 128 then v - 256 else v, 1))
  {
    der := [0x30, 6, 0x02, 1, v, 0x02, 1, 1];
    var body, one := [0x02, 1, v] + [0x02, 1, 1], [0x02, 1, 1];
    assert der[1..][1..] == body && body[..6] == body;
    OctetInteger(v, one);
    OctetInteger(1, []);
    assert one + [] == one;
  }

  lemma SmallNumbersAreFine(der: seq<byte>, r: int, s: int)
    requires ParseSignature(der) == Some((r, s)) && Abs(r) < 256 && Abs(s) < 256
    ensures RawOf(der).Ok?
  {
    AtLeastOctet(32);
  }

  /** A negative number is not refused: these two answers, of (-1, 1) and of
      (1, 1), yield the same raw signature. */
  lemma NegativeCollides() returns (x: seq<byte>, y: seq<byte>)
    ensures ParseSignature(x) == Some((-1, 1)) && ParseSignature(y) == Some((1, 1))
    ensures RawOf(x).Ok? && RawOf(x) == RawOf(y)
  {
    x := OctetIntegers(0xFF);
    y := OctetIntegers(1);
    SmallNumbersAreFine(x, -1, 1);
    SmallNumbersAreFine(y, 1, 1);
    SameRawMeansSameMagnitudes(x, y);
  }

  // ------------------------------------------------------------- encoding

  lemma {:induction false} NumberOfFront(c: seq<byte>)
    requires c != []
    ensures Number(c) == c[0] * Pow256(|c| - 1) + Number(c[1..]) && Number(c[1..]) < Pow256(|c| - 1)
  {
    assert c == [c[0]] + c[1..];
    NumberFront(c[0], c[1..]);
    NumberIsBelow(c[1..]);
  }

  /** A minimal content of more than one octet holds a number that does not fit in
      one octet less; and any content holds one that fits. */
  lemma SignedRange(c: seq<byte>)
    requires Minimal(c)
    ensures -(Pow256(|c|) as int) <= 2 * SignedValue(c) < Pow256(|c|)
    ensures |c| > 1 ==> 2 * SignedValue(c) < -(Pow256(|c| - 1) as int) || Pow256(|c| - 1) <= 2 * SignedValue(c)
  {
    var n, p := |c|, Pow256(|c| - 1);
    NumberOfFront(c);
    assert Pow256(n) == 256 * p;
    Between(c[0], p, 0, 127);
    Between(c[0], p, 128, 255);
    if n > 1 {
      var q := Pow256(n - 2);
      NumberOfFront(c[1..]);
      assert p == 256 * q && c[1..][0] == c[1];
      Between(c[1], q, 0, 127);
      Between(c[1], q, 128, 255);
      Between(c[0], p, 1, 127);
      Between(c[0], p, 128, 254);
    }
  }

  lemma Between(d: byte, p: nat, lo: nat, hi: nat)
    ensures lo <= d <= hi ==> lo * p <= d * p <= hi * p
  {
    if lo <= d <= hi {
      assert d * p - lo * p == (d - lo) * p && hi * p - d * p == (hi - d) * p;
    }
  }

  lemma {:induction false} PowersGrow(m: nat, n: nat)
    requires m <= n
    ensures Pow256(m) <= Pow256(n)
  {
    if m < n {
      PowersGrow(m, n - 1);
    }
  }

  lemma ShorterIsSmaller(c: seq<byte>, d: seq<byte>)
    requires Minimal(c) && Minimal(d) && |c| < |d|
    ensures SignedValue(c) != SignedValue(d)
  {
    SignedRange(c);
    SignedRange(d);
    PowersGrow(|c|, |d| - 1);
  }

  /** DER leaves one way only to write an integer, negative ones included. */
  lemma IntegerIsCanonical(c: seq<byte>, d: seq<byte>)
    requires Minimal(c) && Minimal(d)
    ensures SignedValue(c) == SignedValue(d) <==> c == d
  {
    if SignedValue(c) == SignedValue(d) {
      if |c| < |d| {
        ShorterIsSmaller(c, d);
      } else if |d| < |c| {
        ShorterIsSmaller(d, c);
      } else {
        NumberIsBelow(c);
        NumberIsBelow(d);
        NumberInjective(c, d);
      }
    }
  }

  /** The shortest big-endian digits of x, none for 0. */
  function Digits(x: nat): (s: seq<byte>)
    ensures Number(s) == x
    ensures s != [] ==> s[0] != 0
  {
    if x == 0 then [] else Digits(x / 256) + [x % 256]
  }

  lemma {:induction false} DigitsFit(x: nat, n: nat)
    requires x < Pow256(n)
    ensures |Digits(x)| <= n
  {
    if x > 0 && n > 0 {
      DigitsFit(x / 256, n - 1);
    }
  }

  lemma OneMoreDigit(n: nat, d: byte)
    requires n > 0 || d > 0
    ensures Digits(256 * n + d) == Digits(n) + [d]
  {
    assert (256 * n + d) / 256 == n && (256 * n + d) % 256 == d;
  }

  lemma {:induction false} DigitsOfNumber(t: seq<byte>)
    requires t == [] || t[0] != 0
    ensures Digits(Number(t)) == t
  {
    if t != [] {
      var init, last := t[..|t| - 1], t[|t| - 1];
      DigitsOfNumber(init);
      LeadingDigitCounts(t);
      OneMoreDigit(Number(init), last);
      assert t == init + [last];
    }
  }

  lemma {:induction false} LeadingDigitCounts(t: seq<byte>)
    requires t != [] && t[0] != 0
    ensures Number(t) > 0
  {
    if |t| > 1 {
      LeadingDigitCounts(t[..|t| - 1]);
    }
  }

  /** The DER length of contents of n octets. */
  function EncodeLength(n: nat): seq<byte>
    requires n < 0x8000_0000
  {
    if n < 128 then [n]
    else
      LengthOctets(n);
      [128 + |Digits(n)|] + Digits(n)
  }

  lemma LengthOctets(n: nat)
    requires n < 0x8000_0000
    ensures |Digits(n)| <= 4
  {
    assert Pow256(4) == 0x1_0000_0000;
    DigitsFit(n, 4);
  }

  /** A length below 2^31 is parsed exactly from its one shortest encoding, and
      a longer one from none. */
  lemma LengthIsCanonical(s: seq<byte>, n: nat, rest: seq<byte>)
    ensures ParseLength(s) == Some((n, rest)) <==> n < 0x8000_0000 && s == EncodeLength(n) + rest
  {
    if ParseLength(s) == Some((n, rest)) {
      if s[0] >= 128 {
        var t := s[1..1 + (s[0] - 128)];
        assert t[..|t| - 1] == s[1..s[0] - 128];
        DigitsOfNumber(t);
      }
      assert s == EncodeLength(n) + rest;
    }
    if n < 0x8000_0000 && s == EncodeLength(n) + rest {
      ParseOfLength(n, rest);
    }
  }

  lemma ParseOfLength(n: nat, rest: seq<byte>)
    requires n < 0x8000_0000
    ensures ParseLength(EncodeLength(n) + rest) == Some((n, rest))
  {
    var s, d := EncodeLength(n) + rest, Digits(n);
    if n < 128 {
      assert s[1..] == rest;
    } else {
      LengthOctets(n);
      assert s[1..1 + |d|] == d && s[1..|d|] == d[..|d| - 1] && s[1 + |d|..] == rest;
      assert Number(d) == 256 * Number(d[..|d| - 1]) + d[|d| - 1];
    }
  }

  /** The DER content octets of a nonnegative integer. */
  function Content(x: nat): (s: seq<byte>)
    ensures Minimal(s) && SignedValue(s) == x
  {
    var d := Digits(x);
    if d == [] || d[0] >= 128 then
      NumberFront(0, d);
      [0] + d
    else d
  }

  function Tlv(tag: byte, content: seq<byte>): (s: seq<byte>)
    requires |content| < 128
    ensures |s| == 2 + |content|
  {
    [tag, |content|] + content
  }

  /** The sequence of two integers with the given content octets. */
  function EncodeContents(c: seq<byte>, d: seq<byte>): seq<byte>
    requires |c| <= 33 && |d| <= 33
  {
    Tlv(0x30, Tlv(0x02, c) + Tlv(0x02, d))
  }

  /** The signer's DER encoding of (r, s). */
  function EncodeSignature(r: nat, s: nat): seq<byte>
    requires r < Pow256(32) && s < Pow256(32)
  {
    ContentFits(r);
    ContentFits(s);
    EncodeContents(Content(r), Content(s))
  }

  lemma ContentFits(x: nat)
    requires x < Pow256(32)
    ensures |Content(x)| <= 33
  {
    DigitsFit(x, 32);
  }

  lemma ParseTlvOf(tag: byte, c: seq<byte>, rest: seq<byte>)
    requires |c| < 128
    ensures ParseTlv(tag, Tlv(tag, c) + rest) == Some((c, rest))
  {
    var s := Tlv(tag, c) + rest;
    assert s[1..][1..] == c + rest;
    assert (c + rest)[..|c|] == c && (c + rest)[|c|..] == rest;
  }

  lemma ParseTlvInteger(c: seq<byte>, rest: seq<byte>)
    requires Minimal(c) && |c| < 128
    ensures ParseInteger(Tlv(0x02, c) + rest) == Some((SignedValue(c), rest))
  {
    ParseTlvOf(0x02, c, rest);
  }

  lemma ParseContents(c: seq<byte>, d: seq<byte>, trailing: seq<byte>)
    requires Minimal(c) && Minimal(d) && |c| <= 33 && |d| <= 33
    ensures ParseSignature(EncodeContents(c, d) + trailing) == Some((SignedValue(c), SignedValue(d)))
  {
    var body := Tlv(0x02, c) + Tlv(0x02, d);
    ParseTlvOf(0x30, body, trailing);
    ParseTlvInteger(c, Tlv(0x02, d));
    assert Tlv(0x02, d) + [] == Tlv(0x02, d);
    ParseTlvInteger(d, []);
  }

  /** Parsing inverts the signer's encoding, whatever follows it. */
  lemma ParseEncodedSignature(r: nat, s: nat, trailing: seq<byte>)
    requires r < Pow256(32) && s < Pow256(32)
    ensures ParseSignature(EncodeSignature(r, s) + trailing) == Some((r, s))
  {
    ContentFits(r);
    ContentFits(s);
    ParseContents(Content(r), Content(s), trailing);
  }

  /** End to end: from the DER encoding of any r, s below 2^256 the method
      makes the 64 octets whose halves read r and s. */
  method Transcode(r: nat, s: nat, trailing: seq<byte>) returns (out: array<byte>)
    requires r < Pow256(32) && s < Pow256(32)
    ensures StandsFor(out[..], r, s)
  {
    ParseEncodedSignature(r, s, trailing);
    var res := SignRawP1363(Some(EncodeSignature(r, s) + trailing));
    out := res.value;
  }

  // ---------------------------------------------------------- the verifier

  /** ES256 as a verifier checks it: ecdsa is the verdict on a message and the
      numbers that the two halves of the signature read. */
  function HalvesCheck(ecdsa: (seq<byte>, nat, nat) -> bool): (seq<byte>, seq<byte>) -> bool {
    (message: seq<byte>, signature: seq<byte>) =>
      |signature| == 64 && ecdsa(message, Number(signature[..32]), Number(signature[32..]))
  }

  /** The verifier checks the magnitudes of the signer's numbers. */
  lemma RawSignatureChecks(message: seq<byte>, der: seq<byte>, ecdsa: (seq<byte>, nat, nat) -> bool)
    requires RawSignature(Some(der)).Ok?
    ensures var (r, s) := ParseSignature(der).value;
            HalvesCheck(ecdsa)(message, RawSignature(Some(der)).value) <==> ecdsa(message, Abs(r), Abs(s))
  {
    RawStandsFor(der);
  }
}
