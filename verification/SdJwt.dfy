/** SD-JWT credentials: how the builder assembles them, and the verifier of
    section 7.1 of RFC 9901 that has to accept what a holder presents.
    Strings are octets, as in Go. */
module SdJwt {
  import opened Common
  import Base64Url

  type Text = seq<byte>

  const TILDE: byte := '~' as int
  const DOT: byte := '.' as int

  datatype Json = String(s: Text) | Number(n: int) | Array(items: seq<Json>) | Object(members: map<Text, Json>)

  /** The libraries: JSON as an encode/decode pair, the JWT library's verdict on
      a set of claims, SHA-256, and the signature algorithm, whose signer may
      fail. */
  datatype Env = Env(encode: Json -> seq<byte>, decode: seq<byte> -> Option<Json>, accepts: map<Text, Json> -> bool,
                     sha256: seq<byte> -> seq<byte>,
                     sign: seq<byte> -> Option<seq<byte>>, check: (seq<byte>, seq<byte>) -> bool)

  ghost predicate Sound(env: Env) {
    && (forall j :: env.decode(env.encode(j)) == Some(j))
    && (forall m :: env.sign(m).Some? ==> env.check(m, env.sign(m).value))
  }

  // ------------------------------------------------------------ disclosures

  /** base64url of the JSON array [salt, name, value]. */
  function Disclosure(env: Env, salt: seq<byte>, name: Text, value: Json): Text {
    Base64Url.Encode(env.encode(Array([String(Base64Url.Encode(salt)), String(name), value])))
  }

  /** Over the octets of the encoded disclosure itself. */
  function Digest(env: Env, encoded: Text): Text {
    Base64Url.Encode(env.sha256(encoded))
  }

  /** What a disclosure says: a claim name and its value. */
  function ReadDisclosure(env: Env, encoded: Text): Option<(Text, Json)> {
    match Base64Url.Decode(encoded)
    case None => None
    case Some(b) =>
      match env.decode(b)
      case Some(Array(items)) =>
        if |items| == 3 && items[0].String? && items[1].String? then Some((items[1].s, items[2])) else None
      case _ => None
  }

  lemma ReadDisclosureOf(env: Env, salt: seq<byte>, name: Text, value: Json)
    requires Sound(env)
    ensures ReadDisclosure(env, Disclosure(env, salt, name, value)) == Some((name, value))
  {
    Base64Url.RoundTrip(env.encode(Array([String(Base64Url.Encode(salt)), String(name), value])));
  }

  /** What a disclosure is made of: the octets of its salt, a claim name and the
      claim's value. */
  function DisclosureParts(env: Env, encoded: Text): Option<(seq<byte>, Text, Json)> {
    match Base64Url.Decode(encoded)
    case None => None
    case Some(b) =>
      match env.decode(b)
      case Some(Array(items)) =>
        if !(|items| == 3 && items[0].String? && items[1].String?) then None
        else
          (match Base64Url.Decode(items[0].s)
           case Some(salt) => Some((salt, items[1].s, items[2]))
           case None => None)
      case _ => None
  }

  lemma DisclosureComesApart(env: Env, salt: seq<byte>, name: Text, value: Json)
    requires Sound(env)
    ensures DisclosureParts(env, Disclosure(env, salt, name, value)) == Some((salt, name, value))
  {
    Base64Url.RoundTrip(salt);
    Base64Url.RoundTrip(env.encode(Array([String(Base64Url.Encode(salt)), String(name), value])));
  }

  /** So equal disclosures have the same salt, and one claim under two salts makes
      two disclosures that nothing but the salt tells apart. */
  lemma EqualDisclosures(env: Env, salt: seq<byte>, name: Text, value: Json,
                         salt': seq<byte>, name': Text, value': Json)
    requires Sound(env)
    ensures Disclosure(env, salt, name, value) == Disclosure(env, salt', name', value') <==>
            salt == salt' && name == name' && value == value'
  {
    DisclosureComesApart(env, salt, name, value);
    DisclosureComesApart(env, salt', name', value');
  }

  /** A digest reads back as the SHA-256 of the encoded disclosure. */
  lemma DigestReadsBack(env: Env, encoded: Text)
    ensures Base64Url.Decode(Digest(env, encoded)) == Some(env.sha256(encoded))
  {
    Base64Url.RoundTrip(env.sha256(encoded));
  }

  // ------------------------------------------------- the ~ serialization

  /** "<jwt>~<disclosure>~...~" */
  function Serialize(jwt: Text, disclosures: seq<Text>): Text {
    if disclosures == [] then jwt + [TILDE]
    else Serialize(jwt, disclosures[..|disclosures| - 1]) + disclosures[|disclosures| - 1] + [TILDE]
  }

  function Split(s: Text): (parts: seq<Text>)
    ensures parts != []
  {
    if s == [] then [[]]
    else
      var rest := Split(s[1..]);
      if s[0] == TILDE then [[]] + rest else [[s[0]] + rest[0]] + rest[1..]
  }

  predicate NoTilde(s: Text) {
    forall i :: 0 <= i < |s| ==> s[i] != TILDE
  }

  lemma {:induction false} SplitAtTilde(part: Text, rest: Text)
    requires NoTilde(part)
    ensures Split(part + [TILDE] + rest) == [part] + Split(rest)
  {
    var s := part + [TILDE] + rest;
    if part == [] {
      assert s[1..] == rest;
    } else {
      assert s[1..] == part[1..] + [TILDE] + rest;
      SplitAtTilde(part[1..], rest);
      assert [part[0]] + part[1..] == part;
    }
  }

  lemma {:induction false} SplitSerialized(jwt: Text, disclosures: seq<Text>, tail: Text)
    requires NoTilde(jwt) && forall i :: 0 <= i < |disclosures| ==> NoTilde(disclosures[i])
    ensures Split(Serialize(jwt, disclosures) + tail) == [jwt] + disclosures + Split(tail)
  {
    if disclosures == [] {
      SplitAtTilde(jwt, tail);
    } else {
      var init, last := disclosures[..|disclosures| - 1], disclosures[|disclosures| - 1];
      assert Serialize(jwt, disclosures) + tail == Serialize(jwt, init) + (last + [TILDE] + tail);
      SplitSerialized(jwt, init, last + [TILDE] + tail);
      SplitAtTilde(last, tail);
      assert init + [last] == disclosures;
      assert [jwt] + init + ([last] + Split(tail)) == [jwt] + disclosures + Split(tail);
    }
  }

  lemma EncodedHasNoTilde(b: seq<byte>)
    ensures NoTilde(Base64Url.Encode(b))
  {
    var s := Base64Url.Encode(b);
    assert forall i :: 0 <= i < |s| ==> Base64Url.IsChar(s[i]);
  }

  // ---------------------------------------------------------------- the JWT

  function SigningInput(header: seq<byte>, payload: seq<byte>): Text {
    Base64Url.Encode(header) + [DOT] + Base64Url.Encode(payload)
  }

  function Compact(header: seq<byte>, payload: seq<byte>, signature: seq<byte>): Text {
    SigningInput(header, payload) + [DOT] + Base64Url.Encode(signature)
  }

  /** The part of s before its first dot, and the part after it. */
  function CutAtDot(s: Text): Option<(Text, Text)> {
    if s == [] then None
    else if s[0] == DOT then Some(([], s[1..]))
    else match CutAtDot(s[1..])
      case None => None
      case Some((a, b)) => Some(([s[0]] + a, b))
  }

  /** The payload of a compact JWS whose signature checks. */
  function VerifiedPayload(env: Env, jwt: Text): Option<Json> {
    match CutAtDot(jwt)
    case None => None
    case Some((h, rest)) =>
      match CutAtDot(rest)
      case None => None
      case Some((p, s)) =>
        match (Base64Url.Decode(p), Base64Url.Decode(s))
        case (Some(payload), Some(signature)) =>
          if env.check(h + [DOT] + p, signature) then env.decode(payload) else None
        case _ => None
  }

  lemma {:induction false} CutAtDotOf(a: Text, b: Text)
    requires Base64Url.AllChars(a)
    ensures CutAtDot(a + [DOT] + b) == Some((a, b))
  {
    var s := a + [DOT] + b;
    if a == [] {
      assert s[1..] == b;
    } else {
      assert Base64Url.IsChar(a[0]);
      assert s[1..] == a[1..] + [DOT] + b;
      CutAtDotOf(a[1..], b);
      assert [a[0]] + a[1..] == a;
    }
  }

  lemma CompactVerifies(env: Env, header: seq<byte>, payload: Json, signature: seq<byte>)
    requires Sound(env) && env.sign(SigningInput(header, env.encode(payload))) == Some(signature)
    ensures VerifiedPayload(env, Compact(header, env.encode(payload), signature)) == Some(payload)
  {
    var h, p, s := Base64Url.Encode(header), Base64Url.Encode(env.encode(payload)), Base64Url.Encode(signature);
    assert Compact(header, env.encode(payload), signature) == h + [DOT] + (p + [DOT] + s);
    CutAtDotOf(h, p + [DOT] + s);
    CutAtDotOf(p, s);
    Base64Url.RoundTrip(env.encode(payload));
    Base64Url.RoundTrip(signature);
  }

  lemma {:induction false} CutAtDotIs(s: Text)
    ensures CutAtDot(s).Some? ==>
              var (a, b) := CutAtDot(s).value; s == a + [DOT] + b && forall i :: 0 <= i < |a| ==> a[i] != DOT
  {
    if s != [] && s[0] != DOT {
      CutAtDotIs(s[1..]);
    }
  }

  lemma {:induction false} CutOnce(a: Text, b: Text, c: Text, d: Text)
    requires a + [DOT] + b == c + [DOT] + d
    requires forall i :: 0 <= i < |a| ==> a[i] != DOT
    requires forall i :: 0 <= i < |c| ==> c[i] != DOT
    ensures a == c && b == d
  {
    var s, t := a + [DOT] + b, c + [DOT] + d;
    assert s[|a|] == DOT && t[|c|] == DOT;
    assert |a| == |c|;
    assert s[..|a|] == a && t[..|c|] == c && s[|a| + 1..] == b && t[|c| + 1..] == d;
  }

  lemma SigningInputDetermines(header: seq<byte>, payload: seq<byte>, h: Text, p: Text)
    requires h + [DOT] + p == SigningInput(header, payload) && forall i :: 0 <= i < |h| ==> h[i] != DOT
    ensures Base64Url.Decode(h) == Some(header) && Base64Url.Decode(p) == Some(payload)
  {
    var e := Base64Url.Encode(header);
    forall i | 0 <= i < |e|
      ensures e[i] != DOT
    {
      assert Base64Url.IsChar(e[i]);
    }
    CutOnce(h, p, e, Base64Url.Encode(payload));
    Base64Url.RoundTrip(header);
    Base64Url.RoundTrip(payload);
  }

  /** Nothing else passes for a credential: if signatures check only on what was
      signed, each time a header and a payload, then the payload that a verifier
      accepts is one of those. */
  lemma OnlySignedPayloadsVerify(env: Env, jwt: Text, signed: seq<(seq<byte>, seq<byte>)>) returns (k: nat)
    requires VerifiedPayload(env, jwt).Some?
    requires forall m, sig :: env.check(m, sig) ==>
               exists i :: 0 <= i < |signed| && m == SigningInput(signed[i].0, signed[i].1)
    ensures k < |signed| && VerifiedPayload(env, jwt) == env.decode(signed[k].1)
  {
    var (h, rest) := CutAtDot(jwt).value;
    var (p, s) := CutAtDot(rest).value;
    CutAtDotIs(jwt);
    assert env.check(h + [DOT] + p, Base64Url.Decode(s).value);
    k :| k < |signed| && h + [DOT] + p == SigningInput(signed[k].0, signed[k].1);
    SigningInputDetermines(signed[k].0, signed[k].1, h, p);
  }

  lemma CompactHasNoTilde(header: seq<byte>, payload: seq<byte>, signature: seq<byte>)
    ensures NoTilde(Compact(header, payload, signature))
  {
    EncodedHasNoTilde(header);
    EncodedHasNoTilde(payload);
    EncodedHasNoTilde(signature);
  }

  // ------------------------------------------------------------ the verifier

  const SD := Ascii("_sd")
  const SD_ALG := Ascii("_sd_alg")
  const ELLIPSIS := Ascii("...")

  /** The disclosure that a digest refers to, if it was presented. */
  function Find(env: Env, disclosures: seq<Text>, digest: Text): Option<Text> {
    if disclosures == [] then None
    else if Digest(env, disclosures[0]) == digest then Some(disclosures[0])
    else Find(env, disclosures[1..], digest)
  }

  /** Step 3 of section 7.1: put each disclosed claim where its digest stands. A
      claim named _sd or ..., or as one already there, is an error; a digest
      with no disclosure is ignored. */
  function Reveal(env: Env, disclosures: seq<Text>, digests: seq<Json>, claims: map<Text, Json>)
    : Option<map<Text, Json>>
  {
    if digests == [] then Some(claims)
    else
      match Reveal(env, disclosures, digests[..|digests| - 1], claims)
      case None => None
      case Some(acc) =>
        var digest := digests[|digests| - 1];
        if !digest.String? then None
        else match Find(env, disclosures, digest.s)
          case None => Some(acc)
          case Some(d) =>
            match ReadDisclosure(env, d)
            case None => None
            case Some((name, value)) =>
              if name == SD || name == ELLIPSIS || name in acc then None else Some(acc[name := value])
  }

  function DigestsIn(payload: map<Text, Json>): Option<seq<Json>> {
    if SD !in payload then Some([])
    else if payload[SD].Array? then Some(payload[SD].items) else None
  }

  predicate Distinct<T(==)>(s: seq<T>) {
    forall i, j :: 0 <= i < j < |s| ==> s[i] != s[j]
  }

  /** The claims a verifier ends up with, or None if it must reject. */
  function Verify(env: Env, presentation: Text): Option<map<Text, Json>> {
    var parts := Split(presentation);
    if |parts| < 2 || parts[|parts| - 1] != [] then None
    else
      var disclosures := parts[1..|parts| - 1];
      match VerifiedPayload(env, parts[0])
      case Some(Object(payload)) =>
        (match DigestsIn(payload)
         case None => None
         case Some(digests) =>
           if SD_ALG in payload && payload[SD_ALG] != String(Ascii("sha-256")) then None
           else if !Distinct(digests) then None
           else if exists i :: 0 <= i < |disclosures| && String(Digest(env, disclosures[i])) !in digests then None
           else
             match Reveal(env, disclosures, digests, payload)
             case None => None
             case Some(claims) => Some(claims - {SD, SD_ALG}))
      case _ => None
  }
}
