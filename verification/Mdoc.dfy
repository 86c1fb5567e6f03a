/** Building an mdoc IssuerSigned structure, and the verifier of
    ISO/IEC 18013-5 that has to accept it. */
module Mdoc {
  import opened Common
  import opened Cbor

  type Hash = seq<byte> -> seq<byte>

  function Name(s: string): Value {
    Text(Ascii(s))
  }

  // ---------------------------------------------------------------- elements

  datatype Kind = ElementText | ElementFullDate | ElementMap

  /** One claim: a string value, or a CBOR map whose pairs are in the order the
      Go map yields them. */
  datatype Element = Element(identifier: seq<byte>, value: seq<byte>, mapValue: seq<Pair>, kind: Kind)

  function NewElement(identifier: seq<byte>, value: seq<byte>): Element {
    Element(identifier, value, [], if identifier == Ascii("birth_date") then ElementFullDate else ElementText)
  }

  function MapElement(identifier: seq<byte>, value: seq<Pair>): Element {
    Element(identifier, [], value, ElementMap)
  }

  function CborValue(e: Element): Value {
    match e.kind
    case ElementFullDate => Tag(1004, Text(e.value))
    case ElementMap => Map(e.mapValue)
    case ElementText => Text(e.value)
  }

  // ------------------------------------------------------------------- items

  function ItemValue(digestId: nat, random: seq<byte>, e: Element): Value {
    Map([Pair(Name("digestID"), UInt(digestId)),
         Pair(Name("random"), Bytes(random)),
         Pair(Name("elementIdentifier"), Text(e.identifier)),
         Pair(Name("elementValue"), CborValue(e))])
  }

  /** #6.24(bstr .cbor IssuerSignedItem). */
  function TaggedItem(digestId: nat, random: seq<byte>, e: Element): Value {
    Tag(24, Bytes(Encode(ItemValue(digestId, random, e))))
  }

  datatype Failure = RandomFailed

  /** Builds every element's item. randoms are the successive 16-octet reads of
      the random source, which fails once they run out. */
  method BuildNamespaceItems(elements: seq<Element>, randoms: seq<seq<byte>>, sha256: Hash)
    returns (r: Result<(seq<seq<byte>>, map<int, seq<byte>>), Failure>)
    ensures r.Ok? <==> |elements| <= |randoms|
    ensures r.Ok? ==>
              var (tagged, digests) := r.value;
              && |tagged| == |elements|
              && (forall i :: 0 <= i < |elements| ==> tagged[i] == Encode(TaggedItem(i, randoms[i], elements[i])))
              && (forall i :: i in digests <==> 0 <= i < |elements|)
              && (forall i :: 0 <= i < |elements| ==> digests[i] == sha256(tagged[i]))
  {
    var tagged: seq<seq<byte>> := [];
    var digests: map<int, seq<byte>> := map[];
    for i := 0 to |elements|
      invariant |tagged| == i <= |randoms|
      invariant forall k :: 0 <= k < i ==> tagged[k] == Encode(TaggedItem(k, randoms[k], elements[k]))
      invariant forall k :: k in digests <==> 0 <= k < i
      invariant forall k :: 0 <= k < i ==> digests[k] == sha256(tagged[k])
    {
      if i >= |randoms| {
        return Err(RandomFailed);
      }
      var itemBytes := Encode(ItemValue(i, randoms[i], elements[i]));
      var item := Encode(Tag(24, Bytes(itemBytes)));
      tagged := tagged + [item];
      digests := digests[i := sha256(item)];
    }
    return Ok((tagged, digests));
  }

  // ------------------------------------------------- the signed structure

  datatype DeviceKey = DeviceKey(x: seq<byte>, y: seq<byte>)

  datatype Validity = Validity(signed: seq<byte>, validFrom: seq<byte>, validUntil: seq<byte>)

  /** valueDigests for one namespace, in the order the Go map yields the ids. */
  function DigestPairs(digests: map<int, seq<byte>>, order: seq<nat>): seq<Pair>
    requires forall i :: 0 <= i < |order| ==> order[i] in digests
  {
    seq(|order|, i requires 0 <= i < |order| => Pair(UInt(order[i]), Bytes(digests[order[i]])))
  }

  function DeviceKeyInfo(key: Option<DeviceKey>): seq<Pair> {
    match key
    case None => []
    case Some(k) =>
      [Pair(Name("deviceKeyInfo"),
            Map([Pair(Name("deviceKey"),
                      Map([Pair(UInt(1), UInt(2)), Pair(NInt(0), UInt(1)), Pair(NInt(1), Bytes(k.x)),
                           Pair(NInt(2), Bytes(k.y))]))]))]
  }

  /** The MobileSecurityObject, in its fixed field order. */
  function Mso(ns: seq<byte>, digests: seq<Pair>, docType: seq<byte>, key: Option<DeviceKey>, v: Validity): Value {
    Map([Pair(Name("version"), Name("1.0")),
         Pair(Name("digestAlgorithm"), Name("SHA-256")),
         Pair(Name("valueDigests"), Map([Pair(Text(ns), Map(digests))]))]
        + DeviceKeyInfo(key)
        + [Pair(Name("docType"), Text(docType)),
           Pair(Name("validityInfo"),
                Map([Pair(Name("signed"), Tag(0, Text(v.signed))),
                     Pair(Name("validFrom"), Tag(0, Text(v.validFrom))),
                     Pair(Name("validUntil"), Tag(0, Text(v.validUntil)))]))])
  }

  function Protected(): seq<byte> {
    Encode(Map([Pair(UInt(1), NInt(6))]))
  }

  /** One certificate stands alone, several go into an array (label 33). */
  function Unprotected(x5c: seq<seq<byte>>): seq<Pair> {
    if |x5c| == 0 then []
    else if |x5c| == 1 then [Pair(UInt(33), Bytes(x5c[0]))]
    else [Pair(UInt(33), Array(ByteStrings(x5c)))]
  }

  function ByteStrings(bs: seq<seq<byte>>): seq<Value> {
    seq(|bs|, i requires 0 <= i < |bs| => Bytes(bs[i]))
  }

  function ToBeSigned(protected: seq<byte>, payload: seq<byte>): seq<byte> {
    Encode(Array([Name("Signature1"), Bytes(protected), Bytes([]), Bytes(payload)]))
  }

  function CoseSign1(x5c: seq<seq<byte>>, payload: seq<byte>, signature: seq<byte>): Value {
    Array([Bytes(Protected()), Map(Unprotected(x5c)), Bytes(payload), Bytes(signature)])
  }

  function IssuerSigned(issuerAuth: Value, ns: seq<byte>, items: seq<Value>): Value {
    Map([Pair(Name("issuerAuth"), issuerAuth), Pair(Name("nameSpaces"), Map([Pair(Text(ns), Array(items))]))])
  }

  function Concat(parts: seq<seq<byte>>): seq<byte> {
    if parts == [] then [] else parts[0] + Concat(parts[1..])
  }

  /** IssuerSigned assembled around octets that are already encoded. */
  function Assemble(issuerAuth: seq<byte>, ns: seq<byte>, items: seq<seq<byte>>): seq<byte> {
    Head(5, 2) + Encode(Name("issuerAuth")) + issuerAuth
    + Encode(Name("nameSpaces")) + (Head(5, 1) + Encode(Text(ns)) + (Head(4, |items|) + Concat(items)))
  }

  lemma {:induction false} ConcatIsEncodeItems(parts: seq<seq<byte>>, vs: seq<Value>)
    requires |parts| == |vs| && forall i :: 0 <= i < |vs| ==> parts[i] == Encode(vs[i])
    ensures Concat(parts) == EncodeItems(vs)
  {
    if vs != [] {
      ConcatIsEncodeItems(parts[1..], vs[1..]);
    }
  }

  lemma EncodeTwoPairs(p: Pair, q: Pair)
    ensures EncodePairs([p, q]) == Encode(p.key) + Encode(p.value) + Encode(q.key) + Encode(q.value)
  {
    assert [p, q][1..] == [q];
    EncodeOnePair(q);
  }

  lemma EncodeOnePair(p: Pair)
    ensures EncodePairs([p]) == Encode(p.key) + Encode(p.value)
  {
    assert [p][1..] == [];
  }

  /** Embedding encoded octets as they are yields the encoding of the whole. */
  lemma AssembleIsEncode(issuerAuth: Value, ns: seq<byte>, parts: seq<seq<byte>>, items: seq<Value>)
    requires |parts| == |items| && forall i :: 0 <= i < |items| ==> parts[i] == Encode(items[i])
    ensures Assemble(Encode(issuerAuth), ns, parts) == Encode(IssuerSigned(issuerAuth, ns, items))
  {
    ConcatIsEncodeItems(parts, items);
    var spaces := Pair(Text(ns), Array(items));
    EncodeOnePair(spaces);
    EncodeTwoPairs(Pair(Name("issuerAuth"), issuerAuth), Pair(Name("nameSpaces"), Map([spaces])));
  }

  // ------------------------------------------------------------ the verifier

  datatype Claim = Claim(identifier: seq<byte>, value: Value)

  /** The value under a key: the first one, as maps have no second. */
  function Lookup(pairs: seq<Pair>, key: Value): Option<Value> {
    if pairs == [] then None
    else if pairs[0].key == key then Some(pairs[0].value)
    else Lookup(pairs[1..], key)
  }

  /** What an item is made of: its digestID, its random octets and its claim. */
  function ItemParts(item: seq<byte>): Option<(nat, seq<byte>, Claim)> {
    match DecodeAll(item)
    case Some(Tag(24, Bytes(content))) =>
      (match DecodeAll(content)
       case Some(Map(fields)) =>
         (match (Lookup(fields, Name("digestID")), Lookup(fields, Name("random")),
                 Lookup(fields, Name("elementIdentifier")), Lookup(fields, Name("elementValue")))
          case (Some(UInt(id)), Some(Bytes(random)), Some(Text(name)), Some(value)) =>
            Some((id, random, Claim(name, value)))
          case _ => None)
       case _ => None)
    case _ => None
  }

  /** Section 9.1.2.5: an item counts only if the digest of its octets, as
      received, is the one the MSO lists under the item's digestID. */
  function VerifyItem(item: seq<byte>, digests: seq<Pair>, sha256: Hash): Option<Claim> {
    match ItemParts(item)
    case None => None
    case Some((id, _, claim)) => if Lookup(digests, UInt(id)) == Some(Bytes(sha256(item))) then Some(claim) else None
  }

  function VerifyItems(items: seq<seq<byte>>, digests: seq<Pair>, sha256: Hash): Option<seq<Claim>> {
    if items == [] then Some([])
    else match (VerifyItem(items[0], digests, sha256), VerifyItems(items[1..], digests, sha256))
      case (Some(c), Some(cs)) => Some([c] + cs)
      case _ => None
  }

  /** The number that an integer stands for. */
  function IntOf(v: Value): Option<int> {
    match v
    case UInt(n) => Some(n)
    case NInt(n) => Some(-1 - n)
    case _ => None
  }

  /** The value under an integer label, as COSE maps have them. */
  function Labelled(pairs: seq<Pair>, key: int): Option<Value> {
    if pairs == [] then None
    else if IntOf(pairs[0].key) == Some(key) then Some(pairs[0].value)
    else Labelled(pairs[1..], key)
  }

  const ES256 := -7

  /** The algorithm in the protected headers (section 3.1 of RFC 9052). */
  function AlgIn(protected: seq<byte>): Option<int> {
    match DecodeAll(protected)
    case Some(Map(headers)) => (match Labelled(headers, 1) case Some(alg) => IntOf(alg) case None => None)
    case _ => None
  }

  predicate IsCoseSign1(v: Value) {
    v.Array? && |v.items| == 4 && v.items[0].Bytes? && v.items[1].Map? && v.items[2].Bytes? && v.items[3].Bytes?
  }

  /** The x5chain header: one certificate by itself, or several in an array
      (section 2 of RFC 9360). */
  function CertificatesIn(issuerAuth: Value): Option<seq<seq<byte>>> {
    if !IsCoseSign1(issuerAuth) then None
    else match Labelled(issuerAuth.items[1].pairs, 33)
      case None => Some([])
      case Some(Bytes(certificate)) => Some([certificate])
      case Some(Array(items)) => OctetStrings(items)
      case _ => None
  }

  function OctetStrings(items: seq<Value>): Option<seq<seq<byte>>> {
    if items == [] then Some([])
    else match (items[0], OctetStrings(items[1..]))
      case (Bytes(b), Some(bs)) => Some([b] + bs)
      case _ => None
  }

  /** The fields of the MSO in a payload, if it is for this docType. */
  function MsoIn(payload: seq<byte>, docType: seq<byte>): Option<seq<Pair>> {
    match DecodeAll(payload)
    case Some(Tag(24, Bytes(m))) =>
      (match DecodeAll(m)
       case Some(Map(mso)) =>
         if Lookup(mso, Name("digestAlgorithm")) == Some(Name("SHA-256"))
            && Lookup(mso, Name("docType")) == Some(Text(docType)) then Some(mso) else None
       case _ => None)
    case _ => None
  }

  /** The fields of the MSO in a COSE_Sign1 that ES256 verifies. */
  function SignedMso(issuerAuth: Value, docType: seq<byte>, check: (seq<byte>, seq<byte>) -> bool): Option<seq<Pair>> {
    if !IsCoseSign1(issuerAuth) || AlgIn(issuerAuth.items[0].bytes) != Some(ES256)
       || !check(ToBeSigned(issuerAuth.items[0].bytes, issuerAuth.items[2].bytes), issuerAuth.items[3].bytes) then None
    else MsoIn(issuerAuth.items[2].bytes, docType)
  }

  /** The digests an MSO lists for ns. */
  function DigestsIn(mso: seq<Pair>, ns: seq<byte>): Option<seq<Pair>> {
    match Lookup(mso, Name("valueDigests"))
    case Some(Map(spaces)) =>
      (match Lookup(spaces, Text(ns)) case Some(Map(digests)) => Some(digests) case _ => None)
    case _ => None
  }

  /** The holder's key: an EC2 key on the curve P-256 (section 7.1 of RFC 9053). */
  function DeviceKeyIn(mso: seq<Pair>): Option<DeviceKey> {
    match Lookup(mso, Name("deviceKeyInfo"))
    case Some(Map(info)) =>
      (match Lookup(info, Name("deviceKey"))
       case Some(Map(key)) =>
         (match (Labelled(key, 1), Labelled(key, -1), Labelled(key, -2), Labelled(key, -3))
          case (Some(kty), Some(crv), Some(Bytes(x)), Some(Bytes(y))) =>
            if IntOf(kty) == Some(2) && IntOf(crv) == Some(1) then Some(DeviceKey(x, y)) else None
          case _ => None)
       case _ => None)
    case _ => None
  }

  function ValidityIn(mso: seq<Pair>): Option<Validity> {
    match Lookup(mso, Name("validityInfo"))
    case Some(Map(info)) =>
      (match (Lookup(info, Name("signed")), Lookup(info, Name("validFrom")), Lookup(info, Name("validUntil")))
       case (Some(Tag(0, Text(signed))), Some(Tag(0, Text(validFrom))), Some(Tag(0, Text(validUntil)))) =>
         Some(Validity(signed, validFrom, validUntil))
       case _ => None)
    case _ => None
  }

  function RawLookup(pairs: seq<RawPair>, key: Value): Option<seq<byte>> {
    if pairs == [] then None
    else if pairs[0].key == key then Some(pairs[0].value)
    else RawLookup(pairs[1..], key)
  }

  /** The issuer's part of a document. */
  function IssuerAuthIn(doc: seq<byte>): Option<Value> {
    match RawMap(doc)
    case None => None
    case Some(top) => match RawLookup(top, Name("issuerAuth")) case None => None case Some(auth) => DecodeAll(auth)
  }

  /** The octets of the items presented for ns, as they stand in the document. */
  function ItemsIn(doc: seq<byte>, ns: seq<byte>): Option<seq<seq<byte>>> {
    match RawMap(doc)
    case None => None
    case Some(top) => match RawLookup(top, Name("nameSpaces")) case None => None case Some(s) => PresentedItems(s, ns)
  }

  function PresentedItems(spaces: seq<byte>, ns: seq<byte>): Option<seq<seq<byte>>> {
    match RawMap(spaces)
    case None => None
    case Some(pairs) => match RawLookup(pairs, Text(ns)) case None => None case Some(items) => RawArray(items)
  }

  /** The digests for ns that the issuer has signed in a document. */
  function SignedDigests(doc: seq<byte>, ns: seq<byte>, docType: seq<byte>,
                         check: (seq<byte>, seq<byte>) -> bool): Option<seq<Pair>> {
    match IssuerAuthIn(doc)
    case None => None
    case Some(auth) =>
      match SignedMso(auth, docType, check)
      case None => None
      case Some(mso) => DigestsIn(mso, ns)
  }

  /** The whole check of a presented IssuerSigned. */
  function Verify(doc: seq<byte>, ns: seq<byte>, docType: seq<byte>, sha256: Hash,
                  check: (seq<byte>, seq<byte>) -> bool): Option<seq<Claim>> {
    match (SignedDigests(doc, ns, docType, check), ItemsIn(doc, ns))
    case (Some(digests), Some(items)) => VerifyItems(items, digests, sha256)
    case _ => None
  }

  // -------------------------------------------------- what the signature covers

  lemma FitItemsOf(vs: seq<Value>)
    requires forall i :: 0 <= i < |vs| ==> Fits(vs[i])
    ensures FitItems(vs)
  {
    if vs != [] {
      FitItemsOf(vs[1..]);
    }
  }

  /** The octets signed come apart as the Sig_structure of section 4.4 of RFC 9052:
      the context, the protected headers, no external data, and the payload. */
  lemma ToBeSignedComesApart(protected: seq<byte>, payload: seq<byte>)
    requires |protected| < LIMIT && |payload| < LIMIT
    ensures DecodeAll(ToBeSigned(protected, payload))
            == Some(Array([Text(Ascii("Signature1")), Bytes(protected), Bytes([]), Bytes(payload)]))
  {
    var parts := [Text(Ascii("Signature1")), Bytes(protected), Bytes([]), Bytes(payload)];
    FitItemsOf(parts);
    DecodeAllEncode(Array(parts));
  }

  /** So a signature covers one payload and one set of protected headers. */
  lemma ToBeSignedDetermines(protected: seq<byte>, payload: seq<byte>, protected': seq<byte>, payload': seq<byte>)
    requires |protected| < LIMIT && |payload| < LIMIT && |protected'| < LIMIT && |payload'| < LIMIT
    ensures ToBeSigned(protected, payload) == ToBeSigned(protected', payload') <==>
            protected == protected' && payload == payload'
  {
    ToBeSignedComesApart(protected, payload);
    ToBeSignedComesApart(protected', payload');
  }

  lemma ReceivedOctetsFit(issuerAuth: Value)
    requires Fits(issuerAuth) && IsCoseSign1(issuerAuth)
    ensures |issuerAuth.items[0].bytes| < LIMIT && |issuerAuth.items[2].bytes| < LIMIT
  {
    var items := issuerAuth.items;
    assert Fits(items[0]) && FitItems(items[1..]) && FitItems(items[1..][1..]);
    assert items[1..][1..][0] == items[2] && Fits(items[2]);
  }

  /** Nothing else passes for an MSO: if signatures check only on what was signed,
      each time these headers over a payload, then the MSO that a verifier accepts
      is in one of those payloads. */
  lemma OnlySignedMsoVerifies(doc: seq<byte>, docType: seq<byte>, check: (seq<byte>, seq<byte>) -> bool,
                              payloads: seq<seq<byte>>)
    returns (k: nat)
    requires IssuerAuthIn(doc).Some? && SignedMso(IssuerAuthIn(doc).value, docType, check).Some?
    requires forall i :: 0 <= i < |payloads| ==> |payloads[i]| < LIMIT
    requires forall m, sig :: check(m, sig) ==>
               exists i :: 0 <= i < |payloads| && m == ToBeSigned(Protected(), payloads[i])
    ensures k < |payloads| && IssuerAuthIn(doc).value.items[2] == Bytes(payloads[k])
  {
    var auth := IssuerAuthIn(doc).value;
    var octets := RawLookup(RawMap(doc).value, Name("issuerAuth")).value;
    DecodedFits(octets);
    ReceivedOctetsFit(auth);
    ProtectedFits();
    assert check(ToBeSigned(auth.items[0].bytes, auth.items[2].bytes), auth.items[3].bytes);
    k :| k < |payloads| && ToBeSigned(auth.items[0].bytes, auth.items[2].bytes) == ToBeSigned(Protected(), payloads[k]);
    ToBeSignedDetermines(auth.items[0].bytes, auth.items[2].bytes, Protected(), payloads[k]);
  }

  /** The protected headers say ES256. */
  lemma ProtectedFits()
    ensures |Protected()| < LIMIT && AlgIn(Protected()) == Some(ES256)
  {
    var headers := [Pair(UInt(1), NInt(6))];
    assert headers[1..] == [];
    assert FitPair(headers[0]) && FitPairs(headers);
    DecodeAllEncode(Map(headers));
    EncodeOnePair(headers[0]);
  }

  /** The payload that carries an MSO. */
  function MsoPayload(mso: Value): seq<byte> {
    Encode(Tag(24, Bytes(Encode(mso))))
  }

  lemma MsoPayloadDecodes(mso: Value)
    requires Fits(mso) && Fits(Tag(24, Bytes(Encode(mso))))
    ensures DecodeAll(MsoPayload(mso)) == Some(Tag(24, Bytes(Encode(mso)))) && DecodeAll(Encode(mso)) == Some(mso)
  {
    DecodeAllEncode(Tag(24, Bytes(Encode(mso))));
    DecodeAllEncode(mso);
  }

  lemma PayloadFits(x5c: seq<seq<byte>>, payload: seq<byte>, signature: seq<byte>)
    requires Fits(CoseSign1(x5c, payload, signature))
    ensures |payload| < LIMIT
  {
    ReceivedOctetsFit(CoseSign1(x5c, payload, signature));
  }

  lemma MsoInPayload(mso: seq<Pair>, docType: seq<byte>)
    requires Fits(Map(mso)) && Fits(Tag(24, Bytes(Encode(Map(mso)))))
    ensures MsoIn(MsoPayload(Map(mso)), docType)
            == if Lookup(mso, Name("digestAlgorithm")) == Some(Name("SHA-256"))
                  && Lookup(mso, Name("docType")) == Some(Text(docType)) then Some(mso) else None
  {
    MsoPayloadDecodes(Map(mso));
  }

  /** What a verifier makes of a COSE_Sign1. */
  lemma SignedMsoOf(x5c: seq<seq<byte>>, payload: seq<byte>, signature: seq<byte>, docType: seq<byte>,
                    check: (seq<byte>, seq<byte>) -> bool)
    ensures SignedMso(CoseSign1(x5c, payload, signature), docType, check)
            == if check(ToBeSigned(Protected(), payload), signature) then MsoIn(payload, docType) else None
  {
    ProtectedFits();
  }
}
