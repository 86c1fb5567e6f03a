/** The mdoc builder, and what the verifier makes of any part of its output
    that a holder may present. */
module MdocIssuance {
  import opened Common
  import opened Cbor
  import opened Mdoc
  import EcdsaDer

  /** Everything that determines one issued mdoc. order is the order in which
      the Go map of digests yields its keys. */
  datatype Issuance = Issuance(ns: seq<byte>, docType: seq<byte>, elements: seq<Element>, randoms: seq<seq<byte>>,
                               key: Option<DeviceKey>, validity: Validity, x5c: seq<seq<byte>>,
                               order: seq<nat>, signature: seq<byte>)

  /** One random value an element, and each digestID listed exactly once. */
  ghost predicate Valid(c: Issuance) {
    |c.elements| <= |c.randoms| && Lists(c.order, |c.elements|)
  }

  /** ids is 0..n-1 in some order. */
  predicate Lists(ids: seq<nat>, n: nat) {
    && Below(ids, n)
    && (forall k :: 0 <= k < n ==> Mentions(ids, k))
    && (forall i, j :: 0 <= i < j < |ids| ==> ids[i] != ids[j])
  }

  function Items(c: Issuance): seq<Value>
    requires |c.elements| <= |c.randoms|
  {
    seq(|c.elements|, i requires 0 <= i < |c.elements| => TaggedItem(i, c.randoms[i], c.elements[i]))
  }

  function Digests(c: Issuance, sha256: Hash): seq<Pair>
    requires |c.elements| <= |c.randoms| && Below(c.order, |c.elements|)
  {
    seq(|c.order|, i requires 0 <= i < |c.order| => Pair(UInt(c.order[i]), Bytes(sha256(Encode(Items(c)[c.order[i]])))))
  }

  ghost function MsoOf(c: Issuance, sha256: Hash): Value
    requires Valid(c)
  {
    Mso(c.ns, Digests(c, sha256), c.docType, c.key, c.validity)
  }

  ghost function Payload(c: Issuance, sha256: Hash): seq<byte>
    requires Valid(c)
  {
    MsoPayload(MsoOf(c, sha256))
  }

  /** What the signer is asked to sign. */
  ghost function SignedPart(c: Issuance, sha256: Hash): seq<byte>
    requires Valid(c)
  {
    ToBeSigned(Protected(), Payload(c, sha256))
  }

  ghost function IssuerAuth(c: Issuance, sha256: Hash): Value
    requires Valid(c)
  {
    CoseSign1(c.x5c, Payload(c, sha256), c.signature)
  }

  /** What the holder hands over: the issuer's signature with any of the items,
      in any order. */
  ghost function Presentation(c: Issuance, sha256: Hash, chosen: seq<nat>): seq<byte>
    requires Valid(c) && Below(chosen, |c.elements|)
  {
    Encode(IssuerSigned(IssuerAuth(c, sha256), c.ns, Chosen(c, chosen)))
  }

  function Chosen(c: Issuance, chosen: seq<nat>): seq<Value>
    requires |c.elements| <= |c.randoms| && Below(chosen, |c.elements|)
  {
    seq(|chosen|, i requires 0 <= i < |chosen| => Items(c)[chosen[i]])
  }

  function ClaimOf(e: Element): Claim {
    Claim(e.identifier, CborValue(e))
  }

  /** The claims of the chosen elements. */
  function ChosenClaims(c: Issuance, chosen: seq<nat>): seq<Claim>
    requires Below(chosen, |c.elements|)
  {
    seq(|chosen|, i requires 0 <= i < |chosen| => ClaimOf(c.elements[chosen[i]]))
  }

  /** The map of digests, in any order, is the list the issuance stands for. */
  lemma DigestsAgree(c: Issuance, sha256: Hash, tagged: seq<seq<byte>>, digests: map<int, seq<byte>>)
    requires Valid(c) && |tagged| == |c.elements|
    requires forall i :: 0 <= i < |c.elements| ==> tagged[i] == Encode(TaggedItem(i, c.randoms[i], c.elements[i]))
    requires forall i :: i in digests <==> 0 <= i < |c.elements|
    requires forall i :: 0 <= i < |c.elements| ==> digests[i] == sha256(tagged[i])
    ensures DigestPairs(digests, c.order) == Digests(c, sha256)
  {
    forall i | 0 <= i < |c.order|
      ensures digests[c.order[i]] == sha256(Encode(Items(c)[c.order[i]]))
    {
      var k := c.order[i];
      assert Items(c)[k] == TaggedItem(k, c.randoms[k], c.elements[k]);
    }
  }

  // ----------------------------------------------------------------- builder

  /** The keys of the digest map, in whatever order it yields them. */
  method ListKeys(digests: map<int, seq<byte>>, n: nat) returns (order: seq<nat>)
    requires forall i :: i in digests <==> 0 <= i < n
    ensures Lists(order, n)
  {
    order := [];
    var rest := digests.Keys;
    while exists id :: id in rest
      invariant rest <= digests.Keys && Below(order, n)
      invariant forall k :: 0 <= k < n ==> (k in rest <==> !Mentions(order, k))
      invariant forall i, j :: 0 <= i < j < |order| ==> order[i] != order[j]
      decreases |rest|
    {
      var id :| id in rest;
      MentionsMore(order, id);
      order := order + [id];
      rest := rest - {id};
    }
  }

  lemma MentionsMore(order: seq<nat>, id: nat)
    ensures forall k: nat :: Mentions(order + [id], k) <==> Mentions(order, k) || k == id
  {
    assert (order + [id])[|order|] == id;
    forall k: nat | Mentions(order, k)
      ensures Mentions(order + [id], k)
    {
      var i :| 0 <= i < |order| && order[i] == k;
      assert (order + [id])[i] == k;
    }
  }

  datatype Jwk = EcKey(x: Option<seq<byte>>, y: Option<seq<byte>>) | OtherKey

  function DeviceKeyFromJwk(k: Jwk): Option<DeviceKey> {
    if k.EcKey? && k.x.Some? && k.y.Some? then Some(DeviceKey(k.x.value, k.y.value)) else None
  }

  datatype BuildError = NoRandomness | BadDeviceKey | NoSignature(why: EcdsaDer.Failure)

  class Builder {
    var docType: seq<byte>
    var namespace: seq<byte>
    var elements: seq<Element>
    var deviceKey: Option<Jwk>
    var x5cChain: seq<seq<byte>>

    constructor ()
      ensures docType == [] && namespace == [] && elements == [] && deviceKey == None && x5cChain == []
    {
      docType, namespace, elements, deviceKey, x5cChain := [], [], [], None, [];
    }

    method AddElement(identifier: seq<byte>, value: seq<byte>)
      modifies this`elements
      ensures elements == old(elements) + [NewElement(identifier, value)]
    {
      elements := elements + [NewElement(identifier, value)];
    }

    method AddMapElement(identifier: seq<byte>, value: seq<Pair>)
      modifies this`elements
      ensures elements == old(elements) + [MapElement(identifier, value)]
    {
      elements := elements + [MapElement(identifier, value)];
    }

    /** Assembles and signs. The result is the presentation of all items of an
        issuance with this builder's settings, signed over its own MSO. */
    method Build(randoms: seq<seq<byte>>, validity: Validity, sha256: Hash, signer: seq<byte> -> Option<seq<byte>>)
      returns (r: Result<seq<byte>, BuildError>, ghost c: Issuance)
      ensures r == Err(NoRandomness) <==> |randoms| < |elements|
      ensures r == Err(BadDeviceKey) <==>
                |elements| <= |randoms| && deviceKey.Some? && DeviceKeyFromJwk(deviceKey.value) == None
      ensures r.Err? && r.error.NoSignature? ==>
                && Valid(c)
                && c == Issuance(namespace, docType, elements, randoms,
                                 if deviceKey.Some? then DeviceKeyFromJwk(deviceKey.value) else None,
                                 validity, x5cChain, c.order, [])
                && EcdsaDer.RawSignature(signer(SignedPart(c, sha256))) == Err(r.error.why)
      ensures r.Ok? ==>
                && Valid(c)
                && c == Issuance(namespace, docType, elements, randoms,
                                 if deviceKey.Some? then DeviceKeyFromJwk(deviceKey.value) else None,
                                 validity, x5cChain, c.order, c.signature)
                && EcdsaDer.RawSignature(signer(SignedPart(c, sha256))) == Ok(c.signature)
                && r.value == Encode(IssuerSigned(IssuerAuth(c, sha256), c.ns, Items(c)))
    {
      c := Issuance(namespace, docType, elements, randoms, None, validity, x5cChain, [], []);
      var built := BuildNamespaceItems(elements, randoms, sha256);
      if built.Err? {
        return Err(NoRandomness), c;
      }
      var (tagged, digests) := built.value;
      var key := None;
      if deviceKey.Some? {
        key := DeviceKeyFromJwk(deviceKey.value);
        if key == None {
          return Err(BadDeviceKey), c;
        }
      }
      var order := ListKeys(digests, |elements|);
      c := c.(key := key, order := order);
      var mso := Mso(namespace, DigestPairs(digests, order), docType, key, validity);
      DigestsAgree(c, sha256, tagged, digests);
      var payload := MsoPayload(mso);
      var raw := EcdsaDer.SignRawP1363(signer(ToBeSigned(Protected(), payload)));
      if raw.Err? {
        return Err(NoSignature(raw.error)), c;
      }
      var signature := raw.value[..];
      c := c.(signature := signature);
      DigestsAgree(c, sha256, tagged, digests);
      var auth := CoseSign1(x5cChain, payload, signature);
      assert auth == IssuerAuth(c, sha256);
      AssembleIsEncode(auth, namespace, tagged, Items(c));
      return Ok(Assemble(Encode(auth), namespace, tagged)), c;
    }
  }

  // ------------------------------------------------------------------ lookups

  lemma {:induction false} LookupSkips(first: seq<Pair>, rest: seq<Pair>, key: Value)
    requires forall i :: 0 <= i < |first| ==> first[i].key != key
    ensures Lookup(first + rest, key) == Lookup(rest, key)
  {
    if first == [] {
      assert first + rest == rest;
    } else {
      assert (first + rest)[1..] == first[1..] + rest;
      LookupSkips(first[1..], rest, key);
    }
  }

  lemma LookupAt(pairs: seq<Pair>, i: nat)
    requires i < |pairs| && forall j :: 0 <= j < i ==> pairs[j].key != pairs[i].key
    ensures Lookup(pairs, pairs[i].key) == Some(pairs[i].value)
  {
    assert pairs == pairs[..i] + pairs[i..];
    LookupSkips(pairs[..i], pairs[i..], pairs[i].key);
  }

  /** Names of different lengths are different keys. */
  lemma NamesDiffer(s: string, t: string)
    requires |s| != |t|
    ensures Name(s) != Name(t)
  {
    assert |Name(s).text| != |Name(t).text|;
  }

  lemma ItemFields(id: nat, random: seq<byte>, e: Element)
    ensures var fields := ItemValue(id, random, e).pairs;
            && Lookup(fields, Name("digestID")) == Some(UInt(id))
            && Lookup(fields, Name("random")) == Some(Bytes(random))
            && Lookup(fields, Name("elementIdentifier")) == Some(Text(e.identifier))
            && Lookup(fields, Name("elementValue")) == Some(CborValue(e))
  {
    var fields := ItemValue(id, random, e).pairs;
    NamesDiffer("digestID", "random");
    NamesDiffer("digestID", "elementIdentifier");
    NamesDiffer("random", "elementIdentifier");
    NamesDiffer("digestID", "elementValue");
    NamesDiffer("random", "elementValue");
    NamesDiffer("elementIdentifier", "elementValue");
    LookupAt(fields, 0);
    LookupAt(fields, 1);
    LookupAt(fields, 2);
    LookupAt(fields, 3);
  }

  /** The MSO lists each item's digest under the item's own digestID. */
  lemma DigestOf(c: Issuance, sha256: Hash, i: nat)
    requires Valid(c) && i < |c.elements|
    ensures Lookup(Digests(c, sha256), UInt(i)) == Some(Bytes(sha256(Encode(Items(c)[i]))))
  {
    assert Mentions(c.order, i);
    var at :| 0 <= at < |c.order| && c.order[at] == i;
    LookupAt(Digests(c, sha256), at);
  }

  lemma DigestAt(c: Issuance, sha256: Hash, at: nat)
    requires Valid(c) && at < |Digests(c, sha256)|
    ensures var i := c.order[at];
            i < |c.elements| && Digests(c, sha256)[at] == Pair(UInt(i), Bytes(sha256(Encode(Items(c)[i]))))
  {
  }

  /** It lists nothing else. */
  lemma {:induction false} OnlyTheseDigests(pairs: seq<Pair>, key: Value) returns (at: nat)
    requires Lookup(pairs, key).Some?
    ensures at < |pairs| && pairs[at].key == key && Lookup(pairs, key) == Some(pairs[at].value)
  {
    if pairs[0].key == key {
      at := 0;
    } else {
      at := OnlyTheseDigests(pairs[1..], key);
      at := at + 1;
    }
  }

  // ------------------------------------------------------------------- fits

  /** No length in the issued mdoc reaches 2^64. */
  ghost predicate AllFit(c: Issuance, sha256: Hash)
    requires Valid(c)
  {
    && Fits(IssuerAuth(c, sha256)) && Fits(MsoOf(c, sha256)) && Fits(Tag(24, Bytes(Encode(MsoOf(c, sha256)))))
    && |c.ns| < LIMIT
    && forall i :: 0 <= i < |c.elements| ==>
         Fits(ItemValue(i, c.randoms[i], c.elements[i])) && Fits(TaggedItem(i, c.randoms[i], c.elements[i]))
  }

  lemma IssuerSignedFits(auth: Value, ns: seq<byte>, items: seq<Value>)
    requires Fits(auth) && |ns| < LIMIT && |items| < LIMIT
    requires forall i :: 0 <= i < |items| ==> Fits(items[i])
    ensures Fits(IssuerSigned(auth, ns, items))
  {
    FitItemsOf(items);
    var spaces := [Pair(Text(ns), Array(items))];
    assert spaces[1..] == [];
    assert Fits(Text(ns)) && Fits(Array(items));
    assert FitPair(spaces[0]) && FitPairs(spaces);
    var top := [Pair(Name("issuerAuth"), auth), Pair(Name("nameSpaces"), Map(spaces))];
    assert top[1..][1..] == [] && top[1..][0] == top[1];
    assert Fits(Map(spaces));
    assert FitPair(top[0]) && FitPair(top[1]) && FitPairs(top[1..]);
  }

  lemma ChosenFit(c: Issuance, sha256: Hash, chosen: seq<nat>)
    requires Valid(c) && AllFit(c, sha256) && Below(chosen, |c.elements|)
    ensures forall i :: 0 <= i < |chosen| ==> Fits(Chosen(c, chosen)[i])
  {
    forall i | 0 <= i < |chosen|
      ensures Fits(Chosen(c, chosen)[i])
    {
      var k := chosen[i];
      assert Chosen(c, chosen)[i] == Items(c)[k] == TaggedItem(k, c.randoms[k], c.elements[k]);
    }
  }

  // ------------------------------------------------------------ main results

  /** Every issued item holds its digestID, the random octets drawn for it, and
      its element. */
  lemma ItemComesApart(c: Issuance, sha256: Hash, i: nat)
    requires Valid(c) && AllFit(c, sha256) && i < |c.elements|
    ensures ItemParts(Encode(Items(c)[i])) == Some((i, c.randoms[i], ClaimOf(c.elements[i])))
  {
    DecodeAllEncode(TaggedItem(i, c.randoms[i], c.elements[i]));
    var item := ItemValue(i, c.randoms[i], c.elements[i]);
    DecodeAllEncode(item);
    ItemFields(i, c.randoms[i], c.elements[i]);
  }

  /** So two issued items are the same octets only if their random octets are. */
  lemma EqualItems(c: Issuance, d: Issuance, sha256: Hash, i: nat, j: nat)
    requires Valid(c) && AllFit(c, sha256) && i < |c.elements| && Valid(d) && AllFit(d, sha256) && j < |d.elements|
    requires Encode(Items(c)[i]) == Encode(Items(d)[j])
    ensures i == j && c.randoms[i] == d.randoms[j] && ClaimOf(c.elements[i]) == ClaimOf(d.elements[j])
  {
    ItemComesApart(c, sha256, i);
    ItemComesApart(d, sha256, j);
  }

  lemma IssuedItemVerifies(c: Issuance, sha256: Hash, i: nat)
    requires Valid(c) && AllFit(c, sha256) && i < |c.elements|
    ensures VerifyItem(Encode(Items(c)[i]), Digests(c, sha256), sha256) == Some(ClaimOf(c.elements[i]))
  {
    ItemComesApart(c, sha256, i);
    DigestOf(c, sha256, i);
  }

  lemma ChosenFront(c: Issuance, chosen: seq<nat>)
    requires |c.elements| <= |c.randoms| && Below(chosen, |c.elements|) && chosen != []
    ensures Encodings(Chosen(c, chosen)) == [Encode(Items(c)[chosen[0]])] + Encodings(Chosen(c, chosen[1..]))
    ensures ChosenClaims(c, chosen) == [ClaimOf(c.elements[chosen[0]])] + ChosenClaims(c, chosen[1..])
  {
  }

  lemma VerifyFront(item: seq<byte>, items: seq<seq<byte>>, digests: seq<Pair>, sha256: Hash, claim: Claim,
                    claims: seq<Claim>)
    requires VerifyItem(item, digests, sha256) == Some(claim) && VerifyItems(items, digests, sha256) == Some(claims)
    ensures VerifyItems([item] + items, digests, sha256) == Some([claim] + claims)
  {
    assert ([item] + items)[1..] == items;
  }

  lemma {:induction false} IssuedItemsVerify(c: Issuance, sha256: Hash, chosen: seq<nat>)
    requires Valid(c) && AllFit(c, sha256) && Below(chosen, |c.elements|)
    ensures VerifyItems(Encodings(Chosen(c, chosen)), Digests(c, sha256), sha256)
            == Some(ChosenClaims(c, chosen))
  {
    if chosen != [] {
      var i, rest := chosen[0], chosen[1..];
      IssuedItemVerifies(c, sha256, i);
      IssuedItemsVerify(c, sha256, rest);
      ChosenFront(c, chosen);
      VerifyFront(Encode(Items(c)[i]), Encodings(Chosen(c, rest)), Digests(c, sha256), sha256,
                  ClaimOf(c.elements[i]), ChosenClaims(c, rest));
    } else {
      assert Encodings(Chosen(c, chosen)) == [] && ChosenClaims(c, chosen) == [];
    }
  }

  lemma MsoKeysDiffer()
    ensures |Ascii("version")| == 7 && |Ascii("digestAlgorithm")| == 15 && |Ascii("valueDigests")| == 12
    ensures |Ascii("deviceKeyInfo")| == 13 && |Ascii("docType")| == 7 && |Ascii("validityInfo")| == 12
    ensures Ascii("version") != Ascii("docType") && Ascii("valueDigests") != Ascii("validityInfo")
  {
    assert Ascii("version")[0] != Ascii("docType")[0] && Ascii("valueDigests")[3] != Ascii("validityInfo")[3];
  }

  /** The fields of an MSO, each found under its name. */
  lemma MsoLookups(c: Issuance, sha256: Hash)
    requires Valid(c)
    ensures var mso := MsoOf(c, sha256).pairs;
            && (forall i :: 0 <= i < |mso| ==> Lookup(mso, mso[i].key) == Some(mso[i].value))
            && (c.key == None ==> Lookup(mso, Name("deviceKeyInfo")) == None)
  {
    var mso := MsoOf(c, sha256).pairs;
    MsoKeysDiffer();
    forall i | 0 <= i < |mso|
      ensures Lookup(mso, mso[i].key) == Some(mso[i].value)
    {
      LookupAt(mso, i);
    }
    if c.key == None {
      LookupSkips(mso, [], Name("deviceKeyInfo"));
      assert mso + [] == mso;
    }
  }

  lemma {:induction false} LabelledAt(pairs: seq<Pair>, i: nat, key: int)
    requires i < |pairs| && IntOf(pairs[i].key) == Some(key)
    requires forall j :: 0 <= j < i ==> IntOf(pairs[j].key) != Some(key)
    ensures Labelled(pairs, key) == Some(pairs[i].value)
  {
    if i > 0 {
      LabelledAt(pairs[1..], i - 1, key);
    }
  }

  lemma DeviceKeyReads(mso: seq<Pair>, k: DeviceKey)
    requires Lookup(mso, Name("deviceKeyInfo")) == Some(DeviceKeyInfo(Some(k))[0].value)
    ensures DeviceKeyIn(mso) == Some(k)
  {
    var info := DeviceKeyInfo(Some(k))[0].value.pairs;
    var key := info[0].value.pairs;
    LookupAt(info, 0);
    LabelledAt(key, 0, 1);
    LabelledAt(key, 1, -1);
    LabelledAt(key, 2, -2);
    LabelledAt(key, 3, -3);
  }

  lemma ValidityReads(mso: seq<Pair>, v: Validity)
    requires Lookup(mso, Name("validityInfo"))
             == Some(Map([Pair(Name("signed"), Tag(0, Text(v.signed))),
                          Pair(Name("validFrom"), Tag(0, Text(v.validFrom))),
                          Pair(Name("validUntil"), Tag(0, Text(v.validUntil)))]))
    ensures ValidityIn(mso) == Some(v)
  {
    var info := Lookup(mso, Name("validityInfo")).value.pairs;
    NamesDiffer("signed", "validFrom");
    NamesDiffer("signed", "validUntil");
    NamesDiffer("validFrom", "validUntil");
    LookupAt(info, 0);
    LookupAt(info, 1);
    LookupAt(info, 2);
  }

  /** What a verifier reads in the fields of an MSO. */
  ghost predicate MsoReads(mso: seq<Pair>, c: Issuance, sha256: Hash)
    requires Valid(c)
  {
    && Lookup(mso, Name("version")) == Some(Name("1.0"))
    && Lookup(mso, Name("digestAlgorithm")) == Some(Name("SHA-256"))
    && Lookup(mso, Name("docType")) == Some(Text(c.docType))
    && DigestsIn(mso, c.ns) == Some(Digests(c, sha256))
    && DeviceKeyIn(mso) == c.key && ValidityIn(mso) == Some(c.validity)
  }

  lemma MsoNames(c: Issuance, sha256: Hash)
    requires Valid(c)
    ensures var mso, n := MsoOf(c, sha256).pairs, |MsoOf(c, sha256).pairs|;
            && mso[0].key == Name("version") && mso[1].key == Name("digestAlgorithm")
            && mso[2].key == Name("valueDigests") && (c.key.Some? ==> n == 6 && mso[3].key == Name("deviceKeyInfo"))
            && mso[n - 2].key == Name("docType") && mso[n - 1].key == Name("validityInfo")
            && Lookup(mso, Name("version")) == Some(Name("1.0"))
            && Lookup(mso, Name("digestAlgorithm")) == Some(Name("SHA-256"))
            && Lookup(mso, Name("docType")) == Some(Text(c.docType))
            && Lookup(mso, Name("valueDigests")) == Some(Map([Pair(Text(c.ns), Map(Digests(c, sha256)))]))
            && Lookup(mso, Name("validityInfo")) == Some(mso[n - 1].value)
            && Lookup(mso, Name("deviceKeyInfo"))
               == if c.key.Some? then Some(DeviceKeyInfo(c.key)[0].value) else None
  {
    var mso := MsoOf(c, sha256).pairs;
    var n := |mso|;
    MsoLookups(c, sha256);
    assert mso[0].key == Name("version") && mso[1].key == Name("digestAlgorithm");
    assert mso[2].key == Name("valueDigests") && mso[n - 2].key == Name("docType");
    assert mso[n - 1].key == Name("validityInfo");
    if c.key.Some? {
      assert mso[3] == DeviceKeyInfo(c.key)[0];
    }
  }

  lemma MsoFields(c: Issuance, sha256: Hash)
    requires Valid(c)
    ensures MsoReads(MsoOf(c, sha256).pairs, c, sha256)
  {
    var mso := MsoOf(c, sha256).pairs;
    MsoNames(c, sha256);
    LookupAt([Pair(Text(c.ns), Map(Digests(c, sha256)))], 0);
    ValidityReads(mso, c.validity);
    if c.key.Some? {
      DeviceKeyReads(mso, c.key.value);
    }
  }

  /** The signature is over this MSO, in the form of section 4.4 of RFC 9052. */
  lemma SignatureCoversMso(c: Issuance, sha256: Hash)
    requires Valid(c) && AllFit(c, sha256)
    ensures DecodeAll(SignedPart(c, sha256))
            == Some(Array([Text(Ascii("Signature1")), Bytes(Protected()), Bytes([]), Bytes(Payload(c, sha256))]))
    ensures AlgIn(Protected()) == Some(ES256)
    ensures DecodeAll(Payload(c, sha256)) == Some(Tag(24, Bytes(Encode(MsoOf(c, sha256)))))
    ensures DecodeAll(Encode(MsoOf(c, sha256))) == Some(MsoOf(c, sha256))
  {
    PayloadFits(c.x5c, Payload(c, sha256), c.signature);
    MsoPayloadDecodes(MsoOf(c, sha256));
    ProtectedFits();
    ToBeSignedComesApart(Protected(), Payload(c, sha256));
  }

  /** A verifier reads this MSO, exactly when it accepts the signature. */
  lemma SignedMsoRecovered(c: Issuance, sha256: Hash, check: (seq<byte>, seq<byte>) -> bool)
    requires Valid(c) && AllFit(c, sha256)
    ensures SignedMso(IssuerAuth(c, sha256), c.docType, check)
            == if check(SignedPart(c, sha256), c.signature) then Some(MsoOf(c, sha256).pairs) else None
    ensures MsoReads(MsoOf(c, sha256).pairs, c, sha256)
  {
    MsoFields(c, sha256);
    MsoInPayload(MsoOf(c, sha256).pairs, c.docType);
    SignedMsoOf(c.x5c, Payload(c, sha256), c.signature, c.docType, check);
  }

  lemma {:induction false} OctetStringsOf(bs: seq<seq<byte>>)
    ensures OctetStrings(ByteStrings(bs)) == Some(bs)
  {
    if bs != [] {
      OctetStringsOf(bs[1..]);
      assert ByteStrings(bs)[1..] == ByteStrings(bs[1..]);
      assert [bs[0]] + bs[1..] == bs;
    }
  }

  /** And the issuer's certificates. */
  lemma CertificatesRecovered(c: Issuance, sha256: Hash)
    requires Valid(c)
    ensures CertificatesIn(IssuerAuth(c, sha256)) == Some(c.x5c)
  {
    OctetStringsOf(c.x5c);
    if |c.x5c| > 0 {
      LabelledAt(Unprotected(c.x5c), 0, 33);
      assert |c.x5c| == 1 ==> c.x5c == [c.x5c[0]];
    } else {
      assert Labelled([], 33) == None && c.x5c == [];
    }
  }

  /** A verifier gets back the octets of the issuer's part and of every item. */
  lemma IssuerSignedComesApart(auth: Value, ns: seq<byte>, items: seq<Value>)
    requires Fits(IssuerSigned(auth, ns, items))
    ensures var spaces := Encode(Map([Pair(Text(ns), Array(items))]));
            && RawMap(Encode(IssuerSigned(auth, ns, items)))
               == Some([RawPair(Name("issuerAuth"), Encode(auth)), RawPair(Name("nameSpaces"), spaces)])
            && DecodeAll(Encode(auth)) == Some(auth)
            && PresentedItems(spaces, ns) == Some(Encodings(items))
  {
    var inner := [Pair(Text(ns), Array(items))];
    var top := IssuerSigned(auth, ns, items).pairs;
    assert FitPairs(top) && FitPair(top[0]) && FitPairs(top[1..]) && FitPair(top[1..][0]);
    assert Fits(auth) && Fits(Map(inner)) && FitPairs(inner) && FitPair(inner[0]);
    RawMapOf(top);
    assert RawPairsFrom(top) ==
           [RawPair(Name("issuerAuth"), Encode(auth)), RawPair(Name("nameSpaces"), Encode(Map(inner)))];
    DecodeAllEncode(auth);
    RawMapOf(inner);
    assert RawPairsFrom(inner) == [RawPair(Text(ns), Encode(Array(items)))];
    RawArrayOf(items);
  }

  lemma TopLookups(auth: seq<byte>, spaces: seq<byte>)
    ensures var top := [RawPair(Name("issuerAuth"), auth), RawPair(Name("nameSpaces"), spaces)];
            RawLookup(top, Name("issuerAuth")) == Some(auth) && RawLookup(top, Name("nameSpaces")) == Some(spaces)
  {
    var top := [RawPair(Name("issuerAuth"), auth), RawPair(Name("nameSpaces"), spaces)];
    assert Ascii("issuerAuth")[0] != Ascii("nameSpaces")[0];
    assert top[1..][0] == top[1];
  }

  /** A presentation comes apart into the issuer's part and the items chosen. */
  lemma PresentationComesApart(c: Issuance, sha256: Hash, chosen: seq<nat>)
    requires Valid(c) && AllFit(c, sha256) && |chosen| < LIMIT
    requires Below(chosen, |c.elements|)
    ensures IssuerAuthIn(Presentation(c, sha256, chosen)) == Some(IssuerAuth(c, sha256))
    ensures ItemsIn(Presentation(c, sha256, chosen), c.ns) == Some(Encodings(Chosen(c, chosen)))
  {
    var auth, items := IssuerAuth(c, sha256), Chosen(c, chosen);
    ChosenFit(c, sha256, chosen);
    IssuerSignedFits(auth, c.ns, items);
    IssuerSignedComesApart(auth, c.ns, items);
    TopLookups(Encode(auth), Encode(Map([Pair(Text(c.ns), Array(items))])));
  }

  /** Whatever selection of the issued items a holder presents, in whatever
      order, a verifier accepts the presentation exactly when it accepts the
      issuer's signature, and then recovers exactly the selected elements. */
  lemma PresentationVerifies(c: Issuance, sha256: Hash, check: (seq<byte>, seq<byte>) -> bool, chosen: seq<nat>)
    requires Valid(c) && AllFit(c, sha256) && |chosen| < LIMIT
    requires Below(chosen, |c.elements|)
    ensures Verify(Presentation(c, sha256, chosen), c.ns, c.docType, sha256, check)
            == if check(SignedPart(c, sha256), c.signature) then Some(ChosenClaims(c, chosen)) else None
  {
    PresentationComesApart(c, sha256, chosen);
    SignedMsoRecovered(c, sha256, check);
    IssuedItemsVerify(c, sha256, chosen);
  }

  /** From the signer's DER answer to the verifier: an mdoc signed with what
      becomes of the answer verifies, whatever is presented of it, exactly when
      ECDSA accepts the magnitudes of the two numbers in the answer; so always,
      when they are a valid signature. */
  lemma SignedPresentationVerifies(c: Issuance, sha256: Hash, der: seq<byte>, ecdsa: (seq<byte>, nat, nat) -> bool,
                                   chosen: seq<nat>)
    requires Valid(c) && AllFit(c, sha256) && |chosen| < LIMIT && Below(chosen, |c.elements|)
    requires EcdsaDer.RawSignature(Some(der)) == Ok(c.signature)
    ensures var (r, s) := EcdsaDer.ParseSignature(der).value;
            Verify(Presentation(c, sha256, chosen), c.ns, c.docType, sha256, EcdsaDer.HalvesCheck(ecdsa))
            == if ecdsa(SignedPart(c, sha256), EcdsaDer.Abs(r), EcdsaDer.Abs(s)) then
                 Some(ChosenClaims(c, chosen))
               else None
  {
    EcdsaDer.RawSignatureChecks(SignedPart(c, sha256), der, ecdsa);
    PresentationVerifies(c, sha256, EcdsaDer.HalvesCheck(ecdsa), chosen);
  }

  /** The octets of an issued item that have the digest of these are these. */
  ghost predicate NoCollision(c: Issuance, sha256: Hash, item: seq<byte>)
    requires |c.elements| <= |c.randoms|
  {
    forall k :: 0 <= k < |c.elements| && sha256(item) == sha256(Encode(Items(c)[k])) ==> item == Encode(Items(c)[k])
  }

  /** And nothing else gets through: octets that verify against the issued
      digests, and collide with no issued item, are those of an issued item, and
      the claim they yield is that item's element. */
  lemma OnlyIssuedItemsVerify(c: Issuance, sha256: Hash, item: seq<byte>) returns (i: nat)
    requires Valid(c) && AllFit(c, sha256) && NoCollision(c, sha256, item)
    requires VerifyItem(item, Digests(c, sha256), sha256).Some?
    ensures i < |c.elements| && item == Encode(Items(c)[i])
    ensures VerifyItem(item, Digests(c, sha256), sha256) == Some(ClaimOf(c.elements[i]))
  {
    var digests := Digests(c, sha256);
    var at := OnlyTheseDigests(digests, UInt(ItemParts(item).value.0));
    DigestAt(c, sha256, at);
    i := c.order[at];
    IssuedItemVerifies(c, sha256, i);
  }

  ghost predicate AllIssued(cs: seq<Issuance>, sha256: Hash) {
    forall k :: 0 <= k < |cs| ==> Valid(cs[k]) && AllFit(cs[k], sha256)
  }

  /** Signatures check only on what was signed for one of these mdocs. */
  ghost predicate OnlyTheseAreSigned(cs: seq<Issuance>, sha256: Hash, check: (seq<byte>, seq<byte>) -> bool)
    requires AllIssued(cs, sha256)
  {
    forall m, sig :: check(m, sig) ==> exists k :: 0 <= k < |cs| && m == SignedPart(cs[k], sha256)
  }

  predicate IsElement(c: Issuance, claim: Claim) {
    exists i :: 0 <= i < |c.elements| && claim == ClaimOf(c.elements[i])
  }

  ghost predicate NoneCollides(c: Issuance, sha256: Hash, items: seq<seq<byte>>)
    requires |c.elements| <= |c.randoms|
  {
    forall i :: 0 <= i < |items| ==> NoCollision(c, sha256, items[i])
  }

  /** No mdoc passes that was not issued: whatever document a verifier accepts,
      the digests in the issuer's part of it are those of one mdoc that was signed,
      and every claim it yields is an element of that same mdoc, unless an item
      collides with one of its items. */
  lemma OnlyIssuedDocumentsVerify(doc: seq<byte>, ns: seq<byte>, docType: seq<byte>, sha256: Hash,
                                  check: (seq<byte>, seq<byte>) -> bool, cs: seq<Issuance>)
    returns (k: nat)
    requires AllIssued(cs, sha256) && OnlyTheseAreSigned(cs, sha256, check)
    requires Verify(doc, ns, docType, sha256, check).Some?
    requires forall i :: 0 <= i < |cs| ==> cs[i].ns == ns && NoneCollides(cs[i], sha256, ItemsIn(doc, ns).value)
    ensures k < |cs| && SignedDigests(doc, ns, docType, check) == Some(Digests(cs[k], sha256))
    ensures forall claim :: claim in Verify(doc, ns, docType, sha256, check).value ==> IsElement(cs[k], claim)
  {
    k := SignedByOne(doc, docType, sha256, check, cs);
    PayloadYields(doc, docType, sha256, check, cs[k]);
    ItemsAreIssued(cs[k], sha256, ItemsIn(doc, ns).value);
  }

  lemma PayloadYields(doc: seq<byte>, docType: seq<byte>, sha256: Hash, check: (seq<byte>, seq<byte>) -> bool,
                      c: Issuance)
    requires Valid(c) && AllFit(c, sha256)
    requires IssuerAuthIn(doc).Some? && SignedMso(IssuerAuthIn(doc).value, docType, check).Some?
    requires IssuerAuthIn(doc).value.items[2] == Bytes(Payload(c, sha256))
    ensures SignedDigests(doc, c.ns, docType, check) == Some(Digests(c, sha256))
  {
    MsoInPayload(MsoOf(c, sha256).pairs, docType);
    MsoFields(c, sha256);
  }

  lemma {:induction false} ItemsAreIssued(c: Issuance, sha256: Hash, items: seq<seq<byte>>)
    requires Valid(c) && AllFit(c, sha256) && NoneCollides(c, sha256, items)
    requires VerifyItems(items, Digests(c, sha256), sha256).Some?
    ensures forall claim :: claim in VerifyItems(items, Digests(c, sha256), sha256).value ==> IsElement(c, claim)
  {
    if items != [] {
      var i := FirstIsIssued(c, sha256, items);
      ItemsAreIssued(c, sha256, items[1..]);
    }
  }

  lemma FirstIsIssued(c: Issuance, sha256: Hash, items: seq<seq<byte>>) returns (i: nat)
    requires Valid(c) && AllFit(c, sha256) && NoneCollides(c, sha256, items) && items != []
    requires VerifyItem(items[0], Digests(c, sha256), sha256).Some?
    ensures IsElement(c, VerifyItem(items[0], Digests(c, sha256), sha256).value)
    ensures NoneCollides(c, sha256, items[1..])
  {
    assert NoCollision(c, sha256, items[0]);
    i := OnlyIssuedItemsVerify(c, sha256, items[0]);
    forall k | 0 <= k < |items[1..]|
      ensures NoCollision(c, sha256, items[1..][k])
    {
      assert items[1..][k] == items[k + 1];
    }
  }

  lemma SignedByOne(doc: seq<byte>, docType: seq<byte>, sha256: Hash, check: (seq<byte>, seq<byte>) -> bool,
                    cs: seq<Issuance>)
    returns (k: nat)
    requires AllIssued(cs, sha256) && OnlyTheseAreSigned(cs, sha256, check)
    requires IssuerAuthIn(doc).Some? && SignedMso(IssuerAuthIn(doc).value, docType, check).Some?
    ensures k < |cs| && IssuerAuthIn(doc).value.items[2] == Bytes(Payload(cs[k], sha256))
  {
    var payloads := seq(|cs|, i requires 0 <= i < |cs| => Payload(cs[i], sha256));
    forall i | 0 <= i < |payloads|
      ensures |payloads[i]| < LIMIT
    {
      PayloadFits(cs[i].x5c, Payload(cs[i], sha256), cs[i].signature);
    }
    forall m, sig | check(m, sig)
      ensures exists i :: 0 <= i < |payloads| && m == ToBeSigned(Protected(), payloads[i])
    {
      var i :| 0 <= i < |cs| && m == SignedPart(cs[i], sha256);
      assert m == ToBeSigned(Protected(), payloads[i]);
    }
    k := OnlySignedMsoVerifies(doc, docType, check, payloads);
  }
}
