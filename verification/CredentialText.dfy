/** The text of an issued credential, in either format: how it is built from a
    record's data and a status index, and what a verifier reads in it. */
module CredentialText {
  import opened Common
  import opened PidCredential
  import opened IssuerProtocol
  import Base64Url
  import Cbor
  import EcdsaDer
  import Mdoc
  import MdocIssuance
  import SdJwt
  import SdJwtIssuance

  /** What a build takes from outside the record: the libraries, random values,
      the wallet's key, the issuer's address, certificates and signers, and the
      address of the status list. parse reads a record's credential data. */
  datatype Materials = Materials(
    parse: string -> Option<map<Octets, Octets>>, uri: Octets,
    env: SdJwt.Env, baseUrl: Octets, random: Octets, key: SdJwtIssuance.HolderKey,
    salts: seq<Octets>, headers: Option<Octets>,
    sha256: Mdoc.Hash, signer: Octets -> Option<Octets>, deviceKey: MdocIssuance.Jwk,
    x5c: seq<Octets>, randoms: seq<Octets>, validity: Mdoc.Validity, idxFirst: bool)

  ghost predicate IsSdJwtFrom(s: SdJwtIssuance.Settings, m: Materials, claims: map<Octets, Octets>, idx: int) {
    IsPidFrom(s, claims, idx, m.uri, m.baseUrl, m.random, m.key) && |s.selective| <= |m.salts|
  }

  ghost predicate IsMdocFrom(c: MdocIssuance.Issuance, m: Materials, claims: map<Octets, Octets>, idx: nat) {
    IsPidMdoc(c, claims, idx, m.uri, m.idxFirst, m.deviceKey, m.x5c, m.randoms, m.validity)
  }

  /** text is a credential over this data, carrying this index. */
  ghost predicate IsCredential(m: Materials, format: Format, data: string, idx: nat, now: int, text: Octets) {
    && m.parse(data).Some?
    && match format
       case SdJwtVc =>
         exists s :: IsSdJwtFrom(s, m, m.parse(data).value, idx)
           && BuildOutcome(m.env, s, m.salts, now, m.headers, Ok(text))
       case MsoMdoc =>
         exists c :: IsMdocFrom(c, m, m.parse(data).value, idx) && MdocOutcome(c, m.sha256, m.signer, Ok(text))
  }

  /** There is a reason not to build. */
  ghost predicate MayFail(m: Materials, format: Format, data: string, idx: nat, now: int) {
    || m.parse(data).None?
    || match format
       case SdJwtVc =>
         || |m.salts| < |m.parse(data).value| || m.key.publicJwk.None? || m.headers == None
         || (exists s :: IsSdJwtFrom(s, m, m.parse(data).value, idx)
                         && BuildOutcome(m.env, s, m.salts, now, m.headers, Err(SdJwtIssuance.BadClaims)))
         || (exists s :: IsSdJwtFrom(s, m, m.parse(data).value, idx)
                         && BuildOutcome(m.env, s, m.salts, now, m.headers, Err(SdJwtIssuance.NoSignature)))
       case MsoMdoc =>
         || |m.randoms| < |m.parse(data).value| + 3 || MdocIssuance.DeviceKeyFromJwk(m.deviceKey) == None
         || (exists c, why :: IsMdocFrom(c, m, m.parse(data).value, idx)
                              && MdocOutcome(c, m.sha256, m.signer, Err(MdocIssuance.NoSignature(why))))
  }

  method BuildSdJwt(m: Materials, data: string, idx: nat, now: int) returns (r: Option<Octets>)
    ensures match r
            case Some(text) => IsCredential(m, SdJwtVc, data, idx, now, text)
            case None => MayFail(m, SdJwtVc, data, idx, now)
  {
    var claims := m.parse(data);
    if claims.None? {
      return None;
    }
    var built := BuildSdJwtCredential(m.env, claims.value, m.baseUrl, m.random, m.key, idx, m.uri,
                                     m.salts, now, m.headers);
    if built.Err? { // each way to fail
      match built.error
      case MissingVct =>
      case NoRandomness =>
      case BadHolderKey =>
      case BadHeaders =>
      case BadClaims =>
      case NoSignature =>
    }
    if built.Ok? || built == Err(SdJwtIssuance.BadClaims) || built == Err(SdJwtIssuance.NoSignature) {
      ghost var s :| IsPidFrom(s, claims.value, idx, m.uri, m.baseUrl, m.random, m.key) && |s.selective| <= |m.salts|
                     && BuildOutcome(m.env, s, m.salts, now, m.headers, built);
      assert IsSdJwtFrom(s, m, claims.value, idx);
    }
    return if built.Ok? then Some(built.value) else None;
  }

  method BuildMdoc(m: Materials, data: string, idx: nat, now: int) returns (r: Option<Octets>)
    ensures match r
            case Some(text) => IsCredential(m, MsoMdoc, data, idx, now, text)
            case None => MayFail(m, MsoMdoc, data, idx, now)
  {
    var claims := m.parse(data);
    if claims.None? {
      return None;
    }
    var built := BuildMdocCredential(claims.value, idx, m.uri, m.idxFirst, m.deviceKey,
                                    m.x5c, m.randoms, m.validity, m.sha256, m.signer);
    if built.Err? { // each way to fail
      match built.error
      case NoRandomness =>
      case BadDeviceKey =>
      case NoSignature(_) =>
    }
    if built.Ok? || built.error.NoSignature? {
      ghost var c :| IsMdocFrom(c, m, claims.value, idx) && MdocOutcome(c, m.sha256, m.signer, built);
    }
    return if built.Ok? then Some(built.value) else None;
  }

  // ------------------------------------------------------------ reading SD-JWT

  /** What a holder cuts the text into. */
  function CutJwt(text: Octets): Octets {
    SdJwt.Split(text)[0]
  }

  function CutDisclosures(text: Octets): seq<Octets> {
    var parts := SdJwt.Split(text);
    if |parts| < 2 then [] else parts[1..|parts| - 1]
  }

  /** One of the disclosures has this claim name. */
  ghost predicate Names(env: SdJwt.Env, ds: seq<Octets>, name: Octets) {
    exists k :: 0 <= k < |ds| && SdJwt.ReadDisclosure(env, ds[k]).Some?
      && SdJwt.ReadDisclosure(env, ds[k]).value.0 == name
  }

  lemma NamesAreDisclosed(env: SdJwt.Env, s: SdJwtIssuance.Settings, salts: seq<Octets>, chosen: seq<nat>, name: Octets)
    requires SdJwt.Sound(env) && |s.selective| <= |salts| && Below(chosen, |s.selective|)
    ensures Names(env, SdJwtIssuance.Select(SdJwtIssuance.DisclosuresOf(env, s.selective, salts), chosen), name) <==>
            Discloses(s, chosen, name)
  {
    var ds := SdJwtIssuance.Select(SdJwtIssuance.DisclosuresOf(env, s.selective, salts), chosen);
    forall k | 0 <= k < |chosen|
      ensures SdJwt.ReadDisclosure(env, ds[k]) == Some((s.selective[chosen[k]].name, s.selective[chosen[k]].value))
    {
      SdJwt.ReadDisclosureOf(env, salts[chosen[k]], s.selective[chosen[k]].name, s.selective[chosen[k]].value);
    }
    if Discloses(s, chosen, name) {
      var i :| 0 <= i < |chosen| && chosen[i] < |s.selective| && s.selective[chosen[i]].name == name;
      assert SdJwt.ReadDisclosure(env, ds[i]).Some? && SdJwt.ReadDisclosure(env, ds[i]).value.0 == name;
    }
  }

  /** What a verifier may make of some disclosures of a PID over these claims,
      built at time now with this index: a refusal, exactly if one of them has a
      reserved name; or what the issuer says, the index and the address of the
      list included, the claims disclosed as they stood in the record, and no
      other. */
  ghost predicate ReadsSdJwt(m: Materials, now: int, read: Option<map<Octets, SdJwt.Json>>, ds: seq<Octets>,
                             claims: map<Octets, Octets>, idx: int) {
    match read
    case None => exists name :: name in ReservedNames() && Names(m.env, ds, name)
    case Some(found) =>
      && (forall name :: name in ReservedNames() ==> !Names(m.env, ds, name))
      && SaysPid(found, idx, m.uri, m.baseUrl, m.random, m.key, now)
      && (forall name :: Names(m.env, ds, name) ==>
            name in claims && name in found && found[name] == SdJwt.String(claims[name]))
      && (forall name :: name in found ==> name in ReservedNames() || Names(m.env, ds, name))
  }

  lemma CutsAre(text: Octets, jwt: Octets, ds: seq<Octets>)
    requires SdJwt.Split(text) == [jwt] + ds + [[]]
    ensures CutJwt(text) == jwt && CutDisclosures(text) == ds
  {
  }

  /** End to end, SD-JWT: the holder of an issued text cuts it at its tildes and
      presents any of the disclosures, in any order; the verifier then reads the
      index the text was built with, and the disclosed claims of the record. */
  lemma SdJwtTextIsRead(m: Materials, data: string, idx: nat, now: int, text: Octets, chosen: seq<nat>)
    requires SdJwt.Sound(m.env) && IsCredential(m, SdJwtVc, data, idx, now, text)
    requires SdJwtIssuance.NoCollisions(m.env, CutDisclosures(text)) && Below(chosen, |CutDisclosures(text)|)
    ensures var ds := SdJwtIssuance.Select(CutDisclosures(text), chosen);
            ReadsSdJwt(m, now, SdJwt.Verify(m.env, SdJwt.Serialize(CutJwt(text), ds)), ds, m.parse(data).value, idx)
  {
    var claims := m.parse(data).value;
    var s :| IsSdJwtFrom(s, m, claims, idx) && BuildOutcome(m.env, s, m.salts, now, m.headers, Ok(text));
    var jwt := SdJwtIssuance.HolderCutsAtTildes(m.env, s, m.salts, now, m.headers.value, text);
    CutsAre(text, jwt, SdJwtIssuance.DisclosuresOf(m.env, s.selective, m.salts));
    PidPresentationVerifies(m.env, s, claims, idx, m.uri, m.baseUrl, m.random, m.key, m.salts, now,
                            m.headers.value, jwt, chosen);
    forall name
      ensures Names(m.env, SdJwtIssuance.Select(CutDisclosures(text), chosen), name) <==> Discloses(s, chosen, name)
    {
      NamesAreDisclosed(m.env, s, m.salts, chosen, name);
    }
  }

  /** Each disclosure that the holder cuts off is made of one claim of the record
      and of the salt drawn for it; there is one for every claim. */
  lemma SdJwtTextIsSalted(m: Materials, data: string, idx: nat, now: int, text: Octets)
    requires SdJwt.Sound(m.env) && IsCredential(m, SdJwtVc, data, idx, now, text)
    ensures var ds, claims := CutDisclosures(text), m.parse(data).value;
            && |ds| <= |m.salts|
            && (forall i :: 0 <= i < |ds| ==>
                  match SdJwt.DisclosureParts(m.env, ds[i])
                  case Some((salt, name, value)) =>
                    salt == m.salts[i] && name in claims && value == SdJwt.String(claims[name])
                  case None => false)
            && (forall name :: name in claims ==> Names(m.env, ds, name))
  {
    var claims := m.parse(data).value;
    var s :| IsSdJwtFrom(s, m, claims, idx) && BuildOutcome(m.env, s, m.salts, now, m.headers, Ok(text));
    var ds := CutDisclosures(text);
    SdJwtIssuance.IssuedHoldsDisclosures(m.env, s, m.salts, now, m.headers.value, text);
    forall name | name in claims
      ensures Names(m.env, ds, name)
    {
      assert HasEntry(s.selective, name);
      var i :| 0 <= i < |s.selective| && s.selective[i].name == name;
      PartsAreRead(m.env, ds[i]);
    }
  }

  lemma PartsAreRead(env: SdJwt.Env, d: Octets)
    requires SdJwt.DisclosureParts(env, d).Some?
    ensures SdJwt.ReadDisclosure(env, d)
            == Some((SdJwt.DisclosureParts(env, d).value.1, SdJwt.DisclosureParts(env, d).value.2))
  {
  }

  // -------------------------------------------------------------- reading mdoc

  /** What a verifier makes of a presentation of any of the elements: the issuer's
      certificates, the validity and the wallet's key; items that hold the random
      octets drawn for them; the record's claims as they stood there; and by its
      name the status, unless a claim of the record of that name is among them. */
  ghost predicate ReadsMdoc(c: MdocIssuance.Issuance, m: Materials, check: (Octets, Octets) -> bool,
                            chosen: seq<nat>, claims: map<Octets, Octets>, idx: nat)
    requires MdocIssuance.Valid(c) && Below(chosen, |c.elements|)
  {
    var doc, shown := MdocIssuance.Presentation(c, m.sha256, chosen), Shown(c, m.sha256, check, chosen);
    && SaysMdoc(doc, check, m.deviceKey, m.x5c, m.validity) && IsSalted(doc, c.ns, chosen, m.randoms)
    && shown.Some? && Shows(shown.value, c.elements, chosen)
    && (forall k :: 0 <= k < |chosen| && chosen[k] < |c.elements| - 3 ==> AsRecorded(shown.value[k], claims))
    && (AllReadStatus(shown.value, idx, m.uri) <==> !PresentsClaim(c.elements, chosen, Ascii("status")))
  }

  /** All elements, in the order issued. */
  function AllOf(n: nat): (all: seq<nat>)
    ensures |all| == n && Below(all, n) && forall i :: 0 <= i < n ==> all[i] == i
  {
    seq(n, i => i)
  }

  lemma AllAreChosen(c: MdocIssuance.Issuance)
    requires MdocIssuance.Valid(c)
    ensures MdocIssuance.Chosen(c, AllOf(|c.elements|)) == MdocIssuance.Items(c)
  {
  }

  /** Whatever is presented of c, it reads as it should. */
  ghost predicate ReadsWhateverIsShown(c: MdocIssuance.Issuance, m: Materials, check: (Octets, Octets) -> bool,
                                       claims: map<Octets, Octets>, idx: nat)
    requires MdocIssuance.Valid(c)
  {
    forall chosen :: Below(chosen, |c.elements|) && |chosen| < Cbor.LIMIT ==>
      ReadsMdoc(c, m, check, chosen, claims, idx)
  }

  lemma MdocReads(c: MdocIssuance.Issuance, m: Materials, claims: map<Octets, Octets>, idx: nat,
                  check: (Octets, Octets) -> bool)
    requires IsMdocFrom(c, m, claims, idx) && MdocIssuance.AllFit(c, m.sha256) && Checks(c, m.sha256, check)
    ensures ReadsWhateverIsShown(c, m, check, claims, idx)
  {
    forall chosen | Below(chosen, |c.elements|) && |chosen| < Cbor.LIMIT
      ensures ReadsMdoc(c, m, check, chosen, claims, idx)
    {
      MdocSays(c, m.sha256, check, chosen, claims, idx, m.uri, m.idxFirst, m.deviceKey, m.x5c, m.randoms, m.validity);
      MdocIsSalted(c, m.sha256, chosen);
      MdocStatusIsRecovered(c, m.sha256, check, chosen, claims, idx, m.uri, m.idxFirst);
    }
  }

  /** The verifier accepts what becomes of the signer's answers. */
  ghost predicate AcceptsSigner(m: Materials, check: (Octets, Octets) -> bool) {
    forall b :: EcdsaDer.RawSignature(m.signer(b)).Ok? ==> check(b, EcdsaDer.RawSignature(m.signer(b)).value)
  }

  /** As the verifier of ES256 does when the signer makes valid signatures. */
  lemma ValidSignaturesAreAccepted(m: Materials, ecdsa: (Octets, nat, nat) -> bool)
    requires forall b :: m.signer(b).Some? && EcdsaDer.ParseSignature(m.signer(b).value).Some? ==>
               var (r, s) := EcdsaDer.ParseSignature(m.signer(b).value).value; 0 <= r && 0 <= s && ecdsa(b, r, s)
    ensures AcceptsSigner(m, EcdsaDer.HalvesCheck(ecdsa))
  {
    forall b | EcdsaDer.RawSignature(m.signer(b)).Ok?
      ensures EcdsaDer.HalvesCheck(ecdsa)(b, EcdsaDer.RawSignature(m.signer(b)).value)
    {
      EcdsaDer.RawSignatureChecks(b, m.signer(b).value, ecdsa);
    }
  }

  lemma OutcomeChecks(c: MdocIssuance.Issuance, m: Materials, text: Octets, check: (Octets, Octets) -> bool)
    requires MdocIssuance.Valid(c) && MdocOutcome(c, m.sha256, m.signer, Ok(text)) && AcceptsSigner(m, check)
    ensures Checks(c, m.sha256, check)
  {
  }

  lemma MdocTextDecodes(c: MdocIssuance.Issuance, m: Materials, text: Octets)
    requires MdocIssuance.Valid(c) && MdocOutcome(c, m.sha256, m.signer, Ok(text))
    ensures Base64Url.Decode(text) == Some(MdocIssuance.Presentation(c, m.sha256, AllOf(|c.elements|)))
  {
    AllAreChosen(c);
    Base64Url.RoundTrip(MdocIssuance.Presentation(c, m.sha256, AllOf(|c.elements|)));
  }

  /** End to end, mdoc: an issued text decodes to the presentation of all its
      elements, and from any of them, in any order, the verifier reads by name
      the index the text was built with, exactly unless a claim of the record
      called status is among them. */
  lemma MdocTextIsRead(m: Materials, data: string, idx: nat, now: int, text: Octets, check: (Octets, Octets) -> bool)
    returns (c: MdocIssuance.Issuance)
    requires IsCredential(m, MsoMdoc, data, idx, now, text)
    requires AcceptsSigner(m, check)
    ensures IsMdocFrom(c, m, m.parse(data).value, idx)
    ensures Base64Url.Decode(text) == Some(MdocIssuance.Presentation(c, m.sha256, AllOf(|c.elements|)))
    ensures MdocIssuance.AllFit(c, m.sha256) ==> ReadsWhateverIsShown(c, m, check, m.parse(data).value, idx)
  {
    var claims := m.parse(data).value;
    c :| IsMdocFrom(c, m, claims, idx) && MdocOutcome(c, m.sha256, m.signer, Ok(text));
    MdocTextDecodes(c, m, text);
    OutcomeChecks(c, m, text, check);
    if MdocIssuance.AllFit(c, m.sha256) {
      MdocReads(c, m, claims, idx, check);
    }
  }
}
