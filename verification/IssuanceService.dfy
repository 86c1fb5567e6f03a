/** The issuer's operations as one caller runs them, over the in-memory store.
    Clock readings, random tokens, and the verdicts of the JSON, JOSE and
    signing libraries are parameters. */
module IssuanceService {
  import opened Common
  import opened StatusBits
  import opened StoreSpec
  import opened IssuerProtocol
  import AccessToken
  import Base64Url
  import CredentialText
  import DPoP
  import IssuerSafety
  import MdocIssuance
  import MemoryStore
  import Paging
  import PidCredential
  import SdJwt
  import SdJwtIssuance
  import SessionStore

  datatype Error =
    | AccessRefused(why: AccessToken.Refusal) | DpopRefused(why': DPoP.Refusal) | KeyMismatch
    | BadRequestBody | NoConfiguration | IdentifierUnsupported | UnknownConfiguration
    | InvalidProof | InvalidNonce | NoRecordLinked | NoCredentialData | BuildFailed
    | UnknownList | ListBuildFailed
    | UnknownRecord | NotIssued | NoStatusEntry
    | BadCredentialData | BadOffer

  /** The body of a credential request. proofVerified is ValidateProofJWT's
      verdict, proofNonce the nonce read from the proof. */
  datatype CredentialRequest = Unparsable
                             | Request(configurationId: string, identifier: string, proofJwt: string,
                                       proofVerified: bool, proofNonce: Option<string>)

  const PID_CONFIG_ID := "urn:eudi:pid:1"
  const PID_MDOC_CONFIG_ID := "urn:eudi:pid:1.mdoc"
  const STATUS_LIST_ID := "pid"

  function POST(): seq<byte> {
    Ascii("POST")
  }

  datatype RecordView = RecordView(rec: Record, credentialStatus: string)

  function RecordsOf(views: seq<RecordView>): seq<Record> {
    seq(|views|, i requires 0 <= i < |views| => views[i].rec)
  }

  function StatusLabel(entry: Option<(int, bv8)>): string {
    if entry == None then ""
    else if entry.value.1 == VALID then "valid"
    else if entry.value.1 == INVALID then "revoked"
    else if entry.value.1 == SUSPENDED then "suspended"
    else ""
  }

  /** The claims are what the token says, and the proof is by the key that the
      token is bound to. */
  predicate IsFor(c: AccessToken.Cache, a: AccessToken.Access, proof: DPoP.Proof, claims: AccessToken.Claims) {
    && AccessToken.Says(c, a.token, claims) && claims.jti != "" && claims.jkt != ""
    && proof.Parsed? && proof.jwk.Some? && proof.jwk.value.thumbprint == Some(claims.jkt)
  }

  /** The label under which a record's entry is listed: none without an entry. */
  ghost predicate LabelsAs(byRec: map<RecordId, int>, byIdx: map<int, bv8>, id: RecordId, shown: string) {
    && (id !in byRec ==> shown == "")
    && (id in byRec && byRec[id] in byIdx ==>
          && (shown == "valid" <==> byIdx[byRec[id]] == VALID)
          && (shown == "revoked" <==> byIdx[byRec[id]] == INVALID)
          && (shown == "suspended" <==> byIdx[byRec[id]] == SUSPENDED)
          && (shown == "" <==> byIdx[byRec[id]] !in {VALID, INVALID, SUSPENDED}))
  }

  /** The listing says what the published list says: at any point of a run, the
      label of a record with an entry is `revoked` exactly when a list built then
      reads INVALID at the record's index, and `valid` otherwise. */
  lemma LabelIsWhatIsListed(ss: seq<State>, acts: seq<Action>, i: nat, id: RecordId, size: int)
    requires Run(ss, acts) && i < |ss| && id in ss[i].alloc.byRec && IsListSize(ss[i].alloc.byIdx, size)
    ensures 0 <= ss[i].alloc.byRec[id]
    ensures var shown := StatusLabel(FindEntry(ss[i].alloc, id));
            var status := Unpack(Packed(ss[i].alloc.byIdx, size), ss[i].alloc.byRec[id]);
            shown == if status == INVALID then "revoked" else "valid"
  {
    IssuerProtocol.RunKeepsInv(ss, acts, i);
    ListShowsEntries(ss[i].alloc.byIdx, size, ss[i].alloc.byRec[id]);
    assert VALID & 3 == VALID && INVALID & 3 == INVALID;
  }

  /** What the access checks answer, given the verifier's cache and the
      registered jtis: the first that fails, or the token's claims. */
  function AccessVerdict(c: AccessToken.Cache, seen: set<string>, a: AccessToken.Access, proof: DPoP.Proof,
                         ath: string, now: int): (r: Result<AccessToken.Claims, Error>)
    ensures r.Err? && r.error.AccessRefused? <==> !AccessToken.TokenPasses(c, a)
    ensures r.Err? && r.error.DpopRefused? <==>
              AccessToken.TokenPasses(c, a) && !DPoP.ProofPasses(proof, POST(), ath, now, seen)
    ensures r.Ok? ==> IsFor(AccessToken.VerifyStep(c, a).0, a, proof, r.value)
    ensures r.Err? && !r.error.AccessRefused? && !r.error.DpopRefused? ==> r == Err(KeyMismatch)
    ensures AccessToken.TokenPasses(c, a) && DPoP.ProofPasses(proof, POST(), ath, now, seen) ==>
              (r.Ok? <==> proof.jwk.value.thumbprint == Some(AccessToken.ParsedUnder(c, a).jkt))
  {
    match AccessToken.VerifyStep(c, a).1
    case Err(e) => Err(AccessRefused(e))
    case Ok(claims) =>
      match DPoP.ProofVerdict(proof, POST(), ath, now, seen)
      case Err(e) => Err(DpopRefused(e))
      case Ok(key) => if key.thumbprint == Some(claims.jkt) then Ok(claims) else Err(KeyMismatch)
  }

  /** The proof is looked at, and may spend its jti, only behind a valid token. */
  ghost predicate SeenAfterAccess(c: AccessToken.Cache, seen: set<string>, a: AccessToken.Access, proof: DPoP.Proof,
                                  now: int, seen': set<string>) {
    if AccessToken.VerifyStep(c, a).1.Ok? then DPoP.SeenAfter(proof, POST(), now, seen, seen') else seen' == seen
  }

  /** A request for one of the two PID configurations with a proof that
      verifies. */
  predicate WellFormed(req: CredentialRequest) {
    && req.Request? && req.identifier == ""
    && (req.configurationId == PID_CONFIG_ID || req.configurationId == PID_MDOC_CONFIG_ID)
    && req.proofJwt != "" && req.proofVerified
  }

  /** The first fault of a request. */
  function Fault(req: CredentialRequest): (f: Option<Error>)
    ensures f == None <==> WellFormed(req)
    ensures f == Some(BadRequestBody) <==> req.Unparsable?
    ensures f == Some(NoConfiguration) <==> req.Request? && req.configurationId == "" && req.identifier == ""
    ensures f == Some(IdentifierUnsupported) <==> req.Request? && req.identifier != ""
    ensures f == Some(UnknownConfiguration) <==>
              && req.Request? && req.identifier == ""
              && req.configurationId !in {"", "urn:eudi:pid:1", "urn:eudi:pid:1.mdoc"}
    ensures f == Some(InvalidProof) <==>
              && req.Request? && req.identifier == ""
              && req.configurationId in {"urn:eudi:pid:1", "urn:eudi:pid:1.mdoc"}
              && (req.proofJwt == "" || !req.proofVerified)
  {
    if req.Unparsable? then Some(BadRequestBody)
    else if req.configurationId == "" && req.identifier == "" then Some(NoConfiguration)
    else if req.identifier != "" then Some(IdentifierUnsupported)
    else if req.configurationId != PID_CONFIG_ID && req.configurationId != PID_MDOC_CONFIG_ID then
      Some(UnknownConfiguration)
    else if req.proofJwt == "" || !req.proofVerified then Some(InvalidProof)
    else None
  }

  predicate NonceAccepted(nonces: set<string>, proofNonce: Option<string>, tokenCNonce: string) {
    && proofNonce.Some? && proofNonce.value != ""
    && (proofNonce.value in nonces || proofNonce.value == tokenCNonce)
  }

  function NoncesAfter(nonces: set<string>, proofNonce: Option<string>): set<string> {
    if proofNonce.Some? && proofNonce.value != ""
    then SessionStore.Apply(nonces, SessionStore.Validate(proofNonce.value)) else nonces
  }

  predicate HasData(records: map<RecordId, Record>, id: RecordId) {
    id in records && records[id].credentialData != "" && records[id].credentialData != "{}"
  }

  predicate IsMarked(records: map<RecordId, Record>, id: RecordId) {
    id in records && records[id].status == CredentialIssued
  }

  /** The first fault of a credential request behind the access checks, short of
      the build. */
  function RequestFault(claims: AccessToken.Claims, req: CredentialRequest, nonces: set<string>,
                        records: map<RecordId, Record>)
    : (f: Option<Error>)
    ensures f == None <==>
              && WellFormed(req) && NonceAccepted(nonces, req.proofNonce, claims.cNonce)
              && claims.issuanceRecordId != "" && HasData(records, claims.issuanceRecordId)
    ensures !WellFormed(req) ==> f == Fault(req)
    ensures f == Some(InvalidNonce) <==> WellFormed(req) && !NonceAccepted(nonces, req.proofNonce, claims.cNonce)
    ensures f == Some(NoRecordLinked) <==>
              && WellFormed(req) && NonceAccepted(nonces, req.proofNonce, claims.cNonce)
              && claims.issuanceRecordId == ""
    ensures f == Some(NoCredentialData) <==>
              && WellFormed(req) && NonceAccepted(nonces, req.proofNonce, claims.cNonce)
              && claims.issuanceRecordId != ""
              && (claims.issuanceRecordId in records ==>
                    records[claims.issuanceRecordId].credentialData in {"", "{}"})
    ensures f != Some(BuildFailed)
  {
    match Fault(req)
    case Some(f) => Some(f)
    case None =>
      if !NonceAccepted(nonces, req.proofNonce, claims.cNonce) then Some(InvalidNonce)
      else if claims.issuanceRecordId == "" then Some(NoRecordLinked)
      else if !HasData(records, claims.issuanceRecordId) then Some(NoCredentialData)
      else None
  }

  function FormatOf(req: CredentialRequest): Format
    requires req.Request?
  {
    if req.configurationId == PID_CONFIG_ID then SdJwtVc else MsoMdoc
  }

  /** The format that the configuration asked for stands for. */
  predicate AsAsked(req: CredentialRequest, format: Format) {
    && req.Request?
    && match format
       case SdJwtVc => req.configurationId == "urn:eudi:pid:1"
       case MsoMdoc => req.configurationId == "urn:eudi:pid:1.mdoc"
  }

  /** A credential handed out: whose, which index, and its text. */
  datatype Response = Response(credential: Credential, text: seq<byte>)

  /** What a build for record id comes to: a text over the record's data that
      carries the index the allocator gives the record, or a failure for which
      there is a reason. */
  ghost predicate BuildResult(m: CredentialText.Materials, format: Format, records: map<RecordId, Record>,
                              alloc: Alloc, id: RecordId, now: int, r: Result<Response, Error>)
    requires id in records && AllocValid(alloc)
  {
    var idx: nat := Allocate(alloc, id).1;
    match r
    case Ok(resp) =>
      && resp.credential == Credential(id, idx, format)
      && CredentialText.IsCredential(m, format, records[id].credentialData, idx, now, resp.text)
    case Err(e) =>
      e == BuildFailed && CredentialText.MayFail(m, format, records[id].credentialData, idx, now)
  }

  /** What a credential request is answered once the access checks have yielded
      the claims: its first fault, or what the build comes to in the format asked
      for. */
  ghost predicate Answered(claims: AccessToken.Claims, req: CredentialRequest, nonces: set<string>,
                           records: map<RecordId, Record>, alloc: Alloc, m: CredentialText.Materials, now: int,
                           r: Result<Response, Error>)
    requires AllocValid(alloc)
  {
    match RequestFault(claims, req, nonces, records)
    case Some(f) => r == Err(f)
    case None =>
      exists format :: AsAsked(req, format) && BuildResult(m, format, records, alloc, claims.issuanceRecordId, now, r)
  }

  /** What a request that is answered with a credential gets: one for the record
      that the token names, which has data, in the format asked for, for a nonce
      that was there or is the token's own. */
  ghost predicate AsGranted(claims: AccessToken.Claims, req: CredentialRequest, nonces: set<string>,
                            records: map<RecordId, Record>, resp: Response) {
    && AsAsked(req, resp.credential.format) && resp.credential.rec == claims.issuanceRecordId
    && claims.issuanceRecordId in records && records[claims.issuanceRecordId].credentialData !in {"", "{}"}
    && req.proofNonce.Some? && (req.proofNonce.value in nonces || req.proofNonce.value == claims.cNonce)
  }

  lemma AnsweredByRecord(claims: AccessToken.Claims, req: CredentialRequest, nonces: set<string>,
                         records: map<RecordId, Record>, alloc: Alloc, m: CredentialText.Materials, now: int,
                         r: Result<Response, Error>)
    requires AllocValid(alloc) && WellFormed(req) && NonceAccepted(nonces, req.proofNonce, claims.cNonce)
    requires claims.issuanceRecordId != ""
    requires if HasData(records, claims.issuanceRecordId)
             then BuildResult(m, FormatOf(req), records, alloc, claims.issuanceRecordId, now, r)
             else r == Err(NoCredentialData)
    ensures Answered(claims, req, nonces, records, alloc, m, now, r)
  {
    assert AsAsked(req, FormatOf(req));
  }

  lemma AnsweredAsGranted(claims: AccessToken.Claims, req: CredentialRequest, nonces: set<string>,
                          records: map<RecordId, Record>, alloc: Alloc, m: CredentialText.Materials, now: int,
                          r: Result<Response, Error>)
    requires AllocValid(alloc) && Answered(claims, req, nonces, records, alloc, m, now, r) && r.Ok?
    ensures AsGranted(claims, req, nonces, records, r.value)
  {
  }

  /** Only the record of the credential handed out changes, and only entries that
      are new. */
  ghost predicate OthersKept(records: map<RecordId, Record>, records': map<RecordId, Record>,
                             byRec: map<RecordId, int>, byRec': map<RecordId, int>, r: Result<Response, Error>) {
    && records'.Keys == records.Keys
    && (forall id :: id in records && !(r.Ok? && id == r.value.credential.rec) ==> records'[id] == records[id])
    && (forall id :: id in byRec ==> id in byRec' && byRec'[id] == byRec[id])
  }

  lemma StoresKeepOthers(alloc: Alloc, records: Records, id: RecordId, r: Result<Response, Error>, now: int)
    requires r.Ok? ==> r.value.credential.rec == id
    ensures var (alloc', records') := StoresAfter(alloc, records, id, r, now);
            OthersKept(records.byId, records'.byId, alloc.byRec, alloc'.byRec, r)
  {
  }

  /** The stores after a request for record id has been answered: a failed build
      leaves the allocation behind, an issued credential also marks the record. */
  function StoresAfter(alloc: Alloc, records: Records, id: RecordId, r: Result<Response, Error>, now: int)
    : (Alloc, Records)
  {
    (if r.Ok? || r.error == BuildFailed then Allocate(alloc, id).0 else alloc,
     if r.Ok? then UpdateStatus(records, id, CredentialIssued, now) else records)
  }

  /** The credential of resp carries the index that its record owns in the
      allocator, and its text was built from that index and the record's data. */
  ghost predicate HandedOut(alloc: Alloc, m: CredentialText.Materials, records: map<RecordId, Record>, now: int,
                            resp: Response)
  {
    var Credential(id, idx, format) := resp.credential;
    && id in alloc.byRec && alloc.byRec[id] == idx && 0 <= idx && id in records
    && CredentialText.IsCredential(m, format, records[id].credentialData, idx, now, resp.text)
  }

  /** End to end, from the service to a verifier: from whatever the holder of an
      SD-JWT that was handed out presents, the verifier reads the index that the
      credential's record owns, and the claims disclosed. */
  lemma HandedOutSdJwtIsRead(alloc: Alloc, m: CredentialText.Materials, records: map<RecordId, Record>, now: int,
                             resp: Response, chosen: seq<nat>)
    requires HandedOut(alloc, m, records, now, resp) && resp.credential.format == SdJwtVc && SdJwt.Sound(m.env)
    requires SdJwtIssuance.NoCollisions(m.env, CredentialText.CutDisclosures(resp.text))
    requires Below(chosen, |CredentialText.CutDisclosures(resp.text)|)
    ensures var id, ds := resp.credential.rec, SdJwtIssuance.Select(CredentialText.CutDisclosures(resp.text), chosen);
            m.parse(records[id].credentialData).Some? &&
            CredentialText.ReadsSdJwt(m, now,
                                      SdJwt.Verify(m.env, SdJwt.Serialize(CredentialText.CutJwt(resp.text), ds)), ds,
                                      m.parse(records[id].credentialData).value, alloc.byRec[id])
  {
    var Credential(id, idx, format) := resp.credential;
    CredentialText.SdJwtTextIsRead(m, records[id].credentialData, idx, now, resp.text, chosen);
  }

  /** And the same of an mdoc, by the names of the elements shown. */
  lemma HandedOutMdocIsRead(alloc: Alloc, m: CredentialText.Materials, records: map<RecordId, Record>, now: int,
                            resp: Response, check: (seq<byte>, seq<byte>) -> bool)
    returns (c: MdocIssuance.Issuance)
    requires HandedOut(alloc, m, records, now, resp) && resp.credential.format == MsoMdoc
    requires CredentialText.AcceptsSigner(m, check)
    ensures m.parse(records[resp.credential.rec].credentialData).Some? && 0 <= alloc.byRec[resp.credential.rec]
    ensures CredentialText.IsMdocFrom(c, m, m.parse(records[resp.credential.rec].credentialData).value,
            alloc.byRec[resp.credential.rec])
    ensures Base64Url.Decode(resp.text)
            == Some(MdocIssuance.Presentation(c, m.sha256, CredentialText.AllOf(|c.elements|)))
    ensures MdocIssuance.AllFit(c, m.sha256) ==>
              CredentialText.ReadsWhateverIsShown(
                c, m, check, m.parse(records[resp.credential.rec].credentialData).value,
                alloc.byRec[resp.credential.rec])
  {
    var Credential(id, idx, format) := resp.credential;
    c := CredentialText.MdocTextIsRead(m, records[id].credentialData, idx, now, resp.text, check);
  }

  /** The verifier reads this index and this address from an SD-JWT, unless it
      refuses it; and the list shows INVALID there. */
  ghost predicate ReadsRevoked(read: Option<map<seq<byte>, SdJwt.Json>>, idx: nat, uri: seq<byte>, list: Token) {
    && (read.Some? ==>
          && Ascii("status") in read.value
          && PidCredential.ReadStatus(read.value[Ascii("status")]) == Some((idx, uri)))
    && Unpack(list, idx) == INVALID
  }

  /** From the revocation to the verifier. A credential was handed out at point n
      of a run, its record's revocation returned success in step i, and a list was
      handed out in a later step j. Then a verifier who reads the SD-JWT, whatever
      of it is presented, reads the index that the record owns, and finds INVALID
      there in that list. */
  lemma RevokedSdJwtReadsRevoked(ss: seq<State>, acts: seq<Action>, n: nat, u: ThreadId, i: nat, j: nat,
                                 m: CredentialText.Materials, now: int, resp: Response, chosen: seq<nat>)
    requires Run(ss, acts) && n < |ss| && i < j < |acts| && acts[i].ClearCache? && IssuerSafety.Serves(acts[j])
    requires At(ss[n], u) == Issued(resp.credential) && At(ss[i + 1], acts[i].t) == Revoked(resp.credential.rec)
    requires HandedOut(ss[n].alloc, m, ss[n].records.byId, now, resp) && resp.credential.format == SdJwtVc
    requires SdJwt.Sound(m.env) && SdJwtIssuance.NoCollisions(m.env, CredentialText.CutDisclosures(resp.text))
    requires Below(chosen, |CredentialText.CutDisclosures(resp.text)|)
    ensures At(ss[j + 1], acts[j].t).Served? && 0 <= ss[n].alloc.byRec[resp.credential.rec]
    ensures var ds := SdJwtIssuance.Select(CredentialText.CutDisclosures(resp.text), chosen);
            ReadsRevoked(SdJwt.Verify(m.env, SdJwt.Serialize(CredentialText.CutJwt(resp.text), ds)),
                         ss[n].alloc.byRec[resp.credential.rec], m.uri, At(ss[j + 1], acts[j].t).token)
  {
    IssuerSafety.RevokedCredentialIsListed(ss, acts, n, u, i, j);
    HandedOutSdJwtIsRead(ss[n].alloc, m, ss[n].records.byId, now, resp, chosen);
    assert 0 <= resp.credential.idx;
  }

  /** And whatever a verifier is shown as the status of the mdoc, unless a claim
      of the record called status is among it. */
  lemma RevokedMdocReadsRevoked(ss: seq<State>, acts: seq<Action>, n: nat, u: ThreadId, i: nat, j: nat,
                                m: CredentialText.Materials, now: int, resp: Response,
                                check: (seq<byte>, seq<byte>) -> bool)
    returns (c: MdocIssuance.Issuance)
    requires Run(ss, acts) && n < |ss| && i < j < |acts| && acts[i].ClearCache? && IssuerSafety.Serves(acts[j])
    requires At(ss[n], u) == Issued(resp.credential) && At(ss[i + 1], acts[i].t) == Revoked(resp.credential.rec)
    requires HandedOut(ss[n].alloc, m, ss[n].records.byId, now, resp) && resp.credential.format == MsoMdoc
    requires CredentialText.AcceptsSigner(m, check)
    ensures At(ss[j + 1], acts[j].t).Served? && 0 <= ss[n].alloc.byRec[resp.credential.rec]
    ensures MdocIssuance.Valid(c) && Base64Url.Decode(resp.text)
            == Some(MdocIssuance.Presentation(c, m.sha256, CredentialText.AllOf(|c.elements|)))
    ensures MdocIssuance.AllFit(c, m.sha256) ==>
              m.parse(ss[n].records.byId[resp.credential.rec].credentialData).Some? &&
              CredentialText.ReadsWhateverIsShown(
                c, m, check, m.parse(ss[n].records.byId[resp.credential.rec].credentialData).value,
                ss[n].alloc.byRec[resp.credential.rec])
    ensures Unpack(At(ss[j + 1], acts[j].t).token, ss[n].alloc.byRec[resp.credential.rec]) == INVALID
  {
    IssuerSafety.RevokedCredentialIsListed(ss, acts, n, u, i, j);
    c := HandedOutMdocIsRead(ss[n].alloc, m, ss[n].records.byId, now, resp, check);
  }

  class Service {
    const sessions: SessionStore.SessionStore
    const store: MemoryStore.Store
    const jtis: DPoP.JtiStore
    const tokens: AccessToken.Verifier

    var statusCacheToken: Option<Token>
    var statusCacheExp: int

    ghost predicate Valid()
      reads this, store
    {
      store.Valid()
    }

    constructor (sessions: SessionStore.SessionStore, store: MemoryStore.Store, jtis: DPoP.JtiStore,
                 tokens: AccessToken.Verifier)
      requires store.Valid()
      ensures Valid() && statusCacheToken == None
      ensures this.sessions == sessions && this.store == store && this.jtis == jtis && this.tokens == tokens
    {
      this.sessions, this.store, this.jtis, this.tokens := sessions, store, jtis, tokens;
      statusCacheToken, statusCacheExp := None, 0;
    }

    // ----------------------------------------------------------- TriggerIssuance

    /** id, issuerState and offerId are random; the last two flags say whether
        the credential data and the offer can be marshalled. */
    method TriggerIssuance(credentialType: string, credentialData: string, sourceType: string, sourceRef: string,
                           id: RecordId, issuerState: string, offerId: string, offerJson: string, now: int,
                           dataMarshals: bool, offerMarshals: bool) returns (r: Result<RecordId, Error>)
      requires Valid()
      modifies store, sessions
      ensures Valid()
      ensures store.AllocView() == old(store.AllocView()) && sessions.nonces == old(sessions.nonces)
      ensures dataMarshals ==> store.byIssuerState == old(store.byIssuerState)[issuerState := id]
      ensures r == if !dataMarshals then Err(BadCredentialData) else if !offerMarshals then Err(BadOffer) else Ok(id)
      ensures !dataMarshals ==> store.RecordsView() == old(store.RecordsView())
      ensures dataMarshals ==>
                && id in store.records
                && FindByIssuerState(store.RecordsView(), issuerState) == Some(store.records[id])
                && store.records == old(store.records)[id := store.records[id]]
                && store.records[id] == NewRecord(id, if credentialType == "" then PID_CONFIG_ID else credentialType,
                                                  credentialData, sourceType, sourceRef, now)
                     .(issuerState := issuerState, status := if offerMarshals then OfferCreated else Pending)
      ensures sessions.credentialOffers ==
              if r.Ok? then old(sessions.credentialOffers)[offerId := offerJson] else old(sessions.credentialOffers)
    {
      var kind := credentialType;
      if kind == "" {
        kind := PID_CONFIG_ID;
      }
      if !dataMarshals {
        return Err(BadCredentialData);
      }
      var rec := store.Create(kind, credentialData, sourceType, sourceRef, id, now);
      store.SetIssuerState(rec.id, issuerState, now);
      if !offerMarshals {
        return Err(BadOffer);
      }
      sessions.StoreCredentialOffer(offerJson, offerId);
      store.SetRecordStatus(rec.id, OfferCreated, now);
      return Ok(rec.id);
    }

    // -------------------------------------------------------------- access checks

    /** Verifies the access token, then the DPoP proof, then that the proof's
        key is the one the token is bound to. */
    method Authorize(a: AccessToken.Access, proof: DPoP.Proof, ath: string, now: int)
      returns (r: Result<AccessToken.Claims, Error>)
      modifies tokens, jtis
      ensures r == AccessVerdict(old(tokens.View()), old(jtis.seen), a, proof, ath, now)
      ensures tokens.View() == AccessToken.VerifyStep(old(tokens.View()), a).0
      ensures SeenAfterAccess(old(tokens.View()), old(jtis.seen), a, proof, now, jtis.seen)
      ensures r.Ok? ==>
                && IsFor(tokens.View(), a, proof, r.value)
                && DPoP.WellFormed(proof, Ascii("POST"), now) && (ath != "" ==> proof.ath == ath)
                && proof.jti !in old(jtis.seen) && proof.jti in jtis.seen
      ensures !AccessToken.TokenPasses(old(tokens.View()), a) ==> jtis.seen == old(jtis.seen)
    {
      var claims := tokens.Verify(a);
      if claims.Err? {
        return Err(AccessRefused(claims.error));
      }
      var key := DPoP.ValidateProof(proof, POST(), ath, now, jtis);
      if key.Err? {
        return Err(DpopRefused(key.error));
      }
      if key.value.thumbprint != Some(claims.value.jkt) {
        return Err(KeyMismatch);
      }
      return Ok(claims.value);
    }

    // ------------------------------------------------------------------- nonces

    /** Registers the random nonce whatever follows; hands it out unless an
        access token is presented that does not pass. */
    method GenerateNonce(nonce: string, access: Option<AccessToken.Access>, proof: DPoP.Proof, ath: string, now: int)
      returns (r: Result<string, Error>)
      modifies sessions, tokens, jtis
      ensures sessions.nonces == old(sessions.nonces) + {nonce}
      ensures sessions.credentialOffers == old(sessions.credentialOffers)
      ensures r == if access == None then Ok(nonce)
                   else match AccessVerdict(old(tokens.View()), old(jtis.seen), access.value, proof, ath, now)
                        case Err(e) => Err(e)
                        case Ok(_) => Ok(nonce)
      ensures if access == None then jtis.seen == old(jtis.seen) && tokens.View() == old(tokens.View())
              else && SeenAfterAccess(old(tokens.View()), old(jtis.seen), access.value, proof, now, jtis.seen)
                   && tokens.View() == AccessToken.VerifyStep(old(tokens.View()), access.value).0
    {
      sessions.RegisterNonce(nonce);
      if access.Some? {
        var claims := Authorize(access.value, proof, ath, now);
        if claims.Err? {
          return Err(claims.error);
        }
      }
      return Ok(nonce);
    }

    /** A proof nonce passes if this issuer handed it out and it is unspent, and
        then it is spent; or if it is the access token's own c_nonce. */
    method ValidateProofNonce(proofNonce: Option<string>, tokenCNonce: string) returns (ok: bool)
      modifies sessions`nonces
      ensures ok <==> NonceAccepted(old(sessions.nonces), proofNonce, tokenCNonce)
      ensures sessions.nonces == NoncesAfter(old(sessions.nonces), proofNonce)
      ensures ok <==> && proofNonce.Some? && proofNonce.value != ""
                      && (proofNonce.value in old(sessions.nonces) || proofNonce.value == tokenCNonce)
      ensures sessions.nonces ==
              if proofNonce.Some? && proofNonce.value != "" then old(sessions.nonces) - {proofNonce.value}
              else old(sessions.nonces)
    {
      if proofNonce.None? || proofNonce.value == "" {
        return false;
      }
      var registered := sessions.ValidateNonce(proofNonce.value);
      if registered {
        return true;
      }
      if tokenCNonce != "" && proofNonce.value == tokenCNonce {
        return true;
      }
      return false;
    }

    // ----------------------------------------------------------- IssueCredential

    /** A credential goes out exactly for a well-formed request by the holder of
        the access token's key, with a fresh DPoP proof, an acceptable proof
        nonce and a record that has data, if the build succeeds; its text carries
        the index that its record owns, and its proof nonce is unusable here
        afterwards. Any other request is answered with its first fault, leaves
        all records alone, and leaves the allocator alone too unless it is the
        build that failed: then, and only then, a record without an entry gets
        one and is not issued. */
    method IssueCredential(a: AccessToken.Access, proof: DPoP.Proof, ath: string, req: CredentialRequest,
                           m: CredentialText.Materials, now: int)
      returns (r: Result<Response, Error>)
      requires Valid()
      modifies store, sessions`nonces, tokens, jtis
      ensures Valid()
      ensures tokens.View() == AccessToken.VerifyStep(old(tokens.View()), a).0
      ensures SeenAfterAccess(old(tokens.View()), old(jtis.seen), a, proof, now, jtis.seen)
      ensures match AccessVerdict(old(tokens.View()), old(jtis.seen), a, proof, ath, now)
              case Err(e) =>
                && r == Err(e) && sessions.nonces == old(sessions.nonces)
                && store.AllocView() == old(store.AllocView()) && store.RecordsView() == old(store.RecordsView())
              case Ok(claims) =>
                && Answered(claims, req, old(sessions.nonces), old(store.records), old(store.AllocView()), m, now, r)
                && (sessions.nonces ==
                    if !WellFormed(req) then old(sessions.nonces)
                    else NoncesAfter(old(sessions.nonces), req.proofNonce) - (if r.Ok? then {claims.cNonce} else {}))
                && (store.AllocView(), store.RecordsView()) ==
                   StoresAfter(old(store.AllocView()), old(store.RecordsView()), claims.issuanceRecordId, r, now)
      ensures var verdict := AccessVerdict(old(tokens.View()), old(jtis.seen), a, proof, ath, now);
              forall id :: id !in old(store.statusByRecId) && !IsMarked(old(store.records), id) ==>
                (id in store.statusByRecId && !IsMarked(store.records, id) <==>
                 r == Err(BuildFailed) && HasData(old(store.records), id) && verdict.Ok?
                   && id == verdict.value.issuanceRecordId)
      ensures r.Ok? ==>
                && HandedOut(store.AllocView(), m, old(store.records), now, r.value)
                && IsMarked(store.records, r.value.credential.rec)
                && req.Request? && req.proofNonce.Some? && req.proofNonce.value !in sessions.nonces
      ensures r.Ok? ==>
                exists claims :: IsFor(tokens.View(), a, proof, claims)
                                 && AsGranted(claims, req, old(sessions.nonces), old(store.records), r.value)
      ensures OthersKept(old(store.records), store.records, old(store.statusByRecId), store.statusByRecId, r)
    {
      var claims := Authorize(a, proof, ath, now);
      if claims.Err? {
        return Err(claims.error);
      }
      r := IssueFor(claims.value, req, m, now);
      if r.Ok? {
        assert IsFor(tokens.View(), a, proof, claims.value);
        AnsweredAsGranted(claims.value, req, old(sessions.nonces), old(store.records), old(store.AllocView()), m, now,
                          r);
      }
    }

    /** The checks of the request itself, in their order. */
    static method CheckRequest(req: CredentialRequest) returns (f: Option<Error>)
      ensures f == Fault(req)
    {
      if req.Unparsable? {
        return Some(BadRequestBody);
      }
      if req.configurationId == "" && req.identifier == "" {
        return Some(NoConfiguration);
      }
      if req.identifier != "" {
        return Some(IdentifierUnsupported);
      }
      if req.configurationId != PID_CONFIG_ID && req.configurationId != PID_MDOC_CONFIG_ID {
        return Some(UnknownConfiguration);
      }
      if req.proofJwt == "" || !req.proofVerified {
        return Some(InvalidProof);
      }
      return None;
    }

    /** The part behind the access checks. */
    method IssueFor(claims: AccessToken.Claims, req: CredentialRequest, m: CredentialText.Materials, now: int)
      returns (r: Result<Response, Error>)
      requires Valid()
      modifies store, sessions`nonces
      ensures Valid()
      ensures Answered(claims, req, old(sessions.nonces), old(store.records), old(store.AllocView()), m, now, r)
      ensures OthersKept(old(store.records), store.records, old(store.statusByRecId), store.statusByRecId, r)
      ensures sessions.nonces ==
              if !WellFormed(req) then old(sessions.nonces)
              else NoncesAfter(old(sessions.nonces), req.proofNonce) - (if r.Ok? then {claims.cNonce} else {})
      ensures (store.AllocView(), store.RecordsView()) ==
              StoresAfter(old(store.AllocView()), old(store.RecordsView()), claims.issuanceRecordId, r, now)
    {
      var fault := CheckRequest(req);
      if fault.Some? {
        return Err(fault.value);
      }
      var nonceOk := ValidateProofNonce(req.proofNonce, claims.cNonce);
      if !nonceOk {
        return Err(InvalidNonce);
      }
      if claims.issuanceRecordId == "" {
        return Err(NoRecordLinked);
      }
      r := IssueRecord(claims.issuanceRecordId, FormatOf(req), m, now);
      AnsweredByRecord(claims, req, old(sessions.nonces), old(store.records), old(store.AllocView()), m, now, r);
      if r.Ok? {
        sessions.InvalidateNonce(claims.cNonce);
      }
    }

    /** The part that deals with the stores and the builders. */
    method IssueRecord(id: RecordId, format: Format, m: CredentialText.Materials, now: int)
      returns (r: Result<Response, Error>)
      requires Valid()
      modifies store
      ensures Valid()
      ensures if HasData(old(store.records), id)
              then BuildResult(m, format, old(store.records), old(store.AllocView()), id, now, r)
              else r == Err(NoCredentialData)
      ensures (store.AllocView(), store.RecordsView()) ==
              StoresAfter(old(store.AllocView()), old(store.RecordsView()), id, r, now)
      ensures id !in old(store.statusByRecId) && !IsMarked(old(store.records), id) ==>
                (id in store.statusByRecId && !IsMarked(store.records, id) <==>
                 HasData(old(store.records), id) && r == Err(BuildFailed))
      ensures OthersKept(old(store.records), store.records, old(store.statusByRecId), store.statusByRecId, r)
    {
      var rec := store.FindById(id);
      if rec.None? || rec.value.credentialData == "" || rec.value.credentialData == "{}" {
        return Err(NoCredentialData);
      }
      r := AllocateAndBuild(id, format, m, now);
      StoresKeepOthers(old(store.AllocView()), old(store.RecordsView()), id, r, now);
    }

    /** The index is allocated before the text is built. */
    method AllocateAndBuild(id: RecordId, format: Format, m: CredentialText.Materials, now: int)
      returns (r: Result<Response, Error>)
      requires Valid() && id in store.records
      modifies store
      ensures Valid()
      ensures BuildResult(m, format, old(store.records), old(store.AllocView()), id, now, r)
      ensures (store.AllocView(), store.RecordsView()) ==
              StoresAfter(old(store.AllocView()), old(store.RecordsView()), id, r, now)
    {
      var data := store.records[id].credentialData;
      var statusIdx := store.AllocateIdx(id);
      var text := BuildText(format, data, statusIdx, m, now);
      if text.None? {
        return Err(BuildFailed);
      }
      store.SetRecordStatus(id, CredentialIssued, now);
      return Ok(Response(Credential(id, statusIdx, format), text.value));
    }

    method BuildText(format: Format, data: string, idx: nat, m: CredentialText.Materials, now: int)
      returns (text: Option<seq<byte>>)
      ensures match text
              case Some(t) => CredentialText.IsCredential(m, format, data, idx, now, t)
              case None => CredentialText.MayFail(m, format, data, idx, now)
    {
      if format == MsoMdoc {
        text := CredentialText.BuildMdoc(m, data, idx, now);
      } else {
        text := CredentialText.BuildSdJwt(m, data, idx, now);
      }
    }

    // --------------------------------------------------------------- status list

    /** Serves the cached list while it is fresh, else builds and signs one. A
        list just built shows the store's status at every index. */
    method GetStatusListToken(listId: string, now: int, done: int, signs: bool) returns (r: Result<Token, Error>)
      requires Valid()
      modifies this
      ensures Valid()
      ensures r == Err(UnknownList) <==> listId != STATUS_LIST_ID
      ensures r.Err? ==> statusCacheToken == old(statusCacheToken) && statusCacheExp == old(statusCacheExp)
      ensures listId == STATUS_LIST_ID ==>
                var isFresh := old(statusCacheToken).Some? && now < old(statusCacheExp);
                && (r.Ok? <==> isFresh || signs)
                && (r.Ok? ==> statusCacheToken == Some(r.value))
                && (isFresh ==> r == Ok(old(statusCacheToken).value) && statusCacheExp == old(statusCacheExp))
                && (r.Ok? && !isFresh ==>
                      && statusCacheExp == done + STATUS_LIST_CACHE_TTL
                      && (forall i :: 0 <= i ==> Unpack(r.value, i) == StatusAt(store.AllocView().byIdx, i))
                      && (forall i :: i in store.statusByIdx ==> 0 <= i && i / 4 < |r.value|))
    {
      if listId != STATUS_LIST_ID {
        return Err(UnknownList);
      }
      if statusCacheToken.Some? && now < statusCacheExp {
        return Ok(statusCacheToken.value);
      }
      var entries := store.AllEntries();
      var size := ListSize(entries);
      var token := BuildList(entries, size);
      if !signs {
        return Err(ListBuildFailed);
      }
      statusCacheToken := Some(token);
      statusCacheExp := done + STATUS_LIST_CACHE_TTL;
      return Ok(token);
    }

    /** Succeeds exactly on an issued record that has a status entry, first time
        or not: then the entry is INVALID and no list is cached. */
    method RevokeCredential(id: RecordId) returns (r: Result<(), Error>)
      requires Valid()
      modifies this, store
      ensures Valid()
      ensures r.Ok? <==>
                && id in store.records && store.records[id].status == CredentialIssued
                && id in store.statusByRecId
      ensures r == Err(UnknownRecord) <==> id !in store.records
      ensures r == Err(NotIssued) <==> id in store.records && store.records[id].status != CredentialIssued
      ensures store.RecordsView() == old(store.RecordsView()) && statusCacheExp == old(statusCacheExp)
      ensures if r.Ok?
              then store.AllocView() == SetStatus(old(store.AllocView()), id, INVALID).0 && statusCacheToken == None
              else store.AllocView() == old(store.AllocView()) && statusCacheToken == old(statusCacheToken)
    {
      var rec := store.FindById(id);
      if rec.None? {
        return Err(UnknownRecord);
      }
      if rec.value.status != CredentialIssued {
        return Err(NotIssued);
      }
      var entry := store.FindByRecordId(id);
      if entry.None? {
        return Err(NoStatusEntry);
      }
      var idx := store.SetEntryStatus(id, INVALID);
      if idx.None? {
        return Err(NoStatusEntry);
      }
      statusCacheToken := None;
      return Ok(());
    }

    // ------------------------------------------------------------------- listing

    /** One page, counted from 1, of the records and their status labels. */
    method ListIssuanceRecords(page: int, size: int, sort: string, order: string)
      returns (views: seq<RecordView>, total: nat, page': nat, size': nat)
      requires Valid()
      ensures page' == (if page < 1 then 1 else page) && size' == (if size < 1 then 20 else size)
      ensures total == |store.records|
      ensures Paging.IsPage(RecordsOf(views), store.records, Offset(page', size'), size',
                            Paging.FieldOf(sort), Paging.Descending(order))
      ensures forall i :: 0 <= i < |views| ==>
                views[i].credentialStatus == StatusLabel(FindEntry(store.AllocView(), views[i].rec.id))
      ensures forall i :: 0 <= i < |views| ==>
                LabelsAs(store.statusByRecId, store.statusByIdx, views[i].rec.id, views[i].credentialStatus)
    {
      var p, n := page, size;
      if p < 1 {
        p := 1;
      }
      if n < 1 {
        n := 20;
      }
      page', size' := p, n;
      var offset := Offset(page', size');
      var records;
      records, total := store.FindAll(offset, size', sort, order);
      views := ViewsOf(records);
    }

    /** Each record with the label of its status entry. */
    method ViewsOf(records: seq<Record>) returns (views: seq<RecordView>)
      requires Valid()
      ensures RecordsOf(views) == records
      ensures forall i :: 0 <= i < |views| ==>
                views[i].credentialStatus == StatusLabel(FindEntry(store.AllocView(), views[i].rec.id))
      ensures forall i :: 0 <= i < |views| ==>
                LabelsAs(store.statusByRecId, store.statusByIdx, views[i].rec.id, views[i].credentialStatus)
    {
      views := [];
      for i := 0 to |records|
        invariant |views| == i
        invariant forall k :: 0 <= k < i ==> views[k].rec == records[k]
        invariant forall k :: 0 <= k < i ==>
                    views[k].credentialStatus == StatusLabel(FindEntry(store.AllocView(), views[k].rec.id))
      {
        var entry := store.FindByRecordId(records[i].id);
        views := views + [RecordView(records[i], StatusLabel(entry))];
      }
    }
  }

  /** Packs the entries into the list a token carries. */
  method BuildList(entries: map<int, bv8>, size: int) returns (token: Token)
    requires IsListSize(entries, size)
    ensures forall i :: 0 <= i ==> Unpack(token, i) == StatusAt(entries, i)
    ensures forall i :: 0 <= i && i in entries ==> i / 4 < |token|
  {
    var bits := PackBitstring(entries, size);
    token := bits[..];
    forall i | 0 <= i
      ensures Unpack(token, i) == StatusAt(entries, i)
      ensures i in entries ==> i / 4 < |token|
    {
      ListShowsEntries(entries, size, i);
    }
  }

  function Offset(page: nat, size: nat): (offset: nat)
    requires page >= 1
    ensures offset == (page - 1) * size
  {
    (page - 1) * size
  }
}
