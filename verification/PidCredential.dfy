/** The two PID credentials the issuer builds from a record's claims, and what a
    verifier reads back: the claims the holder discloses and the status index. */
module PidCredential {
  import opened Common
  import Base64Url
  import Cbor
  import EcdsaDer
  import Mdoc
  import MdocIssuance
  import SdJwt
  import SdJwtIssuance

  type Octets = seq<byte>

  // ------------------------------------------------------------------ SD-JWT

  const STATUS := Ascii("status")

  function StatusClaim(idx: int, uri: Octets): SdJwt.Json {
    SdJwt.Object(map[Ascii("status_list") :=
      SdJwt.Object(map[Ascii("idx") := SdJwt.Number(idx), Ascii("uri") := SdJwt.String(uri)])])
  }

  function PlainClaims(idx: int, uri: Octets): seq<SdJwtIssuance.Entry> {
    [SdJwtIssuance.Entry(Ascii("issuing_authority"), SdJwt.String(Ascii("Fikua Lab"))),
     SdJwtIssuance.Entry(Ascii("issuing_country"), SdJwt.String(Ascii("ES"))),
     SdJwtIssuance.Entry(STATUS, StatusClaim(idx, uri))]
  }

  /** The index and the address that a relying party reads from a status claim
      (section 6.2 of draft-ietf-oauth-status-list-21). */
  function ReadStatus(v: SdJwt.Json): Option<(int, Octets)> {
    if !v.Object? || Ascii("status_list") !in v.members then None
    else
      var list := v.members[Ascii("status_list")];
      if !list.Object? || Ascii("idx") !in list.members || Ascii("uri") !in list.members then None
      else match (list.members[Ascii("idx")], list.members[Ascii("uri")])
        case (Number(idx), String(uri)) => Some((idx, uri))
        case _ => None
  }

  lemma ReadStatusOf(idx: int, uri: Octets)
    ensures ReadStatus(StatusClaim(idx, uri)) == Some((idx, uri))
  {
    assert Ascii("idx")[0] == 105 && Ascii("uri")[0] == 117;
  }

  predicate HasEntry(entries: seq<SdJwtIssuance.Entry>, name: Octets) {
    exists i :: 0 <= i < |entries| && entries[i].name == name
  }

  /** Each claim of the record once, as a string, in some order. */
  ghost predicate ListsClaims(entries: seq<SdJwtIssuance.Entry>, claims: map<Octets, Octets>) {
    && SdJwtIssuance.DistinctNames(entries)
    && (forall i :: 0 <= i < |entries| ==>
          entries[i].name in claims && entries[i].value == SdJwt.String(claims[entries[i].name]))
    && (forall name :: name in claims ==> HasEntry(entries, name))
  }

  /** The settings buildSDJWTCredential gives its builder. */
  ghost predicate IsPid(s: SdJwtIssuance.Settings, claims: map<Octets, Octets>, idx: int, uri: Octets) {
    && ListsClaims(s.selective, claims) && s.plain == PlainClaims(idx, uri)
    && s.vct == Ascii("urn:eudi:pid:1") && s.subject != [] && s.holderKey.Some?
  }

  /** And what it tells it of the issuer, the subject and the holder; random is
      the random part of the subject. */
  ghost predicate IsPidFrom(s: SdJwtIssuance.Settings, claims: map<Octets, Octets>, idx: int, uri: Octets,
                            baseUrl: Octets, random: Octets, key: SdJwtIssuance.HolderKey) {
    && IsPid(s, claims, idx, uri) && s.issuer == baseUrl && s.holderKey == Some(key)
    && s.subject == Ascii("urn:fikua:pid:") + random
    && s.validitySeconds == SdJwtIssuance.DEFAULT_VALIDITY_SECONDS
  }

  /** What came of building with these settings: a credential, claims that the
      JWT library refuses, or a payload that the signer does. */
  ghost predicate BuildOutcome(env: SdJwt.Env, s: SdJwtIssuance.Settings, salts: seq<Octets>, now: int,
                               headers: Option<Octets>, r: Result<Octets, SdJwtIssuance.BuildError>)
    requires |s.selective| <= |salts|
  {
    match r
    case Ok(text) => headers.Some? && SdJwtIssuance.IsIssued(env, s, salts, now, headers.value, text)
    case Err(NoSignature) =>
      && headers.Some?
      && env.sign(SdJwt.SigningInput(headers.value, SdJwtIssuance.IssuedPayload(env, s, salts, now))) == None
    case Err(_) => !env.accepts(SdJwtIssuance.IssuedClaims(env, s, salts, now))
  }

  /** Adds the record's claims, in whatever order the map yields them. */
  method AddSelectiveClaims(builder: SdJwtIssuance.Builder, claims: map<Octets, Octets>)
    requires builder.selectiveClaims == []
    modifies builder`selectiveClaims
    ensures ListsClaims(builder.selectiveClaims, claims) && |builder.selectiveClaims| == |claims|
  {
    var rest := claims.Keys;
    ghost var done: map<Octets, Octets> := map[];
    while rest != {}
      invariant rest <= claims.Keys && done == map n | n in claims.Keys - rest :: claims[n]
      invariant ListsClaims(builder.selectiveClaims, done) && |builder.selectiveClaims| == |done|
      decreases |rest|
    {
      var name :| name in rest;
      AddClaim(builder.selectiveClaims, done, name, claims[name]);
      builder.SelectiveClaim(name, SdJwt.String(claims[name]));
      rest := rest - {name};
      done := done[name := claims[name]];
    }
    assert done == claims;
  }

  /** random is the random part of the subject. */
  method PidBuilder(claims: map<Octets, Octets>, baseUrl: Octets, random: Octets, key: SdJwtIssuance.HolderKey,
                    idx: int, uri: Octets)
    returns (builder: SdJwtIssuance.Builder)
    ensures IsPidFrom(builder.View(), claims, idx, uri, baseUrl, random, key)
    ensures |builder.selectiveClaims| == |claims|
  {
    builder := new SdJwtIssuance.Builder();
    builder.vct := Ascii("urn:eudi:pid:1");
    builder.issuer := baseUrl;
    builder.subject := Ascii("urn:fikua:pid:") + random;
    builder.holderKey := Some(key);
    AddSelectiveClaims(builder, claims);
    builder.PlainClaim(Ascii("issuing_authority"), SdJwt.String(Ascii("Fikua Lab")));
    builder.PlainClaim(Ascii("issuing_country"), SdJwt.String(Ascii("ES")));
    builder.PlainClaim(STATUS, StatusClaim(idx, uri));
  }

  /** The credential signed over these settings, or the reason there is none. */
  method BuildSdJwtCredential(env: SdJwt.Env, claims: map<Octets, Octets>, baseUrl: Octets, random: Octets,
                              key: SdJwtIssuance.HolderKey, idx: int, uri: Octets, salts: seq<Octets>, now: int,
                              headers: Option<Octets>)
    returns (r: Result<Octets, SdJwtIssuance.BuildError>)
    ensures r == Err(SdJwtIssuance.NoRandomness) <==> |salts| < |claims|
    ensures r == Err(SdJwtIssuance.BadHolderKey) <==> |claims| <= |salts| && key.publicJwk.None?
    ensures r != Err(SdJwtIssuance.MissingVct)
    ensures r == Err(SdJwtIssuance.BadHeaders) ==> headers == None
    ensures r.Ok? || r == Err(SdJwtIssuance.BadClaims) || r == Err(SdJwtIssuance.NoSignature) ==>
              exists s :: IsPidFrom(s, claims, idx, uri, baseUrl, random, key) && |s.selective| <= |salts|
                          && BuildOutcome(env, s, salts, now, headers, r)
  {
    var builder := PidBuilder(claims, baseUrl, random, key, idx, uri);
    ghost var s := builder.View();
    r := builder.Build(env, salts, now, headers);
    if r.Ok? || r == Err(SdJwtIssuance.BadClaims) || r == Err(SdJwtIssuance.NoSignature) {
      assert IsPidFrom(s, claims, idx, uri, baseUrl, random, key) && BuildOutcome(env, s, salts, now, headers, r);
    }
  }

  lemma AddClaim(entries: seq<SdJwtIssuance.Entry>, done: map<Octets, Octets>, name: Octets, value: Octets)
    requires ListsClaims(entries, done) && name !in done
    ensures ListsClaims(entries + [SdJwtIssuance.Entry(name, SdJwt.String(value))], done[name := value])
  {
    var more := entries + [SdJwtIssuance.Entry(name, SdJwt.String(value))];
    forall n | n in done[name := value]
      ensures HasEntry(more, n)
    {
      if n == name {
        assert more[|entries|].name == n;
      } else {
        assert HasEntry(entries, n);
        var i :| 0 <= i < |entries| && entries[i].name == n;
        assert more[i].name == n;
      }
    }
  }

  /** The names a PID payload already uses, and those SD-JWT reserves. */
  function ReservedNames(): set<Octets> {
    {Ascii("iss"), Ascii("iat"), Ascii("exp"), Ascii("vct"), Ascii("sub"),
     SdJwt.SD, SdJwt.SD_ALG, SdJwt.ELLIPSIS, Ascii("issuing_authority"), Ascii("issuing_country"),
     STATUS, Ascii("cnf")}
  }

  lemma PlainClaimsOnTop(m: map<Octets, SdJwt.Json>, idx: int, uri: Octets)
    ensures SdJwtIssuance.WithClaims(m, PlainClaims(idx, uri))
            == m[Ascii("issuing_authority") := SdJwt.String(Ascii("Fikua Lab"))]
                [Ascii("issuing_country") := SdJwt.String(Ascii("ES"))][STATUS := StatusClaim(idx, uri)]
  {
    var plain := PlainClaims(idx, uri);
    assert plain[..2][..1] == plain[..1] && plain[..1][..0] == [] && plain == plain[..2] + [plain[2]];
    assert SdJwtIssuance.WithClaims(m, plain[..1]) == m[plain[0].name := plain[0].value];
    assert SdJwtIssuance.WithClaims(m, plain[..2])
      == m[plain[0].name := plain[0].value][plain[1].name := plain[1].value];
  }

  lemma PidNamesDiffer()
    ensures |STATUS| == 6 && |Ascii("cnf")| == 3 && |SdJwt.ELLIPSIS| == 3 && |SdJwt.SD_ALG| == 7
    ensures |Ascii("issuing_authority")| == 17 && |Ascii("issuing_country")| == 15
    ensures SdJwt.ELLIPSIS !in {Ascii("iss"), Ascii("iat"), Ascii("exp"), Ascii("vct"), Ascii("sub"), Ascii("cnf"),
                                SdJwt.SD}
  {
    assert SdJwt.ELLIPSIS[0] == 46;
    assert Ascii("iss")[0] == 105 && Ascii("iat")[0] == 105 && Ascii("exp")[0] == 101;
    assert Ascii("vct")[0] == 118 && Ascii("sub")[0] == 115 && Ascii("cnf")[0] == 99 && SdJwt.SD[0] == 95;
  }

  lemma PidPayload(s: SdJwtIssuance.Settings, claims: map<Octets, Octets>, idx: int, uri: Octets,
                   digests: seq<SdJwt.Json>, now: int)
    requires IsPid(s, claims, idx, uri) && SdJwtIssuance.HolderOk(s)
    ensures var p := SdJwtIssuance.PayloadOf(s, digests, now);
            && p.Keys == ReservedNames() - {SdJwt.ELLIPSIS} - (if digests == [] then {SdJwt.SD, SdJwt.SD_ALG} else {})
            && SdJwtIssuance.Reads(p, "issuing_authority", SdJwt.String(Ascii("Fikua Lab")))
            && SdJwtIssuance.Reads(p, "issuing_country", SdJwt.String(Ascii("ES")))
            && ReadStatus(p[STATUS]) == Some((idx, uri))
  {
    PlainClaimsOnTop(SdJwtIssuance.BeforePlain(s, digests, now), idx, uri);
    ReadStatusOf(idx, uri);
    PidNamesDiffer();
    SdJwtIssuance.NamesDiffer();
  }

  lemma PidLeavesDigests(s: SdJwtIssuance.Settings, claims: map<Octets, Octets>, idx: int, uri: Octets)
    requires IsPid(s, claims, idx, uri)
    ensures SdJwtIssuance.LeavesDigests(s)
  {
    assert |SdJwt.SD| == 3 && |SdJwt.SD_ALG| == 7 && |STATUS| == 6;
    assert |Ascii("issuing_authority")| == 17 && |Ascii("issuing_country")| == 15;
  }

  predicate Discloses(s: SdJwtIssuance.Settings, chosen: seq<nat>, name: Octets) {
    exists i :: 0 <= i < |chosen| && chosen[i] < |s.selective| && s.selective[chosen[i]].name == name
  }

  /** Disclosed names are the names of the chosen entries, under either reading. */
  lemma DisclosedAreChosen(s: SdJwtIssuance.Settings, chosen: seq<nat>, name: Octets)
    requires Below(chosen, |s.selective|) && SdJwtIssuance.DistinctNames(s.selective)
    ensures Discloses(s, chosen, name) <==>
            name in SdJwtIssuance.ChosenClaims(s.selective, chosen, |s.selective|)
    ensures Discloses(s, chosen, name) <==>
            exists k :: 0 <= k < |s.selective| && Mentions(chosen, k) && s.selective[k].name == name
  {
    SdJwtIssuance.ChosenClaimsAre(s.selective, chosen, |s.selective|);
    if Discloses(s, chosen, name) {
      var i :| 0 <= i < |chosen| && chosen[i] < |s.selective| && s.selective[chosen[i]].name == name;
      assert Mentions(chosen, chosen[i]);
    }
  }

  /** Where anything is disclosable, the names that clash are the reserved ones. */
  lemma ReservedNamesClash(s: SdJwtIssuance.Settings, claims: map<Octets, Octets>, idx: int, uri: Octets,
                           digests: seq<SdJwt.Json>, now: int, name: Octets)
    requires IsPid(s, claims, idx, uri) && SdJwtIssuance.HolderOk(s) && digests != []
    ensures SdJwtIssuance.Clashes(SdJwtIssuance.PayloadOf(s, digests, now), name) <==> name in ReservedNames()
  {
    PidPayload(s, claims, idx, uri, digests, now);
  }

  lemma PidClashes(s: SdJwtIssuance.Settings, claims: map<Octets, Octets>, idx: int, uri: Octets, chosen: seq<nat>,
                   digests: seq<SdJwt.Json>, now: int)
    requires IsPid(s, claims, idx, uri) && SdJwtIssuance.HolderOk(s)
    requires Below(chosen, |s.selective|) && |digests| == |s.selective|
    ensures var p := SdJwtIssuance.PayloadOf(s, digests, now);
            SdJwtIssuance.ClashAmong(p, s.selective, chosen, |s.selective|) <==>
            exists name :: name in ReservedNames() && Discloses(s, chosen, name)
  {
    var p := SdJwtIssuance.PayloadOf(s, digests, now);
    if SdJwtIssuance.ClashAmong(p, s.selective, chosen, |s.selective|) {
      var k :| 0 <= k < |s.selective| && Mentions(chosen, k) && SdJwtIssuance.Clashes(p, s.selective[k].name);
      DisclosedAreChosen(s, chosen, s.selective[k].name);
      ReservedNamesClash(s, claims, idx, uri, digests, now, s.selective[k].name);
    }
    if name :| name in ReservedNames() && Discloses(s, chosen, name) {
      DisclosedAreChosen(s, chosen, name);
      var k :| 0 <= k < |s.selective| && Mentions(chosen, k) && s.selective[k].name == name;
      ReservedNamesClash(s, claims, idx, uri, digests, now, name);
    }
  }

  /** What a verifier reads of the issuer in an accepted PID: who issued it, when
      and until when, as what and to which subject and key, and where its status
      stands. */
  ghost predicate SaysPid(read: map<Octets, SdJwt.Json>, idx: int, uri: Octets, baseUrl: Octets, random: Octets,
                          key: SdJwtIssuance.HolderKey, now: int) {
    && SdJwtIssuance.Reads(read, "iss", SdJwt.String(baseUrl))
    && SdJwtIssuance.Reads(read, "iat", SdJwt.Number(now))
    && SdJwtIssuance.Reads(read, "exp", SdJwt.Number(now + 365 * 24 * 60 * 60))
    && SdJwtIssuance.Reads(read, "vct", SdJwt.String(Ascii("urn:eudi:pid:1")))
    && SdJwtIssuance.Reads(read, "sub", SdJwt.String(Ascii("urn:fikua:pid:") + random))
    && SdJwtIssuance.Reads(read, "issuing_authority", SdJwt.String(Ascii("Fikua Lab")))
    && SdJwtIssuance.Reads(read, "issuing_country", SdJwt.String(Ascii("ES")))
    && key.publicJwk.Some?
    && SdJwtIssuance.Reads(read, "cnf", SdJwt.Object(map[Ascii("jwk") := key.publicJwk.value]))
    && Ascii("status") in read && ReadStatus(read[Ascii("status")]) == Some((idx, uri))
  }

  lemma PidSays(s: SdJwtIssuance.Settings, claims: map<Octets, Octets>, idx: int, uri: Octets, baseUrl: Octets,
                random: Octets, key: SdJwtIssuance.HolderKey, digests: seq<SdJwt.Json>, now: int)
    requires IsPidFrom(s, claims, idx, uri, baseUrl, random, key) && SdJwtIssuance.HolderOk(s)
    ensures SaysPid(SdJwtIssuance.PayloadOf(s, digests, now), idx, uri, baseUrl, random, key, now)
  {
    assert |STATUS| == 6 && |Ascii("issuing_authority")| == 17 && |Ascii("issuing_country")| == 15;
    assert |Ascii("iss")| == |Ascii("iat")| == |Ascii("exp")| == |Ascii("vct")| == |Ascii("sub")| == 3;
    SdJwtIssuance.PayloadSays(s, digests, now);
    PidPayload(s, claims, idx, uri, digests, now);
  }

  /** What is disclosed beside the payload leaves that as it is. */
  lemma PidStillSays(p: map<Octets, SdJwt.Json>, extra: map<Octets, SdJwt.Json>, idx: int, uri: Octets, baseUrl: Octets,
                     random: Octets, key: SdJwtIssuance.HolderKey, now: int)
    requires SaysPid(p, idx, uri, baseUrl, random, key, now)
    requires forall name :: name in ReservedNames() ==> name !in extra
    ensures SaysPid(p + extra - {SdJwt.SD, SdJwt.SD_ALG}, idx, uri, baseUrl, random, key, now)
  {
    assert |STATUS| == 6 && |Ascii("issuing_authority")| == 17 && |Ascii("issuing_country")| == 15;
    assert |SdJwt.SD| == 3 && |SdJwt.SD_ALG| == 7;
    SdJwtIssuance.NamesDiffer();
  }

  /** Whatever the holder of a PID discloses, in whatever order: it is accepted
      exactly when no disclosed claim has a reserved name; and then the verifier
      reads what the issuer says, the status index that was put in included, each
      disclosed claim as it stood in the record, and no claim that was kept back. */
  lemma PidPresentationVerifies(env: SdJwt.Env, s: SdJwtIssuance.Settings, claims: map<Octets, Octets>, idx: int,
                                uri: Octets, baseUrl: Octets, random: Octets, key: SdJwtIssuance.HolderKey,
                                salts: seq<Octets>, now: int, header: Octets, jwt: Octets, chosen: seq<nat>)
    requires SdJwt.Sound(env) && IsPidFrom(s, claims, idx, uri, baseUrl, random, key) && |s.selective| <= |salts|
    requires SdJwtIssuance.NoCollisions(env, SdJwtIssuance.DisclosuresOf(env, s.selective, salts))
    requires SdJwtIssuance.IsJwt(env, s, salts, now, header, jwt) && Below(chosen, |s.selective|)
    ensures var encs := SdJwtIssuance.DisclosuresOf(env, s.selective, salts);
            match SdJwt.Verify(env, SdJwt.Serialize(jwt, SdJwtIssuance.Select(encs, chosen)))
            case None => exists name :: name in ReservedNames() && Discloses(s, chosen, name)
            case Some(read) =>
              && (forall name :: name in ReservedNames() ==> !Discloses(s, chosen, name))
              && SaysPid(read, idx, uri, baseUrl, random, key, now)
              && (forall name :: Discloses(s, chosen, name) ==>
                    name in claims && name in read && read[name] == SdJwt.String(claims[name]))
              && (forall name :: name in read ==> name in ReservedNames() || Discloses(s, chosen, name))
  {
    var encs := SdJwtIssuance.DisclosuresOf(env, s.selective, salts);
    var digests := SdJwtIssuance.DigestsOf(env, encs);
    var payload := SdJwtIssuance.PayloadOf(s, digests, now);
    PidLeavesDigests(s, claims, idx, uri);
    SdJwtIssuance.PresentationVerifies(env, s, salts, now, header, jwt, chosen);
    PidPayload(s, claims, idx, uri, digests, now);
    PidClashes(s, claims, idx, uri, chosen, digests, now);
    if !SdJwtIssuance.ClashAmong(payload, s.selective, chosen, |s.selective|) {
      var extra := SdJwtIssuance.ChosenClaims(s.selective, chosen, |s.selective|);
      forall name
        ensures Discloses(s, chosen, name) <==> name in extra
        ensures Discloses(s, chosen, name) ==> name in claims && extra[name] == SdJwt.String(claims[name])
      {
        DisclosedAreChosen(s, chosen, name);
        SdJwtIssuance.ChosenClaimsAre(s.selective, chosen, |s.selective|);
      }
      PidSays(s, claims, idx, uri, baseUrl, random, key, digests, now);
      PidStillSays(payload, extra, idx, uri, baseUrl, random, key, now);
    }
  }

  // -------------------------------------------------------------------- mdoc

  /** The value of the status element; Go's map may yield idx or uri first. */
  function StatusPairs(idx: nat, uri: Octets, idxFirst: bool): seq<Cbor.Pair> {
    var i, u := Cbor.Pair(Mdoc.Name("idx"), Cbor.UInt(idx)), Cbor.Pair(Mdoc.Name("uri"), Cbor.Text(uri));
    [Cbor.Pair(Mdoc.Name("status_list"), Cbor.Map(if idxFirst then [i, u] else [u, i]))]
  }

  predicate HasElement(elements: seq<Mdoc.Element>, name: Octets) {
    exists i :: 0 <= i < |elements| && elements[i].identifier == name
  }

  /** Each claim of the record once, in some order. */
  ghost predicate ListsElements(elements: seq<Mdoc.Element>, claims: map<Octets, Octets>) {
    && (forall i :: 0 <= i < |elements| ==>
          elements[i].identifier in claims
            && elements[i] == Mdoc.NewElement(elements[i].identifier, claims[elements[i].identifier]))
    && (forall i, j :: 0 <= i < j < |elements| ==> elements[i].identifier != elements[j].identifier)
    && (forall name :: name in claims ==> HasElement(elements, name))
  }

  ghost predicate IsPidElements(elements: seq<Mdoc.Element>, claims: map<Octets, Octets>, status: seq<Cbor.Pair>) {
    && |elements| >= 3 && ListsElements(elements[..|elements| - 3], claims)
    && elements[|elements| - 3] == Mdoc.NewElement(Ascii("issuing_authority"), Ascii("Fikua Lab"))
    && elements[|elements| - 2] == Mdoc.NewElement(Ascii("issuing_country"), Ascii("ES"))
    && elements[|elements| - 1] == Mdoc.MapElement(Ascii("status"), status)
  }

  /** Adds the record's claims, in whatever order the map yields them. */
  method AddClaims(builder: MdocIssuance.Builder, claims: map<Octets, Octets>)
    requires builder.elements == []
    modifies builder`elements
    ensures ListsElements(builder.elements, claims) && |builder.elements| == |claims|
  {
    var rest := claims.Keys;
    ghost var done: map<Octets, Octets> := map[];
    while rest != {}
      invariant rest <= claims.Keys && done == map n | n in claims.Keys - rest :: claims[n]
      invariant ListsElements(builder.elements, done) && |builder.elements| == |done|
      decreases |rest|
    {
      var name :| name in rest;
      AddListed(builder.elements, done, name, claims[name]);
      builder.AddElement(name, claims[name]);
      rest := rest - {name};
      done := done[name := claims[name]];
    }
    assert done == claims;
  }

  /** Fills the builder of a PID mdoc. */
  method FillMdocBuilder(builder: MdocIssuance.Builder, claims: map<Octets, Octets>, idx: nat, uri: Octets,
                         idxFirst: bool)
    requires builder.elements == []
    modifies builder
    ensures IsPidElements(builder.elements, claims, StatusPairs(idx, uri, idxFirst))
    ensures |builder.elements| == |claims| + 3
    ensures builder.docType == builder.namespace == Ascii("eu.europa.ec.eudi.pid.1")
    ensures builder.deviceKey == old(builder.deviceKey) && builder.x5cChain == old(builder.x5cChain)
  {
    builder.docType := Ascii("eu.europa.ec.eudi.pid.1");
    builder.namespace := Ascii("eu.europa.ec.eudi.pid.1");
    AddClaims(builder, claims);
    ghost var listed := builder.elements;
    builder.AddElement(Ascii("issuing_authority"), Ascii("Fikua Lab"));
    builder.AddElement(Ascii("issuing_country"), Ascii("ES"));
    builder.AddMapElement(Ascii("status"), StatusPairs(idx, uri, idxFirst));
    assert builder.elements[..|listed|] == listed;
  }

  /** The issuance of a PID mdoc over these claims and this status, to this key. */
  ghost predicate IsPidMdoc(c: MdocIssuance.Issuance, claims: map<Octets, Octets>, idx: nat, uri: Octets,
                            idxFirst: bool, deviceKey: MdocIssuance.Jwk, x5c: seq<Octets>, randoms: seq<Octets>,
                            validity: Mdoc.Validity)
  {
    && MdocIssuance.Valid(c) && IsPidElements(c.elements, claims, StatusPairs(idx, uri, idxFirst))
    && c.docType == c.ns == Ascii("eu.europa.ec.eudi.pid.1")
    && c.key.Some? && c.key == MdocIssuance.DeviceKeyFromJwk(deviceKey)
    && c.x5c == x5c && c.randoms == randoms && c.validity == validity
  }

  /** The credential response's text: the whole IssuerSigned in base64url. */
  ghost function MdocText(c: MdocIssuance.Issuance, sha256: Mdoc.Hash): Octets
    requires MdocIssuance.Valid(c)
  {
    Base64Url.Encode(Cbor.Encode(Mdoc.IssuerSigned(MdocIssuance.IssuerAuth(c, sha256), c.ns, MdocIssuance.Items(c))))
  }

  /** What came of building this issuance: its text, or what became of the
      signer's answer. */
  ghost predicate MdocOutcome(c: MdocIssuance.Issuance, sha256: Mdoc.Hash, signer: Octets -> Option<Octets>,
                              r: Result<Octets, MdocIssuance.BuildError>)
    requires MdocIssuance.Valid(c)
  {
    match EcdsaDer.RawSignature(signer(MdocIssuance.SignedPart(c, sha256)))
    case Ok(raw) => c.signature == raw && r == Ok(MdocText(c, sha256))
    case Err(why) => r == Err(MdocIssuance.NoSignature(why))
  }

  /** The credential over these claims, or the reason there is none. */
  method BuildMdocCredential(claims: map<Octets, Octets>, idx: nat, uri: Octets, idxFirst: bool,
                             deviceKey: MdocIssuance.Jwk, x5c: seq<Octets>, randoms: seq<Octets>,
                             validity: Mdoc.Validity, sha256: Mdoc.Hash, signer: Octets -> Option<Octets>)
    returns (r: Result<Octets, MdocIssuance.BuildError>)
    ensures r == Err(MdocIssuance.NoRandomness) <==> |randoms| < |claims| + 3
    ensures r == Err(MdocIssuance.BadDeviceKey) <==>
              |claims| + 3 <= |randoms| && MdocIssuance.DeviceKeyFromJwk(deviceKey) == None
    ensures r.Ok? || r.error.NoSignature? ==>
              exists c :: IsPidMdoc(c, claims, idx, uri, idxFirst, deviceKey, x5c, randoms, validity)
                          && MdocOutcome(c, sha256, signer, r)
  {
    var builder := new MdocIssuance.Builder();
    builder.deviceKey := Some(deviceKey);
    builder.x5cChain := x5c;
    FillMdocBuilder(builder, claims, idx, uri, idxFirst);
    ghost var c;
    r, c := builder.Build(randoms, validity, sha256, signer);
    if r.Ok? || r.error.NoSignature? {
      assert IsPidMdoc(c, claims, idx, uri, idxFirst, deviceKey, x5c, randoms, validity);
    }
    if r.Ok? {
      r := Ok(Base64Url.Encode(r.value));
      assert MdocOutcome(c, sha256, signer, r);
    } else if r.error.NoSignature? {
      assert MdocOutcome(c, sha256, signer, r);
    }
  }

  lemma AddListed(elements: seq<Mdoc.Element>, done: map<Octets, Octets>, name: Octets, value: Octets)
    requires ListsElements(elements, done) && name !in done
    ensures ListsElements(elements + [Mdoc.NewElement(name, value)], done[name := value])
  {
    var more := elements + [Mdoc.NewElement(name, value)];
    forall n | n in done[name := value]
      ensures HasElement(more, n)
    {
      if n == name {
        assert more[|elements|].identifier == n;
      } else {
        assert HasElement(elements, n);
        var i :| 0 <= i < |elements| && elements[i].identifier == n;
        assert more[i].identifier == n;
      }
    }
  }

  /** The index and the address that a verifier reads from a status element. */
  function ElementStatus(v: Cbor.Value): Option<(nat, Octets)> {
    if !v.Map? then None
    else match Mdoc.Lookup(v.pairs, Mdoc.Name("status_list"))
      case Some(Map(list)) =>
        (match (Mdoc.Lookup(list, Mdoc.Name("idx")), Mdoc.Lookup(list, Mdoc.Name("uri")))
         case (Some(UInt(idx)), Some(Text(uri))) => Some((idx, uri))
         case _ => None)
      case _ => None
  }

  lemma ElementStatusOf(idx: nat, uri: Octets, idxFirst: bool)
    ensures ElementStatus(Cbor.Map(StatusPairs(idx, uri, idxFirst))) == Some((idx, uri))
  {
    var list := StatusPairs(idx, uri, idxFirst)[0].value.pairs;
    assert Ascii("idx")[0] == 105 && Ascii("uri")[0] == 117;
    MdocIssuance.LookupAt(list, 0);
    MdocIssuance.LookupAt(list, 1);
    MdocIssuance.LookupAt(StatusPairs(idx, uri, idxFirst), 0);
  }

  /** Whatever the verifier is shown under this name has the value v. */
  predicate AllRead(shown: seq<Mdoc.Claim>, name: Octets, v: Cbor.Value) {
    forall k :: 0 <= k < |shown| && shown[k].identifier == name ==> shown[k].value == v
  }

  /** Whatever the verifier is shown as status holds this index and address. */
  predicate AllReadStatus(shown: seq<Mdoc.Claim>, idx: nat, uri: Octets) {
    forall k :: 0 <= k < |shown| && shown[k].identifier == Ascii("status") ==>
      ElementStatus(shown[k].value) == Some((idx, uri))
  }

  /** It is a claim of the record as it stood there: a text, but for a date of
      birth, which is a full date (section 7.2.1 of ISO/IEC 18013-5). */
  predicate AsRecorded(claim: Mdoc.Claim, claims: map<Octets, Octets>) {
    && claim.identifier in claims
    && var text := Cbor.Text(claims[claim.identifier]);
    claim.value == if claim.identifier == Ascii("birth_date") then Cbor.Tag(1004, text) else text
  }

  /** A claim of the record, not one of the issuer's own, is presented under
      this name. */
  predicate PresentsClaim(elements: seq<Mdoc.Element>, chosen: seq<nat>, name: Octets) {
    exists k :: 0 <= k < |chosen| && chosen[k] < |elements| - 3 && elements[chosen[k]].identifier == name
  }

  lemma OwnNamesDiffer()
    ensures Ascii("issuing_authority") != Ascii("issuing_country")
    ensures Ascii("status") != Ascii("issuing_authority") && Ascii("status") != Ascii("issuing_country")
    ensures Ascii("birth_date") !in {Ascii("issuing_authority"), Ascii("issuing_country"), Ascii("status")}
  {
    assert |Ascii("issuing_authority")| == 17 && |Ascii("issuing_country")| == 15;
    assert |Ascii("status")| == 6 && |Ascii("birth_date")| == 10;
  }

  /** What stands at position i of a PID's elements reads as. */
  lemma PidElementAt(elements: seq<Mdoc.Element>, claims: map<Octets, Octets>, status: seq<Cbor.Pair>, i: nat)
    requires IsPidElements(elements, claims, status) && i < |elements|
    ensures var claim := MdocIssuance.ClaimOf(elements[i]);
            if i < |elements| - 3 then AsRecorded(claim, claims)
            else if i == |elements| - 3
              then claim == Mdoc.Claim(Ascii("issuing_authority"), Cbor.Text(Ascii("Fikua Lab")))
            else if i == |elements| - 2 then claim == Mdoc.Claim(Ascii("issuing_country"), Cbor.Text(Ascii("ES")))
            else claim == Mdoc.Claim(Ascii("status"), Cbor.Map(status))
  {
    OwnNamesDiffer();
    if i < |elements| - 3 {
      assert elements[i] == elements[..|elements| - 3][i];
    }
  }

  ghost predicate Shows(shown: seq<Mdoc.Claim>, elements: seq<Mdoc.Element>, chosen: seq<nat>) {
    && Below(chosen, |elements|) && |shown| == |chosen|
    && forall k :: 0 <= k < |chosen| ==> shown[k] == MdocIssuance.ClaimOf(elements[chosen[k]])
  }

  lemma StatusByName(shown: seq<Mdoc.Claim>, elements: seq<Mdoc.Element>, chosen: seq<nat>, claims: map<Octets, Octets>,
                     idx: nat, uri: Octets, idxFirst: bool)
    requires IsPidElements(elements, claims, StatusPairs(idx, uri, idxFirst)) && Shows(shown, elements, chosen)
    ensures AllReadStatus(shown, idx, uri) <==> !PresentsClaim(elements, chosen, Ascii("status"))
  {
    OwnNamesDiffer();
    ElementStatusOf(idx, uri, idxFirst);
    forall k | 0 <= k < |chosen| && shown[k].identifier == Ascii("status")
      ensures ElementStatus(shown[k].value) == Some((idx, uri)) <==> chosen[k] >= |elements| - 3
    {
      PidElementAt(elements, claims, StatusPairs(idx, uri, idxFirst), chosen[k]);
    }
  }

  /** The issuer's own text elements: which one, and what it says. */
  predicate OwnText(name: Octets, text: Octets) {
    || (name == Ascii("issuing_authority") && text == Ascii("Fikua Lab"))
    || (name == Ascii("issuing_country") && text == Ascii("ES"))
  }

  lemma TextByName(shown: seq<Mdoc.Claim>, elements: seq<Mdoc.Element>, chosen: seq<nat>, claims: map<Octets, Octets>,
                   status: seq<Cbor.Pair>, name: Octets, text: Octets)
    requires IsPidElements(elements, claims, status) && Shows(shown, elements, chosen) && OwnText(name, text)
    ensures PresentsClaim(elements, chosen, name) ==> name in claims
    ensures AllRead(shown, name, Cbor.Text(text)) <==>
            !(PresentsClaim(elements, chosen, name) && claims[name] != text)
  {
    OwnNamesDiffer();
    forall k | 0 <= k < |chosen| && shown[k].identifier == name
      ensures chosen[k] < |elements| - 3 ==> name in claims
      ensures shown[k].value == Cbor.Text(text) <==> chosen[k] >= |elements| - 3 || claims[name] == text
    {
      PidElementAt(elements, claims, status, chosen[k]);
    }
    if PresentsClaim(elements, chosen, name) {
      var k :| 0 <= k < |chosen| && chosen[k] < |elements| - 3 && elements[chosen[k]].identifier == name;
      assert shown[k].identifier == name;
    }
  }

  /** What a verifier who accepts the issuer's signature is shown by this
      presentation of a PID mdoc. */
  ghost function Shown(c: MdocIssuance.Issuance, sha256: Mdoc.Hash, check: (Octets, Octets) -> bool, chosen: seq<nat>)
    : Option<seq<Mdoc.Claim>>
    requires MdocIssuance.Valid(c) && Below(chosen, |c.elements|)
  {
    Mdoc.Verify(MdocIssuance.Presentation(c, sha256, chosen), c.ns, c.docType, sha256, check)
  }

  /** What a verifier reads of the issuer in a document: the certificates, the
      version, the validity, and the wallet's key. */
  ghost predicate SaysMdoc(doc: Octets, check: (Octets, Octets) -> bool, deviceKey: MdocIssuance.Jwk,
                           x5c: seq<Octets>, validity: Mdoc.Validity) {
    && Mdoc.IssuerAuthIn(doc).Some?
    && var auth := Mdoc.IssuerAuthIn(doc).value;
    && Mdoc.CertificatesIn(auth) == Some(x5c)
    && Mdoc.SignedMso(auth, Ascii("eu.europa.ec.eudi.pid.1"), check).Some?
    && var mso := Mdoc.SignedMso(auth, Ascii("eu.europa.ec.eudi.pid.1"), check).value;
    && Mdoc.Lookup(mso, Mdoc.Name("version")) == Some(Mdoc.Name("1.0"))
    && Mdoc.ValidityIn(mso) == Some(validity)
    && Mdoc.DeviceKeyIn(mso).Some?
    && deviceKey == MdocIssuance.EcKey(Some(Mdoc.DeviceKeyIn(mso).value.x), Some(Mdoc.DeviceKeyIn(mso).value.y))
  }

  /** Each item presented holds the random octets drawn for its element. */
  ghost predicate IsSalted(doc: Octets, ns: Octets, chosen: seq<nat>, randoms: seq<Octets>) {
    && Mdoc.ItemsIn(doc, ns).Some?
    && var items := Mdoc.ItemsIn(doc, ns).value;
    && |items| == |chosen| && Below(chosen, |randoms|)
    && forall k :: 0 <= k < |items| ==>
         Mdoc.ItemParts(items[k]).Some? && Mdoc.ItemParts(items[k]).value.0 == chosen[k]
         && Mdoc.ItemParts(items[k]).value.1 == randoms[chosen[k]]
  }

  lemma MdocSays(c: MdocIssuance.Issuance, sha256: Mdoc.Hash, check: (Octets, Octets) -> bool, chosen: seq<nat>,
                 claims: map<Octets, Octets>, idx: nat, uri: Octets, idxFirst: bool, deviceKey: MdocIssuance.Jwk,
                 x5c: seq<Octets>, randoms: seq<Octets>, validity: Mdoc.Validity)
    requires IsPidMdoc(c, claims, idx, uri, idxFirst, deviceKey, x5c, randoms, validity)
    requires MdocIssuance.AllFit(c, sha256) && Checks(c, sha256, check)
    requires Below(chosen, |c.elements|) && |chosen| < Cbor.LIMIT
    ensures SaysMdoc(MdocIssuance.Presentation(c, sha256, chosen), check, deviceKey, x5c, validity)
  {
    MdocIssuance.PresentationComesApart(c, sha256, chosen);
    MdocIssuance.CertificatesRecovered(c, sha256);
    MdocIssuance.SignedMsoRecovered(c, sha256, check);
  }

  lemma MdocIsSalted(c: MdocIssuance.Issuance, sha256: Mdoc.Hash, chosen: seq<nat>)
    requires MdocIssuance.Valid(c) && MdocIssuance.AllFit(c, sha256)
    requires Below(chosen, |c.elements|) && |chosen| < Cbor.LIMIT
    ensures IsSalted(MdocIssuance.Presentation(c, sha256, chosen), c.ns, chosen, c.randoms)
  {
    MdocIssuance.PresentationComesApart(c, sha256, chosen);
    forall k | 0 <= k < |chosen|
      ensures Mdoc.ItemParts(Cbor.Encodings(MdocIssuance.Chosen(c, chosen))[k])
              == Some((chosen[k], c.randoms[chosen[k]], MdocIssuance.ClaimOf(c.elements[chosen[k]])))
    {
      MdocIssuance.ItemComesApart(c, sha256, chosen[k]);
    }
  }

  ghost predicate Checks(c: MdocIssuance.Issuance, sha256: Mdoc.Hash, check: (Octets, Octets) -> bool)
    requires MdocIssuance.Valid(c)
  {
    check(MdocIssuance.SignedPart(c, sha256), c.signature)
  }

  /** Whatever elements of a PID mdoc are presented, a verifier goes by their
      names. The record's claims are shown as they stood there. Everything shown as
      status holds the index and the address that were put in exactly when no claim
      of the record with that name is presented; and what is shown as issuing
      authority or country is the issuer's exactly when no claim of the record is
      presented that has the name and another value. */
  lemma MdocStatusIsRecovered(c: MdocIssuance.Issuance, sha256: Mdoc.Hash, check: (Octets, Octets) -> bool,
                              chosen: seq<nat>, claims: map<Octets, Octets>, idx: nat, uri: Octets, idxFirst: bool)
    requires MdocIssuance.Valid(c) && MdocIssuance.AllFit(c, sha256) && Checks(c, sha256, check)
    requires IsPidElements(c.elements, claims, StatusPairs(idx, uri, idxFirst))
    requires Below(chosen, |c.elements|) && |chosen| < Cbor.LIMIT
    ensures var r := Shown(c, sha256, check, chosen);
            && r.Some? && Shows(r.value, c.elements, chosen)
            && (forall k :: 0 <= k < |chosen| && chosen[k] < |c.elements| - 3 ==> AsRecorded(r.value[k], claims))
            && (AllReadStatus(r.value, idx, uri) <==> !PresentsClaim(c.elements, chosen, Ascii("status")))
            && (forall name, text :: OwnText(name, text) ==>
                  && (PresentsClaim(c.elements, chosen, name) ==> name in claims)
                  && (AllRead(r.value, name, Cbor.Text(text)) <==>
                      !(PresentsClaim(c.elements, chosen, name) && claims[name] != text)))
  {
    MdocIssuance.PresentationVerifies(c, sha256, check, chosen);
    var shown := MdocIssuance.ChosenClaims(c, chosen);
    assert Shows(shown, c.elements, chosen);
    forall k | 0 <= k < |chosen| && chosen[k] < |c.elements| - 3
      ensures AsRecorded(shown[k], claims)
    {
      PidElementAt(c.elements, claims, StatusPairs(idx, uri, idxFirst), chosen[k]);
    }
    StatusByName(shown, c.elements, chosen, claims, idx, uri, idxFirst);
    forall name, text | OwnText(name, text)
      ensures PresentsClaim(c.elements, chosen, name) ==> name in claims
      ensures AllRead(shown, name, Cbor.Text(text)) <==>
              !(PresentsClaim(c.elements, chosen, name) && claims[name] != text)
    {
      TextByName(shown, c.elements, chosen, claims, StatusPairs(idx, uri, idxFirst), name, text);
    }
  }

  /** The status element itself, where presented, is there to be read. */
  lemma StatusElementIsShown(elements: seq<Mdoc.Element>, chosen: seq<nat>, shown: seq<Mdoc.Claim>,
                             claims: map<Octets, Octets>, idx: nat, uri: Octets, idxFirst: bool)
    requires IsPidElements(elements, claims, StatusPairs(idx, uri, idxFirst)) && Shows(shown, elements, chosen)
    requires Mentions(chosen, |elements| - 1)
    ensures exists k ::
              && 0 <= k < |shown|
              && shown[k].identifier == Ascii("status")
              && ElementStatus(shown[k].value) == Some((idx, uri))
  {
    var k :| 0 <= k < |chosen| && chosen[k] == |elements| - 1;
    PidElementAt(elements, claims, StatusPairs(idx, uri, idxFirst), chosen[k]);
    ElementStatusOf(idx, uri, idxFirst);
    assert shown[k].identifier == Ascii("status");
  }

  ghost predicate StatusReads(c: MdocIssuance.Issuance, sha256: Mdoc.Hash, check: (Octets, Octets) -> bool, idx: nat,
                              uri: Octets, chosen: seq<nat>)
    requires MdocIssuance.Valid(c)
  {
    Below(chosen, |c.elements|) && |chosen| < Cbor.LIMIT ==>
      Shown(c, sha256, check, chosen).Some? && AllReadStatus(Shown(c, sha256, check, chosen).value, idx, uri)
  }

  lemma NoSuchClaim(elements: seq<Mdoc.Element>, chosen: seq<nat>, claims: map<Octets, Octets>, status: seq<Cbor.Pair>,
                    name: Octets)
    requires IsPidElements(elements, claims, status) && Below(chosen, |elements|) && name !in claims
    ensures !PresentsClaim(elements, chosen, name)
  {
    forall k | 0 <= k < |chosen| && chosen[k] < |elements| - 3
      ensures elements[chosen[k]].identifier != name
    {
      PidElementAt(elements, claims, status, chosen[k]);
    }
  }

  lemma StatusReadsWithout(c: MdocIssuance.Issuance, sha256: Mdoc.Hash, check: (Octets, Octets) -> bool,
                           chosen: seq<nat>, claims: map<Octets, Octets>, idx: nat, uri: Octets, idxFirst: bool)
    requires MdocIssuance.Valid(c) && MdocIssuance.AllFit(c, sha256) && Checks(c, sha256, check)
    requires IsPidElements(c.elements, claims, StatusPairs(idx, uri, idxFirst))
    requires Ascii("status") !in claims
    ensures StatusReads(c, sha256, check, idx, uri, chosen)
  {
    if Below(chosen, |c.elements|) && |chosen| < Cbor.LIMIT {
      MdocStatusIsRecovered(c, sha256, check, chosen, claims, idx, uri, idxFirst);
      NoSuchClaim(c.elements, chosen, claims, StatusPairs(idx, uri, idxFirst), Ascii("status"));
    }
  }

  lemma ClaimAt(elements: seq<Mdoc.Element>, claims: map<Octets, Octets>, status: seq<Cbor.Pair>, name: Octets)
    returns (i: nat)
    requires IsPidElements(elements, claims, status) && name in claims
    ensures i < |elements| - 3 && elements[i].identifier == name
  {
    var n := |elements| - 3;
    assert HasElement(elements[..n], name);
    i :| i < n && elements[..n][i].identifier == name;
  }

  lemma TwoReadings(elements: seq<Mdoc.Element>, claims: map<Octets, Octets>, idx: nat, uri: Octets, idxFirst: bool,
                    i: nat)
    requires IsPidElements(elements, claims, StatusPairs(idx, uri, idxFirst))
    requires i < |elements| - 3 && elements[i].identifier == Ascii("status")
    ensures var first, second := MdocIssuance.ClaimOf(elements[i]), MdocIssuance.ClaimOf(elements[|elements| - 1]);
            && first.identifier == second.identifier == Ascii("status")
            && ElementStatus(first.value) == None && ElementStatus(second.value) == Some((idx, uri))
  {
    OwnNamesDiffer();
    PidElementAt(elements, claims, StatusPairs(idx, uri, idxFirst), i);
    PidElementAt(elements, claims, StatusPairs(idx, uri, idxFirst), |elements| - 1);
    ElementStatusOf(idx, uri, idxFirst);
  }

  /** With a claim called status, presenting it beside the status element shows
      two of that name, and it gives no index. */
  lemma TwoOfTheName(elements: seq<Mdoc.Element>, claims: map<Octets, Octets>, idx: nat, uri: Octets, idxFirst: bool)
    returns (chosen: seq<nat>)
    requires IsPidElements(elements, claims, StatusPairs(idx, uri, idxFirst)) && Ascii("status") in claims
    ensures |chosen| == 2 && Below(chosen, |elements|) && PresentsClaim(elements, chosen, Ascii("status"))
    ensures forall shown: seq<Mdoc.Claim> :: Shows(shown, elements, chosen) ==>
              && shown[0].identifier == shown[1].identifier == Ascii("status")
              && ElementStatus(shown[0].value) == None && ElementStatus(shown[1].value) == Some((idx, uri))
  {
    var i := ClaimAt(elements, claims, StatusPairs(idx, uri, idxFirst), Ascii("status"));
    chosen := [i, |elements| - 1];
    assert chosen[0] == i && elements[chosen[0]].identifier == Ascii("status");
    TwoReadings(elements, claims, idx, uri, idxFirst, i);
    forall shown: seq<Mdoc.Claim> | Shows(shown, elements, chosen)
      ensures shown[0] == MdocIssuance.ClaimOf(elements[i])
      ensures shown[1] == MdocIssuance.ClaimOf(elements[|elements| - 1])
    {
    }
  }

  /** So the status of a PID mdoc can be read whatever is presented exactly when
      the record has no claim called status. */
  lemma MdocStatusIsUnambiguous(c: MdocIssuance.Issuance, sha256: Mdoc.Hash, check: (Octets, Octets) -> bool,
                                claims: map<Octets, Octets>, idx: nat, uri: Octets, idxFirst: bool)
    requires MdocIssuance.Valid(c) && MdocIssuance.AllFit(c, sha256) && Checks(c, sha256, check)
    requires IsPidElements(c.elements, claims, StatusPairs(idx, uri, idxFirst))
    ensures (forall chosen :: StatusReads(c, sha256, check, idx, uri, chosen)) <==> Ascii("status") !in claims
  {
    if Ascii("status") in claims {
      var chosen := TwoOfTheName(c.elements, claims, idx, uri, idxFirst);
      MdocStatusIsRecovered(c, sha256, check, chosen, claims, idx, uri, idxFirst);
      assert !StatusReads(c, sha256, check, idx, uri, chosen);
    } else {
      forall chosen
        ensures StatusReads(c, sha256, check, idx, uri, chosen)
      {
        StatusReadsWithout(c, sha256, check, chosen, claims, idx, uri, idxFirst);
      }
    }
  }
}
