/** The SD-JWT builder, and what the verifier makes of any selection of its
    disclosures that a holder may present. */
module SdJwtIssuance {
  import opened Common
  import opened SdJwt
  import Base64Url

  datatype Entry = Entry(name: Text, value: Json)

  /** The wallet's key; None if its public JWK cannot be derived or encoded. */
  datatype HolderKey = HolderKey(publicJwk: Option<Json>)

  /** What a builder has been told. */
  datatype Settings = Settings(vct: Text, issuer: Text, subject: Text, validitySeconds: int,
                               plain: seq<Entry>, selective: seq<Entry>, holderKey: Option<HolderKey>)

  // ------------------------------------------------------- what Build builds

  function DisclosuresOf(env: Env, selective: seq<Entry>, salts: seq<seq<byte>>): seq<Text>
    requires |selective| <= |salts|
  {
    seq(|selective|, i requires 0 <= i < |selective| =>
          Disclosure(env, salts[i], selective[i].name, selective[i].value))
  }

  function DigestsOf(env: Env, disclosures: seq<Text>): seq<Json> {
    seq(|disclosures|, i requires 0 <= i < |disclosures| => String(Digest(env, disclosures[i])))
  }

  /** Each disclosure is made of its own salt and its claim's name and value. */
  ghost predicate Carry(env: Env, disclosures: seq<Text>, selective: seq<Entry>, salts: seq<seq<byte>>) {
    && |disclosures| == |selective| <= |salts|
    && forall i :: 0 <= i < |selective| ==>
         DisclosureParts(env, disclosures[i]) == Some((salts[i], selective[i].name, selective[i].value))
  }

  /** Each digest is the SHA-256 of its disclosure. */
  ghost predicate Hashes(env: Env, digests: seq<Json>, disclosures: seq<Text>) {
    && |digests| == |disclosures|
    && forall i :: 0 <= i < |digests| ==>
         digests[i].String? && Base64Url.Decode(digests[i].s) == Some(env.sha256(disclosures[i]))
  }

  lemma DisclosuresCarry(env: Env, selective: seq<Entry>, salts: seq<seq<byte>>)
    requires Sound(env) && |selective| <= |salts|
    ensures Carry(env, DisclosuresOf(env, selective, salts), selective, salts)
  {
    forall i | 0 <= i < |selective|
      ensures DisclosureParts(env, DisclosuresOf(env, selective, salts)[i])
              == Some((salts[i], selective[i].name, selective[i].value))
    {
      DisclosureComesApart(env, salts[i], selective[i].name, selective[i].value);
    }
  }

  lemma DigestsAreHashes(env: Env, disclosures: seq<Text>)
    ensures Hashes(env, DigestsOf(env, disclosures), disclosures)
  {
    forall i | 0 <= i < |disclosures|
      ensures Base64Url.Decode(Digest(env, disclosures[i])) == Some(env.sha256(disclosures[i]))
    {
      DigestReadsBack(env, disclosures[i]);
    }
  }

  /** Later claims of the same name replace earlier ones. */
  function WithClaims(m: map<Text, Json>, entries: seq<Entry>): map<Text, Json> {
    if entries == [] then m
    else WithClaims(m, entries[..|entries| - 1])[entries[|entries| - 1].name := entries[|entries| - 1].value]
  }

  function BeforePlain(s: Settings, digests: seq<Json>, now: int): map<Text, Json> {
    var m := map[Ascii("iss") := String(s.issuer), Ascii("iat") := Number(now),
                 Ascii("exp") := Number(now + s.validitySeconds), Ascii("vct") := String(s.vct)];
    var m := if s.subject != [] then m[Ascii("sub") := String(s.subject)] else m;
    if digests != [] then m[SD := Array(digests)][SD_ALG := String(Ascii("sha-256"))] else m
  }

  function PayloadOf(s: Settings, digests: seq<Json>, now: int): map<Text, Json> {
    var m := WithClaims(BeforePlain(s, digests, now), s.plain);
    if s.holderKey.Some? && s.holderKey.value.publicJwk.Some?
    then m[Ascii("cnf") := Object(map[Ascii("jwk") := s.holderKey.value.publicJwk.value])] else m
  }

  function IssuedClaims(env: Env, s: Settings, salts: seq<seq<byte>>, now: int): map<Text, Json>
    requires |s.selective| <= |salts|
  {
    PayloadOf(s, DigestsOf(env, DisclosuresOf(env, s.selective, salts)), now)
  }

  /** The octets that are signed, after the header. */
  function IssuedPayload(env: Env, s: Settings, salts: seq<seq<byte>>, now: int): seq<byte>
    requires |s.selective| <= |salts|
  {
    env.encode(Object(IssuedClaims(env, s, salts, now)))
  }

  predicate HolderOk(s: Settings) {
    s.holderKey.Some? ==> s.holderKey.value.publicJwk.Some?
  }

  datatype BuildError = MissingVct | NoRandomness | BadHolderKey | BadClaims | BadHeaders | NoSignature

  const DEFAULT_VALIDITY_SECONDS := 86400 * 365

  class Builder {
    var vct: Text
    var issuer: Text
    var subject: Text
    var validitySeconds: int
    var plainClaims: seq<Entry>
    var selectiveClaims: seq<Entry>
    var holderKey: Option<HolderKey>

    function View(): Settings
      reads this
    {
      Settings(vct, issuer, subject, validitySeconds, plainClaims, selectiveClaims, holderKey)
    }

    constructor ()
      ensures View() == Settings([], [], [], DEFAULT_VALIDITY_SECONDS, [], [], None)
    {
      vct, issuer, subject, validitySeconds := [], [], [], DEFAULT_VALIDITY_SECONDS;
      plainClaims, selectiveClaims, holderKey := [], [], None;
    }

    method PlainClaim(name: Text, value: Json)
      modifies this`plainClaims
      ensures plainClaims == old(plainClaims) + [Entry(name, value)]
    {
      plainClaims := plainClaims + [Entry(name, value)];
    }

    method SelectiveClaim(name: Text, value: Json)
      modifies this`selectiveClaims
      ensures selectiveClaims == old(selectiveClaims) + [Entry(name, value)]
    {
      selectiveClaims := selectiveClaims + [Entry(name, value)];
    }

    /** salts are the successive reads of the random source, which fails once
        they run out. */
    method MakeDisclosures(env: Env, salts: seq<seq<byte>>) returns (r: Result<(seq<Text>, seq<Json>), BuildError>)
      ensures r.Ok? <==> |selectiveClaims| <= |salts|
      ensures r.Err? ==> r == Err(NoRandomness)
      ensures r.Ok? ==>
                && r.value.0 == DisclosuresOf(env, selectiveClaims, salts)
                && r.value.1 == DigestsOf(env, r.value.0)
      ensures r.Ok? && Sound(env) ==> Carry(env, r.value.0, selectiveClaims, salts) && Hashes(env, r.value.1, r.value.0)
    {
      var disclosures: seq<Text> := [];
      var sdDigests: seq<Json> := [];
      for i := 0 to |selectiveClaims|
        invariant i <= |salts|
        invariant disclosures == DisclosuresOf(env, selectiveClaims[..i], salts)
        invariant sdDigests == DigestsOf(env, disclosures)
      {
        if i >= |salts| {
          return Err(NoRandomness);
        }
        var d := Disclosure(env, salts[i], selectiveClaims[i].name, selectiveClaims[i].value);
        disclosures := disclosures + [d];
        sdDigests := sdDigests + [String(Digest(env, d))];
      }
      assert selectiveClaims[..|selectiveClaims|] == selectiveClaims;
      if Sound(env) {
        DisclosuresCarry(env, selectiveClaims, salts);
        DigestsAreHashes(env, disclosures);
      }
      return Ok((disclosures, sdDigests));
    }

    method AssembleClaims(sdDigests: seq<Json>, now: int) returns (r: Result<map<Text, Json>, BuildError>)
      ensures r == if HolderOk(View()) then Ok(PayloadOf(View(), sdDigests, now)) else Err(BadHolderKey)
    {
      var claims := map[Ascii("iss") := String(issuer), Ascii("iat") := Number(now),
                        Ascii("exp") := Number(now + validitySeconds), Ascii("vct") := String(vct)];
      if subject != [] {
        claims := claims[Ascii("sub") := String(subject)];
      }
      if |sdDigests| > 0 {
        claims := claims[SD := Array(sdDigests)][SD_ALG := String(Ascii("sha-256"))];
      }
      for i := 0 to |plainClaims|
        invariant claims == WithClaims(BeforePlain(View(), sdDigests, now), plainClaims[..i])
      {
        assert plainClaims[..i + 1][..i] == plainClaims[..i];
        claims := claims[plainClaims[i].name := plainClaims[i].value];
      }
      assert plainClaims[..|plainClaims|] == plainClaims;
      if holderKey.Some? {
        if holderKey.value.publicJwk.None? {
          return Err(BadHolderKey);
        }
        claims := claims[Ascii("cnf") := Object(map[Ascii("jwk") := holderKey.value.publicJwk.value])];
      }
      return Ok(claims);
    }

    /** Assembles, signs and serializes. headers are the encoded JWS headers,
        None if the certificate chain or a header cannot be set. */
    method Build(env: Env, salts: seq<seq<byte>>, now: int, headers: Option<seq<byte>>)
      returns (r: Result<Text, BuildError>)
      ensures r == Err(MissingVct) <==> vct == []
      ensures r == Err(NoRandomness) <==> vct != [] && |salts| < |selectiveClaims|
      ensures vct != [] && |selectiveClaims| <= |salts| ==>
                && (r == Err(BadHolderKey) <==> !HolderOk(View()))
                && (r == Err(BadClaims) <==> HolderOk(View()) && !env.accepts(IssuedClaims(env, View(), salts, now)))
                && (r == Err(BadHeaders) <==>
                      HolderOk(View()) && env.accepts(IssuedClaims(env, View(), salts, now)) && headers == None)
                && (r == Err(NoSignature) <==>
                      && HolderOk(View()) && env.accepts(IssuedClaims(env, View(), salts, now)) && headers.Some?
                      && env.sign(SigningInput(headers.value, IssuedPayload(env, View(), salts, now))) == None)
      ensures r.Ok? ==> headers.Some? && IsIssued(env, View(), salts, now, headers.value, r.value)
      ensures r.Ok? && Sound(env) ==> HoldsDisclosures(env, r.value, selectiveClaims, salts)
    {
      if vct == [] {
        return Err(MissingVct);
      }
      var made := MakeDisclosures(env, salts);
      if made.Err? {
        return Err(NoRandomness);
      }
      var (disclosures, sdDigests) := made.value;
      var claims := AssembleClaims(sdDigests, now);
      if claims.Err? {
        return Err(BadHolderKey);
      }
      if !env.accepts(claims.value) {
        return Err(BadClaims);
      }
      if headers == None {
        return Err(BadHeaders);
      }
      var payload := env.encode(Object(claims.value));
      var signature := env.sign(SigningInput(headers.value, payload));
      if signature == None {
        return Err(NoSignature);
      }
      var jwt := Compact(headers.value, payload, signature.value);
      assert IsJwt(env, View(), salts, now, headers.value, jwt);
      var out := WithDisclosures(jwt, disclosures);
      if Sound(env) {
        IssuedHoldsDisclosures(env, View(), salts, now, headers.value, out);
      }
      return Ok(out);
    }

    static method WithDisclosures(jwt: Text, disclosures: seq<Text>) returns (out: Text)
      ensures out == Serialize(jwt, disclosures)
    {
      out := jwt;
      for i := 0 to |disclosures|
        invariant out + [TILDE] == Serialize(jwt, disclosures[..i])
      {
        assert disclosures[..i + 1][..i] == disclosures[..i];
        out := out + [TILDE] + disclosures[i];
      }
      assert disclosures[..|disclosures|] == disclosures;
      out := out + [TILDE];
    }
  }

  /** out is the serialization of all disclosures, signed over their digests
      and the plain claims. */
  ghost predicate IsIssued(env: Env, s: Settings, salts: seq<seq<byte>>, now: int, header: seq<byte>, out: Text) {
    && |s.selective| <= |salts|
    && exists jwt ::
      && IsJwt(env, s, salts, now, header, jwt)
      && out == Serialize(jwt, DisclosuresOf(env, s.selective, salts))
  }

  ghost predicate IsJwt(env: Env, s: Settings, salts: seq<seq<byte>>, now: int, header: seq<byte>, jwt: Text)
    requires |s.selective| <= |salts|
  {
    var payload := IssuedPayload(env, s, salts, now);
    HolderOk(s) && exists signature ::
      env.sign(SigningInput(header, payload)) == Some(signature) && jwt == Compact(header, payload, signature)
  }

  // --------------------------------------------------------- presentations

  predicate DistinctNames(entries: seq<Entry>) {
    forall i, j :: 0 <= i < j < |entries| ==> entries[i].name != entries[j].name
  }

  /** No plain claim takes the place of the digests. */
  predicate LeavesDigests(s: Settings) {
    forall i :: 0 <= i < |s.plain| ==> s.plain[i].name != SD && s.plain[i].name != SD_ALG
  }

  /** SHA-256 tells these disclosures apart. */
  ghost predicate NoCollisions(env: Env, encs: seq<Text>) {
    forall i, j :: 0 <= i < |encs| && 0 <= j < |encs| && env.sha256(encs[i]) == env.sha256(encs[j]) ==>
      encs[i] == encs[j]
  }

  /** The chosen disclosures, in the order chosen. */
  function Select(encs: seq<Text>, chosen: seq<nat>): seq<Text>
    requires Below(chosen, |encs|)
  {
    seq(|chosen|, i requires 0 <= i < |chosen| => encs[chosen[i]])
  }

  lemma EncodingsDiffer(env: Env, selective: seq<Entry>, salts: seq<seq<byte>>, i: nat, j: nat)
    requires Sound(env) && |selective| <= |salts| && DistinctNames(selective)
    requires i < |selective| && j < |selective| && i != j
    ensures DisclosuresOf(env, selective, salts)[i] != DisclosuresOf(env, selective, salts)[j]
  {
    ReadDisclosureOf(env, salts[i], selective[i].name, selective[i].value);
    ReadDisclosureOf(env, salts[j], selective[j].name, selective[j].value);
    assert selective[i].name != selective[j].name;
  }

  lemma DigestsDiffer(env: Env, selective: seq<Entry>, salts: seq<seq<byte>>, i: nat, j: nat)
    requires Sound(env) && |selective| <= |salts| && DistinctNames(selective)
    requires NoCollisions(env, DisclosuresOf(env, selective, salts))
    requires i < |selective| && j < |selective|
    requires Digest(env, DisclosuresOf(env, selective, salts)[i])
        == Digest(env, DisclosuresOf(env, selective, salts)[j])
    ensures i == j
  {
    var encs := DisclosuresOf(env, selective, salts);
    Base64Url.EncodeInjective(env.sha256(encs[i]), env.sha256(encs[j]));
    if i != j {
      EncodingsDiffer(env, selective, salts, i, j);
    }
  }

  lemma {:induction false} FindIsSound(env: Env, ds: seq<Text>, digest: Text) returns (k: nat)
    requires Find(env, ds, digest).Some?
    ensures k < |ds| && Find(env, ds, digest) == Some(ds[k]) && Digest(env, ds[k]) == digest
  {
    k := 0;
    if Digest(env, ds[0]) != digest {
      k := FindIsSound(env, ds[1..], digest);
      k := k + 1;
    }
  }

  lemma {:induction false} FindIsComplete(env: Env, ds: seq<Text>, at: nat)
    requires at < |ds|
    ensures Find(env, ds, Digest(env, ds[at])).Some?
  {
    if at > 0 {
      FindIsComplete(env, ds[1..], at - 1);
    }
  }

  /** A digest finds its disclosure exactly when that one was chosen. */
  lemma FindChosen(env: Env, selective: seq<Entry>, salts: seq<seq<byte>>, chosen: seq<nat>, i: nat)
    requires Sound(env) && |selective| <= |salts| && DistinctNames(selective)
    requires NoCollisions(env, DisclosuresOf(env, selective, salts))
    requires Below(chosen, |selective|) && i < |selective|
    ensures var encs := DisclosuresOf(env, selective, salts);
            Find(env, Select(encs, chosen), Digest(env, encs[i])) == if Mentions(chosen, i) then Some(encs[i]) else None
  {
    var encs := DisclosuresOf(env, selective, salts);
    var ds := Select(encs, chosen);
    if Mentions(chosen, i) {
      var at :| 0 <= at < |chosen| && chosen[at] == i;
      FindIsComplete(env, ds, at);
    }
    if Find(env, ds, Digest(env, encs[i])).Some? {
      var k := FindIsSound(env, ds, Digest(env, encs[i]));
      DigestsDiffer(env, selective, salts, chosen[k], i);
    }
  }

  /** Section 7.1 makes a verifier reject a disclosed claim of this name. */
  predicate Clashes(payload: map<Text, Json>, name: Text) {
    name == SD || name == ELLIPSIS || name in payload
  }

  /** The chosen ones among the first m selective claims. */
  function ChosenClaims(selective: seq<Entry>, chosen: seq<nat>, m: nat): map<Text, Json>
    requires m <= |selective|
  {
    if m == 0 then map[]
    else
      var rest := ChosenClaims(selective, chosen, m - 1);
      if Mentions(chosen, m - 1) then rest[selective[m - 1].name := selective[m - 1].value] else rest
  }

  /** That is: a name is there exactly when a chosen claim has it, with that
      claim's value. */
  lemma {:induction false} ChosenClaimsAre(selective: seq<Entry>, chosen: seq<nat>, m: nat)
    requires m <= |selective| && DistinctNames(selective)
    ensures forall name :: name in ChosenClaims(selective, chosen, m) <==>
              exists k :: 0 <= k < m && Mentions(chosen, k) && selective[k].name == name
    ensures forall k :: 0 <= k < m && Mentions(chosen, k) ==>
              selective[k].name in ChosenClaims(selective, chosen, m)
              && ChosenClaims(selective, chosen, m)[selective[k].name] == selective[k].value
  {
    if m > 0 {
      ChosenClaimsAre(selective, chosen, m - 1);
    }
  }

  predicate ClashAmong(payload: map<Text, Json>, selective: seq<Entry>, chosen: seq<nat>, m: nat)
    requires m <= |selective|
  {
    exists k :: 0 <= k < m && Mentions(chosen, k) && Clashes(payload, selective[k].name)
  }

  lemma ChosenStep(payload: map<Text, Json>, selective: seq<Entry>, chosen: seq<nat>, m: nat)
    requires 0 < m <= |selective| && DistinctNames(selective)
    ensures var Entry(name, value) := selective[m - 1];
            var acc := payload + ChosenClaims(selective, chosen, m - 1);
            && (name in acc <==> name in payload)
            && payload + ChosenClaims(selective, chosen, m)
              == (if Mentions(chosen, m - 1) then acc[name := value] else acc)
            && (ClashAmong(payload, selective, chosen, m) <==>
                ClashAmong(payload, selective, chosen, m - 1) || (Mentions(chosen, m - 1) && Clashes(payload, name)))
  {
    ChosenClaimsAre(selective, chosen, m - 1);
  }

  lemma RevealStep(env: Env, ds: seq<Text>, digests: seq<Json>, digest: Text, payload: map<Text, Json>)
    ensures Reveal(env, ds, digests + [String(digest)], payload) ==
            match Reveal(env, ds, digests, payload)
            case None => None
            case Some(acc) =>
              match Find(env, ds, digest)
              case None => Some(acc)
              case Some(d) =>
                match ReadDisclosure(env, d)
                case None => None
                case Some((name, value)) => if Clashes(acc, name) then None else Some(acc[name := value])
  {
    var all := digests + [String(digest)];
    assert all[..|all| - 1] == digests && all[|all| - 1] == String(digest);
  }

  lemma OneMoreDigest(digests: seq<Json>, m: nat)
    requires 0 < m <= |digests|
    ensures digests[..m] == digests[..m - 1] + [digests[m - 1]]
  {
  }

  lemma ChosenDisclosure(env: Env, selective: seq<Entry>, salts: seq<seq<byte>>, chosen: seq<nat>, i: nat)
    requires Sound(env) && |selective| <= |salts| && DistinctNames(selective)
    requires NoCollisions(env, DisclosuresOf(env, selective, salts))
    requires Below(chosen, |selective|) && i < |selective|
    ensures var encs := DisclosuresOf(env, selective, salts);
            && Find(env, Select(encs, chosen), Digest(env, encs[i]))
              == (if Mentions(chosen, i) then Some(encs[i]) else None)
            && ReadDisclosure(env, encs[i]) == Some((selective[i].name, selective[i].value))
  {
    FindChosen(env, selective, salts, chosen, i);
    ReadDisclosureOf(env, salts[i], selective[i].name, selective[i].value);
  }

  lemma {:induction false} RevealChosen(env: Env, selective: seq<Entry>, salts: seq<seq<byte>>, chosen: seq<nat>,
                                        payload: map<Text, Json>, m: nat)
    requires Sound(env) && |selective| <= |salts| && DistinctNames(selective)
    requires NoCollisions(env, DisclosuresOf(env, selective, salts))
    requires Below(chosen, |selective|) && m <= |selective|
    ensures var encs := DisclosuresOf(env, selective, salts);
            Reveal(env, Select(encs, chosen), DigestsOf(env, encs)[..m], payload)
            == if ClashAmong(payload, selective, chosen, m) then None
               else Some(payload + ChosenClaims(selective, chosen, m))
  {
    var encs := DisclosuresOf(env, selective, salts);
    var ds, digests := Select(encs, chosen), DigestsOf(env, encs);
    if m == 0 {
      assert payload + map[] == payload;
    } else {
      RevealChosen(env, selective, salts, chosen, payload, m - 1);
      var enc := encs[m - 1];
      OneMoreDigest(digests, m);
      RevealStep(env, ds, digests[..m - 1], Digest(env, enc), payload);
      ChosenDisclosure(env, selective, salts, chosen, m - 1);
      ChosenStep(payload, selective, chosen, m);
    }
  }

  // ------------------------------------------------------------ main results

  lemma NamesDiffer()
    ensures SD !in {Ascii("iss"), Ascii("iat"), Ascii("exp"), Ascii("vct"), Ascii("sub"), Ascii("cnf")}
    ensures SD_ALG !in {Ascii("iss"), Ascii("iat"), Ascii("exp"), Ascii("vct"), Ascii("sub"), Ascii("cnf")}
    ensures SD != SD_ALG
  {
    assert SD[0] == 95 && SD_ALG[0] == 95;
    assert Ascii("iss")[0] == 105 && Ascii("iat")[0] == 105 && Ascii("exp")[0] == 101;
    assert Ascii("vct")[0] == 118 && Ascii("sub")[0] == 115 && Ascii("cnf")[0] == 99;
    assert |SD| == 3 && |SD_ALG| == 7;
  }

  lemma {:induction false} WithClaimsKeeps(m: map<Text, Json>, entries: seq<Entry>, name: Text)
    requires forall i :: 0 <= i < |entries| ==> entries[i].name != name
    ensures name in WithClaims(m, entries) <==> name in m
    ensures name in m ==> WithClaims(m, entries)[name] == m[name]
  {
    if entries != [] {
      WithClaimsKeeps(m, entries[..|entries| - 1], name);
    }
  }

  /** The payload carries the digests, all of them, and nothing else as _sd. */
  lemma PayloadCarriesDigests(s: Settings, digests: seq<Json>, now: int)
    requires LeavesDigests(s)
    ensures var p := PayloadOf(s, digests, now);
            && DigestsIn(p) == Some(digests) && (SD_ALG in p <==> digests != [])
            && (SD_ALG in p ==> p[SD_ALG] == String(Ascii("sha-256")))
  {
    NamesDiffer();
    WithClaimsKeeps(BeforePlain(s, digests, now), s.plain, SD);
    WithClaimsKeeps(BeforePlain(s, digests, now), s.plain, SD_ALG);
  }

  /** The claim of this name has this value. */
  predicate Reads(claims: map<Text, Json>, name: string, v: Json) {
    Ascii(name) in claims && claims[Ascii(name)] == v
  }

  /** No plain claim takes the place of a registered one. */
  predicate LeavesRegistered(s: Settings) {
    forall i :: 0 <= i < |s.plain| ==>
      s.plain[i].name !in {Ascii("iss"), Ascii("iat"), Ascii("exp"), Ascii("vct"), Ascii("sub")}
  }

  lemma RegisteredNamesDiffer()
    ensures Distinct([Ascii("iss"), Ascii("iat"), Ascii("exp"), Ascii("vct"), Ascii("sub"), Ascii("cnf")])
  {
    assert Ascii("iss")[..2] == [105, 115] && Ascii("iat")[..2] == [105, 97] && Ascii("exp")[0] == 101;
    assert Ascii("vct")[0] == 118 && Ascii("sub")[0] == 115 && Ascii("cnf")[0] == 99;
  }

  lemma BeforePlainSays(s: Settings, digests: seq<Json>, now: int)
    ensures var m := BeforePlain(s, digests, now);
            && Reads(m, "iss", String(s.issuer)) && Reads(m, "vct", String(s.vct))
            && Reads(m, "iat", Number(now)) && Reads(m, "exp", Number(now + s.validitySeconds))
            && (if s.subject != [] then Reads(m, "sub", String(s.subject)) else Ascii("sub") !in m)
  {
    RegisteredNamesDiffer();
    NamesDiffer();
    var names := [Ascii("iss"), Ascii("iat"), Ascii("exp"), Ascii("vct"), Ascii("sub"), Ascii("cnf")];
    assert forall i, j :: 0 <= i < j < |names| ==> names[i] != names[j];
    assert names[0] == Ascii("iss") && names[1] == Ascii("iat") && names[2] == Ascii("exp");
    assert names[3] == Ascii("vct") && names[4] == Ascii("sub");
  }

  lemma KeepsRegistered(s: Settings, digests: seq<Json>, now: int, name: string)
    requires LeavesRegistered(s) && name in {"iss", "iat", "exp", "vct", "sub"}
    ensures var m, p := BeforePlain(s, digests, now), PayloadOf(s, digests, now);
            (Ascii(name) in p <==> Ascii(name) in m) && (Ascii(name) in m ==> p[Ascii(name)] == m[Ascii(name)])
  {
    WithClaimsKeeps(BeforePlain(s, digests, now), s.plain, Ascii(name));
    assert Ascii("iss")[0] == 105 && Ascii("iat")[0] == 105 && Ascii("exp")[0] == 101;
    assert Ascii("vct")[0] == 118 && Ascii("sub")[0] == 115 && Ascii("cnf")[0] == 99;
  }

  /** Issuer, type, subject, dates and holder key stand in the payload as the
      builder was told. */
  lemma PayloadSays(s: Settings, digests: seq<Json>, now: int)
    requires LeavesRegistered(s)
    ensures var p := PayloadOf(s, digests, now);
            && Reads(p, "iss", String(s.issuer)) && Reads(p, "vct", String(s.vct))
            && Reads(p, "iat", Number(now)) && Reads(p, "exp", Number(now + s.validitySeconds))
            && (if s.subject != [] then Reads(p, "sub", String(s.subject)) else Ascii("sub") !in p)
            && (s.holderKey.Some? && s.holderKey.value.publicJwk.Some? ==>
                  Reads(p, "cnf", Object(map[Ascii("jwk") := s.holderKey.value.publicJwk.value])))
  {
    BeforePlainSays(s, digests, now);
    forall name | name in {"iss", "iat", "exp", "vct", "sub"}
      ensures var m, p := BeforePlain(s, digests, now), PayloadOf(s, digests, now);
              (Ascii(name) in p <==> Ascii(name) in m) && (Ascii(name) in m ==> p[Ascii(name)] == m[Ascii(name)])
    {
      KeepsRegistered(s, digests, now, name);
    }
  }

  lemma DisclosuresHaveNoTilde(env: Env, selective: seq<Entry>, salts: seq<seq<byte>>, i: nat)
    requires |selective| <= |salts| && i < |selective|
    ensures NoTilde(DisclosuresOf(env, selective, salts)[i])
  {
    EncodedHasNoTilde(env.encode(Array([String(Base64Url.Encode(salts[i])), String(selective[i].name),
                                       selective[i].value])));
  }

  /** Cutting a presentation at its tildes yields the JWT and the disclosures
      presented, in order. */
  lemma CutSelection(env: Env, s: Settings, salts: seq<seq<byte>>, now: int, header: seq<byte>, jwt: Text,
                     ds: seq<Text>)
    requires |s.selective| <= |salts| && IsJwt(env, s, salts, now, header, jwt)
    requires forall i :: 0 <= i < |ds| ==> NoTilde(ds[i])
    ensures Split(Serialize(jwt, ds)) == [jwt] + ds + [[]]
  {
    var payload := env.encode(Object(PayloadOf(s, DigestsOf(env, DisclosuresOf(env, s.selective, salts)), now)));
    var signature :| env.sign(SigningInput(header, payload)) == Some(signature)
      && jwt == Compact(header, payload, signature);
    CompactHasNoTilde(header, payload, signature);
    SplitSerialized(jwt, ds, []);
    assert Serialize(jwt, ds) + [] == Serialize(jwt, ds);
  }

  /** A holder cuts the issued credential at its tildes, and has the JWT and
      every disclosure, in order. */
  lemma HolderCutsAtTildes(env: Env, s: Settings, salts: seq<seq<byte>>, now: int, header: seq<byte>, out: Text)
    returns (jwt: Text)
    requires IsIssued(env, s, salts, now, header, out)
    ensures IsJwt(env, s, salts, now, header, jwt)
    ensures Split(out) == [jwt] + DisclosuresOf(env, s.selective, salts) + [[]]
  {
    var encs := DisclosuresOf(env, s.selective, salts);
    jwt :| IsJwt(env, s, salts, now, header, jwt) && out == Serialize(jwt, encs);
    forall i | 0 <= i < |encs|
      ensures NoTilde(encs[i])
    {
      DisclosuresHaveNoTilde(env, s.selective, salts, i);
    }
    CutSelection(env, s, salts, now, header, jwt, encs);
  }

  /** Cut at its tildes, out yields a JWT, and then for every claim a disclosure
      made of that claim and of the salt drawn for it. */
  ghost predicate HoldsDisclosures(env: Env, out: Text, selective: seq<Entry>, salts: seq<seq<byte>>) {
    var parts := Split(out);
    |parts| == |selective| + 2 && parts[|parts| - 1] == [] && Carry(env, parts[1..|parts| - 1], selective, salts)
  }

  lemma IssuedHoldsDisclosures(env: Env, s: Settings, salts: seq<seq<byte>>, now: int, header: seq<byte>, out: Text)
    requires Sound(env) && IsIssued(env, s, salts, now, header, out)
    ensures HoldsDisclosures(env, out, s.selective, salts)
  {
    var encs := DisclosuresOf(env, s.selective, salts);
    var jwt := HolderCutsAtTildes(env, s, salts, now, header, out);
    assert Split(out)[1..|Split(out)| - 1] == encs;
    DisclosuresCarry(env, s.selective, salts);
  }

  /** And the payload that a verifier accepts lists the SHA-256 of every one of
      these disclosures, in their order. */
  lemma PayloadHoldsDigests(env: Env, s: Settings, salts: seq<seq<byte>>, now: int, header: seq<byte>, out: Text)
    requires Sound(env) && IsIssued(env, s, salts, now, header, out) && LeavesDigests(s) && s.selective != []
    ensures var parts := Split(out);
            match VerifiedPayload(env, parts[0])
            case Some(Object(p)) =>
              && Ascii("_sd") in p && p[Ascii("_sd")].Array? && |parts| >= 2
              && Hashes(env, p[Ascii("_sd")].items, parts[1..|parts| - 1])
              && Reads(p, "_sd_alg", String(Ascii("sha-256")))
            case _ => false
  {
    var encs := DisclosuresOf(env, s.selective, salts);
    var jwt := HolderCutsAtTildes(env, s, salts, now, header, out);
    assert Split(out)[1..|Split(out)| - 1] == encs;
    IssuedJwtVerifies(env, s, salts, now, header, jwt);
    PayloadCarriesDigests(s, DigestsOf(env, encs), now);
    DigestsAreHashes(env, encs);
  }

  /** Every presented disclosure is one that the payload refers to. */
  lemma AllReferenced(env: Env, encs: seq<Text>, chosen: seq<nat>)
    requires Below(chosen, |encs|)
    ensures forall i :: 0 <= i < |chosen| ==> String(Digest(env, Select(encs, chosen)[i])) in DigestsOf(env, encs)
  {
    forall i | 0 <= i < |chosen|
      ensures String(Digest(env, Select(encs, chosen)[i])) in DigestsOf(env, encs)
    {
      assert DigestsOf(env, encs)[chosen[i]] == String(Digest(env, encs[chosen[i]]));
    }
  }

  lemma DigestsAreDistinct(env: Env, selective: seq<Entry>, salts: seq<seq<byte>>)
    requires Sound(env) && |selective| <= |salts| && DistinctNames(selective)
    requires NoCollisions(env, DisclosuresOf(env, selective, salts))
    ensures Distinct(DigestsOf(env, DisclosuresOf(env, selective, salts)))
  {
    var digests := DigestsOf(env, DisclosuresOf(env, selective, salts));
    forall i, j | 0 <= i < j < |digests|
      ensures digests[i] != digests[j]
    {
      if digests[i] == digests[j] {
        DigestsDiffer(env, selective, salts, i, j);
      }
    }
  }

  lemma IssuedJwtVerifies(env: Env, s: Settings, salts: seq<seq<byte>>, now: int, header: seq<byte>, jwt: Text)
    requires Sound(env) && |s.selective| <= |salts| && IsJwt(env, s, salts, now, header, jwt)
    ensures VerifiedPayload(env, jwt)
            == Some(Object(PayloadOf(s, DigestsOf(env, DisclosuresOf(env, s.selective, salts)), now)))
  {
    var payload := Object(PayloadOf(s, DigestsOf(env, DisclosuresOf(env, s.selective, salts)), now));
    var signature :| env.sign(SigningInput(header, env.encode(payload))) == Some(signature)
                     && jwt == Compact(header, env.encode(payload), signature);
    CompactVerifies(env, header, payload, signature);
  }

  /** Whatever selection of the disclosures a holder presents, in whatever
      order: the verifier accepts exactly when none of the selected claims has a
      reserved name or the name of a claim already in the payload, and then
      recovers exactly the plain claims and the selected ones. */
  lemma PresentationVerifies(env: Env, s: Settings, salts: seq<seq<byte>>, now: int, header: seq<byte>, jwt: Text,
                             chosen: seq<nat>)
    requires Sound(env) && |s.selective| <= |salts| && DistinctNames(s.selective) && LeavesDigests(s)
    requires NoCollisions(env, DisclosuresOf(env, s.selective, salts))
    requires IsJwt(env, s, salts, now, header, jwt) && Below(chosen, |s.selective|)
    ensures var encs := DisclosuresOf(env, s.selective, salts);
            var payload := PayloadOf(s, DigestsOf(env, encs), now);
            Verify(env, Serialize(jwt, Select(encs, chosen)))
            == if ClashAmong(payload, s.selective, chosen, |s.selective|) then None
               else Some(payload + ChosenClaims(s.selective, chosen, |s.selective|) - {SD, SD_ALG})
  {
    var encs := DisclosuresOf(env, s.selective, salts);
    var ds, digests := Select(encs, chosen), DigestsOf(env, encs);
    var payload := PayloadOf(s, digests, now);
    forall i | 0 <= i < |ds|
      ensures NoTilde(ds[i])
    {
      DisclosuresHaveNoTilde(env, s.selective, salts, chosen[i]);
    }
    CutSelection(env, s, salts, now, header, jwt, ds);
    var parts := Split(Serialize(jwt, ds));
    assert parts[0] == jwt && parts[1..|parts| - 1] == ds && parts[|parts| - 1] == [];
    IssuedJwtVerifies(env, s, salts, now, header, jwt);
    PayloadCarriesDigests(s, digests, now);
    DigestsAreDistinct(env, s.selective, salts);
    AllReferenced(env, encs, chosen);
    RevealChosen(env, s.selective, salts, chosen, payload, |s.selective|);
    assert digests[..|s.selective|] == digests;
  }

  /** The value of a plain claim is the one added last under its name. */
  lemma {:induction false} LastClaimCounts(m: map<Text, Json>, entries: seq<Entry>, k: nat)
    requires k < |entries| && forall j :: k < j < |entries| ==> entries[j].name != entries[k].name
    ensures entries[k].name in WithClaims(m, entries) && WithClaims(m, entries)[entries[k].name] == entries[k].value
  {
    if k < |entries| - 1 {
      LastClaimCounts(m, entries[..|entries| - 1], k);
    }
  }

  lemma {:induction false} WithClaimsAdds(m: map<Text, Json>, entries: seq<Entry>, k: nat)
    requires k < |entries|
    ensures entries[k].name in WithClaims(m, entries)
  {
    if k < |entries| - 1 {
      WithClaimsAdds(m, entries[..|entries| - 1], k);
    }
  }

  /** The builder does not keep a selective claim from taking a plain claim's
      name, such as a `status` in the credential data beside the issuer's own:
      any presentation that discloses it is rejected. */
  lemma SharedNameIsRejected(env: Env, s: Settings, salts: seq<seq<byte>>, now: int, header: seq<byte>, jwt: Text,
                             chosen: seq<nat>, k: nat, p: nat)
    requires Sound(env) && |s.selective| <= |salts| && DistinctNames(s.selective) && LeavesDigests(s)
    requires NoCollisions(env, DisclosuresOf(env, s.selective, salts))
    requires IsJwt(env, s, salts, now, header, jwt) && Below(chosen, |s.selective|)
    requires k < |s.selective| && Mentions(chosen, k) && p < |s.plain| && s.plain[p].name == s.selective[k].name
    ensures Verify(env, Serialize(jwt, Select(DisclosuresOf(env, s.selective, salts), chosen))) == None
  {
    var digests := DigestsOf(env, DisclosuresOf(env, s.selective, salts));
    WithClaimsAdds(BeforePlain(s, digests, now), s.plain, p);
    assert Clashes(PayloadOf(s, digests, now), s.selective[k].name);
    PresentationVerifies(env, s, salts, now, header, jwt, chosen);
  }

  lemma AcceptedAreReferenced(env: Env, presentation: Text, jwt: Text, ds: seq<Text>, payload: map<Text, Json>,
                              digests: seq<Json>)
    requires Split(presentation) == [jwt] + ds + [[]]
    requires VerifiedPayload(env, jwt) == Some(Object(payload)) && DigestsIn(payload) == Some(digests)
    requires Verify(env, presentation).Some?
    ensures forall i :: 0 <= i < |ds| ==> String(Digest(env, ds[i])) in digests
  {
    var parts := Split(presentation);
    assert parts[0] == jwt && parts[1..|parts| - 1] == ds;
  }

  /** An issued disclosure that has the digest of d is d. */
  ghost predicate NoCollision(env: Env, encs: seq<Text>, d: Text) {
    forall k :: 0 <= k < |encs| && env.sha256(d) == env.sha256(encs[k]) ==> d == encs[k]
  }

  /** A presentation of the issued JWT is accepted only with disclosures that
      were issued with it, or that collide with one that was. */
  lemma OnlyIssuedDisclosuresVerify(env: Env, s: Settings, salts: seq<seq<byte>>, now: int, header: seq<byte>,
                                    jwt: Text, ds: seq<Text>, i: nat)
    requires Sound(env) && |s.selective| <= |salts| && LeavesDigests(s)
    requires IsJwt(env, s, salts, now, header, jwt)
    requires forall k :: 0 <= k < |ds| ==> NoTilde(ds[k])
    requires Verify(env, Serialize(jwt, ds)).Some? && i < |ds|
    requires NoCollision(env, DisclosuresOf(env, s.selective, salts), ds[i])
    ensures ds[i] in DisclosuresOf(env, s.selective, salts)
  {
    var encs := DisclosuresOf(env, s.selective, salts);
    var digests := DigestsOf(env, encs);
    CutSelection(env, s, salts, now, header, jwt, ds);
    IssuedJwtVerifies(env, s, salts, now, header, jwt);
    PayloadCarriesDigests(s, digests, now);
    AcceptedAreReferenced(env, Serialize(jwt, ds), jwt, ds, PayloadOf(s, digests, now), digests);
    var k :| 0 <= k < |digests| && digests[k] == String(Digest(env, ds[i]));
    Base64Url.EncodeInjective(env.sha256(ds[i]), env.sha256(encs[k]));
    assert encs[k] in encs;
  }
}
