/** The access-token verifier's two time-bounded caches: the authorization
    server's key set, which falls back to stale keys, and its denylist of
    revoked tokens, which does not. Times are nanoseconds; 0 is Go's zero time,
    earlier than any clock reading. */
module AccessToken {
  import opened Common

  const JWKS_CACHE_TTL := 60 * 1_000_000_000
  const REVOKED_CACHE_TTL := 2 * 1_000_000_000

  datatype KeySet = KeySet(kids: set<string>)

  datatype Cache = Cache(keys: Option<KeySet>, keysExp: int, revoked: set<string>, revokedExp: int)

  const EMPTY_CACHE := Cache(None, 0, {}, 0)

  // ------------------------------------------------------- the lock regions

  predicate KeysFetched(c: Cache, now: int) {
    !(c.keys.Some? && now < c.keysExp)
  }

  /** keySet, entered at now; fetch is the answer if it asks, got at done. */
  function KeyStep(c: Cache, now: int, fetch: Option<KeySet>, done: int): (Cache, Option<KeySet>) {
    if !KeysFetched(c, now) then (c, c.keys)
    else if fetch.None? then (c, c.keys)
    else (c.(keys := fetch, keysExp := done + JWKS_CACHE_TTL), fetch)
  }

  predicate DenylistFetched(c: Cache, now: int) {
    now > c.revokedExp
  }

  /** isRevoked; None is the error that fails the request. */
  function RevokedStep(c: Cache, jti: string, now: int, fetch: Option<set<string>>, done: int): (Cache, Option<bool>) {
    if !DenylistFetched(c, now) then (c, Some(jti in c.revoked))
    else if fetch.None? then (c, None)
    else (c.(revoked := fetch.value, revokedExp := done + REVOKED_CACHE_TTL), Some(jti in fetch.value))
  }

  /** What a verified access token carries; "" stands for an absent claim. */
  datatype Payload = Payload(jti: string, recordId: string, cNonce: string, jkt: string)

  datatype Claims = Claims(issuanceRecordId: string, cNonce: string, jkt: string, jti: string)

  /** signatures and typ are read before verification; parse is the JOSE
      library's verdict under a key set, with iss, aud and exp checked. */
  datatype Token = Token(signatures: nat, typ: string, parse: KeySet -> Option<Payload>)

  /** BadToken is the source's "Invalid access token", a token that does not even
      come apart into one signature included. */
  datatype Refusal = Unavailable | BadType | BadToken | Revoked | NotBound

  predicate TypeOk(t: Token) {
    t.typ == "at+jwt" || t.typ == "application/at+jwt"
  }

  /** A token presented, with what the verifier then reads of the clock and the
      network: for the key set, and for the denylist if it gets that far. */
  datatype Access = Access(token: Token, now: int, keyFetch: Option<KeySet>, keyDone: int,
                           later: int, listFetch: Option<set<string>>, listDone: int)

  /** The token's payload, under the keys to be had. */
  function Parsed(c: Cache, a: Access): Result<Payload, Refusal> {
    match KeyStep(c, a.now, a.keyFetch, a.keyDone).1
    case None => Err(Unavailable)
    case Some(keys) =>
      if a.token.signatures != 1 then Err(BadToken)
      else if !TypeOk(a.token) then Err(BadType)
      else match a.token.parse(keys)
        case None => Err(BadToken)
        case Some(p) => if p.jti == "" then Err(BadToken) else Ok(p)
  }

  /** The denylist check of a parsed token. */
  function DenylistStep(c: Cache, a: Access, p: Payload): (Cache, Option<bool>) {
    RevokedStep(KeyStep(c, a.now, a.keyFetch, a.keyDone).0, p.jti, a.later, a.listFetch, a.listDone)
  }

  function KeysFor(c: Cache, a: Access): Option<KeySet> {
    KeyStep(c, a.now, a.keyFetch, a.keyDone).1
  }

  /** One signature, the type of an access token, and a payload with a jti that
      verifies under the keys to be had. */
  predicate Authentic(c: Cache, a: Access) {
    && KeysFor(c, a).Some? && a.token.signatures == 1 && a.token.typ in {"at+jwt", "application/at+jwt"}
    && a.token.parse(KeysFor(c, a).value).Some? && a.token.parse(KeysFor(c, a).value).value.jti != ""
  }

  function ParsedUnder(c: Cache, a: Access): Payload
    requires Authentic(c, a)
  {
    a.token.parse(KeysFor(c, a).value).value
  }

  /** An authentic token meets this verdict of the denylist check. */
  predicate MeetsVerdict(c: Cache, a: Access, verdict: Option<bool>) {
    Authentic(c, a) && DenylistStep(c, a, ParsedUnder(c, a)).1 == verdict
  }

  /** It is authentic, not revoked, and bound to a key. */
  predicate TokenPasses(c: Cache, a: Access) {
    MeetsVerdict(c, a, Some(false)) && ParsedUnder(c, a).jkt != ""
  }

  /** The answer is what the token says under the keys the cache then holds. */
  predicate Says(c: Cache, t: Token, claims: Claims) {
    && c.keys.Some? && t.parse(c.keys.value).Some?
    && var p := t.parse(c.keys.value).value;
    && claims.issuanceRecordId == p.recordId && claims.cNonce == p.cNonce
    && claims.jkt == p.jkt && claims.jti == p.jti
  }

  /** What Verify answers, and the cache it leaves. */
  function VerifyStep(c: Cache, a: Access): (r: (Cache, Result<Claims, Refusal>))
    ensures r.1.Ok? <==> TokenPasses(c, a)
    ensures r.1.Ok? ==> r.1.value.jti !in r.0.revoked
    ensures r.1 == Err(Revoked) ==> Authentic(c, a) && ParsedUnder(c, a).jti in r.0.revoked
    ensures r.1.Ok? ==> Says(r.0, a.token, r.1.value) && r.1.value.jti != "" && r.1.value.jkt != ""
  {
    match Parsed(c, a)
    case Err(e) => (KeyStep(c, a.now, a.keyFetch, a.keyDone).0, Err(e))
    case Ok(p) =>
      var (d, verdict) := DenylistStep(c, a, p);
      (d, match verdict
          case None => Err(Unavailable)
          case Some(true) => Err(Revoked)
          case Some(false) => if p.jkt == "" then Err(NotBound) else Ok(Claims(p.recordId, p.cNonce, p.jkt, p.jti)))
  }

  class Verifier {
    var keys: Option<KeySet>
    var keysExp: int
    var revoked: set<string>
    var revokedExp: int

    function View(): Cache
      reads this
    {
      Cache(keys, keysExp, revoked, revokedExp)
    }

    constructor ()
      ensures View() == EMPTY_CACHE
    {
      keys, keysExp, revoked, revokedExp := None, 0, {}, 0;
    }

    method GetKeySet(now: int, fetch: Option<KeySet>, done: int) returns (r: Option<KeySet>)
      modifies this`keys, this`keysExp
      ensures (View(), r) == KeyStep(old(View()), now, fetch, done)
    {
      if keys.Some? && now < keysExp {
        return keys;
      }
      if fetch.None? {
        if keys.Some? {
          return keys;
        }
        return None;
      }
      keys, keysExp := fetch, done + JWKS_CACHE_TTL;
      return fetch;
    }

    method IsRevoked(jti: string, now: int, fetch: Option<set<string>>, done: int) returns (r: Option<bool>)
      modifies this`revoked, this`revokedExp
      ensures (View(), r) == RevokedStep(old(View()), jti, now, fetch, done)
    {
      if now > revokedExp {
        if fetch.None? {
          return None;
        }
        revoked, revokedExp := fetch.value, done + REVOKED_CACHE_TTL;
      }
      return Some(jti in revoked);
    }

    /** A token is accepted exactly when keys are to be had, it is typed as an
        access token, verifies under those keys, carries a jti that the denylist
        check clears, and is bound to a key; and then the answer is what it says.
        Any other is refused for the first of these that fails. */
    method Verify(a: Access) returns (r: Result<Claims, Refusal>)
      modifies this
      ensures (View(), r) == VerifyStep(old(View()), a)
      ensures r.Ok? <==> TokenPasses(old(View()), a)
      ensures r.Ok? ==> Says(View(), a.token, r.value) && r.value.jti != "" && r.value.jkt != ""
      ensures r == Err(Unavailable) <==> KeysFor(old(View()), a) == None || MeetsVerdict(old(View()), a, None)
      ensures r == Err(BadType) <==> KeysFor(old(View()), a).Some? && a.token.signatures == 1 && !TypeOk(a.token)
      ensures r == Err(BadToken) <==>
                && KeysFor(old(View()), a).Some? && (a.token.signatures == 1 ==> TypeOk(a.token))
                && !Authentic(old(View()), a)
      ensures r == Err(Revoked) <==> MeetsVerdict(old(View()), a, Some(true))
      ensures r == Err(NotBound) <==> MeetsVerdict(old(View()), a, Some(false)) && ParsedUnder(old(View()), a).jkt == ""
    {
      var ks := GetKeySet(a.now, a.keyFetch, a.keyDone);
      if ks.None? {
        return Err(Unavailable);
      }
      if a.token.signatures != 1 {
        return Err(BadToken);
      }
      if !TypeOk(a.token) {
        return Err(BadType);
      }
      var parsed := a.token.parse(ks.value);
      if parsed.None? || parsed.value.jti == "" {
        return Err(BadToken);
      }
      var verdict := IsRevoked(parsed.value.jti, a.later, a.listFetch, a.listDone);
      if verdict.None? {
        return Err(Unavailable);
      }
      if verdict.value {
        return Err(Revoked);
      }
      if parsed.value.jkt == "" {
        return Err(NotBound);
      }
      return Ok(Claims(parsed.value.recordId, parsed.value.cNonce, parsed.value.jkt, parsed.value.jti));
    }
  }

  // ------------------------------------------------------------------- runs

  /** One lock region: entered at now, left at done. sampled is the instant at
      which the authorization server took the denylist it answered with. */
  datatype Event =
    | KeyCheck(now: int, fetchKeys: Option<KeySet>, done: int)
    | RevocationCheck(jti: string, now: int, fetchList: Option<set<string>>, sampled: int, done: int)

  function After(c: Cache, e: Event): Cache {
    match e
    case KeyCheck(now, fetch, done) => KeyStep(c, now, fetch, done).0
    case RevocationCheck(jti, now, fetch, _, done) => RevokedStep(c, jti, now, fetch, done).0
  }

  /** Regions exclude each other, and the clock does not go back. */
  ghost predicate Run(cs: seq<Cache>, es: seq<Event>) {
    && |cs| == |es| + 1 && cs[0] == EMPTY_CACHE
    && (forall i :: 0 <= i < |es| ==> cs[i + 1] == After(cs[i], es[i]))
    && (forall i :: 0 <= i < |es| ==> 0 < es[i].now <= es[i].done)
    && (forall i, j :: 0 <= i < j < |es| ==> es[i].done <= es[j].now)
  }

  /** Verify is one lock region, or two if the token is authentic: what holds of
      every run holds of the caches that it goes by. */
  lemma VerifyIsRegions(c: Cache, a: Access, sampled: int)
    ensures var d := After(c, KeyCheck(a.now, a.keyFetch, a.keyDone));
            VerifyStep(c, a).0 ==
            if Authentic(c, a)
            then After(d, RevocationCheck(ParsedUnder(c, a).jti, a.later, a.listFetch, sampled, a.listDone)) else d
  {
  }

  // --------------------------------------------------------------- denylist

  /** A fetch takes at most `limit` and answers with a list that was published
      at some instant while it ran. */
  ghost predicate FaithfulFetches(cs: seq<Cache>, es: seq<Event>, published: int -> set<string>, limit: int) {
    |cs| == |es| + 1 &&
    forall i ::
      0 <= i < |es| && es[i].RevocationCheck? && DenylistFetched(cs[i], es[i].now) && es[i].fetchList.Some? ==>
      && es[i].now <= es[i].sampled <= es[i].done <= es[i].now + limit
      && es[i].fetchList.value == published(es[i].sampled)
  }

  /** The cached denylist was published at some instant not long before it expires. */
  ghost predicate Dated(c: Cache, published: int -> set<string>, limit: int, upTo: int) {
    c.revokedExp == 0 ||
    exists at :: c.revokedExp - REVOKED_CACHE_TTL - limit <= at <= upTo && c.revoked == published(at)
  }

  lemma {:induction false} DenylistIsDated(cs: seq<Cache>, es: seq<Event>, published: int -> set<string>, limit: int,
                                           n: nat, upTo: int)
    requires Run(cs, es) && FaithfulFetches(cs, es, published, limit)
    requires n <= |es| && forall i :: 0 <= i < n ==> es[i].done <= upTo
    ensures Dated(cs[n], published, limit, upTo)
    ensures cs[n].revokedExp >= 0
  {
    if n > 0 {
      DenylistIsDated(cs, es, published, limit, n - 1, upTo);
      var c, e := cs[n - 1], es[n - 1];
      assert cs[n] == After(c, e) && 0 < e.now <= e.done;
      if e.RevocationCheck? && DenylistFetched(c, e.now) && e.fetchList.Some? {
        assert cs[n].revokedExp - REVOKED_CACHE_TTL - limit <= e.sampled <= upTo;
      } else {
        assert cs[n].revokedExp == c.revokedExp && cs[n].revoked == c.revoked;
      }
    }
  }

  /** If the authorization server publishes jti as revoked throughout [p, q],
      no revocation check that runs within [p + 2s + limit, q] clears it, in
      any run: a denylist too old to show it has expired by then, and when it
      cannot be refreshed the check fails. */
  lemma RevokedTokenIsRefused(cs: seq<Cache>, es: seq<Event>, published: int -> set<string>, limit: int,
                              jti: string, p: int, q: int, n: nat)
    requires Run(cs, es) && FaithfulFetches(cs, es, published, limit)
    requires forall t :: p <= t <= q ==> jti in published(t)
    requires n < |es| && es[n].RevocationCheck? && es[n].jti == jti
    requires p + REVOKED_CACHE_TTL + limit <= es[n].now && es[n].done <= q && 0 <= limit
    ensures RevokedStep(cs[n], jti, es[n].now, es[n].fetchList, es[n].done).1 != Some(false)
  {
    var e := es[n];
    DenylistIsDated(cs, es, published, limit, n, e.now);
    assert 0 < e.now <= e.done;
    if !DenylistFetched(cs[n], e.now) {
      var at :| cs[n].revokedExp - REVOKED_CACHE_TTL - limit <= at <= e.now && cs[n].revoked == published(at);
      assert jti in published(at);
    } else if e.fetchList.Some? {
      assert jti in published(e.sampled);
    }
  }

  /** So a revoked token does not get past Verify: if its denylist check is the
      n-th region of a run and falls into that time, Verify refuses it. */
  lemma RevokedTokenDoesNotPass(cs: seq<Cache>, es: seq<Event>, published: int -> set<string>, limit: int,
                                c: Cache, a: Access, p: int, q: int, n: nat)
    requires Run(cs, es) && FaithfulFetches(cs, es, published, limit) && n < |es| && Authentic(c, a)
    requires cs[n] == After(c, KeyCheck(a.now, a.keyFetch, a.keyDone))
    requires es[n].RevocationCheck?
             && es[n] == RevocationCheck(ParsedUnder(c, a).jti, a.later, a.listFetch, es[n].sampled, a.listDone)
    requires forall t :: p <= t <= q ==> es[n].jti in published(t)
    requires p + REVOKED_CACHE_TTL + limit <= es[n].now && es[n].done <= q && 0 <= limit
    ensures VerifyStep(c, a).1.Err?
  {
    RevokedTokenIsRefused(cs, es, published, limit, es[n].jti, p, q, n);
  }

  /** And no other token is refused for it: one that was not published as revoked
      at any time from 2s + limit before the check until its end is cleared, if
      the denylist that the check needs can be had. */
  lemma UnrevokedTokenIsCleared(cs: seq<Cache>, es: seq<Event>, published: int -> set<string>, limit: int,
                                jti: string, n: nat)
    requires Run(cs, es) && FaithfulFetches(cs, es, published, limit) && 0 <= limit
    requires n < |es| && es[n].RevocationCheck? && es[n].jti == jti
    requires forall t :: es[n].now - REVOKED_CACHE_TTL - limit <= t <= es[n].done ==> jti !in published(t)
    requires DenylistFetched(cs[n], es[n].now) ==> es[n].fetchList.Some?
    ensures RevokedStep(cs[n], jti, es[n].now, es[n].fetchList, es[n].done).1 == Some(false)
  {
    var e := es[n];
    DenylistIsDated(cs, es, published, limit, n, e.now);
    assert 0 < e.now <= e.done;
    if DenylistFetched(cs[n], e.now) {
      assert jti !in published(e.sampled);
    } else {
      var at :| cs[n].revokedExp - REVOKED_CACHE_TTL - limit <= at <= e.now && cs[n].revoked == published(at);
      assert jti !in published(at);
    }
  }

  /** The bound is exact: one tick earlier a check may still clear a token that
      has been published as revoked since p. */
  lemma RefusalBoundIsTight(jti: string, p: int, limit: int)
    returns (cs: seq<Cache>, es: seq<Event>, published: int -> set<string>)
    requires 2 <= p && 0 <= limit
    ensures Run(cs, es) && FaithfulFetches(cs, es, published, limit)
    ensures forall t :: p <= t ==> jti in published(t)
    ensures |es| == 2 && es[1].RevocationCheck? && es[1].jti == jti && es[1].now == p + REVOKED_CACHE_TTL + limit - 1
    ensures RevokedStep(cs[1], jti, es[1].now, es[1].fetchList, es[1].done).1 == Some(false)
  {
    published := t => if t < p then {} else {jti};
    var last := p + REVOKED_CACHE_TTL + limit - 1;
    var fetch := RevocationCheck(jti, p - 1, Some({}), p - 1, p - 1 + limit);
    var check := RevocationCheck(jti, last, None, last, last);
    es := [fetch, check];
    var c1 := After(EMPTY_CACHE, fetch);
    cs := [EMPTY_CACHE, c1, After(c1, check)];
    assert c1.revoked == {} && c1.revokedExp == last;
  }

  // ---------------------------------------------------------------- key set

  predicate RefetchedKeys(c: Cache, e: Event) {
    e.KeyCheck? && KeysFetched(c, e.now) && e.fetchKeys.Some?
  }

  /** The last of the first n events that fetched a key set. */
  ghost predicate IsLastFetch(cs: seq<Cache>, es: seq<Event>, n: nat, k: nat)
    requires n <= |es| && |cs| == |es| + 1
  {
    k < n && RefetchedKeys(cs[k], es[k]) && forall m :: k < m < n ==> !RefetchedKeys(cs[m], es[m])
  }

  /** Before any fetch has succeeded the cache is empty; after that it holds
      the most recent one, dated by when that one completed. */
  lemma {:induction false} KeysAreTheLastFetched(cs: seq<Cache>, es: seq<Event>, n: nat) returns (k: nat)
    requires Run(cs, es) && n <= |es|
    ensures cs[n].keys.None? <==> forall m :: 0 <= m < n ==> !RefetchedKeys(cs[m], es[m])
    ensures cs[n].keys.Some? ==>
              && IsLastFetch(cs, es, n, k)
              && cs[n].keys == es[k].fetchKeys && cs[n].keysExp == es[k].done + JWKS_CACHE_TTL
  {
    if n == 0 {
      k := 0;
    } else {
      k := KeysAreTheLastFetched(cs, es, n - 1);
      assert cs[n] == After(cs[n - 1], es[n - 1]);
      if RefetchedKeys(cs[n - 1], es[n - 1]) {
        k := n - 1;
      }
    }
  }

  /** keySet fails only while no fetch has ever succeeded. Otherwise it hands
      out the most recent successful fetch, this call's own included; and that
      one completed within the last 60 seconds, unless this very call tried to
      refetch and failed. */
  lemma KeySetIsAvailable(cs: seq<Cache>, es: seq<Event>, n: nat)
    requires Run(cs, es) && n < |es| && es[n].KeyCheck?
    ensures var keys := KeyStep(cs[n], es[n].now, es[n].fetchKeys, es[n].done).1;
            && (keys.None? <==> forall m :: 0 <= m <= n ==> !RefetchedKeys(cs[m], es[m]))
            && (keys.Some? ==> exists k: nat :: IsLastFetch(cs, es, n + 1, k) && keys == es[k].fetchKeys
                                           && (es[n].now < es[k].done + JWKS_CACHE_TTL
                                               || (KeysFetched(cs[n], es[n].now) && es[n].fetchKeys.None?)))
  {
    var k := KeysAreTheLastFetched(cs, es, n + 1);
    var e := es[n];
    assert cs[n + 1] == After(cs[n], e) && 0 < e.now <= e.done;
    var keys := KeyStep(cs[n], e.now, e.fetchKeys, e.done).1;
    assert keys == cs[n + 1].keys;
    assert (forall m :: 0 <= m <= n ==> !RefetchedKeys(cs[m], es[m])) <==>
           (forall m :: 0 <= m < n + 1 ==> !RefetchedKeys(cs[m], es[m]));
    if keys.Some? {
      assert IsLastFetch(cs, es, n + 1, k);
    }
  }
}
