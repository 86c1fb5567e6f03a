/** DPoP proofs: the bounded jti replay set and the order in which a proof is
    checked (RFC 9449). */
module DPoP {
  import opened Common

  const MAX_SIZE := 10_000
  const EVICT_COUNT := 1_000

  // ------------------------------------------------------------- replay set

  /** One Accept: the jti offered, the entries evicted, whether it was new. */
  datatype Event = Event(jti: string, victims: set<string>, ok: bool)

  ghost predicate Accepts(s: set<string>, e: Event, s': set<string>) {
    if e.jti in s then
      !e.ok && e.victims == {} && s' == s
    else if |s| < MAX_SIZE then
      e.ok && e.victims == {} && s' == s + {e.jti}
    else
      e.ok && e.victims <= s && |e.victims| == EVICT_COUNT && s' == s - e.victims + {e.jti}
  }

  class JtiStore {
    var seen: set<string>

    constructor ()
      ensures seen == {}
    {
      seen := {};
    }

    /** Reports whether jti is new, and registers it if so. The loop deletes
        entries in whatever order the map yields them. */
    method Accept(jti: string) returns (ok: bool, ghost victims: set<string>)
      modifies this
      ensures Accepts(old(seen), Event(jti, victims, ok), seen)
    {
      victims := {};
      if jti in seen {
        return false, {};
      }
      if |seen| >= MAX_SIZE {
        var evicted := 0;
        while seen != {}
          invariant victims <= old(seen) && seen == old(seen) - victims
          invariant |victims| == evicted < EVICT_COUNT && |seen| + evicted == |old(seen)|
          decreases |seen|
        {
          var k :| k in seen;
          seen := seen - {k};
          victims := victims + {k};
          evicted := evicted + 1;
          if evicted >= EVICT_COUNT {
            break;
          }
        }
      }
      seen := seen + {jti};
      return true, victims;
    }
  }

  ghost predicate Run(ss: seq<set<string>>, es: seq<Event>) {
    && |ss| == |es| + 1 && ss[0] == {}
    && forall i :: 0 <= i < |es| ==> Accepts(ss[i], es[i], ss[i + 1])
  }

  /** How many of the first n offers were accepted. */
  function Accepted(es: seq<Event>, n: nat): nat
    requires n <= |es|
  {
    if n == 0 then 0 else Accepted(es, n - 1) + if es[n - 1].ok then 1 else 0
  }

  /** How many of the first n offers evicted a batch. */
  function Evictions(es: seq<Event>, n: nat): nat
    requires n <= |es|
  {
    if n == 0 then 0 else Evictions(es, n - 1) + if es[n - 1].victims != {} then 1 else 0
  }

  lemma SizeStep(s: set<string>, e: Event, s': set<string>)
    requires Accepts(s, e, s')
    ensures |s'| == |s| + (if e.ok then 1 else 0) - (if e.victims != {} then EVICT_COUNT else 0)
    ensures e.victims != {} ==> |s| >= MAX_SIZE
    ensures e.ok && e.victims == {} ==> |s| < MAX_SIZE
  {
    if e.victims != {} {
      assert |s - e.victims| == |s| - |e.victims|;
    }
  }

  /** The size of the set is accounted for exactly: accepted entries less whole
      batches, never above the cap, never below 9001 once a batch has gone. */
  lemma {:induction false} SizeIsConserved(ss: seq<set<string>>, es: seq<Event>, n: nat)
    requires Run(ss, es) && n <= |es|
    ensures |ss[n]| + EVICT_COUNT * Evictions(es, n) == Accepted(es, n)
    ensures |ss[n]| <= MAX_SIZE
    ensures Evictions(es, n) > 0 ==> |ss[n]| > MAX_SIZE - EVICT_COUNT
  {
    if n > 0 {
      SizeIsConserved(ss, es, n - 1);
      SizeStep(ss[n - 1], es[n - 1], ss[n]);
    }
  }

  /** So the number of evictions is a function of the number of accepts alone. */
  lemma EvictionsFromAccepts(ss: seq<set<string>>, es: seq<Event>, n: nat)
    requires Run(ss, es) && n <= |es|
    ensures var a := Accepted(es, n);
            Evictions(es, n) == if a <= 10_000 then 0 else (a - 9_001) / 1_000
  {
    SizeIsConserved(ss, es, n);
  }

  /** An entry leaves the set only as a victim. */
  lemma {:induction false} KeptUnlessEvicted(ss: seq<set<string>>, es: seq<Event>, i: nat, j: nat, jti: string)
    requires Run(ss, es) && i <= j <= |es|
    requires jti in ss[i]
    ensures jti in ss[j] || exists k :: i <= k < j && jti in es[k].victims
  {
    if i < j {
      KeptUnlessEvicted(ss, es, i, j - 1, jti);
      assert Accepts(ss[j - 1], es[j - 1], ss[j]);
    }
  }

  lemma {:induction false} AcceptedGrows(es: seq<Event>, i: nat, j: nat)
    requires i <= j <= |es|
    ensures Accepted(es, i) <= Accepted(es, j)
  {
    if i < j {
      AcceptedGrows(es, i, j - 1);
    }
  }

  lemma OnlyFullSetsEvict(s: set<string>, e: Event, s': set<string>)
    requires Accepts(s, e, s') && e.victims != {}
    ensures e.ok && |s| >= MAX_SIZE
  {
  }

  /** A batch is evicted only by an accept that finds 10,000 before it. */
  lemma EvictionIsLate(ss: seq<set<string>>, es: seq<Event>, k: nat, j: nat)
    requires Run(ss, es) && k < j <= |es|
    requires es[k].victims != {}
    ensures Accepted(es, j) > MAX_SIZE
  {
    OnlyFullSetsEvict(ss[k], es[k], ss[k + 1]);
    assert Accepted(es, k) >= MAX_SIZE by {
      SizeIsConserved(ss, es, k);
    }
    assert Accepted(es, k + 1) == Accepted(es, k) + 1;
    AcceptedGrows(es, k + 1, j);
  }

  /** A replay gets through only when its jti was evicted since, and that takes
      more than 10,000 accepts: whatever victims are chosen, the first 10,001
      accepted proofs have pairwise distinct jtis. */
  lemma ReplayNeedsEviction(ss: seq<set<string>>, es: seq<Event>, i: nat, j: nat)
    requires Run(ss, es) && i < j < |es|
    requires es[i].ok && es[j].ok && es[i].jti == es[j].jti
    ensures exists k :: i < k < j && es[i].jti in es[k].victims
    ensures Accepted(es, j) > MAX_SIZE
  {
    var jti := es[i].jti;
    assert Accepts(ss[i], es[i], ss[i + 1]);
    assert Accepts(ss[j], es[j], ss[j + 1]);
    assert jti in ss[i + 1] && jti !in ss[j];
    KeptUnlessEvicted(ss, es, i + 1, j, jti);
    var k :| i + 1 <= k < j && jti in es[k].victims;
    EvictionIsLate(ss, es, k, j);
  }

  lemma {:induction false} AbsentUntilAccepted(ss: seq<set<string>>, es: seq<Event>, i: nat, j: nat, jti: string)
    requires Run(ss, es) && i <= j <= |es| && jti !in ss[i]
    requires forall m :: i <= m < j ==> !(es[m].ok && es[m].jti == jti)
    ensures jti !in ss[j]
  {
    if i < j {
      AbsentUntilAccepted(ss, es, i, j - 1, jti);
      assert Accepts(ss[j - 1], es[j - 1], ss[j]);
    }
  }

  /** And the eviction is all it takes: a jti that was accepted (offer i), and not
      since, is accepted again (offer j) exactly when it was evicted in between. */
  lemma ReplayMeansEviction(ss: seq<set<string>>, es: seq<Event>, i: nat, j: nat)
    requires Run(ss, es) && i < j < |es|
    requires es[i].ok && es[j].jti == es[i].jti
    requires forall m :: i < m < j ==> !(es[m].ok && es[m].jti == es[i].jti)
    ensures es[j].ok <==> exists k :: i < k < j && es[i].jti in es[k].victims
  {
    var jti := es[i].jti;
    assert Accepts(ss[i], es[i], ss[i + 1]) && Accepts(ss[j], es[j], ss[j + 1]);
    if es[j].ok {
      ReplayNeedsEviction(ss, es, i, j);
    }
    if k :| i < k < j && jti in es[k].victims {
      assert Accepts(ss[k], es[k], ss[k + 1]);
      AbsentUntilAccepted(ss, es, k + 1, j, jti);
    }
  }

  // ----------------------------------------------------------- proof checks

  const IAT_WINDOW := 5 * 60 * 1_000_000_000

  datatype Jwk = Jwk(hasPrivatePart: bool, thumbprint: Option<string>)

  /** What parsing finds in a DPoP header; signatureOk and htuMatches are the
      verdicts of the JOSE and URL libraries. */
  datatype Proof =
    | Missing
    | Unparsable
    | Parsed(signatures: nat, typ: string, jwk: Option<Jwk>, alg: string, signatureOk: bool,
             htm: seq<byte>, htuMatches: bool, iat: Option<int>, jti: string, ath: string)

  datatype Refusal = Malformed | BadType | NoKey | PrivateKey | BadAlg | BadSignature
                   | HtmMismatch | HtuMismatch | Expired | Replay | AthMismatch

  function Lower(b: byte): byte {
    if 65 <= b <= 90 then b + 32 else b
  }

  predicate EqualFold(a: seq<byte>, b: seq<byte>) {
    |a| == |b| && forall i :: 0 <= i < |a| ==> Lower(a[i]) == Lower(b[i])
  }

  /** Two octets fold alike exactly when they are equal or the two cases of one
      letter. */
  lemma FoldedAlike(a: byte, b: byte)
    ensures Lower(a) == Lower(b) <==>
            || a == b
            || ('A' as int <= a <= 'Z' as int && b - a == 'a' as int - 'A' as int)
            || ('A' as int <= b <= 'Z' as int && a - b == 'a' as int - 'A' as int)
  {
  }

  /** Equality up to the case of ASCII letters. */
  method EqualFoldAscii(a: seq<byte>, b: seq<byte>) returns (same: bool)
    ensures same <==> EqualFold(a, b)
  {
    if |a| != |b| {
      return false;
    }
    var i := 0;
    while i < |a|
      invariant 0 <= i <= |a|
      invariant forall j :: 0 <= j < i ==> Lower(a[j]) == Lower(b[j])
    {
      var ca, cb := a[i], b[i];
      if 65 <= ca <= 90 {
        ca := ca + 32;
      }
      if 65 <= cb <= 90 {
        cb := cb + 32;
      }
      if ca != cb {
        return false;
      }
      i := i + 1;
    }
    return true;
  }

  /** How far the checks of a proof go well: it is a JWS of one signature, it is
      typed, it carries a public key, that key verifies it, and it is bound to
      the request. */
  predicate OneSignature(p: Proof) {
    p.Parsed? && p.signatures == 1
  }

  predicate Typed(p: Proof) {
    OneSignature(p) && p.typ == "dpop+jwt"
  }

  predicate Keyed(p: Proof) {
    Typed(p) && p.jwk.Some? && !p.jwk.value.hasPrivatePart
  }

  predicate Signed(p: Proof) {
    Keyed(p) && p.alg == "ES256" && p.signatureOk
  }

  predicate Bound(p: Proof, htm: seq<byte>) {
    Signed(p) && EqualFold(p.htm, htm) && p.htuMatches
  }

  predicate Recent(iat: int, now: int) {
    -IAT_WINDOW <= now - iat <= IAT_WINDOW
  }

  /** Everything a proof must satisfy before its jti is looked at. */
  predicate WellFormed(p: Proof, htm: seq<byte>, now: int) {
    Bound(p, htm) && p.iat.Some? && Recent(p.iat.value, now)
  }

  /** The first check that p fails, before its jti is looked at. */
  function Fault(p: Proof, htm: seq<byte>, now: int): (f: Option<Refusal>)
    ensures f == None <==> WellFormed(p, htm, now)
    ensures f == Some(Malformed) <==> !OneSignature(p)
    ensures f == Some(BadType) <==> OneSignature(p) && !Typed(p)
    ensures f == Some(NoKey) <==> Typed(p) && p.jwk.None?
    ensures f == Some(PrivateKey) <==> Typed(p) && p.jwk.Some? && !Keyed(p)
    ensures f == Some(BadAlg) <==> Keyed(p) && p.alg != "ES256"
    ensures f == Some(BadSignature) <==> Keyed(p) && p.alg == "ES256" && !Signed(p)
    ensures f == Some(HtmMismatch) <==> Signed(p) && !EqualFold(p.htm, htm)
    ensures f == Some(HtuMismatch) <==> Signed(p) && EqualFold(p.htm, htm) && !Bound(p, htm)
    ensures f == Some(Expired) <==> Bound(p, htm) && !WellFormed(p, htm, now)
    ensures f != Some(Replay) && f != Some(AthMismatch)
  {
    if !p.Parsed? || p.signatures != 1 then Some(Malformed)
    else if p.typ != "dpop+jwt" then Some(BadType)
    else if p.jwk.None? then Some(NoKey)
    else if p.jwk.value.hasPrivatePart then Some(PrivateKey)
    else if p.alg != "ES256" then Some(BadAlg)
    else if !p.signatureOk then Some(BadSignature)
    else if !EqualFold(p.htm, htm) then Some(HtmMismatch)
    else if !p.htuMatches then Some(HtuMismatch)
    else if p.iat.None? || !(-IAT_WINDOW <= now - p.iat.value <= IAT_WINDOW) then Some(Expired)
    else None
  }

  /** A proof spends its jti if it is well-formed and the jti is new. */
  predicate Spends(p: Proof, htm: seq<byte>, now: int, seen: set<string>) {
    WellFormed(p, htm, now) && p.jti != "" && p.jti !in seen
  }

  /** And it is for the access token with this hash, if one is expected. */
  predicate ProofPasses(p: Proof, htm: seq<byte>, ath: string, now: int, seen: set<string>) {
    Spends(p, htm, now, seen) && (ath != "" ==> p.ath == ath)
  }

  ghost predicate SeenAfter(p: Proof, htm: seq<byte>, now: int, seen: set<string>, seen': set<string>) {
    if Spends(p, htm, now, seen) then exists victims :: Accepts(seen, Event(p.jti, victims, true), seen')
    else seen' == seen
  }

  /** What a proof is answered while these jtis are registered. */
  function ProofVerdict(p: Proof, htm: seq<byte>, ath: string, now: int, seen: set<string>): (r: Result<Jwk, Refusal>)
    ensures r.Ok? <==> ProofPasses(p, htm, ath, now, seen)
    ensures r.Ok? ==> p.jwk == Some(r.value)
  {
    match Fault(p, htm, now)
    case Some(f) => Err(f)
    case None =>
      if !Spends(p, htm, now, seen) then Err(Replay)
      else if ath != "" && p.ath != ath then Err(AthMismatch)
      else Ok(p.jwk.value)
  }

  /** Accepts exactly the well-formed proofs with a new jti and the expected
      ath, and reports the first fault of any other. A jti is spent by every
      well-formed proof that carries a new one, a wrong ath included, and by no
      other. */
  method ValidateProof(p: Proof, htm: seq<byte>, ath: string, now: int, jtis: JtiStore)
    returns (r: Result<Jwk, Refusal>)
    modifies jtis
    ensures r == ProofVerdict(p, htm, ath, now, old(jtis.seen))
    ensures r.Ok? <==> ProofPasses(p, htm, ath, now, old(jtis.seen))
    ensures r == Err(Replay) <==> WellFormed(p, htm, now) && (p.jti == "" || p.jti in old(jtis.seen))
    ensures r == Err(AthMismatch) <==> Spends(p, htm, now, old(jtis.seen)) && ath != "" && p.ath != ath
    ensures SeenAfter(p, htm, now, old(jtis.seen), jtis.seen)
    ensures if WellFormed(p, htm, now) then p.jti != "" ==> p.jti in jtis.seen else jtis.seen == old(jtis.seen)
    ensures r.Ok? ==> p.jti in jtis.seen && p.jwk == Some(r.value) && !r.value.hasPrivatePart
  {
    if !p.Parsed? || p.signatures != 1 {
      return Err(Malformed);
    }
    if p.typ != "dpop+jwt" {
      return Err(BadType);
    }
    if p.jwk.None? {
      return Err(NoKey);
    }
    if p.jwk.value.hasPrivatePart {
      return Err(PrivateKey);
    }
    if p.alg != "ES256" {
      return Err(BadAlg);
    }
    if !p.signatureOk {
      return Err(BadSignature);
    }
    var htmOk := EqualFoldAscii(p.htm, htm);
    if !htmOk {
      return Err(HtmMismatch);
    }
    if !p.htuMatches {
      return Err(HtuMismatch);
    }
    if p.iat.None? {
      return Err(Expired);
    }
    var skew := now - p.iat.value;
    if skew > IAT_WINDOW || skew < -IAT_WINDOW {
      return Err(Expired);
    }
    if p.jti == "" {
      return Err(Replay);
    }
    var isNew;
    ghost var victims;
    isNew, victims := jtis.Accept(p.jti);
    if !isNew {
      return Err(Replay);
    }
    if ath != "" && p.ath != ath {
      return Err(AthMismatch);
    }
    return Ok(p.jwk.value);
  }
}
