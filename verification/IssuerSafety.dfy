/** What holds over every run of the issuer, whatever the interleaving. */
module IssuerSafety {
  import opened Common
  import opened StatusBits
  import opened StoreSpec
  import opened IssuerProtocol

  /** The served token, by whichever of the two lock regions served it. */
  predicate Serves(a: Action) {
    a.CacheHit? || a.BuildToken?
  }

  // ------------------------------------------------------------ single calls

  predicate OtherThan(a: Action, t: ThreadId) {
    a.Tick? || a.t != t
  }

  /** Thread t takes no step between j and k. */
  predicate Rests(acts: seq<Action>, t: ThreadId, j: nat, k: nat)
    requires k <= |acts|
  {
    forall m {:trigger acts[m]} :: j < m < k ==> OtherThan(acts[m], t)
  }

  // -------------------------------------------------------------- revocation

  /** No later list can show idx as anything but INVALID: not the cached one,
      and not one being built from an older snapshot, for there is none. */
  ghost predicate RevokedEverywhere(s: State, idx: int) {
    && 0 <= idx && ShowsInvalid(s, idx)
    && (s.token.Some? ==> Unpack(s.token.value, idx) == INVALID)
    && (forall t :: At(s, t).Snapshot? ==> StatusAt(At(s, t).entries, idx) == INVALID)
  }

  lemma RevokedEverywhereStep(s: State, a: Action, s': State, idx: int)
    requires Inv(s) && Next(s, a, s') && RevokedEverywhere(s, idx)
    ensures RevokedEverywhere(s', idx)
    ensures Serves(a) ==> At(s', a.t).Served? && Unpack(At(s', a.t).token, idx) == INVALID
  {
    StepGrowsAlloc(s, a, s');
    if a.BuildToken? {
      ListShowsEntries(At(s, a.t).entries, a.size, idx);
    }
    forall t | At(s', t).Snapshot?
      ensures StatusAt(At(s', t).entries, idx) == INVALID
    {
      SnapshotOrigin(s, a, s', t);
    }
  }

  lemma {:induction false} RevokedEverywhereFrom(ss: seq<State>, acts: seq<Action>, i: nat, j: nat, idx: int)
    requires Run(ss, acts) && i <= j < |ss|
    requires RevokedEverywhere(ss[i], idx)
    ensures RevokedEverywhere(ss[j], idx)
  {
    if i < j {
      RevokedEverywhereFrom(ss, acts, i, j - 1, idx);
      RunKeepsInv(ss, acts, j - 1);
      RevokedEverywhereStep(ss[j - 1], acts[j - 1], ss[j], idx);
    }
  }

  /** Once RevokeCredential(r) has returned success (step i), every
      GetStatusListToken that hands out a list later (step j) hands out one
      that reads INVALID at the index r owns. */
  lemma RevocationIsVisible(ss: seq<State>, acts: seq<Action>, i: nat, j: nat)
    requires Run(ss, acts) && i < j < |acts|
    requires acts[i].ClearCache? && Serves(acts[j])
    ensures At(ss[i + 1], acts[i].t).Revoked? && At(ss[j + 1], acts[j].t).Served?
    ensures var r := At(ss[i + 1], acts[i].t).rec;
            && r in ss[j + 1].alloc.byRec && 0 <= ss[j + 1].alloc.byRec[r]
            && Unpack(At(ss[j + 1], acts[j].t).token, ss[j + 1].alloc.byRec[r]) == INVALID
  {
    var s, t, s' := ss[i], acts[i].t, ss[i + 1];
    RunKeepsInv(ss, acts, i);
    assert Next(s, acts[i], s') && CallOk(s, s.calls[t]);
    var idx := At(s, t).idx;
    forall u
      ensures !At(s', u).Snapshot?
    {
      NoSnapshotAfterClear(s, acts[i], s', u);
    }
    assert RevokedEverywhere(s', idx);
    RevokedEverywhereFrom(ss, acts, i + 1, j, idx);
    RunKeepsInv(ss, acts, j);
    RevokedEverywhereStep(ss[j], acts[j], ss[j + 1], idx);
    RunGrows(ss, acts, i, j + 1);
  }

  // ----------------------------------------------------------- what only grows

  lemma {:induction false} RunGrows(ss: seq<State>, acts: seq<Action>, i: nat, j: nat)
    requires Run(ss, acts) && i <= j < |ss|
    ensures Grows(ss[i], ss[j])
  {
    if i < j {
      RunGrows(ss, acts, i, j - 1);
      RunKeepsInv(ss, acts, j - 1);
      StepGrows(ss[j - 1], acts[j - 1], ss[j]);
      GrowsTransitively(ss[i], ss[j - 1], ss[j]);
    }
  }

  lemma GrowsTransitively(a: State, b: State, c: State)
    requires Grows(a, b) && Grows(b, c)
    ensures Grows(a, c)
  {
    forall r | r in a.records.byId
      ensures r in c.records.byId && RecordGrows(a.records.byId[r], c.records.byId[r])
    {
      assert RecordGrows(a.records.byId[r], b.records.byId[r]) && RecordGrows(b.records.byId[r], c.records.byId[r]);
    }
  }

  /** Revocation is permanent: whatever is INVALID at one point of a run is
      INVALID at every later one. */
  lemma RevocationIsPermanent(ss: seq<State>, acts: seq<Action>, i: nat, j: nat, idx: int)
    requires Run(ss, acts) && i <= j < |ss|
    requires ShowsInvalid(ss[i], idx)
    ensures ShowsInvalid(ss[j], idx)
  {
    RunGrows(ss, acts, i, j);
  }

  /** Any two credentials ever issued, at any two points of a run and in either
      format, carry the same index exactly when they are for the same record.
      So revoking a record reaches all its credentials and no other's. */
  lemma CredentialsShareIdxPerRecord(ss: seq<State>, acts: seq<Action>, i: nat, t: ThreadId, j: nat, u: ThreadId)
    requires Run(ss, acts) && i < |ss| && j < |ss|
    requires At(ss[i], t).Issued? && At(ss[j], u).Issued?
    ensures At(ss[i], t).cred.rec == At(ss[j], u).cred.rec <==> At(ss[i], t).cred.idx == At(ss[j], u).cred.idx
  {
    RunKeepsInv(ss, acts, i);
    RunKeepsInv(ss, acts, j);
    assert CallOk(ss[i], ss[i].calls[t]) && CallOk(ss[j], ss[j].calls[u]);
    if i <= j {
      RunGrows(ss, acts, i, j);
    } else {
      RunGrows(ss, acts, j, i);
    }
  }

  lemma OwnsThroughout(ss: seq<State>, acts: seq<Action>, i: nat, j: nat, r: RecordId, idx: int)
    requires Run(ss, acts) && i < |ss| && j < |ss| && Owns(ss[i], r, idx) && r in ss[j].alloc.byRec
    ensures Owns(ss[j], r, idx)
  {
    if i <= j {
      RunGrows(ss, acts, i, j);
    } else {
      RunGrows(ss, acts, j, i);
    }
  }

  /** Revocation reaches every credential of the record: whenever the credential
      was issued (point n), before or after its record's revocation returned
      success (step i), every list handed out later (step j) reads INVALID at the
      index the credential carries. */
  lemma RevokedCredentialIsListed(ss: seq<State>, acts: seq<Action>, n: nat, u: ThreadId, i: nat, j: nat)
    requires Run(ss, acts) && n < |ss| && i < j < |acts|
    requires acts[i].ClearCache? && Serves(acts[j])
    requires At(ss[n], u).Issued? && At(ss[i + 1], acts[i].t) == Revoked(At(ss[n], u).cred.rec)
    ensures At(ss[j + 1], acts[j].t).Served?
    ensures var idx := At(ss[n], u).cred.idx;
            0 <= idx && Unpack(At(ss[j + 1], acts[j].t).token, idx) == INVALID
  {
    RevocationIsVisible(ss, acts, i, j);
    RunKeepsInv(ss, acts, n);
    assert CallOk(ss[n], ss[n].calls[u]);
    var cred := At(ss[n], u).cred;
    OwnsThroughout(ss, acts, n, j + 1, cred.rec, cred.idx);
  }

  // --------------------------------------------------------- issued credentials

  /** Steps of other calls leave a call where it is. */
  lemma {:induction false} CallStandsStill(ss: seq<State>, acts: seq<Action>, j: nat, k: nat, u: ThreadId)
    requires Run(ss, acts) && j <= k < |ss|
    requires forall m {:trigger acts[m]} :: j <= m < k ==> OtherThan(acts[m], u)
    ensures At(ss[k], u) == At(ss[j], u)
  {
    if j < k {
      CallStandsStill(ss, acts, j, k - 1, u);
      assert Next(ss[k - 1], acts[k - 1], ss[k]);
    }
  }

  /** End to end: a credential that has been issued (point i) carries an index
      its record owns, and a list whose entries are read later (step j) and
      then built (step k) covers that index and shows the status the store
      held when the entries were read. */
  lemma IssuedCredentialIsListed(ss: seq<State>, acts: seq<Action>, i: nat, t: ThreadId, j: nat, k: nat)
    requires Run(ss, acts) && i <= j < k < |acts|
    requires At(ss[i], t).Issued?
    requires acts[j].ReadEntries? && acts[k].BuildToken? && acts[k].t == acts[j].t
    requires Rests(acts, acts[j].t, j, k)
    ensures var cred, token := At(ss[i], t).cred, At(ss[k + 1], acts[k].t).token;
            && Owns(ss[i], cred.rec, cred.idx) && Owns(ss[j], cred.rec, cred.idx)
            && 0 <= cred.idx && cred.idx / 4 < |token|
            && cred.idx in ss[j].alloc.byIdx && Unpack(token, cred.idx) == ss[j].alloc.byIdx[cred.idx]
  {
    var cred := At(ss[i], t).cred;
    IssuedIsOwned(ss, acts, i, t, j);
    var entries := ss[j].alloc.byIdx;
    assert Next(ss[j], acts[j], ss[j + 1]) && Next(ss[k], acts[k], ss[k + 1]);
    CallStandsStill(ss, acts, j + 1, k, acts[j].t);
    assert At(ss[k], acts[k].t) == Snapshot(entries);
    ListShowsEntries(entries, acts[k].size, cred.idx);
  }

  /** From its issuance on, a credential's index belongs to its record and has a
      status, which is VALID or INVALID. */
  lemma IssuedIsOwned(ss: seq<State>, acts: seq<Action>, i: nat, t: ThreadId, j: nat)
    requires Run(ss, acts) && i <= j < |ss| && At(ss[i], t).Issued?
    ensures var cred := At(ss[i], t).cred;
            && Owns(ss[i], cred.rec, cred.idx) && Owns(ss[j], cred.rec, cred.idx)
            && 0 <= cred.idx && cred.idx in ss[j].alloc.byIdx
            && StatusAt(ss[j].alloc.byIdx, cred.idx) == ss[j].alloc.byIdx[cred.idx]
  {
    RunKeepsInv(ss, acts, i);
    RunKeepsInv(ss, acts, j);
    RunGrows(ss, acts, i, j);
    assert CallOk(ss[i], ss[i].calls[t]);
    assert VALID & 3 == VALID && INVALID & 3 == INVALID;
  }

  // ------------------------------------------------------------ revoking

  predicate RevokeStep(a: Action) {
    a.CheckRecord? || a.LookUpEntry? || a.SetInvalid? || a.ClearCache?
  }

  predicate RevokingWithoutFailure(s: State, t: ThreadId, r: RecordId) {
    && IsIssued(s, r) && r in s.alloc.byRec
    && match At(s, t) {
         case RevokeBegun(q) => q == r
         case RevokeChecked(q) => q == r
         case EntryFound(q) => q == r
         case StatusSet(q, idx) => q == r && idx == s.alloc.byRec[r]
         case Revoked(q) => q == r && ShowsInvalid(s, s.alloc.byRec[r])
         case _ => false
       }
  }

  lemma OwnRevokingStep(s: State, a: Action, s': State, r: RecordId)
    requires Inv(s) && Next(s, a, s') && RevokeStep(a) && RevokingWithoutFailure(s, a.t, r)
    ensures RevokingWithoutFailure(s', a.t, r)
  {
    assert CallOk(s, s.calls[a.t]);
  }

  lemma RevokingUndisturbed(s: State, s': State, t: ThreadId, r: RecordId)
    requires Grows(s, s') && At(s', t) == At(s, t) && RevokingWithoutFailure(s, t, r)
    ensures RevokingWithoutFailure(s', t, r)
  {
    assert RecordGrows(s.records.byId[r], s'.records.byId[r]);
  }

  lemma RevokingStep(s: State, a: Action, s': State, t: ThreadId, r: RecordId)
    requires Inv(s) && Next(s, a, s') && Grows(s, s')
    requires RevokingWithoutFailure(s, t, r)
    requires a.Tick? || a.t != t || RevokeStep(a)
    ensures RevokingWithoutFailure(s', t, r)
  {
    if a.Tick? || a.t != t {
      UntouchedCalls(s, a, s', t);
      RevokingUndisturbed(s, s', t, r);
    } else {
      OwnRevokingStep(s, a, s', r);
    }
  }

  lemma {:induction false} StillRevoking(ss: seq<State>, acts: seq<Action>, k: nat, j: nat, t: ThreadId, r: RecordId)
    requires Run(ss, acts) && k <= j < |ss| && RevokingWithoutFailure(ss[k], t, r)
    requires forall m {:trigger acts[m]} :: k <= m < j ==> OtherThan(acts[m], t) || RevokeStep(acts[m])
    ensures RevokingWithoutFailure(ss[j], t, r)
  {
    if k < j {
      StillRevoking(ss, acts, k, j - 1, t, r);
      RunKeepsInv(ss, acts, j - 1);
      StepGrows(ss[j - 1], acts[j - 1], ss[j]);
      RevokingStep(ss[j - 1], acts[j - 1], ss[j], t, r);
    }
  }

  /** A record marked issued has a status entry, so revoking it cannot fail:
      a RevokeCredential call on it that meets no store error is never
      refused, whatever runs beside it, and succeeds with INVALID in place. */
  lemma RevokeOfIssuedSucceeds(ss: seq<State>, acts: seq<Action>, i: nat, j: nat, r: RecordId)
    requires Run(ss, acts) && i < j < |ss|
    requires acts[i].RevokeBegin? && acts[i].rec == r && IsIssued(ss[i], r)
    requires forall m {:trigger acts[m]} :: i < m < j ==> OtherThan(acts[m], acts[i].t) || RevokeStep(acts[m])
    ensures RevokingWithoutFailure(ss[j], acts[i].t, r)
  {
    RunKeepsInv(ss, acts, i);
    assert Next(ss[i], acts[i], ss[i + 1]);
    StillRevoking(ss, acts, i + 1, j, acts[i].t, r);
  }

  lemma SetInvalidAgain(s: State, r: RecordId)
    requires r in s.alloc.byRec && ShowsInvalid(s, s.alloc.byRec[r])
    ensures SetStatus(s.alloc, r, INVALID) == (s.alloc, Some(s.alloc.byRec[r]))
  {
    var idx := s.alloc.byRec[r];
    assert s.alloc.byIdx[idx := INVALID] == s.alloc.byIdx;
  }

  lemma RevokeAgainStep(s: State, a: Action, s': State, r: RecordId)
    requires StoreOk(s) && Next(s, a, s') && RevokeStep(a)
    requires At(s, a.t).RevokeBegun? || At(s, a.t).RevokeChecked? || At(s, a.t).EntryFound? || At(s, a.t).StatusSet?
    requires At(s, a.t).rec == r && IsIssued(s, r) && r in s.alloc.byRec && ShowsInvalid(s, s.alloc.byRec[r])
    ensures !At(s', a.t).Failed? && s'.alloc == s.alloc && s'.records == s.records
    ensures s'.token == if a.ClearCache? then None else s.token
  {
    SetInvalidAgain(s, r);
  }

  lemma RevokedStaysSo(ss: seq<State>, acts: seq<Action>, i: nat, t: ThreadId, j: nat)
    requires Run(ss, acts) && i <= j < |ss| && At(ss[i], t).StatusSet?
    ensures var r := At(ss[i], t).rec;
            IsIssued(ss[j], r) && r in ss[j].alloc.byRec && ShowsInvalid(ss[j], ss[j].alloc.byRec[r])
  {
    RunKeepsInv(ss, acts, i);
    RunGrows(ss, acts, i, j);
    assert CallOk(ss[i], ss[i].calls[t]);
    var r := At(ss[i], t).rec;
    assert RecordGrows(ss[i].records.byId[r], ss[j].records.byId[r]);
  }

  /** Revoking again: after one RevokeCredential of a record has returned
      success (step i), no step of another one (step j) is refused or changes a
      record or an entry. All it does is drop the list cached since. */
  lemma RevokeIsIdempotent(ss: seq<State>, acts: seq<Action>, i: nat, j: nat)
    requires Run(ss, acts) && i < j < |acts|
    requires acts[i].ClearCache? && RevokeStep(acts[j])
    requires At(ss[j], acts[j].t).RevokeBegun? || At(ss[j], acts[j].t).RevokeChecked?
             || At(ss[j], acts[j].t).EntryFound? || At(ss[j], acts[j].t).StatusSet?
    requires At(ss[i], acts[i].t).StatusSet? && At(ss[j], acts[j].t).rec == At(ss[i], acts[i].t).rec
    ensures !At(ss[j + 1], acts[j].t).Failed?
    ensures ss[j + 1].alloc == ss[j].alloc && ss[j + 1].records == ss[j].records
    ensures ss[j + 1].token == if acts[j].ClearCache? then None else ss[j].token
  {
    RevokedStaysSo(ss, acts, i, acts[i].t, j);
    RunKeepsInv(ss, acts, j);
    RevokeAgainStep(ss[j], acts[j], ss[j + 1], At(ss[i], acts[i].t).rec);
  }

  // ------------------------------------------------------ issuer_state lookup

  /** At every point of every run the issuer_state index answers as the scan
      the Postgres query makes. */
  lemma LookupIsScan(ss: seq<State>, acts: seq<Action>, i: nat, st: string)
    requires Run(ss, acts) && i < |ss| && st != ""
    ensures match FindByIssuerState(ss[i].records, st)
            case Some(rec) => OnlyRowWithState(ss[i].records, st, rec)
            case None => forall id :: id in ss[i].records.byId ==> ss[i].records.byId[id].issuerState != st
  {
    RunKeepsInv(ss, acts, i);
    IndexAgreesWithScan(ss[i].records, st);
  }

  /** A record whose trigger has returned is found by its issuer_state ever after. */
  lemma TriggeredStaysReachable(ss: seq<State>, acts: seq<Action>, i: nat, t: ThreadId, j: nat)
    requires Run(ss, acts) && i <= j < |ss|
    requires At(ss[i], t).Triggered?
    ensures var Triggered(r, st) := At(ss[i], t);
            r in ss[j].records.byId && FindByIssuerState(ss[j].records, st) == Some(ss[j].records.byId[r])
  {
    RunKeepsInv(ss, acts, i);
    RunKeepsInv(ss, acts, j);
    RunGrows(ss, acts, i, j);
    assert CallOk(ss[i], ss[i].calls[t]);
    var r := At(ss[i], t).rec;
    assert RecordGrows(ss[i].records.byId[r], ss[j].records.byId[r]);
  }
}
