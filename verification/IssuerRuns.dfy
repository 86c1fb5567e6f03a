/** Runs of the issuer that show how it can go: each of them ends where a claim
    about it fails, or a bound is met. */
module IssuerRuns {
  import opened Common
  import opened StatusBits
  import opened StoreSpec
  import opened IssuerProtocol
  import opened IssuerSafety
  import opened IssuerCache

  // ------------------------------------------------------------ making runs

  /** A run from time start on, with no list built after time bound. */
  ghost predicate Timed(ss: seq<State>, acts: seq<Action>, start: int, bound: int) {
    && Run(ss, acts) && ss[0].now == start
    && forall b :: 0 <= b < |acts| && acts[b].BuildToken? ==> ss[b].now <= bound
  }

  lemma OneMoreStep(ss: seq<State>, acts: seq<Action>, start: int, bound: int, a: Action, s': State)
    requires Timed(ss, acts, start, bound) && Next(ss[|ss| - 1], a, s')
    requires a.BuildToken? ==> ss[|ss| - 1].now <= bound
    ensures Timed(ss + [s'], acts + [a], start, bound)
  {
  }

  /** The record and the offer's state after a trigger; marked says whether the
      mark as offered took effect. */
  function TriggeredState(s: State, t: ThreadId, rec: Record, st: string, marked: bool): State {
    var indexed := UpdateIssuerState(Insert(s.records, rec), rec.id, st, s.now);
    Go(s.(records := if marked then UpdateStatus(indexed, rec.id, OfferCreated, s.now) else indexed,
          triggered := s.triggered + {rec.id}),
       t, Triggered(rec.id, st))
  }

  predicate CanTrigger(s: State, t: ThreadId, rec: Record, st: string) {
    && Idle(s, t) && rec.id !in s.records.byId && rec.status == Pending && rec.issuerState == ""
    && st != "" && st !in s.records.byState
  }

  /** A run can go on with a whole TriggerIssuance call by an idle caller. */
  lemma TriggerRuns(ss: seq<State>, acts: seq<Action>, start: int, bound: int,
                    t: ThreadId, rec: Record, st: string, marked: bool)
    returns (ss': seq<State>, acts': seq<Action>)
    requires Timed(ss, acts, start, bound) && CanTrigger(ss[|ss| - 1], t, rec, st)
    ensures Timed(ss', acts', start, bound)
    ensures ss'[|ss'| - 1] == TriggeredState(ss[|ss| - 1], t, rec, st, marked)
  {
    var s, r := ss[|ss| - 1], rec.id;
    var s1 := Go(s.(records := Insert(s.records, rec)), t, Created(r));
    var s2 := Go(s1.(records := UpdateIssuerState(s1.records, r, st, s.now)), t, Indexed(r, st));
    var s3 := TriggeredState(s, t, rec, st, marked);
    var last := if marked then TriggerFinish(t) else OfferMarkLost(t);
    OneMoreStep(ss, acts, start, bound, TriggerCreate(t, rec), s1);
    ss', acts' := ss + [s1], acts + [TriggerCreate(t, rec)];
    OneMoreStep(ss', acts', start, bound, TriggerIndex(t, st), s2);
    ss', acts' := ss' + [s2], acts' + [TriggerIndex(t, st)];
    OneMoreStep(ss', acts', start, bound, last, s3);
    ss', acts' := ss' + [s3], acts' + [last];
  }

  predicate CanIssue(s: State, t: ThreadId, r: RecordId) {
    Idle(s, t) && r in s.triggered && HasCredentialData(s, r)
  }

  function AllocatedState(s: State, t: ThreadId, r: RecordId): State {
    var (alloc, idx) := Allocate(s.alloc, r);
    Go(s.(alloc := alloc), t, Allocated(r, SdJwtVc, idx))
  }

  lemma AllocationRuns(ss: seq<State>, acts: seq<Action>, start: int, bound: int, t: ThreadId, r: RecordId)
    returns (ss': seq<State>, acts': seq<Action>)
    requires Timed(ss, acts, start, bound) && CanIssue(ss[|ss| - 1], t, r)
    ensures Timed(ss', acts', start, bound) && ss'[|ss'| - 1] == AllocatedState(ss[|ss| - 1], t, r)
  {
    var s := ss[|ss| - 1];
    var s1, s2, s3 := Go(s, t, IssueBegun(r, SdJwtVc)), Go(s, t, RecordFound(r, SdJwtVc)), AllocatedState(s, t, r);
    OneMoreStep(ss, acts, start, bound, IssueBegin(t, r, SdJwtVc), s1);
    ss', acts' := ss + [s1], acts + [IssueBegin(t, r, SdJwtVc)];
    OneMoreStep(ss', acts', start, bound, FindRecord(t), s2);
    ss', acts' := ss' + [s2], acts' + [FindRecord(t)];
    OneMoreStep(ss', acts', start, bound, Action.AllocateIdx(t), s3);
    ss', acts' := ss' + [s3], acts' + [Action.AllocateIdx(t)];
  }

  /** A run can go on with an IssueCredential call whose build fails. All that
      call leaves behind is the allocation. */
  lemma FailedBuildRuns(ss: seq<State>, acts: seq<Action>, start: int, bound: int, t: ThreadId, r: RecordId)
    returns (ss': seq<State>, acts': seq<Action>)
    requires Timed(ss, acts, start, bound) && CanIssue(ss[|ss| - 1], t, r)
    ensures Timed(ss', acts', start, bound)
    ensures var s := ss[|ss| - 1]; ss'[|ss'| - 1] == Go(s.(alloc := Allocate(s.alloc, r).0), t, Failed)
  {
    var s := ss[|ss| - 1];
    var s4 := Go(s.(alloc := Allocate(s.alloc, r).0), t, Failed);
    ss', acts' := AllocationRuns(ss, acts, start, bound, t, r);
    OneMoreStep(ss', acts', start, bound, BuildFault(t), s4);
    ss', acts' := ss' + [s4], acts' + [BuildFault(t)];
  }

  function IssuedState(s: State, t: ThreadId, r: RecordId, marked: bool): State {
    var (alloc, idx) := Allocate(s.alloc, r);
    Go(s.(alloc := alloc,
          records := if marked then UpdateStatus(s.records, r, CredentialIssued, s.now) else s.records),
       t, Issued(Credential(r, idx, SdJwtVc)))
  }

  /** A run can go on with an IssueCredential call that hands its credential out;
      marked says whether its mark as issued took effect. */
  lemma IssueRuns(ss: seq<State>, acts: seq<Action>, start: int, bound: int, t: ThreadId, r: RecordId, marked: bool)
    returns (ss': seq<State>, acts': seq<Action>)
    requires Timed(ss, acts, start, bound) && CanIssue(ss[|ss| - 1], t, r)
    ensures Timed(ss', acts', start, bound) && ss'[|ss'| - 1] == IssuedState(ss[|ss| - 1], t, r, marked)
  {
    var s := ss[|ss| - 1];
    var (alloc, idx) := Allocate(s.alloc, r);
    var s4, s5 := Go(s.(alloc := alloc), t, Built(Credential(r, idx, SdJwtVc))), IssuedState(s, t, r, marked);
    var last := if marked then IssueFinish(t) else MarkLost(t);
    ss', acts' := AllocationRuns(ss, acts, start, bound, t, r);
    OneMoreStep(ss', acts', start, bound, BuildCredential(t), s4);
    ss', acts' := ss' + [s4], acts' + [BuildCredential(t)];
    OneMoreStep(ss', acts', start, bound, last, s5);
    ss', acts' := ss' + [s5], acts' + [last];
  }

  /** A run can go on with the part of a rebuild that reads the entries. */
  lemma ReadRuns(ss: seq<State>, acts: seq<Action>, start: int, bound: int, t: ThreadId)
    returns (ss': seq<State>, acts': seq<Action>)
    requires Timed(ss, acts, start, bound)
    requires Idle(ss[|ss| - 1], t) && ss[|ss| - 1].cacheLock == None && !CacheFresh(ss[|ss| - 1])
    ensures Timed(ss', acts', start, bound)
    ensures var s := ss[|ss| - 1]; ss'[|ss'| - 1] == Go(s.(cacheLock := Some(t)), t, Snapshot(s.alloc.byIdx))
  {
    var s := ss[|ss| - 1];
    var s1, s2 := Go(s, t, GetBegun), Go(s.(cacheLock := Some(t)), t, Rebuilding);
    var s3 := Go(s.(cacheLock := Some(t)), t, Snapshot(s.alloc.byIdx));
    OneMoreStep(ss, acts, start, bound, GetBegin(t), s1);
    ss', acts' := ss + [s1], acts + [GetBegin(t)];
    OneMoreStep(ss', acts', start, bound, LockForRebuild(t), s2);
    ss', acts' := ss' + [s2], acts' + [LockForRebuild(t)];
    OneMoreStep(ss', acts', start, bound, ReadEntries(t), s3);
    ss', acts' := ss' + [s3], acts' + [ReadEntries(t)];
  }

  function BuiltState(s: State, t: ThreadId, size: int): State
    requires At(s, t).Snapshot?
  {
    var token := Packed(At(s, t).entries, size);
    Go(s.(token := Some(token), tokenExp := s.now + STATUS_LIST_CACHE_TTL, cacheLock := None), t, Served(token))
  }

  /** A run can go on with the part of a rebuild that stores the list. */
  lemma BuildRuns(ss: seq<State>, acts: seq<Action>, start: int, bound: int, t: ThreadId, size: int)
    returns (ss': seq<State>, acts': seq<Action>)
    requires Timed(ss, acts, start, bound) && ss[|ss| - 1].now <= bound
    requires At(ss[|ss| - 1], t).Snapshot? && IsListSize(At(ss[|ss| - 1], t).entries, size)
    ensures Timed(ss', acts', start, bound) && ss'[|ss'| - 1] == BuiltState(ss[|ss| - 1], t, size)
  {
    var s' := BuiltState(ss[|ss| - 1], t, size);
    OneMoreStep(ss, acts, start, bound, BuildToken(t, size), s');
    ss', acts' := ss + [s'], acts + [BuildToken(t, size)];
  }

  /** A run can go on with a RevokeCredential call whose new status takes effect
      but is reported as failed. */
  lemma LostRevocationRuns(ss: seq<State>, acts: seq<Action>, start: int, bound: int, t: ThreadId, r: RecordId)
    returns (ss': seq<State>, acts': seq<Action>)
    requires Timed(ss, acts, start, bound)
    requires Idle(ss[|ss| - 1], t) && IsIssued(ss[|ss| - 1], r) && r in ss[|ss| - 1].alloc.byRec
    ensures Timed(ss', acts', start, bound)
    ensures var s := ss[|ss| - 1]; ss'[|ss'| - 1] == Go(s.(alloc := SetStatus(s.alloc, r, INVALID).0), t, Failed)
  {
    var s := ss[|ss| - 1];
    var s1, s2, s3 := Go(s, t, RevokeBegun(r)), Go(s, t, RevokeChecked(r)), Go(s, t, EntryFound(r));
    var s4 := Go(s.(alloc := SetStatus(s.alloc, r, INVALID).0), t, Failed);
    OneMoreStep(ss, acts, start, bound, RevokeBegin(t, r), s1);
    ss', acts' := ss + [s1], acts + [RevokeBegin(t, r)];
    OneMoreStep(ss', acts', start, bound, CheckRecord(t), s2);
    ss', acts' := ss' + [s2], acts' + [CheckRecord(t)];
    OneMoreStep(ss', acts', start, bound, LookUpEntry(t), s3);
    ss', acts' := ss' + [s3], acts' + [LookUpEntry(t)];
    OneMoreStep(ss', acts', start, bound, StatusAckLost(t), s4);
    ss', acts' := ss' + [s4], acts' + [StatusAckLost(t)];
  }

  predicate AllFinished(s: State) {
    forall t :: t in s.calls ==> Finished(s.calls[t])
  }

  // ---------------------------------------------------------- entries and marks

  lemma FirstTrigger(r: RecordId, st: string, start: int, bound: int, marked: bool)
    returns (ss: seq<State>, acts: seq<Action>)
    requires st != ""
    ensures Timed(ss, acts, start, bound)
    ensures var s := ss[|ss| - 1];
            && s.now == start && s.alloc == EMPTY_ALLOC && s.token == None && s.cacheLock == None
            && s.calls == map[0 := Triggered(r, st)] && CanIssue(s, 0, r)
            && s.records.byId[r].status == (if marked then OfferCreated else Pending)
  {
    ss, acts := [State(start, NO_RECORDS, EMPTY_ALLOC, None, 0, None, map[], {})], [];
    var rec := NewRecord(r, "", "{\"family_name\":\"A\"}", "", "", start);
    assert |rec.credentialData| > 2;
    ss, acts := TriggerRuns(ss, acts, start, bound, 0, rec, st, marked);
    assert |ss[|ss| - 1].records.byId[r].credentialData| > 2;
  }

  /** So an entry does not mean that a credential was issued: the index is
      allocated before the credential is built. There is a run in which no call
      is left under way and a record that is only offered has an entry; and one
      in which it is not even marked as offered. */
  lemma OfferedRecordMayHaveEntry(r: RecordId, st: string, marked: bool) returns (ss: seq<State>, acts: seq<Action>)
    requires st != ""
    ensures Run(ss, acts) && AllFinished(ss[|ss| - 1])
    ensures var s := ss[|ss| - 1];
            && r in s.alloc.byRec && r in s.records.byId
            && s.records.byId[r].status == (if marked then OfferCreated else Pending)
  {
    ss, acts := FirstTrigger(r, st, 0, 0, marked);
    ss, acts := FailedBuildRuns(ss, acts, 0, 0, 0, r);
  }

  /** Nor does a credential handed out mean that its record is marked as issued,
      when the write of the mark fails: it is out, and cannot be revoked. */
  lemma HandedOutMayBeUnmarked(r: RecordId, st: string) returns (ss: seq<State>, acts: seq<Action>)
    requires st != ""
    ensures Run(ss, acts) && AllFinished(ss[|ss| - 1])
    ensures var s := ss[|ss| - 1];
            At(s, 0) == Issued(Credential(r, 0, SdJwtVc)) && r in s.alloc.byRec && !IsIssued(s, r)
  {
    ss, acts := FirstTrigger(r, st, 0, 0, true);
    ss, acts := IssueRuns(ss, acts, 0, 0, 0, r, false);
  }

  // ------------------------------------------------------------------ the cache

  lemma FirstIssue(r: RecordId, st: string, start: int, bound: int) returns (ss: seq<State>, acts: seq<Action>)
    requires st != ""
    ensures Timed(ss, acts, start, bound)
    ensures var s := ss[|ss| - 1];
            && s.now == start && s.token == None && s.cacheLock == None && IsIssued(s, r)
            && s.alloc == Alloc(1, map[0 := VALID], map[r := 0])
            && s.calls == map[0 := Issued(Credential(r, 0, SdJwtVc))]
  {
    ss, acts := FirstTrigger(r, st, start, bound, true);
    ss, acts := IssueRuns(ss, acts, start, bound, 0, r, true);
  }

  lemma OneValidEntry()
    ensures IsListSize(map[0 := VALID], 1) && Unpack(Packed(map[0 := VALID], 1), 0) == VALID
  {
    assert 0 in map[0 := VALID];
    ListShowsEntries(map[0 := VALID], 1, 0);
  }

  lemma RevokedAlloc(r: RecordId)
    ensures SetStatus(Alloc(1, map[0 := VALID], map[r := 0]), r, INVALID).0 == Alloc(1, map[0 := INVALID], map[r := 0])
  {
  }

  /** The cached list can be behind with no revocation pending: here a revocation
      took effect but was reported as failed, all calls have returned, and the
      list in the cache, fresh still, shows VALID. */
  lemma CacheMayBeBehind(r: RecordId, st: string) returns (ss: seq<State>, acts: seq<Action>)
    requires st != ""
    ensures Run(ss, acts) && AllFinished(ss[|ss| - 1]) && !RevocationPending(ss[|ss| - 1], 0)
    ensures var s := ss[|ss| - 1];
            && s.token.Some? && CacheFresh(s) && s.alloc.byRec == map[r := 0] && ShowsInvalid(s, 0)
            && Unpack(s.token.value, 0) == VALID
  {
    ss, acts := FirstIssue(r, st, 0, 0);
    ss, acts := ReadRuns(ss, acts, 0, 0, 1);
    OneValidEntry();
    ss, acts := BuildRuns(ss, acts, 0, 0, 1, 1);
    ss, acts := LostRevocationRuns(ss, acts, 0, 0, 0, r);
    RevokedAlloc(r);
  }

  lemma TimedRebuildsAreQuick(ss: seq<State>, acts: seq<Action>, start: int, limit: int)
    requires Timed(ss, acts, start, start + limit)
    ensures QuickRebuilds(ss, acts, limit)
  {
    forall r: nat, b: nat | b < |acts| && ReadsFor(acts, r, b)
      ensures ss[b].now <= ss[r].now + limit
    {
      RunGrows(ss, acts, 0, r);
    }
  }

  /** A run up to a list that was read at time start, before a revocation whose
      new status was reported as failed took effect at that time, and that was
      stored limit later. m is the point at which the status is INVALID. */
  lemma SlowRebuild(r: RecordId, st: string, start: int, limit: int)
    returns (ss: seq<State>, acts: seq<Action>, m: nat)
    requires st != "" && 0 <= limit
    ensures Timed(ss, acts, start, start + limit) && m < |ss|
    ensures ShowsInvalid(ss[m], 0) && ss[m].now == start
    ensures var s := ss[|ss| - 1];
            && s.now == start + limit && s.token.Some? && Unpack(s.token.value, 0) == VALID
            && s.tokenExp == start + limit + STATUS_LIST_CACHE_TTL && s.cacheLock == None && AllFinished(s)
  {
    ss, acts := FirstIssue(r, st, start, start + limit);
    ss, acts := ReadRuns(ss, acts, start, start + limit, 1);
    ss, acts := LostRevocationRuns(ss, acts, start, start + limit, 0, r);
    RevokedAlloc(r);
    m := |ss| - 1;
    ss, acts, m := SlowFinish(ss, acts, start, limit, m);
  }

  lemma SlowFinish(ss: seq<State>, acts: seq<Action>, start: int, limit: int, m: nat)
    returns (ss': seq<State>, acts': seq<Action>, m': nat)
    requires Timed(ss, acts, start, start + limit) && 0 <= limit && m == |ss| - 1
    requires var s := ss[m];
             && s.now == start && ShowsInvalid(s, 0) && s.calls == map[0 := Failed, 1 := Snapshot(map[0 := VALID])]
    ensures Timed(ss', acts', start, start + limit) && m' < |ss'|
    ensures ShowsInvalid(ss'[m'], 0) && ss'[m'].now == start
    ensures var s := ss'[|ss'| - 1];
            && s.now == start + limit && s.token.Some? && Unpack(s.token.value, 0) == VALID
            && s.tokenExp == start + limit + STATUS_LIST_CACHE_TTL && s.cacheLock == None && AllFinished(s)
  {
    var ticked := ss[m].(now := start + limit);
    OneMoreStep(ss, acts, start, start + limit, Tick(start + limit), ticked);
    ss', acts', m' := ss + [ticked], acts + [Tick(start + limit)], m;
    OneValidEntry();
    var built := BuiltState(ticked, 1, 1);
    OneMoreStep(ss', acts', start, start + limit, BuildToken(1, 1), built);
    ss', acts' := ss' + [built], acts' + [BuildToken(1, 1)];
  }

  /** The bound is exact: one tick before 60 seconds and a rebuild are over, a
      list may still be handed out that shows VALID. */
  lemma ListingBoundIsTight(r: RecordId, st: string, start: int, limit: int)
    returns (ss: seq<State>, acts: seq<Action>, m: nat, j: nat)
    requires st != "" && 0 <= limit
    ensures Run(ss, acts) && QuickRebuilds(ss, acts, limit) && m < |ss| && j < |acts|
    ensures ShowsInvalid(ss[m], 0) && ss[m].now == start
    ensures Serves(acts[j]) && ss[j].now == start + STATUS_LIST_CACHE_TTL + limit - 1
    ensures At(ss[j + 1], acts[j].t).Served? && Unpack(At(ss[j + 1], acts[j].t).token, 0) == VALID
  {
    ss, acts, m := SlowRebuild(r, st, start, limit);
    ss, acts, j := LateHit(ss, acts, start, limit, m);
    TimedRebuildsAreQuick(ss, acts, start, limit);
  }

  lemma LateHit(ss: seq<State>, acts: seq<Action>, start: int, limit: int, m: nat)
    returns (ss': seq<State>, acts': seq<Action>, j: nat)
    requires Timed(ss, acts, start, start + limit) && 0 <= limit && m < |ss|
    requires var s := ss[|ss| - 1];
             && s.now == start + limit && s.token.Some? && Unpack(s.token.value, 0) == VALID
             && s.tokenExp == start + limit + STATUS_LIST_CACHE_TTL && s.cacheLock == None && AllFinished(s)
    ensures Timed(ss', acts', start, start + limit) && m < |ss'| && ss'[m] == ss[m] && j < |acts'|
    ensures Serves(acts'[j]) && ss'[j].now == start + STATUS_LIST_CACHE_TTL + limit - 1
    ensures At(ss'[j + 1], acts'[j].t).Served? && Unpack(At(ss'[j + 1], acts'[j].t).token, 0) == VALID
  {
    var s := ss[|ss| - 1];
    var late := s.(now := start + STATUS_LIST_CACHE_TTL + limit - 1);
    var s1, s2 := Go(late, 2, GetBegun), Go(late, 2, Served(s.token.value));
    OneMoreStep(ss, acts, start, start + limit, Tick(late.now), late);
    ss', acts' := ss + [late], acts + [Tick(late.now)];
    OneMoreStep(ss', acts', start, start + limit, GetBegin(2), s1);
    ss', acts' := ss' + [s1], acts' + [GetBegin(2)];
    OneMoreStep(ss', acts', start, start + limit, CacheHit(2), s2);
    ss', acts' := ss' + [s2], acts' + [CacheHit(2)];
    j := |acts'| - 1;
  }
}
