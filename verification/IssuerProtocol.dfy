/** Concurrent TriggerIssuance, IssueCredential, RevokeCredential and
    GetStatusListToken calls, as a transition system whose steps are the lock
    regions of the service (statusCacheMu) and of its store (mu, statusMu). */
module IssuerProtocol {
  import opened Common
  import opened StatusBits
  import opened StoreSpec

  type ThreadId = int

  datatype Format = SdJwtVc | MsoMdoc

  datatype Credential = Credential(rec: RecordId, idx: int, format: Format)

  /** The packed list a token carries; signing and compression wrap it. */
  type Token = seq<bv8>

  /** Where a call stands: the lock region it has last left, or its result. A Cut
      trigger goes on without its record's issuer_state, and ends Unlinked: with
      an offer that leads to no record. */
  datatype Call =
    | Created(rec: RecordId) | Indexed(rec: RecordId, st: string) | Triggered(rec: RecordId, st: string)
    | Cut(rec: RecordId) | Unlinked
    | IssueBegun(rec: RecordId, format: Format) | RecordFound(rec: RecordId, format: Format)
    | Allocated(rec: RecordId, format: Format, idx: int) | Built(cred: Credential) | Issued(cred: Credential)
    | RevokeBegun(rec: RecordId) | RevokeChecked(rec: RecordId) | EntryFound(rec: RecordId)
    | StatusSet(rec: RecordId, idx: int) | Revoked(rec: RecordId)
    | GetBegun | Rebuilding | Snapshot(entries: map<int, bv8>) | Served(token: Token)
    | Failed

  predicate Finished(c: Call) {
    c.Triggered? || c.Unlinked? || c.Issued? || c.Revoked? || c.Served? || c.Failed?
  }

  /** triggered remembers the records whose TriggerIssuance has returned with
      their issuer_state in place, so that an access token can name them. */
  datatype State = State(now: int, records: Records, alloc: Alloc,
                         token: Option<Token>, tokenExp: int, cacheLock: Option<ThreadId>,
                         calls: map<ThreadId, Call>, triggered: set<RecordId>)

  const STATUS_LIST_CACHE_TTL := 60_000_000_000

  datatype Action =
    | Tick(to: int)
    | TriggerCreate(t: ThreadId, created: Record) | TriggerIndex(t: ThreadId, st: string) | TriggerFinish(t: ThreadId)
    | IssueBegin(t: ThreadId, rec: RecordId, format: Format) | FindRecord(t: ThreadId)
    | AllocateIdx(t: ThreadId) | BuildCredential(t: ThreadId) | IssueFinish(t: ThreadId)
    | RevokeBegin(t: ThreadId, rec: RecordId) | CheckRecord(t: ThreadId) | LookUpEntry(t: ThreadId)
    | SetInvalid(t: ThreadId) | ClearCache(t: ThreadId)
    | GetBegin(t: ThreadId) | CacheHit(t: ThreadId) | LockForRebuild(t: ThreadId)
    | ReadEntries(t: ThreadId) | BuildToken(t: ThreadId, size: int)
    // A JSON or signing error; an error of the store; a store error reported
    // although the allocation, or the new status, was committed.
    | BuildFault(t: ThreadId) | StoreFault(t: ThreadId)
    | AllocationAckLost(t: ThreadId) | StatusAckLost(t: ThreadId)
    // A record write that fails without a word: the insert, the issuer_state,
    // the mark as offered, the mark as issued.
    | CreateLost(t: ThreadId) | StateLost(t: ThreadId) | OfferMarkLost(t: ThreadId) | MarkLost(t: ThreadId)

  ghost predicate Init(s: State) {
    && s.records == NO_RECORDS && s.alloc == EMPTY_ALLOC
    && s.token == None && s.cacheLock == None && s.calls == map[] && s.triggered == {}
  }

  predicate Idle(s: State, t: ThreadId) {
    t in s.calls ==> Finished(s.calls[t])
  }

  function At(s: State, t: ThreadId): Call {
    if t in s.calls then s.calls[t] else Failed
  }

  function Go(s: State, t: ThreadId, c: Call): State {
    s.(calls := s.calls[t := c])
  }

  /** A trigger returns; only one with its issuer_state in place leads to a record. */
  function EndTrigger(s: State, t: ThreadId): State {
    if At(s, t).Indexed?
    then Go(s.(triggered := s.triggered + {At(s, t).rec}), t, Triggered(At(s, t).rec, At(s, t).st))
    else Go(s, t, Unlinked)
  }

  predicate HasCredentialData(s: State, r: RecordId) {
    && r in s.records.byId
    && s.records.byId[r].credentialData != "" && s.records.byId[r].credentialData != "{}"
  }

  predicate IsIssued(s: State, r: RecordId) {
    r in s.records.byId && s.records.byId[r].status == CredentialIssued
  }

  predicate CacheFresh(s: State) {
    s.token.Some? && s.now < s.tokenExp
  }

  ghost predicate Next(s: State, a: Action, s': State) {
    match a
    case Tick(to) =>
      s.now <= to && s' == s.(now := to)
    // TriggerIssuance: record ids and issuer_states are random, taken as fresh.
    case TriggerCreate(t, rec) =>
      && Idle(s, t) && rec.id !in s.records.byId && rec.status == Pending && rec.issuerState == ""
      && s' == Go(s.(records := Insert(s.records, rec)), t, Created(rec.id))
    case TriggerIndex(t, st) =>
      && At(s, t).Created? && st != "" && st !in s.records.byState
      && var r := At(s, t).rec;
      s' == Go(s.(records := UpdateIssuerState(s.records, r, st, s.now)), t, Indexed(r, st))
    case TriggerFinish(t) =>
      && (At(s, t).Indexed? || At(s, t).Cut?)
      && s' == EndTrigger(s.(records := UpdateStatus(s.records, At(s, t).rec, OfferCreated, s.now)), t)
    // IssueCredential: the access token names a record whose trigger has returned.
    case IssueBegin(t, r, format) =>
      Idle(s, t) && r in s.triggered && s' == Go(s, t, IssueBegun(r, format))
    case FindRecord(t) =>
      && At(s, t).IssueBegun?
      && var c := At(s, t);
      s' == Go(s, t, if HasCredentialData(s, c.rec) then RecordFound(c.rec, c.format) else Failed)
    case AllocateIdx(t) =>
      && At(s, t).RecordFound?
      && var c := At(s, t); var (alloc, idx) := Allocate(s.alloc, c.rec);
      s' == Go(s.(alloc := alloc), t, Allocated(c.rec, c.format, idx))
    case BuildCredential(t) =>
      && At(s, t).Allocated?
      && var c := At(s, t);
      s' == Go(s, t, Built(Credential(c.rec, c.idx, c.format)))
    case IssueFinish(t) =>
      && At(s, t).Built?
      && var cred := At(s, t).cred;
      s' == Go(s.(records := UpdateStatus(s.records, cred.rec, CredentialIssued, s.now)), t, Issued(cred))
    // RevokeCredential.
    case RevokeBegin(t, r) =>
      Idle(s, t) && s' == Go(s, t, RevokeBegun(r))
    case CheckRecord(t) =>
      && At(s, t).RevokeBegun?
      && var r := At(s, t).rec;
      s' == Go(s, t, if IsIssued(s, r) then RevokeChecked(r) else Failed)
    case LookUpEntry(t) =>
      && At(s, t).RevokeChecked?
      && var r := At(s, t).rec;
      s' == Go(s, t, if FindEntry(s.alloc, r).Some? then EntryFound(r) else Failed)
    case SetInvalid(t) =>
      && At(s, t).EntryFound?
      && var r := At(s, t).rec; var (alloc, idx) := SetStatus(s.alloc, r, INVALID);
      s' == Go(s.(alloc := alloc), t, if idx.Some? then StatusSet(r, idx.value) else Failed)
    case ClearCache(t) =>
      && At(s, t).StatusSet? && s.cacheLock == None
      && s' == Go(s.(token := None), t, Revoked(At(s, t).rec))
    // GetStatusListToken: a hit is one region; a rebuild holds the cache lock
    // from the failed check to the store of the new token.
    case GetBegin(t) =>
      Idle(s, t) && s' == Go(s, t, GetBegun)
    case CacheHit(t) =>
      && At(s, t).GetBegun? && s.cacheLock == None && CacheFresh(s)
      && s' == Go(s, t, Served(s.token.value))
    case LockForRebuild(t) =>
      && At(s, t).GetBegun? && s.cacheLock == None && !CacheFresh(s)
      && s' == Go(s.(cacheLock := Some(t)), t, Rebuilding)
    case ReadEntries(t) =>
      && At(s, t).Rebuilding?
      && s' == Go(s, t, Snapshot(s.alloc.byIdx))
    case BuildToken(t, size) =>
      && At(s, t).Snapshot? && IsListSize(At(s, t).entries, size)
      && var token := Packed(At(s, t).entries, size);
      s' == Go(s.(token := Some(token), tokenExp := s.now + STATUS_LIST_CACHE_TTL, cacheLock := None), t, Served(token))
    case BuildFault(t) =>
      && (At(s, t).Indexed? || At(s, t).Cut? || At(s, t).Allocated? || At(s, t).Snapshot?)
      && s' == Go(s.(cacheLock := if At(s, t).Snapshot? then None else s.cacheLock), t, Failed)
    case StoreFault(t) =>
      && (At(s, t).IssueBegun? || At(s, t).RecordFound? || At(s, t).RevokeBegun? || At(s, t).RevokeChecked?
          || At(s, t).EntryFound? || At(s, t).Rebuilding?)
      && s' == Go(s.(cacheLock := if At(s, t).Rebuilding? then None else s.cacheLock), t, Failed)
    case AllocationAckLost(t) =>
      && At(s, t).RecordFound?
      && s' == Go(s.(alloc := Allocate(s.alloc, At(s, t).rec).0), t, Failed)
    case StatusAckLost(t) =>
      && At(s, t).EntryFound?
      && s' == Go(s.(alloc := SetStatus(s.alloc, At(s, t).rec, INVALID).0), t, Failed)
    case CreateLost(t) =>
      Idle(s, t) && s' == Go(s, t, Unlinked)
    case StateLost(t) =>
      At(s, t).Created? && s' == Go(s, t, Cut(At(s, t).rec))
    case OfferMarkLost(t) =>
      (At(s, t).Indexed? || At(s, t).Cut?) && s' == EndTrigger(s, t)
    case MarkLost(t) =>
      At(s, t).Built? && s' == Go(s, t, Issued(At(s, t).cred))
  }

  /** A run: states joined by actions, from an empty issuer. */
  ghost predicate Run(ss: seq<State>, acts: seq<Action>) {
    && |ss| == |acts| + 1 && Init(ss[0])
    && forall i :: 0 <= i < |acts| ==> Next(ss[i], acts[i], ss[i + 1])
  }

  // --------------------------------------------------------------- invariant

  ghost predicate AllocOk(alloc: Alloc) {
    AllocValid(alloc) && forall i :: i in alloc.byIdx ==> alloc.byIdx[i] == VALID || alloc.byIdx[i] == INVALID
  }

  ghost predicate StoreOk(s: State) {
    AllocOk(s.alloc) && IndexValid(s.records)
  }

  ghost predicate RecordsOk(s: State) {
    && (forall r :: IsIssued(s, r) ==> r in s.alloc.byRec && r in s.triggered)
    && (forall r :: r in s.triggered ==>
          r in s.records.byId && s.records.byId[r].issuerState != "")
  }

  predicate Owns(s: State, r: RecordId, idx: int) {
    r in s.alloc.byRec && s.alloc.byRec[r] == idx
  }

  predicate ShowsInvalid(s: State, idx: int) {
    idx in s.alloc.byIdx && s.alloc.byIdx[idx] == INVALID
  }

  ghost predicate CallOk(s: State, c: Call) {
    match c
    case Created(r) =>
      r in s.records.byId && r !in s.triggered && s.records.byId[r].status == Pending
        && s.records.byId[r].issuerState == ""
    case Indexed(r, st) =>
      r in s.records.byId && r !in s.triggered && s.records.byId[r].status == Pending
      && s.records.byId[r].issuerState == st && st != ""
    case Cut(r) =>
      r in s.records.byId && r !in s.triggered && s.records.byId[r].status == Pending
        && s.records.byId[r].issuerState == ""
    case Triggered(r, st) => r in s.triggered && r in s.records.byId && s.records.byId[r].issuerState == st
    case IssueBegun(r, _) => r in s.triggered
    case RecordFound(r, _) => r in s.triggered
    case Allocated(r, _, idx) => r in s.triggered && Owns(s, r, idx)
    case Built(cred) => cred.rec in s.triggered && Owns(s, cred.rec, cred.idx)
    case Issued(cred) => Owns(s, cred.rec, cred.idx)
    case RevokeChecked(r) => IsIssued(s, r)
    case EntryFound(r) => IsIssued(s, r)
    case StatusSet(r, idx) => IsIssued(s, r) && Owns(s, r, idx) && ShowsInvalid(s, idx)
    case Revoked(r) => r in s.alloc.byRec && ShowsInvalid(s, s.alloc.byRec[r])
    case _ => true
  }

  ghost predicate CallsOk(s: State) {
    forall t :: t in s.calls ==> CallOk(s, s.calls[t])
  }

  predicate Triggering(c: Call) {
    c.Created? || c.Indexed? || c.Cut?
  }

  ghost predicate OneTriggerEach(s: State) {
    forall t, u :: t in s.calls && u in s.calls && t != u && Triggering(s.calls[t]) && Triggering(s.calls[u]) ==>
      s.calls[t].rec != s.calls[u].rec
  }

  ghost predicate LockOk(s: State) {
    forall t :: (At(s, t).Rebuilding? || At(s, t).Snapshot?) <==> s.cacheLock == Some(t)
  }

  /** v is what the store says about idx, read as VALID beyond the last
      allocated index; or it is VALID still while the store says INVALID. */
  ghost predicate Agrees(s: State, idx: int, v: bv8) {
    v == StatusAt(s.alloc.byIdx, idx) || (v == VALID && ShowsInvalid(s, idx))
  }

  ghost predicate CacheOk(s: State) {
    && (s.token.Some? ==> forall i :: 0 <= i ==> Agrees(s, i, Unpack(s.token.value, i)))
    && forall t :: At(s, t).Snapshot? ==>
         && (forall i :: i in At(s, t).entries ==> 0 <= i)
         && (forall i :: 0 <= i ==> Agrees(s, i, StatusAt(At(s, t).entries, i)))
  }

  ghost predicate Inv(s: State) {
    StoreOk(s) && RecordsOk(s) && CallsOk(s) && OneTriggerEach(s) && LockOk(s) && CacheOk(s)
  }

  lemma InitHolds(s: State)
    requires Init(s)
    ensures Inv(s)
  {
  }

  /** The steps that write the status entries. */
  predicate WritesAlloc(a: Action) {
    a.AllocateIdx? || a.AllocationAckLost? || a.SetInvalid? || a.StatusAckLost?
  }

  lemma AllocWrites(s: State, a: Action, s': State)
    requires Next(s, a, s')
    ensures !WritesAlloc(a) ==> s'.alloc == s.alloc
    ensures a.AllocateIdx? || a.AllocationAckLost? ==>
              At(s, a.t).RecordFound? && s'.alloc == Allocate(s.alloc, At(s, a.t).rec).0
    ensures a.SetInvalid? || a.StatusAckLost? ==>
              At(s, a.t).EntryFound? && s'.alloc == SetStatus(s.alloc, At(s, a.t).rec, INVALID).0
  {
  }

  lemma AllocStep(s: State, a: Action, s': State)
    requires AllocOk(s.alloc) && Next(s, a, s')
    ensures AllocOk(s'.alloc)
  {
    AllocWrites(s, a, s');
    if a.AllocateIdx? || a.AllocationAckLost? {
      AllocateKeepsValid(s.alloc, At(s, a.t).rec);
    } else if a.SetInvalid? || a.StatusAckLost? {
      SetStatusKeepsValid(s.alloc, At(s, a.t).rec, INVALID);
    }
  }

  /** The steps that write a record. */
  lemma RecordWrites(s: State, a: Action, s': State)
    requires Next(s, a, s')
    ensures s'.records == s.records || a.TriggerCreate? || a.TriggerIndex? || a.TriggerFinish? || a.IssueFinish?
  {
  }

  lemma IndexStep(s: State, a: Action, s': State)
    requires IndexValid(s.records) && CallsOk(s) && Next(s, a, s')
    ensures IndexValid(s'.records)
  {
    RecordWrites(s, a, s');
    if a.TriggerIndex? {
      assert CallOk(s, s.calls[a.t]);
      FirstStateOnly(s.records, At(s, a.t).rec, a.st, s.now);
    }
  }

  lemma StoreStep(s: State, a: Action, s': State)
    requires Inv(s) && Next(s, a, s')
    ensures StoreOk(s')
  {
    AllocStep(s, a, s');
    IndexStep(s, a, s');
  }

  function Rank(status: RecordStatus): nat {
    match status case Pending => 0 case OfferCreated => 1 case CredentialIssued => 2
  }

  /** What no step ever takes back: an index once owned stays owned by the same
      record, an index once INVALID stays INVALID, a record's status only moves
      forward and its issuer_state, once set, stays. */
  ghost predicate Grows(s: State, s': State) {
    s.now <= s'.now && s.triggered <= s'.triggered && AllocGrows(s, s') && RecordsGrow(s, s')
  }

  ghost predicate AllocGrows(s: State, s': State) {
    && s.alloc.next <= s'.alloc.next
    && (forall r :: r in s.alloc.byRec ==> r in s'.alloc.byRec && s'.alloc.byRec[r] == s.alloc.byRec[r])
    && (forall i :: ShowsInvalid(s, i) ==> ShowsInvalid(s', i))
  }

  ghost predicate RecordsGrow(s: State, s': State) {
    forall r :: r in s.records.byId ==> r in s'.records.byId && RecordGrows(s.records.byId[r], s'.records.byId[r])
  }

  ghost predicate RecordGrows(x: Record, y: Record) {
    && Rank(x.status) <= Rank(y.status)
    && (x.issuerState != "" ==> y.issuerState == x.issuerState)
    && y == x.(status := y.status, issuerState := y.issuerState, updatedAt := y.updatedAt)
  }

  lemma StepGrowsAlloc(s: State, a: Action, s': State)
    requires StoreOk(s) && Next(s, a, s')
    ensures AllocGrows(s, s')
  {
    AllocWrites(s, a, s');
  }

  lemma RecordGrowsStep(s: State, a: Action, s': State, r: RecordId)
    requires CallsOk(s) && Next(s, a, s') && r in s.records.byId
    requires a.TriggerCreate? || a.TriggerIndex? || a.TriggerFinish? || a.IssueFinish?
    ensures r in s'.records.byId && RecordGrows(s.records.byId[r], s'.records.byId[r])
  {
    if !a.TriggerCreate? {
      assert CallOk(s, s.calls[a.t]);
    }
  }

  lemma StepGrowsRecords(s: State, a: Action, s': State)
    requires CallsOk(s) && Next(s, a, s')
    ensures RecordsGrow(s, s')
  {
    RecordWrites(s, a, s');
    if s'.records != s.records {
      forall r | r in s.records.byId
        ensures r in s'.records.byId && RecordGrows(s.records.byId[r], s'.records.byId[r])
      {
        RecordGrowsStep(s, a, s', r);
      }
    }
  }

  lemma StepGrows(s: State, a: Action, s': State)
    requires Inv(s) && Next(s, a, s')
    ensures Grows(s, s')
  {
    StepGrowsAlloc(s, a, s');
    StepGrowsRecords(s, a, s');
  }

  lemma IssuedStep(s: State, a: Action, s': State, r: RecordId)
    requires RecordsOk(s) && CallsOk(s) && Next(s, a, s') && Grows(s, s')
    requires IsIssued(s', r)
    ensures r in s'.alloc.byRec && r in s'.triggered
  {
    if !IsIssued(s, r) {
      assert a.IssueFinish?;
      assert CallOk(s, s.calls[a.t]);
    }
  }

  lemma TriggeredStep(s: State, a: Action, s': State, r: RecordId)
    requires RecordsOk(s) && CallsOk(s) && Next(s, a, s') && Grows(s, s')
    requires r in s'.triggered
    ensures r in s'.records.byId && s'.records.byId[r].issuerState != ""
  {
    if r in s.triggered {
      assert RecordGrows(s.records.byId[r], s'.records.byId[r]);
    } else {
      assert a.TriggerFinish? || a.OfferMarkLost?;
      assert CallOk(s, s.calls[a.t]);
    }
  }

  lemma RecordsStep(s: State, a: Action, s': State)
    requires Inv(s) && Next(s, a, s') && Grows(s, s')
    ensures RecordsOk(s')
  {
    forall r | IsIssued(s', r)
      ensures r in s'.alloc.byRec && r in s'.triggered
    {
      IssuedStep(s, a, s', r);
    }
    forall r | r in s'.triggered
      ensures r in s'.records.byId && s'.records.byId[r].issuerState != ""
    {
      TriggeredStep(s, a, s', r);
    }
  }

  /** A step of another call leaves a triggering call's record alone. */
  lemma TriggerUndisturbed(s: State, a: Action, s': State, u: ThreadId)
    requires Inv(s) && Next(s, a, s')
    requires u in s.calls && Triggering(s.calls[u]) && (a.Tick? || a.t != u)
    ensures var r := s.calls[u].rec;
            r in s.records.byId && r in s'.records.byId && s'.records.byId[r] == s.records.byId[r] && r !in s'.triggered
  {
    assert CallOk(s, s.calls[u]);
    match a
    case TriggerIndex(t, st) => assert Triggering(s.calls[t]);
    case TriggerFinish(t) => assert Triggering(s.calls[t]);
    case OfferMarkLost(t) => assert Triggering(s.calls[t]);
    case IssueFinish(t) => assert CallOk(s, s.calls[t]);
    case _ =>
  }

  /** Nothing a call relies on is taken away by another call's step. */
  lemma OtherCallsKeep(s: State, a: Action, s': State, u: ThreadId)
    requires Inv(s) && Next(s, a, s') && Grows(s, s')
    requires u in s.calls && (a.Tick? || a.t != u)
    ensures CallOk(s', s.calls[u])
  {
    assert CallOk(s, s.calls[u]);
    if Triggering(s.calls[u]) {
      TriggerUndisturbed(s, a, s', u);
    } else {
      GrowthKeepsCall(s, s', s.calls[u]);
    }
  }

  lemma GrowthKeepsCall(s: State, s': State, c: Call)
    requires Grows(s, s') && CallOk(s, c) && !Triggering(c)
    requires c.Triggered? ==> s.records.byId[c.rec].issuerState != ""
    ensures CallOk(s', c)
  {
    if c.Triggered? || c.RevokeChecked? || c.EntryFound? || c.StatusSet? {
      assert RecordGrows(s.records.byId[c.rec], s'.records.byId[c.rec]);
    }
  }

  lemma OwnTriggerStep(s: State, a: Action, s': State)
    requires CallsOk(s) && RecordsOk(s) && Next(s, a, s')
    requires a.TriggerCreate? || a.TriggerIndex? || a.TriggerFinish? || a.StateLost? || a.OfferMarkLost?
    ensures a.t in s'.calls && CallOk(s', s'.calls[a.t])
  {
    if !a.TriggerCreate? {
      assert CallOk(s, s.calls[a.t]);
    }
  }

  lemma OwnIssueStep(s: State, a: Action, s': State)
    requires CallsOk(s) && Next(s, a, s')
    requires a.IssueBegin? || a.FindRecord? || a.AllocateIdx? || a.BuildCredential? || a.IssueFinish? || a.MarkLost?
    ensures a.t in s'.calls && CallOk(s', s'.calls[a.t])
  {
    if !a.IssueBegin? {
      assert CallOk(s, s.calls[a.t]);
    }
  }

  lemma OwnRevokeStep(s: State, a: Action, s': State)
    requires CallsOk(s) && Next(s, a, s')
    requires a.CheckRecord? || a.LookUpEntry? || a.SetInvalid? || a.ClearCache?
    ensures a.t in s'.calls && CallOk(s', s'.calls[a.t])
  {
    assert CallOk(s, s.calls[a.t]);
  }

  /** A step takes its own call to a point where what it relies on holds. */
  lemma OwnCallStep(s: State, a: Action, s': State)
    requires RecordsOk(s) && CallsOk(s) && Next(s, a, s') && !a.Tick?
    ensures a.t in s'.calls && CallOk(s', s'.calls[a.t])
  {
    if a.TriggerCreate? || a.TriggerIndex? || a.TriggerFinish? || a.StateLost? || a.OfferMarkLost? {
      OwnTriggerStep(s, a, s');
    } else if a.IssueBegin? || a.FindRecord? || a.AllocateIdx? || a.BuildCredential? || a.IssueFinish? || a.MarkLost? {
      OwnIssueStep(s, a, s');
    } else if a.CheckRecord? || a.LookUpEntry? || a.SetInvalid? || a.ClearCache? {
      OwnRevokeStep(s, a, s');
    }
  }

  lemma UntouchedCalls(s: State, a: Action, s': State, u: ThreadId)
    requires Next(s, a, s') && (a.Tick? || a.t != u)
    ensures u in s'.calls <==> u in s.calls
    ensures At(s', u) == At(s, u)
  {
  }

  lemma CallsStep(s: State, a: Action, s': State)
    requires Inv(s) && Next(s, a, s')
    ensures CallsOk(s')
  {
    StepGrows(s, a, s');
    forall u | u in s'.calls
      ensures CallOk(s', s'.calls[u])
    {
      if a.Tick? || a.t != u {
        UntouchedCalls(s, a, s', u);
        OtherCallsKeep(s, a, s', u);
      } else {
        OwnCallStep(s, a, s');
      }
    }
  }

  lemma LockStep(s: State, a: Action, s': State)
    requires LockOk(s) && Next(s, a, s')
    ensures LockOk(s')
  {
    forall u
      ensures (At(s', u).Rebuilding? || At(s', u).Snapshot?) <==> s'.cacheLock == Some(u)
    {
      assert (At(s, u).Rebuilding? || At(s, u).Snapshot?) <==> s.cacheLock == Some(u);
      if !a.Tick? {
        assert (At(s, a.t).Rebuilding? || At(s, a.t).Snapshot?) <==> s.cacheLock == Some(a.t);
      }
    }
  }

  /** A call that starts triggering does so for a record no other call is at. */
  lemma TriggerStep(s: State, a: Action, s': State)
    requires CallsOk(s) && OneTriggerEach(s) && Next(s, a, s')
    ensures OneTriggerEach(s')
  {
    forall t, u | t in s'.calls && u in s'.calls && t != u && Triggering(s'.calls[t]) && Triggering(s'.calls[u])
      ensures s'.calls[t].rec != s'.calls[u].rec
    {
      TriggeringBefore(s, a, s', t);
      TriggeringBefore(s, a, s', u);
    }
  }

  lemma TriggeringBefore(s: State, a: Action, s': State, t: ThreadId)
    requires CallsOk(s) && Next(s, a, s') && t in s'.calls && Triggering(s'.calls[t])
    ensures if a.TriggerCreate? && a.t == t then s'.calls[t].rec !in s.records.byId
            else && t in s.calls && Triggering(s.calls[t])
                 && s'.calls[t].rec == s.calls[t].rec && s.calls[t].rec in s.records.byId
  {
    if t in s.calls {
      assert CallOk(s, s.calls[t]);
    }
  }

  /** What a list says can only fall behind, and only by missing an INVALID. */
  lemma AgreesStep(s: State, a: Action, s': State, idx: int, v: bv8)
    requires StoreOk(s) && Next(s, a, s') && AllocGrows(s, s')
    requires 0 <= idx && Agrees(s, idx, v)
    ensures Agrees(s', idx, v)
  {
    AllocWrites(s, a, s');
  }

  lemma TokenStep(s: State, a: Action, s': State, i: int)
    requires StoreOk(s) && CacheOk(s) && Next(s, a, s') && AllocGrows(s, s')
    requires s'.token.Some? && 0 <= i
    ensures Agrees(s', i, Unpack(s'.token.value, i))
  {
    if a.BuildToken? {
      ListShowsEntries(At(s, a.t).entries, a.size, i);
      AgreesStep(s, a, s', i, StatusAt(At(s, a.t).entries, i));
    } else {
      assert s'.token == s.token;
      AgreesStep(s, a, s', i, Unpack(s.token.value, i));
    }
  }

  /** A snapshot has just been read, or was there before. */
  lemma SnapshotOrigin(s: State, a: Action, s': State, t: ThreadId)
    requires Next(s, a, s') && At(s', t).Snapshot?
    ensures if a.ReadEntries? && a.t == t then At(s', t).entries == s.alloc.byIdx && s'.alloc == s.alloc
            else At(s, t) == At(s', t)
  {
  }

  lemma SnapshotStep(s: State, a: Action, s': State, t: ThreadId)
    requires StoreOk(s) && CacheOk(s) && Next(s, a, s') && AllocGrows(s, s')
    requires At(s', t).Snapshot?
    ensures forall i :: i in At(s', t).entries ==> 0 <= i
    ensures forall i :: 0 <= i ==> Agrees(s', i, StatusAt(At(s', t).entries, i))
  {
    SnapshotOrigin(s, a, s', t);
    if !(a.ReadEntries? && a.t == t) {
      forall i | 0 <= i
        ensures Agrees(s', i, StatusAt(At(s', t).entries, i))
      {
        AgreesStep(s, a, s', i, StatusAt(At(s, t).entries, i));
      }
    }
  }

  /** A cache clear finds no rebuild under way, as it needs the lock. */
  lemma NoSnapshotAfterClear(s: State, a: Action, s': State, t: ThreadId)
    requires LockOk(s) && Next(s, a, s') && a.ClearCache?
    ensures !At(s', t).Snapshot?
  {
    assert !(At(s, t).Rebuilding? || At(s, t).Snapshot?);
  }

  lemma CacheStep(s: State, a: Action, s': State)
    requires StoreOk(s) && CacheOk(s) && Next(s, a, s') && AllocGrows(s, s')
    ensures CacheOk(s')
  {
    forall i | 0 <= i && s'.token.Some?
      ensures Agrees(s', i, Unpack(s'.token.value, i))
    {
      TokenStep(s, a, s', i);
    }
    forall t | At(s', t).Snapshot?
      ensures forall i :: i in At(s', t).entries ==> 0 <= i
      ensures forall i :: 0 <= i ==> Agrees(s', i, StatusAt(At(s', t).entries, i))
    {
      SnapshotStep(s, a, s', t);
    }
  }

  lemma StepKeepsInv(s: State, a: Action, s': State)
    requires Inv(s) && Next(s, a, s')
    ensures Inv(s')
  {
    StoreStep(s, a, s');
    StepGrows(s, a, s');
    RecordsStep(s, a, s');
    CallsStep(s, a, s');
    TriggerStep(s, a, s');
    LockStep(s, a, s');
    CacheStep(s, a, s');
  }

  lemma {:induction false} RunKeepsInv(ss: seq<State>, acts: seq<Action>, i: nat)
    requires Run(ss, acts) && i < |ss|
    ensures Inv(ss[i])
  {
    if i == 0 {
      InitHolds(ss[0]);
    } else {
      RunKeepsInv(ss, acts, i - 1);
      StepKeepsInv(ss[i - 1], acts[i - 1], ss[i]);
    }
  }
}
