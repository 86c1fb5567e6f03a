/** Who has a status entry, who is marked issued, and who can be revoked: what a
    record's entry and status say about the calls that have been made for it. */
module IssuerEntries {
  import opened Common
  import opened StatusBits
  import opened StoreSpec
  import opened IssuerProtocol
  import opened IssuerSafety

  // -------------------------------------------------------------- allocations

  /** The step in which the allocator serves record r. */
  predicate AllocatesFor(s: State, a: Action, r: RecordId) {
    (a.AllocateIdx? || a.AllocationAckLost?) && At(s, a.t).RecordFound? && At(s, a.t).rec == r
  }

  /** Some step before point i serves r. */
  ghost predicate HasAllocated(ss: seq<State>, acts: seq<Action>, i: nat, r: RecordId)
    requires i <= |acts| && i <= |ss|
  {
    exists j :: 0 <= j < i && AllocatesFor(ss[j], acts[j], r)
  }

  lemma HasAllocatedStep(ss: seq<State>, acts: seq<Action>, i: nat, r: RecordId)
    requires 0 < i <= |acts| && i <= |ss|
    ensures HasAllocated(ss, acts, i, r) <==>
            HasAllocated(ss, acts, i - 1, r) || AllocatesFor(ss[i - 1], acts[i - 1], r)
  {
  }

  lemma EntryStep(s: State, a: Action, s': State, r: RecordId)
    requires Next(s, a, s')
    ensures r in s'.alloc.byRec <==> r in s.alloc.byRec || AllocatesFor(s, a, r)
  {
    AllocWrites(s, a, s');
  }

  /** A record has a status entry exactly when some issue call for it got as
      far as the allocator. */
  lemma {:induction false} EntryMeansAllocated(ss: seq<State>, acts: seq<Action>, i: nat, r: RecordId)
    requires Run(ss, acts) && i < |ss|
    ensures r in ss[i].alloc.byRec <==> HasAllocated(ss, acts, i, r)
  {
    if i > 0 {
      EntryMeansAllocated(ss, acts, i - 1, r);
      HasAllocatedStep(ss, acts, i, r);
      EntryStep(ss[i - 1], acts[i - 1], ss[i], r);
    }
  }

  /** Only records whose trigger has returned get that far. */
  lemma {:induction false} EntryIsTriggered(ss: seq<State>, acts: seq<Action>, i: nat, r: RecordId)
    requires Run(ss, acts) && i < |ss| && r in ss[i].alloc.byRec
    ensures r in ss[i].triggered
  {
    RunKeepsInv(ss, acts, i - 1);
    StepGrows(ss[i - 1], acts[i - 1], ss[i]);
    EntryStep(ss[i - 1], acts[i - 1], ss[i], r);
    if r in ss[i - 1].alloc.byRec {
      EntryIsTriggered(ss, acts, i - 1, r);
    } else {
      assert CallOk(ss[i - 1], ss[i - 1].calls[acts[i - 1].t]);
    }
  }

  /** The record of an issue call that has found it to have data. */
  function PastData(c: Call): Option<RecordId> {
    match c
    case RecordFound(r, _) => Some(r)
    case Allocated(r, _, _) => Some(r)
    case Built(cred) => Some(cred.rec)
    case Issued(cred) => Some(cred.rec)
    case _ => None
  }

  lemma PastDataStep(s: State, a: Action, s': State, t: ThreadId)
    requires Next(s, a, s') && PastData(At(s', t)).Some?
    ensures PastData(At(s, t)) == PastData(At(s', t)) || HasCredentialData(s, PastData(At(s', t)).value)
  {
    if OtherThan(a, t) && t in s.calls {
      UntouchedCalls(s, a, s', t);
    }
  }

  /** Every credential is for a record that has credential data, and so is every
      index that an issue call allocates. */
  lemma {:induction false} IssuedHasData(ss: seq<State>, acts: seq<Action>, i: nat, t: ThreadId)
    requires Run(ss, acts) && i < |ss| && PastData(At(ss[i], t)).Some?
    ensures HasCredentialData(ss[i], PastData(At(ss[i], t)).value)
  {
    var r := PastData(At(ss[i], t)).value;
    PastDataStep(ss[i - 1], acts[i - 1], ss[i], t);
    if !HasCredentialData(ss[i - 1], r) {
      IssuedHasData(ss, acts, i - 1, t);
    }
    RunKeepsInv(ss, acts, i - 1);
    StepGrows(ss[i - 1], acts[i - 1], ss[i]);
    assert RecordGrows(ss[i - 1].records.byId[r], ss[i].records.byId[r]);
  }

  /** The record and the format of an issue call. */
  function AskedFor(c: Call): Option<(RecordId, Format)> {
    match c
    case IssueBegun(r, format) => Some((r, format))
    case RecordFound(r, format) => Some((r, format))
    case Allocated(r, format, _) => Some((r, format))
    case Built(cred) => Some((cred.rec, cred.format))
    case Issued(cred) => Some((cred.rec, cred.format))
    case _ => None
  }

  lemma AskedForStep(s: State, a: Action, s': State, t: ThreadId)
    requires Next(s, a, s') && AskedFor(At(s', t)).Some?
    ensures var (r, format) := AskedFor(At(s', t)).value;
            if a.IssueBegin? && a.t == t then a == IssueBegin(t, r, format)
            else AskedFor(At(s, t)) == AskedFor(At(s', t))
  {
    if OtherThan(a, t) && t in s.calls {
      UntouchedCalls(s, a, s', t);
    }
  }

  /** A credential is for the record and in the format that its call was made for. */
  lemma {:induction false} IssuedAsAsked(ss: seq<State>, acts: seq<Action>, i: nat, t: ThreadId) returns (j: nat)
    requires Run(ss, acts) && i < |ss| && AskedFor(At(ss[i], t)).Some?
    ensures j < i && acts[j] == IssueBegin(t, AskedFor(At(ss[i], t)).value.0, AskedFor(At(ss[i], t)).value.1)
    ensures forall m {:trigger acts[m]} :: j < m < i ==> OtherThan(acts[m], t) || !acts[m].IssueBegin?
  {
    AskedForStep(ss[i - 1], acts[i - 1], ss[i], t);
    if acts[i - 1].IssueBegin? && acts[i - 1].t == t {
      j := i - 1;
    } else {
      j := IssuedAsAsked(ss, acts, i - 1, t);
    }
  }

  // -------------------------------------------------------------------- marks

  /** The step in which an issue call marks record r as issued. */
  predicate MarksIssued(s: State, a: Action, r: RecordId) {
    a.IssueFinish? && At(s, a.t).Built? && At(s, a.t).cred.rec == r
  }

  /** Before point i, some issue call for r has marked it, to effect. */
  ghost predicate HasMarked(ss: seq<State>, acts: seq<Action>, i: nat, r: RecordId)
    requires i <= |acts| && i <= |ss|
  {
    exists j :: 0 <= j < i && MarksIssued(ss[j], acts[j], r)
  }

  lemma HasMarkedStep(ss: seq<State>, acts: seq<Action>, i: nat, r: RecordId)
    requires 0 < i <= |acts| && i <= |ss|
    ensures HasMarked(ss, acts, i, r) <==>
            HasMarked(ss, acts, i - 1, r) || MarksIssued(ss[i - 1], acts[i - 1], r)
  {
  }

  lemma MarkStep(s: State, a: Action, s': State, r: RecordId)
    requires RecordsOk(s) && CallsOk(s) && Next(s, a, s')
    ensures IsIssued(s', r) <==> IsIssued(s, r) || MarksIssued(s, a, r)
  {
    RecordWrites(s, a, s');
    if s'.records != s.records {
      if !a.TriggerCreate? {
        assert CallOk(s, s.calls[a.t]);
      }
    }
  }

  /** A record has the status issued exactly when some issue call for it ended
      with a mark that took effect. */
  lemma {:induction false} IssuedMeansMarked(ss: seq<State>, acts: seq<Action>, i: nat, r: RecordId)
    requires Run(ss, acts) && i < |ss|
    ensures IsIssued(ss[i], r) <==> HasMarked(ss, acts, i, r)
  {
    if i > 0 {
      IssuedMeansMarked(ss, acts, i - 1, r);
      HasMarkedStep(ss, acts, i, r);
      RunKeepsInv(ss, acts, i - 1);
      MarkStep(ss[i - 1], acts[i - 1], ss[i], r);
    }
  }

  /** An entry means that the record is issued exactly when an allocation for it
      means that some issue call for it has marked it. */
  lemma EntryMeansIssued(ss: seq<State>, acts: seq<Action>, i: nat, r: RecordId)
    requires Run(ss, acts) && i < |ss|
    ensures (r in ss[i].alloc.byRec ==> IsIssued(ss[i], r)) <==>
            (HasAllocated(ss, acts, i, r) ==> HasMarked(ss, acts, i, r))
  {
    EntryMeansAllocated(ss, acts, i, r);
    IssuedMeansMarked(ss, acts, i, r);
  }

  /** The step in which the trigger of r returns without r marked as offered. */
  predicate LosesOffer(s: State, a: Action, r: RecordId) {
    a.OfferMarkLost? && At(s, a.t).Indexed? && At(s, a.t).rec == r
  }

  ghost predicate HasLostOffer(ss: seq<State>, acts: seq<Action>, i: nat, r: RecordId)
    requires i <= |acts| && i <= |ss|
  {
    exists j :: 0 <= j < i && LosesOffer(ss[j], acts[j], r)
  }

  lemma HasLostOfferStep(ss: seq<State>, acts: seq<Action>, i: nat, r: RecordId)
    requires 0 < i <= |acts| && i <= |ss|
    ensures HasLostOffer(ss, acts, i, r) <==>
            HasLostOffer(ss, acts, i - 1, r) || LosesOffer(ss[i - 1], acts[i - 1], r)
  {
  }

  lemma LostOfferStep(s: State, a: Action, s': State, r: RecordId)
    requires Next(s, a, s') && LosesOffer(s, a, r)
    ensures r in s'.triggered
  {
  }

  lemma LostOfferIsTriggered(ss: seq<State>, acts: seq<Action>, i: nat, r: RecordId)
    requires Run(ss, acts) && i < |ss| && HasLostOffer(ss, acts, i, r)
    ensures r in ss[i].triggered
  {
    var j :| 0 <= j < i && LosesOffer(ss[j], acts[j], r);
    LostOfferStep(ss[j], acts[j], ss[j + 1], r);
    RunGrows(ss, acts, j + 1, i);
  }

  predicate IsPending(s: State, r: RecordId) {
    r in s.records.byId && s.records.byId[r].status == Pending
  }

  lemma PendingStep(s: State, a: Action, s': State, r: RecordId)
    requires CallsOk(s) && RecordsOk(s) && Next(s, a, s') && r in s.triggered
    ensures !LosesOffer(s, a, r)
    ensures IsPending(s', r) <==> IsPending(s, r) && !MarksIssued(s, a, r)
  {
    RecordWrites(s, a, s');
    if a.OfferMarkLost? || (s'.records != s.records && !a.TriggerCreate?) {
      assert CallOk(s, s.calls[a.t]);
    }
  }

  lemma JustTriggered(s: State, a: Action, s': State, r: RecordId)
    requires CallsOk(s) && Next(s, a, s') && r in s'.triggered && r !in s.triggered
    ensures !MarksIssued(s, a, r) && (IsPending(s', r) <==> LosesOffer(s, a, r))
  {
    assert a.TriggerFinish? || a.OfferMarkLost?;
    assert CallOk(s, s.calls[a.t]);
  }

  /** A record whose trigger has returned is pending still exactly when its mark
      as offered was lost, and no issue call has marked it since. */
  lemma {:induction false} PendingMeansLostOffer(ss: seq<State>, acts: seq<Action>, i: nat, r: RecordId)
    requires Run(ss, acts) && i < |ss| && r in ss[i].triggered
    ensures IsPending(ss[i], r) <==> HasLostOffer(ss, acts, i, r) && !HasMarked(ss, acts, i, r)
  {
    RunKeepsInv(ss, acts, i - 1);
    HasLostOfferStep(ss, acts, i, r);
    HasMarkedStep(ss, acts, i, r);
    if r in ss[i - 1].triggered {
      PendingMeansLostOffer(ss, acts, i - 1, r);
      PendingStep(ss[i - 1], acts[i - 1], ss[i], r);
    } else {
      JustTriggered(ss[i - 1], acts[i - 1], ss[i], r);
      NothingBeforeTrigger(ss, acts, i - 1, r);
    }
  }

  lemma NothingBeforeTrigger(ss: seq<State>, acts: seq<Action>, i: nat, r: RecordId)
    requires Run(ss, acts) && i < |ss| && r !in ss[i].triggered
    ensures !HasLostOffer(ss, acts, i, r) && !HasMarked(ss, acts, i, r)
  {
    RunKeepsInv(ss, acts, i);
    IssuedMeansMarked(ss, acts, i, r);
    if HasLostOffer(ss, acts, i, r) {
      LostOfferIsTriggered(ss, acts, i, r);
    }
  }

  /** So a pending record has an entry exactly when its mark as offered was lost,
      an issue call for it reached the allocator, and none has marked it. */
  lemma PendingEntryMeansLostOffer(ss: seq<State>, acts: seq<Action>, i: nat, r: RecordId)
    requires Run(ss, acts) && i < |ss|
    ensures r in ss[i].alloc.byRec && IsPending(ss[i], r) <==>
            HasAllocated(ss, acts, i, r) && HasLostOffer(ss, acts, i, r) && !HasMarked(ss, acts, i, r)
  {
    EntryMeansAllocated(ss, acts, i, r);
    if r in ss[i].alloc.byRec {
      EntryIsTriggered(ss, acts, i, r);
      PendingMeansLostOffer(ss, acts, i, r);
    }
  }

  /** A record's status moves one stage at a time, and never back; but for the
      mark as issued, which skips a stage exactly on a pending record, and then
      the mark as offered was lost. */
  lemma StatusMovesForward(ss: seq<State>, acts: seq<Action>, i: nat, r: RecordId)
    requires Run(ss, acts) && i < |acts| && r in ss[i].records.byId
    ensures r in ss[i + 1].records.byId
    ensures var before, after := ss[i].records.byId[r].status, ss[i + 1].records.byId[r].status;
            && (after == before || Rank(after) == Rank(before) + 1 || (before == Pending && after == CredentialIssued))
            && (before == Pending && after == CredentialIssued <==>
                IsPending(ss[i], r) && MarksIssued(ss[i], acts[i], r))
            && (before == Pending && after == CredentialIssued ==> HasLostOffer(ss, acts, i, r))
  {
    RunKeepsInv(ss, acts, i);
    var s, a, s' := ss[i], acts[i], ss[i + 1];
    StepGrows(s, a, s');
    StatusStep(s, a, s', r);
    if IsPending(s, r) && MarksIssued(s, a, r) {
      assert CallOk(s, s.calls[a.t]);
      PendingMeansLostOffer(ss, acts, i, r);
    }
  }

  lemma StatusStep(s: State, a: Action, s': State, r: RecordId)
    requires CallsOk(s) && RecordsOk(s) && Next(s, a, s') && r in s.records.byId && r in s'.records.byId
    ensures var before, after := s.records.byId[r].status, s'.records.byId[r].status;
            && (MarksIssued(s, a, r) ==> after == CredentialIssued)
            && (!MarksIssued(s, a, r) ==> after == before || (before == Pending && after == OfferCreated))
  {
    RecordWrites(s, a, s');
    if s'.records != s.records {
      if !a.TriggerCreate? {
        assert CallOk(s, s.calls[a.t]);
      }
    }
  }

  // -------------------------------------------------------- the fate of a call

  /** An issue call for r stands between its allocation and its end. */
  predicate UnderWay(s: State, t: ThreadId, r: RecordId) {
    (At(s, t).Allocated? && At(s, t).rec == r) || (At(s, t).Built? && At(s, t).cred.rec == r)
  }

  /** Between j and k, thread t does nothing but build. */
  predicate OnlyBuilds(acts: seq<Action>, t: ThreadId, j: nat, k: nat)
    requires k <= |acts|
  {
    forall m {:trigger acts[m]} :: j < m < k ==> OtherThan(acts[m], t) || acts[m].BuildCredential?
  }

  predicate FailedBuildAt(acts: seq<Action>, t: ThreadId, j: nat, k: nat)
    requires k < |acts|
  {
    j < k && acts[k] == BuildFault(t) && Rests(acts, t, j, k)
  }

  predicate LostMarkAt(acts: seq<Action>, t: ThreadId, j: nat, k: nat)
    requires k < |acts|
  {
    j < k && acts[k] == MarkLost(t) && OnlyBuilds(acts, t, j, k)
  }

  /** The issue call that allocated in step j is over, and has not marked its
      record: it was told of a store error there, its build failed, or it handed
      its credential out but the mark was lost. */
  ghost predicate EndedUnmarked(acts: seq<Action>, i: nat, j: nat)
    requires j < i <= |acts| && !acts[j].Tick?
  {
    || acts[j].AllocationAckLost?
    || (exists k: nat :: k < i && FailedBuildAt(acts, acts[j].t, j, k))
    || (exists k: nat :: k < i && LostMarkAt(acts, acts[j].t, j, k))
  }

  /** Where the issue call that allocated in step j stands at point i. */
  predicate StillUnderWay(s: State, acts: seq<Action>, t: ThreadId, j: nat, i: nat, r: RecordId)
    requires i <= |acts|
  {
    UnderWay(s, t, r) && OnlyBuilds(acts, t, j, i) && (At(s, t).Allocated? ==> Rests(acts, t, j, i))
  }

  lemma UnderWayStep(s: State, a: Action, s': State, t: ThreadId, r: RecordId)
    requires Next(s, a, s') && UnderWay(s, t, r)
    ensures || (UnderWay(s', t, r) && (OtherThan(a, t) || a.BuildCredential?)
                && (At(s', t).Allocated? ==> At(s, t).Allocated? && OtherThan(a, t)))
            || (a == BuildFault(t) && At(s, t).Allocated?)
            || a == MarkLost(t)
            || MarksIssued(s, a, r)
  {
    if OtherThan(a, t) {
      UntouchedCalls(s, a, s', t);
    }
  }

  lemma JustAllocated(s: State, a: Action, s': State, r: RecordId)
    requires Next(s, a, s') && AllocatesFor(s, a, r)
    ensures a.AllocationAckLost? || (At(s', a.t).Allocated? && UnderWay(s', a.t, r))
  {
  }

  lemma RestsOn(acts: seq<Action>, t: ThreadId, j: nat, i: nat)
    requires 0 < i <= |acts|
    ensures Rests(acts, t, j, i - 1) && OtherThan(acts[i - 1], t) ==> Rests(acts, t, j, i)
    ensures Rests(acts, t, j, i - 1) && j < i - 1 && acts[i - 1] == BuildFault(t) ==> FailedBuildAt(acts, t, j, i - 1)
  {
  }

  lemma BuildsOn(acts: seq<Action>, t: ThreadId, j: nat, i: nat)
    requires 0 < i <= |acts| && OnlyBuilds(acts, t, j, i - 1)
    ensures OtherThan(acts[i - 1], t) || acts[i - 1].BuildCredential? ==> OnlyBuilds(acts, t, j, i)
    ensures j < i - 1 && acts[i - 1] == MarkLost(t) ==> LostMarkAt(acts, t, j, i - 1)
  {
  }

  lemma EndedStays(acts: seq<Action>, j: nat, i: nat)
    requires j < i - 1 < |acts| && !acts[j].Tick? && EndedUnmarked(acts, i - 1, j)
    ensures EndedUnmarked(acts, i, j)
  {
  }

  lemma FateStart(s: State, s': State, acts: seq<Action>, j: nat, r: RecordId)
    requires j < |acts| && Next(s, acts[j], s') && AllocatesFor(s, acts[j], r)
    ensures EndedUnmarked(acts, j + 1, j) || StillUnderWay(s', acts, acts[j].t, j, j + 1, r)
  {
    JustAllocated(s, acts[j], s', r);
  }

  lemma FateStep(s: State, s': State, acts: seq<Action>, j: nat, i: nat, r: RecordId)
    requires j < i - 1 && i <= |acts| && !acts[j].Tick? && Next(s, acts[i - 1], s')
    requires StillUnderWay(s, acts, acts[j].t, j, i - 1, r)
    ensures || EndedUnmarked(acts, i, j)
            || StillUnderWay(s', acts, acts[j].t, j, i, r)
            || MarksIssued(s, acts[i - 1], r)
  {
    UnderWayStep(s, acts[i - 1], s', acts[j].t, r);
    RestsOn(acts, acts[j].t, j, i);
    BuildsOn(acts, acts[j].t, j, i);
  }

  /** Once past the allocator, an issue call is under way, has ended without a
      mark, or some call has marked the record. */
  lemma {:induction false} FateOfAllocation(ss: seq<State>, acts: seq<Action>, j: nat, i: nat, r: RecordId)
    requires Run(ss, acts) && j < i < |ss| && AllocatesFor(ss[j], acts[j], r)
    ensures || EndedUnmarked(acts, i, j)
            || StillUnderWay(ss[i], acts, acts[j].t, j, i, r)
            || HasMarked(ss, acts, i, r)
    decreases i
  {
    if j == i - 1 {
      FateStart(ss[j], ss[i], acts, j, r);
    } else {
      FateOfAllocation(ss, acts, j, i - 1, r);
      HasMarkedStep(ss, acts, i, r);
      if EndedUnmarked(acts, i - 1, j) {
        EndedStays(acts, j, i);
      } else if StillUnderWay(ss[i - 1], acts, acts[j].t, j, i - 1, r) {
        FateStep(ss[i - 1], ss[i], acts, j, i, r);
      }
    }
  }

  /** A call under way has allocated, and done nothing since but build. */
  lemma {:induction false} AllocationOf(ss: seq<State>, acts: seq<Action>, i: nat, t: ThreadId, r: RecordId)
    returns (j: nat)
    requires Run(ss, acts) && i < |ss| && UnderWay(ss[i], t, r)
    ensures j < i && acts[j] == Action.AllocateIdx(t) && AllocatesFor(ss[j], acts[j], r)
    ensures OnlyBuilds(acts, t, j, i)
  {
    var a := acts[i - 1];
    assert Next(ss[i - 1], a, ss[i]);
    if a == Action.AllocateIdx(t) {
      j := i - 1;
    } else {
      j := AllocationOf(ss, acts, i - 1, t, r);
    }
  }

  /** A call that marks has an allocation, and that one did not end unmarked. */
  lemma MarkedDidNotEndUnmarked(ss: seq<State>, acts: seq<Action>, k: nat, i: nat, r: RecordId) returns (j: nat)
    requires Run(ss, acts) && k < i < |ss| && MarksIssued(ss[k], acts[k], r)
    ensures j < i && AllocatesFor(ss[j], acts[j], r) && !EndedUnmarked(acts, i, j)
  {
    var t := acts[k].t;
    j := AllocationOf(ss, acts, k, t, r);
    forall n: nat | n < i
      ensures !FailedBuildAt(acts, t, j, n) && !LostMarkAt(acts, t, j, n)
    {
      if n < k {
        assert j < n ==> OtherThan(acts[n], t) || acts[n].BuildCredential?;
      } else if k < n {
        assert !OtherThan(acts[k], t);
      }
    }
  }

  /** The comment in the schema, in the terms of the branches that break it. While
      no issue call for r is under way, r has an entry without being issued
      exactly when some issue call for it reached the allocator and every one
      that did was told of a store error there, failed in the build, or handed
      out its credential with the mark lost. */
  lemma UnissuedEntryMeansNoneMarked(ss: seq<State>, acts: seq<Action>, i: nat, r: RecordId)
    requires Run(ss, acts) && i < |ss| && forall t :: !UnderWay(ss[i], t, r)
    ensures r in ss[i].alloc.byRec && !IsIssued(ss[i], r) <==>
            && HasAllocated(ss, acts, i, r)
            && (forall j :: 0 <= j < i && AllocatesFor(ss[j], acts[j], r) ==> EndedUnmarked(acts, i, j))
  {
    EntryMeansAllocated(ss, acts, i, r);
    IssuedMeansMarked(ss, acts, i, r);
    if IsIssued(ss[i], r) {
      var k :| 0 <= k < i && MarksIssued(ss[k], acts[k], r);
      var j := MarkedDidNotEndUnmarked(ss, acts, k, i, r);
    } else {
      forall j | 0 <= j < i && AllocatesFor(ss[j], acts[j], r)
        ensures EndedUnmarked(acts, i, j)
      {
        FateOfAllocation(ss, acts, j, i, r);
      }
    }
  }

  // ------------------------------------------------------------- who can be revoked

  lemma RefusedStep(s: State, a: Action, s': State, t: ThreadId)
    requires Next(s, a, s') && At(s, t).Failed? && (OtherThan(a, t) || RevokeStep(a))
    ensures At(s', t).Failed?
  {
  }

  lemma {:induction false} RefusedStays(ss: seq<State>, acts: seq<Action>, k: nat, j: nat, t: ThreadId)
    requires Run(ss, acts) && k <= j < |ss| && At(ss[k], t).Failed?
    requires forall m {:trigger acts[m]} :: k <= m < j ==> OtherThan(acts[m], t) || RevokeStep(acts[m])
    ensures At(ss[j], t).Failed?
  {
    if k < j {
      RefusedStays(ss, acts, k, j - 1, t);
      RefusedStep(ss[j - 1], acts[j - 1], ss[j], t);
    }
  }

  lemma CheckStep(s: State, a: Action, s': State, r: RecordId)
    requires Next(s, a, s') && a.CheckRecord? && At(s, a.t) == RevokeBegun(r) && r in s.alloc.byRec
    ensures if IsIssued(s, r) then RevokingWithoutFailure(s', a.t, r) else At(s', a.t).Failed?
  {
  }

  /** A credential that was handed out (point i) can be revoked exactly when some
      issue call's mark for its record took effect: a RevokeCredential call for
      the record that checks it later (step k) and meets no store error goes on
      to success if there was such a mark by then, and is refused if not. */
  lemma RevocableWhenMarked(ss: seq<State>, acts: seq<Action>, i: nat, t: ThreadId, k: nat, j: nat)
    requires Run(ss, acts) && i <= k < j < |ss| && At(ss[i], t).Issued?
    requires acts[k].CheckRecord? && At(ss[k], acts[k].t) == RevokeBegun(At(ss[i], t).cred.rec)
    requires forall m {:trigger acts[m]} :: k < m < j ==> OtherThan(acts[m], acts[k].t) || RevokeStep(acts[m])
    ensures var r := At(ss[i], t).cred.rec;
            if HasMarked(ss, acts, k, r) then RevokingWithoutFailure(ss[j], acts[k].t, r)
            else At(ss[j], acts[k].t).Failed?
  {
    var r := At(ss[i], t).cred.rec;
    IssuedIsOwned(ss, acts, i, t, k);
    IssuedMeansMarked(ss, acts, k, r);
    CheckStep(ss[k], acts[k], ss[k + 1], r);
    if IsIssued(ss[k], r) {
      StillRevoking(ss, acts, k + 1, j, acts[k].t, r);
    } else {
      RefusedStays(ss, acts, k + 1, j, acts[k].t);
    }
  }
}
