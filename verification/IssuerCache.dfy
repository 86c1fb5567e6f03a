/** The cached status list against the store, over every run: when the two
    differ, and for how long they can. */
module IssuerCache {
  import opened Common
  import opened StatusBits
  import opened StoreSpec
  import opened IssuerProtocol
  import opened IssuerSafety

  // ----------------------------------------------------- when a list was read

  /** In step b a list is built from the entries that were read in step r. */
  predicate ReadsFor(acts: seq<Action>, r: nat, b: nat)
    requires b < |acts|
  {
    && r < b && acts[b].BuildToken? && acts[r] == ReadEntries(acts[b].t)
    && Rests(acts, acts[b].t, r, b)
  }

  /** Between j and k the cache is neither cleared nor replaced. */
  predicate CacheKept(acts: seq<Action>, j: nat, k: nat)
    requires k <= |acts|
  {
    forall m {:trigger acts[m]} :: j < m < k ==> !acts[m].ClearCache? && !acts[m].BuildToken?
  }

  lemma LockHolderStep(s: State, a: Action, s': State, t: ThreadId)
    requires LockOk(s) && Next(s, a, s') && At(s, t).Snapshot? && At(s', t) == At(s, t)
    ensures OtherThan(a, t) && !a.ClearCache? && !a.BuildToken?
  {
    assert s.cacheLock == Some(t);
  }

  lemma KeptLonger(acts: seq<Action>, t: ThreadId, j: nat, k: nat)
    requires 0 < k <= |acts|
    ensures Rests(acts, t, j, k - 1) && OtherThan(acts[k - 1], t) ==> Rests(acts, t, j, k)
    ensures CacheKept(acts, j, k - 1) && !acts[k - 1].ClearCache? && !acts[k - 1].BuildToken? ==> CacheKept(acts, j, k)
  {
  }

  /** A rebuild that has read the entries holds the cache lock since. */
  lemma {:induction false} SnapshotIsDated(ss: seq<State>, acts: seq<Action>, i: nat, t: ThreadId) returns (r: nat)
    requires Run(ss, acts) && i < |ss| && At(ss[i], t).Snapshot?
    ensures r < i && acts[r] == ReadEntries(t) && Rests(acts, t, r, i) && CacheKept(acts, r, i)
    ensures At(ss[i], t).entries == ss[r].alloc.byIdx
  {
    RunKeepsInv(ss, acts, i - 1);
    SnapshotOrigin(ss[i - 1], acts[i - 1], ss[i], t);
    if acts[i - 1] == ReadEntries(t) {
      r := i - 1;
    } else {
      LockHolderStep(ss[i - 1], acts[i - 1], ss[i], t);
      r := SnapshotIsDated(ss, acts, i - 1, t);
      KeptLonger(acts, t, r, i);
    }
  }

  ghost predicate ListsAs(token: Token, entries: map<int, bv8>) {
    forall idx :: 0 <= idx ==> Unpack(token, idx) == StatusAt(entries, idx)
  }

  lemma BuiltList(s: State, a: Action, s': State)
    requires Next(s, a, s') && a.BuildToken?
    ensures At(s, a.t).Snapshot? && s'.token.Some? && At(s', a.t) == Served(s'.token.value)
    ensures ListsAs(s'.token.value, At(s, a.t).entries) && s'.tokenExp == s.now + STATUS_LIST_CACHE_TTL
  {
    forall idx | 0 <= idx
      ensures Unpack(s'.token.value, idx) == StatusAt(At(s, a.t).entries, idx)
    {
      ListShowsEntries(At(s, a.t).entries, a.size, idx);
    }
  }

  lemma TokenStays(s: State, a: Action, s': State)
    requires Next(s, a, s') && !a.BuildToken? && s'.token.Some?
    ensures !a.ClearCache? && s.token == s'.token && s.tokenExp == s'.tokenExp
  {
  }

  /** The cached list says at every index what the store said when its entries
      were read (step r), and expires 60 seconds after it was built (step b). */
  lemma {:induction false} TokenIsDated(ss: seq<State>, acts: seq<Action>, i: nat) returns (r: nat, b: nat)
    requires Run(ss, acts) && i < |ss| && ss[i].token.Some?
    ensures b < i && ReadsFor(acts, r, b) && CacheKept(acts, r, b) && CacheKept(acts, b, i)
    ensures ListsAs(ss[i].token.value, ss[r].alloc.byIdx) && ss[i].tokenExp == ss[b].now + STATUS_LIST_CACHE_TTL
  {
    var s, a, s' := ss[i - 1], acts[i - 1], ss[i];
    assert Next(s, a, s');
    if a.BuildToken? {
      b := i - 1;
      BuiltList(s, a, s');
      r := SnapshotIsDated(ss, acts, i - 1, a.t);
    } else {
      TokenStays(s, a, s');
      r, b := TokenIsDated(ss, acts, i - 1);
      KeptLonger(acts, acts[b].t, b, i);
    }
  }

  // -------------------------------------------------------- cache and store

  /** The step in which the store's status at idx turns INVALID. */
  predicate TurnsInvalid(s: State, a: Action, idx: int) {
    && (a.SetInvalid? || a.StatusAckLost?) && At(s, a.t).EntryFound?
    && Owns(s, At(s, a.t).rec, idx) && !ShowsInvalid(s, idx)
  }

  lemma TurnStep(s: State, a: Action, s': State, idx: int)
    requires StoreOk(s) && Next(s, a, s')
    ensures ShowsInvalid(s', idx) <==> ShowsInvalid(s, idx) || TurnsInvalid(s, a, idx)
  {
    AllocWrites(s, a, s');
  }

  lemma {:induction false} TurnBetween(ss: seq<State>, acts: seq<Action>, j: nat, i: nat, idx: int) returns (m: nat)
    requires Run(ss, acts) && j <= i < |ss| && !ShowsInvalid(ss[j], idx) && ShowsInvalid(ss[i], idx)
    ensures j <= m < i && TurnsInvalid(ss[m], acts[m], idx)
  {
    RunKeepsInv(ss, acts, i - 1);
    TurnStep(ss[i - 1], acts[i - 1], ss[i], idx);
    if ShowsInvalid(ss[i - 1], idx) {
      m := TurnBetween(ss, acts, j, i - 1, idx);
    } else {
      m := i - 1;
    }
  }

  /** In step k the cache is cleared, or replaced from entries read after step m. */
  ghost predicate RefreshesSince(acts: seq<Action>, m: nat, k: nat)
    requires k < |acts|
  {
    acts[k].ClearCache? || exists r: nat :: m < r && ReadsFor(acts, r, k)
  }

  /** idx turned INVALID in step m, and the cache was not refreshed since. */
  ghost predicate Missed(ss: seq<State>, acts: seq<Action>, i: nat, idx: int, m: nat)
    requires i <= |acts| && i <= |ss|
  {
    && m < i && TurnsInvalid(ss[m], acts[m], idx)
    && forall k: nat :: m < k < i ==> !RefreshesSince(acts, m, k)
  }

  /** A list is read once only, so if it was read before m, it was not after. */
  lemma ReadOnce(acts: seq<Action>, r: nat, b: nat, m: nat)
    requires b < |acts| && ReadsFor(acts, r, b) && r < m
    ensures !RefreshesSince(acts, m, b)
  {
    forall q: nat | m < q
      ensures !ReadsFor(acts, q, b)
    {
      if q < b {
        assert OtherThan(acts[q], acts[b].t);
      }
    }
  }

  lemma NoRefreshSinceRead(acts: seq<Action>, r: nat, b: nat, i: nat, m: nat)
    requires b < i <= |acts| && ReadsFor(acts, r, b) && CacheKept(acts, r, b) && CacheKept(acts, b, i) && r < m
    ensures forall k: nat :: m < k < i ==> !RefreshesSince(acts, m, k)
  {
    forall k: nat | m < k < i
      ensures !RefreshesSince(acts, m, k)
    {
      if k == b {
        ReadOnce(acts, r, b, m);
      }
    }
  }

  lemma BehindMeansMissed(ss: seq<State>, acts: seq<Action>, i: nat, idx: int) returns (m: nat)
    requires Run(ss, acts) && i < |ss| && ss[i].token.Some? && 0 <= idx
    requires Unpack(ss[i].token.value, idx) != INVALID && ShowsInvalid(ss[i], idx)
    ensures Missed(ss, acts, i, idx, m)
  {
    var r, b := TokenIsDated(ss, acts, i);
    assert INVALID & 3 == INVALID;
    m := TurnBetween(ss, acts, r, i, idx);
    NoRefreshSinceRead(acts, r, b, i, m);
  }

  lemma MissedMeansBehind(ss: seq<State>, acts: seq<Action>, i: nat, idx: int, m: nat)
    requires Run(ss, acts) && i < |ss| && ss[i].token.Some? && 0 <= idx && Missed(ss, acts, i, idx, m)
    ensures Unpack(ss[i].token.value, idx) == VALID && ShowsInvalid(ss[i], idx)
  {
    var r, b := TokenIsDated(ss, acts, i);
    if m < r {
      assert RefreshesSince(acts, m, b);
    }
    RunKeepsInv(ss, acts, r);
    RunKeepsInv(ss, acts, m);
    TurnStep(ss[m], acts[m], ss[m + 1], idx);
    RunGrows(ss, acts, m + 1, i);
    RunGrows(ss, acts, r, m);
    NotInvalidMeansValid(ss[r], idx);
  }

  lemma NotInvalidMeansValid(s: State, idx: int)
    requires StoreOk(s) && !ShowsInvalid(s, idx)
    ensures StatusAt(s.alloc.byIdx, idx) == VALID
  {
    assert VALID & 3 == VALID;
  }

  /** The cached list says what the store says at an index, those allocated
      since it was built included, exactly when the index did not turn INVALID
      with the cache neither cleared since nor replaced by a list whose entries
      were read since. */
  lemma CacheIsBehindWhenMissed(ss: seq<State>, acts: seq<Action>, i: nat, idx: int)
    requires Run(ss, acts) && i < |ss|
    requires ss[i].token.Some? && 0 <= idx < ss[i].alloc.next
    ensures idx in ss[i].alloc.byIdx
    ensures Unpack(ss[i].token.value, idx) == ss[i].alloc.byIdx[idx] <==>
            forall m: nat :: !Missed(ss, acts, i, idx, m)
  {
    RunKeepsInv(ss, acts, i);
    assert VALID & 3 == VALID && INVALID & 3 == INVALID;
    assert Agrees(ss[i], idx, Unpack(ss[i].token.value, idx));
    if Unpack(ss[i].token.value, idx) != ss[i].alloc.byIdx[idx] {
      var m := BehindMeansMissed(ss, acts, i, idx);
    }
    if m: nat :| Missed(ss, acts, i, idx, m) {
      MissedMeansBehind(ss, acts, i, idx, m);
    }
  }

  /** A revocation of idx stands between its SetStatus and its cache clear. */
  ghost predicate RevocationPending(s: State, idx: int) {
    exists t :: t in s.calls && s.calls[t].StatusSet? && s.calls[t].idx == idx
  }

  lemma StatusSetStays(s: State, a: Action, s': State, t: ThreadId)
    requires Next(s, a, s') && !a.ClearCache? && t in s.calls && s.calls[t].StatusSet?
    ensures t in s'.calls && s'.calls[t] == s.calls[t]
  {
  }

  /** A call that has set the status next clears the cache. */
  lemma {:induction false} PendingUntilClear(ss: seq<State>, acts: seq<Action>, m: nat, i: nat, t: ThreadId, idx: int)
    requires Run(ss, acts) && m <= i < |ss|
    requires t in ss[m].calls && ss[m].calls[t].StatusSet? && ss[m].calls[t].idx == idx
    requires forall k {:trigger acts[k]} :: m <= k < i ==> !acts[k].ClearCache?
    ensures t in ss[i].calls && ss[i].calls[t] == ss[m].calls[t]
  {
    if m < i {
      PendingUntilClear(ss, acts, m, i - 1, t, idx);
      StatusSetStays(ss[i - 1], acts[i - 1], ss[i], t);
    }
  }

  lemma MissedIsPendingOrLost(ss: seq<State>, acts: seq<Action>, i: nat, idx: int, m: nat)
    requires Run(ss, acts) && i < |ss| && Missed(ss, acts, i, idx, m)
    ensures acts[m].StatusAckLost? || RevocationPending(ss[i], idx)
  {
    if acts[m].SetInvalid? {
      var t := acts[m].t;
      assert Next(ss[m], acts[m], ss[m + 1]);
      assert ss[m + 1].calls[t].StatusSet? && ss[m + 1].calls[t].idx == idx;
      forall k: nat | m < k < i
        ensures !acts[k].ClearCache?
      {
        assert !RefreshesSince(acts, m, k);
      }
      PendingUntilClear(ss, acts, m + 1, i, t, idx);
    }
  }

  /** So while no revocation stands between SetStatus and its cache clear, the
      cached list says what the store says at every index, unless a SetStatus
      that took effect there was reported to its caller as failed, with no
      refresh of the cache since; and then it does not. */
  lemma CacheRefinesStore(ss: seq<State>, acts: seq<Action>, i: nat, idx: int)
    requires Run(ss, acts) && i < |ss|
    requires ss[i].token.Some? && 0 <= idx < ss[i].alloc.next
    requires !RevocationPending(ss[i], idx)
    ensures idx in ss[i].alloc.byIdx
    ensures Unpack(ss[i].token.value, idx) == ss[i].alloc.byIdx[idx] <==>
            forall m: nat :: Missed(ss, acts, i, idx, m) ==> !acts[m].StatusAckLost?
  {
    CacheIsBehindWhenMissed(ss, acts, i, idx);
    forall m: nat | Missed(ss, acts, i, idx, m)
      ensures acts[m].StatusAckLost?
    {
      MissedIsPendingOrLost(ss, acts, i, idx, m);
    }
  }

  // ---------------------------------------------------------------- staleness

  /** From reading the entries to storing the list, a rebuild takes at most limit. */
  ghost predicate QuickRebuilds(ss: seq<State>, acts: seq<Action>, limit: int) {
    |ss| == |acts| + 1 &&
    forall r: nat, b: nat :: b < |acts| && ReadsFor(acts, r, b) ==> ss[b].now <= ss[r].now + limit
  }

  lemma HitList(s: State, a: Action, s': State)
    requires Next(s, a, s') && a.CacheHit?
    ensures s.token.Some? && s.now < s.tokenExp && At(s', a.t) == Served(s.token.value)
  {
  }

  /** Every list handed out says what the store said when its entries were read,
      less than 60 seconds and a rebuild ago. */
  lemma ServedListIsDated(ss: seq<State>, acts: seq<Action>, j: nat, limit: int) returns (r: nat)
    requires Run(ss, acts) && QuickRebuilds(ss, acts, limit) && j < |acts| && Serves(acts[j])
    ensures r < j && At(ss[j + 1], acts[j].t).Served? && ss[j].now < ss[r].now + STATUS_LIST_CACHE_TTL + limit
    ensures ListsAs(At(ss[j + 1], acts[j].t).token, ss[r].alloc.byIdx)
  {
    var b;
    if acts[j].CacheHit? {
      HitList(ss[j], acts[j], ss[j + 1]);
      r, b := TokenIsDated(ss, acts, j);
    } else {
      BuiltList(ss[j], acts[j], ss[j + 1]);
      r := SnapshotIsDated(ss, acts, j, acts[j].t);
      assert ReadsFor(acts, r, j);
    }
  }

  /** Whatever became of the call that revoked it: an index that is INVALID at
      some time reads INVALID in every list handed out from 60 seconds and a
      rebuild later on. */
  lemma InvalidIsListedInTime(ss: seq<State>, acts: seq<Action>, m: nat, j: nat, idx: int, limit: int)
    requires Run(ss, acts) && QuickRebuilds(ss, acts, limit) && m < |ss| && j < |acts| && Serves(acts[j])
    requires 0 <= idx && ShowsInvalid(ss[m], idx) && ss[m].now + STATUS_LIST_CACHE_TTL + limit <= ss[j].now
    ensures At(ss[j + 1], acts[j].t).Served? && Unpack(At(ss[j + 1], acts[j].t).token, idx) == INVALID
  {
    var r := ServedListIsDated(ss, acts, j, limit);
    if r <= m {
      RunGrows(ss, acts, r, m);
    } else {
      RunGrows(ss, acts, m, r);
    }
    assert INVALID & 3 == INVALID;
  }
}
