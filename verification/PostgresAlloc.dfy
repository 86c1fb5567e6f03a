/** Interleaved PostgresStore.AllocateIdx transactions under READ COMMITTED,
    and the status_list_entries and status_list_seq tables they share. */
module PostgresAlloc {
  import opened Common
  import opened StatusBits
  import opened StoreSpec

  type TxId = int

  datatype Row = Row(rec: RecordId, status: bv8)

  /** A call of AllocateIdx, by the last statement it has completed. Writes not
      yet committed live here: a Drawn or Inserted transaction has set next_idx
      to idx + 1, an Inserted one also has its row. */
  datatype Tx =
    | Begun(rec: RecordId) | FoundRow(rec: RecordId, idx: int) | NoRow(rec: RecordId)
    | Drawn(rec: RecordId, idx: int) | Inserted(rec: RecordId, idx: int)
    | Returned(rec: RecordId, idx: int) | Errored(rec: RecordId)

  /** The committed tables, and who holds the row lock on the sequence row. */
  datatype Db = Db(entries: map<int, Row>, nextIdx: int, seqLock: Option<TxId>, txs: map<TxId, Tx>)

  datatype Action =
    | Begin(t: TxId, rec: RecordId) | Select(t: TxId, found: Option<int>)
    | UpdateSeq(t: TxId) | Insert(t: TxId)
    | Commit(t: TxId) | CommitAckLost(t: TxId) | Abort(t: TxId)
    | SetStatus(rec: RecordId, v: bv8)

  ghost predicate Init(s: Db) {
    s == Db(map[], 0, None, map[])
  }

  predicate InProgress(x: Tx) {
    !x.Returned? && !x.Errored?
  }

  predicate HasRow(entries: map<int, Row>, rec: RecordId, idx: int) {
    idx in entries && entries[idx].rec == rec
  }

  predicate NoRowFor(entries: map<int, Row>, rec: RecordId) {
    forall i :: i in entries ==> entries[i].rec != rec
  }

  function At(s: Db, t: TxId): Tx {
    if t in s.txs then s.txs[t] else Errored("")
  }

  function Go(s: Db, t: TxId, x: Tx): Db {
    s.(txs := s.txs[t := x])
  }

  function Release(s: Db, t: TxId): Db {
    if s.seqLock == Some(t) then s.(seqLock := None) else s
  }

  /** The commit of t: its row and its new next_idx become visible, and the row
      lock is released. */
  function Committed(s: Db, t: TxId): Db {
    var x := At(s, t);
    if x.Inserted? then
      s.(entries := s.entries[x.idx := Row(x.rec, VALID)], nextIdx := x.idx + 1, seqLock := None)
    else s
  }

  function WithStatus(entries: map<int, Row>, rec: RecordId, v: bv8): map<int, Row> {
    map i | i in entries :: if entries[i].rec == rec then entries[i].(status := v) else entries[i]
  }

  ghost predicate Next(s: Db, a: Action, s': Db) {
    match a
    case Begin(t, rec) =>
      !InProgress(At(s, t)) && s' == Go(s, t, Begun(rec))
    case Select(t, found) =>
      && At(s, t).Begun?
      && var rec := At(s, t).rec;
      match found {
        case Some(idx) => HasRow(s.entries, rec, idx) && s' == Go(s, t, FoundRow(rec, idx))
        case None => NoRowFor(s.entries, rec) && s' == Go(s, t, NoRow(rec))
      }
    // Waits for the row lock, then reads the value committed last.
    case UpdateSeq(t) =>
      && At(s, t).NoRow? && s.seqLock == None
      && s' == Go(s.(seqLock := Some(t)), t, Drawn(At(s, t).rec, s.nextIdx))
    // Waits for any uncommitted insert of the same key; a committed one is an
    // error, which rolls the transaction back.
    case Insert(t) =>
      && At(s, t).Drawn?
      && var Drawn(rec, idx) := At(s, t);
      && (forall u :: u in s.txs && u != t && s.txs[u].Inserted? ==> s.txs[u].rec != rec && s.txs[u].idx != idx)
      && s' == if idx !in s.entries && NoRowFor(s.entries, rec)
               then Go(s, t, Inserted(rec, idx)) else Go(Release(s, t), t, Errored(rec))
    case Commit(t) =>
      && (At(s, t).FoundRow? || At(s, t).Inserted?)
      && s' == Go(Committed(s, t), t, Returned(At(s, t).rec, At(s, t).idx))
    // The server commits but the caller is told of an error.
    case CommitAckLost(t) =>
      && (At(s, t).FoundRow? || At(s, t).Inserted?)
      && s' == Go(Committed(s, t), t, Errored(At(s, t).rec))
    case Abort(t) =>
      t in s.txs && InProgress(s.txs[t]) && s' == Go(Release(s, t), t, Errored(At(s, t).rec))
    case SetStatus(rec, v) =>
      s' == s.(entries := WithStatus(s.entries, rec, v))
  }

  ghost predicate Run(ss: seq<Db>, acts: seq<Action>) {
    && |ss| == |acts| + 1 && Init(ss[0])
    && forall i :: 0 <= i < |acts| ==> Next(ss[i], acts[i], ss[i + 1])
  }

  // --------------------------------------------------------------- invariant

  ghost predicate TablesOk(s: Db) {
    && 0 <= s.nextIdx
    && (forall i :: i in s.entries <==> 0 <= i < s.nextIdx)
    && (forall i, j :: i in s.entries && j in s.entries && s.entries[i].rec == s.entries[j].rec ==> i == j)
  }

  ghost predicate TxOk(s: Db, t: TxId) {
    && ((At(s, t).Drawn? || At(s, t).Inserted?) <==> s.seqLock == Some(t))
    && match At(s, t) {
         case FoundRow(rec, idx) => HasRow(s.entries, rec, idx)
         case Drawn(rec, idx) => idx == s.nextIdx
         case Inserted(rec, idx) => idx == s.nextIdx && NoRowFor(s.entries, rec)
         case Returned(rec, idx) => HasRow(s.entries, rec, idx)
         case _ => true
       }
  }

  ghost predicate Inv(s: Db) {
    TablesOk(s) && forall t :: TxOk(s, t)
  }

  lemma StepKeepsInv(s: Db, a: Action, s': Db)
    requires Inv(s) && Next(s, a, s')
    ensures Inv(s')
  {
    if !a.SetStatus? {
      assert TxOk(s, a.t);
    }
    forall u
      ensures TxOk(s', u)
    {
      assert TxOk(s, u);
    }
  }

  lemma {:induction false} RunKeepsInv(ss: seq<Db>, acts: seq<Action>, i: nat)
    requires Run(ss, acts) && i < |ss|
    ensures Inv(ss[i])
  {
    if i > 0 {
      RunKeepsInv(ss, acts, i - 1);
      StepKeepsInv(ss[i - 1], acts[i - 1], ss[i]);
    }
  }

  // -------------------------------------------------------------- refinement

  ghost predicate Known(entries: map<int, Row>, rec: RecordId) {
    exists i :: HasRow(entries, rec, i)
  }

  ghost function IdxOf(entries: map<int, Row>, rec: RecordId): (i: int)
    requires Known(entries, rec)
    ensures HasRow(entries, rec, i)
  {
    var i :| HasRow(entries, rec, i); i
  }

  /** The in-memory allocator that the committed tables stand for. */
  ghost function Abs(s: Db): Alloc {
    Alloc(s.nextIdx,
          map i | i in s.entries :: s.entries[i].status,
          map r | r in (set i | i in s.entries :: s.entries[i].rec) && Known(s.entries, r) :: IdxOf(s.entries, r))
  }

  lemma AbsOwner(s: Db, rec: RecordId)
    requires TablesOk(s)
    ensures rec in Abs(s).byRec <==> Known(s.entries, rec)
    ensures forall idx :: rec in Abs(s).byRec && Abs(s).byRec[rec] == idx <==> HasRow(s.entries, rec, idx)
  {
    if Known(s.entries, rec) {
      var i := IdxOf(s.entries, rec);
      assert i in s.entries && s.entries[i].rec == rec;
    }
  }

  lemma AbsIsValid(s: Db)
    requires TablesOk(s)
    ensures AllocValid(Abs(s))
  {
    forall i | 0 <= i < s.nextIdx
      ensures Owned(Abs(s), i)
    {
      AbsOwner(s, s.entries[i].rec);
      assert HasRow(s.entries, s.entries[i].rec, i);
    }
  }

  /** Two tables with the same owners stand for the same owners. */
  lemma SameOwners(s: Db, s': Db)
    requires TablesOk(s) && TablesOk(s')
    requires forall rec, idx :: HasRow(s.entries, rec, idx) <==> HasRow(s'.entries, rec, idx)
    ensures Abs(s').byRec == Abs(s).byRec
  {
    forall r
      ensures r in Abs(s).byRec <==> r in Abs(s').byRec
      ensures r in Abs(s).byRec ==> Abs(s).byRec[r] == Abs(s').byRec[r]
    {
      SameOwner(s, s', r);
    }
  }

  lemma SameOwner(s: Db, s': Db, r: RecordId)
    requires TablesOk(s) && TablesOk(s')
    requires forall idx :: HasRow(s.entries, r, idx) <==> HasRow(s'.entries, r, idx)
    ensures r in Abs(s).byRec <==> r in Abs(s').byRec
    ensures r in Abs(s).byRec ==> Abs(s).byRec[r] == Abs(s').byRec[r]
  {
    AbsOwner(s, r);
    AbsOwner(s', r);
    assert Known(s.entries, r) <==> Known(s'.entries, r);
  }

  lemma OneMoreOwnerAt(s: Db, s': Db, rec: RecordId, r: RecordId)
    requires TablesOk(s) && TablesOk(s') && NoRowFor(s.entries, rec)
    requires s'.entries == s.entries[s.nextIdx := Row(rec, VALID)]
    ensures var owners := Abs(s).byRec[rec := s.nextIdx];
            (r in owners <==> r in Abs(s').byRec) && (r in owners ==> owners[r] == Abs(s').byRec[r])
  {
    AbsOwner(s, r);
    AbsOwner(s', r);
    assert forall i :: HasRow(s'.entries, r, i) <==> HasRow(s.entries, r, i) || (r == rec && i == s.nextIdx);
    if r == rec {
      assert HasRow(s'.entries, r, s.nextIdx);
    } else if Known(s.entries, r) {
      assert HasRow(s'.entries, r, IdxOf(s.entries, r));
    } else if Known(s'.entries, r) {
      assert HasRow(s.entries, r, IdxOf(s'.entries, r));
    }
  }

  /** A row at next_idx for a record that had none makes that record one more owner. */
  lemma OneMoreOwner(s: Db, s': Db, rec: RecordId)
    requires TablesOk(s) && TablesOk(s') && NoRowFor(s.entries, rec)
    requires s'.entries == s.entries[s.nextIdx := Row(rec, VALID)]
    ensures Abs(s').byRec == Abs(s).byRec[rec := s.nextIdx]
  {
    forall r
      ensures var owners := Abs(s).byRec[rec := s.nextIdx];
              (r in owners <==> r in Abs(s').byRec) && (r in owners ==> owners[r] == Abs(s').byRec[r])
    {
      OneMoreOwnerAt(s, s', rec, r);
    }
  }

  lemma CommitRefines(s: Db, t: TxId, s': Db)
    requires Inv(s) && TablesOk(s') && s'.entries == Committed(s, t).entries && s'.nextIdx == Committed(s, t).nextIdx
    requires At(s, t).FoundRow? || At(s, t).Inserted?
    ensures Allocate(Abs(s), At(s, t).rec) == (Abs(s'), At(s, t).idx)
  {
    var rec, idx := At(s, t).rec, At(s, t).idx;
    assert TxOk(s, t);
    AbsOwner(s, rec);
    if At(s, t).FoundRow? {
      SameOwners(s, s');
    } else {
      OneMoreOwner(s, s', rec);
      assert Allocate(Abs(s), rec).0.byIdx == Abs(s').byIdx;
    }
  }

  lemma WithStatusKeepsTables(s: Db, rec: RecordId, v: bv8)
    requires TablesOk(s)
    ensures var s' := s.(entries := WithStatus(s.entries, rec, v));
            && TablesOk(s')
            && forall r, idx :: HasRow(s.entries, r, idx) <==> HasRow(s'.entries, r, idx)
  {
  }

  /** The idx that the UPDATE returns, if it finds a row. */
  ghost function Updated(entries: map<int, Row>, rec: RecordId): Option<int> {
    if Known(entries, rec) then Some(IdxOf(entries, rec)) else None
  }

  /** The statuses after the UPDATE: changed in the record's row, if it has one. */
  lemma StatusesAfter(s: Db, rec: RecordId, v: bv8)
    requires TablesOk(s)
    ensures Abs(s.(entries := WithStatus(s.entries, rec, v))).byIdx
            == if Known(s.entries, rec) then Abs(s).byIdx[IdxOf(s.entries, rec) := v] else Abs(s).byIdx
  {
    forall i | i in s.entries
      ensures s.entries[i].rec == rec <==> Known(s.entries, rec) && i == IdxOf(s.entries, rec)
    {
      if s.entries[i].rec == rec {
        assert HasRow(s.entries, rec, i);
      }
    }
  }

  lemma SetStatusRefines(s: Db, rec: RecordId, v: bv8)
    requires TablesOk(s)
    ensures var s' := s.(entries := WithStatus(s.entries, rec, v));
            TablesOk(s') && (Abs(s'), Updated(s.entries, rec)) == StoreSpec.SetStatus(Abs(s), rec, v)
  {
    var s' := s.(entries := WithStatus(s.entries, rec, v));
    WithStatusKeepsTables(s, rec, v);
    SameOwners(s, s');
    AbsOwner(s, rec);
    StatusesAfter(s, rec, v);
  }

  /** The in-memory operation that a step of the database carries out, if any. */
  datatype Op = AllocOp(rec: RecordId) | StatusOp(rec: RecordId, v: bv8)

  function Perform(a: Alloc, op: Op): Alloc {
    match op
    case AllocOp(rec) => Allocate(a, rec).0
    case StatusOp(rec, v) => StoreSpec.SetStatus(a, rec, v).0
  }

  function OpOf(s: Db, a: Action): Option<Op> {
    match a
    case Commit(t) => Some(AllocOp(At(s, t).rec))
    case CommitAckLost(t) => Some(AllocOp(At(s, t).rec))
    case SetStatus(rec, v) => Some(StatusOp(rec, v))
    case _ => None
  }

  /** Every step is an in-memory operation or invisible; the step that returns
      an idx to its caller is an in-memory AllocateIdx returning that idx. */
  lemma StepRefines(s: Db, a: Action, s': Db)
    requires Inv(s) && Next(s, a, s')
    ensures Abs(s') == match OpOf(s, a) { case Some(op) => Perform(Abs(s), op) case None => Abs(s) }
    ensures a.Commit? ==> At(s', a.t).Returned? && Allocate(Abs(s), At(s', a.t).rec) == (Abs(s'), At(s', a.t).idx)
  {
    StepKeepsInv(s, a, s');
    match a
    case Commit(t) => CommitRefines(s, t, s');
    case CommitAckLost(t) => CommitRefines(s, t, s');
    case SetStatus(rec, v) => SetStatusRefines(s, rec, v);
    case _ => SameOwners(s, s');
  }

  function Log(ss: seq<Db>, acts: seq<Action>, n: nat): seq<Op>
    requires n <= |acts| && n <= |ss|
  {
    if n == 0 then []
    else match OpOf(ss[n - 1], acts[n - 1]) {
      case Some(op) => Log(ss, acts, n - 1) + [op]
      case None => Log(ss, acts, n - 1)
    }
  }

  function PerformAll(ops: seq<Op>): Alloc {
    if ops == [] then EMPTY_ALLOC else Perform(PerformAll(ops[..|ops| - 1]), ops[|ops| - 1])
  }

  /** Any number of interleaved transactions linearise: the committed tables
      are what the in-memory store holds after the committed calls, run one
      after another in the order of their commits. */
  lemma {:induction false} RunLinearises(ss: seq<Db>, acts: seq<Action>, n: nat)
    requires Run(ss, acts) && n < |ss|
    ensures Abs(ss[n]) == PerformAll(Log(ss, acts, n))
  {
    if n == 0 {
      assert Abs(ss[0]) == EMPTY_ALLOC;
    } else {
      RunLinearises(ss, acts, n - 1);
      RunKeepsInv(ss, acts, n - 1);
      StepRefines(ss[n - 1], acts[n - 1], ss[n]);
      var log := Log(ss, acts, n - 1);
      if OpOf(ss[n - 1], acts[n - 1]).Some? {
        var op := OpOf(ss[n - 1], acts[n - 1]).value;
        assert (log + [op])[..|log|] == log;
      }
    }
  }

  // ------------------------------------------------------------ main results

  /** Committed indices are exactly 0..next_idx-1, no gap left by an abort, and
      each belongs to one record which has no other. */
  lemma CommittedIndicesAreDense(ss: seq<Db>, acts: seq<Action>, i: nat)
    requires Run(ss, acts) && i < |ss|
    ensures forall idx :: idx in ss[i].entries <==> 0 <= idx < ss[i].nextIdx
    ensures forall idx, jdx :: idx in ss[i].entries && jdx in ss[i].entries && idx != jdx ==>
              ss[i].entries[idx].rec != ss[i].entries[jdx].rec
    ensures AllocValid(Abs(ss[i]))
  {
    RunKeepsInv(ss, acts, i);
    AbsIsValid(ss[i]);
  }

  lemma {:induction false} RowsAreKept(ss: seq<Db>, acts: seq<Action>, i: nat, j: nat, rec: RecordId, idx: int)
    requires Run(ss, acts) && i <= j < |ss|
    requires HasRow(ss[i].entries, rec, idx)
    ensures HasRow(ss[j].entries, rec, idx)
  {
    if i < j {
      RowsAreKept(ss, acts, i, j - 1, rec, idx);
      RunKeepsInv(ss, acts, j - 1);
      var s, a := ss[j - 1], acts[j - 1];
      assert Next(s, a, ss[j]);
      if !a.SetStatus? {
        assert TxOk(s, a.t);
      }
    }
  }

  /** Two calls that succeed, anywhere in a run, return the same idx exactly
      when they were made for the same record. */
  lemma SuccessesAgree(ss: seq<Db>, acts: seq<Action>, i: nat, t: TxId, j: nat, u: TxId)
    requires Run(ss, acts) && i <= j < |ss|
    requires At(ss[i], t).Returned? && At(ss[j], u).Returned?
    ensures At(ss[i], t).rec == At(ss[j], u).rec <==> At(ss[i], t).idx == At(ss[j], u).idx
  {
    RunKeepsInv(ss, acts, i);
    RunKeepsInv(ss, acts, j);
    assert TxOk(ss[i], t) && TxOk(ss[j], u);
    RowsAreKept(ss, acts, i, j, At(ss[i], t).rec, At(ss[i], t).idx);
  }

  /** The row lock leaves no room for two inserts in flight, so an insert never
      waits on another; it is refused exactly when its record has a row. */
  lemma InsertIsDecided(s: Db, t: TxId, s': Db)
    requires Inv(s) && At(s, t).Drawn?
    ensures forall u :: u in s.txs && u != t ==> !s.txs[u].Inserted?
    ensures Next(s, Insert(t), s') ==> (At(s', t).Errored? <==> Known(s.entries, At(s, t).rec))
  {
    assert TxOk(s, t);
    forall u | u in s.txs && u != t
      ensures !s.txs[u].Inserted?
    {
      assert TxOk(s, u);
    }
    if !NoRowFor(s.entries, At(s, t).rec) {
      var i :| i in s.entries && s.entries[i].rec == At(s, t).rec;
      assert HasRow(s.entries, At(s, t).rec, i);
    }
  }

  /** The commit of a row for rec. */
  predicate CommitsRow(s: Db, a: Action, rec: RecordId) {
    (a.Commit? || a.CommitAckLost?) && At(s, a.t).Inserted? && At(s, a.t).rec == rec
  }

  lemma KnownStep(s: Db, a: Action, s': Db, rec: RecordId)
    requires Inv(s) && Next(s, a, s')
    ensures Known(s'.entries, rec) <==> Known(s.entries, rec) || CommitsRow(s, a, rec)
  {
    if a.SetStatus? {
      WithStatusKeepsTables(s, a.rec, a.v);
      assert forall i :: HasRow(s.entries, rec, i) <==> HasRow(s'.entries, rec, i);
    } else if (a.Commit? || a.CommitAckLost?) && At(s, a.t).Inserted? {
      CommittedRows(s, a.t, rec);
    }
  }

  lemma CommittedRows(s: Db, t: TxId, rec: RecordId)
    requires Inv(s) && At(s, t).Inserted?
    ensures Known(Committed(s, t).entries, rec) <==> Known(s.entries, rec) || At(s, t).rec == rec
  {
    assert TxOk(s, t);
    var x, entries := At(s, t), Committed(s, t).entries;
    assert HasRow(entries, x.rec, x.idx);
    assert forall r, i :: i != x.idx ==> (HasRow(entries, r, i) <==> HasRow(s.entries, r, i));
    if Known(s.entries, rec) {
      assert HasRow(entries, rec, IdxOf(s.entries, rec));
    }
    if Known(entries, rec) && x.rec != rec {
      assert HasRow(s.entries, rec, IdxOf(entries, rec));
    }
  }

  /** Some row for rec was committed in a step from i on and before j. */
  ghost predicate CommittedBetween(ss: seq<Db>, acts: seq<Action>, i: nat, j: nat, rec: RecordId)
    requires j <= |acts| && j <= |ss|
  {
    exists k :: i <= k < j && CommitsRow(ss[k], acts[k], rec)
  }

  lemma {:induction false} KnownSince(ss: seq<Db>, acts: seq<Action>, i: nat, j: nat, rec: RecordId)
    requires Run(ss, acts) && i <= j < |ss| && !Known(ss[i].entries, rec)
    ensures Known(ss[j].entries, rec) <==> CommittedBetween(ss, acts, i, j, rec)
  {
    if i < j {
      KnownSince(ss, acts, i, j - 1, rec);
      RunKeepsInv(ss, acts, j - 1);
      KnownStep(ss[j - 1], acts[j - 1], ss[j], rec);
    }
  }

  /** t takes no step of its own. */
  predicate OtherThan(a: Action, t: TxId) {
    a.SetStatus? || a.t != t
  }

  lemma {:induction false} StandsStill(ss: seq<Db>, acts: seq<Action>, i: nat, j: nat, t: TxId)
    requires Run(ss, acts) && i <= j < |ss|
    requires forall m :: i <= m < j ==> OtherThan(acts[m], t)
    ensures At(ss[j], t) == At(ss[i], t)
  {
    if i < j {
      StandsStill(ss, acts, i, j - 1, t);
      assert Next(ss[j - 1], acts[j - 1], ss[j]);
    }
  }

  lemma NoCommitUnderLock(s: Db, a: Action, t: TxId, rec: RecordId)
    requires Inv(s) && At(s, t).Drawn? && OtherThan(a, t)
    ensures !CommitsRow(s, a, rec)
  {
    assert TxOk(s, t);
    if !a.SetStatus? {
      assert TxOk(s, a.t);
    }
  }

  /** The unique index, over a run: a call whose SELECT found no row (step i),
      whose UPDATE then drew an index (step u) and whose INSERT follows (step j)
      is refused exactly when another call for its record committed its row
      between the SELECT and the UPDATE. */
  lemma InsertIsRefusedWhenOvertaken(ss: seq<Db>, acts: seq<Action>, i: nat, u: nat, j: nat, t: TxId)
    requires Run(ss, acts) && i < u < j < |acts|
    requires acts[i] == Select(t, None) && acts[u] == UpdateSeq(t) && acts[j] == Insert(t)
    requires forall m :: i < m < j && m != u ==> OtherThan(acts[m], t)
    ensures At(ss[j + 1], t).Errored? <==> CommittedBetween(ss, acts, i + 1, u, At(ss[i], t).rec)
  {
    var rec := At(ss[i], t).rec;
    assert Next(ss[i], acts[i], ss[i + 1]) && Next(ss[u], acts[u], ss[u + 1]) && Next(ss[j], acts[j], ss[j + 1]);
    StandsStill(ss, acts, i + 1, u, t);
    StandsStill(ss, acts, u + 1, j, t);
    RunKeepsInv(ss, acts, j);
    InsertIsDecided(ss[j], t, ss[j + 1]);
    SelectFoundNone(ss[i], t, ss[i + 1]);
    KnownSince(ss, acts, i + 1, u, rec);
    KnownUnderLock(ss, acts, u, j, t, rec);
  }

  lemma SelectFoundNone(s: Db, t: TxId, s': Db)
    requires Next(s, Select(t, None), s')
    ensures !Known(s'.entries, At(s, t).rec) && At(s', t) == NoRow(At(s, t).rec)
  {
  }

  /** From the UPDATE on, the row lock keeps other commits of rows out. */
  lemma {:induction false} KnownUnderLock(ss: seq<Db>, acts: seq<Action>, u: nat, j: nat, t: TxId, rec: RecordId)
    requires Run(ss, acts) && u < j < |ss| && acts[u] == UpdateSeq(t)
    requires forall m :: u < m < j ==> OtherThan(acts[m], t)
    ensures Known(ss[j].entries, rec) <==> Known(ss[u].entries, rec)
  {
    assert Next(ss[j - 1], acts[j - 1], ss[j]) && Next(ss[u], acts[u], ss[u + 1]);
    if u < j - 1 {
      KnownUnderLock(ss, acts, u, j - 1, t, rec);
      RunKeepsInv(ss, acts, j - 1);
      StandsStill(ss, acts, u + 1, j - 1, t);
      NoCommitUnderLock(ss[j - 1], acts[j - 1], t, rec);
      KnownStep(ss[j - 1], acts[j - 1], ss[j], rec);
    }
  }
}
