/** PostgresStore's status-list methods, statement by statement, as one caller
    runs them while no other transaction holds the sequence row. Every
    statement is a step of the interleaved system. */
module PostgresStore {
  import opened Common
  import opened StatusBits
  import opened StoreSpec
  import opened PostgresAlloc

  datatype StoreError = QueryFailed

  /** Which of the call's statements fails, if any. */
  datatype Fault = NoFault | AtBegin | AtSelect | AtUpdate | AtInsert | AtCommit | AckLost

  class PgStore {
    var db: Db

    constructor ()
      ensures Init(db)
    {
      db := Db(map[], 0, None, map[]);
    }

    /** Carries out one statement. */
    method Step(a: PostgresAlloc.Action, next: Db)
      requires Inv(db) && Next(db, a, next)
      modifies this
      ensures db == next && Inv(db)
      ensures Abs(db) == match OpOf(old(db), a) { case Some(op) => Perform(Abs(old(db)), op) case None => Abs(old(db)) }
      ensures a.Commit? ==>
                && At(db, a.t).Returned?
                && Allocate(Abs(old(db)), At(db, a.t).rec) == (Abs(db), At(db, a.t).idx)
    {
      StepKeepsInv(db, a, next);
      StepRefines(db, a, next);
      db := next;
    }

    /** The deferred Rollback of a transaction that did not commit. */
    method Rollback(t: TxId)
      requires Inv(db) && t in db.txs && InProgress(db.txs[t])
      requires db.seqLock == None || db.seqLock == Some(t)
      modifies this
      ensures Inv(db) && Abs(db) == Abs(old(db)) && db.seqLock == None
    {
      Step(Abort(t), Go(Release(db, t), t, Errored(At(db, t).rec)));
    }

    method Finish(t: TxId, fault: Fault) returns (r: Result<int, StoreError>)
      requires Inv(db) && (At(db, t).FoundRow? || At(db, t).Inserted?)
      requires db.seqLock == None || db.seqLock == Some(t)
      modifies this
      ensures Inv(db) && db.seqLock == None
      ensures var (alloc, idx) := Allocate(Abs(old(db)), At(old(db), t).rec);
              match r
              case Ok(i) => i == idx && Abs(db) == alloc
              case Err(_) => Abs(db) == Abs(old(db)) || (fault == AckLost && Abs(db) == alloc)
      ensures r.Ok? <==> fault != AtCommit && fault != AckLost
    {
      var idx := At(db, t).idx;
      assert TxOk(db, t);
      if fault == AtCommit {
        Rollback(t);
        return Err(QueryFailed);
      } else if fault == AckLost {
        Step(CommitAckLost(t), Go(Committed(db, t), t, Errored(At(db, t).rec)));
        return Err(QueryFailed);
      }
      Step(Commit(t), Go(Committed(db, t), t, Returned(At(db, t).rec, idx)));
      return Ok(idx);
    }

    /** Get-or-create in one transaction. A success is the in-memory
        allocator's answer and effect; a failure has no effect, unless it is
        only the commit's acknowledgement that was lost. */
    method AllocateIdx(t: TxId, rec: RecordId, fault: Fault) returns (r: Result<int, StoreError>)
      requires Inv(db) && !InProgress(At(db, t)) && db.seqLock == None
      modifies this
      ensures Inv(db) && db.seqLock == None
      ensures var (alloc, idx) := Allocate(Abs(old(db)), rec);
              match r
              case Ok(i) => i == idx && Abs(db) == alloc
              case Err(_) => Abs(db) == Abs(old(db)) || (fault == AckLost && Abs(db) == alloc)
      ensures fault == NoFault ==> r.Ok?
    {
      if fault == AtBegin {
        return Err(QueryFailed);
      }
      Step(Begin(t, rec), Go(db, t, Begun(rec)));
      if fault == AtSelect {
        Rollback(t);
        return Err(QueryFailed);
      }
      if existing :| existing in db.entries && db.entries[existing].rec == rec {
        Step(Select(t, Some(existing)), Go(db, t, FoundRow(rec, existing)));
        r := Finish(t, fault);
        return;
      }
      Step(Select(t, None), Go(db, t, NoRow(rec)));
      if fault == AtUpdate {
        Rollback(t);
        return Err(QueryFailed);
      }
      Step(UpdateSeq(t), Go(db.(seqLock := Some(t)), t, Drawn(rec, db.nextIdx)));
      if fault == AtInsert {
        Rollback(t);
        return Err(QueryFailed);
      }
      assert NoRowFor(db.entries, rec);
      InsertIsDecided(db, t, db);
      Step(Insert(t), Go(db, t, Inserted(rec, At(db, t).idx)));
      r := Finish(t, fault);
    }

    /** The UPDATE, and the idx it returns; None if it finds no row or fails, be
        it only that its answer is lost. */
    method SetStatus(rec: RecordId, v: bv8, fault: Fault) returns (idx: Option<int>)
      requires Inv(db)
      modifies this
      ensures Inv(db) && db.seqLock == old(db.seqLock) && db.txs == old(db.txs)
      ensures var (alloc, i) := StoreSpec.SetStatus(Abs(old(db)), rec, v);
              && Abs(db) == (if fault == NoFault || fault == AckLost then alloc else Abs(old(db)))
              && idx == if fault == NoFault then i else None
    {
      if fault != NoFault && fault != AckLost {
        return None;
      }
      SetStatusRefines(db, rec, v);
      Step(PostgresAlloc.SetStatus(rec, v), db.(entries := WithStatus(db.entries, rec, v)));
      if fault == AckLost {
        return None;
      }
      if existing :| existing in db.entries && db.entries[existing].rec == rec {
        assert HasRow(old(db).entries, rec, existing);
        return Some(existing);
      }
      return None;
    }

    /** Scans the rows in whatever order the query yields them; the scan of the
        row with index badRow fails. */
    method AllEntries(badRow: Option<int>) returns (r: Result<map<int, bv8>, StoreError>)
      ensures r == if badRow.Some? && badRow.value in db.entries then Err(QueryFailed) else Ok(Abs(db).byIdx)
    {
      var out: map<int, bv8> := map[];
      var rest := db.entries.Keys;
      while exists idx :: idx in rest
        invariant rest <= db.entries.Keys
        invariant out == map i | i in db.entries.Keys - rest :: db.entries[i].status
        invariant badRow.Some? && badRow.value in db.entries ==> badRow.value in rest
        decreases |rest|
      {
        var idx :| idx in rest;
        if badRow == Some(idx) {
          return Err(QueryFailed);
        }
        out := out[idx := db.entries[idx].status];
        rest := rest - {idx};
      }
      assert out == Abs(db).byIdx;
      return Ok(out);
    }
  }
}
