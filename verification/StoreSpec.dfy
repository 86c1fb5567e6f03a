/** What each lock region of the issuance store does, as functions on values:
    the status-index allocator and the issuance records. */
module StoreSpec {
  import opened Common
  import opened StatusBits

  type RecordId = string

  // ---------------------------------------------------------------- allocator

  datatype Alloc = Alloc(next: int, byIdx: map<int, bv8>, byRec: map<RecordId, int>)

  const EMPTY_ALLOC := Alloc(0, map[], map[])

  /** Get-or-create: the record's own idx, or the next free one, as VALID. */
  function Allocate(a: Alloc, r: RecordId): (Alloc, int) {
    if r in a.byRec then (a, a.byRec[r])
    else (Alloc(a.next + 1, a.byIdx[a.next := VALID], a.byRec[r := a.next]), a.next)
  }

  function SetStatus(a: Alloc, r: RecordId, v: bv8): (Alloc, Option<int>) {
    if r in a.byRec then (a.(byIdx := a.byIdx[a.byRec[r] := v]), Some(a.byRec[r])) else (a, None)
  }

  function FindEntry(a: Alloc, r: RecordId): Option<(int, bv8)> {
    if r !in a.byRec then None
    else Some((a.byRec[r], if a.byRec[r] in a.byIdx then a.byIdx[a.byRec[r]] else VALID))
  }

  /** The records own exactly the indices 0..next-1, one each. */
  ghost predicate AllocValid(a: Alloc) {
    && 0 <= a.next
    && (forall i :: i in a.byIdx <==> 0 <= i < a.next)
    && (forall r :: r in a.byRec ==> 0 <= a.byRec[r] < a.next)
    && (forall r, q :: r in a.byRec && q in a.byRec && a.byRec[r] == a.byRec[q] ==> r == q)
    && (forall i :: 0 <= i < a.next ==> Owned(a, i))
  }

  ghost predicate Owned(a: Alloc, i: int) {
    exists r :: r in a.byRec && a.byRec[r] == i
  }

  lemma AllocateKeepsValid(a: Alloc, r: RecordId)
    requires AllocValid(a)
    ensures AllocValid(Allocate(a, r).0)
  {
    var b := Allocate(a, r).0;
    forall i | 0 <= i < b.next
      ensures Owned(b, i)
    {
      if i < a.next {
        assert Owned(a, i);
        var q :| q in a.byRec && a.byRec[q] == i;
        assert q in b.byRec && b.byRec[q] == i;
      } else {
        assert r in b.byRec && b.byRec[r] == i;
      }
    }
  }

  lemma SetStatusKeepsValid(a: Alloc, r: RecordId, v: bv8)
    requires AllocValid(a)
    ensures AllocValid(SetStatus(a, r, v).0)
  {
    var b := SetStatus(a, r, v).0;
    forall i | 0 <= i < b.next
      ensures Owned(b, i)
    {
      assert Owned(a, i);
    }
  }

  /** Re-issuance cannot leak a second idx: allocating again, after any other
      records were served in between, returns the first answer. */
  lemma {:induction false} AllocationIsPermanent(a: Alloc, r: RecordId, others: seq<RecordId>)
    ensures var (b, i) := Allocate(a, r);
            var c := AllocateAll(b, others);
            && r in c.byRec && c.byRec[r] == i
            && Allocate(c, r) == (c, i)
    decreases |others|
  {
    if others != [] {
      var init, last := others[..|others| - 1], others[|others| - 1];
      AllocationIsPermanent(a, r, init);
    }
  }

  function AllocateAll(a: Alloc, rs: seq<RecordId>): Alloc {
    if rs == [] then a else Allocate(AllocateAll(a, rs[..|rs| - 1]), rs[|rs| - 1]).0
  }

  /** What the entries say after each operation: nothing at first; a record's
      first allocation gives it an entry, as VALID, and no later one changes it;
      a new status is shown for its own record, if that has an entry. No other
      record's entry is touched. */
  lemma EntriesFollowHistory(a: Alloc, r: RecordId, v: bv8, q: RecordId)
    requires AllocValid(a)
    ensures FindEntry(EMPTY_ALLOC, q) == None
    ensures FindEntry(Allocate(a, r).0, q)
            == if q == r && r !in a.byRec then Some((a.next, VALID)) else FindEntry(a, q)
    ensures FindEntry(SetStatus(a, r, v).0, q)
            == if q == r && r in a.byRec then Some((a.byRec[r], v)) else FindEntry(a, q)
    ensures FindEntry(Allocate(a, r).0, r).Some? && FindEntry(Allocate(a, r).0, r).value.0 == Allocate(a, r).1
    ensures SetStatus(a, r, v).1 == if r in a.byRec then Some(a.byRec[r]) else None
  {
  }

  // ------------------------------------------------------------------ records

  datatype RecordStatus = Pending | OfferCreated | CredentialIssued

  datatype Record = Record(id: RecordId, credentialType: string, credentialData: string,
                           sourceType: string, sourceRef: string, status: RecordStatus,
                           issuerState: string, createdAt: int, updatedAt: int)

  datatype Records = Records(byId: map<RecordId, Record>, byState: map<string, RecordId>)

  const NO_RECORDS := Records(map[], map[])

  function NewRecord(id: RecordId, credentialType: string, credentialData: string,
                     sourceType: string, sourceRef: string, now: int): Record {
    Record(id, credentialType, if credentialData == "" then "{}" else credentialData,
           sourceType, sourceRef, Pending, "", now, now)
  }

  function Insert(s: Records, rec: Record): Records {
    s.(byId := s.byId[rec.id := rec])
  }

  function UpdateStatus(s: Records, id: RecordId, status: RecordStatus, now: int): Records {
    if id in s.byId then s.(byId := s.byId[id := s.byId[id].(status := status, updatedAt := now)]) else s
  }

  function UpdateIssuerState(s: Records, id: RecordId, issuerState: string, now: int): Records {
    if id in s.byId then
      Records(s.byId[id := s.byId[id].(issuerState := issuerState, updatedAt := now)], s.byState[issuerState := id])
    else s
  }

  /** The in-memory lookup, through the issuer_state index. */
  function FindByIssuerState(s: Records, issuerState: string): Option<Record> {
    if issuerState in s.byState && s.byState[issuerState] in s.byId
    then Some(s.byId[s.byState[issuerState]]) else None
  }

  /** What the Postgres query `WHERE issuer_state = $1` means: rec is a row
      carrying that issuer_state, and no other row does. */
  ghost predicate OnlyRowWithState(s: Records, issuerState: string, rec: Record) {
    && rec.id in s.byId && s.byId[rec.id] == rec && rec.issuerState == issuerState
    && forall id :: id in s.byId && s.byId[id].issuerState == issuerState ==> id == rec.id
  }

  /** The index lists exactly the nonempty issuer_states in the records. */
  ghost predicate IndexValid(s: Records) {
    && (forall id :: id in s.byId ==> s.byId[id].id == id)
    && (forall id :: id in s.byId && s.byId[id].issuerState != "" ==>
          s.byId[id].issuerState in s.byState && s.byState[s.byId[id].issuerState] == id)
    && (forall st :: st in s.byState ==>
          st != "" && s.byState[st] in s.byId && s.byId[s.byState[st]].issuerState == st)
  }

  /** Under a valid index the lookup answers as the scan does, hit or miss. */
  lemma IndexAgreesWithScan(s: Records, st: string)
    requires IndexValid(s) && st != ""
    ensures match FindByIssuerState(s, st)
            case Some(rec) => OnlyRowWithState(s, st, rec)
            case None => forall id :: id in s.byId ==> s.byId[id].issuerState != st
  {
  }

  /** Giving a record a second issuer_state leaves the first one in the index:
      the lookup then finds a record that the scan does not. So a valid index
      survives exactly the updates that are a record's first. */
  lemma FirstStateOnly(s: Records, id: RecordId, st: string, now: int)
    requires IndexValid(s) && id in s.byId
    ensures IndexValid(UpdateIssuerState(s, id, st, now)) <==>
            && st != ""
            && (s.byId[id].issuerState == "" || s.byId[id].issuerState == st)
            && (st in s.byState ==> s.byState[st] == id)
  {
    var t := UpdateIssuerState(s, id, st, now);
    var was := s.byId[id].issuerState;
    assert t.byState[st] == id && t.byId[id].issuerState == st;
    if st != "" && was != "" && was != st {
      assert was in t.byState && t.byState[was] == id;
    }
    if st in s.byState && s.byState[st] != id {
      var other := s.byState[st];
      assert t.byId[other].issuerState == st;
    }
  }
}
