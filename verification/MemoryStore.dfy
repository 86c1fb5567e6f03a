/** The in-memory issuance store. Each method is one lock region; StoreSpec
    says what it does. */
module MemoryStore {
  import opened Common
  import opened StatusBits
  import opened StoreSpec
  import Paging

  class Store {
    var records: map<RecordId, Record>
    var byIssuerState: map<string, RecordId>

    var statusNextIdx: int
    var statusByIdx: map<int, bv8>
    var statusByRecId: map<RecordId, int>

    function AllocView(): Alloc
      reads this`statusNextIdx, this`statusByIdx, this`statusByRecId
    {
      Alloc(statusNextIdx, statusByIdx, statusByRecId)
    }

    function RecordsView(): Records
      reads this`records, this`byIssuerState
    {
      Records(records, byIssuerState)
    }

    /** Every record is filed under its own id, and the records that have a
        status entry own exactly the indices allocated. */
    ghost predicate Valid()
      reads this
    {
      AllocValid(AllocView()) && forall id :: id in records ==> records[id].id == id
    }

    constructor ()
      ensures AllocView() == EMPTY_ALLOC && RecordsView() == NO_RECORDS && Valid()
    {
      records, byIssuerState := map[], map[];
      statusNextIdx, statusByIdx, statusByRecId := 0, map[], map[];
    }

    /** id is the random record id. */
    method Create(credentialType: string, credentialData: string, sourceType: string, sourceRef: string,
                  id: RecordId, now: int) returns (rec: Record)
      requires Valid()
      modifies this`records
      ensures Valid()
      ensures rec == NewRecord(id, credentialType, credentialData, sourceType, sourceRef, now)
      ensures RecordsView() == Insert(old(RecordsView()), rec)
      ensures records == old(records)[id := rec]
      ensures rec.id == id && rec.credentialType == credentialType && rec.status == Pending && rec.issuerState == ""
      ensures rec.credentialData == if credentialData == "" then "{}" else credentialData
      ensures rec.sourceType == sourceType && rec.sourceRef == sourceRef && rec.createdAt == rec.updatedAt == now
    {
      var data := credentialData;
      if data == "" {
        data := "{}";
      }
      rec := Record(id, credentialType, data, sourceType, sourceRef, Pending, "", now, now);
      records := records[rec.id := rec];
    }

    method FindById(id: RecordId) returns (rec: Option<Record>)
      ensures rec == if id in records then Some(records[id]) else None
    {
      if id in records {
        return Some(records[id]);
      }
      return None;
    }

    method FindByState(issuerState: string) returns (rec: Option<Record>)
      ensures rec == FindByIssuerState(RecordsView(), issuerState)
      ensures IndexValid(RecordsView()) && issuerState != "" && rec.Some? ==>
                OnlyRowWithState(RecordsView(), issuerState, rec.value)
    {
      if issuerState !in byIssuerState {
        return None;
      }
      rec := FindById(byIssuerState[issuerState]);
    }

    method SetRecordStatus(id: RecordId, status: RecordStatus, now: int)
      requires Valid()
      modifies this`records
      ensures Valid()
      ensures RecordsView() == UpdateStatus(old(RecordsView()), id, status, now)
      ensures records == if id !in old(records) then old(records)
                         else old(records)[id := old(records)[id].(status := status, updatedAt := now)]
    {
      if id in records {
        records := records[id := records[id].(status := status, updatedAt := now)];
      }
    }

    method SetIssuerState(id: RecordId, issuerState: string, now: int)
      requires Valid()
      modifies this`records, this`byIssuerState
      ensures Valid()
      ensures RecordsView() == UpdateIssuerState(old(RecordsView()), id, issuerState, now)
      ensures records == if id !in old(records) then old(records)
                         else old(records)[id := old(records)[id].(issuerState := issuerState, updatedAt := now)]
      ensures byIssuerState == if id in records then old(byIssuerState)[issuerState := id] else old(byIssuerState)
    {
      if id !in records {
        return;
      }
      records := records[id := records[id].(issuerState := issuerState, updatedAt := now)];
      byIssuerState := byIssuerState[issuerState := id];
    }

    method FindAll(offset: nat, limit: nat, sortField: string, sortOrder: string)
      returns (page: seq<Record>, total: nat)
      requires Valid()
      ensures Paging.IsPage(page, records, offset, limit, Paging.FieldOf(sortField), Paging.Descending(sortOrder))
      ensures total == |records|
    {
      page, total := Paging.FindAll(records, offset, limit, sortField, sortOrder);
    }

    /** Get-or-create. */
    method AllocateIdx(rec: RecordId) returns (idx: int)
      requires Valid()
      modifies this`statusNextIdx, this`statusByIdx, this`statusByRecId
      ensures Valid()
      ensures (AllocView(), idx) == Allocate(old(AllocView()), rec)
      ensures statusByRecId == old(statusByRecId)[rec := idx] && idx in statusByIdx
      ensures if rec in old(statusByRecId)
              then statusByIdx == old(statusByIdx) && statusByRecId == old(statusByRecId)
              else idx !in old(statusByIdx) && statusByIdx == old(statusByIdx)[idx := VALID]
    {
      AllocateKeepsValid(AllocView(), rec);
      if rec in statusByRecId {
        return statusByRecId[rec];
      }
      idx := statusNextIdx;
      statusNextIdx := statusNextIdx + 1;
      statusByIdx := statusByIdx[idx := VALID];
      statusByRecId := statusByRecId[rec := idx];
    }

    method SetEntryStatus(rec: RecordId, v: bv8) returns (idx: Option<int>)
      requires Valid()
      modifies this`statusByIdx
      ensures Valid()
      ensures (AllocView(), idx) == SetStatus(old(AllocView()), rec, v)
      ensures idx.Some? <==> rec in statusByRecId
      ensures match idx
              case Some(i) => i == statusByRecId[rec] && statusByIdx == old(statusByIdx)[i := v]
              case None => statusByIdx == old(statusByIdx)
    {
      SetStatusKeepsValid(AllocView(), rec, v);
      if rec !in statusByRecId {
        return None;
      }
      statusByIdx := statusByIdx[statusByRecId[rec] := v];
      return Some(statusByRecId[rec]);
    }

    method FindByRecordId(rec: RecordId) returns (entry: Option<(int, bv8)>)
      requires Valid()
      ensures entry == FindEntry(AllocView(), rec)
      ensures entry.Some? <==> rec in statusByRecId
      ensures entry.Some? ==>
                && statusByRecId[rec] in statusByIdx
                && entry.value == (statusByRecId[rec], statusByIdx[statusByRecId[rec]])
    {
      if rec !in statusByRecId {
        return None;
      }
      var idx := statusByRecId[rec];
      return Some((idx, if idx in statusByIdx then statusByIdx[idx] else VALID));
    }

    /** A copy of the entries, made in whatever order the map yields them. */
    method AllEntries() returns (out: map<int, bv8>)
      ensures out == AllocView().byIdx
    {
      out := map[];
      var rest := statusByIdx.Keys;
      while exists idx :: idx in rest
        invariant rest <= statusByIdx.Keys
        invariant out == map i | i in statusByIdx.Keys - rest :: statusByIdx[i]
        decreases |rest|
      {
        var idx :| idx in rest;
        out := out[idx := statusByIdx[idx]];
        rest := rest - {idx};
      }
    }
  }
}
