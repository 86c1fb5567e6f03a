/** Listing issuance records: collecting them in map order, sorting, and cutting
    the pages. */
module Paging {
  import opened Common
  import opened StoreSpec

  // ---------------------------------------------------------------- sort keys

  datatype Field = CreatedAt | UpdatedAt | Status | CredentialType

  /** Unknown fields fall back to created_at, unknown orders to desc. */
  function FieldOf(sortField: string): Field {
    if sortField == "updated_at" then UpdatedAt
    else if sortField == "status" then Status
    else if sortField == "credential_type" then CredentialType
    else CreatedAt
  }

  predicate Descending(sortOrder: string) {
    sortOrder != "asc"
  }

  function StatusText(s: RecordStatus): string {
    match s
    case Pending => "pending"
    case OfferCreated => "offer_created"
    case CredentialIssued => "credential_issued"
  }

  predicate TextLess(a: string, b: string) {
    b != [] && (a == [] || a[0] < b[0] || (a[0] == b[0] && TextLess(a[1..], b[1..])))
  }

  predicate SortLess(a: Record, b: Record, f: Field) {
    match f
    case UpdatedAt => a.updatedAt < b.updatedAt
    case Status => TextLess(StatusText(a.status), StatusText(b.status))
    case CredentialType => TextLess(a.credentialType, b.credentialType)
    case CreatedAt => a.createdAt < b.createdAt
  }

  /** The comparison handed to the sort: `!less` for descending. */
  predicate Compare(a: Record, b: Record, f: Field, desc: bool) {
    if desc then !SortLess(a, b, f) else SortLess(a, b, f)
  }

  /** a belongs strictly before b. */
  predicate Before(a: Record, b: Record, f: Field, desc: bool) {
    if desc then SortLess(b, a, f) else SortLess(a, b, f)
  }

  predicate SameKey(a: Record, b: Record, f: Field) {
    !SortLess(a, b, f) && !SortLess(b, a, f)
  }

  lemma {:induction false} TextOrder(a: string, b: string, c: string)
    ensures !(TextLess(a, b) && TextLess(b, a))
    ensures TextLess(a, b) && TextLess(b, c) ==> TextLess(a, c)
    ensures !TextLess(a, b) && !TextLess(b, a) ==> a == b
  {
    if a != [] && b != [] {
      TextOrder(a[1..], b[1..], if c == [] then c else c[1..]);
      assert a == [a[0]] + a[1..] && b == [b[0]] + b[1..];
    }
  }

  /** a is less than b exactly when it is a proper prefix, or has the lesser
      character where the two first differ. */
  lemma {:induction false} TextLessMeans(a: string, b: string)
    ensures TextLess(a, b) <==>
            exists k :: 0 <= k <= |a| && k < |b| && a[..k] == b[..k] && (k < |a| ==> a[k] < b[k])
  {
    if a != [] && b != [] && a[0] == b[0] {
      TextLessMeans(a[1..], b[1..]);
      if k :| 0 <= k <= |a[1..]| && k < |b[1..]| && a[1..][..k] == b[1..][..k]
              && (k < |a[1..]| ==> a[1..][k] < b[1..][k])
      {
        assert a[..k + 1] == [a[0]] + a[1..][..k] && b[..k + 1] == [b[0]] + b[1..][..k];
        assert a[..k + 1] == b[..k + 1] && (k + 1 < |a| ==> a[k + 1] < b[k + 1]);
      }
      if k :| 0 <= k <= |a| && k < |b| && a[..k] == b[..k] && (k < |a| ==> a[k] < b[k]) {
        assert a[1..][..k - 1] == a[..k][1..] && b[1..][..k - 1] == b[..k][1..];
        assert a[1..][..k - 1] == b[1..][..k - 1] && (k - 1 < |a[1..]| ==> a[1..][k - 1] < b[1..][k - 1]);
      }
    } else if b != [] && (a == [] || a[0] < b[0]) {
      assert a[..0] == b[..0];
    } else {
      assert forall k :: 0 < k <= |a| && k < |b| ==> a[..k][0] == a[0] && b[..k][0] == b[0];
    }
  }

  /** Strictly before is a strict order, total but for equal keys. */
  lemma BeforeIsStrictOrder(a: Record, b: Record, c: Record, f: Field, desc: bool)
    ensures !(Before(a, b, f, desc) && Before(b, a, f, desc))
    ensures Before(a, b, f, desc) && Before(b, c, f, desc) ==> Before(a, c, f, desc)
    ensures SameKey(a, b, f) || Before(a, b, f, desc) || Before(b, a, f, desc)
    ensures SameKey(a, b, f) ==> (Before(a, c, f, desc) <==> Before(b, c, f, desc))
    ensures SameKey(a, b, f) ==> (Before(c, a, f, desc) <==> Before(c, b, f, desc))
    ensures !SameKey(a, b, f) ==> (Compare(a, b, f, desc) <==> Before(a, b, f, desc))
  {
    var s, t, u := StatusText(a.status), StatusText(b.status), StatusText(c.status);
    TextOrder(s, t, u);
    TextOrder(u, t, s);
    TextOrder(t, s, u);
    TextOrder(a.credentialType, b.credentialType, c.credentialType);
    TextOrder(c.credentialType, b.credentialType, a.credentialType);
    TextOrder(b.credentialType, a.credentialType, c.credentialType);
  }

  // ----------------------------------------------------------------- listings

  ghost predicate FiledById(records: map<RecordId, Record>) {
    forall id :: id in records ==> records[id].id == id
  }

  predicate Occurs(l: seq<Record>, id: RecordId) {
    exists i :: 0 <= i < |l| && l[i].id == id
  }

  /** l has every record exactly once. */
  ghost predicate IsListing(l: seq<Record>, records: map<RecordId, Record>) {
    && (forall i :: 0 <= i < |l| ==> l[i].id in records && records[l[i].id] == l[i])
    && (forall i, j :: 0 <= i < j < |l| ==> l[i].id != l[j].id)
    && (forall id :: id in records ==> Occurs(l, id))
  }

  ghost predicate DistinctKeys(records: map<RecordId, Record>, f: Field) {
    forall x, y :: x in records && y in records && x != y ==> !SameKey(records[x], records[y], f)
  }

  ghost predicate Sorted(l: seq<Record>, f: Field, desc: bool) {
    forall i, j :: 0 <= i < j < |l| ==> Before(l[i], l[j], f, desc)
  }

  /** No record stands after one that belongs strictly after it. */
  ghost predicate SortedUpToTies(l: seq<Record>, f: Field, desc: bool) {
    forall i, j :: 0 <= i < j < |l| ==> !Before(l[j], l[i], f, desc)
  }

  /** What Go's sort makes of the records: every one once; in order when no two
      share a key; and, ascending, with no pair the wrong way round even then.
      Descending, `!less` holds both ways between equal keys, so it is no order
      that the sort could keep to. */
  ghost predicate IsOrdered(l: seq<Record>, records: map<RecordId, Record>, f: Field, desc: bool) {
    && IsListing(l, records)
    && (DistinctKeys(records, f) ==> Sorted(l, f, desc))
    && (!desc ==> SortedUpToTies(l, f, desc))
  }

  lemma DistinctMeansSorted(l: seq<Record>, records: map<RecordId, Record>, f: Field, desc: bool)
    requires IsListing(l, records) && DistinctKeys(records, f) && SortedUpToTies(l, f, desc)
    ensures Sorted(l, f, desc)
  {
    forall i, j | 0 <= i < j < |l|
      ensures Before(l[i], l[j], f, desc)
    {
      assert l[i].id != l[j].id && !Before(l[j], l[i], f, desc);
      assert !SameKey(records[l[i].id], records[l[j].id], f);
    }
  }

  lemma InsertKeepsListing(l: seq<Record>, m: map<RecordId, Record>, x: Record, p: nat)
    requires IsListing(l, m) && x.id !in m && p <= |l|
    ensures IsListing(l[..p] + [x] + l[p..], m[x.id := x])
  {
    var l' := l[..p] + [x] + l[p..];
    forall id | id in m[x.id := x]
      ensures Occurs(l', id)
    {
      if id == x.id {
        assert l'[p].id == id;
      } else {
        assert Occurs(l, id);
        var i :| 0 <= i < |l| && l[i].id == id;
        assert l'[if i < p then i else i + 1].id == id;
      }
    }
  }

  /** The map from ids to the first n records. */
  function Prefix(l: seq<Record>, n: nat): map<RecordId, Record>
    requires n <= |l|
  {
    if n == 0 then map[] else Prefix(l, n - 1)[l[n - 1].id := l[n - 1]]
  }

  predicate OccursBefore(l: seq<Record>, n: nat, id: RecordId)
    requires n <= |l|
  {
    exists i :: 0 <= i < n && l[i].id == id
  }

  lemma {:induction false} PrefixHas(l: seq<Record>, records: map<RecordId, Record>, n: nat)
    requires IsListing(l, records) && n <= |l|
    ensures forall id :: id in Prefix(l, n) <==> OccursBefore(l, n, id)
    ensures forall id :: id in Prefix(l, n) ==> id in records && Prefix(l, n)[id] == records[id]
  {
    if n > 0 {
      PrefixHas(l, records, n - 1);
      forall id
        ensures id in Prefix(l, n) <==> OccursBefore(l, n, id)
      {
        assert OccursBefore(l, n, id) <==> OccursBefore(l, n - 1, id) || id == l[n - 1].id;
      }
    }
  }

  lemma WholePrefix(l: seq<Record>, records: map<RecordId, Record>)
    requires IsListing(l, records)
    ensures Prefix(l, |l|) == records
  {
    PrefixHas(l, records, |l|);
    forall id | id in records
      ensures id in Prefix(l, |l|)
    {
      assert Occurs(l, id);
      assert OccursBefore(l, |l|, id);
    }
  }

  lemma NotBeforeIsTransitive(a: Record, b: Record, c: Record, f: Field, desc: bool)
    requires !Before(b, a, f, desc) && !Before(c, b, f, desc)
    ensures !Before(c, a, f, desc)
  {
    BeforeIsStrictOrder(b, c, a, f, desc);
  }

  /** x may stand at p in l. */
  predicate Fits(l: seq<Record>, x: Record, p: nat, f: Field, desc: bool) {
    && p <= |l|
    && (p > 0 ==> !Before(x, l[p - 1], f, desc))
    && (p < |l| ==> !Before(l[p], x, f, desc))
  }

  lemma InsertKeepsOrder(l: seq<Record>, x: Record, p: nat, f: Field, desc: bool)
    requires SortedUpToTies(l, f, desc) && Fits(l, x, p, f, desc)
    ensures SortedUpToTies(l[..p] + [x] + l[p..], f, desc)
  {
    forall i | 0 <= i < p
      ensures !Before(x, l[i], f, desc)
    {
      if i < p - 1 {
        NotBeforeIsTransitive(l[i], l[p - 1], x, f, desc);
      }
    }
    forall i | p <= i < |l|
      ensures !Before(l[i], x, f, desc)
    {
      if p < i {
        NotBeforeIsTransitive(x, l[p], l[i], f, desc);
      }
    }
  }

  /** Where x goes in l. */
  method Position(l: seq<Record>, x: Record, f: Field, desc: bool) returns (p: nat)
    ensures Fits(l, x, p, f, desc)
  {
    p := |l|;
    while p > 0 && Compare(x, l[p - 1], f, desc)
      invariant 0 <= p <= |l|
      invariant p < |l| ==> !Before(l[p], x, f, desc)
    {
      BeforeIsStrictOrder(x, l[p - 1], x, f, desc);
      p := p - 1;
    }
    if p > 0 {
      BeforeIsStrictOrder(x, l[p - 1], x, f, desc);
    }
  }

  method Inserted(l: seq<Record>, x: Record, f: Field, desc: bool, ghost m: map<RecordId, Record>)
    returns (l': seq<Record>)
    requires IsListing(l, m) && SortedUpToTies(l, f, desc) && x.id !in m
    ensures IsListing(l', m[x.id := x]) && SortedUpToTies(l', f, desc)
  {
    var p := Position(l, x, f, desc);
    InsertKeepsOrder(l, x, p, f, desc);
    InsertKeepsListing(l, m, x, p);
    l' := l[..p] + [x] + l[p..];
  }

  lemma NewId(l: seq<Record>, records: map<RecordId, Record>, n: nat)
    requires IsListing(l, records) && n < |l|
    ensures l[n].id !in Prefix(l, n)
  {
    PrefixHas(l, records, n);
  }

  /** Inserts the records one after another. */
  method InsertAll(all: seq<Record>, f: Field, desc: bool, ghost records: map<RecordId, Record>)
    returns (out: seq<Record>)
    requires IsListing(all, records)
    ensures IsListing(out, records) && SortedUpToTies(out, f, desc)
  {
    out := [];
    for n := 0 to |all|
      invariant IsListing(out, Prefix(all, n)) && SortedUpToTies(out, f, desc)
    {
      NewId(all, records, n);
      out := Inserted(out, all[n], f, desc, Prefix(all, n));
    }
    WholePrefix(all, records);
  }

  /** Stands for sort.Slice. */
  method SortSlice(all: seq<Record>, f: Field, desc: bool, ghost records: map<RecordId, Record>)
    returns (out: seq<Record>)
    requires IsListing(all, records)
    ensures IsOrdered(out, records, f, desc)
  {
    out := InsertAll(all, f, desc, records);
    if DistinctKeys(records, f) {
      DistinctMeansSorted(out, records, f, desc);
    }
  }

  // -------------------------------------------------------------------- pages

  /** The part of a listing that FindAll returns. */
  function Page(l: seq<Record>, offset: nat, limit: nat): seq<Record> {
    if offset >= |l| then [] else l[offset..if offset + limit > |l| then |l| else offset + limit]
  }

  /** page is the asked part of some ordered listing of the records. */
  ghost predicate IsPage(page: seq<Record>, records: map<RecordId, Record>, offset: nat, limit: nat, f: Field,
                         desc: bool)
  {
    exists l :: IsOrdered(l, records, f, desc) && page == Page(l, offset, limit)
  }

  /** x does not come after y in ascending order of the field asked for; any
      field not listed means created_at. */
  ghost predicate NotAfter(x: Record, y: Record, sortField: string) {
    if sortField == "updated_at" then x.updatedAt <= y.updatedAt
    else if sortField == "status" then x.status == y.status || x.status == CredentialIssued || y.status == Pending
    else if sortField == "credential_type" then x.credentialType == y.credentialType || TypeLess(x, y)
    else x.createdAt <= y.createdAt
  }

  /** x's type is a proper prefix of y's, or the lesser where they first differ. */
  ghost predicate TypeLess(x: Record, y: Record) {
    var a, b := x.credentialType, y.credentialType;
    exists k :: 0 <= k <= |a| && k < |b| && a[..k] == b[..k] && (k < |a| ==> a[k] < b[k])
  }

  lemma NotBeforeMeansNotAfter(x: Record, y: Record, sortField: string)
    ensures !SortLess(y, x, FieldOf(sortField)) ==> NotAfter(x, y, sortField)
  {
    TextLessMeans(x.credentialType, y.credentialType);
    TextOrder(x.credentialType, y.credentialType, []);
    assert StatusText(Pending)[0] == 'p' && StatusText(OfferCreated)[0] == 'o';
    assert StatusText(CredentialIssued)[0] == 'c';
  }

  /** The order that a caller sees on a page: ascending if `asc` is asked for,
      ties or not; and descending if anything else is, when no two records share
      a sort key. */
  lemma PageIsInAskedOrder(page: seq<Record>, records: map<RecordId, Record>, offset: nat, limit: nat,
                           sortField: string, sortOrder: string, i: nat, j: nat)
    requires IsPage(page, records, offset, limit, FieldOf(sortField), Descending(sortOrder)) && i < j < |page|
    requires sortOrder == "asc" || DistinctKeys(records, FieldOf(sortField))
    ensures if sortOrder == "asc" then NotAfter(page[i], page[j], sortField) else NotAfter(page[j], page[i], sortField)
  {
    var f, desc := FieldOf(sortField), Descending(sortOrder);
    var l :| IsOrdered(l, records, f, desc) && page == Page(l, offset, limit);
    assert page[i] == l[offset + i] && page[j] == l[offset + j];
    BeforeIsStrictOrder(page[i], page[j], page[i], f, desc);
    NotBeforeMeansNotAfter(page[i], page[j], sortField);
    NotBeforeMeansNotAfter(page[j], page[i], sortField);
  }

  lemma PageOfOrdered(l: seq<Record>, records: map<RecordId, Record>, offset: nat, limit: nat, f: Field, desc: bool)
    requires IsOrdered(l, records, f, desc)
    ensures IsPage(Page(l, offset, limit), records, offset, limit, f, desc) && |l| == |records|
  {
    ListingLength(l, records);
  }

  method FindAll(records: map<RecordId, Record>, offset: nat, limit: nat, sortField: string, sortOrder: string)
    returns (page: seq<Record>, total: nat)
    requires FiledById(records)
    ensures IsPage(page, records, offset, limit, FieldOf(sortField), Descending(sortOrder))
    ensures total == |records|
  {
    var all: seq<Record> := CollectAll(records);
    var field, desc := FieldOf(sortField), Descending(sortOrder);
    all := SortSlice(all, field, desc, records);
    total := |all|;
    PageOfOrdered(all, records, offset, limit, field, desc);
    if offset >= total {
      return [], total;
    }
    var end := offset + limit;
    if end > total {
      end := total;
    }
    return all[offset..end], total;
  }

  /** The records in whatever order the map yields them. */
  method CollectAll(records: map<RecordId, Record>) returns (all: seq<Record>)
    requires FiledById(records)
    ensures IsListing(all, records)
  {
    all := [];
    var rest := records.Keys;
    ghost var done: map<RecordId, Record> := map[];
    while rest != {}
      invariant rest <= records.Keys && done == map id | id in records.Keys - rest :: records[id]
      invariant IsListing(all, done)
      decreases |rest|
    {
      var id :| id in rest;
      InsertKeepsListing(all, done, records[id], |all|);
      assert all[..|all|] + [records[id]] + all[|all|..] == all + [records[id]];
      all := all + [records[id]];
      rest := rest - {id};
      done := done[id := records[id]];
    }
    assert done == records;
  }

  /** Listings of the same records are as long as each other. */
  lemma {:induction false} SameLength(a: seq<Record>, b: seq<Record>, records: map<RecordId, Record>)
    requires IsListing(a, records) && IsListing(b, records)
    ensures |a| == |b|
  {
    ListingLength(a, records);
    ListingLength(b, records);
  }

  lemma {:induction false} ListingLength(l: seq<Record>, records: map<RecordId, Record>)
    requires IsListing(l, records)
    ensures |l| == |records|
    decreases |l|
  {
    if l == [] {
      assert forall id :: id in records ==> Occurs(l, id);
      assert records == map[];
    } else {
      RemoveFirst(l, records);
      ListingLength(l[1..], records - {l[0].id});
      assert records == (records - {l[0].id})[l[0].id := l[0]];
    }
  }

  lemma RemoveFirst(l: seq<Record>, records: map<RecordId, Record>)
    requires IsListing(l, records) && l != []
    ensures IsListing(l[1..], records - {l[0].id})
  {
    var m := records - {l[0].id};
    forall id | id in m
      ensures Occurs(l[1..], id)
    {
      assert Occurs(l, id);
      var i :| 0 <= i < |l| && l[i].id == id;
      assert l[1..][i - 1].id == id;
    }
  }

  lemma FirstIsFirst(a: seq<Record>, b: seq<Record>, records: map<RecordId, Record>, f: Field, desc: bool)
    requires IsListing(a, records) && IsListing(b, records) && a != [] && b != []
    requires Sorted(a, f, desc) && Sorted(b, f, desc)
    ensures a[0] == b[0]
  {
    assert Occurs(b, a[0].id) && Occurs(a, b[0].id);
    var j :| 0 <= j < |b| && b[j].id == a[0].id;
    var i :| 0 <= i < |a| && a[i].id == b[0].id;
    BeforeIsStrictOrder(a[0], b[0], a[0], f, desc);
  }

  lemma SameHeadAndTail(a: seq<Record>, b: seq<Record>)
    requires a != [] && b != [] && a[0] == b[0] && a[1..] == b[1..]
    ensures a == b
  {
    assert a == [a[0]] + a[1..] && b == [b[0]] + b[1..];
  }

  /** There is only one sorted listing, so calls that collect the records in
      different orders agree. */
  lemma {:induction false} SortedListingIsUnique(a: seq<Record>, b: seq<Record>, records: map<RecordId, Record>,
                                                 f: Field, desc: bool)
    requires IsListing(a, records) && IsListing(b, records)
    requires Sorted(a, f, desc) && Sorted(b, f, desc)
    ensures a == b
    decreases |a|
  {
    SameLength(a, b, records);
    if a != [] {
      FirstIsFirst(a, b, records, f, desc);
      RemoveFirst(a, records);
      RemoveFirst(b, records);
      SortedListingIsUnique(a[1..], b[1..], records - {a[0].id}, f, desc);
      SameHeadAndTail(a, b);
    }
  }

  /** The first n pages, joined. */
  function Concat(pages: seq<seq<Record>>, n: nat): seq<Record>
    requires n <= |pages|
  {
    if n == 0 then [] else Concat(pages, n - 1) + pages[n - 1]
  }

  function Take(l: seq<Record>, n: nat): seq<Record> {
    if n <= |l| then l[..n] else l
  }

  lemma PageExtends(l: seq<Record>, offset: nat, size: nat)
    ensures Take(l, offset) + Page(l, offset, size) == Take(l, offset + size)
  {
  }

  lemma NextOffset(n: nat, size: nat)
    requires n > 0
    ensures (n - 1) * size + size == n * size
  {
  }

  /** A page from any call is that part of the one sorted listing. */
  lemma PageOfTheListing(page: seq<Record>, offset: nat, size: nat, l: seq<Record>,
                         records: map<RecordId, Record>, f: Field, desc: bool)
    requires DistinctKeys(records, f) && IsPage(page, records, offset, size, f, desc)
    requires IsListing(l, records) && Sorted(l, f, desc)
    ensures page == Page(l, offset, size)
  {
    var listing :| IsOrdered(listing, records, f, desc) && page == Page(listing, offset, size);
    SortedListingIsUnique(listing, l, records, f, desc);
  }

  lemma {:induction false} JoinedPages(pages: seq<seq<Record>>, n: nat, size: nat, l: seq<Record>)
    requires n <= |pages| && forall p :: 0 <= p < |pages| ==> pages[p] == Page(l, p * size, size)
    ensures Concat(pages, n) == Take(l, n * size)
  {
    if n > 0 {
      JoinedPages(pages, n - 1, size, l);
      assert pages[n - 1] == Page(l, (n - 1) * size, size);
      PageExtends(l, (n - 1) * size, size);
      NextOffset(n, size);
    }
  }

  /** pages[p] is what a call for page p + 1 returns. */
  ghost predicate ArePages(pages: seq<seq<Record>>, size: nat, records: map<RecordId, Record>, f: Field, desc: bool) {
    forall p :: 0 <= p < |pages| ==> IsPage(pages[p], records, p * size, size, f, desc)
  }

  /** Each page comes from a call of its own, which has collected and sorted
      the records afresh. When no two records share a key, pages 1..n together
      are the first n*size records of the one sorted listing. */
  lemma PagesAreThePrefix(pages: seq<seq<Record>>, n: nat, size: nat, l: seq<Record>,
                          records: map<RecordId, Record>, f: Field, desc: bool)
    requires n <= |pages| && ArePages(pages, size, records, f, desc) && DistinctKeys(records, f)
    requires IsListing(l, records) && Sorted(l, f, desc)
    ensures Concat(pages, n) == Take(l, n * size)
  {
    forall p | 0 <= p < |pages|
      ensures pages[p] == Page(l, p * size, size)
    {
      PageOfTheListing(pages[p], p * size, size, l, records, f, desc);
    }
    JoinedPages(pages, n, size, l);
  }

  /** Any page tells that there is a sorted listing. */
  lemma TheListing(page: seq<Record>, offset: nat, size: nat, records: map<RecordId, Record>, f: Field, desc: bool)
    returns (l: seq<Record>)
    requires DistinctKeys(records, f) && IsPage(page, records, offset, size, f, desc)
    ensures IsListing(l, records) && Sorted(l, f, desc) && |l| == |records|
  {
    l :| IsOrdered(l, records, f, desc) && page == Page(l, offset, size);
    ListingLength(l, records);
  }

  lemma PagesJoinToTheListing(pages: seq<seq<Record>>, size: nat, records: map<RecordId, Record>, f: Field, desc: bool)
    returns (l: seq<Record>)
    requires pages != [] && ArePages(pages, size, records, f, desc) && DistinctKeys(records, f)
    requires |pages| * size >= |records|
    ensures IsListing(l, records) && Sorted(l, f, desc) && Concat(pages, |pages|) == l
  {
    assert IsPage(pages[0], records, 0 * size, size, f, desc);
    l := TheListing(pages[0], 0 * size, size, records, f, desc);
    PagesAreThePrefix(pages, |pages|, size, l, records, f, desc);
  }

  lemma PageBeyondIsEmpty(page: seq<Record>, offset: nat, size: nat, records: map<RecordId, Record>, f: Field,
                          desc: bool)
    requires IsPage(page, records, offset, size, f, desc) && offset >= |records|
    ensures page == []
  {
    var l :| IsOrdered(l, records, f, desc) && page == Page(l, offset, size);
    ListingLength(l, records);
  }

  /** So when no two records share a key, enough pages hold every record exactly
      once, in order, and every page after that is empty. */
  lemma PagesCoverAllRecords(pages: seq<seq<Record>>, size: nat, records: map<RecordId, Record>, f: Field, desc: bool)
    requires ArePages(pages, size, records, f, desc) && DistinctKeys(records, f)
    requires |pages| * size >= |records|
    ensures IsListing(Concat(pages, |pages|), records) && Sorted(Concat(pages, |pages|), f, desc)
    ensures forall p :: 0 <= p < |pages| && p * size >= |records| ==> pages[p] == []
  {
    if pages == [] {
      NothingToList(records);
    } else {
      var l := PagesJoinToTheListing(pages, size, records, f, desc);
    }
    forall p | 0 <= p < |pages| && p * size >= |records|
      ensures pages[p] == []
    {
      PageBeyondIsEmpty(pages[p], p * size, size, records, f, desc);
    }
  }

  lemma NothingToList(records: map<RecordId, Record>)
    requires |records| == 0
    ensures IsListing([], records)
  {
    assert records == map[];
  }

  // --------------------------------------------------------------------- ties

  lemma {:induction false} PlaceFor(l: seq<Record>, x: Record, f: Field, desc: bool, n: nat) returns (p: nat)
    requires n <= |l| && (n < |l| ==> !Before(l[n], x, f, desc))
    ensures Fits(l, x, p, f, desc)
  {
    p := n;
    if n > 0 && Before(x, l[n - 1], f, desc) {
      BeforeIsStrictOrder(x, l[n - 1], x, f, desc);
      p := PlaceFor(l, x, f, desc, n - 1);
    }
  }

  /** Any records have a listing with no pair the wrong way round. */
  lemma {:induction false} OrderedListing(records: map<RecordId, Record>, f: Field, desc: bool) returns (l: seq<Record>)
    requires FiledById(records)
    ensures IsListing(l, records) && SortedUpToTies(l, f, desc)
    decreases |records|
  {
    if records == map[] {
      l := [];
    } else {
      var id :| id in records;
      var rest := records - {id};
      assert records == rest[id := records[id]];
      var l' := OrderedListing(rest, f, desc);
      var p := PlaceFor(l', records[id], f, desc, |l'|);
      InsertKeepsOrder(l', records[id], p, f, desc);
      InsertKeepsListing(l', rest, records[id], p);
      l := l'[..p] + [records[id]] + l'[p..];
    }
  }

  function Swap(l: seq<Record>, i: nat, j: nat): seq<Record>
    requires i < |l| && j < |l|
  {
    l[i := l[j]][j := l[i]]
  }

  lemma SwapKeepsListing(l: seq<Record>, records: map<RecordId, Record>, i: nat, j: nat)
    requires IsListing(l, records) && i < j < |l|
    ensures IsListing(Swap(l, i, j), records)
  {
    var l' := Swap(l, i, j);
    forall id | id in records
      ensures Occurs(l', id)
    {
      assert Occurs(l, id);
      var k :| 0 <= k < |l| && l[k].id == id;
      assert l'[if k == i then j else if k == j then i else k].id == id;
    }
  }

  lemma BetweenTies(l: seq<Record>, f: Field, desc: bool, i: nat, j: nat, a: nat, b: nat)
    requires SortedUpToTies(l, f, desc) && i < j < |l| && SameKey(l[i], l[j], f) && a < b < |l|
    ensures !Before(Swap(l, i, j)[b], Swap(l, i, j)[a], f, desc)
  {
    var l' := Swap(l, i, j);
    BeforeIsStrictOrder(l[i], l[j], l[a], f, desc);
    BeforeIsStrictOrder(l[i], l[j], l[b], f, desc);
    BeforeIsStrictOrder(l[j], l[i], l[j], f, desc);
    assert !Before(l[b], l[a], f, desc);
  }

  /** Records with equal keys may stand in either order. */
  lemma SwapTies(l: seq<Record>, records: map<RecordId, Record>, f: Field, desc: bool, i: nat, j: nat)
    requires IsListing(l, records) && SortedUpToTies(l, f, desc)
    requires i < j < |l| && SameKey(l[i], l[j], f)
    ensures IsOrdered(l, records, f, desc) && IsOrdered(Swap(l, i, j), records, f, desc)
  {
    var l' := Swap(l, i, j);
    SwapKeepsListing(l, records, i, j);
    forall a, b | 0 <= a < b < |l'|
      ensures !Before(l'[b], l'[a], f, desc)
    {
      BetweenTies(l, f, desc, i, j, a, b);
    }
    assert !DistinctKeys(records, f) by {
      assert l[i].id != l[j].id && SameKey(records[l[i].id], records[l[j].id], f);
    }
  }

  /** One call a record: each page shows what l has there, but the call for
      position j has sorted the two ties the other way round. */
  function TiePages(l: seq<Record>, i: nat, j: nat): seq<seq<Record>>
    requires i < |l| && j < |l|
  {
    seq(|l|, p requires 0 <= p < |l| => if p == j then [l[i]] else [l[p]])
  }

  lemma OneRecordPage(l: seq<Record>, records: map<RecordId, Record>, p: nat, f: Field, desc: bool)
    requires IsOrdered(l, records, f, desc) && p < |l|
    ensures IsPage([l[p]], records, p, 1, f, desc)
  {
    assert Page(l, p, 1) == [l[p]];
  }

  lemma TiePageIsPage(l: seq<Record>, records: map<RecordId, Record>, f: Field, desc: bool, i: nat, j: nat, p: nat)
    requires i < j < |l| && p < |l| && IsOrdered(l, records, f, desc) && IsOrdered(Swap(l, i, j), records, f, desc)
    ensures IsPage(TiePages(l, i, j)[p], records, p * 1, 1, f, desc)
  {
    if p == j {
      OneRecordPage(Swap(l, i, j), records, p, f, desc);
    } else {
      OneRecordPage(l, records, p, f, desc);
    }
  }

  lemma TiePagesArePages(l: seq<Record>, records: map<RecordId, Record>, f: Field, desc: bool, i: nat, j: nat)
    requires i < j < |l| && IsOrdered(l, records, f, desc) && IsOrdered(Swap(l, i, j), records, f, desc)
    ensures ArePages(TiePages(l, i, j), 1, records, f, desc)
  {
    forall p | 0 <= p < |TiePages(l, i, j)|
      ensures IsPage(TiePages(l, i, j)[p], records, p * 1, 1, f, desc)
    {
      TiePageIsPage(l, records, f, desc, i, j, p);
    }
  }

  lemma {:induction false} TiePagesJoin(l: seq<Record>, i: nat, j: nat, n: nat)
    requires i < |l| && j < |l| && n <= |l|
    ensures Concat(TiePages(l, i, j), n) == l[j := l[i]][..n]
  {
    if n > 0 {
      TiePagesJoin(l, i, j, n - 1);
    }
  }

  /** shown stands twice among the pages, and missed not at all. */
  predicate RepeatsAndMisses(joined: seq<Record>, shown: RecordId, missed: RecordId) {
    && (exists i, j :: 0 <= i < j < |joined| && joined[i].id == shown && joined[j].id == shown)
    && !Occurs(joined, missed)
  }

  lemma PositionsOf(l: seq<Record>, records: map<RecordId, Record>, x: RecordId, y: RecordId) returns (i: nat, j: nat)
    requires IsListing(l, records) && x in records && y in records && x != y
    ensures i < j < |l|
    ensures (l[i] == records[x] && l[j] == records[y]) || (l[i] == records[y] && l[j] == records[x])
  {
    assert Occurs(l, x) && Occurs(l, y);
    var k: nat :| k < |l| && l[k].id == x;
    var m: nat :| m < |l| && l[m].id == y;
    i, j := if k < m then k else m, if k < m then m else k;
  }

  /** Distinct keys are needed. Two records with the same key can change places
      between calls, so a client that turns the pages may see one of them twice
      and miss the other. */
  lemma TiesRepeatARecord(records: map<RecordId, Record>, f: Field, desc: bool, x: RecordId, y: RecordId)
    returns (pages: seq<seq<Record>>, shown: RecordId, missed: RecordId)
    requires FiledById(records)
    requires x in records && y in records && x != y && SameKey(records[x], records[y], f)
    ensures ArePages(pages, 1, records, f, desc) && |pages| == |records|
    ensures {shown, missed} == {x, y} && RepeatsAndMisses(Concat(pages, |pages|), shown, missed)
  {
    var l := OrderedListing(records, f, desc);
    var i, j := PositionsOf(l, records, x, y);
    SwapTies(l, records, f, desc, i, j);
    pages, shown, missed := TiePages(l, i, j), l[i].id, l[j].id;
    TiePagesArePages(l, records, f, desc, i, j);
    TiePagesJoin(l, i, j, |l|);
    ListingLength(l, records);
    RepeatedAndMissed(l, records, i, j);
  }

  lemma RepeatedAndMissed(l: seq<Record>, records: map<RecordId, Record>, i: nat, j: nat)
    requires IsListing(l, records) && i < j < |l|
    ensures RepeatsAndMisses(l[j := l[i]][..|l|], l[i].id, l[j].id)
  {
    var joined := l[j := l[i]][..|l|];
    assert joined[i].id == l[i].id && joined[j].id == l[i].id;
  }

  /** Enough pages of any size, each from a call of its own. */
  ghost predicate Cover(pages: seq<seq<Record>>, size: nat, records: map<RecordId, Record>, f: Field, desc: bool) {
    ArePages(pages, size, records, f, desc) && |pages| * size >= |records|
  }

  /** So paging is sure to list every record once exactly when no two records
      share a key. */
  lemma PagingWorksWhenKeysDiffer(records: map<RecordId, Record>, f: Field, desc: bool)
    requires FiledById(records)
    ensures DistinctKeys(records, f) <==>
            forall pages, size: nat :: Cover(pages, size, records, f, desc) ==>
              IsListing(Concat(pages, |pages|), records)
  {
    if DistinctKeys(records, f) {
      forall pages, size: nat | Cover(pages, size, records, f, desc)
        ensures IsListing(Concat(pages, |pages|), records)
      {
        PagesCoverAllRecords(pages, size, records, f, desc);
      }
    } else {
      var x, y :| x in records && y in records && x != y && SameKey(records[x], records[y], f);
      var pages, shown, missed := TiesRepeatARecord(records, f, desc, x, y);
      assert Cover(pages, 1, records, f, desc);
      assert missed in records;
    }
  }
}
