/** The `pet` collection as an immutable map from ObjectId to document,
    with the semantics of the driver operations the router calls:
    `find_one`, `insert_one`, `update_one` with `$set`, `delete_one`,
    `count_documents` and a `find` cursor with sort, skip and limit. */
module DocumentStore {
  import opened Outcomes
  import opened ObjectIds
  import opened Documents
  import opened Sorting

  type Store = map<ObjectId, Doc>

  /** Every stored document carries its own key in `_id`, as MongoDB
      guarantees for a collection keyed by `_id`. */
  predicate Consistent(st: Store) {
    forall k | k in st :: IdName in st[k] && st[k][IdName] == Oid(k)
  }

  /** `order` lists every key of the store exactly once: the collection's
      natural order, in which a scan visits the documents. */
  predicate Enumerates(order: seq<ObjectId>, st: Store) {
    && (forall i, j | 0 <= i < j < |order| :: order[i] != order[j])
    && (forall i | 0 <= i < |order| :: order[i] in st)
    && (forall k | k in st :: k in order)
  }

  /** `find_one({"_id": id})`, looked up through the `_id` index: the
      stored document under that key, or nothing when the key is absent. */
  function FindOne(st: Store, id: ObjectId): (r: Option<Doc>)
    ensures r.Some? <==> id in st
    ensures r.Some? ==> r.value == st[id]
  {
    if id in st then Some(st[id]) else None
  }

  /** On a consistent store the index lookup finds a document exactly when
      some stored document matches the filter `{"_id": id}`, and then it
      finds that one. */
  lemma FindOneMatchesIdFilter(st: Store, id: ObjectId)
    requires Consistent(st)
    ensures FindOne(st, id).Some? <==> exists k | k in st :: Matches(st[k], map[IdName := Oid(id)])
    ensures forall k | k in st && Matches(st[k], map[IdName := Oid(id)]) ::
              FindOne(st, id) == Some(st[k])
  {
    if id in st {
      assert Matches(st[id], map[IdName := Oid(id)]);
    }
  }

  /** `insert_one(doc)` with `id` as the driver-generated `_id`; a
      duplicate key makes the driver raise. */
  function InsertOne(st: Store, id: ObjectId, doc: Doc): (r: Result<Store>)
    requires IdName !in doc
    ensures r.Ok? <==> id !in st
    ensures r.Failure? ==> r.err == Internal
    ensures r.Ok? ==> r.value.Keys == st.Keys + {id}
    ensures r.Ok? ==> r.value[id] == doc[IdName := Oid(id)]
    ensures r.Ok? ==> forall k | k in st :: r.value[k] == st[k]
  {
    if id in st then Failure(Internal) else Ok(st[id := doc[IdName := Oid(id)]])
  }

  /** The driver's report of an `update_one` and the store after it. */
  datatype UpdateReport = UpdateReport(modified: nat, store: Store)

  /** `update_one({"_id": id}, {"$set": fields})`: the listed fields take
      the new values, every other field is kept; a `$set` that leaves the
      document as it was reports no modification. */
  function UpdateOneSet(st: Store, id: ObjectId, fields: Doc): (r: UpdateReport)
    ensures r.modified <= 1
    ensures r.store.Keys == st.Keys
    ensures forall k | k in st && k != id :: r.store[k] == st[k]
    ensures id in st ==> r.store[id] == st[id] + fields
    ensures r.modified == 0 <==> r.store == st
  {
    if id !in st then UpdateReport(0, st)
    else
      var merged := st[id] + fields;
      if merged == st[id] then UpdateReport(0, st)
      else
        assert st[id := merged][id] != st[id];
        UpdateReport(1, st[id := merged])
  }

  /** What a `$set` does to one document: the listed fields take the new
      values, every other field keeps its value. */
  lemma SetMerges(d: Doc, fields: Doc)
    ensures (d + fields).Keys == d.Keys + fields.Keys
    ensures forall f | f in fields :: (d + fields)[f] == fields[f]
    ensures forall f | f in d && f !in fields :: (d + fields)[f] == d[f]
  {
  }

  /** The driver's report of a `delete_one` and the store after it. */
  datatype DeleteReport = DeleteReport(deleted: nat, store: Store)

  /** `delete_one({"_id": id})`. */
  function DeleteOne(st: Store, id: ObjectId): (r: DeleteReport)
    ensures r.deleted == 1 <==> id in st
    ensures id !in st ==> r.deleted == 0
    ensures r.store.Keys == st.Keys - {id}
    ensures forall k | k in r.store :: r.store[k] == st[k]
  {
    if id in st then DeleteReport(1, st - {id}) else DeleteReport(0, st)
  }

  /** The keys of the documents a filter selects. */
  function MatchingIds(st: Store, f: Filter): set<ObjectId> {
    set k | k in st && Matches(st[k], f)
  }

  /** `count_documents(f)`: the number of stored documents the filter
      selects. With the number the filter rejects it makes up the whole
      collection; it is 0 exactly when none matches, and the whole
      collection under the empty filter. */
  function CountDocuments(st: Store, f: Filter): (n: nat)
    ensures n + |set k | k in st && !Matches(st[k], f)| == |st|
    ensures n <= |st|
    ensures n == 0 <==> forall k | k in st :: !Matches(st[k], f)
    ensures f == map[] ==> n == |st|
  {
    MatchingPartition(st, f);
    MatchingNone(st, f);
    |MatchingIds(st, f)|
  }

  /** The matching and the rejected keys split the collection. */
  lemma MatchingPartition(st: Store, f: Filter)
    ensures |MatchingIds(st, f)| + |set k | k in st && !Matches(st[k], f)| == |st|
  {
    var ids := MatchingIds(st, f);
    assert (set k | k in st && !Matches(st[k], f)) == st.Keys - ids;
    assert st.Keys == ids + (st.Keys - ids);
  }

  /** No key matches exactly when the matching set is empty; under the
      empty filter every key matches. */
  lemma MatchingNone(st: Store, f: Filter)
    ensures |MatchingIds(st, f)| == 0 <==> forall k | k in st :: !Matches(st[k], f)
    ensures f == map[] ==> |MatchingIds(st, f)| == |st|
  {
    var ids := MatchingIds(st, f);
    if forall k | k in st :: !Matches(st[k], f) {
      assert ids == {};
    }
    if |ids| == 0 {
      assert forall k | k in st :: k !in ids;
    }
    if f == map[] {
      assert ids == st.Keys;
    }
  }

  /** The matching documents in the order the scan visits them. */
  function Scan(st: Store, order: seq<ObjectId>, f: Filter): seq<Doc>
    requires forall i | 0 <= i < |order| :: order[i] in st
  {
    if order == [] then []
    else
      var rest := Scan(st, order[1..], f);
      if Matches(st[order[0]], f) then [st[order[0]]] + rest else rest
  }

  /** A scan yields only stored documents that match. */
  lemma {:induction false} ScanSound(st: Store, order: seq<ObjectId>, f: Filter)
    requires forall i | 0 <= i < |order| :: order[i] in st
    ensures forall d | d in Scan(st, order, f) :: Matches(d, f) && exists k | k in order :: st[k] == d
  {
    if order != [] {
      ScanSound(st, order[1..], f);
      forall d | d in Scan(st, order, f)
        ensures Matches(d, f) && exists k | k in order :: st[k] == d
      {
        if d != st[order[0]] || !Matches(st[order[0]], f) {
          assert d in Scan(st, order[1..], f);
          var k :| k in order[1..] && st[k] == d;
          assert k in order;
        }
      }
    }
  }

  /** The keys among `order` whose documents a filter selects. */
  function MatchingAmong(st: Store, order: seq<ObjectId>, f: Filter): set<ObjectId> {
    set k | k in order && k in st && Matches(st[k], f)
  }

  /** A scan over distinct keys yields one document per selected key. */
  lemma {:induction false} ScanSize(st: Store, order: seq<ObjectId>, f: Filter)
    requires forall i | 0 <= i < |order| :: order[i] in st
    requires forall i, j | 0 <= i < j < |order| :: order[i] != order[j]
    ensures |Scan(st, order, f)| == |MatchingAmong(st, order, f)|
  {
    if order != [] {
      var k, tail := order[0], order[1..];
      ScanSize(st, tail, f);
      forall j | 0 <= j < |tail|
        ensures tail[j] != k
      {
        assert tail[j] == order[j + 1];
      }
      MatchingAmongCons(st, order, f);
    }
  }

  lemma MatchingAmongCons(st: Store, order: seq<ObjectId>, f: Filter)
    requires order != [] && order[0] in st
    ensures MatchingAmong(st, order, f) ==
      MatchingAmong(st, order[1..], f) + (if Matches(st[order[0]], f) then {order[0]} else {})
  {
    assert order == [order[0]] + order[1..];
  }

  /** Scanning the whole collection finds as many documents as
      `count_documents` counts for the same filter. */
  lemma ScanCountsMatches(st: Store, order: seq<ObjectId>, f: Filter)
    requires Enumerates(order, st)
    ensures |Scan(st, order, f)| == CountDocuments(st, f)
  {
    ScanSize(st, order, f);
    assert MatchingAmong(st, order, f) == MatchingIds(st, f);
  }

  /** Every selected document is met by a scan over all keys. */
  lemma {:induction false} ScanFindsMatches(st: Store, order: seq<ObjectId>, f: Filter, k: ObjectId)
    requires forall i | 0 <= i < |order| :: order[i] in st
    requires k in order && Matches(st[k], f)
    ensures st[k] in Scan(st, order, f)
  {
    if order[0] != k {
      ScanFindsMatches(st, order[1..], f, k);
    }
  }

  /** The slice `skip` .. `skip + limit` of a sequence, cut at its end. */
  function Window<T>(s: seq<T>, skip: nat, limit: nat): (w: seq<T>)
    ensures |w| <= limit
    ensures skip <= |s| ==> |w| == if skip + limit <= |s| then limit else |s| - skip
    ensures skip >= |s| ==> w == []
    ensures forall i | 0 <= i < |w| :: skip + i < |s| && w[i] == s[skip + i]
  {
    var lo := if skip <= |s| then skip else |s|;
    var hi := if skip + limit <= |s| then skip + limit else |s|;
    s[lo..hi]
  }

  /** A window of a sorted run is sorted. */
  lemma WindowSorted(s: seq<Doc>, skip: nat, limit: nat)
    requires SortedDesc(s)
    ensures SortedDesc(Window(s, skip, limit))
  {
    var w := Window(s, skip, limit);
    forall i, j | 0 <= i < j < |w|
      ensures ValueLe(SortKey(w[j]), SortKey(w[i]))
    {
      assert w[i] == s[skip + i] && w[j] == s[skip + j];
    }
  }

  /** A window holds only elements of the sequence it is cut from. */
  lemma WindowMembers<T>(s: seq<T>, skip: nat, limit: nat)
    ensures forall x | x in Window(s, skip, limit) :: x in s
  {
    var w := Window(s, skip, limit);
    forall x | x in w
      ensures x in s
    {
      var i :| 0 <= i < |w| && w[i] == x;
      assert s[skip + i] == x;
    }
  }

  /** `find(f).skip(skip).limit(limit).sort("created_at", -1)`: MongoDB
      sorts first and then skips and limits, whatever order the cursor
      methods are chained in, so the page is sorted; the page holds what
      remains of the matches after `skip`, cut at a positive `limit`, and
      a limit of 0 means no limit; it holds only documents the filter
      selects. */
  function Find(st: Store, order: seq<ObjectId>, f: Filter, skip: nat, limit: nat): (r: seq<Doc>)
    requires Enumerates(order, st)
    ensures SortedDesc(r)
    ensures limit > 0 ==> |r| <= limit
    ensures limit > 0 ==> |r| == if skip >= CountDocuments(st, f) then 0
                                 else if CountDocuments(st, f) - skip < limit then CountDocuments(st, f) - skip
                                 else limit
    ensures limit == 0 ==> |r| == if skip <= CountDocuments(st, f) then CountDocuments(st, f) - skip else 0
    ensures forall d | d in r :: d in Scan(st, order, f)
  {
    var found := Scan(st, order, f);
    var sorted := SortDesc(found);
    var cap := if limit == 0 then |sorted| else limit;
    SortDescSorted(found);
    SortDescMembers(found);
    ScanCountsMatches(st, order, f);
    assert |sorted| == |multiset(sorted)| == |multiset(found)| == |found|;
    WindowSorted(sorted, skip, cap);
    WindowMembers(sorted, skip, cap);
    Window(sorted, skip, cap)
  }
}
