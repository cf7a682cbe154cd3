/** Properties of the list endpoint: normalisation of the page
    parameters, the filter, and the page as a window onto the full
    listing of the matching documents, newest first. */
module ListingLaws {
  import opened Outcomes
  import opened ObjectIds
  import opened Documents
  import opened Sorting
  import opened DocumentStore
  import opened PetRoutes

  // ---------------------------------------------------------------------
  // Parameters

  /** Normalised parameters are left alone by a second normalisation. */
  lemma NormalizePagingFixpoint(skip: int, limit: int)
    ensures var p := NormalizePaging(skip, limit);
            NormalizePaging(p.skip, p.limit) == p
  {
  }

  /** A negative skip lists exactly what skip 0 lists. */
  lemma NegativeSkipIsZero(st: Store, order: seq<ObjectId>, kind: Option<Value>, status: Option<Value>,
                           limit: int, skip: int)
    requires Enumerates(order, st) && skip < 0
    ensures GetAllPets(st, order, kind, status, limit, skip) == GetAllPets(st, order, kind, status, limit, 0)
  {
  }

  /** A limit that is not positive lists exactly what the default lists. */
  lemma NonPositiveLimitIsDefault(st: Store, order: seq<ObjectId>, kind: Option<Value>, status: Option<Value>,
                                  limit: int, skip: int)
    requires Enumerates(order, st) && limit <= 0
    ensures GetAllPets(st, order, kind, status, limit, skip) ==
            GetAllPets(st, order, kind, status, DEFAULT_LIMIT, skip)
  {
  }

  /** A document passes the filter exactly when it agrees with every
      supplied parameter; with none supplied every document passes. */
  lemma FilterSelects(d: Doc, kind: Option<Value>, status: Option<Value>)
    ensures Matches(d, BuildFilter(kind, status)) <==>
              && (kind.Some? ==> KindName in d && d[KindName] == kind.value)
              && (status.Some? ==> StatusName in d && d[StatusName] == status.value)
    ensures kind.None? && status.None? ==> BuildFilter(kind, status) == map[]
  {
    var f := BuildFilter(kind, status);
    if kind.Some? && !Matches(d, f) {
      assert KindName in f;
    }
    if status.Some? && !Matches(d, f) {
      assert StatusName in f;
    }
  }

  // ---------------------------------------------------------------------
  // The full listing

  /** A stored document as the endpoint presents it. */
  function Exposed(st: Store, k: ObjectId): Doc
    requires k in st
  {
    st[k][ExposedIdName := Str(Show(k))]
  }

  /** The whole answer the endpoint pages through: every matching
      document, with its id exposed, newest first (`FullListingIsListing`). */
  function FullListing(st: Store, order: seq<ObjectId>, f: Filter): (s: seq<Doc>)
    requires Enumerates(order, st) && Consistent(st)
    ensures |s| == CountDocuments(st, f)
  {
    SortedScanFacts(st, order, f);
    FixAll(SortDesc(Scan(st, order, f))).value
  }

  /** The full listing is sorted newest first, holds only matching stored
      documents with their ids exposed, and holds each of them; with its
      length equal to the count, it is a permutation of them. */
  lemma FullListingIsListing(st: Store, order: seq<ObjectId>, f: Filter)
    requires Enumerates(order, st) && Consistent(st)
    ensures var s := FullListing(st, order, f);
            && SortedDesc(s)
            && (forall i | 0 <= i < |s| :: exists k | k in MatchingIds(st, f) :: s[i] == Exposed(st, k))
            && (forall k | k in MatchingIds(st, f) :: Exposed(st, k) in s)
  {
    var sorted := SortDesc(Scan(st, order, f));
    SortedScanFacts(st, order, f);
    SortDescSorted(Scan(st, order, f));
    var fixed := FixAll(sorted).value;
    FixedSorted(sorted, fixed);
    FixedAreExposed(st, f, sorted, fixed);
    FixedCoversMatches(st, order, f, sorted, fixed);
  }

  /** The sorted scan has one document per match, each a stored match. */
  lemma SortedScanFacts(st: Store, order: seq<ObjectId>, f: Filter)
    requires Enumerates(order, st) && Consistent(st)
    ensures |SortDesc(Scan(st, order, f))| == CountDocuments(st, f)
    ensures forall d | d in SortDesc(Scan(st, order, f)) :: Matches(d, f) && exists k | k in st :: st[k] == d
    ensures FixAll(SortDesc(Scan(st, order, f))).Ok?
  {
    var scanned := Scan(st, order, f);
    var sorted := SortDesc(scanned);
    ScanCountsMatches(st, order, f);
    assert |multiset(sorted)| == |multiset(scanned)|;
    SortedScanStored(st, order, f);
    forall i | 0 <= i < |sorted|
      ensures FixPetId(sorted[i]).Ok?
    {
      assert sorted[i] in sorted;
    }
  }

  /** Every document of the sorted scan is a stored match. */
  lemma SortedScanStored(st: Store, order: seq<ObjectId>, f: Filter)
    requires Enumerates(order, st)
    ensures forall d | d in SortDesc(Scan(st, order, f)) :: Matches(d, f) && exists k | k in st :: st[k] == d
  {
    ScanSound(st, order, f);
    SortDescMembers(Scan(st, order, f));
    forall d | d in SortDesc(Scan(st, order, f))
      ensures Matches(d, f) && exists k | k in st :: st[k] == d
    {
      var k :| k in order && st[k] == d;
      assert k in st;
    }
  }

  /** Exposing ids keeps the order: `id_` is not the sort field. */
  lemma FixedSorted(sorted: seq<Doc>, fixed: seq<Doc>)
    requires SortedDesc(sorted) && FixAll(sorted) == Ok(fixed)
    ensures SortedDesc(fixed)
  {
    forall i | 0 <= i < |fixed|
      ensures SortKey(fixed[i]) == SortKey(sorted[i])
    {
      assert FixPetId(sorted[i]) == Ok(fixed[i]);
    }
  }

  lemma FixedAreExposed(st: Store, f: Filter, sorted: seq<Doc>, fixed: seq<Doc>)
    requires Consistent(st)
    requires forall d | d in sorted :: Matches(d, f) && exists k | k in st :: st[k] == d
    requires FixAll(sorted) == Ok(fixed)
    ensures forall i | 0 <= i < |fixed| :: exists k | k in MatchingIds(st, f) :: fixed[i] == Exposed(st, k)
  {
    forall i | 0 <= i < |fixed|
      ensures exists k | k in MatchingIds(st, f) :: fixed[i] == Exposed(st, k)
    {
      assert sorted[i] in sorted;
      var k :| k in st && st[k] == sorted[i];
      assert FixPetId(sorted[i]) == Ok(fixed[i]);
      assert k in MatchingIds(st, f);
    }
  }

  lemma FixedCoversMatches(st: Store, order: seq<ObjectId>, f: Filter, sorted: seq<Doc>, fixed: seq<Doc>)
    requires Enumerates(order, st) && Consistent(st)
    requires sorted == SortDesc(Scan(st, order, f))
    requires FixAll(sorted) == Ok(fixed)
    ensures forall k | k in MatchingIds(st, f) :: Exposed(st, k) in fixed
  {
    forall k | k in MatchingIds(st, f)
      ensures Exposed(st, k) in fixed
    {
      ScanFindsMatches(st, order, f, k);
      assert st[k] in multiset(sorted);
      var i :| 0 <= i < |sorted| && sorted[i] == st[k];
      assert FixPetId(sorted[i]) == Ok(fixed[i]);
    }
  }

  /** The page the endpoint returns is the window `skip` .. `skip + limit`
      of the full listing, and the count is the full listing's length,
      whatever the page parameters. */
  lemma PageIsWindow(st: Store, order: seq<ObjectId>, kind: Option<Value>, status: Option<Value>,
                     limit: int, skip: int)
    requires Enumerates(order, st) && Consistent(st)
    ensures var p := NormalizePaging(skip, limit);
            var full := FullListing(st, order, BuildFilter(kind, status));
            GetAllPets(st, order, kind, status, limit, skip) == Ok(PetsOut(Window(full, p.skip, p.limit), |full|))
  {
    var p := NormalizePaging(skip, limit);
    var f := BuildFilter(kind, status);
    var sorted := SortDesc(Scan(st, order, f));
    SortedScanFacts(st, order, f);
    FixAllWindow(sorted, FixAll(sorted).value, p.skip, p.limit);
  }

  /** Exposing ids commutes with taking a window. */
  lemma FixAllWindow(sorted: seq<Doc>, fixed: seq<Doc>, skip: nat, limit: nat)
    requires FixAll(sorted) == Ok(fixed)
    ensures FixAll(Window(sorted, skip, limit)) == Ok(Window(fixed, skip, limit))
  {
    var page := Window(sorted, skip, limit);
    var w := Window(fixed, skip, limit);
    forall i | 0 <= i < |page|
      ensures FixPetId(page[i]) == Ok(w[i])
    {
      assert page[i] == sorted[skip + i];
    }
    var r := FixAll(page);
    assert r.Ok?;
    assert |page| == |w|;
    forall i | 0 <= i < |page|
      ensures r.value[i] == w[i]
    {
      assert FixPetId(page[i]) == Ok(r.value[i]);
    }
    assert r.value == w;
  }

  // ---------------------------------------------------------------------
  // Consequences for the caller

  /** The count ignores the page parameters. */
  lemma CountIgnoresPaging(st: Store, order: seq<ObjectId>, kind: Option<Value>, status: Option<Value>,
                           limit: int, skip: int, limit': int, skip': int)
    requires Enumerates(order, st) && Consistent(st)
    ensures GetAllPets(st, order, kind, status, limit, skip).Ok?
    ensures GetAllPets(st, order, kind, status, limit', skip').Ok?
    ensures GetAllPets(st, order, kind, status, limit, skip).value.count ==
            GetAllPets(st, order, kind, status, limit', skip').value.count
  {
    GetAllPetsSucceeds(st, order, kind, status, limit, skip);
    GetAllPetsSucceeds(st, order, kind, status, limit', skip');
  }

  /** The page holds `limit` documents, or what is left after `skip`
      when that is fewer. */
  lemma PageSize(st: Store, order: seq<ObjectId>, kind: Option<Value>, status: Option<Value>,
                 limit: int, skip: int)
    requires Enumerates(order, st) && Consistent(st)
    ensures GetAllPets(st, order, kind, status, limit, skip).Ok?
    ensures var p := NormalizePaging(skip, limit);
            var r := GetAllPets(st, order, kind, status, limit, skip).value;
            |r.pets| == if r.count <= p.skip then 0
                        else if r.count - p.skip < p.limit then r.count - p.skip
                        else p.limit
  {
    PageIsWindow(st, order, kind, status, limit, skip);
  }

  /** Every listed pet is a matching stored document with its id exposed,
      and the page is newest first. */
  lemma PageContents(st: Store, order: seq<ObjectId>, kind: Option<Value>, status: Option<Value>,
                     limit: int, skip: int)
    requires Enumerates(order, st) && Consistent(st)
    ensures GetAllPets(st, order, kind, status, limit, skip).Ok?
    ensures var pets := GetAllPets(st, order, kind, status, limit, skip).value.pets;
            && SortedDesc(pets)
            && forall d | d in pets ::
                 exists k | k in MatchingIds(st, BuildFilter(kind, status)) :: d == Exposed(st, k)
  {
    PageIsWindow(st, order, kind, status, limit, skip);
    FullListingIsListing(st, order, BuildFilter(kind, status));
    var p := NormalizePaging(skip, limit);
    var full := FullListing(st, order, BuildFilter(kind, status));
    WindowExposed(st, MatchingIds(st, BuildFilter(kind, status)), full, p.skip, p.limit);
    WindowSorted(full, p.skip, p.limit);
  }

  /** A window of a run of exposed documents is such a run. */
  lemma WindowExposed(st: Store, ids: set<ObjectId>, full: seq<Doc>, skip: nat, limit: nat)
    requires ids <= st.Keys
    requires forall i | 0 <= i < |full| :: exists k | k in ids :: full[i] == Exposed(st, k)
    ensures forall d | d in Window(full, skip, limit) :: exists k | k in ids :: d == Exposed(st, k)
  {
    forall d | d in Window(full, skip, limit)
      ensures exists k | k in ids :: d == Exposed(st, k)
    {
      var i :| 0 <= i < |Window(full, skip, limit)| && Window(full, skip, limit)[i] == d;
      assert d == full[skip + i];
    }
  }

  /** A first page at least as large as the count lists every matching
      document. */
  lemma FirstPageComplete(st: Store, order: seq<ObjectId>, kind: Option<Value>, status: Option<Value>,
                          limit: int, skip: int, k: ObjectId)
    requires Enumerates(order, st) && Consistent(st) && skip <= 0
    requires k in MatchingIds(st, BuildFilter(kind, status))
    requires limit >= CountDocuments(st, BuildFilter(kind, status))
    ensures GetAllPets(st, order, kind, status, limit, skip).Ok?
    ensures Exposed(st, k) in GetAllPets(st, order, kind, status, limit, skip).value.pets
  {
    PageIsWindow(st, order, kind, status, limit, skip);
    FullListingIsListing(st, order, BuildFilter(kind, status));
    var full := FullListing(st, order, BuildFilter(kind, status));
    var p := NormalizePaging(skip, limit);
    assert p.skip == 0 && p.limit >= |full|;
    assert Window(full, p.skip, p.limit) == full;
  }
}
