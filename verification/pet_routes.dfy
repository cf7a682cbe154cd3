/** The request handlers of the pets router, as pure functions of the
    collection. Handlers that write return the collection after the
    request beside their result; handlers that only read do not. The
    clock, the driver-generated id of a new document and the collection's
    natural scan order are parameters. */
module PetRoutes {
  import opened Outcomes
  import opened ObjectIds
  import opened Documents
  import opened Sorting
  import opened DocumentStore
  import Decimal

  /** The page size the list endpoint falls back to. */
  const DEFAULT_LIMIT: nat := 10

  /** A writing handler's outcome and the collection after it. */
  datatype Transition<T> = Transition(result: Result<T>, store: Store)

  /** The list endpoint's response body. */
  datatype PetsOut = PetsOut(pets: seq<Doc>, count: nat)

  // ---------------------------------------------------------------------
  // Identifier handling

  /** `validate_object_id`: an external id the ObjectId constructor rejects
      is a 400. The accepted id prints as the lower-cased input. */
  function ValidateObjectId(raw: string): (r: Result<ObjectId>)
    ensures r.Ok? <==> ValidId(raw)
    ensures r.Failure? ==> r.err == BadRequest400
    ensures r.Ok? ==> Show(r.value) == Lower(raw)
  {
    if ValidId(raw) then
      ShowParse(raw);
      Ok(Parse(raw))
    else
      Failure(BadRequest400)
  }

  /** The document with `id_` set to `str(_id)`. */
  function ExposeId(pet: Doc): Doc
    requires IdName in pet
  {
    pet[ExposedIdName := Str(Repr(pet[IdName]))]
  }

  /** Exposing the id a second time changes nothing (line 98 after the
      re-read through `fix_pet_id`). */
  lemma ExposeIdIdempotent(pet: Doc)
    requires IdName in pet
    ensures ExposeId(ExposeId(pet)) == ExposeId(pet)
  {
  }

  /** `fix_pet_id`: copies a truthy `_id` into `id_` as a string, and
      raises `ValueError` when `_id` is missing or falsy. */
  function FixPetId(pet: Doc): (r: Result<Doc>)
    ensures r.Ok? <==> IdName in pet && Truthy(pet[IdName])
    ensures r.Failure? ==> r.err == Internal
  {
    if IdName in pet && Truthy(pet[IdName]) then Ok(ExposeId(pet))
    else Failure(Internal)
  }

  /** Lines 29-33 of `_get_pet_or_404`, after the id has been validated:
      an empty or absent document is a 404. */
  function FetchPetOr404(st: Store, id: ObjectId): (r: Result<Doc>)
    ensures id !in st ==> r == Failure(NotFound404)
    ensures Consistent(st) && id in st ==> r == Ok(st[id][ExposedIdName := Str(Show(id))])
  {
    match FindOne(st, id)
    case Some(pet) => if |pet| > 0 then FixPetId(pet) else Failure(NotFound404)
    case None => Failure(NotFound404)
  }

  /** `_get_pet_or_404`: 400 for an id the ObjectId constructor rejects,
      404 when no document has that id, otherwise the stored document
      with its id exposed. */
  function GetPetOr404(st: Store, raw: string): (r: Result<Doc>)
    ensures !ValidId(raw) ==> r == Failure(BadRequest400)
    ensures ValidId(raw) && Parse(raw) !in st ==> r == Failure(NotFound404)
    ensures Consistent(st) && ValidId(raw) && Parse(raw) in st ==>
              r == Ok(st[Parse(raw)][ExposedIdName := Str(Lower(raw))])
    ensures r != Failure(NotModified304)
  {
    var id :- ValidateObjectId(raw);
    FetchPetOr404(st, id)
  }

  /** `get_pet_by_id`: the `Depends(validate_object_id)` check, then the
      lookup; a found document without `_id` would raise `KeyError`. */
  function GetPetById(st: Store, raw: string): (r: Result<Doc>)
    ensures !ValidId(raw) ==> r == Failure(BadRequest400)
    ensures ValidId(raw) && Parse(raw) !in st ==> r == Failure(NotFound404)
    ensures Consistent(st) ==> (r.Ok? <==> ValidId(raw) && Parse(raw) in st)
    ensures r.Ok? ==> ValidId(raw) && Parse(raw) in st && IdName in st[Parse(raw)] && r.value == ExposeId(st[Parse(raw)])
    ensures Consistent(st) && r.Ok? ==> r.value == st[Parse(raw)][ExposedIdName := Str(Lower(raw))]
  {
    var id :- ValidateObjectId(raw);
    match FindOne(st, id)
    case Some(pet) =>
      if |pet| == 0 then Failure(NotFound404)
      else if IdName !in pet then Failure(Internal)
      else Ok(ExposeId(pet))
    case None => Failure(NotFound404)
  }

  // ---------------------------------------------------------------------
  // Listing

  /** The page parameters after normalisation. */
  datatype Paging = Paging(skip: nat, limit: nat)

  /** Lines 62-65: a negative skip becomes 0, a limit that is not
      positive becomes the default. */
  function NormalizePaging(skip: int, limit: int): (p: Paging)
    ensures p.limit >= 1
    ensures 0 <= skip ==> p.skip == skip
    ensures skip < 0 ==> p.skip == 0
    ensures 0 < limit ==> p.limit == limit
    ensures limit <= 0 ==> p.limit == DEFAULT_LIMIT
  {
    Paging(if skip < 0 then 0 else skip, if limit <= 0 then DEFAULT_LIMIT else limit)
  }

  /** Lines 67-73: an equality filter on `status` and `kind`, holding only
      the parameters that were supplied. */
  function BuildFilter(kind: Option<Value>, status: Option<Value>): (f: Filter)
    ensures KindName in f <==> kind.Some?
    ensures StatusName in f <==> status.Some?
    ensures forall k | k in f :: k == KindName || k == StatusName
    ensures KindName in f ==> f[KindName] == kind.value
    ensures StatusName in f ==> f[StatusName] == status.value
  {
    if status.Some? && kind.Some? then map[StatusName := status.value, KindName := kind.value]
    else if status.Some? then map[StatusName := status.value]
    else if kind.Some? then map[KindName := kind.value]
    else map[]
  }

  /** `list(map(fix_pet_id, pets))`: the first failure aborts the list. */
  function FixAll(pets: seq<Doc>): (r: Result<seq<Doc>>)
    ensures r.Ok? <==> forall i | 0 <= i < |pets| :: FixPetId(pets[i]).Ok?
    ensures r.Failure? ==> r.err == Internal
    ensures r.Ok? ==> |r.value| == |pets|
    ensures r.Ok? ==> forall i | 0 <= i < |pets| :: FixPetId(pets[i]) == Ok(r.value[i])
  {
    if pets == [] then Ok([])
    else
      var head :- FixPetId(pets[0]);
      var tail :- FixAll(pets[1..]);
      Ok([head] + tail)
  }

  /** `get_all_pets`: the matching documents, most recently created first,
      from position `skip` on and at most `limit` of them, together with
      the number of all matching documents. */
  function GetAllPets(st: Store, order: seq<ObjectId>, kind: Option<Value>, status: Option<Value>,
                      limit: int, skip: int): (r: Result<PetsOut>)
    requires Enumerates(order, st)
    ensures r.Failure? ==> r.err == Internal
    ensures r.Ok? ==> r.value.count == |MatchingIds(st, BuildFilter(kind, status))|
    ensures r.Ok? ==> |r.value.pets| <= NormalizePaging(skip, limit).limit
  {
    var p := NormalizePaging(skip, limit);
    var filter := BuildFilter(kind, status);
    var page := Find(st, order, filter, p.skip, p.limit);
    var count := CountDocuments(st, filter);
    var pets :- FixAll(page);
    Ok(PetsOut(pets, count))
  }

  /** On a consistent collection the list endpoint never fails. */
  lemma GetAllPetsSucceeds(st: Store, order: seq<ObjectId>, kind: Option<Value>, status: Option<Value>,
                           limit: int, skip: int)
    requires Enumerates(order, st) && Consistent(st)
    ensures GetAllPets(st, order, kind, status, limit, skip).Ok?
  {
    var p := NormalizePaging(skip, limit);
    ListedDocsAreStored(st, order, BuildFilter(kind, status), p.skip, p.limit);
  }

  /** Every document a `find` returns is a stored document that matches. */
  lemma ListedDocsAreStored(st: Store, order: seq<ObjectId>, f: Filter, skip: nat, limit: nat)
    requires Enumerates(order, st)
    ensures forall d | d in Find(st, order, f, skip, limit) ::
              Matches(d, f) && exists k | k in st :: st[k] == d
    ensures Consistent(st) ==> forall d | d in Find(st, order, f, skip, limit) :: FixPetId(d).Ok?
  {
    ScanSound(st, order, f);
    forall d | d in Find(st, order, f, skip, limit)
      ensures Matches(d, f) && exists k | k in st :: st[k] == d
    {
      FoundInScan(st, order, f, skip, limit, d);
      var k :| k in order && st[k] == d;
      assert k in st;
    }
  }

  lemma FoundInScan(st: Store, order: seq<ObjectId>, f: Filter, skip: nat, limit: nat, d: Doc)
    requires Enumerates(order, st)
    requires d in Find(st, order, f, skip, limit)
    ensures d in Scan(st, order, f)
  {
    var scanned := Scan(st, order, f);
    var sorted := SortDesc(scanned);
    assert d in sorted;
    assert d in multiset(sorted);
  }

  // ---------------------------------------------------------------------
  // Writes

  /** A request body: the schema has no `_id` field, and its field names
      are canonical. */
  predicate IsPayload(payload: Doc) {
    IdName !in payload && CanonicalDoc(payload)
  }

  /** Line 94: the payload with both timestamps set to one clock reading. */
  function Stamped(payload: Doc, now: string): Doc {
    payload[CreatedAtName := Str(now)][LastModifiedName := Str(now)]
  }

  /** The document `insert_one` stores for a stamped payload. */
  function NewPetDoc(payload: Doc, now: string, newId: ObjectId): Doc {
    Stamped(payload, now)[IdName := Oid(newId)]
  }

  /** `add_pet`: stamps both timestamps with the one clock reading `now`,
      inserts under the driver-generated `newId` (a duplicate key is an
      internal error and writes nothing), and answers with the stored
      document re-read through `_get_pet_or_404`. */
  function AddPet(st: Store, payload: Doc, now: string, newId: ObjectId): (r: Transition<Doc>)
    requires IsPayload(payload)
    ensures newId in st ==> r == Transition(Failure(Internal), st)
    ensures newId !in st ==>
              var stored := NewPetDoc(payload, now, newId);
              r == Transition(Ok(stored[ExposedIdName := Str(Show(newId))]), st[newId := stored])
  {
    match InsertOne(st, newId, Stamped(payload, now))
    case Failure(e) => Transition(Failure(e), st)
    case Ok(after) =>
      InsertedReadsBack(st, NewPetDoc(payload, now, newId), newId);
      assert after == st[newId := NewPetDoc(payload, now, newId)];
      match FetchPetOr404(after, newId)
      case Ok(pet) => Transition(Ok(ExposeId(pet)), after)
      case Failure(e) => Transition(Failure(e), after)
  }

  /** The re-read after an insert finds the inserted document, and
      answers with it and its exposed id. */
  lemma InsertedReadsBack(st: Store, stored: Doc, id: ObjectId)
    requires IdName in stored && stored[IdName] == Oid(id)
    ensures FetchPetOr404(st[id := stored], id) == Ok(ExposeId(stored))
    ensures ExposeId(ExposeId(stored)) == stored[ExposedIdName := Str(Show(id))]
  {
    FetchInserted(st, id, stored);
    ExposeIdIdempotent(stored);
  }

  /** The re-read after an insert finds the inserted document. */
  lemma FetchInserted(st: Store, id: ObjectId, stored: Doc)
    requires IdName in stored && stored[IdName] == Oid(id)
    ensures FetchPetOr404(st[id := stored], id) == Ok(ExposeId(stored))
  {
    assert |stored| > 0 by {
      assert IdName in stored.Keys;
    }
  }

  /** `delete_pet_by_id`: the `_get_pet_or_404` dependency answers 400 or
      404 before anything is deleted; otherwise the document is removed
      and the deleted count reported. */
  function DeletePetById(st: Store, raw: string): (r: Transition<string>)
    ensures !ValidId(raw) ==> r == Transition(Failure(BadRequest400), st)
    ensures ValidId(raw) && Parse(raw) !in st ==> r == Transition(Failure(NotFound404), st)
    ensures Consistent(st) && ValidId(raw) && Parse(raw) in st ==>
              r == Transition(Ok("deleted count: 1"), st - {Parse(raw)})
    ensures r.store.Keys <= st.Keys
    ensures forall k | k in r.store :: r.store[k] == st[k]
  {
    match GetPetOr404(st, raw)
    case Failure(e) => Transition(Failure(e), st)
    case Ok(_) =>
      var report := DeleteOne(st, Parse(raw));
      if report.deleted > 0 then
        assert report.deleted == 1 ==> "deleted count: " + Decimal.IntToString(report.deleted) == "deleted count: 1";
        assert Parse(raw) in st ==> report.store == st - {Parse(raw)};
        Transition(Ok("deleted count: " + Decimal.IntToString(report.deleted)), report.store)
      else
        Transition(Failure(Internal), report.store)
  }

  /** The fields `update_pet` sets: the payload with `last_modified`
      restamped. */
  function UpdateFields(payload: Doc, now: string): Doc {
    payload[LastModifiedName := Str(now)]
  }

  /** `update_pet`: 400 or 404 from the dependencies before anything is
      written; then a `$set` of the payload and a fresh `last_modified`;
      304 when that changed nothing, otherwise the re-read document. */
  function UpdatePet(st: Store, raw: string, payload: Doc, now: string): (r: Transition<Doc>)
    requires IsPayload(payload)
    ensures !ValidId(raw) ==> r == Transition(Failure(BadRequest400), st)
    ensures ValidId(raw) && Parse(raw) !in st ==> r == Transition(Failure(NotFound404), st)
    ensures r.store.Keys == st.Keys
    ensures forall k | k in st && (!ValidId(raw) || k != Parse(raw)) :: r.store[k] == st[k]
  {
    var checked := ValidateObjectId(raw);
    if checked.Failure? then Transition(Failure(checked.err), st)
    else match GetPetOr404(st, raw)
      case Failure(e) => Transition(Failure(e), st)
      case Ok(_) =>
        var report := UpdateOneSet(st, Parse(raw), UpdateFields(payload, now));
        if report.modified > 0 then
          Transition(GetPetOr404(report.store, raw), report.store)
        else
          Transition(Failure(NotModified304), report.store)
  }

  /** `update_pet` with the 304 decided from the payload's fields alone,
      before `last_modified` is restamped, so that a request that changes
      no field of the pet is answered 304 and writes nothing. When some
      payload field differs it writes the restamped payload and answers
      with the re-read document; that is what `UpdatePet` does whenever
      the write changes the document, and differs from it only when the
      payload's one change is a `last_modified` the restamp overwrites
      with the stored value. */
  function UpdatePetIntended(st: Store, raw: string, payload: Doc, now: string): (r: Transition<Doc>)
    requires IsPayload(payload)
    ensures !ValidId(raw) ==> r == Transition(Failure(BadRequest400), st)
    ensures ValidId(raw) && Parse(raw) !in st ==> r == Transition(Failure(NotFound404), st)
    ensures Consistent(st) && ValidId(raw) && Parse(raw) in st ==>
              (r.result == Failure(NotModified304) <==> st[Parse(raw)] + payload == st[Parse(raw)])
    ensures r.result == Failure(NotModified304) ==> r.store == st
    ensures r.store.Keys == st.Keys
    ensures forall k | k in st && (!ValidId(raw) || k != Parse(raw)) :: r.store[k] == st[k]
  {
    var checked := ValidateObjectId(raw);
    if checked.Failure? then Transition(Failure(checked.err), st)
    else match GetPetOr404(st, raw)
      case Failure(e) => Transition(Failure(e), st)
      case Ok(_) =>
        var id := Parse(raw);
        if st[id] + payload == st[id] then Transition(Failure(NotModified304), st)
        else
          var report := UpdateOneSet(st, id, UpdateFields(payload, now));
          Transition(GetPetOr404(report.store, raw), report.store)
  }
}
