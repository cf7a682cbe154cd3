/** Properties relating the pets router's handlers: the identifier codec
    round trip, the read handlers' agreement, and what each write does to
    the collection and how a following read observes it. */
module HandlerLaws {
  import opened Outcomes
  import opened ObjectIds
  import opened Documents
  import opened DocumentStore
  import opened PetRoutes

  // ---------------------------------------------------------------------
  // Identifiers

  /** The external form of any id validates back to that id. */
  lemma ValidateShow(id: ObjectId)
    ensures ValidateObjectId(Show(id)) == Ok(id)
  {
    ParseShow(id);
  }

  lemma LowerIdempotent(s: string)
    ensures Lower(Lower(s)) == Lower(s)
    ensures AllHex(Lower(s)) <==> AllHex(s)
  {
    if s != [] {
      assert s[0] in s;
      forall i | 0 <= i < |s|
        ensures IsHexDigit(LowerChar(s[i])) <==> IsHexDigit(s[i])
      {
      }
    }
  }

  /** Validation ignores the case of the hexadecimal digits. */
  lemma ValidateIgnoresCase(raw: string)
    ensures ValidateObjectId(Lower(raw)) == ValidateObjectId(raw)
  {
    LowerIdempotent(raw);
    if ValidId(raw) {
      ShowParse(raw);
      ShowParse(Lower(raw));
      ShowInjective(Parse(raw), Parse(Lower(raw)));
    }
  }

  // ---------------------------------------------------------------------
  // fix_pet_id

  /** `fix_pet_id` adds `id_` holding `str(_id)` and keeps every other
      field as it was. */
  lemma FixPetIdFields(pet: Doc)
    requires FixPetId(pet).Ok?
    ensures FixPetId(pet).value.Keys == pet.Keys + {ExposedIdName}
    ensures FixPetId(pet).value[ExposedIdName] == Str(Repr(pet[IdName]))
    ensures forall f | f in pet && f != ExposedIdName :: FixPetId(pet).value[f] == pet[f]
  {
  }

  /** Fixing an already fixed document changes nothing. */
  lemma FixPetIdIdempotent(pet: Doc)
    requires FixPetId(pet).Ok?
    ensures FixPetId(FixPetId(pet).value) == FixPetId(pet)
  {
    ExposeIdIdempotent(pet);
  }

  /** Dropping `id_` from a fixed document gives back the original, when
      the original had no `id_` of its own. */
  lemma FixPetIdUndo(pet: Doc)
    requires FixPetId(pet).Ok? && ExposedIdName !in pet
    ensures FixPetId(pet).value - {ExposedIdName} == pet
  {
  }

  /** On a stored document of a consistent collection `fix_pet_id` always
      succeeds, and `id_` is the external form of the document's key. */
  lemma FixStoredPet(st: Store, k: ObjectId)
    requires Consistent(st) && k in st
    ensures FixPetId(st[k]) == Ok(st[k][ExposedIdName := Str(Show(k))])
    ensures ValidateObjectId(Show(k)) == Ok(k)
  {
    ValidateShow(k);
  }

  // ---------------------------------------------------------------------
  // Reads

  /** On a consistent collection `get_pet_by_id` answers exactly as
      `_get_pet_or_404` does. */
  lemma GetPetByIdAgrees(st: Store, raw: string)
    requires Consistent(st)
    ensures GetPetById(st, raw) == GetPetOr404(st, raw)
  {
  }

  /** `_get_pet_or_404` succeeds exactly on a well-formed id that is in
      the collection, and then answers with the stored document. */
  lemma GetPetOr404Exact(st: Store, raw: string)
    requires Consistent(st)
    ensures GetPetOr404(st, raw).Ok? <==> ValidId(raw) && Parse(raw) in st
    ensures GetPetOr404(st, raw).Ok? ==>
              GetPetOr404(st, raw).value - {ExposedIdName} == st[Parse(raw)] - {ExposedIdName}
  {
  }

  // ---------------------------------------------------------------------
  // Create

  /** The stored document of a create: the payload with both timestamps
      equal to the clock reading and `_id` the new key; nothing else of
      the payload is lost. */
  lemma CreateStampsTimestamps(payload: Doc, now: string, newId: ObjectId)
    requires IsPayload(payload)
    ensures var d := NewPetDoc(payload, now, newId);
            && d[CreatedAtName] == d[LastModifiedName] == Str(now)
            && d[IdName] == Oid(newId)
            && d.Keys == payload.Keys + {IdName, CreatedAtName, LastModifiedName}
            && forall f | f in payload && f != CreatedAtName && f != LastModifiedName :: d[f] == payload[f]
  {
  }

  /** A create adds exactly the new key and keeps the collection
      consistent. */
  lemma AddPetFrame(st: Store, payload: Doc, now: string, newId: ObjectId)
    requires IsPayload(payload)
    ensures var r := AddPet(st, payload, now, newId);
            && r.store.Keys == st.Keys + {newId}
            && (forall k | k in st && k != newId :: r.store[k] == st[k])
            && (Consistent(st) ==> Consistent(r.store))
  {
  }

  /** Reading the new id after a create answers with what the create
      answered. */
  lemma CreateThenGet(st: Store, payload: Doc, now: string, newId: ObjectId)
    requires IsPayload(payload) && Consistent(st)
    requires AddPet(st, payload, now, newId).result.Ok?
    ensures var r := AddPet(st, payload, now, newId);
            GetPetById(r.store, Show(newId)) == r.result
  {
    var r := AddPet(st, payload, now, newId);
    AddPetFrame(st, payload, now, newId);
    ParseShow(newId);
    LowerOfShow(newId);
  }

  /** The external form of an id is already lower case. */
  lemma LowerOfShow(id: ObjectId)
    ensures Lower(Show(id)) == Show(id)
  {
    ParseShow(id);
    ShowParse(Show(id));
  }

  // ---------------------------------------------------------------------
  // Delete

  /** A delete removes at most the requested key and keeps the collection
      consistent. */
  lemma DeleteFrame(st: Store, raw: string)
    ensures var r := DeletePetById(st, raw);
            && (r.result.Ok? ==> ValidId(raw) && r.store == st - {Parse(raw)})
            && (r.result.Failure? && Consistent(st) ==> r.store == st)
            && (Consistent(st) ==> Consistent(r.store))
  {
  }

  /** After a successful delete the same id is not found. */
  lemma DeleteThenGet(st: Store, raw: string)
    requires DeletePetById(st, raw).result.Ok?
    ensures GetPetById(DeletePetById(st, raw).store, raw) == Failure(NotFound404)
    ensures GetPetOr404(DeletePetById(st, raw).store, raw) == Failure(NotFound404)
  {
    DeleteFrame(st, raw);
  }

  // ---------------------------------------------------------------------
  // Update

  /** On an existing id the update merges the payload and the fresh
      `last_modified` into the stored document; a merge that changes
      nothing is a 304 and leaves the collection as it was. */
  lemma UpdateOnExisting(st: Store, raw: string, payload: Doc, now: string)
    requires IsPayload(payload) && Consistent(st) && ValidId(raw) && Parse(raw) in st
    ensures var id := Parse(raw);
            var merged := st[id] + UpdateFields(payload, now);
            var r := UpdatePet(st, raw, payload, now);
            if merged == st[id] then r == Transition(Failure(NotModified304), st)
            else r == Transition(Ok(merged[ExposedIdName := Str(Lower(raw))]), st[id := merged])
  {
    var id := Parse(raw);
    var merged := st[id] + UpdateFields(payload, now);
    if merged != st[id] {
      assert Consistent(st[id := merged]);
    }
  }

  /** A `$set` leaves a document unchanged exactly when every field it
      sets already holds that value. */
  lemma MergeUnchangedIff(d: Doc, fields: Doc)
    ensures d + fields == d <==> forall f | f in fields :: f in d && d[f] == fields[f]
  {
    if d + fields == d {
      forall f | f in fields ensures f in d && d[f] == fields[f] {
        assert (d + fields)[f] == fields[f];
      }
    }
  }

  /** An update answers 304 exactly when every field it sets, including
      the restamped `last_modified`, already has that value. */
  lemma UpdateNotModifiedIff(st: Store, raw: string, payload: Doc, now: string)
    requires IsPayload(payload) && Consistent(st)
    ensures UpdatePet(st, raw, payload, now).result == Failure(NotModified304) <==>
              && ValidId(raw) && Parse(raw) in st
              && forall f | f in UpdateFields(payload, now) ::
                   f in st[Parse(raw)] && st[Parse(raw)][f] == UpdateFields(payload, now)[f]
  {
    if ValidId(raw) && Parse(raw) in st {
      UpdateOnExisting(st, raw, payload, now);
      MergeUnchangedIff(st[Parse(raw)], UpdateFields(payload, now));
    }
  }

  /** Resubmitting fields a document already holds, with a new clock
      reading, changes only its `last_modified`. */
  lemma RestampMerge(d: Doc, payload: Doc, now: string)
    requires forall f | f in payload :: f in d && d[f] == payload[f]
    requires LastModifiedName !in d || d[LastModifiedName] != Str(now)
    ensures d + UpdateFields(payload, now) == d[LastModifiedName := Str(now)]
    ensures d + UpdateFields(payload, now) != d
  {
    var merged := d + UpdateFields(payload, now);
    assert merged[LastModifiedName] == Str(now);
    forall f | f in merged ensures merged[f] == d[LastModifiedName := Str(now)][f] {
      if f in payload && f != LastModifiedName {
        assert merged[f] == payload[f];
      }
    }
  }

  /** Because `last_modified` is restamped, resubmitting the stored
      fields with a clock reading different from the stored stamp is not
      a 304: it succeeds and only moves `last_modified`. */
  lemma UpdateSameFieldsNewStamp(st: Store, raw: string, payload: Doc, now: string)
    requires IsPayload(payload) && Consistent(st) && ValidId(raw) && Parse(raw) in st
    requires forall f | f in payload :: f in st[Parse(raw)] && st[Parse(raw)][f] == payload[f]
    requires LastModifiedName !in st[Parse(raw)] || st[Parse(raw)][LastModifiedName] != Str(now)
    ensures UpdatePet(st, raw, payload, now).result.Ok?
    ensures var touched: Doc := st[Parse(raw)][LastModifiedName := Str(now)];
            UpdatePet(st, raw, payload, now).store == st[Parse(raw) := touched]
  {
    RestampMerge(st[Parse(raw)], payload, now);
    UpdateOnExisting(st, raw, payload, now);
  }

  /** Whether or not the `$set` modified anything, the document stored
      under the id afterwards is the merge. */
  lemma UpdatedDocument(st: Store, raw: string, payload: Doc, now: string)
    requires IsPayload(payload) && Consistent(st) && ValidId(raw) && Parse(raw) in st
    ensures UpdatePet(st, raw, payload, now).store[Parse(raw)] == st[Parse(raw)] + UpdateFields(payload, now)
  {
    UpdateOnExisting(st, raw, payload, now);
  }

  /** The `$set` of an update on one document: the payload's fields take
      its values, `last_modified` the clock reading, and every other field
      keeps its value. */
  lemma StampedMerge(d: Doc, payload: Doc, now: string)
    ensures var after := d + UpdateFields(payload, now);
            && after.Keys == d.Keys + payload.Keys + {LastModifiedName}
            && after[LastModifiedName] == Str(now)
            && (forall f | f in payload && f != LastModifiedName :: after[f] == payload[f])
            && (forall f | f in d && f !in payload && f != LastModifiedName :: after[f] == d[f])
  {
    var fields := UpdateFields(payload, now);
    assert fields.Keys == payload.Keys + {LastModifiedName};
    SetMerges(d, fields);
  }

  /** The updated document: listed fields take the payload's values,
      `last_modified` the clock reading, and every other field (among
      them `_id` and `created_at`) keeps its value. */
  lemma UpdateKeepsUnlisted(st: Store, raw: string, payload: Doc, now: string)
    requires IsPayload(payload) && Consistent(st) && ValidId(raw) && Parse(raw) in st
    ensures var before := st[Parse(raw)];
            var after := UpdatePet(st, raw, payload, now).store[Parse(raw)];
            && after.Keys == before.Keys + payload.Keys + {LastModifiedName}
            && after[LastModifiedName] == Str(now)
            && (forall f | f in payload && f != LastModifiedName :: after[f] == payload[f])
            && (forall f | f in before && f !in payload && f != LastModifiedName :: after[f] == before[f])
  {
    UpdatedDocument(st, raw, payload, now);
    StampedMerge(st[Parse(raw)], payload, now);
  }

  /** An update keeps the collection consistent. */
  lemma UpdatePreservesConsistency(st: Store, raw: string, payload: Doc, now: string)
    requires IsPayload(payload) && Consistent(st)
    ensures Consistent(UpdatePet(st, raw, payload, now).store)
  {
    if ValidId(raw) && Parse(raw) in st {
      UpdateOnExisting(st, raw, payload, now);
    }
  }

  /** Reading the id after a successful update answers with what the
      update answered. */
  lemma UpdateThenGet(st: Store, raw: string, payload: Doc, now: string)
    requires IsPayload(payload) && Consistent(st)
    ensures var r := UpdatePet(st, raw, payload, now);
            r.result.Ok? ==> GetPetById(r.store, raw) == r.result
  {
    if ValidId(raw) && Parse(raw) in st {
      UpdateOnExisting(st, raw, payload, now);
      UpdatePreservesConsistency(st, raw, payload, now);
    }
  }

  // ---------------------------------------------------------------------
  // The 304 as intended

  /** The update as written does not answer 304 when the payload repeats
      what is stored: a document holding only its `_id` and the stamp
      `"a"`, updated with an empty payload at clock reading `"b"`,
      succeeds. The corrected handler answers 304 for the same request. */
  lemma ResubmitIsNotNotModified(id: ObjectId)
    ensures var st: Store := map[id := map[IdName := Oid(id), LastModifiedName := Str("a")]];
            && UpdatePet(st, Show(id), map[], "b").result.Ok?
            && UpdatePetIntended(st, Show(id), map[], "b") == Transition(Failure(NotModified304), st)
  {
    var st: Store := map[id := map[IdName := Oid(id), LastModifiedName := Str("a")]];
    ParseShow(id);
    assert CanonicalDoc(map[]);
    UpdateSameFieldsNewStamp(st, Show(id), map[], "b");
  }

  /** The corrected handler answers 304 exactly when the id exists and
      every payload field already holds the payload's value, and then it
      writes nothing. */
  lemma IntendedNotModifiedIff(st: Store, raw: string, payload: Doc, now: string)
    requires IsPayload(payload) && Consistent(st)
    ensures var r := UpdatePetIntended(st, raw, payload, now);
            && (r.result == Failure(NotModified304) <==>
                  && ValidId(raw) && Parse(raw) in st
                  && forall f | f in payload :: f in st[Parse(raw)] && st[Parse(raw)][f] == payload[f])
            && (r.result == Failure(NotModified304) ==> r.store == st)
  {
    if ValidId(raw) && Parse(raw) in st {
      var stored := st[Parse(raw)];
      MergeUnchangedIff(stored, payload);
    }
  }

  /** On a request that changes the document both with and without the
      restamp, the corrected handler answers and writes exactly as the
      handler as written; so do both on a malformed or absent id. */
  lemma IntendedAgreesOtherwise(st: Store, raw: string, payload: Doc, now: string)
    requires IsPayload(payload)
    requires ValidId(raw) && Parse(raw) in st ==>
               && st[Parse(raw)] + payload != st[Parse(raw)]
               && st[Parse(raw)] + UpdateFields(payload, now) != st[Parse(raw)]
    ensures UpdatePetIntended(st, raw, payload, now) == UpdatePet(st, raw, payload, now)
  {
  }

  // ---------------------------------------------------------------------
  // Timestamps

  /** Every stored document carries both stamps, creation first. */
  predicate TimestampsOrdered(st: Store) {
    forall k | k in st ::
      CreatedAtName in st[k] && LastModifiedName in st[k] && ValueLe(st[k][CreatedAtName], st[k][LastModifiedName])
  }

  /** The clock reading is not older than any stored modification stamp. */
  predicate ClockNotBehind(st: Store, now: string) {
    forall k | k in st :: LastModifiedName in st[k] ==> ValueLe(st[k][LastModifiedName], Str(now))
  }

  /** A create keeps `created_at <= last_modified` on every document. */
  lemma AddPetKeepsTimestampsOrdered(st: Store, payload: Doc, now: string, newId: ObjectId)
    requires IsPayload(payload) && TimestampsOrdered(st)
    ensures TimestampsOrdered(AddPet(st, payload, now, newId).store)
  {
    ValueLeReflexive(Str(now));
  }

  /** An update keeps `created_at <= last_modified` on every document,
      provided the payload does not set `created_at` and the clock does
      not run backwards. */
  lemma UpdateKeepsTimestampsOrdered(st: Store, raw: string, payload: Doc, now: string)
    requires IsPayload(payload) && CreatedAtName !in payload
    requires Consistent(st) && TimestampsOrdered(st) && ClockNotBehind(st, now)
    ensures TimestampsOrdered(UpdatePet(st, raw, payload, now).store)
  {
    var after := UpdatePet(st, raw, payload, now).store;
    if ValidId(raw) && Parse(raw) in st {
      var id := Parse(raw);
      var before := st[id];
      StampedMerge(before, payload, now);
      UpdatedDocument(st, raw, payload, now);
      ValueLeTransitive(before[CreatedAtName], before[LastModifiedName], Str(now));
      forall k | k in after
        ensures CreatedAtName in after[k] && LastModifiedName in after[k]
        ensures ValueLe(after[k][CreatedAtName], after[k][LastModifiedName])
      {
        if k == id {
          assert after[k] == before + UpdateFields(payload, now);
        }
      }
    }
  }
}
