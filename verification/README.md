# Pets router: a Dafny model

This project models the request handlers of the pets service's router
(`backend/pets/routes.py`): identifier validation, the `_get_pet_or_404`
lookup, `fix_pet_id`, the list endpoint with its paging, filter, sort and
count, and the create, read, update and delete handlers. The `pet`
collection is an immutable map from ObjectId to document, and a document
is a map from field name to value. Each handler is a pure function. The
writing handlers return a `Transition`, which holds the handler's result
and the collection after the request. Failures are an error enum: 400, 404,
304, and `Internal` for anything that surfaces as a 5xx.

Modules, in dependency order:

- `Outcomes` holds the error enum and the `Option` and `Result` types.
- `ObjectIds` models an ObjectId as twelve bytes. It holds the
  24-hex-digit external form (`Show`, which is `str(oid)`) and the
  parser (`Parse`). The codec round trips are proved in both directions.
  The bson constructor `ObjectId(s)` is not part of this model. The
  model assumes it accepts a string exactly when the string is 24
  hexadecimal digits in either case (`ValidId`). "Left out" lists
  where the library differs.
- `Decimal` models Python's `str(n)` for integers, which the delete
  handler uses in its message.
- `Documents` defines the values, field names and documents. A field
  name is canonical when a `Named` field never spells one of the six
  fields the router uses by name. It holds
  truthiness and `str` on values, equality filters, and the order MongoDB
  sorts values in. That order is proved total and transitive.
- `Sorting` is the `created_at` descending sort, as an insertion sort.
  It is proved sorted, a permutation and stable.
- `DocumentStore` models the driver calls as operations on the map:
  `find_one`, `insert_one`, `update_one` with `$set`, `delete_one`,
  `count_documents`, and the `find` cursor.
- `PetRoutes` holds the handlers.
- `HandlerLaws` holds the laws of the identifier, read and write
  handlers, including read-after-write.
- `ListingLaws` holds the laws of the list endpoint.

Inputs the handlers cannot compute become parameters:

- the clock reading (`now`);
- the id the driver generates for a new document (`newId`);
- the collection's natural scan order (`order`). `Enumerates(order, st)`
  requires it to list every key once. MongoDB leaves the order of
  documents with equal `created_at` unspecified, and its sort is not
  guaranteed stable. The model's sort is stable, so `order` fixes the tie
  order; because `order` is a free parameter, the laws cover every tie
  order.

Two invariants of a real collection are stated as predicates, and the
laws assume them where they need them:

- `Consistent`: every document's `_id` is its key.
- `Enumerates`: described above.

The create handler preserves `Consistent`; so do the update and delete
handlers.

The update's 304 is modelled as the code decides it. A `Findings`
entry below records why that differs from answering 304 for a request
that changes nothing.

## Model

| member | source | states |
|---|---|---|
| ObjectIds.ParseShow | backend/pets/routes.py:19 | the external form of every ObjectId is well-formed and parses back to that ObjectId |
| ObjectIds.ShowParse | backend/pets/routes.py:19 | a well-formed id parses to the ObjectId whose external form is the id lower-cased |
| ObjectIds.ShowInjective | backend/pets/routes.py:38 | distinct ObjectIds have distinct `str` forms |
| ObjectIds.DecodeEncode | backend/pets/routes.py:38 | decoding the hex form of a byte string gives the bytes back |
| ObjectIds.EncodeDecode | backend/pets/routes.py:19 | encoding the bytes read from an all-hex string gives the string lower-cased |
| PetRoutes.ValidateObjectId | backend/pets/routes.py:17-24 | succeeds exactly on a well-formed id; otherwise the error is 400; the accepted id prints as the input lower-cased |
| HandlerLaws.ValidateShow | backend/pets/routes.py:17-24 | the `str` form of any ObjectId validates back to that ObjectId |
| HandlerLaws.LowerIdempotent | backend/pets/routes.py:17-24 | lower-casing twice is lower-casing once, and keeps an id all-hex exactly when it was |
| HandlerLaws.ValidateIgnoresCase | backend/pets/routes.py:17-24 | validation gives the same answer for an id and its lower-cased form |
| PetRoutes.FetchPetOr404 | backend/pets/routes.py:29-33 | an absent id is a 404; on a consistent collection a present id answers with the stored document plus `id_` set to the id's external form |
| PetRoutes.GetPetOr404 | backend/pets/routes.py:27-33 | 400 for a malformed id; 404 for an absent one; on a consistent collection otherwise the stored document with `id_` equal to the lower-cased input |
| HandlerLaws.GetPetOr404Exact | backend/pets/routes.py:27-33 | on a consistent collection the lookup succeeds if and only if the id is well-formed and present, and then it returns the stored document apart from `id_` |
| PetRoutes.FixPetId | backend/pets/routes.py:36-43 | succeeds exactly when `_id` is present and truthy; otherwise it is an internal error |
| HandlerLaws.FixPetIdFields | backend/pets/routes.py:36-39 | the fixed document has the original's fields plus `id_`; `id_` holds `str(_id)`; every other field is unchanged |
| HandlerLaws.FixPetIdIdempotent | backend/pets/routes.py:36-39 | fixing an already fixed document gives the same document |
| HandlerLaws.FixPetIdUndo | backend/pets/routes.py:36-39 | removing `id_` from a fixed document restores the original, when the original had no `id_` |
| HandlerLaws.FixStoredPet | backend/pets/routes.py:36-39 | on a consistent collection every stored document fixes, with `id_` the external form of its key, and that form validates back to the key |
| DocumentStore.FindOne | backend/pets/routes.py:29 | `find_one` by `_id` finds a document exactly when the key is stored, and then it is the stored document |
| DocumentStore.FindOneMatchesIdFilter | backend/pets/routes.py:29 | on a consistent collection the key lookup finds a document exactly when one matches the filter `{"_id": id}`, and it finds that document |
| PetRoutes.GetPetById | backend/pets/routes.py:102-118 | 400 for a malformed id; 404 for an absent one; a success is the stored document with `id_` set to `str(_id)`; on a consistent collection success happens exactly for a present well-formed id, and `id_` is the lower-cased input |
| HandlerLaws.GetPetByIdAgrees | backend/pets/routes.py:102-118 | on a consistent collection `get_pet_by_id` answers exactly as `_get_pet_or_404` does |
| PetRoutes.NormalizePaging | backend/pets/routes.py:62-65 | a negative skip becomes 0 and a non-negative one is kept; a limit of 0 or less becomes 10 and a positive one is kept; so the limit is at least 1 |
| ListingLaws.NormalizePagingFixpoint | backend/pets/routes.py:62-65 | normalising normalised parameters changes nothing |
| ListingLaws.NegativeSkipIsZero | backend/pets/routes.py:62-63 | a negative skip gives the same response as skip 0 |
| ListingLaws.NonPositiveLimitIsDefault | backend/pets/routes.py:64-65 | a limit of 0 or less gives the same response as limit 10 |
| PetRoutes.BuildFilter | backend/pets/routes.py:67-73 | the filter has a `kind` key exactly when kind was supplied and a `status` key exactly when status was supplied, no other keys, and each key holds the supplied value |
| ListingLaws.FilterSelects | backend/pets/routes.py:67-74 | a document passes the filter exactly when it agrees with every supplied parameter; with none supplied the filter is empty |
| Documents.Truthy | backend/pets/routes.py:37 | the falsy values are exactly `None`, `0`, the empty string and `False`; an ObjectId is always truthy, so a stored `_id` passes the check |
| Documents.Repr | backend/pets/routes.py:38 | `str` of a string is the string; `str` of an ObjectId is a well-formed, all lower-case id that parses back to the ObjectId, which with `ObjectIds.ShowParse` determines it |
| Documents.ValueLeTotal | backend/pets/routes.py:77 | any two values are comparable in the sort order |
| Documents.ValueLeTransitive | backend/pets/routes.py:77 | the sort order is transitive |
| Sorting.InsertSorted | backend/pets/routes.py:77 | inserting a document into a run sorted newest first keeps it sorted |
| Sorting.SortDesc | backend/pets/routes.py:77 | the sort is a permutation of its input |
| Sorting.SortDescSorted | backend/pets/routes.py:77 | the sort's output is ordered by `created_at`, newest first |
| Sorting.SortDescStable | backend/pets/routes.py:77 | the sort is stable: for every key, the documents with that `created_at` come out in the order they went in |
| DocumentStore.ScanSound | backend/pets/routes.py:74 | every document the cursor visits matches the filter and is stored under a key of the scan order |
| DocumentStore.ScanFindsMatches | backend/pets/routes.py:74 | every stored document that matches the filter is visited by the cursor |
| DocumentStore.ScanCountsMatches | backend/pets/routes.py:74-78 | the cursor visits exactly as many documents as `count_documents` counts |
| DocumentStore.CountDocuments | backend/pets/routes.py:78 | the count plus the number of stored documents the filter rejects is the collection's size, so the count is the number of matching documents (and `ScanCountsMatches` equates it with the cursor's length); it is 0 exactly when no stored document matches, and the collection's size under the empty filter |
| DocumentStore.Find | backend/pets/routes.py:74-77 | the page is sorted newest first (the sort runs before skip and limit); its length is what remains of the matches after `skip`, cut at a positive `limit`; a limit of 0 means no limit; every document on it is one the filter selects |
| DocumentStore.Window | backend/pets/routes.py:75-76 | a skip-then-limit window holds at most `limit` elements; it holds exactly what remains after `skip`, up to `limit`; its i-th element is the input's `(skip+i)`-th |
| PetRoutes.FixAll | backend/pets/routes.py:80 | the list fixes exactly when every document fixes; a failure is internal; the fixed list keeps the length and fixes element by element |
| PetRoutes.GetAllPets | backend/pets/routes.py:50-81 | a failure is internal; `count` is the number of matching documents; the page holds at most the normalised limit |
| PetRoutes.GetAllPetsSucceeds | backend/pets/routes.py:74-81 | on a consistent collection the list endpoint succeeds |
| PetRoutes.ListedDocsAreStored | backend/pets/routes.py:74-79 | every document the cursor returns is a stored document matching the filter, and on a consistent collection it fixes |
| ListingLaws.FullListingIsListing | backend/pets/routes.py:74-80 | the full listing is sorted newest first; it holds only matching stored documents with their ids exposed, and every one of them |
| ListingLaws.PageIsWindow | backend/pets/routes.py:74-81 | the response is the skip/limit window of the full listing, with `count` equal to the full listing's length |
| ListingLaws.CountIgnoresPaging | backend/pets/routes.py:78 | `count` is the same for any skip and limit |
| ListingLaws.PageSize | backend/pets/routes.py:74-79 | the page holds `limit` documents, or what is left after `skip` when that is fewer |
| ListingLaws.PageContents | backend/pets/routes.py:74-80 | the page is sorted newest first, and every listed pet is a matching stored document with its id exposed |
| ListingLaws.FirstPageComplete | backend/pets/routes.py:74-81 | with skip at most 0 and a limit no smaller than the count, every matching document is listed |
| DocumentStore.InsertOne | backend/pets/routes.py:95 | an insert succeeds exactly for a new key; it stores the document with `_id` set to the key under exactly that key and leaves every other document as it was; a duplicate key is an internal error |
| PetRoutes.AddPet | backend/pets/routes.py:84-99 | with a new id: the stored document is the payload stamped with both timestamps and `_id`; the response is that document with `id_` set; nothing else changes. A duplicate id is an internal error and writes nothing |
| HandlerLaws.CreateStampsTimestamps | backend/pets/routes.py:92-95 | the new document has `created_at == last_modified ==` the clock reading, `_id` the new key, and every payload field |
| HandlerLaws.AddPetFrame | backend/pets/routes.py:95 | a create adds exactly the new key, keeps every other document, and keeps the collection consistent |
| HandlerLaws.CreateThenGet | backend/pets/routes.py:96-99 | reading the new id after a successful create answers with the create's response |
| HandlerLaws.AddPetKeepsTimestampsOrdered | backend/pets/routes.py:94 | a create keeps `created_at <= last_modified` on every document |
| Decimal.NatToStringRoundTrip | backend/pets/routes.py:135 | reading back the printed digits of a natural number gives the number |
| Decimal.IntToStringInjective | backend/pets/routes.py:135 | distinct integers print differently |
| DocumentStore.DeleteOne | backend/pets/routes.py:133-134 | the deleted count is 1 when the key is present and 0 when it is absent; the key is removed and the other documents are kept |
| PetRoutes.DeletePetById | backend/pets/routes.py:121-135 | 400 or 404 leave the collection unchanged; on a consistent collection a present id is removed and reported as `deleted count: 1`; no document is ever added or changed |
| HandlerLaws.DeleteFrame | backend/pets/routes.py:121-135 | a successful delete removes exactly the requested key; on a consistent collection a failed one changes nothing; consistency is kept |
| HandlerLaws.DeleteThenGet | backend/pets/routes.py:121-135 | after a successful delete both lookups of that id answer 404 |
| DocumentStore.UpdateOneSet | backend/pets/routes.py:152-155 | the addressed document becomes the stored one overwritten by the set fields; no other document changes; the keys are unchanged; the modified count is at most 1, and 0 exactly when nothing changed |
| DocumentStore.SetMerges | backend/pets/routes.py:152-154 | after a `$set` the listed fields hold the new values and every other field keeps its value |
| PetRoutes.UpdatePet | backend/pets/routes.py:138-158 | 400 or 404 leave the collection unchanged; the keys never change; no other document is touched |
| HandlerLaws.UpdateOnExisting | backend/pets/routes.py:150-158 | on an existing id the new document is the stored one merged with the payload and a fresh `last_modified`; an unchanged merge is a 304 that writes nothing; otherwise the response is the merged document with `id_` |
| HandlerLaws.MergeUnchangedIff | backend/pets/routes.py:152-155 | a `$set` leaves a document unchanged exactly when every field it sets already holds that value |
| HandlerLaws.UpdateNotModifiedIff | backend/pets/routes.py:150-158 | 304 is answered exactly when the id exists and every payload field, and the new `last_modified`, already holds its value |
| HandlerLaws.RestampMerge | backend/pets/routes.py:150-154 | resubmitting the fields a document holds, at a new clock reading, changes only `last_modified` |
| HandlerLaws.UpdateSameFieldsNewStamp | backend/pets/routes.py:150-158 | resubmitting the stored fields at a new clock reading succeeds and changes only `last_modified` |
| HandlerLaws.StampedMerge | backend/pets/routes.py:150-154 | the merged document has the old fields plus the payload's plus `last_modified`; payload fields take the payload's values and the rest keep theirs |
| HandlerLaws.UpdatedDocument | backend/pets/routes.py:150-154 | whether or not anything was modified, the stored document afterwards is the merge |
| HandlerLaws.UpdateKeepsUnlisted | backend/pets/routes.py:150-154 | after an update, payload fields hold the payload's values and `last_modified` the clock reading; every field not in the payload other than `last_modified` is unchanged, `_id` always among them and `created_at` too unless the payload sets it |
| HandlerLaws.UpdatePreservesConsistency | backend/pets/routes.py:152-154 | an update keeps the collection consistent |
| HandlerLaws.UpdateThenGet | backend/pets/routes.py:155-156 | reading the id after a successful update answers with the update's response |
| Documents.SpellingInjective | backend/pets/routes.py:37-38 | on canonical field names the spelling determines the field, so the field-name datatype stands in faithfully for string keys |
| PetRoutes.UpdatePetIntended | backend/pets/routes.py:150-158 | corrected update: 400 or 404 leave the collection unchanged; on a consistent collection an existing id is answered 304 exactly when merging the payload leaves the stored document as it was, and a 304 writes nothing; the keys never change; no other document is touched |
| HandlerLaws.ResubmitIsNotNotModified | backend/pets/routes.py:151-158 | for a stored document, an empty payload at a new clock reading succeeds in the handler as written, but the corrected handler answers 304 and writes nothing |
| HandlerLaws.IntendedNotModifiedIff | backend/pets/routes.py:150-158 | the corrected handler answers 304 exactly when the id exists and every payload field already holds its value, and then it writes nothing |
| HandlerLaws.IntendedAgreesOtherwise | backend/pets/routes.py:150-158 | on malformed or absent ids, and on requests that change the document with and without the restamp, the corrected handler writes and answers as the handler as written does |
| HandlerLaws.UpdateKeepsTimestampsOrdered | backend/pets/routes.py:151-154 | when the payload does not set `created_at` and the clock is not behind any stored stamp, an update keeps `created_at <= last_modified` |

## Findings

| source | as written | input that shows it | evidently intended | confidence | as-written member | corrected member |
|---|---|---|---|---|---|---|
| backend/pets/routes.py:151-158 | `last_modified` is set to a fresh clock reading inside the `$set`, so the document changes, and the 304 at line 158 is skipped, whenever the clock moved since the last write, even when the payload changes no field | a stored pet holding `_id` and `last_modified` "a", updated with an empty payload at clock reading "b": the answer is 200 with the restamped pet, not 304 | 304, with nothing written, when every payload field already holds its value | medium, not executed | HandlerLaws.ResubmitIsNotNotModified | HandlerLaws.IntendedNotModifiedIff |

The laws in `HandlerLaws` about `UpdatePet` describe the handler as
written. `PetRoutes.UpdatePetIntended` is the corrected handler. Its
304 is `HandlerLaws.IntendedNotModifiedIff`.
`HandlerLaws.IntendedAgreesOtherwise` shows that it behaves as the
handler as written on a malformed or absent id, and on every request
whose write changes the document both with and without the restamp.
The two differ in one more case besides the 304 above: the payload's
only change is a `last_modified` value, and the restamp writes back the
stored value. The corrected handler then answers with the unchanged
document; the handler as written answers 304.

## Left out

- FastAPI routing, the `Depends` wiring and response-model serialisation are not modelled. Each handler takes the raw path id and runs the dependency's checks itself, in the order the decorators list them.
- The Pydantic schemas are not modelled (`PetBase`, `PetOnDB`, `PetsOut`, `PetKind`, `PetStatus` live in `.models`, which is not part of this model). A payload is a field map without `_id` (`IsPayload`). Kind and status are optional values, and their truthiness is assumed true, as it is for members of a plain `Enum`.
- The Motor client and its asynchrony are not modelled. Every driver call is one atomic operation on the map, and no other request runs in between. Under that assumption two code paths cannot be reached:
  - the delete's `deleted_count == 0` fall-through at line 134, which the model answers with the internal error where the code returns an empty body;
  - an update whose re-read finds nothing.
- The create handler's falsy `inserted_id` branch at line 96 is not modelled, because an ObjectId is always truthy.
- `ValidId` is the model's assumption about the `bson.ObjectId` constructor, which is not part of this model. The library also accepts 12-byte `bytes` values and ObjectId instances. Line 97 passes the ObjectId itself, and the model looks it up directly.
- ObjectIds.ValidId: the library reads a 24-character string with `bytes.fromhex`, which also skips ASCII whitespace between digit pairs. A 24-character id such as `0102030405060708090a0b` followed by two spaces is accepted at line 19, but the model answers 400.
- PetRoutes.GetAllPets: `skip` and `limit` are unbounded integers here. The driver encodes them as 64-bit BSON integers and raises at 2^63 or more, which surfaces as a 500. The model instead answers an empty page for such a skip and a normal page for such a limit.
- Driver failures are not modelled: lost connections, server errors and time-outs all surface as a 500 in the code. The only driver error modelled is the duplicate key of an insert.
- Field names are a datatype, not strings. `IsPayload` requires canonical names (`Documents.Canonical`), so a payload cannot carry `_id` or a timestamp under a `Named` spelling. The schema's other constraints on field names are not modelled.
- `datetime.utcnow().isoformat()` is a string parameter `now`. Stamps are compared as strings.
- The generated id of a new document is a parameter `newId`.
- DocumentStore.Find: its contract fixes the page's order, length and membership but not which matches `skip` drops; `ListingLaws.PageIsWindow` states that, as the `skip`..`skip+limit` window of the full sorted listing.
- The order of documents with equal `created_at` is unspecified in MongoDB, whose sort need not be stable. The model's sort is stable (`Sorting.SortDescStable`) over the parameter `order`, and since `order` is free, every tie order the server could produce is covered.
- Values cover null, integers, strings, ObjectIds and booleans. Floats, dates, embedded documents, arrays, and MongoDB's cross-type numeric comparison are not modelled.
- The `CONF` debug flag and `logging.warning` (lines 21-22) are not modelled; they are side effects only.
- `PetRoutes.GetAllPets`: its own contract states the failure kind, the count and the page bound. Success on a consistent collection is `GetAllPetsSucceeds`, and the exact page is `ListingLaws.PageIsWindow`.
- `PetRoutes.UpdatePet`: its own contract covers the 400 and 404 outcomes and the frame. The outcome on an existing id is `HandlerLaws.UpdateOnExisting`.
- `PetRoutes.FixPetId`: its own contract states when it succeeds. The fields of the fixed document are `HandlerLaws.FixPetIdFields`.
- `PetRoutes.GetAllPets`: the page and the count come from two separate queries in the code. Another writer between them could make them disagree; the model reads both from one state.
