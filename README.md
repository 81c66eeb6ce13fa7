# reifensbank service core in Dafny

reifensbank stores uploaded documents in an object store and records them in a
relational database. It also groups documents into protocols that carry a
status. This project models the layer that checks requests and changes that
state:

- **ProtocolService**:
  - reading, creating, fully updating and state-updating a protocol;
  - validating the requested document ids, collecting every unknown id;
  - the generated protocol code.
- **DocumentService**:
  - uploading a document (object store first, then the database, with a
    compensating delete);
  - reading a document;
  - the partial metadata update.
- **StorageService.buildObjectKey**: the object key of a document.
- **DocumentsAppService** and **ProtocolsAppService**:
  - the request guards in front of the services;
  - the HTTP answers (status, Location, body);
  - the translation of exceptions.
- **DocumentMappers** and **ProtocolMappers**: entity-to-API-model projection.
- **CustomUserDetailsService**:
  - loading a user for Spring Security, by probing getters by name in a fixed
    order;
  - the enabled and locked flags;
  - the ordered authority list.
- **ErrorCodeGenerator**: the eight-digit hex code shown with a 500 answer.

Modelling choices:

- The repositories are maps keyed by public id (documents, protocols) or by
  username (users). The object store is a map from key to bytes.
- Every repository and storage call is appended to a trace, `calls`. So "looks
  every id up", "never saves", "deletes exactly once, last" and "the put comes
  before any save" are statements about that trace.
- Whether a call throws is a parameter (`saveFails`, `CreateFaults`).
- The clock readings, `UUID.randomUUID()` and the bytes drawn from
  `SecureRandom` are parameters.
- Java `null` is `Option.None`. A thrown exception is `Result.Err` carrying a
  `Model.Error`:
  - `Http(status, reason)` is `ReifensbankHttpException`;
  - `Internal` is `ReifensbankRuntimeException`, the generic 500;
  - `StorageFailure` is whatever `storage.put` threw;
  - `NullPointer` is a `NullPointerException`.
- The two services are classes:
  - their repositories are fields that the methods reassign;
  - each method is proved equal to a pure specification function of the old
    state (`CreateSpec`, `UpdateAllSpec`, …);
  - what the source promises is proved as lemmas about those functions.
- The two application services are functions that take the service they call
  as a function parameter. Lemmas compose them with the services'
  specification functions.

Where the code and the repository's own description or tests disagree, the
model follows the code:

- `DocumentService.create` saves the entity twice (lines 70 and 74), not once.
- A failing `storage.put` is passed on unchanged, not classified as 503. The
  documents app layer then answers it with the generic 500.
- An unknown document id in `DocumentService.getByPublicId` is the generic 500,
  not 404.
- A metadata update that names no field does not save at all. No "no-op save"
  happens.
- `ProtocolsAppService` turns every exception into the generic 500, including
  the service's 400 and 404. No operation there raises an HTTP exception.
- `DocumentService` has no `replaceContent` or `delete`. The documents app
  layer's part of those two operations is modelled over whatever such a
  service answers.

One consequence of the code follows from the model and is proved
(`DocumentsApp.AnonymousUploadIsStoredButFails`). An upload with no signed-in
user, or with one the repository does not know, has its bytes stored and its
entity saved twice. Even so, the client gets the generic 500, because
`DocumentMappers.toModel` dereferences the missing uploader.

## Model

| member | source | states |
|---|---|---|
| ErrorCodes.GenerateHexCode | src/main/java/com/task/reifensbank/util/ErrorCodeGenerator.java:12-20 | fills a 4-byte array with the drawn bytes, then appends each as two digits; the code is the hex encoding of the bytes' unsigned values, 8 characters long, all in [0-9a-f] |
| ErrorCodes.UnsignedAll | src/main/java/com/task/reifensbank/util/ErrorCodeGenerator.java:16-17 | a signed byte's unsigned value is taken byte by byte, keeping the count |
| ErrorCodes.CodeDeterminesBytes | src/main/java/com/task/reifensbank/util/ErrorCodeGenerator.java:16-18 | reading the code back two digits at a time gives the drawn bytes |
| ErrorCodes.CodesAreInjective | src/main/java/com/task/reifensbank/util/ErrorCodeGenerator.java:16-18 | two draws with the same code are the same draw |
| ErrorCodes.FormatExamples | src/main/java/com/task/reifensbank/util/ErrorCodeGenerator.java:17 | "%02x" renders -1 as "ff", 10 as "0a", -128 as "80" |
| Hex.HexEncode | src/main/java/com/task/reifensbank/util/ErrorCodeGenerator.java:16-18 | two lower-case hex digits per byte |
| Hex.HexRoundTrip | src/main/java/com/task/reifensbank/util/ErrorCodeGenerator.java:16-18 | decoding an encoding gives back the bytes |
| Hex.HexEncodeConcat | src/main/java/com/task/reifensbank/util/ErrorCodeGenerator.java:16-18 | appending byte by byte encodes the concatenation |
| Uuids.UuidDigits | src/main/java/com/task/reifensbank/service/ProtocolService.java:158 | UUID.toString() with the dashes removed is the 32 hex digits of the 16 bytes, in order |
| Storage.KeyShape | src/main/java/com/task/reifensbank/service/storage/StorageService.java:10-14 | the key starts with "documents/" and then the public id verbatim. It is exactly that when the sanitised extension is empty. Otherwise it is "documents/<id>.<ext>", where ext is the lower-cased sanitised extension, non-empty and over [a-z0-9] |
| Storage.SafeExtensionKeepsAlnum | src/main/java/com/task/reifensbank/service/storage/StorageService.java:11 | the sanitised extension keeps exactly the [a-zA-Z0-9] characters, in order |
| Storage.SafeExtension | src/main/java/com/task/reifensbank/service/storage/StorageService.java:11 | null gives ""; otherwise no longer than the input, and only [a-zA-Z0-9] characters remain (exactly the input's, in order: Storage.SafeExtensionKeepsAlnum) |
| Storage.BuildObjectKey | src/main/java/com/task/reifensbank/service/storage/StorageService.java:10-14 | the key starts with "documents/" and the id, and is exactly that when the sanitised extension is blank (full shape: Storage.KeyShape) |
| Storage.SafeExtensionBlankIffEmpty | src/main/java/com/task/reifensbank/service/storage/StorageService.java:11-12 | a sanitised extension is blank exactly when it is empty; null sanitises to "" |
| Storage.NormalisationIdempotent | src/main/java/com/task/reifensbank/service/storage/StorageService.java:11-13 | building from the lower-cased sanitised extension gives the same key |
| Storage.KeyExamples | src/main/java/com/task/reifensbank/service/storage/StorageService.java:11-13 | "pdf" gives "documents/<id>.pdf"; ".." and null give "documents/<id>" |
| DocumentMappers.ToModel | src/main/java/com/task/reifensbank/mappers/DocumentMappers.java:10-18 | fails with NullPointerException exactly when the uploader is null; otherwise copies id, name, type and createdAt and takes createdBy from the uploader's username |
| DocumentMappers.ToModelIgnoresStorageFields | src/main/java/com/task/reifensbank/mappers/DocumentMappers.java:10-18 | size, storage path, update time and the uploader's password do not reach the model |
| ProtocolMappers.ToStateModel | src/main/java/com/task/reifensbank/mappers/ProtocolMappers.java:33-40 | null exactly for a null status; the state of the same name when the API declares it, NEW otherwise |
| ProtocolMappers.DocumentIds | src/main/java/com/task/reifensbank/mappers/ProtocolMappers.java:23-27 | the set of the documents' public ids, no larger than the number of documents |
| ProtocolMappers.ToModel | src/main/java/com/task/reifensbank/mappers/ProtocolMappers.java:16-31 | null exactly for null. Otherwise the id is the public id and the state comes from toStateModel. The document ids are exactly those of the attached documents, or none when the collection is null |
| ProtocolMappers.DeclaredStatusesKeepTheirName | src/main/java/com/task/reifensbank/mappers/ProtocolMappers.java:33-36 | every declared status maps to the state of the same name |
| ProtocolMappers.StateRoundTrip | src/main/java/com/task/reifensbank/mappers/ProtocolMappers.java:33-36 | a requested state stored as a status reads back as that state |
| ProtocolMappers.UnknownStatusFallsBackToNew | src/main/java/com/task/reifensbank/mappers/ProtocolMappers.java:37-39 | a status name the API lacks maps to NEW |
| Model.ActingUser | src/main/java/com/task/reifensbank/service/ProtocolService.java:58-65 | the user is present exactly when there is a name and the repository knows it; the lookup is made exactly when there is a name |
| ProtocolServices.GenerateCode | src/main/java/com/task/reifensbank/service/ProtocolService.java:157-159 | the code has 11 characters and starts with "PR-" (the digits: ProtocolServices.CodeShape) |
| ProtocolServices.CodeShape | src/main/java/com/task/reifensbank/service/ProtocolService.java:157-159 | the code is 11 characters: "PR-" and then the first 4 bytes of the UUID as upper-case hex digits |
| ProtocolServices.CodeDeterminesPrefix | src/main/java/com/task/reifensbank/service/ProtocolService.java:158 | equal codes come from UUIDs with equal first 4 bytes |
| ProtocolServices.AddLinkedNoRepeats | src/main/java/com/task/reifensbank/service/ProtocolService.java:44-51 | LinkedHashSet.add keeps the set free of repeats and adds exactly the element |
| ProtocolServices.MissingAreTheUnknownIds | src/main/java/com/task/reifensbank/service/ProtocolService.java:47-52 | an id is missing exactly when it was requested and the repository lacks it |
| ProtocolServices.MissingHasNoRepeats | src/main/java/com/task/reifensbank/service/ProtocolService.java:45-51 | each missing id is reported once |
| ProtocolServices.MissingInRequestOrder | src/main/java/com/task/reifensbank/service/ProtocolService.java:47-52 | missing ids appear in the order of their first occurrence in the request |
| ProtocolServices.PrefixKeepsOrder | src/main/java/com/task/reifensbank/service/ProtocolService.java:47-52 | first-occurrence order in the ids looked at so far is the order in the whole request |
| ProtocolServices.AppendKeepsOrder | src/main/java/com/task/reifensbank/service/ProtocolService.java:50 | adding an id first met at the current step keeps request order |
| ProtocolServices.MissingIsUnknownInRequestOrder | src/main/java/com/task/reifensbank/service/ProtocolService.java:44-56 | the reported ids are exactly the unknown ones, each once, in request order |
| ProtocolServices.DocsAreTheKnownIds | src/main/java/com/task/reifensbank/service/ProtocolService.java:44-52 | the collected documents are exactly the stored documents of the known requested ids, each once |
| ProtocolServices.NothingMissingIffAllKnown | src/main/java/com/task/reifensbank/service/ProtocolService.java:54-56 | the 400 is raised exactly when some requested id is unknown |
| ProtocolServices.ProtocolService.constructor | src/main/java/com/task/reifensbank/service/ProtocolService.java:29-31 | the service holds the three repositories and has made no call |
| ProtocolServices.ProtocolService.GetByPublicId | src/main/java/com/task/reifensbank/service/ProtocolService.java:33-36 | one lookup; the stored protocol, or 404 "Protocol not found" |
| ProtocolServices.ProtocolService.LookUpDocuments | src/main/java/com/task/reifensbank/service/ProtocolService.java:44-52 | the loop looks up every requested id in order and collects the found documents and the missing ids as LinkedHashSets |
| ProtocolServices.ProtocolService.LookUpUser | src/main/java/com/task/reifensbank/service/ProtocolService.java:58-65 | the acting user, looked up only when the request has a name |
| ProtocolServices.ProtocolService.Save | src/main/java/com/task/reifensbank/service/ProtocolService.java:80 | a save that does not throw stores the protocol under its public id; one that throws changes nothing |
| ProtocolServices.ProtocolService.Create | src/main/java/com/task/reifensbank/service/ProtocolService.java:39-87 | answers and calls as CreateSpec; stores the protocol exactly when it answers it; documents and users untouched |
| ProtocolServices.ProtocolService.UpdateAll | src/main/java/com/task/reifensbank/service/ProtocolService.java:90-131 | answers and calls as UpdateAllSpec; stores the protocol exactly when it answers it |
| ProtocolServices.ProtocolService.UpdateState | src/main/java/com/task/reifensbank/service/ProtocolService.java:133-155 | answers and calls as UpdateStateSpec; stores the protocol exactly when it answers it |
| ProtocolServices.CreateRejectsNoDocuments | src/main/java/com/task/reifensbank/service/ProtocolService.java:40-42 | a null or empty id list is a 400 with no repository call at all |
| ProtocolServices.CreateReportsEveryUnknownId | src/main/java/com/task/reifensbank/service/ProtocolService.java:44-56 | an unknown id gives one 400 listing every unknown id once, in request order, after looking up every id; no user lookup and no save |
| ProtocolServices.CreatedProtocol | src/main/java/com/task/reifensbank/service/ProtocolService.java:67-82 | the saved protocol has the fresh id and the generated code. Its status is NEW or the requested one. The acting user (or null) is both creator and updater. Its documents are exactly the requested ones, each once. The save is the last call |
| ProtocolServices.CreatePersistFailureIsInternal | src/main/java/com/task/reifensbank/service/ProtocolService.java:67-86 | after validation, an undeclared state name or a failing save is the generic 500 |
| ProtocolServices.UnknownProtocolIsNotFound | src/main/java/com/task/reifensbank/service/ProtocolService.java:33-36 | get, updateAll and updateState of an unknown id are 404 after that one lookup, before any document is validated |
| ProtocolServices.UpdateAllRejectsNoDocuments | src/main/java/com/task/reifensbank/service/ProtocolService.java:91-95 | after the protocol is found, a null or empty id list is the 400 "no documents", with the protocol lookup as the only call |
| ProtocolServices.UpdateAllValidatesDocuments | src/main/java/com/task/reifensbank/service/ProtocolService.java:93-109 | after the lookup, a null list gives a 400; unknown ids give a 400 listing every unknown id once, in request order, after every id was looked up; there is no user lookup or save |
| ProtocolServices.UpdateAllPersistFailureIsInternal | src/main/java/com/task/reifensbank/service/ProtocolService.java:120-130 | after validation, a null or undeclared state, a null document collection or a failing save is the generic 500 |
| ProtocolServices.UpdateAllReplacesDocuments | src/main/java/com/task/reifensbank/service/ProtocolService.java:120-126 | the documents become exactly the requested ones (replaced, not merged). Status, updater and update time are set. Identity, code, texts, creator and creation time are kept |
| ProtocolServices.UpdateStateTouchesOnlyStatus | src/main/java/com/task/reifensbank/service/ProtocolService.java:133-155 | no document lookup. Success exactly for a declared state and a save that does not throw. The result differs from the stored protocol only in status, updater and update time. Every failure is the generic 500 |
| DocumentServices.DocumentService.constructor | src/main/java/com/task/reifensbank/service/DocumentService.java:25-27 | the service holds its repositories and the store and has made no call |
| DocumentServices.DocumentService.GetByPublicId | src/main/java/com/task/reifensbank/service/DocumentService.java:29-32 | one lookup; the stored document, or the generic 500 (not 404) |
| DocumentServices.DocumentService.LookUpUser | src/main/java/com/task/reifensbank/service/DocumentService.java:37-48 | the uploader, looked up only when the request has a name |
| DocumentServices.DocumentService.Put | src/main/java/com/task/reifensbank/service/DocumentService.java:55 | a put that does not throw stores the bytes under the key; one that throws leaves the store as it was |
| DocumentServices.DocumentService.Delete | src/main/java/com/task/reifensbank/service/DocumentService.java:79 | removes the key unless the delete throws |
| DocumentServices.DocumentService.Save | src/main/java/com/task/reifensbank/service/DocumentService.java:70 | a save that does not throw stores the document under its public id |
| DocumentServices.DocumentService.PersistTwice | src/main/java/com/task/reifensbank/service/DocumentService.java:58-75 | saves, then saves again only when the first did not throw. The repository holds the document exactly when both succeed; otherwise the transaction leaves it as it was |
| DocumentServices.DocumentService.ResolveAndStore | src/main/java/com/task/reifensbank/service/DocumentService.java:37-55 | looks the uploader up when there is a name, then puts the bytes under the key; the store changes exactly when the put does not throw |
| DocumentServices.DocumentService.PersistOrCompensate | src/main/java/com/task/reifensbank/service/DocumentService.java:58-85 | answers, calls and leaves the store as PersistSpec: two saves, or one delete of the key after a failing save, then the generic 500 |
| DocumentServices.DocumentService.Create | src/main/java/com/task/reifensbank/service/DocumentService.java:35-86 | answers, calls and leaves the store as CreateSpec; holds the new document exactly when it answers it |
| DocumentServices.DocumentService.StoreThenPersist | src/main/java/com/task/reifensbank/service/DocumentService.java:37-85 | with the key already built: answers, calls and leaves the store as StoreUnderKey, and holds the new document exactly when it answers it |
| DocumentServices.PersistCompensates | src/main/java/com/task/reifensbank/service/DocumentService.java:70-84 | a failing save is the generic 500, the first call is a save, the key is deleted once and last, and the store is back as before the put unless the delete fails |
| DocumentServices.DocumentService.UpdateMetadata | src/main/java/com/task/reifensbank/service/DocumentService.java:89-128 | answers and calls as UpdateMetadataSpec; stores the document exactly when it answers it; the store is untouched |
| DocumentServices.CreateStoresBeforeSaving | src/main/java/com/task/reifensbank/service/DocumentService.java:44-58 | after the user lookup, the first call puts the file's bytes under the key. The put's exception is passed on unchanged exactly when the put throws, with nothing saved and the store as it was |
| DocumentServices.CreateCompensatesOnce | src/main/java/com/task/reifensbank/service/DocumentService.java:76-85 | a failing save gives the generic 500. The object is deleted exactly once, as the last call. A failing delete is swallowed and leaves the bytes; a successful one restores the store |
| DocumentServices.CreateSavesTwice | src/main/java/com/task/reifensbank/service/DocumentService.java:59-74 | on success the same entity is saved twice, with no delete. The bytes stay under the key. The entity holds the fresh id, the name, the unsanitised extension as type, the file size, the key, the uploader (or null) and both clock readings |
| DocumentServices.StoragePathNamesTheDocument | src/main/java/com/task/reifensbank/service/DocumentService.java:50-51 | the key is "documents/" and the canonical UUID string, with nothing after it exactly when no extension character survives |
| DocumentServices.MetadataPartialUpdate | src/main/java/com/task/reifensbank/service/DocumentService.java:98-123 | applies exactly the non-null fields. Saves and stamps the update time exactly when one was applied; fails only then, when the save throws. Identity, size, path, uploader and creation time are kept |
| DocumentServices.MetadataFailures | src/main/java/com/task/reifensbank/service/DocumentService.java:124-127 | a null request or an unknown id is the generic 500 with no save |
| DocumentsApp.Classify | src/main/java/com/task/reifensbank/usecase/DocumentsAppService.java:58-63 | HTTP exceptions are rethrown unchanged; everything else becomes the generic 500 |
| DocumentsApp.Answer | src/main/java/com/task/reifensbank/usecase/DocumentsAppService.java:51-57 | answers with the mapped entity exactly when the service succeeded and the entity has an uploader; otherwise the classified error |
| DocumentsApp.Create | src/main/java/com/task/reifensbank/usecase/DocumentsAppService.java:27-64 | the file, name and type checks run in that order, each a 400. Otherwise the answer is 201 exactly when the service returns an entity with an uploader: at "/documents/<id>", with body toModel of that entity. An entity without uploader is the generic 500; service failures are classified |
| DocumentsApp.UpdateMetadata | src/main/java/com/task/reifensbank/usecase/DocumentsAppService.java:66-88 | a null id is a 400, then a null request or one naming no field is a 400. Otherwise 200 exactly when the service returns an entity with an uploader, with body toModel of it; an entity without uploader is the generic 500; service failures are classified |
| DocumentsApp.ReplaceContent | src/main/java/com/task/reifensbank/usecase/DocumentsAppService.java:90-116 | a null id is a 400, then a null or empty file is a 400. Otherwise 200 exactly when the service returns an entity with an uploader, with body toModel of it; an entity without uploader is the generic 500; service failures are classified |
| DocumentsApp.Delete | src/main/java/com/task/reifensbank/usecase/DocumentsAppService.java:118-134 | a null id is a 400; 204 without a body exactly when the service succeeds; otherwise the classified failure |
| DocumentsApp.ChecksComeBeforeTheService | src/main/java/com/task/reifensbank/usecase/DocumentsAppService.java:33-41 | a request failing a check is a 400 whatever the service would do |
| DocumentsApp.StorageFailureIsInternal | src/main/java/com/task/reifensbank/usecase/DocumentsAppService.java:58-63 | the storage exception reaches the client as the generic 500 |
| DocumentsApp.KnownUploaderIsCreated | src/main/java/com/task/reifensbank/usecase/DocumentsAppService.java:47-57 | with a known user, the composed upload answers 201 at the new id with name, type, uploader and creation time, and the bytes are stored |
| DocumentsApp.AnonymousUploadIsStoredButFails | src/main/java/com/task/reifensbank/usecase/DocumentsAppService.java:47-51 | without a known user the upload is stored and saved, yet answered with the generic 500 |
| DocumentsApp.AppMetadataUpdateAlwaysSaves | src/main/java/com/task/reifensbank/usecase/DocumentsAppService.java:70-76 | behind the app's guard, a successful update always saves once and stamps the update time |
| ProtocolsApp.Answer | src/main/java/com/task/reifensbank/usecase/ProtocolsAppService.java:41-46 | the mapped protocol exactly when the service succeeded; any exception becomes the generic 500 |
| ProtocolsApp.Create | src/main/java/com/task/reifensbank/usecase/ProtocolsAppService.java:24-36 | 201 at "/protocols/<id>" with the mapped protocol exactly when the request is present and the service succeeds; every failure, 400 included, is the generic 500 |
| ProtocolsApp.GetById | src/main/java/com/task/reifensbank/usecase/ProtocolsAppService.java:38-47 | 200 with the mapped protocol exactly when the service succeeds; otherwise the generic 500 |
| ProtocolsApp.UpdateAll | src/main/java/com/task/reifensbank/usecase/ProtocolsAppService.java:49-58 | 200 with the mapped protocol exactly when the request is present and the service succeeds; otherwise the generic 500 |
| ProtocolsApp.UpdateState | src/main/java/com/task/reifensbank/usecase/ProtocolsAppService.java:60-69 | 200 with the mapped protocol exactly when the request is present and the service succeeds; otherwise the generic 500 |
| ProtocolsApp.NotFoundBecomesInternal | src/main/java/com/task/reifensbank/usecase/ProtocolsAppService.java:43-46 | the service's 404 for an unknown protocol reaches the client as 500, for get, updateAll and updateState |
| ProtocolsApp.MissingDocumentsBecomeInternal | src/main/java/com/task/reifensbank/usecase/ProtocolsAppService.java:32-35 | the service's 400 for an empty id list reaches the client as 500 |
| ProtocolsApp.CreatedBodyEchoesTheRequest | src/main/java/com/task/reifensbank/usecase/ProtocolsAppService.java:27-31 | a successful composed create answers 201 at the new location, with the requested state (NEW by default) and exactly the requested document ids |
| CustomUserDetails.InvokeString | src/main/java/com/task/reifensbank/security/CustomUserDetailsService.java:108-116 | null exactly when the getter is missing, throws or returns null; a String is returned as is |
| CustomUserDetails.InvokeBoolean | src/main/java/com/task/reifensbank/security/CustomUserDetailsService.java:118-126 | null exactly when the getter is missing, throws or returns null. A Boolean is returned as is; any other value is true exactly when its text is "true" ignoring case |
| CustomUserDetails.BooleanValueOfExamples | src/main/java/com/task/reifensbank/security/CustomUserDetailsService.java:122 | "TRUE" and "True" read as true; "yes", "1" and "truee" as false; a throwing or missing getter as null |
| CustomUserDetails.FirstNonBlankIsFirstMatch | src/main/java/com/task/reifensbank/security/CustomUserDetailsService.java:92-98 | the result is the value of the first getter, in order, giving a non-blank string; none exactly when no getter qualifies |
| CustomUserDetails.FirstNonNullString | src/main/java/com/task/reifensbank/security/CustomUserDetailsService.java:92-98 | the loop returns the first non-blank value, or IllegalStateException exactly when no getter qualifies |
| CustomUserDetails.FirstBooleanValue | src/main/java/com/task/reifensbank/security/CustomUserDetailsService.java:100-106 | a non-null default always gives a value |
| CustomUserDetails.FirstBooleanIsFirstMatch | src/main/java/com/task/reifensbank/security/CustomUserDetailsService.java:100-106 | the result is the first getter value that is not null, or the default when there is none |
| CustomUserDetails.FirstBoolean | src/main/java/com/task/reifensbank/security/CustomUserDetailsService.java:100-106 | the loop computes the first boolean and returns the default when no getter answers |
| CustomUserDetails.ResolveEnabled | src/main/java/com/task/reifensbank/security/CustomUserDetailsService.java:60-62 | enabled is the first enabled-style answer, true when none answers |
| CustomUserDetails.ResolveLocked | src/main/java/com/task/reifensbank/security/CustomUserDetailsService.java:64-70 | isAccountNonLocked decides when it answers (locked is its negation). Otherwise the user is locked exactly when the first locked-style getter that answers says true |
| CustomUserDetails.Names | src/main/java/com/task/reifensbank/security/CustomUserDetailsService.java:32-36 | every object maps, in order, to the prefix and its first non-blank name; the mapping fails exactly when one object has none |
| CustomUserDetails.AuthorityList | src/main/java/com/task/reifensbank/security/CustomUserDetailsService.java:30-37 | null roles give none. Otherwise one "ROLE_" name per role, in role order, then each authority name of each role, in order. It fails exactly when a role or an authority has no name |
| CustomUserDetails.AllAuthoritiesContains | src/main/java/com/task/reifensbank/security/CustomUserDetailsService.java:34-35 | every authority of every role reaches the flattened stream |
| CustomUserDetails.RolesAndAuthoritiesAreGranted | src/main/java/com/task/reifensbank/security/CustomUserDetailsService.java:30-37 | every role's "ROLE_" name and every authority's name is granted |
| CustomUserDetails.LoadUserByUsername | src/main/java/com/task/reifensbank/security/CustomUserDetailsService.java:26-46 | answers as LoadSpec: the lookup, then the authority list, the name, the password and the two flags |
| CustomUserDetails.OnlyUnknownNamesAreNotFound | src/main/java/com/task/reifensbank/security/CustomUserDetailsService.java:27-28 | UsernameNotFoundException exactly for an unknown name; every other failure is IllegalStateException |
| CustomUserDetails.EntityUserIsEnabledAndUnlocked | src/main/java/com/task/reifensbank/security/CustomUserDetailsService.java:43-44 | the user entity answers none of the flag getters, so a loaded user is never disabled and never locked |
| CustomUserDetails.EntityUserLoads | src/main/java/com/task/reifensbank/security/CustomUserDetailsService.java:39-45 | a user with a non-blank name and hash loads with that name and hash, enabled, not locked, with its role and authority names |
| CustomUserDetails.BlankPasswordIsIllegal | src/main/java/com/task/reifensbank/security/CustomUserDetailsService.java:56-58 | a blank password hash gives IllegalStateException |

## Left out

- The object store's implementation (MinIO client, bucket creation under a
  lock): the store is a map with failure parameters.
- JWT handling, the security configuration, controllers, logging and the
  global exception handler are not part of this model. The generic 500 is one
  error value; the diagnostic code attached to it is `ErrorCodes`.
- `@Transactional`: a failing save rolls the repository back to its state
  before the operation. The database's own isolation and concurrent requests
  are not modelled.
- `OffsetDateTime.now()` readings, `UUID.randomUUID()` and `SecureRandom`
  bytes are parameters. Collisions of random UUIDs are not considered.
- Exception messages are a `Reason` value, not text. The text
  "Unknown document IDs: " + the set is `UnknownDocumentIds(ids)`.
- The enumerations `ProtocolStatusEnum` and `ProtocolState` are not part of
  this model. Both are modelled by name, with the constants NEW,
  PREPARE_FOR_SHIPMENT and CANCELED.
- Role and Authority entities are seen only through their getters: a role as
  its getter map and its authority collection.
- CustomUserDetails.UserObject: the user entity exposes only `getUsername` and
  `getPasswordHash` among the probed names, as its Lombok getters do.
  Hibernate proxies are not modelled.
- ProtocolMappers.ToModel: `Collectors.toSet()` gives the document ids in
  hash order; the model gives them as a set, so their order is not captured.
- CustomUserDetails.LoadUserByUsername: Spring's `User` keeps the authorities
  in a sorted set; the model keeps the set of names, not their order or
  repeats (the list before it, `AuthorityList`, keeps both).
- JavaText.ToLower and JavaText.ToUpper: only ASCII letters change case, and
  ASCII letters map to ASCII letters. This assumes a JVM default locale such as
  `Locale.ROOT` or English. Under a Turkish or Azerbaijani locale,
  `toLowerCase()` turns 'I' into the dotless 'ı' (U+0131). The key for the
  extension "ICO" would then end in ".ıco", and `Storage.KeyShape`'s
  [a-z0-9] promise would not hold for the program. The locale is not a
  parameter of the model.
- Null `name`, `extension` or `file` passed directly to
  `DocumentService.create` are not modelled: the app layer rejects them first.
- A null request passed directly to the protocol service is not modelled;
  the service models take a request value. `ProtocolsApp` answers a null
  request with the generic 500 before the service is called. Called directly:
  - `create` throws a NullPointerException at `req.getDocumentIds()`, before
    any repository call.
  - `updateAll` throws it at the same call, after the protocol lookup.
  - `updateState` reaches `req.getState()` inside its try block, after the
    protocol and user lookups. The catch turns the NullPointerException into
    the generic 500 and nothing is saved.
- `DocumentService.replaceContent` and `delete` do not exist in the source, so
  they have no service model. The app layer's part is modelled over the
  service's outcome.
