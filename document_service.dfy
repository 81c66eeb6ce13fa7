/**
 * DocumentService: uploading a document (object storage first, then the
 * database, with a compensating delete when the database fails), reading
 * one, and updating its name and type. The repositories and the object
 * store are maps held by the service object; every call on them is appended
 * to `calls`. Which collaborator call throws is given by parameters.
 */
module DocumentServices {
  import opened Wrappers
  import opened Hex
  import opened Uuids
  import opened Storage
  import opened Model

  /** Which of the calls made by create throw. */
  datatype CreateFaults = CreateFaults(putFails: bool, firstSaveFails: bool,
                                       secondSaveFails: bool, deleteFails: bool)

  /** What create answers, the calls it made, and the object store after it. */
  datatype Upload = Upload(result: Result<Document, Error>, calls: seq<Call>,
                           objects: map<string, seq<Byte>>)

  /** The object key of a new document. */
  function ObjectKey(publicId: Uuid, extension: string): string {
    BuildObjectKey(UuidToString(publicId), Some(extension))
  }

  function GetSpec(documents: map<Uuid, Document>, id: Uuid): Step<Document> {
    Step(if id in documents then Ok(documents[id]) else Err(Internal), [FindDocument(id)])
  }

  /** The try block of create and its catch, once the bytes are stored:
      two saves, or a failing save followed by one delete of the key. */
  function PersistSpec(doc: Document, key: string, stored: map<string, seq<Byte>>,
                       faults: CreateFaults): Upload
  {
    var compensated := if faults.deleteFails then stored else stored - {key};
    if faults.firstSaveFails then
      Upload(Err(Internal), [SaveDocument(doc), DeleteObject(key)], compensated)
    else if faults.secondSaveFails then
      Upload(Err(Internal), [SaveDocument(doc), SaveDocument(doc), DeleteObject(key)], compensated)
    else
      Upload(Ok(doc), [SaveDocument(doc), SaveDocument(doc)], stored)
  }

  function CreateSpec(users: map<string, User>, objects: map<string, seq<Byte>>,
                      file: MultipartFile, name: string, extension: string,
                      principal: Option<string>, publicId: Uuid,
                      createdAt: Instant, updatedAt: Instant, faults: CreateFaults): Upload
  {
    StoreUnderKey(users, objects, file, name, extension, principal, publicId,
                  ObjectKey(publicId, extension), createdAt, updatedAt, faults)
  }

  /** create once the object key is built: upload, then persist. */
  function StoreUnderKey(users: map<string, User>, objects: map<string, seq<Byte>>,
                         file: MultipartFile, name: string, extension: string,
                         principal: Option<string>, publicId: Uuid, key: string,
                         createdAt: Instant, updatedAt: Instant, faults: CreateFaults): Upload
  {
    var acting := ActingUser(users, principal);
    var upload := acting.1 + [PutObject(key, file.content)];
    if faults.putFails then Upload(Err(StorageFailure), upload, objects)
    else
      var doc := Document(publicId, name, extension, file.Size(), key, acting.0, createdAt, updatedAt);
      var p := PersistSpec(doc, key, objects[key := file.content], faults);
      Upload(p.result, upload + p.calls, p.objects)
  }

  /** The document with the request's non-null fields applied. */
  function ApplyMetadata(d: Document, req: MetadataRequest): Document {
    var named := if req.name.Some? then d.(filename := req.name.value) else d;
    if req.docType.Some? then named.(contentType := req.docType.value) else named
  }

  function UpdateMetadataSpec(documents: map<Uuid, Document>, id: Uuid, req: Option<MetadataRequest>,
                              now: Instant, saveFails: bool): Step<Document>
  {
    if req.None? then Step(Err(Internal), [])
    else if id !in documents then Step(Err(Internal), [FindDocument(id)])
    else
      var d := documents[id];
      if req.value.name.None? && req.value.docType.None? then Step(Ok(d), [FindDocument(id)])
      else
        var e := ApplyMetadata(d, req.value).(updatedAt := now);
        Step(if saveFails then Err(Internal) else Ok(e), [FindDocument(id), SaveDocument(e)])
  }

  /* ---------- the service ---------- */

  class DocumentService {
    var documents: map<Uuid, Document>     // DocumentRepository, by public id
    var users: map<string, User>           // UserRepository, by username
    var objects: map<string, seq<Byte>>    // the object store, by key
    var calls: seq<Call>                   // every collaborator call made, in order

    ghost predicate Valid()
      reads this
    {
      KeyedDocuments(documents)
    }

    constructor (documents: map<Uuid, Document>, users: map<string, User>, objects: map<string, seq<Byte>>)
      requires KeyedDocuments(documents)
      ensures Valid()
      ensures this.documents == documents && this.users == users && this.objects == objects
      ensures calls == []
    {
      this.documents := documents;
      this.users := users;
      this.objects := objects;
      calls := [];
    }

    method GetByPublicId(id: Uuid) returns (r: Result<Document, Error>)
      modifies this`calls
      ensures var s := GetSpec(documents, id); r == s.result && calls == old(calls) + s.calls
    {
      calls := calls + [FindDocument(id)];
      if id in documents {
        r := Ok(documents[id]);
      } else {
        r := Err(Internal);
      }
    }

    method LookUpUser(principal: Option<string>) returns (user: Option<User>)
      modifies this`calls
      ensures user == ActingUser(users, principal).0
      ensures calls == old(calls) + ActingUser(users, principal).1
    {
      user := None;
      if principal.Some? {
        calls := calls + [FindUser(principal.value)];
        if principal.value in users {
          user := Some(users[principal.value]);
        }
      }
    }

    /** storage.put: stores the file's bytes under the key, or throws. */
    method Put(key: string, file: MultipartFile, fails: bool) returns (stored: bool)
      modifies this`objects, this`calls
      ensures stored == !fails
      ensures calls == old(calls) + [PutObject(key, file.content)]
      ensures objects == if stored then old(objects)[key := file.content] else old(objects)
    {
      calls := calls + [PutObject(key, file.content)];
      stored := !fails;
      if stored {
        objects := objects[key := file.content];
      }
    }

    /** storage.delete: removes the key, or throws. */
    method Delete(key: string, fails: bool)
      modifies this`objects, this`calls
      ensures calls == old(calls) + [DeleteObject(key)]
      ensures objects == if fails then old(objects) else old(objects) - {key}
    {
      calls := calls + [DeleteObject(key)];
      if !fails {
        objects := objects - {key};
      }
    }

    /** documentRepository.save: stores d under its public id, or throws. */
    method Save(d: Document, fails: bool) returns (saved: bool)
      requires Valid()
      modifies this`documents, this`calls
      ensures Valid()
      ensures saved == !fails
      ensures calls == old(calls) + [SaveDocument(d)]
      ensures documents == if saved then old(documents)[d.publicId := d] else old(documents)
    {
      calls := calls + [SaveDocument(d)];
      saved := !fails;
      if saved {
        documents := documents[d.publicId := d];
      }
    }

    /** The try block of create: the entity is saved, then saved again; when
        either save throws, the transaction rolls the repository back. */
    method PersistTwice(doc: Document, firstFails: bool, secondFails: bool) returns (saved: bool)
      requires Valid()
      modifies this`documents, this`calls
      ensures Valid()
      ensures saved == (!firstFails && !secondFails)
      ensures calls == old(calls) + (if firstFails then [SaveDocument(doc)]
                                     else [SaveDocument(doc), SaveDocument(doc)])
      ensures documents == if saved then old(documents)[doc.publicId := doc] else old(documents)
    {
      var before := documents;
      saved := Save(doc, firstFails);
      if saved {
        saved := Save(doc, secondFails);
      }
      if !saved {
        documents := before;
      }
    }

    /** The try block and its catch: persist, or delete the stored object
        once and answer the generic error; a failing delete is only logged. */
    method PersistOrCompensate(doc: Document, key: string, faults: CreateFaults)
      returns (r: Result<Document, Error>)
      requires Valid()
      modifies this`documents, this`objects, this`calls
      ensures Valid()
      ensures var p := PersistSpec(doc, key, old(objects), faults);
              r == p.result && calls == old(calls) + p.calls && objects == p.objects
      ensures documents == if r.Ok? then old(documents)[doc.publicId := doc] else old(documents)
    {
      var saved := PersistTwice(doc, faults.firstSaveFails, faults.secondSaveFails);
      if !saved {
        Delete(key, faults.deleteFails);
        return Err(Internal);
      }
      return Ok(doc);
    }

    /** The part of create before the try block: resolve the uploader, then
        put the bytes under the key (a failing put is passed on). */
    method ResolveAndStore(principal: Option<string>, key: string, file: MultipartFile, fails: bool)
      returns (uploadedBy: Option<User>, stored: bool)
      modifies this`objects, this`calls
      ensures uploadedBy == ActingUser(users, principal).0
      ensures stored == !fails
      ensures calls == old(calls) + (ActingUser(users, principal).1 + [PutObject(key, file.content)])
      ensures objects == if stored then old(objects)[key := file.content] else old(objects)
    {
      uploadedBy := LookUpUser(principal);
      stored := Put(key, file, fails);
    }

    method Create(file: MultipartFile, name: string, extension: string, principal: Option<string>,
                  publicId: Uuid, createdAt: Instant, updatedAt: Instant, faults: CreateFaults)
      returns (r: Result<Document, Error>)
      requires Valid()
      modifies this
      ensures Valid()
      ensures var u := CreateSpec(old(users), old(objects), file, name, extension, principal,
                                  publicId, createdAt, updatedAt, faults);
              r == u.result && calls == old(calls) + u.calls && objects == u.objects
      ensures documents == if r.Ok? then old(documents)[publicId := r.value] else old(documents)
      ensures users == old(users)
    {
      var objectKey := ObjectKey(publicId, extension);
      r := StoreThenPersist(file, name, extension, principal, publicId, objectKey,
                            createdAt, updatedAt, faults);
    }

    /** The body of create after the key is built. */
    method StoreThenPersist(file: MultipartFile, name: string, extension: string,
                            principal: Option<string>, publicId: Uuid, objectKey: string,
                            createdAt: Instant, updatedAt: Instant, faults: CreateFaults)
      returns (r: Result<Document, Error>)
      requires Valid()
      modifies this
      ensures Valid()
      ensures var u := StoreUnderKey(old(users), old(objects), file, name, extension, principal,
                                     publicId, objectKey, createdAt, updatedAt, faults);
              r == u.result && calls == old(calls) + u.calls && objects == u.objects
      ensures documents == if r.Ok? then old(documents)[publicId := r.value] else old(documents)
      ensures users == old(users)
    {
      ghost var u := StoreUnderKey(users, objects, file, name, extension, principal,
                                   publicId, objectKey, createdAt, updatedAt, faults);
      ghost var upload := ActingUser(users, principal).1 + [PutObject(objectKey, file.content)];
      var uploadedBy, stored := ResolveAndStore(principal, objectKey, file, faults.putFails);
      if !stored {
        assert u == Upload(Err(StorageFailure), upload, old(objects));
        return Err(StorageFailure);
      }
      var doc := Document(publicId, name, extension, file.Size(), objectKey, uploadedBy, createdAt, updatedAt);
      ghost var p := PersistSpec(doc, objectKey, objects, faults);
      assert u == Upload(p.result, upload + p.calls, p.objects);
      r := PersistOrCompensate(doc, objectKey, faults);
    }

    method UpdateMetadata(id: Uuid, req: Option<MetadataRequest>, now: Instant, saveFails: bool)
      returns (r: Result<Document, Error>)
      requires Valid()
      modifies this
      ensures Valid()
      ensures var s := UpdateMetadataSpec(old(documents), id, req, now, saveFails);
              r == s.result && calls == old(calls) + s.calls
      ensures documents == if r.Ok? then old(documents)[id := r.value] else old(documents)
      ensures users == old(users) && objects == old(objects)
    {
      // try block: every exception becomes ReifensbankRuntimeException
      if req.None? {
        return Err(Internal);  // req.getName() in the trace line: NullPointerException
      }
      var found := GetByPublicId(id);
      if found.Err? {
        return Err(Internal);
      }
      var doc := found.value;
      var updated := false;
      if req.value.name.Some? {
        doc := doc.(filename := req.value.name.value);
        updated := true;
      }
      if req.value.docType.Some? {
        doc := doc.(contentType := req.value.docType.value);
        updated := true;
      }
      if !updated {
        return Ok(doc);
      }
      doc := doc.(updatedAt := now);
      var saved := Save(doc, saveFails);
      if !saved {
        return Err(Internal);
      }
      return Ok(doc);
    }
  }

  /* ---------- what the operations promise ---------- */

  /** The upload comes first: after the user lookup, the first call puts the
      file's bytes under the key, and a failing put is passed on with nothing
      saved and the store unchanged. */
  lemma CreateStoresBeforeSaving(users: map<string, User>, objects: map<string, seq<Byte>>,
                                 file: MultipartFile, name: string, extension: string,
                                 principal: Option<string>, publicId: Uuid,
                                 createdAt: Instant, updatedAt: Instant, faults: CreateFaults)
    ensures var u := CreateSpec(users, objects, file, name, extension, principal,
                                publicId, createdAt, updatedAt, faults);
            var n := |ActingUser(users, principal).1|;
            && |u.calls| > n
            && u.calls[..n] == ActingUser(users, principal).1
            && u.calls[n] == PutObject(ObjectKey(publicId, extension), file.content)
            && (forall i :: 0 <= i < n ==> u.calls[i].FindUser?)
            && (u.result == Err(StorageFailure) <==> faults.putFails)
            && (faults.putFails ==> |u.calls| == n + 1 && u.objects == objects)
  {
  }

  /** The catch block on its own: a failing save is the generic internal
      error, and the key is deleted once, as the last call. */
  lemma PersistCompensates(doc: Document, key: string, objects: map<string, seq<Byte>>,
                           content: seq<Byte>, faults: CreateFaults)
    requires faults.firstSaveFails || faults.secondSaveFails
    ensures var p := PersistSpec(doc, key, objects[key := content], faults);
            && p.result == Err(Internal)
            && |p.calls| >= 2 && p.calls[0] == SaveDocument(doc)
            && p.calls[|p.calls| - 1] == DeleteObject(key)
            && (forall i :: 0 <= i < |p.calls| - 1 ==> !p.calls[i].DeleteObject?)
            && (faults.deleteFails ==> key in p.objects && p.objects[key] == content)
            && (!faults.deleteFails ==> key !in p.objects)
            && (!faults.deleteFails && key !in objects ==> p.objects == objects)
  {
    if !faults.deleteFails && key !in objects {
      assert objects[key := content] - {key} == objects;
    }
  }

  /** A database failure after the upload is the generic internal error, and
      the object is deleted exactly once, as the last call; the store is back
      as it was unless the delete itself failed. */
  lemma CreateCompensatesOnce(users: map<string, User>, objects: map<string, seq<Byte>>,
                              file: MultipartFile, name: string, extension: string,
                              principal: Option<string>, publicId: Uuid,
                              createdAt: Instant, updatedAt: Instant, faults: CreateFaults)
    requires !faults.putFails && (faults.firstSaveFails || faults.secondSaveFails)
    ensures var u := CreateSpec(users, objects, file, name, extension, principal,
                                publicId, createdAt, updatedAt, faults);
            var key := ObjectKey(publicId, extension);
            && u.result == Err(Internal)
            && u.calls[|u.calls| - 1] == DeleteObject(key)
            && (forall i :: 0 <= i < |u.calls| - 1 ==> !u.calls[i].DeleteObject?)
            && (exists i :: 0 <= i < |u.calls| && u.calls[i].SaveDocument?)
            && (faults.deleteFails ==> key in u.objects && u.objects[key] == file.content)
            && (!faults.deleteFails ==> key !in u.objects)
            && (!faults.deleteFails && key !in objects ==> u.objects == objects)
  {
    var u := CreateSpec(users, objects, file, name, extension, principal,
                        publicId, createdAt, updatedAt, faults);
    var acting := ActingUser(users, principal);
    var key := ObjectKey(publicId, extension);
    var doc := Document(publicId, name, extension, file.Size(), key, acting.0, createdAt, updatedAt);
    var upload := acting.1 + [PutObject(key, file.content)];
    var p := PersistSpec(doc, key, objects[key := file.content], faults);
    PersistCompensates(doc, key, objects, file.content, faults);
    assert u == Upload(p.result, upload + p.calls, p.objects);
    forall i | 0 <= i < |u.calls| - 1 ensures !u.calls[i].DeleteObject? {
      if i < |upload| {
        assert u.calls[i] == upload[i];
      } else {
        assert u.calls[i] == p.calls[i - |upload|];
      }
    }
    assert u.calls[|upload|] == SaveDocument(doc);
  }

  /** A successful upload saves the same entity twice after the put, keeps
      the bytes under the key, and the entity records the request. */
  lemma CreateSavesTwice(users: map<string, User>, objects: map<string, seq<Byte>>,
                         file: MultipartFile, name: string, extension: string,
                         principal: Option<string>, publicId: Uuid,
                         createdAt: Instant, updatedAt: Instant, faults: CreateFaults)
    requires !faults.putFails && !faults.firstSaveFails && !faults.secondSaveFails
    ensures var u := CreateSpec(users, objects, file, name, extension, principal,
                                publicId, createdAt, updatedAt, faults);
            var key := ObjectKey(publicId, extension);
            var n := |ActingUser(users, principal).1|;
            && u.result.Ok?
            && var d := u.result.value;
               && |u.calls| == n + 3
               && u.calls[n + 1] == u.calls[n + 2] == SaveDocument(d)
               && (forall c :: c in u.calls ==> !c.DeleteObject?)
               && key in u.objects && u.objects[key] == file.content
               && d.publicId == publicId && d.filename == name && d.contentType == extension
               && d.sizeBytes == |file.content| && d.storagePath == key
               && d.uploadedBy == ActingUser(users, principal).0
               && d.createdAt == createdAt && d.updatedAt == updatedAt
  {
  }

  /** The key a document is stored under names the document and a cleaned,
      lower-case extension. */
  lemma StoragePathNamesTheDocument(publicId: Uuid, extension: string)
    ensures var key := ObjectKey(publicId, extension);
            var prefix := KEY_PREFIX + UuidToString(publicId);
            && |key| >= |prefix| && key[..|prefix|] == prefix
            && (SafeExtension(Some(extension)) == [] <==> key == prefix)
  {
    KeyShape(UuidToString(publicId), Some(extension));
  }

  /** A metadata update applies exactly the non-null fields; it saves and
      stamps the update time only when there was one, and never touches the
      identity, the size, the storage path, the uploader or the creation time. */
  lemma MetadataPartialUpdate(documents: map<Uuid, Document>, id: Uuid, req: MetadataRequest,
                              now: Instant, saveFails: bool)
    requires id in documents
    ensures var s := UpdateMetadataSpec(documents, id, Some(req), now, saveFails);
            var d := documents[id];
            var changed := req.name.Some? || req.docType.Some?;
            && s.calls[0] == FindDocument(id)
            && ((exists i :: 0 <= i < |s.calls| && s.calls[i].SaveDocument?) <==> changed)
            && (s.result.Err? <==> changed && saveFails)
            && (s.result.Err? ==> s.result.error == Internal)
            && (s.result.Ok? ==>
                  var e := s.result.value;
                  && e.filename == (if req.name.Some? then req.name.value else d.filename)
                  && e.contentType == (if req.docType.Some? then req.docType.value else d.contentType)
                  && e.updatedAt == (if changed then now else d.updatedAt)
                  && e.publicId == d.publicId && e.sizeBytes == d.sizeBytes
                  && e.storagePath == d.storagePath && e.uploadedBy == d.uploadedBy
                  && e.createdAt == d.createdAt)
  {
    var s := UpdateMetadataSpec(documents, id, Some(req), now, saveFails);
    if req.name.Some? || req.docType.Some? {
      assert s.calls[1].SaveDocument?;
    }
  }

  /** A null request and an unknown id are both the generic internal error,
      with no save. */
  lemma MetadataFailures(documents: map<Uuid, Document>, id: Uuid, req: Option<MetadataRequest>,
                         now: Instant, saveFails: bool)
    requires req.None? || id !in documents
    ensures var s := UpdateMetadataSpec(documents, id, req, now, saveFails);
            && s.result == Err(Internal)
            && forall c :: c in s.calls ==> c == FindDocument(id)
    ensures id !in documents ==> GetSpec(documents, id).result == Err(Internal)
  {
  }
}
