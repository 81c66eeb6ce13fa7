/**
 * DocumentsAppService: the request checks in front of the document service,
 * the mapping of its result to an HTTP answer, and the translation of what
 * it throws. The service is a parameter: a function from the arguments the
 * app passes on to what the service answers.
 */
module DocumentsApp {
  import opened Wrappers
  import opened JavaText
  import opened Hex
  import opened Uuids
  import opened Model
  import opened DocumentMappers
  import DocumentServices

  /** catch (ReifensbankHttpException) rethrows; catch (Exception) wraps. */
  function Classify(e: Error): (r: Error)
    ensures r.Http? || r == Internal
    ensures e.Http? ==> r == e
    ensures !e.Http? ==> r == Internal
  {
    if e.Http? then e else Internal
  }

  /** Objects.isNull(file) || file.isEmpty() */
  predicate MissingFile(file: Option<MultipartFile>) {
    file.None? || file.value.IsEmpty()
  }

  /** Objects.isNull(s) || s.isBlank() */
  predicate MissingText(s: Option<string>) {
    s.None? || IsBlank(s.value)
  }

  function DocumentLocation(id: Uuid): string {
    "/documents/" + UuidToString(id)
  }

  /** Maps the stored entity to a 201/200 answer; toModel's
      NullPointerException becomes the generic internal error. */
  function Answer(status: int, location: Option<string>, saved: Result<Document, Error>): (r: Result<Response<DocumentModel>, Error>)
    ensures r.Ok? <==> saved.Ok? && saved.value.uploadedBy.Some?
    ensures r.Err? ==> r.error == Classify(if saved.Err? then saved.error else NullPointer)
    ensures r.Ok? ==> r.value.status == status && r.value.location == location
                      && r.value.body == Some(ToModel(saved.value).value)
  {
    if saved.Err? then Err(Classify(saved.error))
    else
      var body := ToModel(saved.value);
      if body.Err? then Err(Classify(body.error))
      else Ok(Response(status, location, Some(body.value)))
  }

  function Create(file: Option<MultipartFile>, name: Option<string>, docType: Option<string>,
                  service: (MultipartFile, string, string) -> Result<Document, Error>)
    : (r: Result<Response<DocumentModel>, Error>)
    ensures MissingFile(file) ==> r == Err(Http(BAD_REQUEST, FileRequired))
    ensures !MissingFile(file) && MissingText(name) ==> r == Err(Http(BAD_REQUEST, NameRequired))
    ensures !MissingFile(file) && !MissingText(name) && MissingText(docType) ==>
              r == Err(Http(BAD_REQUEST, TypeRequired))
    ensures r.Ok? <==>
              && !MissingFile(file) && !MissingText(name) && !MissingText(docType)
              && var saved := service(file.value, name.value, docType.value);
                 saved.Ok? && saved.value.uploadedBy.Some?
    ensures r.Ok? ==>
              var saved := service(file.value, name.value, docType.value);
              && r.value.status == CREATED
              && r.value.location == Some(DocumentLocation(saved.value.publicId))
              && r.value.body == Some(ToModel(saved.value).value)
    ensures !MissingFile(file) && !MissingText(name) && !MissingText(docType)
            && service(file.value, name.value, docType.value).Ok?
            && service(file.value, name.value, docType.value).value.uploadedBy.None? ==>
              r == Err(Internal)
    ensures !MissingFile(file) && !MissingText(name) && !MissingText(docType)
            && service(file.value, name.value, docType.value).Err? ==>
              r == Err(Classify(service(file.value, name.value, docType.value).error))
    ensures r.Err? ==> r.error.Http? || r.error == Internal
  {
    if MissingFile(file) then Err(Http(BAD_REQUEST, FileRequired))
    else if MissingText(name) then Err(Http(BAD_REQUEST, NameRequired))
    else if MissingText(docType) then Err(Http(BAD_REQUEST, TypeRequired))
    else
      var saved := service(file.value, name.value, docType.value);
      var location := if saved.Ok? then Some(DocumentLocation(saved.value.publicId)) else None;
      Answer(CREATED, location, saved)
  }

  function UpdateMetadata(id: Option<Uuid>, req: Option<MetadataRequest>,
                          service: (Uuid, MetadataRequest) -> Result<Document, Error>)
    : (r: Result<Response<DocumentModel>, Error>)
    ensures id.None? ==> r == Err(Http(BAD_REQUEST, IdRequired))
    ensures id.Some? && (req.None? || (req.value.name.None? && req.value.docType.None?)) ==>
              r == Err(Http(BAD_REQUEST, NoFieldsToUpdate))
    ensures r.Ok? <==>
              && id.Some? && req.Some? && (req.value.name.Some? || req.value.docType.Some?)
              && service(id.value, req.value).Ok?
              && service(id.value, req.value).value.uploadedBy.Some?
    ensures r.Ok? ==>
              && r.value.status == OK && r.value.location.None?
              && r.value.body == Some(ToModel(service(id.value, req.value).value).value)
    ensures id.Some? && req.Some? && (req.value.name.Some? || req.value.docType.Some?)
            && service(id.value, req.value).Ok?
            && service(id.value, req.value).value.uploadedBy.None? ==>
              r == Err(Internal)
    ensures id.Some? && req.Some? && (req.value.name.Some? || req.value.docType.Some?)
            && service(id.value, req.value).Err? ==>
              r == Err(Classify(service(id.value, req.value).error))
    ensures r.Err? ==> r.error.Http? || r.error == Internal
  {
    if id.None? then Err(Http(BAD_REQUEST, IdRequired))
    else if req.None? || (req.value.name.None? && req.value.docType.None?) then
      Err(Http(BAD_REQUEST, NoFieldsToUpdate))
    else Answer(OK, None, service(id.value, req.value))
  }

  /** The document service offers no replaceContent; this is the app's part
      over whatever such a service would answer. */
  function ReplaceContent(id: Option<Uuid>, file: Option<MultipartFile>,
                          service: (Uuid, MultipartFile) -> Result<Document, Error>)
    : (r: Result<Response<DocumentModel>, Error>)
    ensures id.None? ==> r == Err(Http(BAD_REQUEST, IdRequired))
    ensures id.Some? && MissingFile(file) ==> r == Err(Http(BAD_REQUEST, FileRequired))
    ensures r.Ok? <==>
              && id.Some? && !MissingFile(file)
              && service(id.value, file.value).Ok?
              && service(id.value, file.value).value.uploadedBy.Some?
    ensures r.Ok? ==>
              && r.value.status == OK && r.value.location.None?
              && r.value.body == Some(ToModel(service(id.value, file.value).value).value)
    ensures id.Some? && !MissingFile(file) && service(id.value, file.value).Ok?
            && service(id.value, file.value).value.uploadedBy.None? ==>
              r == Err(Internal)
    ensures id.Some? && !MissingFile(file) && service(id.value, file.value).Err? ==>
              r == Err(Classify(service(id.value, file.value).error))
    ensures r.Err? ==> r.error.Http? || r.error == Internal
  {
    if id.None? then Err(Http(BAD_REQUEST, IdRequired))
    else if MissingFile(file) then Err(Http(BAD_REQUEST, FileRequired))
    else Answer(OK, None, service(id.value, file.value))
  }

  /** The document service offers no delete either; 204 without a body. */
  function Delete(id: Option<Uuid>, service: Uuid -> Result<(), Error>): (r: Result<Response<()>, Error>)
    ensures id.None? ==> r == Err(Http(BAD_REQUEST, IdRequired))
    ensures r.Ok? <==> id.Some? && service(id.value).Ok?
    ensures r.Ok? ==> r.value == Response(NO_CONTENT, None, None)
    ensures id.Some? && service(id.value).Err? ==> r == Err(Classify(service(id.value).error))
  {
    if id.None? then Err(Http(BAD_REQUEST, IdRequired))
    else
      var done := service(id.value);
      if done.Err? then Err(Classify(done.error)) else Ok(Response(NO_CONTENT, None, None))
  }

  /* ---------- what the app layer promises ---------- */

  /** A request failing a check is answered without calling the service: the
      answer is the same whatever the service would do. */
  lemma ChecksComeBeforeTheService(file: Option<MultipartFile>, name: Option<string>, docType: Option<string>,
                                   s1: (MultipartFile, string, string) -> Result<Document, Error>,
                                   s2: (MultipartFile, string, string) -> Result<Document, Error>)
    requires MissingFile(file) || MissingText(name) || MissingText(docType)
    ensures Create(file, name, docType, s1) == Create(file, name, docType, s2)
    ensures Create(file, name, docType, s1).Err? && Create(file, name, docType, s1).error.Http?
    ensures Create(file, name, docType, s1).error.status == BAD_REQUEST
  {
  }

  /** A storage failure in the service reaches the client as the generic
      internal error, not as the exception put threw. */
  lemma StorageFailureIsInternal(file: Option<MultipartFile>, name: Option<string>, docType: Option<string>,
                                 service: (MultipartFile, string, string) -> Result<Document, Error>)
    requires !MissingFile(file) && !MissingText(name) && !MissingText(docType)
    requires service(file.value, name.value, docType.value) == Err(StorageFailure)
    ensures Create(file, name, docType, service) == Err(Internal)
  {
  }

  /** The whole upload for a signed-in user the repository knows: the answer
      is 201 with the location of the new id, and the bytes are stored. */
  lemma KnownUploaderIsCreated(users: map<string, User>, objects: map<string, seq<Byte>>,
                               file: MultipartFile, name: string, docType: string, username: string,
                               publicId: Uuid, createdAt: Instant, updatedAt: Instant)
    requires !file.IsEmpty() && !IsBlank(name) && !IsBlank(docType)
    requires username in users
    ensures var faults := DocumentServices.CreateFaults(false, false, false, false);
            var service := (f: MultipartFile, n: string, t: string) => DocumentServices.CreateSpec(users, objects, f, n, t, Some(username),
                                                                   publicId, createdAt, updatedAt, faults).result;
            var r := Create(Some(file), Some(name), Some(docType), service);
            var u := DocumentServices.CreateSpec(users, objects, file, name, docType, Some(username),
                                                 publicId, createdAt, updatedAt, faults);
            var key := DocumentServices.ObjectKey(publicId, docType);
            && r.Ok? && r.value.status == CREATED
            && r.value.location == Some(DocumentLocation(publicId))
            && r.value.body == Some(DocumentModel(publicId, name, docType, users[username].username, createdAt))
            && key in u.objects && u.objects[key] == file.content
  {
  }

  /** An upload with no signed-in user, or one the repository does not know,
      is stored and saved, yet answered with the generic internal error:
      toModel dereferences the missing uploader. */
  lemma AnonymousUploadIsStoredButFails(users: map<string, User>, objects: map<string, seq<Byte>>,
                                        file: MultipartFile, name: string, docType: string,
                                        principal: Option<string>,
                                        publicId: Uuid, createdAt: Instant, updatedAt: Instant)
    requires !file.IsEmpty() && !IsBlank(name) && !IsBlank(docType)
    requires principal.None? || principal.value !in users
    ensures var faults := DocumentServices.CreateFaults(false, false, false, false);
            var service := (f: MultipartFile, n: string, t: string) => DocumentServices.CreateSpec(users, objects, f, n, t, principal,
                                                                   publicId, createdAt, updatedAt, faults).result;
            var u := DocumentServices.CreateSpec(users, objects, file, name, docType, principal,
                                                 publicId, createdAt, updatedAt, faults);
            var key := DocumentServices.ObjectKey(publicId, docType);
            && Create(Some(file), Some(name), Some(docType), service) == Err(Internal)
            && u.result.Ok?
            && (exists i :: 0 <= i < |u.calls| && u.calls[i] == SaveDocument(u.result.value))
            && key in u.objects && u.objects[key] == file.content
  {
    var faults := DocumentServices.CreateFaults(false, false, false, false);
    DocumentServices.CreateSavesTwice(users, objects, file, name, docType, principal,
                                      publicId, createdAt, updatedAt, faults);
    var u := DocumentServices.CreateSpec(users, objects, file, name, docType, principal,
                                         publicId, createdAt, updatedAt, faults);
    var n := |ActingUser(users, principal).1|;
    assert u.calls[n + 1] == SaveDocument(u.result.value);
  }

  /** Through the app, a metadata update always names a field, so the service
      always saves and stamps the update time. */
  lemma AppMetadataUpdateAlwaysSaves(documents: map<Uuid, Document>, id: Uuid, req: MetadataRequest,
                                     now: Instant, saveFails: bool)
    requires id in documents
    requires UpdateMetadata(Some(id), Some(req), (i: Uuid, q: MetadataRequest) =>
               DocumentServices.UpdateMetadataSpec(documents, i, Some(q), now, saveFails).result).Ok?
    ensures var s := DocumentServices.UpdateMetadataSpec(documents, id, Some(req), now, saveFails);
            && s.calls == [FindDocument(id), SaveDocument(s.result.value)]
            && s.result.value.updatedAt == now
  {
  }
}
