/** DocumentMappers.toModel: entity to API model, field by field. */
module DocumentMappers {
  import opened Wrappers
  import opened Uuids
  import opened Model

  /** com.task.reifensbank.model.Document */
  datatype DocumentModel = DocumentModel(
    id: Uuid, name: string, docType: string, createdBy: string, createdAt: Instant)

  /** The model copies id, name, type and createdAt from the entity and takes
      createdBy from the uploader's username; an entity without uploader makes
      toModel throw NullPointerException. */
  function ToModel(e: Document): (r: Result<DocumentModel, Error>)
    ensures r.Err? <==> e.uploadedBy.None?
    ensures r.Err? ==> r.error == NullPointer
    ensures r.Ok? ==> r.value == DocumentModel(e.publicId, e.filename, e.contentType,
                                               e.uploadedBy.value.username, e.createdAt)
  {
    if e.uploadedBy.None? then Err(NullPointer)
    else Ok(DocumentModel(e.publicId, e.filename, e.contentType, e.uploadedBy.value.username, e.createdAt))
  }

  /** The model only projects: size, storage path, update time and the rest
      of the uploader do not reach it. */
  lemma ToModelIgnoresStorageFields(e: Document, sizeBytes: nat, storagePath: string,
                                    updatedAt: Instant, passwordHash: string)
    requires e.uploadedBy.Some?
    ensures var u := e.uploadedBy.value;
            ToModel(e.(sizeBytes := sizeBytes, storagePath := storagePath, updatedAt := updatedAt,
                       uploadedBy := Some(u.(passwordHash := passwordHash))))
            == ToModel(e)
  {
  }
}

/** ProtocolMappers.toModel and toStateModel. */
module ProtocolMappers {
  import opened Wrappers
  import opened Uuids
  import opened Model

  /** com.task.reifensbank.model.Protocol. The document ids are collected into
      a hash set, so the list handed out has no repeats and no defined order:
      it is modelled as a set. */
  datatype ProtocolModel = ProtocolModel(id: Uuid, state: Option<ProtocolState>, documentIds: set<Uuid>)

  /** toStateModel: null stays null; otherwise the API state of the same name,
      or NEW when the API enumeration has no constant of that name. */
  function ToStateModel(status: Option<ProtocolStatus>): (r: Option<ProtocolState>)
    ensures r.None? <==> status.None?
    ensures r.Some? ==> r.value.name in STATE_NAMES
    ensures r.Some? && status.value.name in STATE_NAMES ==> r.value.name == status.value.name
    ensures r.Some? && status.value.name !in STATE_NAMES ==> r.value == NEW_STATE
  {
    if status.None? then None
    else
      match StateValueOf(status.value.name)
      case Some(s) => Some(s)
      case None => Some(NEW_STATE)
  }

  /** Some document of docs has this public id. */
  predicate HasDocumentWithId(docs: seq<Document>, id: Uuid) {
    exists i :: 0 <= i < |docs| && docs[i].publicId == id
  }

  /** The public ids of the documents, repeats removed. */
  function DocumentIds(docs: seq<Document>): (ids: set<Uuid>)
    ensures forall id :: id in ids <==> HasDocumentWithId(docs, id)
    ensures |ids| <= |docs|
  {
    if docs == [] then {}
    else
      var rest := DocumentIds(docs[1..]);
      assert forall id :: HasDocumentWithId(docs, id)
                          <==> id == docs[0].publicId || HasDocumentWithId(docs[1..], id) by {
        forall id | HasDocumentWithId(docs, id)
          ensures id == docs[0].publicId || HasDocumentWithId(docs[1..], id)
        {
          var i :| 0 <= i < |docs| && docs[i].publicId == id;
          if i > 0 { assert docs[1..][i - 1].publicId == id; }
        }
        forall id | HasDocumentWithId(docs[1..], id) ensures HasDocumentWithId(docs, id) {
          var i :| 0 <= i < |docs[1..]| && docs[1..][i].publicId == id;
          assert docs[i + 1].publicId == id;
        }
      }
      {docs[0].publicId} + rest
  }

  /** toModel: null maps to null; otherwise id is the public id, the state is
      toStateModel of the status and the document ids are those of the
      attached documents (none when the collection is null). */
  function ToModel(entity: Option<Protocol>): (r: Option<ProtocolModel>)
    ensures r.None? <==> entity.None?
    ensures r.Some? ==> (r.value.id == entity.value.publicId
                         && r.value.state == ToStateModel(entity.value.status))
    ensures r.Some? && entity.value.documents.None? ==> r.value.documentIds == {}
    ensures r.Some? && entity.value.documents.Some? ==>
              var docs := entity.value.documents.value;
              && |r.value.documentIds| <= |docs|
              && forall id :: id in r.value.documentIds <==> HasDocumentWithId(docs, id)
  {
    if entity.None? then None
    else
      var p := entity.value;
      Some(ProtocolModel(p.publicId, ToStateModel(p.status),
                         if p.documents.Some? then DocumentIds(p.documents.value) else {}))
  }

  /** Every declared status reaches the API under its own name: with the two
      enumerations as declared, the fallback to NEW is never taken. */
  lemma DeclaredStatusesKeepTheirName(status: ProtocolStatus)
    requires status.name in STATUS_NAMES
    ensures ToStateModel(Some(status)) == Some(ProtocolState(status.name))
  {
  }

  /** A requested state stored as a status and read back is the state that was
      requested. */
  lemma StateRoundTrip(state: ProtocolState)
    requires state.name in STATE_NAMES
    ensures StatusValueOf(state.name).Some?
    ensures ToStateModel(StatusValueOf(state.name)) == Some(state)
  {
  }

  /** A status name the API enumeration lacks is reported as NEW. */
  lemma UnknownStatusFallsBackToNew(status: ProtocolStatus)
    requires status.name !in STATE_NAMES
    ensures ToStateModel(Some(status)) == Some(NEW_STATE)
  {
  }
}
