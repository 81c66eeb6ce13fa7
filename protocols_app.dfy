/**
 * ProtocolsAppService: calls the protocol service, maps the saved entity to
 * the API model, and turns every exception (the service's 400 and 404
 * included) into the generic internal error. The service is a parameter.
 */
module ProtocolsApp {
  import opened Wrappers
  import opened Uuids
  import opened Model
  import opened ProtocolMappers
  import ProtocolServices

  function ProtocolLocation(id: Uuid): string {
    "/protocols/" + UuidToString(id)
  }

  /** The answer for a protocol the service returned, or the generic
      internal error for anything it threw. */
  function Answer(status: int, withLocation: bool, outcome: Result<Protocol, Error>)
    : (r: Result<Response<ProtocolModel>, Error>)
    ensures r.Ok? <==> outcome.Ok?
    ensures r.Err? ==> r.error == Internal
    ensures r.Ok? ==> && r.value.status == status
                      && r.value.body == ToModel(Some(outcome.value))
                      && r.value.location == (if withLocation then Some(ProtocolLocation(outcome.value.publicId)) else None)
  {
    if outcome.Err? then Err(Internal)
    else
      var location := if withLocation then Some(ProtocolLocation(outcome.value.publicId)) else None;
      Ok(Response(status, location, ToModel(Some(outcome.value))))
  }

  /** A null request throws in the log line before the service is called. */
  function Create(req: Option<ProtocolCreate>, service: ProtocolCreate -> Result<Protocol, Error>)
    : (r: Result<Response<ProtocolModel>, Error>)
    ensures r.Ok? <==> req.Some? && service(req.value).Ok?
    ensures r.Err? ==> r.error == Internal
    ensures r.Ok? ==> && r.value.status == CREATED
                      && r.value.location == Some(ProtocolLocation(service(req.value).value.publicId))
                      && r.value.body == ToModel(Some(service(req.value).value))
  {
    if req.None? then Err(Internal)
    else Answer(CREATED, true, service(req.value))
  }

  function GetById(id: Uuid, service: Uuid -> Result<Protocol, Error>): (r: Result<Response<ProtocolModel>, Error>)
    ensures r.Ok? <==> service(id).Ok?
    ensures r.Err? ==> r.error == Internal
    ensures r.Ok? ==> && r.value.status == OK && r.value.location.None?
                      && r.value.body == ToModel(Some(service(id).value))
  {
    Answer(OK, false, service(id))
  }

  /** A null request throws in the log line (req.getState()). */
  function UpdateAll(id: Uuid, req: Option<ProtocolUpdate>, service: (Uuid, ProtocolUpdate) -> Result<Protocol, Error>)
    : (r: Result<Response<ProtocolModel>, Error>)
    ensures r.Ok? <==> req.Some? && service(id, req.value).Ok?
    ensures r.Err? ==> r.error == Internal
    ensures r.Ok? ==> && r.value.status == OK && r.value.location.None?
                      && r.value.body == ToModel(Some(service(id, req.value).value))
  {
    if req.None? then Err(Internal)
    else Answer(OK, false, service(id, req.value))
  }

  function UpdateState(id: Uuid, req: Option<ProtocolStateUpdate>,
                       service: (Uuid, ProtocolStateUpdate) -> Result<Protocol, Error>)
    : (r: Result<Response<ProtocolModel>, Error>)
    ensures r.Ok? <==> req.Some? && service(id, req.value).Ok?
    ensures r.Err? ==> r.error == Internal
    ensures r.Ok? ==> && r.value.status == OK && r.value.location.None?
                      && r.value.body == ToModel(Some(service(id, req.value).value))
  {
    if req.None? then Err(Internal)
    else Answer(OK, false, service(id, req.value))
  }

  /* ---------- composed with the service ---------- */

  /** The service's 404 for an unknown protocol reaches the client as 500,
      for reading, full update and state update alike. */
  lemma NotFoundBecomesInternal(protocols: map<Uuid, Protocol>, documents: map<Uuid, Document>,
                                users: map<string, User>, id: Uuid,
                                all: ProtocolUpdate, state: ProtocolStateUpdate,
                                principal: Option<string>, updatedAt: Instant, saveFails: bool)
    requires id !in protocols
    ensures ProtocolServices.GetSpec(protocols, id).result.error.status == NOT_FOUND
    ensures GetById(id, (i: Uuid) => ProtocolServices.GetSpec(protocols, i).result) == Err(Internal)
    ensures UpdateAll(id, Some(all), (i: Uuid, q: ProtocolUpdate) =>
              ProtocolServices.UpdateAllSpec(protocols, documents, users, i, q, principal, updatedAt, saveFails).result)
            == Err(Internal)
    ensures UpdateState(id, Some(state), (i: Uuid, q: ProtocolStateUpdate) =>
              ProtocolServices.UpdateStateSpec(protocols, users, i, q, principal, updatedAt, saveFails).result)
            == Err(Internal)
  {
    ProtocolServices.UnknownProtocolIsNotFound(protocols, documents, users, id, all, state,
                                               principal, updatedAt, saveFails);
  }

  /** A create request with no documents, which the service answers with
      400, reaches the client as 500. */
  lemma MissingDocumentsBecomeInternal(documents: map<Uuid, Document>, users: map<string, User>,
                                       req: ProtocolCreate, principal: Option<string>,
                                       publicId: Uuid, codeSource: Uuid,
                                       createdAt: Instant, updatedAt: Instant, saveFails: bool)
    requires req.documentIds.None? || req.documentIds.value == []
    ensures ProtocolServices.CreateSpec(documents, users, req, principal, publicId, codeSource,
                                        createdAt, updatedAt, saveFails).result.error.status == BAD_REQUEST
    ensures Create(Some(req), (q: ProtocolCreate) =>
              ProtocolServices.CreateSpec(documents, users, q, principal, publicId, codeSource,
                                          createdAt, updatedAt, saveFails).result) == Err(Internal)
  {
  }

  /** A successful create answers 201 at the new protocol's location, with
      the requested state (NEW when none was named) and exactly the requested
      document ids. */
  lemma CreatedBodyEchoesTheRequest(documents: map<Uuid, Document>, users: map<string, User>,
                                    req: ProtocolCreate, principal: Option<string>,
                                    publicId: Uuid, codeSource: Uuid,
                                    createdAt: Instant, updatedAt: Instant)
    requires KeyedDocuments(documents)
    requires req.documentIds.Some? && req.documentIds.value != []
    requires forall k :: k in req.documentIds.value ==> k in documents
    requires req.state.None? || req.state.value.name in STATE_NAMES
    ensures var r := Create(Some(req), (q: ProtocolCreate) =>
                       ProtocolServices.CreateSpec(documents, users, q, principal, publicId, codeSource,
                                                   createdAt, updatedAt, false).result);
            && r.Ok? && r.value.status == CREATED
            && r.value.location == Some(ProtocolLocation(publicId))
            && r.value.body.Some?
            && r.value.body.value.id == publicId
            && r.value.body.value.state == Some(if req.state.None? then NEW_STATE else req.state.value)
            && forall k :: k in r.value.body.value.documentIds <==> k in req.documentIds.value
  {
    var ids := req.documentIds.value;
    ProtocolServices.NothingMissingIffAllKnown(ids, documents);
    assert ProtocolServices.CreateSpec(documents, users, req, principal, publicId, codeSource,
                                       createdAt, updatedAt, false).result.Ok?;
    ProtocolServices.CreatedProtocol(documents, users, req, principal, publicId, codeSource,
                                     createdAt, updatedAt, false);
    var p := ProtocolServices.CreateSpec(documents, users, req, principal, publicId, codeSource,
                                         createdAt, updatedAt, false).result.value;
    if req.state.Some? {
      StateRoundTrip(req.state.value);
    }
    var docs := p.documents.value;
    forall k ensures HasDocumentWithId(docs, k) <==> k in ids {
      if k in ids {
        assert documents[k] in docs;
        var i :| 0 <= i < |docs| && docs[i] == documents[k];
      }
      if HasDocumentWithId(docs, k) {
        var i :| 0 <= i < |docs| && docs[i].publicId == k;
        assert docs[i] in docs;
      }
    }
  }
}
