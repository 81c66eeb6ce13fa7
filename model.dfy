/**
 * The data the core works on: the persisted entities (Document, Protocol,
 * User and the roles reached from it), the request objects, the exceptions
 * the services raise, and the calls made on repositories and storage.
 */
module Model {
  import opened Wrappers
  import opened Hex
  import opened Uuids

  /** A reading of OffsetDateTime.now(), supplied by the caller. */
  type Instant = int

  /* ---------- the two status enumerations ---------- */

  /** A constant of the persisted enumeration ProtocolStatusEnum. */
  datatype ProtocolStatus = ProtocolStatus(name: string)

  /** A constant of the API enumeration ProtocolState. */
  datatype ProtocolState = ProtocolState(name: string)

  /** The constants both enumerations declare, by name. */
  const STATUS_NAMES: seq<string> := ["NEW", "PREPARE_FOR_SHIPMENT", "CANCELED"]
  const STATE_NAMES: seq<string> := ["NEW", "PREPARE_FOR_SHIPMENT", "CANCELED"]

  const NEW_STATUS := ProtocolStatus("NEW")
  const NEW_STATE := ProtocolState("NEW")

  /** ProtocolStatusEnum.valueOf: None where Java throws IllegalArgumentException. */
  function StatusValueOf(name: string): Option<ProtocolStatus> {
    if name in STATUS_NAMES then Some(ProtocolStatus(name)) else None
  }

  /** ProtocolState.valueOf: None where Java throws IllegalArgumentException. */
  function StateValueOf(name: string): Option<ProtocolState> {
    if name in STATE_NAMES then Some(ProtocolState(name)) else None
  }

  /* ---------- values seen through reflection ---------- */

  /** What a getter returns: null, a String, a Boolean, or any other object
      (represented by its toString()). */
  datatype Value = Null | Str(s: string) | Bool(b: bool) | Other(text: string)

  /** Invoking a public no-argument method: it returns, or it throws. */
  datatype Invocation = Returned(v: Value) | Threw

  /** An object as reflection sees it: its public getters by name. A name that
      is not a key has no such method. */
  type Obj = map<string, Invocation>

  /* ---------- entities ---------- */

  /** A role: its own getters and its authority collection (possibly null). */
  datatype Role = Role(getters: Obj, authorities: Option<seq<Obj>>)

  datatype User = User(username: string, passwordHash: string, roles: Option<seq<Role>>)

  datatype Document = Document(
    publicId: Uuid,
    filename: string,
    contentType: string,
    sizeBytes: nat,
    storagePath: string,
    uploadedBy: Option<User>,
    createdAt: Instant,
    updatedAt: Instant)

  /** documents is the protocol's LinkedHashSet: insertion order, no repeats. */
  datatype Protocol = Protocol(
    publicId: Uuid,
    code: Option<string>,
    title: Option<string>,
    description: Option<string>,
    status: Option<ProtocolStatus>,
    createdBy: Option<User>,
    updatedBy: Option<User>,
    createdAt: Option<Instant>,
    updatedAt: Option<Instant>,
    documents: Option<seq<Document>>)

  /* ---------- requests ---------- */

  /** An uploaded multipart file; isEmpty() means it has no content. */
  datatype MultipartFile = MultipartFile(content: seq<Byte>) {
    predicate IsEmpty() { |content| == 0 }
    function Size(): nat { |content| }
  }

  datatype ProtocolCreate = ProtocolCreate(documentIds: Option<seq<Uuid>>, state: Option<ProtocolState>)
  datatype ProtocolUpdate = ProtocolUpdate(documentIds: Option<seq<Uuid>>, state: Option<ProtocolState>)
  datatype ProtocolStateUpdate = ProtocolStateUpdate(state: Option<ProtocolState>)

  /** DocumentsUpdateMetadataRequest: new name and new type, each optional. */
  datatype MetadataRequest = MetadataRequest(name: Option<string>, docType: Option<string>)

  /* ---------- exceptions ---------- */

  const BAD_REQUEST: int := 400
  const NOT_FOUND: int := 404
  const INTERNAL_SERVER_ERROR: int := 500

  /** The message of a ReifensbankHttpException, as a value. */
  datatype Reason =
    | NoDocuments                       // "At least one document must be provided"
    | UnknownDocumentIds(ids: seq<Uuid>) // "Unknown document IDs: " + the ids
    | ProtocolNotFound                  // "Protocol not found"
    | FileRequired                      // "File must be provided and non-empty"
    | NameRequired                      // "Name must be provided"
    | TypeRequired                      // "Type must be provided"
    | IdRequired                        // "Document id must be provided"
    | NoFieldsToUpdate                  // "No fields to update"

  /** What a call can throw. */
  datatype Error =
    | Http(status: int, reason: Reason) // ReifensbankHttpException
    | Internal                          // ReifensbankRuntimeException: 500, generic message
    | StorageFailure                    // whatever StorageService.put threw, passed on as is
    | NullPointer                       // NullPointerException

  /* ---------- calls on the collaborators ---------- */

  /** One call on a repository or on the object store, as it was made. */
  datatype Call =
    | FindProtocol(id: Uuid)
    | FindDocument(id: Uuid)
    | FindUser(username: string)
    | SaveProtocol(protocol: Protocol)
    | SaveDocument(document: Document)
    | PutObject(key: string, content: seq<Byte>)
    | DeleteObject(key: string)

  /** A result together with the calls made to produce it. */
  datatype Step<T> = Step(result: Result<T, Error>, calls: seq<Call>)

  /** The acting user: the authentication's name, when there is one, looked up
      by username; an absent name or an unknown username gives null. */
  function ActingUser(users: map<string, User>, principal: Option<string>): (r: (Option<User>, seq<Call>))
    ensures r.0.Some? <==> principal.Some? && principal.value in users
    ensures r.0.Some? ==> r.0.value == users[principal.value]
    ensures r.1 == if principal.Some? then [FindUser(principal.value)] else []
  {
    if principal.None? then (None, [])
    else (if principal.value in users then Some(users[principal.value]) else None,
          [FindUser(principal.value)])
  }

  /** A repository keyed by public id holds each entity under its own id. */
  ghost predicate KeyedDocuments(m: map<Uuid, Document>) {
    forall k :: k in m ==> m[k].publicId == k
  }

  ghost predicate KeyedProtocols(m: map<Uuid, Protocol>) {
    forall k :: k in m ==> m[k].publicId == k
  }

  /** An HTTP answer: status, Location header and body. */
  datatype Response<T> = Response(status: int, location: Option<string>, body: Option<T>)

  const OK: int := 200
  const CREATED: int := 201
  const NO_CONTENT: int := 204
}
