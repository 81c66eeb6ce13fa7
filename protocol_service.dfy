/**
 * ProtocolService: reading, creating, fully updating and state-updating a
 * protocol. The three repositories are maps held by the service object; every
 * call made on them is appended to `calls`. The random UUIDs, the clock
 * readings and whether the repository save throws are parameters.
 */
module ProtocolServices {
  import opened Wrappers
  import opened JavaText
  import opened Hex
  import opened Uuids
  import opened Model

  /* ---------- generateCode ---------- */

  /** "PR-" followed by the first eight characters of the dash-free string of a
      fresh random UUID, upper-cased. */
  function GenerateCode(source: Uuid): (code: string)
    ensures |code| == 11 && code[..3] == "PR-"
  {
    UuidDigits(source);
    "PR-" + ToUpper(RemoveDashes(UuidToString(source))[..8])
  }

  /** The code is eleven characters: "PR-" and the first four bytes of the UUID
      as eight upper-case hex digits. */
  lemma CodeShape(source: Uuid)
    ensures var code := GenerateCode(source);
            && |code| == 11
            && code[..3] == "PR-"
            && code[3..] == ToUpper(HexEncode(source[..4]))
            && forall k :: 3 <= k < 11 ==> IsUpperHexDigit(code[k])
  {
    UuidDigits(source);
    assert source == source[..4] + source[4..];
    HexEncodeConcat(source[..4], source[4..]);
    var digits := HexEncode(source[..4]);
    assert RemoveDashes(UuidToString(source))[..8] == digits;
    var code := GenerateCode(source);
    forall k | 3 <= k < 11 ensures IsUpperHexDigit(code[k]) {
      assert code[k] == UpperChar(digits[k - 3]);
      assert IsLowerHexDigit(digits[k - 3]);
    }
  }

  /** Two codes are equal only when the UUIDs they came from share their
      first four bytes. */
  lemma CodeDeterminesPrefix(a: Uuid, b: Uuid)
    requires GenerateCode(a) == GenerateCode(b)
    ensures a[..4] == b[..4]
  {
    CodeShape(a);
    CodeShape(b);
    var da, db := HexEncode(a[..4]), HexEncode(b[..4]);
    assert ToUpper(da) == ToUpper(db);
    forall k | 0 <= k < |da| ensures da[k] == db[k] {
      assert ToUpper(da)[k] == UpperChar(da[k]) && ToUpper(db)[k] == UpperChar(db[k]);
      assert IsLowerHexDigit(da[k]) && IsLowerHexDigit(db[k]);
    }
    assert da == db;
    HexEncodeInjective(a[..4], b[..4]);
  }

  /* ---------- resolving the requested document ids ---------- */

  /** LinkedHashSet.add: append unless already present. */
  function AddLinked<T(==)>(s: seq<T>, x: T): seq<T> {
    if x in s then s else s + [x]
  }

  predicate NoRepeats<T(==)>(s: seq<T>) {
    forall i, j :: 0 <= i < j < |s| ==> s[i] != s[j]
  }

  /** Position of the first occurrence of x in s. */
  function FirstIndex<T(==)>(s: seq<T>, x: T): (k: nat)
    requires x in s
    ensures k < |s| && s[k] == x && x !in s[..k]
  {
    if s[0] == x then 0 else 1 + FirstIndex(s[1..], x)
  }

  lemma FirstIndexUnique<T>(s: seq<T>, x: T, k: nat)
    requires k < |s| && s[k] == x && x !in s[..k]
    ensures FirstIndex(s, x) == k
  {
  }

  /** What the loop over the requested ids collects: the documents found
      (docs) and the ids not found (missing), both as LinkedHashSets. */
  datatype Resolution = Resolution(docs: seq<Document>, missing: seq<Uuid>)

  function Resolve(ids: seq<Uuid>, repo: map<Uuid, Document>): Resolution
    decreases |ids|
  {
    if ids == [] then Resolution([], [])
    else
      var prev := Resolve(ids[..|ids| - 1], repo);
      var id := ids[|ids| - 1];
      if id in repo then Resolution(AddLinked(prev.docs, repo[id]), prev.missing)
      else Resolution(prev.docs, AddLinked(prev.missing, id))
  }

  /** One findByPublicId call per requested id, in request order. */
  function Lookups(ids: seq<Uuid>): seq<Call> {
    seq(|ids|, i requires 0 <= i < |ids| => FindDocument(ids[i]))
  }

  /** LinkedHashSet.add keeps a set free of repeats. */
  lemma AddLinkedNoRepeats<T>(s: seq<T>, x: T)
    requires NoRepeats(s)
    ensures NoRepeats(AddLinked(s, x))
    ensures forall y :: y in AddLinked(s, x) <==> y in s || y == x
  {
  }

  /** An element of the prefix is first met at the same place in the whole. */
  lemma FirstIndexInPrefix<T>(s: seq<T>, n: nat, x: T)
    requires n <= |s| && x in s[..n]
    ensures FirstIndex(s, x) == FirstIndex(s[..n], x)
  {
    var k := FirstIndex(s[..n], x);
    assert s[..k] == s[..n][..k];
    FirstIndexUnique(s, x, k);
  }

  lemma {:induction false} MissingAreTheUnknownIds(ids: seq<Uuid>, repo: map<Uuid, Document>)
    ensures forall x :: x in Resolve(ids, repo).missing <==> x in ids && x !in repo
    decreases |ids|
  {
    if ids != [] {
      var pre := ids[..|ids| - 1];
      assert ids == pre + [ids[|ids| - 1]];
      MissingAreTheUnknownIds(pre, repo);
    }
  }

  lemma {:induction false} MissingHasNoRepeats(ids: seq<Uuid>, repo: map<Uuid, Document>)
    ensures NoRepeats(Resolve(ids, repo).missing)
    decreases |ids|
  {
    if ids != [] {
      var pre := ids[..|ids| - 1];
      MissingHasNoRepeats(pre, repo);
      AddLinkedNoRepeats(Resolve(pre, repo).missing, ids[|ids| - 1]);
    }
  }

  /** Every element of m is requested, and m lists them in the order of their
      first occurrence in ids. */
  ghost predicate InRequestOrder(ids: seq<Uuid>, m: seq<Uuid>) {
    && (forall i :: 0 <= i < |m| ==> m[i] in ids)
    && forall i, j :: 0 <= i < j < |m| ==> FirstIndex(ids, m[i]) < FirstIndex(ids, m[j])
  }

  /** An order by first occurrence in a prefix is the same order in the whole. */
  lemma PrefixKeepsOrder(ids: seq<Uuid>, n: nat, m: seq<Uuid>)
    requires n <= |ids| && InRequestOrder(ids[..n], m)
    ensures InRequestOrder(ids, m)
    ensures forall i :: 0 <= i < |m| ==> FirstIndex(ids, m[i]) < n
  {
    forall i | 0 <= i < |m| ensures m[i] in ids && FirstIndex(ids, m[i]) == FirstIndex(ids[..n], m[i]) {
      FirstIndexInPrefix(ids, n, m[i]);
    }
  }

  /** Appending the last requested id, first met there, keeps the order. */
  lemma AppendKeepsOrder(ids: seq<Uuid>, m: seq<Uuid>)
    requires |ids| > 0 && InRequestOrder(ids[..|ids| - 1], m)
    requires ids[|ids| - 1] !in ids[..|ids| - 1]
    ensures InRequestOrder(ids, m + [ids[|ids| - 1]])
  {
    var n := |ids|;
    PrefixKeepsOrder(ids, n - 1, m);
    FirstIndexUnique(ids, ids[n - 1], n - 1);
    var m' := m + [ids[n - 1]];
    forall i, j | 0 <= i < j < |m'| ensures FirstIndex(ids, m'[i]) < FirstIndex(ids, m'[j]) {
      assert m'[i] == m[i];
      if j < |m| {
        assert m'[j] == m[j];
      }
    }
  }

  lemma {:induction false} MissingInRequestOrder(ids: seq<Uuid>, repo: map<Uuid, Document>)
    ensures InRequestOrder(ids, Resolve(ids, repo).missing)
    decreases |ids|
  {
    if ids != [] {
      var n := |ids|;
      var pre, id := ids[..n - 1], ids[n - 1];
      MissingInRequestOrder(pre, repo);
      var prev := Resolve(pre, repo).missing;
      if id !in repo && id !in prev {
        MissingAreTheUnknownIds(pre, repo);
        AppendKeepsOrder(ids, prev);
      } else {
        PrefixKeepsOrder(ids, n - 1, prev);
      }
    }
  }

  /** The missing ids are exactly the requested ids the repository lacks,
      each once, in the order of their first occurrence in the request. */
  lemma MissingIsUnknownInRequestOrder(ids: seq<Uuid>, repo: map<Uuid, Document>)
    ensures var m := Resolve(ids, repo).missing;
            && (forall x :: x in m <==> x in ids && x !in repo)
            && NoRepeats(m)
            && InRequestOrder(ids, m)
  {
    MissingAreTheUnknownIds(ids, repo);
    MissingHasNoRepeats(ids, repo);
    MissingInRequestOrder(ids, repo);
  }

  /** The documents found are the repository's documents for the requested
      ids that it holds, each once. */
  lemma {:induction false} DocsAreTheKnownIds(ids: seq<Uuid>, repo: map<Uuid, Document>)
    requires KeyedDocuments(repo)
    ensures var d := Resolve(ids, repo).docs;
            && (forall k :: k in ids && k in repo ==> repo[k] in d)
            && (forall i :: 0 <= i < |d| ==>
                  d[i].publicId in ids && d[i].publicId in repo && repo[d[i].publicId] == d[i])
            && NoRepeats(d)
    decreases |ids|
  {
    if ids != [] {
      var n := |ids|;
      var pre, id := ids[..n - 1], ids[n - 1];
      assert ids == pre + [id];
      DocsAreTheKnownIds(pre, repo);
    }
  }

  /** Nothing is missing exactly when every requested id is known. */
  lemma NothingMissingIffAllKnown(ids: seq<Uuid>, repo: map<Uuid, Document>)
    ensures Resolve(ids, repo).missing == [] <==> forall k :: k in ids ==> k in repo
  {
    MissingIsUnknownInRequestOrder(ids, repo);
    var m := Resolve(ids, repo).missing;
    if m != [] {
      assert m[0] in m;
    }
  }

  /* ---------- the operations as functions of the repositories ---------- */

  function GetSpec(protocols: map<Uuid, Protocol>, id: Uuid): Step<Protocol> {
    Step(if id in protocols then Ok(protocols[id]) else Err(Http(NOT_FOUND, ProtocolNotFound)),
         [FindProtocol(id)])
  }

  /** The status a create request asks for: NEW when it names none; None
      where valueOf throws. */
  function RequestedStatus(state: Option<ProtocolState>): Option<ProtocolStatus> {
    if state.None? then Some(NEW_STATUS) else StatusValueOf(state.value.name)
  }

  function CreateSpec(documents: map<Uuid, Document>, users: map<string, User>,
                      req: ProtocolCreate, principal: Option<string>,
                      publicId: Uuid, codeSource: Uuid,
                      createdAt: Instant, updatedAt: Instant, saveFails: bool): Step<Protocol>
  {
    if req.documentIds.None? || req.documentIds.value == [] then
      Step(Err(Http(BAD_REQUEST, NoDocuments)), [])
    else
      var ids := req.documentIds.value;
      var res := Resolve(ids, documents);
      if res.missing != [] then
        Step(Err(Http(BAD_REQUEST, UnknownDocumentIds(res.missing))), Lookups(ids))
      else
        var (creator, userCalls) := ActingUser(users, principal);
        var status := RequestedStatus(req.state);
        if status.None? then
          Step(Err(Internal), Lookups(ids) + userCalls)
        else
          var p := Protocol(publicId, Some(GenerateCode(codeSource)), None, None, status,
                            creator, creator, Some(createdAt), Some(updatedAt), Some(res.docs));
          Step(if saveFails then Err(Internal) else Ok(p), Lookups(ids) + userCalls + [SaveProtocol(p)])
  }

  /** The status an update asks for; None where req.getState().name() throws
      (a null state) or valueOf throws (no such constant). */
  function UpdatedStatus(state: Option<ProtocolState>): Option<ProtocolStatus> {
    if state.None? then None else StatusValueOf(state.value.name)
  }

  function UpdateAllSpec(protocols: map<Uuid, Protocol>, documents: map<Uuid, Document>,
                         users: map<string, User>, id: Uuid, req: ProtocolUpdate,
                         principal: Option<string>, updatedAt: Instant, saveFails: bool): Step<Protocol>
  {
    if id !in protocols then Step(Err(Http(NOT_FOUND, ProtocolNotFound)), [FindProtocol(id)])
    else if req.documentIds.None? || req.documentIds.value == [] then
      Step(Err(Http(BAD_REQUEST, NoDocuments)), [FindProtocol(id)])
    else
      var p := protocols[id];
      var ids := req.documentIds.value;
      var res := Resolve(ids, documents);
      if res.missing != [] then
        Step(Err(Http(BAD_REQUEST, UnknownDocumentIds(res.missing))), [FindProtocol(id)] + Lookups(ids))
      else
        var (updater, userCalls) := ActingUser(users, principal);
        var status := UpdatedStatus(req.state);
        if status.None? || p.documents.None? then
          Step(Err(Internal), [FindProtocol(id)] + Lookups(ids) + userCalls)
        else
          var q := p.(status := status, documents := Some(res.docs),
                      updatedBy := updater, updatedAt := Some(updatedAt));
          Step(if saveFails then Err(Internal) else Ok(q),
               [FindProtocol(id)] + Lookups(ids) + userCalls + [SaveProtocol(q)])
  }

  function UpdateStateSpec(protocols: map<Uuid, Protocol>, users: map<string, User>, id: Uuid,
                           req: ProtocolStateUpdate, principal: Option<string>,
                           updatedAt: Instant, saveFails: bool): Step<Protocol>
  {
    if id !in protocols then Step(Err(Http(NOT_FOUND, ProtocolNotFound)), [FindProtocol(id)])
    else
      var p := protocols[id];
      var (updater, userCalls) := ActingUser(users, principal);
      var status := UpdatedStatus(req.state);
      if status.None? then Step(Err(Internal), [FindProtocol(id)] + userCalls)
      else
        var q := p.(status := status, updatedBy := updater, updatedAt := Some(updatedAt));
        Step(if saveFails then Err(Internal) else Ok(q), [FindProtocol(id)] + userCalls + [SaveProtocol(q)])
  }

  /* ---------- the service ---------- */

  class ProtocolService {
    var protocols: map<Uuid, Protocol>   // ProtocolRepository, by public id
    var documents: map<Uuid, Document>   // DocumentRepository, by public id
    var users: map<string, User>         // UserRepository, by username
    var calls: seq<Call>                 // every repository call made, in order

    ghost predicate Valid()
      reads this
    {
      KeyedProtocols(protocols) && KeyedDocuments(documents)
    }

    constructor (protocols: map<Uuid, Protocol>, documents: map<Uuid, Document>, users: map<string, User>)
      requires KeyedProtocols(protocols) && KeyedDocuments(documents)
      ensures Valid()
      ensures this.protocols == protocols && this.documents == documents && this.users == users
      ensures calls == []
    {
      this.protocols := protocols;
      this.documents := documents;
      this.users := users;
      calls := [];
    }

    method GetByPublicId(id: Uuid) returns (r: Result<Protocol, Error>)
      modifies this`calls
      ensures var s := GetSpec(protocols, id); r == s.result && calls == old(calls) + s.calls
    {
      calls := calls + [FindProtocol(id)];
      if id in protocols {
        r := Ok(protocols[id]);
      } else {
        r := Err(Http(NOT_FOUND, ProtocolNotFound));
      }
    }

    /** The for-loop over the requested ids, filling docs and missing. */
    method LookUpDocuments(ids: seq<Uuid>) returns (res: Resolution)
      modifies this`calls
      ensures res == Resolve(ids, documents)
      ensures calls == old(calls) + Lookups(ids)
    {
      var docs: seq<Document> := [];
      var missing: seq<Uuid> := [];
      var i := 0;
      while i < |ids|
        invariant 0 <= i <= |ids|
        invariant Resolution(docs, missing) == Resolve(ids[..i], documents)
        invariant calls == old(calls) + Lookups(ids[..i])
      {
        assert ids[..i + 1][..i] == ids[..i];
        assert Lookups(ids[..i + 1]) == Lookups(ids[..i]) + [FindDocument(ids[i])];
        calls := calls + [FindDocument(ids[i])];
        if ids[i] in documents {
          docs := AddLinked(docs, documents[ids[i]]);
        } else {
          missing := AddLinked(missing, ids[i]);
        }
        i := i + 1;
      }
      assert ids[..i] == ids;
      res := Resolution(docs, missing);
    }

    /** The authenticated user, when there is one and the repository knows it. */
    method LookUpUser(principal: Option<string>) returns (user: Option<User>)
      modifies this`calls
      ensures user == ActingUser(users, principal).0
      ensures calls == old(calls) + ActingUser(users, principal).1
    {
      user := None;
      if principal.Some? {
        calls := calls + [FindUser(principal.value)];
        if principal.value in users {
          user := Some(users[principal.value]);
        }
      }
    }

    /** protocolRepository.save: stores p under its public id, or throws. */
    method Save(p: Protocol, fails: bool) returns (saved: bool)
      requires Valid()
      modifies this`protocols, this`calls
      ensures Valid()
      ensures saved == !fails
      ensures calls == old(calls) + [SaveProtocol(p)]
      ensures protocols == if saved then old(protocols)[p.publicId := p] else old(protocols)
    {
      calls := calls + [SaveProtocol(p)];
      saved := !fails;
      if saved {
        protocols := protocols[p.publicId := p];
      }
    }

    method Create(req: ProtocolCreate, principal: Option<string>, publicId: Uuid, codeSource: Uuid,
                  createdAt: Instant, updatedAt: Instant, saveFails: bool)
      returns (r: Result<Protocol, Error>)
      requires Valid()
      modifies this
      ensures Valid()
      ensures var s := CreateSpec(old(documents), old(users), req, principal, publicId, codeSource,
                                  createdAt, updatedAt, saveFails);
              r == s.result && calls == old(calls) + s.calls
      ensures protocols == if r.Ok? then old(protocols)[publicId := r.value] else old(protocols)
      ensures documents == old(documents) && users == old(users)
    {
      if req.documentIds.None? || |req.documentIds.value| == 0 {
        return Err(Http(BAD_REQUEST, NoDocuments));
      }
      var res := LookUpDocuments(req.documentIds.value);
      if res.missing != [] {
        return Err(Http(BAD_REQUEST, UnknownDocumentIds(res.missing)));
      }
      var creator := LookUpUser(principal);
      ghost var looked := Lookups(req.documentIds.value) + ActingUser(users, principal).1;
      assert calls == old(calls) + looked;
      // try block: any RuntimeException becomes ReifensbankRuntimeException
      var status := NEW_STATUS;
      if req.state.Some? {
        var s := StatusValueOf(req.state.value.name);
        if s.None? {
          return Err(Internal);
        }
        status := s.value;
      }
      var p := Protocol(publicId, Some(GenerateCode(codeSource)), None, None, Some(status),
                        creator, creator, Some(createdAt), Some(updatedAt), Some(res.docs));
      assert CreateSpec(old(documents), old(users), req, principal, publicId, codeSource,
                        createdAt, updatedAt, saveFails).calls == looked + [SaveProtocol(p)];
      var saved := Save(p, saveFails);
      if !saved {
        return Err(Internal);
      }
      return Ok(p);
    }

    method UpdateAll(id: Uuid, req: ProtocolUpdate, principal: Option<string>,
                     updatedAt: Instant, saveFails: bool)
      returns (r: Result<Protocol, Error>)
      requires Valid()
      modifies this
      ensures Valid()
      ensures var s := UpdateAllSpec(old(protocols), old(documents), old(users), id, req, principal,
                                     updatedAt, saveFails);
              r == s.result && calls == old(calls) + s.calls
      ensures protocols == if r.Ok? then old(protocols)[id := r.value] else old(protocols)
      ensures documents == old(documents) && users == old(users)
    {
      var found := GetByPublicId(id);
      if found.Err? {
        return found;
      }
      var p := found.value;
      if req.documentIds.None? || |req.documentIds.value| == 0 {
        return Err(Http(BAD_REQUEST, NoDocuments));
      }
      var res := LookUpDocuments(req.documentIds.value);
      ghost var lookedUp := [FindProtocol(id)] + Lookups(req.documentIds.value);
      assert calls == old(calls) + lookedUp;
      if res.missing != [] {
        return Err(Http(BAD_REQUEST, UnknownDocumentIds(res.missing)));
      }
      var updater := LookUpUser(principal);
      ghost var looked := lookedUp + ActingUser(users, principal).1;
      assert calls == old(calls) + looked;
      // try block
      if req.state.None? {
        return Err(Internal);  // req.getState().name(): NullPointerException
      }
      var s := StatusValueOf(req.state.value.name);
      if s.None? {
        return Err(Internal);  // valueOf: IllegalArgumentException
      }
      if p.documents.None? {
        return Err(Internal);  // getDocuments().clear(): NullPointerException
      }
      p := p.(status := s, documents := Some([]));
      assert p.documents.value + res.docs == res.docs;
      p := p.(documents := Some(p.documents.value + res.docs));
      p := p.(updatedBy := updater, updatedAt := Some(updatedAt));
      assert UpdateAllSpec(old(protocols), old(documents), old(users), id, req, principal,
                           updatedAt, saveFails).calls == looked + [SaveProtocol(p)];
      var saved := Save(p, saveFails);
      if !saved {
        return Err(Internal);
      }
      return Ok(p);
    }

    method UpdateState(id: Uuid, req: ProtocolStateUpdate, principal: Option<string>,
                       updatedAt: Instant, saveFails: bool)
      returns (r: Result<Protocol, Error>)
      requires Valid()
      modifies this
      ensures Valid()
      ensures var s := UpdateStateSpec(old(protocols), old(users), id, req, principal, updatedAt, saveFails);
              r == s.result && calls == old(calls) + s.calls
      ensures protocols == if r.Ok? then old(protocols)[id := r.value] else old(protocols)
      ensures documents == old(documents) && users == old(users)
    {
      var found := GetByPublicId(id);
      if found.Err? {
        return found;
      }
      var p := found.value;
      var updater := LookUpUser(principal);
      // try block
      if req.state.None? {
        return Err(Internal);
      }
      var s := StatusValueOf(req.state.value.name);
      if s.None? {
        return Err(Internal);
      }
      p := p.(status := s, updatedBy := updater, updatedAt := Some(updatedAt));
      var saved := Save(p, saveFails);
      if !saved {
        return Err(Internal);
      }
      return Ok(p);
    }
  }

  /* ---------- what the operations promise ---------- */

  /** A missing or empty id list is a 400 before any repository is touched. */
  lemma CreateRejectsNoDocuments(documents: map<Uuid, Document>, users: map<string, User>,
                                 req: ProtocolCreate, principal: Option<string>,
                                 publicId: Uuid, codeSource: Uuid,
                                 createdAt: Instant, updatedAt: Instant, saveFails: bool)
    requires req.documentIds.None? || req.documentIds.value == []
    ensures var s := CreateSpec(documents, users, req, principal, publicId, codeSource,
                                createdAt, updatedAt, saveFails);
            s.result == Err(Http(BAD_REQUEST, NoDocuments)) && s.calls == []
  {
  }

  /** Unknown ids are a 400 naming every unknown id once, in request order,
      after every id was looked up and with nothing saved. */
  lemma CreateReportsEveryUnknownId(documents: map<Uuid, Document>, users: map<string, User>,
                                    req: ProtocolCreate, principal: Option<string>,
                                    publicId: Uuid, codeSource: Uuid,
                                    createdAt: Instant, updatedAt: Instant, saveFails: bool)
    requires req.documentIds.Some?
    requires exists k :: k in req.documentIds.value && k !in documents
    ensures var s := CreateSpec(documents, users, req, principal, publicId, codeSource,
                                createdAt, updatedAt, saveFails);
            var ids := req.documentIds.value;
            && s.result.Err? && s.result.error.Http? && s.result.error.status == BAD_REQUEST
            && s.result.error.reason.UnknownDocumentIds?
            && s.calls == Lookups(ids)
            && var m := s.result.error.reason.ids;
               && (forall x :: x in m <==> x in ids && x !in documents)
               && NoRepeats(m)
               && InRequestOrder(ids, m)
  {
    var ids := req.documentIds.value;
    NothingMissingIffAllKnown(ids, documents);
    MissingIsUnknownInRequestOrder(ids, documents);
  }

  /** A created protocol is what was saved: a fresh id, a generated code,
      status NEW unless the request names one, the acting user as creator and
      updater, and exactly the requested documents. */
  lemma CreatedProtocol(documents: map<Uuid, Document>, users: map<string, User>,
                        req: ProtocolCreate, principal: Option<string>,
                        publicId: Uuid, codeSource: Uuid,
                        createdAt: Instant, updatedAt: Instant, saveFails: bool)
    requires KeyedDocuments(documents)
    requires CreateSpec(documents, users, req, principal, publicId, codeSource,
                        createdAt, updatedAt, saveFails).result.Ok?
    ensures var s := CreateSpec(documents, users, req, principal, publicId, codeSource,
                                createdAt, updatedAt, saveFails);
            var p := s.result.value;
            var ids := req.documentIds.value;
            && !saveFails
            && s.calls[|s.calls| - 1] == SaveProtocol(p)
            && p.publicId == publicId
            && p.code == Some(GenerateCode(codeSource))
            && p.status == Some(if req.state.None? then NEW_STATUS else ProtocolStatus(req.state.value.name))
            && p.status.value.name in STATUS_NAMES
            && p.createdBy == p.updatedBy == ActingUser(users, principal).0
            && p.createdAt == Some(createdAt) && p.updatedAt == Some(updatedAt)
            && p.documents.Some?
            && (forall k :: k in ids ==> k in documents && documents[k] in p.documents.value)
            && (forall d :: d in p.documents.value ==>
                  d.publicId in ids && d.publicId in documents && d == documents[d.publicId])
            && NoRepeats(p.documents.value)
  {
    var ids := req.documentIds.value;
    NothingMissingIffAllKnown(ids, documents);
    DocsAreTheKnownIds(ids, documents);
  }

  /** Once validation passes, an unknown state name or a failing save is the
      generic internal error. */
  lemma CreatePersistFailureIsInternal(documents: map<Uuid, Document>, users: map<string, User>,
                                       req: ProtocolCreate, principal: Option<string>,
                                       publicId: Uuid, codeSource: Uuid,
                                       createdAt: Instant, updatedAt: Instant, saveFails: bool)
    requires req.documentIds.Some? && req.documentIds.value != []
    requires forall k :: k in req.documentIds.value ==> k in documents
    requires saveFails || (req.state.Some? && req.state.value.name !in STATUS_NAMES)
    ensures CreateSpec(documents, users, req, principal, publicId, codeSource,
                       createdAt, updatedAt, saveFails).result == Err(Internal)
  {
    NothingMissingIffAllKnown(req.documentIds.value, documents);
  }

  /** updateAll and updateState look the protocol up first: an unknown id is
      a 404 after that single lookup, whatever the request holds. */
  lemma UnknownProtocolIsNotFound(protocols: map<Uuid, Protocol>, documents: map<Uuid, Document>,
                                  users: map<string, User>, id: Uuid,
                                  all: ProtocolUpdate, state: ProtocolStateUpdate,
                                  principal: Option<string>, updatedAt: Instant, saveFails: bool)
    requires id !in protocols
    ensures var a := UpdateAllSpec(protocols, documents, users, id, all, principal, updatedAt, saveFails);
            a.result == Err(Http(NOT_FOUND, ProtocolNotFound)) && a.calls == [FindProtocol(id)]
    ensures var b := UpdateStateSpec(protocols, users, id, state, principal, updatedAt, saveFails);
            b.result == Err(Http(NOT_FOUND, ProtocolNotFound)) && b.calls == [FindProtocol(id)]
    ensures GetSpec(protocols, id).result == Err(Http(NOT_FOUND, ProtocolNotFound))
  {
  }

  /** updateAll rejects a null or empty id list with the same 400 as create,
      but only after the protocol was found. */
  lemma UpdateAllRejectsNoDocuments(protocols: map<Uuid, Protocol>, documents: map<Uuid, Document>,
                                    users: map<string, User>, id: Uuid, req: ProtocolUpdate,
                                    principal: Option<string>, updatedAt: Instant, saveFails: bool)
    requires id in protocols
    requires req.documentIds.None? || req.documentIds.value == []
    ensures var s := UpdateAllSpec(protocols, documents, users, id, req, principal, updatedAt, saveFails);
            s.result == Err(Http(BAD_REQUEST, NoDocuments)) && s.calls == [FindProtocol(id)]
  {
  }

  /** updateAll validates the document ids as create does, after the lookup. */
  lemma UpdateAllValidatesDocuments(protocols: map<Uuid, Protocol>, documents: map<Uuid, Document>,
                                    users: map<string, User>, id: Uuid, req: ProtocolUpdate,
                                    principal: Option<string>, updatedAt: Instant, saveFails: bool)
    requires id in protocols
    requires req.documentIds.None? || exists k :: k in req.documentIds.value && k !in documents
    ensures var s := UpdateAllSpec(protocols, documents, users, id, req, principal, updatedAt, saveFails);
            && s.result.Err? && s.result.error.Http? && s.result.error.status == BAD_REQUEST
            && forall c :: c in s.calls ==> c.FindProtocol? || c.FindDocument?
    ensures req.documentIds.Some? ==>
            var s := UpdateAllSpec(protocols, documents, users, id, req, principal, updatedAt, saveFails);
            var ids, m := req.documentIds.value, s.result.error.reason.ids;
            && s.result.error.reason.UnknownDocumentIds?
            && s.calls == [FindProtocol(id)] + Lookups(ids)
            && (forall x :: x in m <==> x in ids && x !in documents)
            && NoRepeats(m)
            && InRequestOrder(ids, m)
  {
    if req.documentIds.Some? {
      NothingMissingIffAllKnown(req.documentIds.value, documents);
      MissingIsUnknownInRequestOrder(req.documentIds.value, documents);
    }
  }

  /** Once validation passes, a null or undeclared state, a null document
      collection or a failing save is the generic internal error, with the
      stored protocol left as it was. */
  lemma UpdateAllPersistFailureIsInternal(protocols: map<Uuid, Protocol>, documents: map<Uuid, Document>,
                                          users: map<string, User>, id: Uuid, req: ProtocolUpdate,
                                          principal: Option<string>, updatedAt: Instant, saveFails: bool)
    requires id in protocols
    requires req.documentIds.Some? && req.documentIds.value != []
    requires forall k :: k in req.documentIds.value ==> k in documents
    requires saveFails || req.state.None? || req.state.value.name !in STATUS_NAMES
             || protocols[id].documents.None?
    ensures UpdateAllSpec(protocols, documents, users, id, req, principal, updatedAt, saveFails).result
            == Err(Internal)
  {
    NothingMissingIffAllKnown(req.documentIds.value, documents);
  }

  /** A full update replaces the documents (it does not merge them), sets the
      status, the updater and the update time, and keeps the identity, the
      code, the texts and the creation audit. */
  lemma UpdateAllReplacesDocuments(protocols: map<Uuid, Protocol>, documents: map<Uuid, Document>,
                                   users: map<string, User>, id: Uuid, req: ProtocolUpdate,
                                   principal: Option<string>, updatedAt: Instant, saveFails: bool)
    requires KeyedDocuments(documents)
    requires UpdateAllSpec(protocols, documents, users, id, req, principal, updatedAt, saveFails).result.Ok?
    ensures var s := UpdateAllSpec(protocols, documents, users, id, req, principal, updatedAt, saveFails);
            var p, q := protocols[id], s.result.value;
            var ids := req.documentIds.value;
            && id in protocols && !saveFails
            && s.calls[|s.calls| - 1] == SaveProtocol(q)
            && q.publicId == p.publicId && q.code == p.code
            && q.title == p.title && q.description == p.description
            && q.createdBy == p.createdBy && q.createdAt == p.createdAt
            && q.status == Some(ProtocolStatus(req.state.value.name))
            && q.updatedBy == ActingUser(users, principal).0 && q.updatedAt == Some(updatedAt)
            && q.documents.Some?
            && (forall k :: k in ids ==> k in documents && documents[k] in q.documents.value)
            && (forall d :: d in q.documents.value ==>
                  d.publicId in ids && d.publicId in documents && d == documents[d.publicId])
  {
    var ids := req.documentIds.value;
    NothingMissingIffAllKnown(ids, documents);
    DocsAreTheKnownIds(ids, documents);
  }

  /** A state update changes only the status, the updater and the update
      time, and never looks at a document. */
  lemma UpdateStateTouchesOnlyStatus(protocols: map<Uuid, Protocol>, users: map<string, User>, id: Uuid,
                                     req: ProtocolStateUpdate, principal: Option<string>,
                                     updatedAt: Instant, saveFails: bool)
    requires id in protocols
    ensures var s := UpdateStateSpec(protocols, users, id, req, principal, updatedAt, saveFails);
            && (forall c :: c in s.calls ==> !c.FindDocument?)
            && (s.result.Ok? <==> !saveFails && req.state.Some? && req.state.value.name in STATUS_NAMES)
            && (s.result.Err? ==> s.result == Err(Internal))
            && (s.result.Ok? ==>
                  s.result.value == protocols[id].(status := Some(ProtocolStatus(req.state.value.name)),
                                                   updatedBy := ActingUser(users, principal).0,
                                                   updatedAt := Some(updatedAt)))
  {
  }
}
