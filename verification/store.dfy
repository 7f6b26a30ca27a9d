/** The hosted backend both slices talk to, reduced to what they use: two
    document collections (`articoli`, `contatti`) keyed by generated ids, a
    blob store keyed by path, and the requests issued to them. Each request
    is a function from the backend's state to its new state and the
    request's outcome; whether the network or the backend refuses a request
    for reasons outside the model is an input (`rejected`). */
module Store {
  import opened Wrappers

  datatype Coll = Articoli | Contatti {
    /** The collection's name, as passed to `firestore.collection(...)`. */
    function Name(): string
    {
      match this
      case Articoli => "articoli"
      case Contatti => "contatti"
    }
  }

  /** A stored document: field name to value. */
  type Doc = map<string, string>

  /** A selected file; only its name reaches the model. */
  datatype File = File(name: string)

  /** A request to the backend, as it is issued. */
  datatype Call =
    | Put(path: string, file: File)                  // imageRef.put(file)
    | GetUrl(path: string)                           // imageRef.getDownloadURL()
    | Add(coll: Coll, fields: Doc)                   // collection(coll).add(fields)
    | Update(coll: Coll, id: string, fields: Doc)    // collection(coll).doc(id).update(fields)
    | Delete(coll: Coll, id: string)                 // collection(coll).doc(id).delete()
  {
    predicate IsWrite()
    {
      Add? || Update?
    }
  }

  /** The backend: both collections, the blob store, the id generator's
      position and the log of requests issued so far. */
  datatype State = State(
    articoli: map<string, Doc>,
    contatti: map<string, Doc>,
    blobs: map<string, File>,
    nextId: nat,
    calls: seq<Call>)
  {
    function Docs(c: Coll): map<string, Doc>
    {
      match c
      case Articoli => articoli
      case Contatti => contatti
    }

    function WithDocs(c: Coll, docs: map<string, Doc>): State
    {
      match c
      case Articoli => this.(articoli := docs)
      case Contatti => this.(contatti := docs)
    }

    /** Every id already in use is shorter than the next one the generator
        hands out, so generated ids are fresh and non-empty. */
    ghost predicate Valid()
    {
      && nextId >= 1
      && (forall id :: id in articoli ==> |id| < nextId)
      && (forall id :: id in contatti ==> |id| < nextId)
    }
  }

  /** A backend with no documents, no blobs and no requests. */
  function Empty(): (s: State)
    ensures s.Valid() && s.calls == []
  {
    State(map[], map[], map[], 1, [])
  }

  /** The id the generator hands out at position n (its actual scheme is not
      modelled, only that the ids it hands out are fresh). */
  function GeneratedId(n: nat): (id: string)
    ensures |id| == n
  {
    seq(n, _ => 'x')
  }

  function Log(s: State, call: Call): State
  {
    s.(calls := s.calls + [call])
  }

  /** Storage `put`: stores the file at `path`, replacing any file already there. */
  function PutFile(s: State, path: string, file: File, rejected: bool): (r: (State, Result<()>))
  {
    var s' := Log(s, Put(path, file));
    if rejected then (s', Err(Rejected)) else (s'.(blobs := s.blobs[path := file]), Ok(()))
  }

  /** `put` is logged and resolves unless refused; it stores the file at its
      path, keeps every other stored object, and a refused upload stores
      nothing. No document changes. */
  lemma PutFileEffect(s: State, path: string, file: File, rejected: bool)
    ensures var (s', r) := PutFile(s, path, file, rejected);
            && s'.calls == s.calls + [Put(path, file)]
            && s'.articoli == s.articoli && s'.contatti == s.contatti && s'.nextId == s.nextId
            && (r.Ok? <==> !rejected)
            && (r.Err? ==> r.error == Rejected && s'.blobs == s.blobs)
            && (r.Ok? ==> s'.blobs.Keys == s.blobs.Keys + {path} && s'.blobs[path] == file)
            && (forall p :: p in s.blobs && p != path ==> p in s'.blobs && s'.blobs[p] == s.blobs[p])
  {
  }

  /** Storage `getDownloadURL`: the URL the storage service hands out for a
      stored object (`urlOf`); an absent object is an error. */
  function DownloadUrl(s: State, path: string, urlOf: string -> string, rejected: bool): (r: (State, Result<string>))
  {
    var s' := Log(s, GetUrl(path));
    if rejected then (s', Err(Rejected))
    else if path !in s.blobs then (s', Err(NotFound))
    else (s', Ok(urlOf(path)))
  }

  /** `getDownloadURL` is logged and changes nothing else; it yields the
      object's URL exactly when the object is stored and the request is not
      refused, and `NotFound` for an absent object. */
  lemma DownloadUrlEffect(s: State, path: string, urlOf: string -> string, rejected: bool)
    ensures var (s', r) := DownloadUrl(s, path, urlOf, rejected);
            && s' == s.(calls := s.calls + [GetUrl(path)])
            && (r.Ok? <==> !rejected && path in s.blobs)
            && (r.Ok? ==> r.value == urlOf(path))
            && (!rejected && path !in s.blobs ==> r == Err(NotFound))
  {
  }

  /** Firestore `add`: stores `fields` under a freshly generated id and
      resolves with that id. */
  function AddDoc(s: State, c: Coll, fields: Doc, rejected: bool): (r: (State, Result<string>))
    requires s.Valid()
    ensures r.0.Valid()
    ensures r.1.Ok? ==> r.1.value != "" && r.1.value !in s.Docs(c)
  {
    var s' := Log(s, Add(c, fields));
    if rejected then (s', Err(Rejected))
    else
      var id := GeneratedId(s.nextId);
      (s'.WithDocs(c, s.Docs(c)[id := fields]).(nextId := s.nextId + 1), Ok(id))
  }

  /** `add` is logged and resolves unless refused; it then stores exactly
      `fields` under the new id and keeps every other document, and a
      refused one stores nothing. The other collection and the blobs are
      untouched. */
  lemma AddDocEffect(s: State, c: Coll, fields: Doc, rejected: bool)
    requires s.Valid()
    ensures var (s', r) := AddDoc(s, c, fields, rejected);
            && s'.calls == s.calls + [Add(c, fields)] && s'.blobs == s.blobs
            && (c == Articoli ==> s'.contatti == s.contatti)
            && (c == Contatti ==> s'.articoli == s.articoli)
            && (r.Ok? <==> !rejected)
            && (r.Err? ==> s'.Docs(c) == s.Docs(c))
            && (r.Ok? ==> s'.Docs(c).Keys == s.Docs(c).Keys + {r.value} && s'.Docs(c)[r.value] == fields)
            && (forall k :: k in s.Docs(c) ==> k in s'.Docs(c) && s'.Docs(c)[k] == s.Docs(c)[k])
  {
  }

  /** Firestore `update`: merges `fields` into an existing document; the
      document's other fields are kept. A missing document is an error. */
  function UpdateDoc(s: State, c: Coll, id: string, fields: Doc, rejected: bool): (r: (State, Result<()>))
    requires s.Valid()
    ensures r.0.Valid()
  {
    var s' := Log(s, Update(c, id, fields));
    if rejected then (s', Err(Rejected))
    else if id !in s.Docs(c) then (s', Err(NotFound))
    else (s'.WithDocs(c, s.Docs(c)[id := s.Docs(c)[id] + fields]), Ok(()))
  }

  /** `update` is logged and resolves exactly when it is not refused and
      the document exists (`NotFound` otherwise); it then sets every field
      sent, keeps every field not sent and every other document, and adds
      no document. A failed one changes nothing. */
  lemma UpdateDocEffect(s: State, c: Coll, id: string, fields: Doc, rejected: bool)
    requires s.Valid()
    ensures var (s', r) := UpdateDoc(s, c, id, fields, rejected);
            && s'.calls == s.calls + [Update(c, id, fields)] && s'.blobs == s.blobs && s'.nextId == s.nextId
            && (c == Articoli ==> s'.contatti == s.contatti)
            && (c == Contatti ==> s'.articoli == s.articoli)
            && (r.Ok? <==> !rejected && id in s.Docs(c))
            && (!rejected && id !in s.Docs(c) ==> r == Err(NotFound))
            && (r.Err? ==> s'.Docs(c) == s.Docs(c))
            && (r.Ok? ==> s'.Docs(c).Keys == s.Docs(c).Keys && s'.Docs(c)[id].Keys == s.Docs(c)[id].Keys + fields.Keys)
            && (r.Ok? ==> forall k :: k in fields ==> s'.Docs(c)[id][k] == fields[k])
            && (r.Ok? ==> forall k :: k in s.Docs(c)[id] && k !in fields ==> s'.Docs(c)[id][k] == s.Docs(c)[id][k])
            && (forall k :: k in s.Docs(c) && k != id ==> s'.Docs(c)[k] == s.Docs(c)[k])
  {
  }

  /** Firestore `delete`: removes the document; deleting a missing one
      succeeds. */
  function DeleteDoc(s: State, c: Coll, id: string, rejected: bool): (r: (State, Result<()>))
    requires s.Valid()
    ensures r.0.Valid()
  {
    var s' := Log(s, Delete(c, id));
    if rejected then (s', Err(Rejected)) else (s'.WithDocs(c, s.Docs(c) - {id}), Ok(()))
  }

  /** `delete` is logged and resolves unless refused, a missing document
      included; it then leaves no document under the id and keeps every
      other one. A refused one changes nothing. */
  lemma DeleteDocEffect(s: State, c: Coll, id: string, rejected: bool)
    requires s.Valid()
    ensures var (s', r) := DeleteDoc(s, c, id, rejected);
            && s'.calls == s.calls + [Delete(c, id)] && s'.blobs == s.blobs && s'.nextId == s.nextId
            && (c == Articoli ==> s'.contatti == s.contatti)
            && (c == Contatti ==> s'.articoli == s.articoli)
            && (r.Ok? <==> !rejected)
            && (r.Err? ==> r.error == Rejected && s'.Docs(c) == s.Docs(c))
            && (r.Ok? ==> s'.Docs(c).Keys == s.Docs(c).Keys - {id})
            && (forall k :: k in s'.Docs(c) ==> k in s.Docs(c) && s'.Docs(c)[k] == s.Docs(c)[k])
  {
  }

  /** One document of a query snapshot: `doc.id` and `doc.data()`. */
  datatype Snapshot = Snapshot(id: string, data: Doc)

  function Ids(snaps: seq<Snapshot>): set<string>
  {
    set i | 0 <= i < |snaps| :: snaps[i].id
  }

  lemma IdsAppend(snaps: seq<Snapshot>, x: Snapshot)
    ensures Ids(snaps + [x]) == Ids(snaps) + {x.id}
  {
    var t := snaps + [x];
    forall y | y in Ids(t)
      ensures y in Ids(snaps) + {x.id}
    {
      var i :| 0 <= i < |t| && t[i].id == y;
      if i < |snaps| {
        assert snaps[i] == t[i];
      }
    }
    forall y | y in Ids(snaps)
      ensures y in Ids(t)
    {
      var i :| 0 <= i < |snaps| && snaps[i].id == y;
      assert t[i] == snaps[i];
    }
    assert t[|snaps|] == x;
  }

  /** `snaps` lists every document of `docs` exactly once, in some order. */
  ghost predicate IsListing(snaps: seq<Snapshot>, docs: map<string, Doc>)
  {
    && Ids(snaps) == docs.Keys
    && (forall i, j :: 0 <= i < j < |snaps| ==> snaps[i].id != snaps[j].id)
    && (forall i :: 0 <= i < |snaps| ==> snaps[i].id in docs && snaps[i].data == docs[snaps[i].id])
  }

  /** `collection(c).get()`: the documents in the order the backend returns
      them, which the model leaves open. */
  method List(docs: map<string, Doc>) returns (snaps: seq<Snapshot>)
    ensures IsListing(snaps, docs)
  {
    snaps := [];
    var rest := docs.Keys;
    while rest != {}
      invariant rest <= docs.Keys
      invariant Ids(snaps) == docs.Keys - rest
      invariant forall i, j :: 0 <= i < j < |snaps| ==> snaps[i].id != snaps[j].id
      invariant forall i :: 0 <= i < |snaps| ==> snaps[i].id in docs && snaps[i].data == docs[snaps[i].id]
      decreases rest
    {
      var id :| id in rest;
      IdsAppend(snaps, Snapshot(id, docs[id]));
      snaps := snaps + [Snapshot(id, docs[id])];
      rest := rest - {id};
    }
  }

  /** A loaded record: `{ id: doc.id, ...doc.data() }`; a stored field named
      "id" overrides the document id, as the spread does. */
  type Obj = map<string, string>

  function Spread(s: Snapshot): Obj
  {
    map["id" := s.id] + s.data
  }

  function Objects(snaps: seq<Snapshot>): (objs: seq<Obj>)
    ensures |objs| == |snaps|
    ensures forall i :: 0 <= i < |snaps| ==> objs[i] == Spread(snaps[i])
  {
    seq(|snaps|, i requires 0 <= i < |snaps| => Spread(snaps[i]))
  }

  /** `objs` is what mapping some listing of `docs` through the spread
      gives. */
  ghost predicate Loaded(objs: seq<Obj>, docs: map<string, Doc>)
  {
    exists snaps :: IsListing(snaps, docs) && objs == Objects(snaps)
  }

  /** A loaded record carries its document's id and every stored field. */
  lemma LoadedRecord(objs: seq<Obj>, docs: map<string, Doc>, i: nat)
    requires Loaded(objs, docs) && i < |objs|
    ensures "id" in objs[i]
    ensures exists id :: id in docs && objs[i] == map["id" := id] + docs[id]
  {
    var snaps: seq<Snapshot> :| IsListing(snaps, docs) && objs == Objects(snaps);
    assert objs[i] == Spread(snaps[i]);
    assert snaps[i].id in docs;
  }

  /** Every document of the collection is listed. */
  lemma ListingCovers(snaps: seq<Snapshot>, docs: map<string, Doc>, id: string)
    requires IsListing(snaps, docs) && id in docs
    ensures exists i :: 0 <= i < |snaps| && snaps[i] == Snapshot(id, docs[id])
  {
    assert id in Ids(snaps);
    var i :| 0 <= i < |snaps| && snaps[i].id == id;
    assert snaps[i] == Snapshot(id, docs[id]);
  }

  /** Every document of the collection is loaded. */
  lemma LoadedCovers(objs: seq<Obj>, docs: map<string, Doc>, id: string)
    requires Loaded(objs, docs) && id in docs
    ensures exists i :: 0 <= i < |objs| && objs[i] == map["id" := id] + docs[id]
  {
    var snaps: seq<Snapshot> :| IsListing(snaps, docs) && objs == Objects(snaps);
    ListingCovers(snaps, docs, id);
    var i :| 0 <= i < |snaps| && snaps[i] == Snapshot(id, docs[id]);
    assert objs[i] == Spread(snaps[i]);
  }

  /** The backend as a shared object that the components' calls update. */
  class Backend {
    var state: State

    constructor ()
      ensures state == Empty()
    {
      state := Empty();
    }
  }
}
