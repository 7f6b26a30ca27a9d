/** The upload-then-write procedure that `inviaArticolo` and `inviaContatto`
    both run once their form is valid: with a selected file, put it at
    `images/<collection>/<name>` and fetch its download URL; then update the
    document being edited, or add a new one, with the form's fields and,
    when a file was uploaded, `immagine` set to that URL. Each await that
    throws ends the procedure and the error is rethrown. */
module Submit {
  import opened Wrappers
  import opened Store

  /** Which of a submit's requests the network or the backend refuses. */
  datatype Net = Net(rejectPut: bool, rejectUrl: bool, rejectWrite: bool)

  /** `if (editId)`: null and the empty string both mean "add". */
  predicate Truthy(editId: Option<string>)
  {
    editId.Some? && editId.value != ""
  }

  function ImagePath(c: Coll, name: string): string
  {
    "images/" + c.Name() + "/" + name
  }

  /** `put` then `getDownloadURL` at the file's path. */
  function Upload(s: State, c: Coll, file: File, urlOf: string -> string, net: Net): (r: (State, Result<string>))
    ensures r.0.articoli == s.articoli && r.0.contatti == s.contatti && r.0.nextId == s.nextId
  {
    var path := ImagePath(c, file.name);
    var (s1, put) := PutFile(s, path, file, net.rejectPut);
    if put.Err? then (s1, Err(put.error)) else DownloadUrl(s1, path, urlOf, net.rejectUrl)
  }

  /** `update` of the edited document, or `add` of a new one. */
  function Write(s: State, c: Coll, fields: Doc, editId: Option<string>, rejected: bool): (r: (State, Result<()>))
    requires s.Valid()
    ensures r.0.Valid()
    ensures c == Articoli ==> r.0.contatti == s.contatti
    ensures c == Contatti ==> r.0.articoli == s.articoli
  {
    if Truthy(editId) then UpdateDoc(s, c, editId.value, fields, rejected)
    else
      var (s1, id) := AddDoc(s, c, fields, rejected);
      (s1, if id.Ok? then Ok(()) else Err(id.error))
  }

  /** The whole procedure, from a valid form's `fields`. */
  function Save(s: State, c: Coll, fields: Doc, file: Option<File>, editId: Option<string>,
                urlOf: string -> string, net: Net): (r: (State, Result<()>))
    requires s.Valid()
    ensures r.0.Valid()
    ensures c == Articoli ==> r.0.contatti == s.contatti
    ensures c == Contatti ==> r.0.articoli == s.articoli
  {
    if file.Some? then
      var (s1, url) := Upload(s, c, file.value, urlOf, net);
      if url.Err? then (s1, Err(url.error))
      else Write(s1, c, fields["immagine" := url.value], editId, net.rejectWrite)
    else Write(s, c, fields, editId, net.rejectWrite)
  }

  // ---------------------------------------------------------------------
  // The reference: what is written, and the requests issued when none fails

  /** The document content written: the form's fields, plus `immagine` set
      to the uploaded file's URL when a file is selected. */
  function Written(c: Coll, fields: Doc, file: Option<File>, urlOf: string -> string): Doc
  {
    if file.Some? then fields["immagine" := urlOf(ImagePath(c, file.value.name))] else fields
  }

  function WriteCall(c: Coll, fields: Doc, file: Option<File>, editId: Option<string>, urlOf: string -> string): Call
  {
    var doc := Written(c, fields, file, urlOf);
    if Truthy(editId) then Update(c, editId.value, doc) else Add(c, doc)
  }

  function Requests(c: Coll, fields: Doc, file: Option<File>, editId: Option<string>, urlOf: string -> string): seq<Call>
  {
    var write := WriteCall(c, fields, file, editId, urlOf);
    if file.Some? then
      var path := ImagePath(c, file.value.name);
      [Put(path, file.value), GetUrl(path), write]
    else [write]
  }

  /** The writes (`add`, `update`) among some requests, in order. */
  function Writes(calls: seq<Call>): seq<Call>
  {
    if calls == [] then []
    else (if calls[0].IsWrite() then [calls[0]] else []) + Writes(calls[1..])
  }

  lemma {:induction false} WritesAppend(a: seq<Call>, b: seq<Call>)
    ensures Writes(a + b) == Writes(a) + Writes(b)
  {
    if a != [] {
      assert (a + b)[1..] == a[1..] + b;
      WritesAppend(a[1..], b);
    } else {
      assert a + b == b;
    }
  }

  // ---------------------------------------------------------------------
  // Properties

  /** What `Upload` issues and yields: the URL of the stored file, unless
      the `put` or the URL request is refused. */
  lemma UploadSteps(s: State, c: Coll, file: File, urlOf: string -> string, net: Net)
    ensures var (s', r) := Upload(s, c, file, urlOf, net);
            var path := ImagePath(c, file.name);
            && s'.calls == s.calls + (if net.rejectPut then [Put(path, file)] else [Put(path, file), GetUrl(path)])
            && (r.Ok? <==> !net.rejectPut && !net.rejectUrl)
            && (r.Ok? ==> r.value == urlOf(path))
            && s'.blobs == (if net.rejectPut then s.blobs else s.blobs[path := file])
  {
    var path := ImagePath(c, file.name);
    var (s1, put) := PutFile(s, path, file, net.rejectPut);
    if !net.rejectPut {
      assert path in s1.blobs;
      assert s1.calls + [GetUrl(path)] == s.calls + [Put(path, file), GetUrl(path)];
    }
  }

  /** What `Write` issues. */
  lemma WriteSteps(s: State, c: Coll, fields: Doc, editId: Option<string>, rejected: bool)
    requires s.Valid()
    ensures var (s', r) := Write(s, c, fields, editId, rejected);
            s'.calls == s.calls + [if Truthy(editId) then Update(c, editId.value, fields) else Add(c, fields)]
  {
  }

  /** What `Write` does to the stored documents. */
  lemma WriteEffect(s: State, c: Coll, fields: Doc, editId: Option<string>, rejected: bool)
    requires s.Valid()
    ensures var (s', r) := Write(s, c, fields, editId, rejected);
            var other := if c == Articoli then Contatti else Articoli;
            && s'.Docs(other) == s.Docs(other)
            && s'.blobs == s.blobs
            && (r.Ok? <==> !rejected && (Truthy(editId) ==> editId.value in s.Docs(c)))
            && (rejected ==> r == Err(Rejected))
            && (!rejected && r.Err? ==> r.error == NotFound)
            && (r.Err? ==> s'.Docs(c) == s.Docs(c))
            && (r.Ok? && Truthy(editId) ==>
                  editId.value in s.Docs(c) &&
                  s'.Docs(c) == s.Docs(c)[editId.value := s.Docs(c)[editId.value] + fields])
            && (r.Ok? && !Truthy(editId) ==>
                  GeneratedId(s.nextId) !in s.Docs(c) &&
                  s'.Docs(c) == s.Docs(c)[GeneratedId(s.nextId) := fields])
  {
    if !Truthy(editId) && !rejected {
      assert |GeneratedId(s.nextId)| == s.nextId;
    }
  }

  /** The requests issued are a non-empty prefix of the reference sequence,
      in that order: issuing stops at the first request that fails, and the
      whole sequence is issued when the procedure resolves. */
  lemma SaveFollowsRequests(s: State, c: Coll, fields: Doc, file: Option<File>, editId: Option<string>,
                            urlOf: string -> string, net: Net)
    requires s.Valid()
    ensures var (s', r) := Save(s, c, fields, file, editId, urlOf, net);
            var plan := Requests(c, fields, file, editId, urlOf);
            && |s.calls| < |s'.calls| <= |s.calls| + |plan|
            && s'.calls == s.calls + plan[..|s'.calls| - |s.calls|]
            && (r.Ok? ==> s'.calls == s.calls + plan)
  {
    if file.Some? {
      UploadFollowsRequests(s, c, fields, file.value, editId, urlOf, net);
    } else {
      var (s', r) := Save(s, c, fields, file, editId, urlOf, net);
      WriteSteps(s, c, fields, editId, net.rejectWrite);
      assert s'.calls == s.calls + Requests(c, fields, file, editId, urlOf);
    }
  }

  /** `SaveFollowsRequests` when a file is selected. */
  lemma UploadFollowsRequests(s: State, c: Coll, fields: Doc, file: File, editId: Option<string>,
                              urlOf: string -> string, net: Net)
    requires s.Valid()
    ensures var (s', r) := Save(s, c, fields, Some(file), editId, urlOf, net);
            var plan := Requests(c, fields, Some(file), editId, urlOf);
            && |s.calls| < |s'.calls| <= |s.calls| + |plan|
            && s'.calls == s.calls + plan[..|s'.calls| - |s.calls|]
            && (r.Ok? ==> s'.calls == s.calls + plan)
  {
    var plan := Requests(c, fields, Some(file), editId, urlOf);
    var (s', r) := Save(s, c, fields, Some(file), editId, urlOf, net);
    var k := if net.rejectPut then 1 else if net.rejectUrl then 2 else 3;
    UploadIssues(s, c, fields, file, editId, urlOf, net);
    GrewBy(s.calls, s'.calls, plan, k);
  }

  /** How many of the planned requests a submit with a file issues: the
      `put` alone when it is refused, the `put` and `getDownloadURL` when
      the URL request is refused, and all three otherwise. */
  lemma UploadIssues(s: State, c: Coll, fields: Doc, file: File, editId: Option<string>,
                     urlOf: string -> string, net: Net)
    requires s.Valid()
    ensures var (s', r) := Save(s, c, fields, Some(file), editId, urlOf, net);
            var plan := Requests(c, fields, Some(file), editId, urlOf);
            && (net.rejectPut ==> s'.calls == s.calls + plan[..1] && r.Err?)
            && (!net.rejectPut && net.rejectUrl ==> s'.calls == s.calls + plan[..2] && r.Err?)
            && (!net.rejectPut && !net.rejectUrl ==> s'.calls == s.calls + plan[..3])
  {
    if !net.rejectPut && !net.rejectUrl {
      UploadedIssues(s, c, fields, file, editId, urlOf, net);
    } else {
      UploadSteps(s, c, file, urlOf, net);
    }
  }

  /** `UploadIssues` when the upload succeeds: the write follows. */
  lemma UploadedIssues(s: State, c: Coll, fields: Doc, file: File, editId: Option<string>,
                       urlOf: string -> string, net: Net)
    requires s.Valid() && !net.rejectPut && !net.rejectUrl
    ensures Save(s, c, fields, Some(file), editId, urlOf, net).0.calls ==
              s.calls + Requests(c, fields, Some(file), editId, urlOf)
  {
    UploadSteps(s, c, file, urlOf, net);
    var s1 := Upload(s, c, file, urlOf, net).0;
    var path := ImagePath(c, file.name);
    assert s1.calls == s.calls + [Put(path, file), GetUrl(path)];
    UploadedWrites(s, c, fields, file, editId, urlOf, net);
    WriteSteps(s1, c, Written(c, fields, Some(file), urlOf), editId, net.rejectWrite);
  }

  /** After a successful upload, the procedure is the write of the record
      with the file's URL. */
  lemma UploadedWrites(s: State, c: Coll, fields: Doc, file: File, editId: Option<string>,
                       urlOf: string -> string, net: Net)
    requires s.Valid() && !net.rejectPut && !net.rejectUrl
    ensures Upload(s, c, file, urlOf, net).0.Valid()
    ensures Save(s, c, fields, Some(file), editId, urlOf, net) ==
              Write(Upload(s, c, file, urlOf, net).0, c, Written(c, fields, Some(file), urlOf), editId, net.rejectWrite)
  {
    UploadSteps(s, c, file, urlOf, net);
  }

  /** A log that grew by the first k planned requests. */
  lemma GrewBy(before: seq<Call>, after: seq<Call>, plan: seq<Call>, k: nat)
    requires 1 <= k <= |plan| && after == before + plan[..k]
    ensures |before| < |after| <= |before| + |plan|
    ensures after == before + plan[..|after| - |before|]
    ensures k == |plan| ==> after == before + plan
  {
    assert k == |plan| ==> plan[..k] == plan;
  }

  /** Exactly one write is planned, last: an `update` of the edited id when
      the edit id is set, otherwise an `add`; the file's `put` and
      `getDownloadURL` come first, and only when a file is selected. */
  lemma RequestsDispatch(c: Coll, fields: Doc, file: Option<File>, editId: Option<string>, urlOf: string -> string)
    ensures var plan := Requests(c, fields, file, editId, urlOf);
            var write := plan[|plan| - 1];
            && Writes(plan) == [write]
            && (write.Update? <==> Truthy(editId))
            && (write.Add? <==> !Truthy(editId))
            && (write.Update? ==> write.id == editId.value)
            && write.coll == c
            && write.fields == Written(c, fields, file, urlOf)
            && (forall i :: 0 <= i < |plan| && plan[i].Put? ==> file.Some? && i == 0 && plan[i].path == ImagePath(c, file.value.name))
            && (file.Some? ==> plan[0] == Put(ImagePath(c, file.value.name), file.value))
  {
    var plan := Requests(c, fields, file, editId, urlOf);
    var write := WriteCall(c, fields, file, editId, urlOf);
    if file.Some? {
      var path := ImagePath(c, file.value.name);
      WritesAppend([Put(path, file.value), GetUrl(path)], [write]);
      WritesAppend([Put(path, file.value)], [GetUrl(path)]);
    }
  }

  /** What any leading part of the reference sequence issues: an `update`
      only of the edited id and only with an edit id set, an `add` only
      without one; a write only last; a `put` only first and a
      `getDownloadURL` only second, both at the selected file's path. */
  lemma PlanPrefix(c: Coll, fields: Doc, file: Option<File>, editId: Option<string>, urlOf: string -> string, n: nat)
    requires n <= |Requests(c, fields, file, editId, urlOf)|
    ensures var t := Requests(c, fields, file, editId, urlOf)[..n];
            && (forall i :: 0 <= i < |t| && t[i].Update? ==> Truthy(editId) && t[i].id == editId.value && t[i].coll == c)
            && (forall i :: 0 <= i < |t| && t[i].Add? ==> !Truthy(editId) && t[i].coll == c)
            && (forall i :: 0 <= i < |t| && t[i].IsWrite() ==> i == |Requests(c, fields, file, editId, urlOf)| - 1)
            && (forall i :: 0 <= i < |t| && t[i].Put? ==> i == 0 && file.Some? && t[i].path == ImagePath(c, file.value.name))
            && (forall i :: 0 <= i < |t| && t[i].GetUrl? ==> i == 1 && file.Some? && t[i].path == ImagePath(c, file.value.name))
  {
  }

  /** The requests a submit issues, read off the log: only the planned
      write, and exactly that one when the submit resolves; a write comes
      after every other request; an `update` only of the edited id and only
      with an edit id set, an `add` only without one; a `put` only first and
      a `getDownloadURL` only second, both at `images/<collection>/<name>`
      of the selected file. */
  lemma SaveDispatch(s: State, c: Coll, fields: Doc, file: Option<File>, editId: Option<string>,
                     urlOf: string -> string, net: Net)
    requires s.Valid()
    ensures var (s', r) := Save(s, c, fields, file, editId, urlOf, net);
            && |s.calls| <= |s'.calls| && s'.calls[..|s.calls|] == s.calls
            && var t := s'.calls[|s.calls|..];
            && (r.Ok? ==> Writes(t) == [WriteCall(c, fields, file, editId, urlOf)])
            && (forall i :: 0 <= i < |t| && t[i].Update? ==> Truthy(editId) && t[i].id == editId.value && t[i].coll == c)
            && (forall i :: 0 <= i < |t| && t[i].Add? ==> !Truthy(editId) && t[i].coll == c)
            && (forall i :: 0 <= i < |t| && t[i].IsWrite() ==> i == |t| - 1)
            && (forall i :: 0 <= i < |t| && t[i].Put? ==> i == 0 && file.Some? && t[i].path == ImagePath(c, file.value.name))
            && (forall i :: 0 <= i < |t| && t[i].GetUrl? ==> i == 1 && file.Some? && t[i].path == ImagePath(c, file.value.name))
  {
    var (s', r) := Save(s, c, fields, file, editId, urlOf, net);
    SaveFollowsRequests(s, c, fields, file, editId, urlOf, net);
    LogDispatch(s.calls, s'.calls, r.Ok?, c, fields, file, editId, urlOf);
  }

  /** `SaveDispatch` for any log that grew by a leading part of the
      reference sequence, and by all of it when `complete`. */
  lemma LogDispatch(before: seq<Call>, after: seq<Call>, complete: bool,
                    c: Coll, fields: Doc, file: Option<File>, editId: Option<string>, urlOf: string -> string)
    requires var plan := Requests(c, fields, file, editId, urlOf);
             && |before| <= |after| <= |before| + |plan|
             && after == before + plan[..|after| - |before|]
             && (complete ==> after == before + plan)
    ensures |before| <= |after| && after[..|before|] == before
    ensures var t := after[|before|..];
            && (complete ==> Writes(t) == [WriteCall(c, fields, file, editId, urlOf)])
            && (forall i :: 0 <= i < |t| && t[i].Update? ==> Truthy(editId) && t[i].id == editId.value && t[i].coll == c)
            && (forall i :: 0 <= i < |t| && t[i].Add? ==> !Truthy(editId) && t[i].coll == c)
            && (forall i :: 0 <= i < |t| && t[i].IsWrite() ==> i == |t| - 1)
            && (forall i :: 0 <= i < |t| && t[i].Put? ==> i == 0 && file.Some? && t[i].path == ImagePath(c, file.value.name))
            && (forall i :: 0 <= i < |t| && t[i].GetUrl? ==> i == 1 && file.Some? && t[i].path == ImagePath(c, file.value.name))
  {
    var plan := Requests(c, fields, file, editId, urlOf);
    var t := after[|before|..];
    assert t == plan[..|t|];
    PlanPrefix(c, fields, file, editId, urlOf, |t|);
    if complete {
      RequestsDispatch(c, fields, file, editId, urlOf);
      assert t == plan;
    }
  }

  /** A refused upload means no write is attempted, no document changes and
      the error is rethrown. */
  lemma UploadFailureBlocksWrite(s: State, c: Coll, fields: Doc, file: Option<File>, editId: Option<string>,
                                 urlOf: string -> string, net: Net)
    requires s.Valid()
    requires file.Some? && (net.rejectPut || net.rejectUrl)
    ensures var (s', r) := Save(s, c, fields, file, editId, urlOf, net);
            && r.Err?
            && Writes(s'.calls[|s.calls|..]) == []
            && s'.articoli == s.articoli && s'.contatti == s.contatti
  {
    var (s', r) := Save(s, c, fields, file, editId, urlOf, net);
    var path := ImagePath(c, file.value.name);
    if net.rejectPut {
      assert s'.calls[|s.calls|..] == [Put(path, file.value)];
    } else {
      assert s'.calls[|s.calls|..] == [Put(path, file.value)] + [GetUrl(path)];
      WritesAppend([Put(path, file.value)], [GetUrl(path)]);
    }
  }

  /** What the procedure does to the stored documents: nothing when it
      throws; on success an update merges the written fields into the edited
      document, which must exist, and an add stores them under a fresh id.
      The other collection never changes, and the blob store changes only by
      the selected file. */
  lemma SaveEffect(s: State, c: Coll, fields: Doc, file: Option<File>, editId: Option<string>,
                   urlOf: string -> string, net: Net)
    requires s.Valid()
    ensures var (s', r) := Save(s, c, fields, file, editId, urlOf, net);
            var doc := Written(c, fields, file, urlOf);
            var other := if c == Articoli then Contatti else Articoli;
            && s'.Docs(other) == s.Docs(other)
            && (r.Ok? <==> && !net.rejectWrite
                           && (file.Some? ==> !net.rejectPut && !net.rejectUrl)
                           && (Truthy(editId) ==> editId.value in s.Docs(c)))
            && (r.Err? ==> s'.Docs(c) == s.Docs(c))
            && (r.Ok? && Truthy(editId) ==>
                  editId.value in s.Docs(c) &&
                  s'.Docs(c) == s.Docs(c)[editId.value := s.Docs(c)[editId.value] + doc])
            && (r.Ok? && !Truthy(editId) ==>
                  GeneratedId(s.nextId) !in s.Docs(c) &&
                  s'.Docs(c) == s.Docs(c)[GeneratedId(s.nextId) := doc])
            && (file.None? ==> s'.blobs == s.blobs)
            && (file.Some? ==> s'.blobs == if net.rejectPut then s.blobs
                                           else s.blobs[ImagePath(c, file.value.name) := file.value])
  {
    var (s', r) := Save(s, c, fields, file, editId, urlOf, net);
    if file.Some? {
      UploadSteps(s, c, file.value, urlOf, net);
      var (s1, url) := Upload(s, c, file.value, urlOf, net);
      if url.Ok? {
        assert fields["immagine" := url.value] == Written(c, fields, file, urlOf);
        WriteEffect(s1, c, fields["immagine" := url.value], editId, net.rejectWrite);
      }
    } else {
      WriteEffect(s, c, fields, editId, net.rejectWrite);
    }
  }

  /** An update without a selected file sends no `immagine` (when the form's
      fields have none), so under the merge the document keeps its stored
      image, and every other field the form does not send. */
  lemma UpdateWithoutFileKeepsImage(s: State, c: Coll, fields: Doc, editId: Option<string>,
                                    urlOf: string -> string, net: Net, key: string)
    requires s.Valid() && Truthy(editId) && "immagine" !in fields
    requires editId.value in s.Docs(c) && key in s.Docs(c)[editId.value] && key !in fields
    ensures var (s', r) := Save(s, c, fields, None, editId, urlOf, net);
            r.Ok? ==> s'.Docs(c)[editId.value][key] == s.Docs(c)[editId.value][key]
    ensures "immagine" !in Written(c, fields, None, urlOf)
  {
    SaveEffect(s, c, fields, None, editId, urlOf, net);
  }
}
