/** The article service: the article form, loading the `articoli`
    collection, submitting the form (add or edit, with an optional image) and
    deleting an article. */
module Articoli {
  import opened Wrappers
  import opened Forms
  import opened Store
  import opened Submit

  /** `initForm()`: the article form's controls (title, author, text and
      image) and their validators, with no group validator. */
  const ArticoloForm := Form([
    Field("txtTitolo", [Required, MaxLength(30)]),
    Field("txtAutore", [Required, MaxLength(20)]),
    Field("txtTesto", [Required, MinLength(2), MaxLength(5000)]),
    Field("txtImmagine", [Required])], false)

  /** The article form has exactly the title, author, text and image
      controls, and no group validator. */
  lemma ArticoloFormControls()
    ensures Names(ArticoloForm) == {"txtTitolo", "txtAutore", "txtTesto", "txtImmagine"}
    ensures !ArticoloForm.matchPasswords
  {
    var f := ArticoloForm.fields;
    assert f[0].name == "txtTitolo" && f[1].name == "txtAutore";
    assert f[2].name == "txtTesto" && f[3].name == "txtImmagine";
  }

  /** The article form declares no email validator, so its validity never
      consults the email pattern; any oracle gives the same answer. */
  const AnyEmail: string -> bool := _ => true

  predicate ArticoloValid(values: Values)
  {
    Valid(ArticoloForm, values, AnyEmail)
  }

  /** The article form is valid exactly when the title holds 1 to 30
      UTF-16 code units, the author 1 to 20, the text 2 to 5000 (counted as
      JavaScript's `length` counts them), and the image control is
      non-empty. */
  lemma ArticoloFormValidIff(values: Values, isEmail: string -> bool)
    ensures var titolo, autore, testo, immagine :=
              Get(values, "txtTitolo"), Get(values, "txtAutore"), Get(values, "txtTesto"), Get(values, "txtImmagine");
            Valid(ArticoloForm, values, isEmail) <==>
              && Filled(titolo, 30)
              && Filled(autore, 20)
              && testo.Text? && 2 <= JsLength(testo.s) <= 5000
              && immagine.Text? && immagine.s != ""
  {
    var f := ArticoloForm.fields;
    RequiredMaxIff(Get(values, "txtTitolo"), 30, isEmail);
    RequiredMaxIff(Get(values, "txtAutore"), 20, isEmail);
    RequiredCheckMaxIff(MinLength(2), Get(values, "txtTesto"), 5000, isEmail);
    RequiredIff(Get(values, "txtImmagine"), isEmail);
    assert f[0] == Field("txtTitolo", [Required, MaxLength(30)]);
    assert f[1] == Field("txtAutore", [Required, MaxLength(20)]);
    assert f[2] == Field("txtTesto", [Required, MinLength(2), MaxLength(5000)]);
    assert f[3] == Field("txtImmagine", [Required]);
    assert |f| == 4 && f[4..] == [];
    ControlsValidFrom(f, 0, values, isEmail);
    ControlsValidFrom(f, 1, values, isEmail);
    ControlsValidFrom(f, 2, values, isEmail);
    ControlsValidFrom(f, 3, values, isEmail);
  }

  /** The fields `inviaArticolo` writes from a valid form. */
  function ArticoloFields(values: Values): (doc: Doc)
    requires ArticoloValid(values)
    ensures doc.Keys == {"titolo", "autore", "testo"}
  {
    ArticoloFormValidIff(values, AnyEmail);
    map["titolo" := Get(values, "txtTitolo").s,
        "autore" := Get(values, "txtAutore").s,
        "testo" := Get(values, "txtTesto").s]
  }

  /** `inviaArticolo`: an invalid form only raises an alert and resolves;
      a valid one runs the upload-then-write procedure on `articoli`. */
  function InviaArticolo(s: State, values: Values, file: Option<File>, editId: Option<string>,
                         urlOf: string -> string, net: Net): (r: (State, Result<()>))
    requires s.Valid()
    ensures r.0.Valid()
    ensures r.0.contatti == s.contatti
    ensures !ArticoloValid(values) ==> r == (s, Ok(()))
  {
    if ArticoloValid(values) then
      Save(s, Articoli, ArticoloFields(values), file, editId, urlOf, net)
    else (s, Ok(()))
  }

  /** The record an article submit writes: title, author and text taken
      from the form, and the image URL only when a file is selected. */
  lemma ArticoloRecord(values: Values, file: Option<File>, urlOf: string -> string)
    requires ArticoloValid(values)
    ensures var doc := Written(Articoli, ArticoloFields(values), file, urlOf);
            && doc.Keys == {"titolo", "autore", "testo"} + (if file.Some? then {"immagine"} else {})
            && Get(values, "txtTitolo") == Text(doc["titolo"]) && 1 <= JsLength(doc["titolo"]) <= 30
            && Get(values, "txtAutore") == Text(doc["autore"]) && 1 <= JsLength(doc["autore"]) <= 20
            && Get(values, "txtTesto") == Text(doc["testo"]) && 2 <= JsLength(doc["testo"]) <= 5000
            && (file.Some? ==> doc["immagine"] == urlOf("images/articoli/" + file.value.name))
  {
    ArticoloFormValidIff(values, AnyEmail);
    if file.Some? {
      assert ImagePath(Articoli, file.value.name) == "images/articoli/" + file.value.name;
    }
  }

  /** An article submit's requests: none for an invalid form; otherwise
      an `update` of the edited article only when an edit id is set and an
      `add` only when none is, writing the form's record, after the image's
      `put` at `images/articoli/<name>` and `getDownloadURL`. */
  lemma ArticoloDispatch(s: State, values: Values, file: Option<File>, editId: Option<string>,
                         urlOf: string -> string, net: Net)
    requires s.Valid()
    ensures var (s', r) := InviaArticolo(s, values, file, editId, urlOf, net);
            && |s.calls| <= |s'.calls| && s'.calls[..|s.calls|] == s.calls
            && var t := s'.calls[|s.calls|..];
            && (!ArticoloValid(values) ==> t == [])
            && (ArticoloValid(values) && r.Ok? ==>
                  Writes(t) == [WriteCall(Articoli, ArticoloFields(values), file, editId, urlOf)])
            && (forall i :: 0 <= i < |t| && t[i].Update? ==>
                  Truthy(editId) && t[i].id == editId.value && t[i].coll == Articoli)
            && (forall i :: 0 <= i < |t| && t[i].Add? ==> !Truthy(editId) && t[i].coll == Articoli)
            && (forall i :: 0 <= i < |t| && t[i].IsWrite() ==> i == |t| - 1)
            && (forall i :: 0 <= i < |t| && t[i].Put? ==>
                  i == 0 && file.Some? && t[i].path == "images/articoli/" + file.value.name)
  {
    if ArticoloValid(values) {
      SaveDispatch(s, Articoli, ArticoloFields(values), file, editId, urlOf, net);
      if file.Some? {
        ArticoliPath(file.value.name);
      }
    }
  }

  lemma ArticoliPath(name: string)
    ensures ImagePath(Articoli, name) == "images/articoli/" + name
  {
  }

  /** The effect of an article submit on the stored articles: none when the
      form is invalid or the procedure throws; otherwise the record is merged
      into the edited article or stored as a new one. */
  lemma ArticoloEffect(s: State, values: Values, file: Option<File>, editId: Option<string>,
                       urlOf: string -> string, net: Net)
    requires s.Valid()
    ensures var (s', r) := InviaArticolo(s, values, file, editId, urlOf, net);
            && (!ArticoloValid(values) || r.Err? ==> s'.articoli == s.articoli)
            && (!ArticoloValid(values) ==> r.Ok?)
            && (ArticoloValid(values) ==>
                  (r.Ok? <==> && !net.rejectWrite
                              && (file.Some? ==> !net.rejectPut && !net.rejectUrl)
                              && (Truthy(editId) ==> editId.value in s.articoli)))
            && (ArticoloValid(values) && r.Ok? ==>
                  var doc := Written(Articoli, ArticoloFields(values), file, urlOf);
                  if Truthy(editId) then
                    editId.value in s.articoli &&
                    s'.articoli == s.articoli[editId.value := s.articoli[editId.value] + doc]
                  else
                    GeneratedId(s.nextId) !in s.articoli &&
                    s'.articoli == s.articoli[GeneratedId(s.nextId) := doc])
  {
    if ArticoloValid(values) {
      SaveEffect(s, Articoli, ArticoloFields(values), file, editId, urlOf, net);
    }
  }

  /** `eliminaArticolo`: deletes the article with that id (a missing one
      included); a refused request rethrows and changes nothing. */
  function EliminaArticolo(s: State, id: string, rejected: bool): (r: (State, Result<()>))
    requires s.Valid()
    ensures r.0.Valid()
    ensures r.0.calls == s.calls + [Delete(Articoli, id)]
    ensures r.0.contatti == s.contatti && r.0.blobs == s.blobs
    ensures r.1.Ok? <==> !rejected
    ensures r.1.Err? ==> r.0.articoli == s.articoli
    ensures r.1.Ok? ==> r.0.articoli.Keys == s.articoli.Keys - {id}
    ensures r.1.Ok? ==> forall k :: k in r.0.articoli ==> r.0.articoli[k] == s.articoli[k]
  {
    DeleteDoc(s, Articoli, id, rejected)
  }

  /** `caricaArticoli`: every stored article, as `{ id, ...data }`; a
      refused query rethrows. */
  method CaricaArticoli(s: State, rejected: bool) returns (r: Result<seq<Obj>>)
    ensures r.Ok? <==> !rejected
    ensures r.Err? ==> r.error == Rejected
    ensures r.Ok? ==> Loaded(r.value, s.articoli)
  {
    if rejected {
      return Err(Rejected);
    }
    var snaps := List(s.articoli);
    r := Ok(Objects(snaps));
  }
}
