/** The article page: it keeps the article form, the selected file, the
    loaded articles and the id of the article being edited, and drives the
    article service. Each awaited service call that throws is caught and
    only logged. */
module ArticoloView {
  import opened Wrappers
  import opened Forms
  import opened Store
  import opened Submit
  import A = Articoli

  /** Position of the first record whose `id` is `id`, as `Array.find`
      scans. */
  function FindById(objs: seq<Obj>, id: string): (k: Option<nat>)
    ensures k.Some? ==> k.value < |objs| && "id" in objs[k.value] && objs[k.value]["id"] == id
    ensures k.Some? ==> forall j :: 0 <= j < k.value ==> !("id" in objs[j] && objs[j]["id"] == id)
    ensures k.None? ==> forall j :: 0 <= j < |objs| ==> !("id" in objs[j] && objs[j]["id"] == id)
  {
    if objs == [] then None
    else if "id" in objs[0] && objs[0]["id"] == id then Some(0)
    else
      var k := FindById(objs[1..], id);
      if k.Some? then Some(k.value + 1) else None
  }

  /** A record's field as the form reads it: a missing field is undefined. */
  function FieldOf(obj: Obj, key: string): Value
  {
    if key in obj then Text(obj[key]) else Null
  }

  /** The values `modificaArticolo` patches into the form: title, author
      and text of the record, and not its image. */
  function EditValues(obj: Obj): (update: Values)
    ensures update.Keys == {"txtTitolo", "txtAutore", "txtTesto"}
  {
    map["txtTitolo" := FieldOf(obj, "titolo"),
        "txtAutore" := FieldOf(obj, "autore"),
        "txtTesto" := FieldOf(obj, "testo")]
  }

  class ArticoloComponent {
    var myForm: Values
    var selectedFile: Option<File>
    var articoli: seq<Obj>
    var articoloDaModificareId: Option<string>
    /** The backend the service talks to. */
    const backend: Backend
    /** The storage service's download URLs. */
    const urlOf: string -> string

    constructor (backend: Backend, urlOf: string -> string)
      ensures myForm == Initial(A.ArticoloForm)
      ensures selectedFile == None && articoli == [] && articoloDaModificareId == None
      ensures this.backend == backend && this.urlOf == urlOf
    {
      myForm := Initial(A.ArticoloForm);
      selectedFile := None;
      articoli := [];
      articoloDaModificareId := None;
      this.backend := backend;
      this.urlOf := urlOf;
    }

    /** `caricaArticoli`: replaces the loaded articles with the stored ones;
        a refused query is logged and the old list stays. */
    method CaricaArticoli(rejected: bool)
      modifies this
      ensures rejected ==> articoli == old(articoli)
      ensures !rejected ==> Loaded(articoli, backend.state.articoli)
      ensures myForm == old(myForm) && selectedFile == old(selectedFile)
      ensures articoloDaModificareId == old(articoloDaModificareId)
    {
      var r := A.CaricaArticoli(backend.state, rejected);
      if r.Ok? {
        articoli := r.value;
      }
    }

    /** `ngOnInit`: loads the articles. */
    method NgOnInit(rejected: bool)
      modifies this
      ensures rejected ==> articoli == old(articoli)
      ensures !rejected ==> Loaded(articoli, backend.state.articoli)
      ensures myForm == old(myForm) && selectedFile == old(selectedFile)
      ensures articoloDaModificareId == old(articoloDaModificareId)
    {
      CaricaArticoli(rejected);
    }

    /** `onFileSelected`: keeps the event's first file, or none. */
    method OnFileSelected(file: Option<File>)
      modifies this
      ensures selectedFile == file
      ensures myForm == old(myForm) && articoli == old(articoli)
      ensures articoloDaModificareId == old(articoloDaModificareId)
    {
      selectedFile := file;
    }

    /** `inviaArticolo`: submits through the service. When the service
        resolves (an invalid form included, which it only alerts about) the
        articles are reloaded and the form reset; when it throws, both stay.
        The edit id is never cleared here, so after an edit the next submit
        updates the same article again. */
    method InviaArticolo(net: Net, reloadRejected: bool)
      requires backend.state.Valid()
      modifies this, backend
      ensures var (s', r) := A.InviaArticolo(old(backend.state), old(myForm), old(selectedFile),
                                             old(articoloDaModificareId), urlOf, net);
              && backend.state == s'
              && (r.Err? ==> myForm == old(myForm) && articoli == old(articoli))
              && (r.Ok? ==> myForm == Reset(A.ArticoloForm))
              && (r.Ok? && reloadRejected ==> articoli == old(articoli))
              && (r.Ok? && !reloadRejected ==> Loaded(articoli, s'.articoli))
      ensures backend.state.Valid()
      ensures selectedFile == old(selectedFile) && articoloDaModificareId == old(articoloDaModificareId)
    {
      var (s', r) := A.InviaArticolo(backend.state, myForm, selectedFile, articoloDaModificareId, urlOf, net);
      backend.state := s';
      if r.Ok? {
        CaricaArticoli(reloadRejected);
        myForm := Reset(A.ArticoloForm);
      }
    }

    /** `eliminaArticolo`: deletes through the service and, only when the
        delete resolves, reloads the articles. */
    method EliminaArticolo(id: string, rejected: bool, reloadRejected: bool)
      requires backend.state.Valid()
      modifies this, backend
      ensures backend.state == A.EliminaArticolo(old(backend.state), id, rejected).0
      ensures backend.state.Valid()
      ensures rejected || reloadRejected ==> articoli == old(articoli)
      ensures !rejected && !reloadRejected ==> Loaded(articoli, backend.state.articoli)
      ensures myForm == old(myForm) && selectedFile == old(selectedFile)
      ensures articoloDaModificareId == old(articoloDaModificareId)
    {
      var (s', r) := A.EliminaArticolo(backend.state, id, rejected);
      backend.state := s';
      if r.Ok? {
        CaricaArticoli(reloadRejected);
      }
    }

    /** `modificaArticolo`: copies the title, author and text of the loaded
        article with that id into the form, keeping the image control, and
        remembers the id. With no such article, reading its fields throws
        and nothing changes. */
    method ModificaArticolo(id: string) returns (r: Result<()>)
      modifies this
      ensures articoli == old(articoli) && selectedFile == old(selectedFile)
      ensures FindById(articoli, id).None? ==>
                r == Err(TypeError) && myForm == old(myForm) &&
                articoloDaModificareId == old(articoloDaModificareId)
      ensures FindById(articoli, id).Some? ==>
                r == Ok(()) && articoloDaModificareId == Some(id) &&
                myForm == Patch(old(myForm), EditValues(articoli[FindById(articoli, id).value]))
    {
      var k := FindById(articoli, id);
      if k.None? {
        return Err(TypeError);
      }
      myForm := Patch(myForm, EditValues(articoli[k.value]));
      articoloDaModificareId := Some(id);
      r := Ok(());
    }
  }

  /** Starting an edit fills the three text controls from the record and
      leaves the image control as it was; the control set is unchanged. */
  lemma EditKeepsImage(form: Values, obj: Obj)
    requires form.Keys == {"txtTitolo", "txtAutore", "txtTesto", "txtImmagine"}
    ensures var after := Patch(form, EditValues(obj));
            && after.Keys == form.Keys
            && after["txtImmagine"] == form["txtImmagine"]
            && after["txtTitolo"] == FieldOf(obj, "titolo")
            && after["txtAutore"] == FieldOf(obj, "autore")
            && after["txtTesto"] == FieldOf(obj, "testo")
  {
  }

  /** Neither a fresh nor a reset article form is valid: every control
      starts empty and `required` rejects it. */
  lemma FreshAndResetInvalid(isEmail: string -> bool)
    ensures !Valid(A.ArticoloForm, Initial(A.ArticoloForm), isEmail)
    ensures !Valid(A.ArticoloForm, Reset(A.ArticoloForm), isEmail)
  {
    assert A.ArticoloForm.fields[0].name == "txtTitolo";
    A.ArticoloFormValidIff(Initial(A.ArticoloForm), isEmail);
    A.ArticoloFormValidIff(Reset(A.ArticoloForm), isEmail);
  }
}
