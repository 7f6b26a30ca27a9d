/** The contacts service: the contact form with its custom validators,
    loading the `contatti` collection and sorting it by surname, submitting
    the form (add or edit, with an optional image) and deleting a contact. */
module Contatti {
  import opened Wrappers
  import opened Forms
  import opened Store
  import opened Submit

  /** `initForm()`: the contact form's controls, their validators and the
      group's password-match validator. */
  const ContattoForm := Form([
    Field("txtNome", [Required, MaxLength(20)]),
    Field("txtCognome", [Required, MaxLength(20)]),
    Field("txtImmagine", [Required]),
    Field("txtEmail", [Required, Email, MaxLength(20)]),
    Field("txtNumero", [Required, Numeric, MaxLength(20)]),
    Field("txtData_Nascita", [Required, DateFormat, MaxLength(20)]),
    Field("txtPassword", [Required, MaxLength(20)]),
    Field("txtConfermaPassword", [Required, MaxLength(20)])], true)

  /** The contact form has exactly the name, surname, image, email, number,
      birth date, password and confirmation controls, and the group's
      password-match validator. */
  lemma ContattoFormControls()
    ensures Names(ContattoForm) == {"txtNome", "txtCognome", "txtImmagine", "txtEmail", "txtNumero",
                                    "txtData_Nascita", "txtPassword", "txtConfermaPassword"}
    ensures ContattoForm.matchPasswords
  {
    var f := ContattoForm.fields;
    assert f[0].name == "txtNome" && f[1].name == "txtCognome";
    assert f[2].name == "txtImmagine" && f[3].name == "txtEmail";
    assert f[4].name == "txtNumero" && f[5].name == "txtData_Nascita";
    assert f[6].name == "txtPassword" && f[7].name == "txtConfermaPassword";
  }

  /** The contact form's validity, control by control. */
  lemma ContattoControls(values: Values, isEmail: string -> bool)
    ensures Valid(ContattoForm, values, isEmail) <==>
              && Errors([Required, MaxLength(20)], Get(values, "txtNome"), isEmail) == {}
              && Errors([Required, MaxLength(20)], Get(values, "txtCognome"), isEmail) == {}
              && Errors([Required], Get(values, "txtImmagine"), isEmail) == {}
              && Errors([Required, Email, MaxLength(20)], Get(values, "txtEmail"), isEmail) == {}
              && Errors([Required, Numeric, MaxLength(20)], Get(values, "txtNumero"), isEmail) == {}
              && Errors([Required, DateFormat, MaxLength(20)], Get(values, "txtData_Nascita"), isEmail) == {}
              && Errors([Required, MaxLength(20)], Get(values, "txtPassword"), isEmail) == {}
              && Errors([Required, MaxLength(20)], Get(values, "txtConfermaPassword"), isEmail) == {}
              && Get(values, "txtConfermaPassword") == Get(values, "txtPassword")
  {
    var f := ContattoForm.fields;
    assert f[0] == Field("txtNome", [Required, MaxLength(20)]);
    assert f[1] == Field("txtCognome", [Required, MaxLength(20)]);
    assert f[2] == Field("txtImmagine", [Required]);
    assert f[3] == Field("txtEmail", [Required, Email, MaxLength(20)]);
    assert f[4] == Field("txtNumero", [Required, Numeric, MaxLength(20)]);
    assert f[5] == Field("txtData_Nascita", [Required, DateFormat, MaxLength(20)]);
    assert f[6] == Field("txtPassword", [Required, MaxLength(20)]);
    assert f[7] == Field("txtConfermaPassword", [Required, MaxLength(20)]);
    assert |f| == 8 && f[8..] == [];
    ControlsValidFrom(f, 0, values, isEmail);
    ControlsValidFrom(f, 1, values, isEmail);
    ControlsValidFrom(f, 2, values, isEmail);
    ControlsValidFrom(f, 3, values, isEmail);
    ControlsValidFrom(f, 4, values, isEmail);
    ControlsValidFrom(f, 5, values, isEmail);
    ControlsValidFrom(f, 6, values, isEmail);
    ControlsValidFrom(f, 7, values, isEmail);
  }

  /** The contact form is valid exactly when name, surname and password
      hold 1 to 20 UTF-16 code units, the image control is non-empty, the email
      holds 1 to 20 and matches the email pattern, the number
      holds 1 to 20 and reads as an integer, the birth date has
      the form dd/dd/dddd, and the confirmation equals the password. */
  lemma ContattoFormValidIff(values: Values, isEmail: string -> bool)
    ensures var email, numero, data, immagine :=
              Get(values, "txtEmail"), Get(values, "txtNumero"), Get(values, "txtData_Nascita"), Get(values, "txtImmagine");
            Valid(ContattoForm, values, isEmail) <==>
              && Filled(Get(values, "txtNome"), 20)
              && Filled(Get(values, "txtCognome"), 20)
              && immagine.Text? && immagine.s != ""
              && Filled(email, 20) && isEmail(email.s)
              && Filled(numero, 20) && IsIntegerText(numero.s)
              && data.Text? && DatePattern(data.s)
              && Filled(Get(values, "txtPassword"), 20)
              && Get(values, "txtConfermaPassword") == Get(values, "txtPassword")
  {
    ContattoControls(values, isEmail);
    RequiredMaxIff(Get(values, "txtNome"), 20, isEmail);
    RequiredMaxIff(Get(values, "txtCognome"), 20, isEmail);
    RequiredIff(Get(values, "txtImmagine"), isEmail);
    RequiredCheckMaxIff(Email, Get(values, "txtEmail"), 20, isEmail);
    RequiredCheckMaxIff(Numeric, Get(values, "txtNumero"), 20, isEmail);
    RequiredCheckMaxIff(DateFormat, Get(values, "txtData_Nascita"), 20, isEmail);
    RequiredMaxIff(Get(values, "txtPassword"), 20, isEmail);
    RequiredMaxIff(Get(values, "txtConfermaPassword"), 20, isEmail);
  }

  /** The fields `inviaContatto` writes from a valid form. */
  function ContattoFields(values: Values, isEmail: string -> bool): (doc: Doc)
    requires Valid(ContattoForm, values, isEmail)
    ensures doc.Keys == {"nome", "cognome", "email", "numero", "data_nascita", "password", "conferma_password"}
  {
    ContattoFormValidIff(values, isEmail);
    map["nome" := Get(values, "txtNome").s,
        "cognome" := Get(values, "txtCognome").s,
        "email" := Get(values, "txtEmail").s,
        "numero" := Get(values, "txtNumero").s,
        "data_nascita" := Get(values, "txtData_Nascita").s,
        "password" := Get(values, "txtPassword").s,
        "conferma_password" := Get(values, "txtConfermaPassword").s]
  }

  /** The record a contact submit writes: every form value but the image
      control's, under its field name, with the confirmation equal to the
      password, and the image URL only when a file is selected. */
  lemma ContattoRecord(values: Values, isEmail: string -> bool, file: Option<File>, urlOf: string -> string)
    requires Valid(ContattoForm, values, isEmail)
    ensures var doc := Written(Contatti, ContattoFields(values, isEmail), file, urlOf);
            && doc.Keys == {"nome", "cognome", "email", "numero", "data_nascita", "password", "conferma_password"}
                           + (if file.Some? then {"immagine"} else {})
            && Get(values, "txtNome") == Text(doc["nome"])
            && Get(values, "txtCognome") == Text(doc["cognome"])
            && Get(values, "txtEmail") == Text(doc["email"]) && isEmail(doc["email"])
            && Get(values, "txtNumero") == Text(doc["numero"]) && IsIntegerText(doc["numero"])
            && Get(values, "txtData_Nascita") == Text(doc["data_nascita"]) && DatePattern(doc["data_nascita"])
            && Get(values, "txtPassword") == Text(doc["password"])
            && doc["conferma_password"] == doc["password"]
            && (file.Some? ==> doc["immagine"] == urlOf("images/contatti/" + file.value.name))
  {
    ContattoFormValidIff(values, isEmail);
    if file.Some? {
      ContattiPath(file.value.name);
    }
  }

  lemma ContattiPath(name: string)
    ensures ImagePath(Contatti, name) == "images/contatti/" + name
  {
  }

  /** `inviaContatto`: an invalid form only raises an alert and resolves;
      a valid one runs the upload-then-write procedure on `contatti`. */
  function InviaContatto(s: State, values: Values, isEmail: string -> bool, file: Option<File>,
                         editId: Option<string>, urlOf: string -> string, net: Net): (r: (State, Result<()>))
    requires s.Valid()
    ensures r.0.Valid()
    ensures r.0.articoli == s.articoli
    ensures !Valid(ContattoForm, values, isEmail) ==> r == (s, Ok(()))
  {
    if Valid(ContattoForm, values, isEmail) then
      Save(s, Contatti, ContattoFields(values, isEmail), file, editId, urlOf, net)
    else (s, Ok(()))
  }

  /** A contact submit's requests: none for an invalid form; otherwise an
      `update` of the edited contact only when an edit id is set and an
      `add` only when none is, writing the form's record, after the image's
      `put` at `images/contatti/<name>` and `getDownloadURL`. */
  lemma ContattoDispatch(s: State, values: Values, isEmail: string -> bool, file: Option<File>,
                         editId: Option<string>, urlOf: string -> string, net: Net)
    requires s.Valid()
    ensures var (s', r) := InviaContatto(s, values, isEmail, file, editId, urlOf, net);
            && |s.calls| <= |s'.calls| && s'.calls[..|s.calls|] == s.calls
            && var t := s'.calls[|s.calls|..];
            && (!Valid(ContattoForm, values, isEmail) ==> t == [])
            && (Valid(ContattoForm, values, isEmail) && r.Ok? ==>
                  Writes(t) == [WriteCall(Contatti, ContattoFields(values, isEmail), file, editId, urlOf)])
            && (forall i :: 0 <= i < |t| && t[i].Update? ==>
                  Truthy(editId) && t[i].id == editId.value && t[i].coll == Contatti)
            && (forall i :: 0 <= i < |t| && t[i].Add? ==> !Truthy(editId) && t[i].coll == Contatti)
            && (forall i :: 0 <= i < |t| && t[i].IsWrite() ==> i == |t| - 1)
            && (forall i :: 0 <= i < |t| && t[i].Put? ==>
                  i == 0 && file.Some? && t[i].path == "images/contatti/" + file.value.name)
  {
    if Valid(ContattoForm, values, isEmail) {
      SaveDispatch(s, Contatti, ContattoFields(values, isEmail), file, editId, urlOf, net);
      if file.Some? {
        ContattiPath(file.value.name);
      }
    }
  }

  /** The effect of a contact submit on the stored contacts: none when the
      form is invalid or the procedure throws; otherwise the record is merged
      into the edited contact or stored as a new one. */
  lemma ContattoEffect(s: State, values: Values, isEmail: string -> bool, file: Option<File>,
                       editId: Option<string>, urlOf: string -> string, net: Net)
    requires s.Valid()
    ensures var (s', r) := InviaContatto(s, values, isEmail, file, editId, urlOf, net);
            && (!Valid(ContattoForm, values, isEmail) || r.Err? ==> s'.contatti == s.contatti)
            && (!Valid(ContattoForm, values, isEmail) ==> r.Ok?)
            && (Valid(ContattoForm, values, isEmail) ==>
                  (r.Ok? <==> && !net.rejectWrite
                              && (file.Some? ==> !net.rejectPut && !net.rejectUrl)
                              && (Truthy(editId) ==> editId.value in s.contatti)))
            && (Valid(ContattoForm, values, isEmail) && r.Ok? ==>
                  var doc := Written(Contatti, ContattoFields(values, isEmail), file, urlOf);
                  if Truthy(editId) then
                    editId.value in s.contatti &&
                    s'.contatti == s.contatti[editId.value := s.contatti[editId.value] + doc]
                  else
                    GeneratedId(s.nextId) !in s.contatti &&
                    s'.contatti == s.contatti[GeneratedId(s.nextId) := doc])
  {
    if Valid(ContattoForm, values, isEmail) {
      SaveEffect(s, Contatti, ContattoFields(values, isEmail), file, editId, urlOf, net);
    }
  }

  /** `eliminaContatto`: deletes the contact with that id (a missing one
      included); a refused request rethrows and changes nothing. */
  function EliminaContatto(s: State, id: string, rejected: bool): (r: (State, Result<()>))
    requires s.Valid()
    ensures r.0.Valid()
    ensures r.0.calls == s.calls + [Delete(Contatti, id)]
    ensures r.0.articoli == s.articoli && r.0.blobs == s.blobs
    ensures r.1.Ok? <==> !rejected
    ensures r.1.Err? ==> r.0.contatti == s.contatti
    ensures r.1.Ok? ==> r.0.contatti.Keys == s.contatti.Keys - {id}
    ensures r.1.Ok? ==> forall k :: k in r.0.contatti ==> r.0.contatti[k] == s.contatti[k]
  {
    DeleteDoc(s, Contatti, id, rejected)
  }

  // ---------------------------------------------------------------------
  // Sorting by surname

  /** `localeCompare` as an order: `le(a, b)` when `a.localeCompare(b) <= 0`.
      A collation compares every pair of strings and is transitive. */
  ghost predicate TotalPreorder(le: (string, string) -> bool)
  {
    && (forall a, b :: le(a, b) || le(b, a))
    && (forall a, b, c :: le(a, b) && le(b, c) ==> le(a, c))
  }

  predicate AllHaveSurnames(objs: seq<Obj>)
  {
    forall i :: 0 <= i < |objs| ==> "cognome" in objs[i]
  }

  /** Every record before another has a surname ordered no later. */
  predicate SortedBySurname(objs: seq<Obj>, le: (string, string) -> bool)
  {
    forall i, j :: 0 <= i < j < |objs| ==>
      "cognome" in objs[i] && "cognome" in objs[j] && le(objs[i]["cognome"], objs[j]["cognome"])
  }

  /** Inserts `x` into a sorted sequence before the first record whose
      surname is ordered strictly after its own, so records with equal
      surnames keep their order. */
  function InsertBySurname(sorted: seq<Obj>, x: Obj, le: (string, string) -> bool): (r: seq<Obj>)
    requires TotalPreorder(le)
    requires AllHaveSurnames(sorted) && "cognome" in x
    requires SortedBySurname(sorted, le)
    ensures multiset(r) == multiset(sorted) + multiset{x}
    ensures AllHaveSurnames(r)
    ensures SortedBySurname(r, le)
  {
    if sorted == [] then [x]
    else if !le(sorted[0]["cognome"], x["cognome"]) then
      FirstIsLeast(sorted, x, le);
      [x] + sorted
    else
      var rest := InsertBySurname(sorted[1..], x, le);
      assert sorted == [sorted[0]] + sorted[1..];
      HeadBelowRest(sorted, x, rest, le);
      [sorted[0]] + rest
  }

  /** A record ordered strictly before the head of a sorted sequence can
      go in front of it. */
  lemma FirstIsLeast(sorted: seq<Obj>, x: Obj, le: (string, string) -> bool)
    requires TotalPreorder(le)
    requires AllHaveSurnames(sorted) && "cognome" in x && sorted != []
    requires SortedBySurname(sorted, le) && !le(sorted[0]["cognome"], x["cognome"])
    ensures AllHaveSurnames([x] + sorted) && SortedBySurname([x] + sorted, le)
  {
    var r := [x] + sorted;
    forall i, j | 0 <= i < j < |r|
      ensures "cognome" in r[i] && "cognome" in r[j] && le(r[i]["cognome"], r[j]["cognome"])
    {
      assert r[j] == sorted[j - 1];
      if i == 0 {
        assert le(x["cognome"], sorted[0]["cognome"]);
        if j > 1 {
          assert le(sorted[0]["cognome"], sorted[j - 1]["cognome"]);
        }
      } else {
        assert r[i] == sorted[i - 1];
      }
    }
  }

  /** The head of a sorted sequence goes in front of the rest with `x`
      inserted, when the head is ordered no later than `x`. */
  lemma HeadBelowRest(sorted: seq<Obj>, x: Obj, rest: seq<Obj>, le: (string, string) -> bool)
    requires TotalPreorder(le)
    requires AllHaveSurnames(sorted) && "cognome" in x && sorted != []
    requires SortedBySurname(sorted, le) && le(sorted[0]["cognome"], x["cognome"])
    requires multiset(rest) == multiset(sorted[1..]) + multiset{x}
    requires AllHaveSurnames(rest) && SortedBySurname(rest, le)
    ensures AllHaveSurnames([sorted[0]] + rest) && SortedBySurname([sorted[0]] + rest, le)
  {
    var r := [sorted[0]] + rest;
    forall k | 0 <= k < |rest|
      ensures le(sorted[0]["cognome"], rest[k]["cognome"])
    {
      var y := rest[k];
      assert y in multiset(rest);
      if y != x {
        assert y in multiset(sorted[1..]);
        var m :| 0 <= m < |sorted[1..]| && sorted[1..][m] == y;
        assert sorted[m + 1] == y;
      }
    }
    forall i, j | 0 <= i < j < |r|
      ensures "cognome" in r[i] && "cognome" in r[j] && le(r[i]["cognome"], r[j]["cognome"])
    {
      assert r[j] == rest[j - 1];
      if i > 0 {
        assert r[i] == rest[i - 1];
      }
    }
  }

  /** The service, which keeps the contacts it last loaded. */
  class ContattiService {
    var contatti: seq<Obj>
    /** The collation `localeCompare` uses. */
    const le: (string, string) -> bool

    constructor (le: (string, string) -> bool)
      requires TotalPreorder(le)
      ensures contatti == [] && this.le == le
    {
      contatti := [];
      this.le := le;
    }

    /** `ordinaContatti`: sorts the contacts by surname in place. Comparing
        reads each record's `cognome`; with two or more contacts, one without
        it makes the comparison throw and the contacts stay as they were. */
    method OrdinaContatti() returns (ok: bool)
      requires TotalPreorder(le)
      modifies this
      ensures ok <==> |old(contatti)| < 2 || AllHaveSurnames(old(contatti))
      ensures !ok ==> contatti == old(contatti)
      ensures ok ==> multiset(contatti) == multiset(old(contatti)) && SortedBySurname(contatti, le)
    {
      if |contatti| < 2 {
        return true;
      }
      if !AllHaveSurnames(contatti) {
        return false;
      }
      var sorted: seq<Obj> := [];
      var i := 0;
      while i < |contatti|
        invariant 0 <= i <= |contatti|
        invariant multiset(sorted) == multiset(contatti[..i])
        invariant AllHaveSurnames(sorted)
        invariant SortedBySurname(sorted, le)
      {
        sorted := InsertBySurname(sorted, contatti[i], le);
        assert contatti[..i + 1] == contatti[..i] + [contatti[i]];
        i := i + 1;
      }
      assert contatti[..i] == contatti;
      contatti := sorted;
      ok := true;
    }

    /** `caricaContatti`: replaces the kept contacts with the stored ones,
        as `{ id, ...data }`, then sorts them by surname and returns them. A
        refused query rethrows and keeps the old contacts; a sort that
        throws rethrows too, after the unsorted contacts were kept. */
    method CaricaContatti(s: State, rejected: bool) returns (r: Result<seq<Obj>>)
      requires TotalPreorder(le)
      modifies this
      ensures rejected ==> r == Err(Rejected) && contatti == old(contatti)
      ensures !rejected ==> exists objs :: Loaded(objs, s.contatti) && multiset(contatti) == multiset(objs)
      ensures !rejected ==> (r.Ok? <==> |contatti| < 2 || AllHaveSurnames(contatti))
      ensures r.Ok? ==> r.value == contatti && SortedBySurname(contatti, le)
      ensures !rejected && r.Err? ==> r.error == TypeError && Loaded(contatti, s.contatti)
    {
      if rejected {
        return Err(Rejected);
      }
      var snaps := List(s.contatti);
      contatti := Objects(snaps);
      ghost var loaded := contatti;
      assert Loaded(loaded, s.contatti);
      var ok := OrdinaContatti();
      if !ok {
        return Err(TypeError);
      }
      r := Ok(contatti);
    }
  }
}
