# Esempi-Form, modelled in Dafny

Esempi-Form is a small Angular front end over Firebase. It has two pages:

- **Articles.** A page for articles (title, author, text, image), backed by `ArticoloService`.
- **Contacts.** A page for contacts (name, surname, email, number, birth date, password with confirmation, image).
  - `ContattiService` offers the same operations for contacts.
  - It also keeps the loaded contacts sorted by surname.
  - The contact page's own component only validates its form and resets it.

This project models the logic those four files hold and proves what they promise.

| file | module | what it models |
|---|---|---|
| `wrappers.dfy` | `Wrappers` | `Option`, `Result` and the three ways a call ends in error: refused by the network or backend, not found, or a JavaScript `TypeError`. |
| `forms.dfy` | `Forms` | Angular reactive forms as the pages use them. A control holds `null` or a string; validators are `required`, `minLength`, `maxLength`, `email` and the three hand-written ones (`numericValidator`, `dateFormatValidator`, `passwordMatchValidator`). Also covers a control's error set, `form.valid`, the values `fb.group` starts with, `reset()` and `patchValue()`. |
| `store.dfy` | `Store` | Firestore and Firebase Storage as a value: the `articoli` and `contatti` collections (id to document), the blob store (path to file), the id generator and a log of the five requests that store or fetch something (`put`, `getDownloadURL`, `add`, `update`, `delete`). Each of these is a function from state to new state and outcome. `collection(...).get()` is not logged: it is a method that lists the documents in an order left open. `class Backend` is the shared backend object the pages update. |
| `submit.dfy` | `Submit` | The upload-then-write procedure both services run on a valid form: optional `put` and `getDownloadURL`, then `update` of the edited id or `add`. It comes with the sequence of requests it must issue and the documents it must leave behind. |
| `articoli.dfy` | `Articoli` | `ArticoloService`: the article form, `inviaArticolo`, `eliminaArticolo`, `caricaArticoli`. |
| `contatti.dfy` | `Contatti` | `ContattiService`: the contact form, `inviaContatto`, `eliminaContatto`, and the class with its `contatti` field, `caricaContatti` and `ordinaContatti`. |
| `articolo_component.dfy` | `ArticoloView` | `ArticoloComponent` as a class with the fields `myForm`, `selectedFile`, `articoli` and `articoloDaModificareId`, and the methods that update them. |
| `contatti_component.dfy` | `ContattiView` | `ContattiComponent`: its seven-field form and `inviaContatto`. |

External behaviour enters as parameters:

- **Email pattern.** `Validators.email`'s pattern is `isEmail`.
- **Collation.** `localeCompare` is `le`, a total preorder.
- **Download URLs.** The storage service's URLs come from `urlOf`.
- **Failures.** Whether the network or backend refuses a request is a boolean input (`rejected`, or the fields of `Submit.Net`).

Firestore semantics:

- `update` of a missing document fails with "not found"; otherwise it merges the sent fields into the stored ones.
- `delete` of a missing document succeeds.
- `add` stores the document under a fresh, non-empty id.

The contact component declares its own copies of the three hand-written validators (src/app/components/contatti/contatti.component.ts:6-37). They are textually identical to the service's, so both forms use the one definition, `Forms.Fails`. Every lemma about those validators below holds for both copies.

Behaviour of the code worth knowing:

- **The edit id is never cleared.** After a successful submit, the article component keeps `articoloDaModificareId`. The assignment `articoloDaModificareId = null` in the service (src/app/services/articolo.service.ts:116) only rebinds a parameter. So every later submit updates the same article again.
- **Editing an article that is not loaded throws.** `modificaArticolo` with an id that is not among the loaded articles reads `titolo` of `undefined`, which throws a `TypeError` before anything changes.
- **`numericValidator` accepts the empty string**, because `Number("")` is 0. Only `required` rejects an empty number.
- **`minLength` accepts the empty string** (and `null`), as Angular's validator does.
- **Lengths count UTF-16 code units.** `minLength` and `maxLength` compare JavaScript's `length`, in which a character above U+FFFF counts twice.
- **An invalid article form still resets.** For an invalid form the service only alerts and then resolves. The component therefore goes on to reload the articles and reset the form.

## Model

| member | source | states |
|---|---|---|
| Forms.Fails | src/app/services/contatti.service.ts:14-45 | An empty value (`null` or "") fails `required` and no other validator: `minLength`, `maxLength`, `email`, `numericValidator` and `dateFormatValidator` all pass it. |
| Forms.IsIntegerText | src/app/services/contatti.service.ts:14-21 | Every digit string reads as an integer, and a string that reads as one holds only digits, dots and a leading sign. |
| Forms.JsLengthExamples | src/app/services/articolo.service.ts:27 | Lengths are JavaScript's: "abc" has length 3, one character above U+FFFF has length 2, so it passes `minLength(2)` and fails `maxLength(1)`. |
| Forms.GroupErrors | src/app/services/contatti.service.ts:24-33 | The group validator's only possible error is the mismatch. It reports none exactly when the form does not carry it or the password and confirmation values are equal. |
| Forms.ValidIff | src/app/services/articolo.service.ts:72 | `form.valid` holds exactly when no validator of any control fails and, with the group validator attached, password and confirmation are equal. |
| Forms.ErrorsAre | src/app/services/contatti.service.ts:59-71 | A control's error set holds exactly the keys of the validators that fail on its value. Every validator runs and none short-circuits. |
| Forms.NoErrorsIff | src/app/services/contatti.service.ts:59-71 | A control has no error exactly when none of its validators fails. |
| Forms.RequiredIff | src/app/services/articolo.service.ts:28 | `required` alone accepts exactly a non-empty string. |
| Forms.RequiredMaxIff | src/app/services/articolo.service.ts:25-26 | `required` with `maxLength(n)` accepts exactly a string of 1 to n UTF-16 code units. |
| Forms.RequiredCheckMaxIff | src/app/services/contatti.service.ts:64-66 | `required`, a further validator and `maxLength(n)` accept exactly a string of 1 to n UTF-16 code units that the further validator accepts. |
| Forms.DateFormatIff | src/app/services/contatti.service.ts:36-45 | `dateFormatValidator` passes `null` and "". Any other value passes iff it has 10 characters, '/' at positions 2 and 5, and ASCII digits everywhere else. |
| Forms.DateFormatExamples | src/app/services/contatti.service.ts:36-45 | "01/01/2020" passes. "99/99/9999" passes too, since there is no calendar check. "1/1/2020" fails. |
| Forms.NumericAcceptsDigits | src/app/services/contatti.service.ts:14-21 | `numericValidator` passes every digit string, the empty string among them, and `null`. |
| Forms.NumericRejects | src/app/services/contatti.service.ts:14-21 | `numericValidator` rejects a value holding a character that occurs in no string `Number` reads as an integer: anything but JavaScript white space, digits, '.', signs, hexadecimal digits (the exponent letter among them) and the `x`/`o` prefix letters. |
| Forms.NumericExamples | src/app/services/contatti.service.ts:14-21 | "12.5", "abc" and "7kg" fail. "7.0" and "007" pass. |
| Forms.MismatchInvalidates | src/app/services/contatti.service.ts:24-33 | Setting either password control to a value different from the other's makes a form with the group validator invalid, whatever the other controls hold. |
| Forms.ValidMatches | src/app/services/contatti.service.ts:24-33 | A valid form with the group validator has equal password and confirmation values. |
| Forms.Initial | src/app/services/articolo.service.ts:24-29 | `fb.group` creates exactly the declared controls, each holding "". |
| Forms.Reset | src/app/components/articolo/articolo.component.ts:78 | `reset()` keeps the controls and sets each to `null`. |
| Forms.Patch | src/app/components/articolo/articolo.component.ts:107-111 | `patchValue` keeps the control set. It sets the controls named in the update and leaves every other control as it was; unknown names are ignored. |
| Store.AddDoc | src/app/services/articolo.service.ts:128-133 | `add` resolves with a non-empty id that no stored document of the collection had. The backend stays well formed. |
| Store.AddDocEffect | src/app/services/articolo.service.ts:128-133 | `add` is logged and resolves iff not refused. On success the collection gains exactly the new id, holding exactly the sent fields; every stored document is kept. A refused one stores nothing. The other collection and the blobs are untouched. |
| Store.PutFileEffect | src/app/services/articolo.service.ts:96 | `put` is logged and resolves iff not refused. On success the file is stored at its path; every other stored object is kept. A refused one stores nothing. No document changes. |
| Store.DownloadUrlEffect | src/app/services/articolo.service.ts:98 | `getDownloadURL` is logged and changes nothing else. It resolves with the object's URL iff the object is stored and the request is not refused; an absent object gives "not found". |
| Store.UpdateDocEffect | src/app/services/articolo.service.ts:100-112 | `update` is logged and resolves iff not refused and the document exists; a missing one gives "not found". On success every sent field is set, every unsent field is kept, and no other document changes or appears. A failed one changes nothing. |
| Store.DeleteDocEffect | src/app/services/articolo.service.ts:173 | `delete` is logged and resolves iff not refused, a missing document included. On success no document is left under the id and every other one is kept. A refused one changes nothing. |
| Store.List | src/app/services/articolo.service.ts:47 | `get()` lists every stored document exactly once, with its id and data, in some order. |
| Store.Objects | src/app/services/articolo.service.ts:50 | The mapping yields one record per document, in the listing's order, each `{ id, ...data }`. |
| Store.LoadedRecord | src/app/services/articolo.service.ts:50 | Every loaded record has an `id` and equals `{ id: d, ...data }` for some stored document `d`. |
| Store.LoadedCovers | src/app/services/articolo.service.ts:50 | Every stored document appears among the loaded records. |
| Submit.Upload | src/app/services/articolo.service.ts:94-98 | Uploading a file changes no document and does not advance the id generator. |
| Submit.Write | src/app/services/articolo.service.ts:100-142 | The write leaves the other collection untouched and the backend well formed. |
| Submit.Save | src/app/services/articolo.service.ts:90-146 | The whole procedure leaves the other collection untouched and the backend well formed. |
| Submit.UploadSteps | src/app/services/articolo.service.ts:94-98 | The upload issues `put` and then `getDownloadURL` at the same path, stopping after a refused `put`. It yields the URL of that path exactly when neither request is refused, and stores the file unless the `put` was refused. |
| Submit.WriteSteps | src/app/services/articolo.service.ts:100-142 | The write issues one request: `update` of the edit id when it is set (truthy), otherwise `add`. |
| Submit.WriteEffect | src/app/services/articolo.service.ts:100-142 | The write resolves iff it is not refused and, for an `update`, the edited document exists. A refused write fails as refused; an `update` of a missing document that is not refused fails with "not found". A failed write changes no document. A successful `update` merges the fields into the edited document, which must exist. A successful `add` stores them under a fresh id. Nothing else changes. |
| Submit.SaveFollowsRequests | src/app/services/articolo.service.ts:90-151 | The requests issued are a non-empty leading part of the reference sequence (`put`, `getDownloadURL`, write), stopping at the first refusal. The whole sequence is issued when the procedure resolves. |
| Submit.RequestsDispatch | src/app/services/articolo.service.ts:90-146 | The reference sequence holds exactly one write, and it is last. That write is an `update` of the edit id iff the id is set, otherwise an `add`, and it carries the written record. The `put` is first, at the file's path, and only when a file is selected. |
| Submit.PlanPrefix | src/app/services/articolo.service.ts:90-146 | In any leading part of the reference sequence, an `update` only targets the edit id, an `add` only occurs without one, the write is last, `put` comes first and `getDownloadURL` second, at the file's path. |
| Submit.SaveDispatch | src/app/services/articolo.service.ts:90-146 | Read off the request log: exactly the planned write when the procedure resolves. `update` only of the edited id, `add` only without an edit id, the write after every other request, and `put`/`getDownloadURL` only for a selected file at `images/<collection>/<name>`, before the write. |
| Submit.UploadFailureBlocksWrite | src/app/services/articolo.service.ts:92-105 | A refused `put` or `getDownloadURL` means no write is issued, no document changes, and the error is rethrown. |
| Submit.SaveEffect | src/app/services/articolo.service.ts:90-151 | The procedure resolves iff the write is not refused, with a file neither the `put` nor the URL request is refused, and with an edit id the edited document exists; otherwise it throws. Nothing changes in the documents when it throws. On success an update merges the record (with `immagine` only for an uploaded file) into the edited document, and an add stores it under a fresh id. The other collection never changes; the blob store gains only the selected file. |
| Submit.UpdateWithoutFileKeepsImage | src/app/services/articolo.service.ts:106-112 | An update without a file sends no `immagine`, so the edited document keeps its stored image and every other field the form does not send. |
| Articoli.ArticoloFormControls | src/app/services/articolo.service.ts:24-29 | The article form has exactly the title, author, text and image controls, and no group validator. |
| Articoli.ArticoloFormValidIff | src/app/services/articolo.service.ts:24-29 | The article form is valid iff the title has 1 to 30 UTF-16 code units, the author 1 to 20, the text 2 to 5000, and the image control is non-empty. |
| Articoli.ArticoloFields | src/app/services/articolo.service.ts:74-76 | A valid form yields exactly the fields `titolo`, `autore` and `testo`. |
| Articoli.ArticoliPath | src/app/services/articolo.service.ts:95 | Article images go to `images/articoli/<name>`. |
| Articoli.InviaArticolo | src/app/services/articolo.service.ts:70-156 | An invalid form changes nothing and resolves. In every case the contacts stay unchanged and the backend stays well formed. |
| Articoli.ArticoloRecord | src/app/services/articolo.service.ts:90-146 | The written record has exactly `titolo`, `autore`, `testo`, plus `immagine` only with a selected file. The first three equal the form's values and respect its length bounds in UTF-16 code units. `immagine` is the URL of `images/articoli/<name>`. |
| Articoli.ArticoloDispatch | src/app/services/articolo.service.ts:70-156 | An invalid form issues no request. Otherwise: exactly one write on success; `update` only of the edit id and only with one set; `add` only without one; the write last; `put` only first and only for a selected file, at `images/articoli/<name>`. |
| Articoli.ArticoloEffect | src/app/services/articolo.service.ts:70-156 | An invalid form resolves. A valid one resolves iff no request is refused and, with an edit id, the edited article exists; otherwise it throws. An invalid form or a thrown error leaves the articles unchanged. Otherwise the record is merged into the existing edited article or stored under a fresh id. |
| Articoli.EliminaArticolo | src/app/services/articolo.service.ts:162-179 | Issues one `delete`. On success exactly that id is gone, and the other articles, the contacts and the blobs are unchanged. A refusal is rethrown and changes nothing. |
| Articoli.CaricaArticoli | src/app/services/articolo.service.ts:36-56 | Resolves with every stored article as `{ id, ...data }`; a refused query is rethrown. |
| Contatti.ContattoFormControls | src/app/services/contatti.service.ts:59-71 | The contact form has exactly the name, surname, image, email, number, birth date, password and confirmation controls, and carries the password-match validator. |
| Contatti.ContattoFormValidIff | src/app/services/contatti.service.ts:59-71 | The contact form is valid iff all of these hold: name, surname and password have 1 to 20 UTF-16 code units; the image is non-empty; the email has 1 to 20 and matches the pattern; the number has 1 to 20 and reads as an integer; the birth date has the form dd/dd/dddd; the confirmation equals the password. |
| Contatti.ContattoFields | src/app/services/contatti.service.ts:122-128 | A valid form yields exactly `nome`, `cognome`, `email`, `numero`, `data_nascita`, `password` and `conferma_password`. |
| Contatti.ContattiPath | src/app/services/contatti.service.ts:147 | Contact images go to `images/contatti/<name>`. |
| Contatti.ContattoRecord | src/app/services/contatti.service.ts:151-209 | The written record has exactly the seven contact fields, plus `immagine` only with a selected file. Each field equals its form value. The email matches the pattern, the number is integral and the date well shaped. The confirmation equals the password. |
| Contatti.InviaContatto | src/app/services/contatti.service.ts:118-223 | An invalid form changes nothing and resolves. In every case the articles stay unchanged and the backend stays well formed. |
| Contatti.ContattoDispatch | src/app/services/contatti.service.ts:118-223 | An invalid form issues no request. Otherwise: exactly one write on success; `update` only of the edit id and only with one set; `add` only without one; the write last; `put` only first and only for a selected file, at `images/contatti/<name>`. |
| Contatti.ContattoEffect | src/app/services/contatti.service.ts:118-223 | An invalid form resolves. A valid one resolves iff no request is refused and, with an edit id, the edited contact exists; otherwise it throws. An invalid form or a thrown error leaves the contacts unchanged. Otherwise the record is merged into the existing edited contact or stored under a fresh id. |
| Contatti.EliminaContatto | src/app/services/contatti.service.ts:229-249 | Issues one `delete`. On success exactly that id is gone, and the other contacts, the articles and the blobs are unchanged. A refusal is rethrown and changes nothing. |
| Contatti.InsertBySurname | src/app/services/contatti.service.ts:255-257 | Inserting a record into a list sorted by surname gives a sorted list with the same records plus the new one. |
| Contatti.ContattiService.constructor | src/app/services/contatti.service.ts:51-53 | The service starts with no contacts. |
| Contatti.ContattiService.OrdinaContatti | src/app/services/contatti.service.ts:255-257 | After the sort, the contacts are a permutation of the previous ones, in ascending surname order under the collation. With two or more contacts and one lacking a surname, the comparison throws and the list is unchanged. |
| Contatti.ContattiService.CaricaContatti | src/app/services/contatti.service.ts:78-104 | A refused query is rethrown and `contatti` is not reassigned. Otherwise `contatti` becomes a permutation of the loaded records, and the call resolves with exactly `contatti`, sorted by surname, iff the sort does not throw. If it throws, the error is rethrown and the unsorted loaded records are kept. |
| ArticoloView.FindById | src/app/components/articolo/articolo.component.ts:105 | `find` yields the first loaded record whose `id` matches, or nothing when none does. |
| ArticoloView.EditValues | src/app/components/articolo/articolo.component.ts:107-111 | The edit patch names exactly the title, author and text controls. |
| ArticoloView.ArticoloComponent.constructor | src/app/components/articolo/articolo.component.ts:22-34 | The component starts with the article form's initial values, no file, no articles and no edit id. |
| ArticoloView.ArticoloComponent.CaricaArticoli | src/app/components/articolo/articolo.component.ts:49-57 | A successful load replaces `articoli` with the stored articles. A failed one keeps the old list. Nothing else changes. |
| ArticoloView.ArticoloComponent.NgOnInit | src/app/components/articolo/articolo.component.ts:40-43 | Initialisation loads the articles. |
| ArticoloView.ArticoloComponent.OnFileSelected | src/app/components/articolo/articolo.component.ts:63-66 | Each selection replaces `selectedFile`, possibly with none. Nothing else changes. |
| ArticoloView.ArticoloComponent.InviaArticolo | src/app/components/articolo/articolo.component.ts:71-83 | The backend takes the service's new state. When the service resolves (an invalid form included), the articles are reloaded and the form is reset. When it throws, both stay. `selectedFile` and the edit id are never cleared. |
| ArticoloView.ArticoloComponent.EliminaArticolo | src/app/components/articolo/articolo.component.ts:88-98 | The backend takes the delete's new state. The articles are reloaded only when the delete resolves. The form, file and edit id are unchanged. |
| ArticoloView.ArticoloComponent.ModificaArticolo | src/app/components/articolo/articolo.component.ts:103-114 | With a loaded article of that id, the form is patched from the first such article and the edit id is set. Without one, a `TypeError` is thrown and nothing changes. |
| ArticoloView.EditKeepsImage | src/app/components/articolo/articolo.component.ts:107-111 | Starting an edit fills title, author and text from the record (`null` for a missing field). The image control and the control set are left as they were. |
| ArticoloView.FreshAndResetInvalid | src/app/components/articolo/articolo.component.ts:33 | Neither the fresh nor a reset article form is valid. |
| ContattiView.ContattiComponentFormControls | src/app/components/contatti/contatti.component.ts:50-60 | The component's form has the seven contact controls, no image control, and carries the password-match validator. |
| ContattiView.ContattiComponentFormValidIff | src/app/components/contatti/contatti.component.ts:50-60 | The component's seven-field form is valid iff all of these hold: name, surname and password have 1 to 20 UTF-16 code units; the email has 1 to 20 and matches the pattern; the number has 1 to 20 and is integral; the date has the form dd/dd/dddd; the confirmation equals the password. |
| ContattiView.ContattiComponent.constructor | src/app/components/contatti/contatti.component.ts:49-61 | The component starts with every control of its form holding "". |
| ContattiView.ContattiComponent.InviaContatto | src/app/components/contatti/contatti.component.ts:64-89 | A submit is accepted iff the form is valid. An accepted one resets the form and changes nothing else. A refused one leaves the form as it was. |
| ContattiView.ResetAndFreshInvalid | src/app/components/contatti/contatti.component.ts:84 | After an accepted submit the reset form is invalid, and so is the fresh form. |

## Left out

- Firebase initialisation (`firebase.apps.length`, `initializeApp`) and obtaining the Firestore and Storage handles: these are SDK set-up. The backend is the `Store.State` value instead.
- Download URLs are the opaque function `urlOf`, and the id generator's scheme is not modelled, only that the ids it hands out are fresh and non-empty.
- `alert`, `console.log` and `console.error`, and the HTML templates: user-facing output only.
- `gestisciFileSelezionato` in both services: it only reads `files[0]` from a DOM event. `OnFileSelected` takes that file, or none, as its argument.
- The reloads that `inviaArticolo` and `eliminaArticolo` start without awaiting them: each component action is modelled as running to completion, so interleavings with a second submit are not modelled.
- The routing table and module declarations: configuration only.
- Forms.IsIntegerText: accepts the empty string, or an optional sign, ASCII digits and an optional all-zero fraction. It does not model the rest of JavaScript's `Number` coercion: surrounding whitespace, exponents, hexadecimal, binary and octal literals (`"0b1"`, `"0o7"`), `Infinity`, fractions lost to double rounding (`"1.0000000000000001"` reads as 1, an integer), or digit strings whose value exceeds `Number.MAX_VALUE` (about 1.8e308, such as 309 nines), which read as `Infinity` and are rejected. A long string of zeros, or "1" followed by 308 zeros, stays finite and is accepted, as in the model.
- Forms.NumericAcceptsDigits: states that every digit string passes; in JavaScript a digit string whose value exceeds `Number.MAX_VALUE` (about 1.8e308, such as 309 nines) reads as `Infinity` and fails, which the model does not capture.
- `Validators.email`'s pattern is the parameter `isEmail`, because the pattern is part of Angular, not of this repository.
- `localeCompare` is the parameter `le`, assumed to be a total preorder, because collation is locale-dependent.
- Contatti.ContattiService.OrdinaContatti: does not model which comparisons the engine's sort performs. A contact without `cognome` is modelled as making the sort throw whenever there are two or more contacts, even though the engine could throw only when that contact is the left operand. The order among contacts with equal surnames is not stated, though the insertion keeps it.
- Stored documents hold string fields only; other Firestore value types are not modelled.
