/** The contact page: a form of its own, declared like the service's but
    without the image control, whose submit only checks validity and resets
    the form; nothing is sent anywhere. */
module ContattiView {
  import opened Forms

  /** The component's form: the contact fields, their validators and the
      password-match validator, with no image control. */
  const ContattiComponentForm := Form([
    Field("txtNome", [Required, MaxLength(20)]),
    Field("txtCognome", [Required, MaxLength(20)]),
    Field("txtEmail", [Required, Email, MaxLength(20)]),
    Field("txtNumero", [Required, Numeric, MaxLength(20)]),
    Field("txtData_Nascita", [Required, DateFormat, MaxLength(20)]),
    Field("txtPassword", [Required, MaxLength(20)]),
    Field("txtConfermaPassword", [Required, MaxLength(20)])], true)

  /** The component's form has the contact controls without the image
      control, and the group's password-match validator. */
  lemma ContattiComponentFormControls()
    ensures Names(ContattiComponentForm) == {"txtNome", "txtCognome", "txtEmail", "txtNumero",
                                             "txtData_Nascita", "txtPassword", "txtConfermaPassword"}
    ensures "txtImmagine" !in Names(ContattiComponentForm)
    ensures ContattiComponentForm.matchPasswords
  {
    var f := ContattiComponentForm.fields;
    assert f[0].name == "txtNome" && f[1].name == "txtCognome";
    assert f[2].name == "txtEmail" && f[3].name == "txtNumero";
    assert f[4].name == "txtData_Nascita" && f[5].name == "txtPassword";
    assert f[6].name == "txtConfermaPassword";
  }

  /** The component's form's validity, control by control. */
  lemma ContattiComponentControls(values: Values, isEmail: string -> bool)
    ensures Valid(ContattiComponentForm, values, isEmail) <==>
              && Errors([Required, MaxLength(20)], Get(values, "txtNome"), isEmail) == {}
              && Errors([Required, MaxLength(20)], Get(values, "txtCognome"), isEmail) == {}
              && Errors([Required, Email, MaxLength(20)], Get(values, "txtEmail"), isEmail) == {}
              && Errors([Required, Numeric, MaxLength(20)], Get(values, "txtNumero"), isEmail) == {}
              && Errors([Required, DateFormat, MaxLength(20)], Get(values, "txtData_Nascita"), isEmail) == {}
              && Errors([Required, MaxLength(20)], Get(values, "txtPassword"), isEmail) == {}
              && Errors([Required, MaxLength(20)], Get(values, "txtConfermaPassword"), isEmail) == {}
              && Get(values, "txtConfermaPassword") == Get(values, "txtPassword")
  {
    var f := ContattiComponentForm.fields;
    assert f[0] == Field("txtNome", [Required, MaxLength(20)]);
    assert f[1] == Field("txtCognome", [Required, MaxLength(20)]);
    assert f[2] == Field("txtEmail", [Required, Email, MaxLength(20)]);
    assert f[3] == Field("txtNumero", [Required, Numeric, MaxLength(20)]);
    assert f[4] == Field("txtData_Nascita", [Required, DateFormat, MaxLength(20)]);
    assert f[5] == Field("txtPassword", [Required, MaxLength(20)]);
    assert f[6] == Field("txtConfermaPassword", [Required, MaxLength(20)]);
    assert |f| == 7 && f[7..] == [];
    ControlsValidFrom(f, 0, values, isEmail);
    ControlsValidFrom(f, 1, values, isEmail);
    ControlsValidFrom(f, 2, values, isEmail);
    ControlsValidFrom(f, 3, values, isEmail);
    ControlsValidFrom(f, 4, values, isEmail);
    ControlsValidFrom(f, 5, values, isEmail);
    ControlsValidFrom(f, 6, values, isEmail);
  }

  /** The component's form is valid exactly when name, surname and password
      hold 1 to 20 UTF-16 code units, the email holds 1 to 20 and
      matches the email pattern, the number holds 1 to 20 and
      reads as an integer, the birth date has the form dd/dd/dddd, and the
      confirmation equals the password. */
  lemma ContattiComponentFormValidIff(values: Values, isEmail: string -> bool)
    ensures var nome, cognome, email, numero, data, password :=
              Get(values, "txtNome"), Get(values, "txtCognome"), Get(values, "txtEmail"),
              Get(values, "txtNumero"), Get(values, "txtData_Nascita"), Get(values, "txtPassword");
            Valid(ContattiComponentForm, values, isEmail) <==>
              && Filled(nome, 20)
              && Filled(cognome, 20)
              && Filled(email, 20) && isEmail(email.s)
              && Filled(numero, 20) && IsIntegerText(numero.s)
              && data.Text? && DatePattern(data.s)
              && Filled(password, 20)
              && Get(values, "txtConfermaPassword") == password
  {
    ContattiComponentControls(values, isEmail);
    RequiredMaxIff(Get(values, "txtNome"), 20, isEmail);
    RequiredMaxIff(Get(values, "txtCognome"), 20, isEmail);
    RequiredCheckMaxIff(Email, Get(values, "txtEmail"), 20, isEmail);
    RequiredCheckMaxIff(Numeric, Get(values, "txtNumero"), 20, isEmail);
    RequiredCheckMaxIff(DateFormat, Get(values, "txtData_Nascita"), 20, isEmail);
    RequiredMaxIff(Get(values, "txtPassword"), 20, isEmail);
    RequiredMaxIff(Get(values, "txtConfermaPassword"), 20, isEmail);
  }

  class ContattiComponent {
    var myForm: Values
    /** The email pattern of `Validators.email`. */
    const isEmail: string -> bool

    constructor (isEmail: string -> bool)
      ensures myForm == Initial(ContattiComponentForm) && this.isEmail == isEmail
    {
      myForm := Initial(ContattiComponentForm);
      this.isEmail := isEmail;
    }

    /** `inviaContatto`: a valid form is reset (the sending itself is left
        unwritten); an invalid one only raises an alert and stays as it is. */
    method InviaContatto() returns (accepted: bool)
      modifies this
      ensures accepted <==> Valid(ContattiComponentForm, old(myForm), isEmail)
      ensures accepted ==> myForm == Reset(ContattiComponentForm)
      ensures !accepted ==> myForm == old(myForm)
    {
      accepted := Valid(ContattiComponentForm, myForm, isEmail);
      if accepted {
        myForm := Reset(ContattiComponentForm);
      }
    }
  }

  /** A second submit right after an accepted one is refused: the reset
      form holds nulls and `required` rejects them. Neither is the fresh
      form valid. */
  lemma ResetAndFreshInvalid(isEmail: string -> bool)
    ensures !Valid(ContattiComponentForm, Reset(ContattiComponentForm), isEmail)
    ensures !Valid(ContattiComponentForm, Initial(ContattiComponentForm), isEmail)
  {
    assert ContattiComponentForm.fields[0].name == "txtNome";
    ContattiComponentFormValidIff(Reset(ContattiComponentForm), isEmail);
    ContattiComponentFormValidIff(Initial(ContattiComponentForm), isEmail);
  }
}
