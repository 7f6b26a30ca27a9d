/** Angular reactive forms as both slices use them: a control's value, the
    built-in validators (required, minLength, maxLength, email), the three
    hand-written ones (numericValidator, dateFormatValidator,
    passwordMatchValidator), and the `valid`, `reset()` and `patchValue()`
    of a form group. */
module Forms {

  /** A control's value: `null` after `reset()`, otherwise the text typed.
      `Null` also stands for the `undefined` a control takes when patched
      from a missing property. The validators of the article form, the only
      form ever patched, treat the two alike; numericValidator
      (`Number(undefined)` is NaN) and passwordMatchValidator (`===`) would
      not, but their forms are never patched. */
  datatype Value = Null | Text(s: string)

  /** The controls' values, by control name. */
  type Values = map<string, Value>

  /** The validators a control can carry. `Email` stands for Angular's
      `Validators.email`, whose pattern is a parameter (`isEmail`). */
  datatype Check =
    | Required
    | MinLength(n: nat)
    | MaxLength(n: nat)
    | Email
    | Numeric
    | DateFormat

  /** The keys of a control's or the group's error map. */
  datatype ErrorKey =
    | RequiredError
    | MinLengthError
    | MaxLengthError
    | EmailError
    | NumericError
    | InvalidDateFormat
    | PasswordMismatch

  datatype Field = Field(name: string, checks: seq<Check>)

  /** A form group: its controls with their validators, and whether the
      group-level `passwordMatchValidator` is attached. */
  datatype Form = Form(fields: seq<Field>, matchPasswords: bool)

  /** `control.get(name)?.value`: an absent control reads as undefined. */
  function Get(values: Values, name: string): Value
  {
    if name in values then values[name] else Null
  }

  /** Angular's `isEmptyInputValue`: null, undefined or a zero-length string. */
  predicate IsEmptyInput(v: Value)
  {
    v.Null? || v.s == ""
  }

  predicate IsDigit(c: char)
  {
    '0' <= c <= '9'
  }

  predicate AllDigits(s: string)
  {
    forall i :: 0 <= i < |s| ==> IsDigit(s[i])
  }

  predicate AllZeros(s: string)
  {
    forall i :: 0 <= i < |s| ==> s[i] == '0'
  }

  /** The pattern `^\d{2}\/\d{2}\/\d{4}$` of dateFormatValidator, group by
      group. */
  predicate DatePattern(s: string)
  {
    && |s| == 10
    && AllDigits(s[0..2]) && s[2] == '/'
    && AllDigits(s[3..5]) && s[5] == '/'
    && AllDigits(s[6..10])
  }

  /** Position of the first '.' in `t`, or `|t|` when there is none. */
  function DotIndex(t: string): (k: nat)
    ensures k <= |t|
    ensures forall i :: 0 <= i < k ==> t[i] != '.'
    ensures k < |t| ==> t[k] == '.'
  {
    if t == [] || t[0] == '.' then 0 else 1 + DotIndex(t[1..])
  }

  /** `Number(t)` is an integer, for an unsigned decimal literal `t`: digits
      with an optional fraction of zeros only ("12", "12.", "12.00", ".0"). */
  predicate UnsignedIntegral(t: string)
  {
    var k := DotIndex(t);
    && AllDigits(t[..k])
    && (k == |t| || AllZeros(t[k + 1..]))
    && (k >= 1 || k + 1 < |t|)
  }

  /** A digit string with no dot is integral, and an integral literal holds
      only digits and dots. */
  lemma UnsignedFacts(t: string)
    ensures AllDigits(t) && t != [] ==> UnsignedIntegral(t)
    ensures UnsignedIntegral(t) ==> forall i :: 0 <= i < |t| ==> IsDigit(t[i]) || t[i] == '.'
  {
    var k := DotIndex(t);
    if AllDigits(t) && t != [] {
      assert k < |t| ==> IsDigit(t[k]);
      assert t[..k] == t;
    }
    if UnsignedIntegral(t) {
      forall i | 0 <= i < |t|
        ensures IsDigit(t[i]) || t[i] == '.'
      {
        if i < k {
          assert t[..k][i] == t[i];
        } else if i > k {
          assert t[k + 1..][i - k - 1] == t[i];
        }
      }
    }
  }

  /** `Number.isInteger(Number(s))` for the literals the model covers: the
      empty string (Number("") is 0) and an optionally signed decimal. Every
      digit string is accepted; an accepted string holds nothing but digits,
      dots and a leading sign. */
  predicate IsIntegerText(s: string)
    ensures AllDigits(s) ==> IsIntegerText(s)
    ensures IsIntegerText(s) ==>
              forall i :: 0 <= i < |s| ==> IsDigit(s[i]) || s[i] == '.' || (i == 0 && (s[i] == '+' || s[i] == '-'))
  {
    if s == "" then true
    else if s[0] == '+' || s[0] == '-' then
      UnsignedFacts(s[1..]);
      assert forall i :: 1 <= i < |s| ==> s[i] == s[1..][i - 1];
      UnsignedIntegral(s[1..])
    else
      UnsignedFacts(s);
      UnsignedIntegral(s)
  }

  /** `s.length` in JavaScript: the number of UTF-16 code units, two for a
      character above U+FFFF. */
  function JsLength(s: string): (n: nat)
    ensures |s| <= n <= 2 * |s|
  {
    if s == [] then 0 else (if s[0] as int > 0xFFFF then 2 else 1) + JsLength(s[1..])
  }

  /** Whether validator `c` reports an error for value `v`. An empty value
      (null or "") fails `required` and nothing else. */
  predicate Fails(c: Check, v: Value, isEmail: string -> bool)
    ensures IsEmptyInput(v) ==> (Fails(c, v, isEmail) <==> c == Required)
  {
    match c
    case Required => IsEmptyInput(v)
    // minLength and email let an empty value through; required catches it
    case MinLength(n) => !IsEmptyInput(v) && JsLength(v.s) < n
    case MaxLength(n) => v.Text? && JsLength(v.s) > n
    case Email => !IsEmptyInput(v) && !isEmail(v.s)
    // Number(null) is 0, an integer
    case Numeric => v.Text? && !IsIntegerText(v.s)
    // a falsy value (null or "") passes
    case DateFormat => !IsEmptyInput(v) && !DatePattern(v.s)
  }

  function KeyOf(c: Check): ErrorKey
  {
    match c
    case Required => RequiredError
    case MinLength(_) => MinLengthError
    case MaxLength(_) => MaxLengthError
    case Email => EmailError
    case Numeric => NumericError
    case DateFormat => InvalidDateFormat
  }

  /** A control's error map: every validator runs, none short-circuits. */
  function Errors(checks: seq<Check>, v: Value, isEmail: string -> bool): set<ErrorKey>
  {
    if checks == [] then {}
    else (if Fails(checks[0], v, isEmail) then {KeyOf(checks[0])} else {}) + Errors(checks[1..], v, isEmail)
  }

  /** passwordMatchValidator: compares the two password controls with `===`;
      its only error is a mismatch, and a form without it has none. */
  function GroupErrors(form: Form, values: Values): (errs: set<ErrorKey>)
    ensures errs <= {PasswordMismatch}
    ensures errs == {} <==> !form.matchPasswords || Get(values, "txtPassword") == Get(values, "txtConfermaPassword")
  {
    if form.matchPasswords && Get(values, "txtPassword") != Get(values, "txtConfermaPassword")
    then {PasswordMismatch} else {}
  }

  /** No control among `fields` has an error. */
  predicate ControlsValid(fields: seq<Field>, values: Values, isEmail: string -> bool)
  {
    fields == [] ||
    (Errors(fields[0].checks, Get(values, fields[0].name), isEmail) == {} &&
     ControlsValid(fields[1..], values, isEmail))
  }

  /** `form.valid`: no control and not the group has an error. */
  predicate Valid(form: Form, values: Values, isEmail: string -> bool)
  {
    ControlsValid(form.fields, values, isEmail) && GroupErrors(form, values) == {}
  }

  /** The controls from position k on are valid exactly when the k-th is
      and those after it are: a form's validity can be read off one control
      at a time. */
  lemma ControlsValidFrom(fields: seq<Field>, k: nat, values: Values, isEmail: string -> bool)
    requires k < |fields|
    ensures ControlsValid(fields[k..], values, isEmail) <==>
              Errors(fields[k].checks, Get(values, fields[k].name), isEmail) == {} &&
              ControlsValid(fields[k + 1..], values, isEmail)
  {
    assert fields[k..][0] == fields[k] && fields[k..][1..] == fields[k + 1..];
  }

  /** Read control by control, no control among `fields` has an error. */
  lemma {:induction false} ControlsValidIff(fields: seq<Field>, values: Values, isEmail: string -> bool)
    ensures ControlsValid(fields, values, isEmail) <==>
              forall i :: 0 <= i < |fields| ==> Errors(fields[i].checks, Get(values, fields[i].name), isEmail) == {}
  {
    if fields != [] {
      ControlsValidIff(fields[1..], values, isEmail);
      assert forall i :: 1 <= i < |fields| ==> fields[i] == fields[1..][i - 1];
    }
  }

  function Names(form: Form): set<string>
  {
    set i | 0 <= i < |form.fields| :: form.fields[i].name
  }

  /** The group as `fb.group` builds it: every control holds "". */
  function Initial(form: Form): (values: Values)
    ensures values.Keys == Names(form)
    ensures forall name :: name in values ==> values[name] == Text("")
  {
    map name | name in Names(form) :: Text("")
  }

  /** `reset()`: every control goes back to null. */
  function Reset(form: Form): (values: Values)
    ensures values.Keys == Names(form)
    ensures forall name :: name in values ==> values[name] == Null
  {
    map name | name in Names(form) :: Null
  }

  /** `patchValue(update)`: the controls named in `update` take its values,
      the others keep theirs, and names without a control are ignored. */
  function Patch(values: Values, update: Values): (r: Values)
    ensures r.Keys == values.Keys
    ensures forall name :: name in values && name in update ==> r[name] == update[name]
    ensures forall name :: name in values && name !in update ==> r[name] == values[name]
  {
    map name | name in values :: if name in update then update[name] else values[name]
  }

  /** A control's error map holds exactly the keys of the validators that
      fail. */
  lemma {:induction false} ErrorsAre(checks: seq<Check>, v: Value, isEmail: string -> bool, k: ErrorKey)
    ensures k in Errors(checks, v, isEmail) <==>
            exists i :: 0 <= i < |checks| && Fails(checks[i], v, isEmail) && KeyOf(checks[i]) == k
  {
    if checks != [] {
      ErrorsAre(checks[1..], v, isEmail, k);
      if k in Errors(checks[1..], v, isEmail) {
        var i :| 0 <= i < |checks[1..]| && Fails(checks[1..][i], v, isEmail) && KeyOf(checks[1..][i]) == k;
        assert checks[i + 1] == checks[1..][i];
      }
      if exists i :: 0 <= i < |checks| && Fails(checks[i], v, isEmail) && KeyOf(checks[i]) == k {
        var i :| 0 <= i < |checks| && Fails(checks[i], v, isEmail) && KeyOf(checks[i]) == k;
        if i > 0 {
          assert checks[1..][i - 1] == checks[i];
        }
      }
    }
  }

  /** A control has no error exactly when none of its validators fails. */
  lemma NoErrorsIff(checks: seq<Check>, v: Value, isEmail: string -> bool)
    ensures Errors(checks, v, isEmail) == {} <==> forall i :: 0 <= i < |checks| ==> !Fails(checks[i], v, isEmail)
  {
    if Errors(checks, v, isEmail) != {} {
      var k :| k in Errors(checks, v, isEmail);
      ErrorsAre(checks, v, isEmail, k);
    } else {
      forall i | 0 <= i < |checks|
        ensures !Fails(checks[i], v, isEmail)
      {
        ErrorsAre(checks, v, isEmail, KeyOf(checks[i]));
      }
    }
  }

  /** No control has an error exactly when no validator of any control
      fails. */
  lemma AllNoErrorsIff(form: Form, values: Values, isEmail: string -> bool)
    ensures ControlsValid(form.fields, values, isEmail) <==>
            (forall i, j :: 0 <= i < |form.fields| && 0 <= j < |form.fields[i].checks| ==>
               !Fails(form.fields[i].checks[j], Get(values, form.fields[i].name), isEmail))
  {
    ControlsValidIff(form.fields, values, isEmail);
    forall i | 0 <= i < |form.fields|
      ensures Errors(form.fields[i].checks, Get(values, form.fields[i].name), isEmail) == {} <==>
              forall j :: 0 <= j < |form.fields[i].checks| ==>
                !Fails(form.fields[i].checks[j], Get(values, form.fields[i].name), isEmail)
    {
      NoErrorsIff(form.fields[i].checks, Get(values, form.fields[i].name), isEmail);
    }
  }

  /** A form is valid exactly when no validator of any control fails and,
      with the group validator attached, the two password controls hold the
      same value. */
  lemma ValidIff(form: Form, values: Values, isEmail: string -> bool)
    ensures Valid(form, values, isEmail) <==>
              && (forall i, j :: 0 <= i < |form.fields| && 0 <= j < |form.fields[i].checks| ==>
                    !Fails(form.fields[i].checks[j], Get(values, form.fields[i].name), isEmail))
              && (form.matchPasswords ==> Get(values, "txtPassword") == Get(values, "txtConfermaPassword"))
  {
    AllNoErrorsIff(form, values, isEmail);
  }

  /** `required` alone: a non-empty text. */
  lemma RequiredIff(v: Value, isEmail: string -> bool)
    ensures Errors([Required], v, isEmail) == {} <==> v.Text? && v.s != ""
  {
    NoErrorsIff([Required], v, isEmail);
  }

  /** A value that `required` and `maxLength(n)` both accept: 1 to n
      UTF-16 code units. */
  predicate Filled(v: Value, n: nat)
  {
    v.Text? && 1 <= JsLength(v.s) <= n
  }

  /** `required` and `maxLength(n)`: a text of 1 to n UTF-16 code units. */
  lemma RequiredMaxIff(v: Value, n: nat, isEmail: string -> bool)
    ensures Errors([Required, MaxLength(n)], v, isEmail) == {} <==> Filled(v, n)
  {
    var checks := [Required, MaxLength(n)];
    NoErrorsIff(checks, v, isEmail);
    assert checks[0] == Required && checks[1] == MaxLength(n);
  }

  /** `required`, another validator `c` and `maxLength(n)`: a text of 1 to
      n UTF-16 code units that `c` accepts. */
  lemma RequiredCheckMaxIff(c: Check, v: Value, n: nat, isEmail: string -> bool)
    ensures Errors([Required, c, MaxLength(n)], v, isEmail) == {} <==>
            Filled(v, n) && !Fails(c, v, isEmail)
  {
    var checks := [Required, c, MaxLength(n)];
    NoErrorsIff(checks, v, isEmail);
    assert checks[0] == Required && checks[1] == c && checks[2] == MaxLength(n);
  }

  /** dateFormatValidator passes a falsy value, and any other value exactly
      when it is ten characters with '/' at positions 2 and 5 and ASCII digits
      everywhere else; there is no calendar check. */
  lemma DateFormatIff(v: Value, isEmail: string -> bool)
    ensures !Fails(DateFormat, v, isEmail) <==>
            || v == Null || v == Text("")
            || (&& |v.s| == 10 && v.s[2] == '/' && v.s[5] == '/'
                && forall i :: 0 <= i < 10 && i != 2 && i != 5 ==> IsDigit(v.s[i]))
  {
    if v.Text? && |v.s| == 10 {
      var s := v.s;
      assert (forall i :: 0 <= i < 10 && i != 2 && i != 5 ==> IsDigit(s[i])) <==>
             AllDigits(s[0..2]) && AllDigits(s[3..5]) && AllDigits(s[6..10]) by {
        if AllDigits(s[0..2]) && AllDigits(s[3..5]) && AllDigits(s[6..10]) {
          forall i | 0 <= i < 10 && i != 2 && i != 5
            ensures IsDigit(s[i])
          {
            if i < 2 { assert s[0..2][i] == s[i]; }
            else if i < 5 { assert s[3..5][i - 3] == s[i]; }
            else { assert s[6..10][i - 6] == s[i]; }
          }
        }
      }
    }
  }

  /** A well-shaped date passes, an impossible one passes too, a one-digit
      day fails. */
  lemma DateFormatExamples(isEmail: string -> bool)
    ensures !Fails(DateFormat, Text("01/01/2020"), isEmail)
    ensures !Fails(DateFormat, Text("99/99/9999"), isEmail)
    ensures Fails(DateFormat, Text("1/1/2020"), isEmail)
  {
    DateFormatIff(Text("01/01/2020"), isEmail);
    DateFormatIff(Text("99/99/9999"), isEmail);
    DateFormatIff(Text("1/1/2020"), isEmail);
  }

  /** numericValidator passes every digit string, the empty string and the
      null of a reset control; emptiness is left to `required`. */
  lemma {:induction false} NumericAcceptsDigits(s: string, isEmail: string -> bool)
    requires AllDigits(s)
    ensures !Fails(Numeric, Text(s), isEmail)
    ensures !Fails(Numeric, Null, isEmail)
  {
    if s != [] {
      var k := DotIndex(s);
      assert k < |s| ==> IsDigit(s[k]);
      assert s[..k] == s;
    }
  }

  /** A character of JavaScript's StrWhiteSpaceChar: the white space and
      line terminators `Number` trims around a numeric string. */
  predicate JsWhiteSpace(c: char)
  {
    c in {'\t', '\n', '\U{000B}', '\U{000C}', '\r', ' ', '\U{00A0}', '\U{1680}', '\U{2028}', '\U{2029}',
          '\U{202F}', '\U{205F}', '\U{3000}', '\U{FEFF}'} ||
    ('\U{2000}' <= c <= '\U{200A}')
  }

  /** A character that can occur in a string `Number` reads as an integer:
      white space, digits, '.', signs, the exponent letter, hexadecimal
      digits and the `0x`/`0o`/`0b` prefix letters. */
  predicate NumberLiteralChar(c: char)
  {
    JsWhiteSpace(c) || IsDigit(c) || c in {'.', '+', '-', 'x', 'X', 'o', 'O'} ||
    ('a' <= c <= 'f') || ('A' <= c <= 'F')
  }

  /** numericValidator rejects a value holding a character that occurs in
      no string `Number` reads as an integer. */
  lemma NumericRejects(s: string, j: nat, isEmail: string -> bool)
    requires j < |s|
    requires !NumberLiteralChar(s[j])
    ensures Fails(Numeric, Text(s), isEmail)
  {
    var t := if s[0] == '+' || s[0] == '-' then s[1..] else s;
    var off := |s| - |t|;
    assert off == 0 || off == 1;
    var jt := j - off;
    assert 0 <= jt < |t| && t[jt] == s[j];
    var k := DotIndex(t);
    if jt < k {
      assert t[..k][jt] == t[jt];
    } else {
      assert jt != k;
      assert t[k + 1..][jt - k - 1] == t[jt];
    }
  }

  /** `Number("12.5")` is not an integer; `Number("7.0")` and `Number("007")`
      are; `Number("abc")` and `Number("7kg")` are NaN. */
  lemma NumericExamples(isEmail: string -> bool)
    ensures Fails(Numeric, Text("12.5"), isEmail)
    ensures !Fails(Numeric, Text("7.0"), isEmail)
    ensures !Fails(Numeric, Text("007"), isEmail)
    ensures Fails(Numeric, Text("abc"), isEmail)
    ensures Fails(Numeric, Text("7kg"), isEmail)
  {
    assert DotIndex("12.5") == 2;
    assert "12.5"[3..][0] == '5';
    assert DotIndex("7.0") == 1;
    assert "7.0"[..1] == "7";
    assert "7.0"[2..] == "0";
    NumericAcceptsDigits("007", isEmail);
    assert DotIndex("abc") == 3 && "abc"[..3] == "abc";
    NumericRejects("7kg", 1, isEmail);
  }

  /** The group validator is re-evaluated on every change: setting either
      password control to a value different from the other control's makes
      a form carrying the validator invalid, whatever the other controls. */
  lemma MismatchInvalidates(form: Form, values: Values, name: string, x: Value, isEmail: string -> bool)
    requires form.matchPasswords
    requires name == "txtPassword" || name == "txtConfermaPassword"
    requires x != Get(values, if name == "txtPassword" then "txtConfermaPassword" else "txtPassword")
    ensures !Valid(form, values[name := x], isEmail)
  {
    var after := values[name := x];
    assert Get(after, name) == x;
    assert GroupErrors(form, after) == {PasswordMismatch};
  }

  /** With the group validator attached, a valid form has equal passwords. */
  lemma ValidMatches(form: Form, values: Values, isEmail: string -> bool)
    requires form.matchPasswords && Valid(form, values, isEmail)
    ensures Get(values, "txtPassword") == Get(values, "txtConfermaPassword")
  {
    assert PasswordMismatch !in GroupErrors(form, values);
  }

  /** Lengths count as JavaScript's `length` does: one character above
      U+FFFF counts twice, so it satisfies `minLength(2)`. */
  lemma JsLengthExamples(isEmail: string -> bool)
    ensures JsLength("abc") == 3
    ensures JsLength("\U{1F600}") == 2
    ensures !Fails(MinLength(2), Text("\U{1F600}"), isEmail)
    ensures Fails(MaxLength(1), Text("\U{1F600}"), isEmail)
  {
  }
}
