/** The registration page: the rule table of its form, its two custom
    validators, the cascade that turns a control's errors into one message,
    the gating that decides when an error is shown, the normalisation of
    values before submission, the submit handler and the two visibility
    toggles. The controls are the seven fields of the validation service. */
module Registrate {
  import opened Js
  import opened Forms
  import opened Validators

  /** The controls of the registration form, in declaration order. */
  const Controls: seq<Field> :=
    [Nombres, Apellidos, Email, Telefono, Password, PasswordConfirmation, Terminos]
  const ControlSet: set<Field> :=
    {Nombres, Apellidos, Email, Telefono, Password, PasswordConfirmation, Terminos}

  /** Every field is a control of the form. */
  lemma IsControl(f: Field)
    ensures f in ControlSet
  {
  }

  // ----- the rule table -----

  /** `/^[a-zA-ZáéíóúÁÉÍÓÚñÑ\s]+$/`: one or more letters or spaces. On a
      single character it agrees with the validation service's expression,
      which lacks the `+`. */
  predicate NamePattern(s: string)
    ensures |s| == 1 ==> (NamePattern(s) <==> NameRegex(s))
  {
    |s| >= 1 && forall k :: 0 <= k < |s| ==> IsNameChar(s[k])
  }

  /** The class `[0-9+\-\s()]`. */
  predicate IsPhonePatternChar(c: char)
  {
    IsAsciiDigit(c) || c == '+' || c == '-' || c == '(' || c == ')' || IsWhitespace(c)
  }

  /** `/^[0-9+\-\s()]{10,15}$/`. No string it accepts passes the
      validation service's nine-digit expression as it stands. */
  predicate PhonePattern(s: string)
    ensures PhonePattern(s) ==> !PhoneRegex(s)
  {
    10 <= |s| <= 15 && forall k :: 0 <= k < |s| ==> IsPhonePatternChar(s[k])
  }

  /** The class `[#?!@$%^&*-]` of the special-character test, which is
      computed but never consulted. */
  predicate IsStrengthSpecial(c: char)
  {
    c == '#' || c == '?' || c == '!' || c == '@' || c == '$' || c == '%' || c == '^' || c == '&' || c == '*' || c == '-'
  }

  /** `passwordStrengthValidator`: nothing for an empty value; otherwise
      `passwordStrength` when the value lacks an ASCII digit, an upper-case
      or a lower-case letter. */
  function PasswordStrengthValidator(value: string): (errs: set<ErrorKey>)
    ensures errs <= {PasswordStrengthKey}
    ensures value == "" ==> errs == {}
    ensures value != "" ==> (errs == {} <==>
      Contains(value, IsAsciiDigit) && Contains(value, IsAsciiUpper) && Contains(value, IsAsciiLower))
  {
    if value == "" then {}
    else if Contains(value, IsAsciiDigit) && Contains(value, IsAsciiUpper) && Contains(value, IsAsciiLower) then {}
    else {PasswordStrengthKey}
  }

  /** `passwordMatchValidator`, the form-level validator: nothing when either
      control is missing, otherwise `passwordMismatch` exactly when the two
      values are not strictly equal. Nothing is trimmed. */
  function PasswordMatchValidator(values: map<Field, Value>): (errs: set<ErrorKey>)
    ensures errs <= {PasswordMismatchKey}
    ensures Password !in values || PasswordConfirmation !in values ==> errs == {}
    ensures Password in values && PasswordConfirmation in values ==>
      (errs == {} <==> values[Password] == values[PasswordConfirmation])
  {
    if Password !in values || PasswordConfirmation !in values then {}
    else if values[Password] == values[PasswordConfirmation] then {}
    else {PasswordMismatchKey}
  }

  /** The validator list `createForm` gives each control: a presence
      validator first, and length bounds that some length satisfies. */
  function Rules(f: Field): (rules: seq<Rule>)
    ensures rules != [] && (if f == Terminos then rules[0].RequiredTrue? else rules[0].Required?)
    ensures forall i, j :: 0 <= i < |rules| && 0 <= j < |rules| && rules[i].MinLength? && rules[j].MaxLength? ==>
      rules[i].min <= rules[j].max
  {
    match f
    case Nombres | Apellidos => [Required, MinLength(2), MaxLength(50), Pattern(NamePattern)]
    case Email => [Required, EmailFormat]
    case Telefono => [Required, Pattern(PhonePattern)]
    case Password => [Required, MinLength(8), MaxLength(50), Custom(PasswordStrengthValidator)]
    case PasswordConfirmation => [Required]
    case Terminos => [RequiredTrue]
  }

  /** The keys each control's validators can report. */
  function ControlKeys(f: Field): set<ErrorKey>
  {
    match f
    case Nombres | Apellidos => {RequiredKey, MinLengthKey, MaxLengthKey, PatternKey}
    case Email => {RequiredKey, EmailKey}
    case Telefono => {RequiredKey, PatternKey}
    case Password => {RequiredKey, MinLengthKey, MaxLengthKey, PasswordStrengthKey}
    case PasswordConfirmation | Terminos => {RequiredKey}
  }

  /** A value of the type its control holds: a string for a text control. */
  predicate Typed(f: Field, v: Value)
  {
    f != Terminos ==> v.Text?
  }

  /** The error keys a control carries for a value, by its rule list; only
      keys its validators can report. */
  function ControlErrors(f: Field, v: Value, emailOk: string -> bool): (errs: set<ErrorKey>)
    requires Typed(f, v)
    ensures errs <= ControlKeys(f)
  {
    var rules := Rules(f);
    var errs := ErrorsOf(rules, v, emailOk);
    assert forall key :: key in errs ==> key in ControlKeys(f) by {
      forall key | key in errs ensures key in ControlKeys(f) {
        var i :| 0 <= i < |rules| && key in RuleErrors(rules[i], v, emailOk);
      }
    }
    errs
  }

  /** What each control accepts, read off its rule list: present, within its
      length bounds, and matching its pattern or validator. */
  predicate Accepts(f: Field, v: Value, emailOk: string -> bool)
    requires Typed(f, v)
  {
    match f
    case Nombres | Apellidos => 2 <= |v.s| <= 50 && NamePattern(v.s)
    case Email => v.s != "" && emailOk(v.s)
    case Telefono => PhonePattern(v.s)
    case Password =>
      8 <= |v.s| <= 50 && Contains(v.s, IsAsciiDigit) && Contains(v.s, IsAsciiUpper) && Contains(v.s, IsAsciiLower)
    case PasswordConfirmation => v.s != ""
    case Terminos => v == Flag(true)
  }

  // ----- getErrorMessage -----

  /** The messages of the cascade; the three name messages follow the
      field's own word. */
  const AcceptTerms: string := "Debes aceptar los términos y condiciones"
  const NameTooShort: string := " debe tener al menos 2 caracteres"
  const NameTooLong: string := " no puede exceder 50 caracteres"
  const NameNotLetters: string := " solo puede contener letras"
  const EnterValidEmail: string := "Ingresa un email válido"
  const EnterValidPhone: string := "Ingresa un número de teléfono válido"
  const PasswordTooShort: string := "La contraseña debe tener al menos 8 caracteres"
  const PasswordTooLong: string := "La contraseña no puede exceder 50 caracteres"
  const PasswordWeak: string := "La contraseña debe contener al menos una mayúscula, una minúscula y un número"
  const PasswordsDiffer: string := "Las contraseñas no coinciden"

  /** The `fieldLabels` map; `terminos` has no entry. */
  function FieldLabel(f: Field): Option<string>
  {
    match f
    case Nombres => Some("Nombres")
    case Apellidos => Some("Apellidos")
    case Email => Some("Email")
    case Telefono => Some("Teléfono")
    case Password => Some("Contraseña")
    case PasswordConfirmation => Some("Confirmación de contraseña")
    case Terminos => None
  }

  /** A label as the template literal prints it: a missing entry is the
      text `undefined`. */
  function LabelText(f: Field): string
  {
    match FieldLabel(f)
    case Some(text) => text
    case None => "undefined"
  }

  function NameWord(f: Field): string
  {
    if f == Nombres then "Nombres" else "Apellidos"
  }

  /** The cascade's tests after `required`, field by field, in order. */
  function FieldEntries(f: Field): (table: seq<Entry>)
    ensures MessagesNonEmpty(table)
  {
    match f
    case Terminos =>
      [(OnControl(RequiredTrueKey), AcceptTerms)]
    case Nombres | Apellidos =>
      [(OnControl(MinLengthKey), NameWord(f) + NameTooShort),
       (OnControl(MaxLengthKey), NameWord(f) + NameTooLong),
       (OnControl(PatternKey), NameWord(f) + NameNotLetters)]
    case Email =>
      [(OnControl(EmailKey), EnterValidEmail),
       (OnControl(PatternKey), EnterValidEmail)]
    case Telefono =>
      [(OnControl(PatternKey), EnterValidPhone)]
    case Password =>
      [(OnControl(MinLengthKey), PasswordTooShort),
       (OnControl(MaxLengthKey), PasswordTooLong),
       (OnControl(PasswordStrengthKey), PasswordWeak)]
    case PasswordConfirmation =>
      [(OnForm(PasswordMismatchKey), PasswordsDiffer)]
  }

  /** The message table of a field: `required` first, for every field. */
  function Priority(f: Field): (table: seq<Entry>)
    ensures MessagesNonEmpty(table)
  {
    var rest := FieldEntries(f);
    assert forall i :: 1 <= i < |rest| + 1 ==> ([(OnControl(RequiredKey), LabelText(f) + RequiredSuffix)] + rest)[i] == rest[i - 1];
    [(OnControl(RequiredKey), LabelText(f) + RequiredSuffix)] + FieldEntries(f)
  }

  /** `getErrorMessage` for a control, over its error keys and the form
      group's: the message of the first test of its table that fires. */
  function ErrorMessage(f: Field, control: set<ErrorKey>, form: set<ErrorKey>): (r: string)
    ensures r == FirstMatch(Priority(f), control, form)
  {
    if RequiredKey in control then
      LabelText(f) + RequiredSuffix
    else
      assert Priority(f)[1..] == FieldEntries(f);
      FieldMessage(f, control, form)
  }

  /** The cascade below the `required` test: the terms' own test, then the
      block of tests of the named field. */
  function FieldMessage(f: Field, control: set<ErrorKey>, form: set<ErrorKey>): (r: string)
    ensures r == FirstMatch(FieldEntries(f), control, form)
  {
    match f
    case Terminos =>
      if RequiredTrueKey in control then AcceptTerms else ""
    case Nombres | Apellidos => NameMessage(f, control, form)
    case Email =>
      if EmailKey in control || PatternKey in control then EnterValidEmail else ""
    case Telefono =>
      if PatternKey in control then EnterValidPhone else ""
    case Password => PasswordMessage(control, form)
    case PasswordConfirmation =>
      if PasswordMismatchKey in form then PasswordsDiffer else ""
  }

  /** The block of tests of a name or surname. */
  function NameMessage(f: Field, control: set<ErrorKey>, form: set<ErrorKey>): (r: string)
    requires f == Nombres || f == Apellidos
    ensures r == FirstMatch(FieldEntries(f), control, form)
  {
    if MinLengthKey in control then NameWord(f) + NameTooShort
    else if MaxLengthKey in control then NameWord(f) + NameTooLong
    else if PatternKey in control then
      FirstMatchPriority(FieldEntries(f), control, form, 2);
      NameWord(f) + NameNotLetters
    else ""
  }

  /** The block of tests of the password. */
  function PasswordMessage(control: set<ErrorKey>, form: set<ErrorKey>): (r: string)
    ensures r == FirstMatch(FieldEntries(Password), control, form)
  {
    if MinLengthKey in control then PasswordTooShort
    else if MaxLengthKey in control then PasswordTooLong
    else if PasswordStrengthKey in control then
      FirstMatchPriority(FieldEntries(Password), control, form, 2);
      PasswordWeak
    else ""
  }

  // ----- trimFormData -----

  /** The values of a registration form: one per control, a string for each
      text control and a boolean for the terms. */
  predicate WellFormed(values: map<Field, Value>)
  {
    (forall f: Field :: f in values) &&
    (forall f :: f in values && f != Terminos ==> values[f].Text?) &&
    values[Terminos].Flag?
  }

  /** `trimFormData`: names trimmed, the e-mail trimmed and lower-cased, the
      telephone trimmed and stripped of all whitespace; nothing else changes. */
  function Trimmed(values: map<Field, Value>): (r: map<Field, Value>)
    requires WellFormed(values)
    ensures WellFormed(r)
    ensures forall f :: f in values && f !in {Nombres, Apellidos, Email, Telefono} ==> r[f] == values[f]
  {
    map f | f in values :: Normalised(f, values[f])
  }

  /** The new value of one control. */
  function Normalised(f: Field, v: Value): Value
  {
    match f
    case Nombres | Apellidos => if v.Text? then Text(Trim(v.s)) else v
    case Email => if v.Text? then Text(ToLower(Trim(v.s))) else v
    case Telefono => if v.Text? then Text(RemoveWhitespace(Trim(v.s))) else v
    case _ => v
  }

  /** The payload handed on: every value but the confirmation. */
  function Payload(values: map<Field, Value>): (p: map<Field, Value>)
    ensures p.Keys == values.Keys - {PasswordConfirmation}
    ensures forall f :: f in p ==> p[f] == values[f]
  {
    values - {PasswordConfirmation}
  }

  /** The values `createForm` starts with. */
  function InitialValues(): (values: map<Field, Value>)
    ensures WellFormed(values)
    ensures values[Terminos] == Flag(false)
    ensures forall f :: f != Terminos ==> values[f] == Text("")
  {
    var values := map f | f in ControlSet :: if f == Terminos then Flag(false) else Text("");
    assert forall f: Field :: f in values by {
      forall f: Field ensures f in values { IsControl(f); }
    }
    values
  }

  // ----- the page -----

  class RegistratePage {
    var values: map<Field, Value>
    var touched: set<Field>
    var dirty: set<Field>
    var isSubmitted: bool
    var inputType: string
    var inputTypeConfirm: string
    /** The expression inside Angular's `Validators.email`, which is not modelled. */
    const emailOk: string -> bool

    ghost predicate Valid()
      reads this`values, this`inputType, this`inputTypeConfirm
    {
      WellFormed(values) && IsInputType(inputType) && IsInputType(inputTypeConfirm)
    }

    /** The page after `ngOnInit` has run `createForm`. */
    constructor (emailOk: string -> bool)
      ensures Valid() && this.emailOk == emailOk
      ensures values == InitialValues() && touched == {} && dirty == {} && !isSubmitted
      ensures inputType == "password" && inputTypeConfirm == "password"
    {
      this.emailOk := emailOk;
      values := InitialValues();
      touched, dirty, isSubmitted := {}, {}, false;
      inputType, inputTypeConfirm := "password", "password";
    }

    /** The errors of a control. */
    function Errors(f: Field): set<ErrorKey>
      reads this`values
      requires WellFormed(values)
    {
      ControlErrors(f, values[f], emailOk)
    }

    /** The form group's own errors. */
    function FormErrors(): set<ErrorKey>
      reads this`values
    {
      PasswordMatchValidator(values)
    }

    /** `registroForm.invalid`: some control or the group has an error;
        that is, some field has something to report, or equally, some
        control refuses its value or the two passwords differ. */
    predicate Invalid()
      reads this`values
      requires WellFormed(values)
      ensures Invalid() <==> exists f :: Reports(f)
      ensures Invalid() <==>
        !(forall f :: Accepts(f, values[f], emailOk)) || values[Password] != values[PasswordConfirmation]
    {
      AllAcceptedIff(values, emailOk);
      assert forall f :: Errors(f) == ControlErrors(f, values[f], emailOk);
      assert forall f :: Errors(f) != {} ==> Reports(f);
      assert FormErrors() != {} ==> Reports(PasswordConfirmation);
      assert Password in values && PasswordConfirmation in values;
      (exists f :: Errors(f) != {}) || FormErrors() != {}
    }

    /** The field has something to report: an error of its own or, for the
        confirmation, a mismatch of the group. */
    predicate Reports(f: Field)
      reads this`values
      requires WellFormed(values)
    {
      Errors(f) != {} || (f == PasswordConfirmation && PasswordMismatchKey in FormErrors())
    }

    /** `getErrorMessage`: nothing for a name with no control; otherwise a
        message exactly when the control has something to report. */
    function GetErrorMessage(fieldName: string): (r: string)
      reads this`values
      requires WellFormed(values)
      ensures FieldNamed(fieldName).None? ==> r == ""
      ensures FieldNamed(fieldName).Some? ==> (r != "" <==> Reports(FieldNamed(fieldName).value))
    {
      match FieldNamed(fieldName)
      case None => ""
      case Some(f) =>
        MessageIffErrors(f, Errors(f), FormErrors());
        ErrorMessage(f, Errors(f), FormErrors())
    }

    /** `hasError`: an invalid control the user has edited or left, or any
        invalid control once a submit was attempted; the confirmation also
        whenever the passwords differ, whatever its state. */
    predicate HasError(fieldName: string)
      reads this`values, this`dirty, this`touched, this`isSubmitted
      requires WellFormed(values)
      ensures HasError(fieldName) ==> FieldNamed(fieldName).Some? && Reports(FieldNamed(fieldName).value)
      ensures FieldNamed(fieldName).Some? ==>
        var f := FieldNamed(fieldName).value;
        (f in dirty || f in touched || isSubmitted ==> (HasError(fieldName) <==> Reports(f))) &&
        (f !in dirty && f !in touched && !isSubmitted ==>
          (HasError(fieldName) <==> f == PasswordConfirmation && PasswordMismatchKey in FormErrors()))
    {
      match FieldNamed(fieldName)
      case None => false
      case Some(f) =>
        (Errors(f) != {} && (f in dirty || f in touched || isSubmitted))
        || (f == PasswordConfirmation && PasswordMismatchKey in FormErrors())
    }

    /** `trimFormData`, which patches the four normalised values. */
    method TrimFormData()
      requires Valid()
      modifies this`values
      ensures Valid()
      ensures values == Trimmed(old(values))
    {
      values := Trimmed(values);
    }

    /** `Registrarse`: mark the attempt and normalise; then either mark every
        control touched and stop with the error toast, or hand on every value
        but the confirmation and go to the login page. */
    method Registrarse() returns (result: Submission<Field>)
      requires Valid()
      modifies this`values, this`touched, this`isSubmitted
      ensures Valid() && isSubmitted
      ensures values == Trimmed(old(values))
      ensures Invalid() ==> touched == old(touched) + ControlSet && result == Rejected(CorrectErrorsToast)
      ensures !Invalid() ==> touched == old(touched) && result == Sent(Payload(values), "/login")
    {
      isSubmitted := true;
      TrimFormData();
      if Invalid() {
        MarkAllAsTouched();
        return Rejected(CorrectErrorsToast);
      }
      return Sent(Payload(values), "/login");
    }

    /** The `forEach` over the form's controls that marks each one touched. */
    method MarkAllAsTouched()
      modifies this`touched
      ensures touched == old(touched) + ControlSet
    {
      var i := 0;
      while i < |Controls|
        invariant 0 <= i <= |Controls|
        invariant touched == old(touched) + set k | k in Controls[..i]
      {
        touched := touched + {Controls[i]};
        i := i + 1;
      }
      assert Controls[..|Controls|] == Controls;
      assert (set k | k in Controls) == ControlSet;
    }

    /** `togglePasswordVisibility`. */
    method TogglePasswordVisibility()
      requires Valid()
      modifies this`inputType
      ensures Valid() && inputType == Toggled(old(inputType))
    {
      inputType := Toggled(inputType);
    }

    /** `togglePasswordConfirmVisibility`. */
    method TogglePasswordConfirmVisibility()
      requires Valid()
      modifies this`inputTypeConfirm
      ensures Valid() && inputTypeConfirm == Toggled(old(inputTypeConfirm))
    {
      inputTypeConfirm := Toggled(inputTypeConfirm);
    }
  }

  // ----- what the page promises -----

  /** Each table tests every key its control can carry. */
  lemma PriorityCovers(f: Field)
    ensures Covers(Priority(f), ControlKeys(f))
  {
    var t := Priority(f);
    assert t[0].0 == OnControl(RequiredKey);
    match f
    case Nombres | Apellidos =>
      assert t[1].0 == OnControl(MinLengthKey) && t[2].0 == OnControl(MaxLengthKey) && t[3].0 == OnControl(PatternKey);
    case Password =>
      assert t[1].0 == OnControl(MinLengthKey) && t[2].0 == OnControl(MaxLengthKey) && t[3].0 == OnControl(PasswordStrengthKey);
    case Email =>
      assert t[1].0 == OnControl(EmailKey);
    case Telefono =>
      assert t[1].0 == OnControl(PatternKey);
    case PasswordConfirmation | Terminos =>
  }

  /** A field's message is non-empty exactly when its control has an error,
      or, for the confirmation, when the form reports a mismatch. */
  lemma MessageIffErrors(f: Field, control: set<ErrorKey>, form: set<ErrorKey>)
    requires control <= ControlKeys(f)
    ensures ErrorMessage(f, control, form) != "" <==>
      control != {} || (f == PasswordConfirmation && PasswordMismatchKey in form)
  {
    PriorityCovers(f);
    FirstMatchReportsAll(Priority(f), control, form, ControlKeys(f));
    FormFiresOnMismatch(f, form);
  }

  /** The only test of the form group is the confirmation's mismatch test. */
  lemma FormFiresOnMismatch(f: Field, form: set<ErrorKey>)
    ensures FormFires(Priority(f), form) <==> f == PasswordConfirmation && PasswordMismatchKey in form
  {
    var t := Priority(f);
    if FormFires(t, form) {
      var i :| 0 <= i < |t| && t[i].0.OnForm? && t[i].0.key in form;
      assert i != 0;
      assert FieldEntries(f)[i - 1] == t[i];
    }
    if f == PasswordConfirmation && PasswordMismatchKey in form {
      assert t[1].0 == OnForm(PasswordMismatchKey);
    }
  }

  /** `required` outranks every other error of the field. */
  lemma RequiredOutranks(f: Field, control: set<ErrorKey>, form: set<ErrorKey>)
    requires RequiredKey in control
    ensures ErrorMessage(f, control, form) == LabelText(f) + RequiredSuffix
  {
  }

  /** `terminos` has no label, so its `required` error reads "undefined es
      requerido"; since `requiredTrue` reports under `required`, the terms'
      own message is never reached. */
  lemma TermsMessage(v: Value, emailOk: string -> bool, form: set<ErrorKey>)
    ensures ErrorMessage(Terminos, ControlErrors(Terminos, v, emailOk), form) ==
      if v == Flag(true) then "" else "undefined" + RequiredSuffix
  {
    var errs := ControlErrors(Terminos, v, emailOk);
    assert errs == RuleErrors(RequiredTrue, v, emailOk) by {
      assert Rules(Terminos) == [RequiredTrue];
    }
    assert LabelText(Terminos) == "undefined";
  }

  /** For names and for the password, a too-short value is reported before
      a too-long or malformed one. */
  lemma MinLengthFirst(f: Field, control: set<ErrorKey>, form: set<ErrorKey>)
    requires f in {Nombres, Apellidos, Password}
    requires RequiredKey !in control && MinLengthKey in control
    ensures f == Password ==> ErrorMessage(f, control, form) == PasswordTooShort
    ensures f != Password ==> ErrorMessage(f, control, form) == NameWord(f) + NameTooShort
  {
  }

  /** Then a too-long value is reported before a malformed one. */
  lemma MaxLengthSecond(f: Field, control: set<ErrorKey>, form: set<ErrorKey>)
    requires f in {Nombres, Apellidos, Password}
    requires RequiredKey !in control && MinLengthKey !in control && MaxLengthKey in control
    ensures f == Password ==> ErrorMessage(f, control, form) == PasswordTooLong
    ensures f != Password ==> ErrorMessage(f, control, form) == NameWord(f) + NameTooLong
  {
  }

  /** The confirmation's message looks only at its own `required` error and
      at the form's mismatch. */
  lemma ConfirmationMessage(control: set<ErrorKey>, form: set<ErrorKey>)
    ensures ErrorMessage(PasswordConfirmation, control, form) ==
      if RequiredKey in control then "Confirmación de contraseña" + RequiredSuffix
      else if PasswordMismatchKey in form then PasswordsDiffer
      else ""
  {
  }

  /** A control has no error exactly when it accepts its value. */
  lemma ControlValidIff(f: Field, v: Value, emailOk: string -> bool)
    requires Typed(f, v)
    ensures ControlErrors(f, v, emailOk) == {} <==> Accepts(f, v, emailOk)
  {
    var rules := Rules(f);
    ErrorsOfEmpty(rules, v, emailOk);
    match f
    case Nombres | Apellidos | Password => AllOfFour(rules, v, emailOk);
    case Email | Telefono => AllOfTwo(rules, v, emailOk);
    case PasswordConfirmation | Terminos =>
  }

  /** Every control is free of errors exactly when every control accepts
      its value. */
  lemma AllAcceptedIff(values: map<Field, Value>, emailOk: string -> bool)
    requires WellFormed(values)
    ensures (forall f :: ControlErrors(f, values[f], emailOk) == {}) <==> forall f :: Accepts(f, values[f], emailOk)
  {
    forall f ensures ControlErrors(f, values[f], emailOk) == {} <==> Accepts(f, values[f], emailOk) {
      ControlValidIff(f, values[f], emailOk);
    }
  }

  lemma AllOfFour(rules: seq<Rule>, v: Value, emailOk: string -> bool)
    requires |rules| == 4 && forall i :: 0 <= i < 4 ==> Applies(rules[i], v)
    ensures (forall i :: 0 <= i < |rules| ==> RuleErrors(rules[i], v, emailOk) == {}) <==>
      (RuleErrors(rules[0], v, emailOk) == {} && RuleErrors(rules[1], v, emailOk) == {} &&
       RuleErrors(rules[2], v, emailOk) == {} && RuleErrors(rules[3], v, emailOk) == {})
  {
    if !forall i :: 0 <= i < |rules| ==> RuleErrors(rules[i], v, emailOk) == {} {
      var i :| 0 <= i < |rules| && RuleErrors(rules[i], v, emailOk) != {};
      assert i == 0 || i == 1 || i == 2 || i == 3;
    }
  }

  lemma AllOfTwo(rules: seq<Rule>, v: Value, emailOk: string -> bool)
    requires |rules| == 2 && forall i :: 0 <= i < 2 ==> Applies(rules[i], v)
    ensures (forall i :: 0 <= i < |rules| ==> RuleErrors(rules[i], v, emailOk) == {}) <==>
      (RuleErrors(rules[0], v, emailOk) == {} && RuleErrors(rules[1], v, emailOk) == {})
  {
    if !forall i :: 0 <= i < |rules| ==> RuleErrors(rules[i], v, emailOk) == {} {
      var i :| 0 <= i < |rules| && RuleErrors(rules[i], v, emailOk) != {};
      assert i == 0 || i == 1;
    }
  }

  /** The name pattern repeats its class: joining two accepted names gives
      an accepted name. */
  lemma NamePatternAppend(s: string, t: string)
    requires NamePattern(s) && NamePattern(t)
    ensures NamePattern(s + t)
  {
    forall k | 0 <= k < |s + t| ensures IsNameChar((s + t)[k]) {
      if k < |s| { assert (s + t)[k] == s[k]; } else { assert (s + t)[k] == t[k - |s|]; }
    }
  }

  /** A ten-digit number passes the page's telephone pattern and is refused
      by the validation service, which wants nine digits. */
  lemma TenDigitsSplitRules(phone: string)
    requires |phone| == 10 && forall k :: 0 <= k < |phone| ==> IsAsciiDigit(phone[k])
    ensures PhonePattern(phone) && !IsValidPhone(phone)
  {
    assert NoWhitespace(phone);
  }

  /** Lower-case, upper-case and digit are all the strength check asks
      for: appending a special character never changes its verdict. */
  lemma StrengthIgnoresSpecials(value: string, c: char)
    requires value != "" && IsStrengthSpecial(c)
    ensures PasswordStrengthValidator(value + [c]) == PasswordStrengthValidator(value)
  {
    ContainsAppend(value, c, IsAsciiDigit);
    ContainsAppend(value, c, IsAsciiUpper);
    ContainsAppend(value, c, IsAsciiLower);
  }

  lemma ContainsAppend(s: string, c: char, p: char -> bool)
    requires !p(c)
    ensures Contains(s + [c], p) == Contains(s, p)
  {
    if Contains(s + [c], p) {
      var k :| 0 <= k < |s + [c]| && p((s + [c])[k]);
      assert k < |s| && (s + [c])[k] == s[k];
    }
    if Contains(s, p) {
      var k :| 0 <= k < |s| && p(s[k]);
      assert (s + [c])[k] == s[k];
    }
  }

  /** A password the validation service finds strong passes the page's
      strength check as well. */
  lemma ServiceStrongIsPageStrong(password: string)
    requires StrongPassword(password)
    ensures PasswordStrengthValidator(password) == {}
  {
  }

  /** The form-level match is strict: a confirmation that differs from the
      password only by a trailing space is a mismatch. */
  lemma MatchIsStrict(a: string)
    ensures PasswordMatchValidator(map[Password := Text(a), PasswordConfirmation := Text(a + " ")]) == {PasswordMismatchKey}
  {
    assert Text(a) != Text(a + " ") by { assert |a| != |a + " "|; }
  }

  /** The validation service trims both values before comparing them, so it
      accepts that same confirmation. */
  lemma ServiceMatchTrims(a: string)
    ensures PasswordsMatch(a, a + " ")
  {
    TrimOfSpaced(a);
  }

  /** `trimFormData` leaves every control in normal form: names trimmed,
      the e-mail trimmed and without ASCII capitals, the telephone without
      any whitespace. */
  lemma NormalisedNormalForm(f: Field, v: Value)
    requires v.Text?
    ensures var r := Normalised(f, v).s;
      (f == Nombres || f == Apellidos || f == Email ==> Trim(r) == r) &&
      (f == Email ==> forall k :: 0 <= k < |r| ==> !IsAsciiUpper(r[k])) &&
      (f == Telefono ==> NoWhitespace(r))
  {
    match f
    case Email =>
      var r := ToLower(Trim(v.s));
      assert Normalised(f, v).s == r;
      TrimLowerIdempotent(v.s);
    case Nombres | Apellidos =>
      TrimIdempotent(v.s);
    case _ =>
  }

  /** Normalising a value twice is normalising it once. */
  lemma NormalisedIdempotent(f: Field, v: Value)
    ensures Normalised(f, Normalised(f, v)) == Normalised(f, v)
  {
    if v.Text? {
      match f
      case Nombres | Apellidos =>
        TrimIdempotent(v.s);
      case Email =>
        var e := ToLower(Trim(v.s));
        TrimLowerIdempotent(v.s);
        assert Normalised(f, v) == Text(e);
        assert Normalised(f, Text(e)) == Text(ToLower(Trim(e)));
      case Telefono =>
        TrimOfNoWhitespace(Normalised(f, v).s);
      case _ =>
    }
  }

  /** Normalising the form twice is normalising it once, so a second
      submit sends the same values. */
  lemma TrimmedIdempotent(values: map<Field, Value>)
    requires WellFormed(values)
    ensures Trimmed(Trimmed(values)) == Trimmed(values)
  {
    var r := Trimmed(values);
    forall f | f in r
      ensures Trimmed(r)[f] == r[f]
    {
      NormalisedIdempotent(f, values[f]);
    }
  }

  /** A form with no error shows no error under any field. */
  lemma ValidFormShowsNothing(page: RegistratePage, fieldName: string)
    requires page.Valid() && !page.Invalid()
    ensures !page.HasError(fieldName)
    ensures page.GetErrorMessage(fieldName) == ""
  {
  }

  /** Every error shown has a message. */
  lemma ShownHasMessage(page: RegistratePage, fieldName: string)
    requires page.Valid() && page.HasError(fieldName)
    ensures page.GetErrorMessage(fieldName) != ""
  {
  }

  /** Values the page hands on satisfy every rule: each control accepts
      its value, and the password and its confirmation are equal. */
  lemma SubmittedValuesAccepted(page: RegistratePage)
    requires page.Valid() && !page.Invalid()
    ensures forall f :: Accepts(f, page.values[f], page.emailOk)
    ensures page.values[Password] == page.values[PasswordConfirmation]
  {
    forall f ensures Accepts(f, page.values[f], page.emailOk) {
      assert page.Errors(f) == {};
      ControlValidIff(f, page.values[f], page.emailOk);
    }
    assert page.FormErrors() == {};
  }
}
