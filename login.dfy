/** The login page: the rule table of its two controls, the cascade that
    turns a control's errors into one message, the gating that decides when
    an error is shown, the normalisation of the e-mail before submission,
    the submit handler and the password-visibility toggle. */
module Login {
  import opened Js
  import opened Forms
  import Validators

  /** The controls of the login form. */
  datatype Control = EmailControl | PasswordControl
  {
    /** The control's name in the form group. */
    function Key(): string
    {
      match this
      case EmailControl => "email"
      case PasswordControl => "password"
    }
  }

  /** The controls, in declaration order. */
  const Controls: seq<Control> := [EmailControl, PasswordControl]
  const ControlSet: set<Control> := {EmailControl, PasswordControl}

  /** `loginForm.get(name)`: the control a name refers to, if any. */
  function ControlNamed(name: string): (c: Option<Control>)
    ensures c.Some? <==> name == "email" || name == "password"
    ensures c.Some? ==> c.value.Key() == name
  {
    if name == "email" then Some(EmailControl)
    else if name == "password" then Some(PasswordControl)
    else None
  }

  // ----- the rule table -----

  /** The class `[a-zA-Z0-9._%+-]` of the part before the `@`. */
  predicate IsLocalChar(c: char)
  {
    IsAsciiLetter(c) || IsAsciiDigit(c) || c == '.' || c == '_' || c == '%' || c == '+' || c == '-'
  }

  /** The class `[a-zA-Z0-9.-]` of the domain. */
  predicate IsDomainChar(c: char)
  {
    IsAsciiLetter(c) || IsAsciiDigit(c) || c == '.' || c == '-'
  }

  /** `/^[a-zA-Z0-9._%+-]+@[a-zA-Z0-9.-]+\.[a-zA-Z]{2,}$/`, with the
      positions of the `@` and of the `.` that the match chooses. A match
      has at least six characters, starts with a character of the local
      part and ends in two ASCII letters. */
  predicate EmailPattern(t: string)
    ensures EmailPattern(t) ==>
      |t| >= 6 && IsLocalChar(t[0]) && IsAsciiLetter(t[|t| - 2]) && IsAsciiLetter(t[|t| - 1])
  {
    exists at, dot :: 0 < at && at + 1 < dot && dot + 2 < |t| && t[at] == '@' && t[dot] == '.' &&
      (forall k :: 0 <= k < at ==> IsLocalChar(t[k])) &&
      (forall k :: at < k < dot ==> IsDomainChar(t[k])) &&
      (forall k :: dot < k < |t| ==> IsAsciiLetter(t[k]))
  }

  /** The validator list `createForm` gives each control: `required`
      first, and length bounds that some length satisfies. */
  function Rules(c: Control): (rules: seq<Rule>)
    ensures rules != [] && rules[0].Required?
    ensures forall i, j :: 0 <= i < |rules| && 0 <= j < |rules| && rules[i].MinLength? && rules[j].MaxLength? ==>
      rules[i].min <= rules[j].max
  {
    match c
    case EmailControl => [Required, EmailFormat, Pattern(EmailPattern)]
    case PasswordControl => [Required, MinLength(6), MaxLength(50)]
  }

  /** The keys each control's validators can report. */
  function ControlKeys(c: Control): set<ErrorKey>
  {
    match c
    case EmailControl => {RequiredKey, EmailKey, PatternKey}
    case PasswordControl => {RequiredKey, MinLengthKey, MaxLengthKey}
  }

  /** The error keys a control carries for a text value; only keys its
      validators can report. */
  function ControlErrors(c: Control, v: Value, emailOk: string -> bool): (errs: set<ErrorKey>)
    requires v.Text?
    ensures errs <= ControlKeys(c)
  {
    var rules := Rules(c);
    var errs := ErrorsOf(rules, v, emailOk);
    assert forall key :: key in errs ==> key in ControlKeys(c) by {
      forall key | key in errs ensures key in ControlKeys(c) {
        var i :| 0 <= i < |rules| && key in RuleErrors(rules[i], v, emailOk);
      }
    }
    errs
  }

  /** What each control accepts, read off its rule list. */
  predicate Accepts(c: Control, v: Value, emailOk: string -> bool)
    requires v.Text?
  {
    match c
    case EmailControl => v.s != "" && emailOk(v.s) && EmailPattern(v.s)
    case PasswordControl => 6 <= |v.s| <= 50
  }

  /** Both controls accept their values. */
  predicate AllAccepted(values: map<Control, Value>, emailOk: string -> bool)
    requires WellFormed(values)
  {
    Accepts(EmailControl, values[EmailControl], emailOk) && Accepts(PasswordControl, values[PasswordControl], emailOk)
  }

  // ----- getErrorMessage -----

  const EmailLabel: string := "Email"
  const PasswordLabel: string := "Contraseña"
  const EnterValidEmail: string := "Ingresa un email válido"
  const PasswordTooShort: string := "La contraseña debe tener al menos 6 caracteres"
  const PasswordTooLong: string := "La contraseña no puede exceder 50 caracteres"

  /** The label of the `required` message. */
  function Label(c: Control): string
  {
    if c == EmailControl then EmailLabel else PasswordLabel
  }

  /** The cascade's tests after `required`, control by control, in order. */
  function FieldEntries(c: Control): (table: seq<Entry>)
    ensures MessagesNonEmpty(table)
  {
    match c
    case EmailControl =>
      [(OnControl(EmailKey), EnterValidEmail),
       (OnControl(PatternKey), EnterValidEmail)]
    case PasswordControl =>
      [(OnControl(MinLengthKey), PasswordTooShort),
       (OnControl(MaxLengthKey), PasswordTooLong)]
  }

  /** The message table of a control: `required` first. */
  function Priority(c: Control): (table: seq<Entry>)
    ensures MessagesNonEmpty(table)
  {
    var rest := FieldEntries(c);
    assert forall i :: 1 <= i < |rest| + 1 ==> ([(OnControl(RequiredKey), Label(c) + RequiredSuffix)] + rest)[i] == rest[i - 1];
    [(OnControl(RequiredKey), Label(c) + RequiredSuffix)] + rest
  }

  /** `getErrorMessage` for a control, over its error keys: the message of
      the first test of its table that fires. The login form has no
      form-level validator, so the group's errors are always empty. */
  function ErrorMessage(c: Control, control: set<ErrorKey>): (r: string)
    ensures r == FirstMatch(Priority(c), control, {})
  {
    if RequiredKey in control then
      Label(c) + RequiredSuffix
    else
      assert Priority(c)[1..] == FieldEntries(c);
      match c
      case EmailControl =>
        if EmailKey in control || PatternKey in control then EnterValidEmail else ""
      case PasswordControl =>
        if MinLengthKey in control then PasswordTooShort
        else if MaxLengthKey in control then
          FirstMatchPriority(Priority(c), control, {}, 2);
          PasswordTooLong
        else ""
  }

  // ----- trimFormData -----

  /** The values of a login form: a string for each control. */
  predicate WellFormed(values: map<Control, Value>)
  {
    (forall c: Control :: c in values) &&
    forall c :: c in values ==> values[c].Text?
  }

  /** The new e-mail value: trimmed and lower-cased. */
  function NormalisedEmail(v: Value): (r: Value)
    ensures v.Text? ==> r.Text? && |r.s| <= |v.s|
  {
    match v
    case Text(s) => Text(ToLower(Trim(s)))
    case _ => Nothing
  }

  /** `trimFormData`: the e-mail normalised; the password untouched. */
  function Trimmed(values: map<Control, Value>): (r: map<Control, Value>)
    requires WellFormed(values)
    ensures WellFormed(r)
    ensures r[PasswordControl] == values[PasswordControl]
    ensures r.Keys == values.Keys
  {
    values[EmailControl := NormalisedEmail(values[EmailControl])]
  }

  /** The values `createForm` starts with. */
  function InitialValues(): (values: map<Control, Value>)
    ensures WellFormed(values)
    ensures forall c :: c in values ==> values[c] == Text("")
  {
    var values := map[EmailControl := Text(""), PasswordControl := Text("")];
    assert forall c: Control :: c in values by {
      forall c: Control ensures c in values {
        if c == EmailControl {} else {}
      }
    }
    values
  }

  // ----- the page -----

  class LoginPage {
    var values: map<Control, Value>
    var touched: set<Control>
    var dirty: set<Control>
    var isSubmitted: bool
    var inputType: string
    /** The expression inside Angular's `Validators.email`, which is not modelled. */
    const emailOk: string -> bool

    ghost predicate Valid()
      reads this`values, this`inputType
    {
      WellFormed(values) && IsInputType(inputType)
    }

    /** The page after `ngOnInit` has run `createForm`. */
    constructor (emailOk: string -> bool)
      ensures Valid() && this.emailOk == emailOk
      ensures values == InitialValues() && touched == {} && dirty == {} && !isSubmitted
      ensures inputType == "password"
    {
      this.emailOk := emailOk;
      values := InitialValues();
      touched, dirty, isSubmitted := {}, {}, false;
      inputType := "password";
    }

    /** The errors of a control. */
    function Errors(c: Control): set<ErrorKey>
      reads this`values
      requires WellFormed(values)
    {
      ControlErrors(c, values[c], emailOk)
    }

    /** `loginForm.invalid`: some control has an error. */
    predicate Invalid()
      reads this`values
      requires WellFormed(values)
    {
      exists c :: Errors(c) != {}
    }

    /** `getErrorMessage`: nothing for a name with no control; otherwise a
        message exactly when the control has an error. */
    function GetErrorMessage(fieldName: string): (r: string)
      reads this`values
      requires WellFormed(values)
      ensures ControlNamed(fieldName).None? ==> r == ""
      ensures ControlNamed(fieldName).Some? ==> (r != "" <==> Errors(ControlNamed(fieldName).value) != {})
    {
      match ControlNamed(fieldName)
      case None => ""
      case Some(c) =>
        MessageIffErrors(c, Errors(c));
        ErrorMessage(c, Errors(c))
    }

    /** `hasError`: an invalid control the user has edited or left, or any
        invalid control once a submit was attempted. */
    predicate HasError(fieldName: string)
      reads this`values, this`dirty, this`touched, this`isSubmitted
      requires WellFormed(values)
      ensures ControlNamed(fieldName).None? ==> !HasError(fieldName)
      ensures ControlNamed(fieldName).Some? ==>
        var c := ControlNamed(fieldName).value;
        (c in dirty || c in touched || isSubmitted ==> (HasError(fieldName) <==> Errors(c) != {})) &&
        (c !in dirty && c !in touched && !isSubmitted ==> !HasError(fieldName))
    {
      match ControlNamed(fieldName)
      case None => false
      case Some(c) => Errors(c) != {} && (c in dirty || c in touched || isSubmitted)
    }

    /** `trimFormData`, which patches the e-mail. */
    method TrimFormData()
      requires Valid()
      modifies this`values
      ensures Valid()
      ensures values == Trimmed(old(values))
    {
      values := Trimmed(values);
    }

    /** `login`: mark the attempt and normalise; then either mark every
        control touched and stop with the error toast, or hand on the form's
        values and go to the home page. */
    method Login() returns (result: Submission<Control>)
      requires Valid()
      modifies this`values, this`touched, this`isSubmitted
      ensures Valid() && isSubmitted
      ensures values == Trimmed(old(values))
      ensures Invalid() ==> touched == old(touched) + ControlSet && result == Rejected(CorrectErrorsToast)
      ensures !Invalid() ==> touched == old(touched) && result == Sent(values, "/home")
    {
      isSubmitted := true;
      TrimFormData();
      if Invalid() {
        MarkAllAsTouched();
        return Rejected(CorrectErrorsToast);
      }
      return Sent(values, "/home");
    }

    /** The `forEach` over the form's controls that marks each one touched. */
    method MarkAllAsTouched()
      modifies this`touched
      ensures touched == old(touched) + ControlSet
    {
      var i := 0;
      while i < |Controls|
        invariant 0 <= i <= |Controls|
        invariant touched == old(touched) + set k | k in Controls[..i]
      {
        touched := touched + {Controls[i]};
        i := i + 1;
      }
      assert Controls[..|Controls|] == Controls;
    }

    /** `togglePasswordVisibility`. */
    method TogglePasswordVisibility()
      requires Valid()
      modifies this`inputType
      ensures Valid() && inputType == Toggled(old(inputType))
    {
      inputType := Toggled(inputType);
    }
  }

  // ----- what the page promises -----

  /** Each table tests every key its control can carry. */
  lemma PriorityCovers(c: Control)
    ensures Covers(Priority(c), ControlKeys(c))
  {
    var t := Priority(c);
    assert t[0].0 == OnControl(RequiredKey);
    match c
    case EmailControl =>
      assert t[1].0 == OnControl(EmailKey) && t[2].0 == OnControl(PatternKey);
    case PasswordControl =>
      assert t[1].0 == OnControl(MinLengthKey) && t[2].0 == OnControl(MaxLengthKey);
  }

  /** A control's message is non-empty exactly when it has an error. */
  lemma MessageIffErrors(c: Control, control: set<ErrorKey>)
    requires control <= ControlKeys(c)
    ensures ErrorMessage(c, control) != "" <==> control != {}
  {
    PriorityCovers(c);
    FirstMatchReportsAll(Priority(c), control, {}, ControlKeys(c));
  }

  /** `required` outranks every other error of the control. */
  lemma RequiredOutranks(c: Control, control: set<ErrorKey>)
    requires RequiredKey in control
    ensures ErrorMessage(c, control) == Label(c) + RequiredSuffix
  {
  }

  /** A malformed e-mail reads the same whichever of its two format tests
      fails. */
  lemma EmailFormatMessage(control: set<ErrorKey>)
    requires RequiredKey !in control
    ensures ErrorMessage(EmailControl, control) ==
      if EmailKey in control || PatternKey in control then EnterValidEmail else ""
  {
  }

  /** A too-short password is reported before a too-long one. */
  lemma MinLengthFirst(control: set<ErrorKey>)
    requires RequiredKey !in control && MinLengthKey in control
    ensures ErrorMessage(PasswordControl, control) == PasswordTooShort
  {
  }

  /** A control has no error exactly when it accepts its value. */
  lemma ControlValidIff(c: Control, v: Value, emailOk: string -> bool)
    requires v.Text?
    ensures ControlErrors(c, v, emailOk) == {} <==> Accepts(c, v, emailOk)
  {
    var rules := Rules(c);
    ErrorsOfEmpty(rules, v, emailOk);
    if !forall i :: 0 <= i < |rules| ==> RuleErrors(rules[i], v, emailOk) == {} {
      var i :| 0 <= i < |rules| && RuleErrors(rules[i], v, emailOk) != {};
      assert i == 0 || i == 1 || i == 2;
    }
    assert RuleErrors(rules[0], v, emailOk) == {} <==> v.s != "";
    match c
    case EmailControl =>
      assert RuleErrors(rules[1], v, emailOk) == {} <==> v.s == "" || emailOk(v.s);
      assert RuleErrors(rules[2], v, emailOk) == {} <==> v.s == "" || EmailPattern(v.s);
    case PasswordControl =>
      assert RuleErrors(rules[1], v, emailOk) == {} <==> v.s == "" || |v.s| >= 6;
      assert RuleErrors(rules[2], v, emailOk) == {} <==> |v.s| <= 50;
  }

  /** Whatever the login pattern accepts, the validation service's e-mail
      expression accepts as well. */
  lemma PatternImpliesServiceEmail(t: string)
    requires EmailPattern(t)
    ensures Validators.EmailRegex(t)
  {
    var at, dot :| 0 < at && at + 1 < dot && dot + 2 < |t| && t[at] == '@' && t[dot] == '.' &&
      (forall k :: 0 <= k < at ==> IsLocalChar(t[k])) &&
      (forall k :: at < k < dot ==> IsDomainChar(t[k])) &&
      (forall k :: dot < k < |t| ==> IsAsciiLetter(t[k]));
    ServiceEmailAt(t, at, dot);
  }

  /** The same, for the `@` and the `.` of one match of the pattern. */
  lemma ServiceEmailAt(t: string, at: nat, dot: nat)
    requires 0 < at && at + 1 < dot && dot + 2 < |t| && t[at] == '@' && t[dot] == '.'
    requires forall k :: 0 <= k < at ==> IsLocalChar(t[k])
    requires forall k :: at < k < dot ==> IsDomainChar(t[k])
    requires forall k :: dot < k < |t| ==> IsAsciiLetter(t[k])
    ensures Validators.EmailRegex(t)
  {
    LocalPart(t, 0, at);
    DomainPart(t, at + 1, dot);
    TopLevelPart(t, dot + 1, |t|);
    Validators.EmailRegexAt(t, at, dot);
  }

  /** The pattern's three classes hold neither `@` nor whitespace, so a
      non-empty run of any of them is a part of the service's expression. */
  lemma LocalPart(t: string, lo: nat, hi: nat)
    requires lo < hi <= |t| && forall k :: lo <= k < hi ==> IsLocalChar(t[k])
    ensures Validators.EmailPart(t[lo..hi])
  {
    forall k | lo <= k < hi ensures t[k] != '@' && !IsWhitespace(t[k]) {
      assert IsLocalChar(t[k]);
    }
    Validators.EmailPartSlice(t, lo, hi);
  }

  lemma DomainPart(t: string, lo: nat, hi: nat)
    requires lo < hi <= |t| && forall k :: lo <= k < hi ==> IsDomainChar(t[k])
    ensures Validators.EmailPart(t[lo..hi])
  {
    forall k | lo <= k < hi ensures t[k] != '@' && !IsWhitespace(t[k]) {
      assert IsDomainChar(t[k]);
    }
    Validators.EmailPartSlice(t, lo, hi);
  }

  lemma TopLevelPart(t: string, lo: nat, hi: nat)
    requires lo < hi <= |t| && forall k :: lo <= k < hi ==> IsAsciiLetter(t[k])
    ensures Validators.EmailPart(t[lo..hi])
  {
    forall k | lo <= k < hi ensures t[k] != '@' && !IsWhitespace(t[k]) {
      assert IsAsciiLetter(t[k]);
    }
    Validators.EmailPartSlice(t, lo, hi);
  }

  /** A one-letter top-level domain, which the service's expression allows,
      is refused by the login pattern. */
  lemma OneLetterDomainRefused(t: string)
    requires |t| >= 2 && t[|t| - 2] == '.'
    ensures !EmailPattern(t)
  {
    assert !IsAsciiLetter(t[|t| - 2]);
  }

  /** `trimFormData` leaves the e-mail trimmed and without ASCII capitals,
      and normalising it again changes nothing. */
  lemma NormalisedEmailNormalForm(v: Value)
    requires v.Text?
    ensures var r := NormalisedEmail(v).s;
      Trim(r) == r && forall k :: 0 <= k < |r| ==> !IsAsciiUpper(r[k])
    ensures NormalisedEmail(NormalisedEmail(v)) == NormalisedEmail(v)
  {
    assert NormalisedEmail(v) == Text(ToLower(Trim(v.s)));
    TrimLowerIdempotent(v.s);
  }

  /** Normalising the form twice is normalising it once. */
  lemma TrimmedIdempotent(values: map<Control, Value>)
    requires WellFormed(values)
    ensures Trimmed(Trimmed(values)) == Trimmed(values)
  {
    NormalisedEmailNormalForm(values[EmailControl]);
    TrimmedFixes(Trimmed(values));
  }

  /** A form whose e-mail is already normalised is left as it is. */
  lemma TrimmedFixes(values: map<Control, Value>)
    requires WellFormed(values) && NormalisedEmail(values[EmailControl]) == values[EmailControl]
    ensures Trimmed(values) == values
  {
  }

  /** The form is invalid exactly when one of its controls refuses its
      value. */
  lemma InvalidIffRefused(page: LoginPage)
    requires page.Valid()
    ensures page.Invalid() <==> !AllAccepted(page.values, page.emailOk)
  {
    ControlValidIff(EmailControl, page.values[EmailControl], page.emailOk);
    ControlValidIff(PasswordControl, page.values[PasswordControl], page.emailOk);
    if page.Invalid() {
      var c :| page.Errors(c) != {};
      assert c == EmailControl || c == PasswordControl;
    }
    if !Accepts(EmailControl, page.values[EmailControl], page.emailOk) {
      assert page.Errors(EmailControl) != {};
    }
    if !Accepts(PasswordControl, page.values[PasswordControl], page.emailOk) {
      assert page.Errors(PasswordControl) != {};
    }
  }

  /** A form with no error shows no error under any name. */
  lemma ValidFormShowsNothing(page: LoginPage, fieldName: string)
    requires page.Valid() && !page.Invalid()
    ensures !page.HasError(fieldName)
    ensures page.GetErrorMessage(fieldName) == ""
  {
  }

  /** Every error shown has a message. */
  lemma ShownHasMessage(page: LoginPage, fieldName: string)
    requires page.Valid() && page.HasError(fieldName)
    ensures page.GetErrorMessage(fieldName) != ""
  {
  }

  /** Values the page hands on satisfy every rule: the e-mail matches the
      login pattern, and hence the service's expression, and the password
      has 6 to 50 characters. */
  lemma SubmittedValuesAccepted(page: LoginPage)
    requires page.Valid() && !page.Invalid()
    ensures page.values[EmailControl].s != "" && EmailPattern(page.values[EmailControl].s)
    ensures Validators.EmailRegex(page.values[EmailControl].s)
    ensures 6 <= |page.values[PasswordControl].s| <= 50
  {
    assert page.Errors(EmailControl) == {};
    assert page.Errors(PasswordControl) == {};
    ControlValidIff(EmailControl, page.values[EmailControl], page.emailOk);
    ControlValidIff(PasswordControl, page.values[PasswordControl], page.emailOk);
    PatternImpliesServiceEmail(page.values[EmailControl].s);
  }
}
