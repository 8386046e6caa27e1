/** The validation service: a side-effect-free rule engine that maps a field
    name, a value and optionally the sibling form data to a Spanish error
    message, the empty string meaning "valid". Every regular expression of
    the service is anchored and is written here as a predicate with the
    same structure; a second, plainer characterisation is proved equal to it. */
module Validators {
  import opened Js

  /** The `errorMessages` catalog: a `required` and an `invalid` entry per field. */
  const RequiredNombres: string := "Los nombres son requeridos"
  const RequiredApellidos: string := "Los apellidos son requeridos"
  const RequiredEmail: string := "El email es requerido"
  const RequiredTelefono: string := "El teléfono es requerido"
  const RequiredPassword: string := "La contraseña es requerida"
  const RequiredPasswordConfirmation: string := "La confirmación de contraseña es requerida"
  const RequiredTerminos: string := "Debe aceptar los términos y condiciones"
  const InvalidNombres: string := "Los nombres deben contener solo letras"
  const InvalidApellidos: string := "Los apellidos deben contener solo letras"
  const InvalidEmail: string := "Ingrese un email válido"
  const InvalidTelefono: string := "Ingrese un número de teléfono válido (10 dígitos)"
  const InvalidPassword: string := "La contraseña debe tener mínimo 8 caracteres, una mayúscula, una minúscula y un número"
  const InvalidPasswordConfirmation: string := "Las contraseñas no coinciden"
  const InvalidTerminos: string := "Debe aceptar los términos y condiciones"

  /** The seven fields `validateField` has a case for. */
  datatype Field = Nombres | Apellidos | Email | Telefono | Password | PasswordConfirmation | Terminos
  {
    /** The name that selects this field's case. */
    function Key(): string
    {
      match this
      case Nombres => "nombres"
      case Apellidos => "apellidos"
      case Email => "email"
      case Telefono => "telefono"
      case Password => "password"
      case PasswordConfirmation => "passwordConfirmation"
      case Terminos => "terminos"
    }

    /** The catalog's `required` entry for this field. */
    function RequiredMessage(): (m: string)
      ensures m != ""
    {
      match this
      case Nombres => RequiredNombres
      case Apellidos => RequiredApellidos
      case Email => RequiredEmail
      case Telefono => RequiredTelefono
      case Password => RequiredPassword
      case PasswordConfirmation => RequiredPasswordConfirmation
      case Terminos => RequiredTerminos
    }

    /** The catalog's `invalid` entry for this field. It differs from the
        `required` entry for every field except the terms, whose two entries
        are the same text. */
    function InvalidMessage(): (m: string)
      ensures m != ""
      ensures this != Terminos ==> m != RequiredMessage()
      ensures this == Terminos ==> m == RequiredMessage()
    {
      match this
      case Nombres => InvalidNombres
      case Apellidos => InvalidApellidos
      case Email => InvalidEmail
      case Telefono => InvalidTelefono
      case Password => InvalidPassword
      case PasswordConfirmation => InvalidPasswordConfirmation
      case Terminos => InvalidTerminos
    }
  }

  /** The sibling values `validateField` may be given: only `password` is read. */
  datatype FormData = FormData(password: string)

  /** The case of `validateField`'s switch that a name selects, if any. */
  function FieldNamed(name: string): (f: Option<Field>)
    ensures f.Some? ==> f.value.Key() == name
    ensures f.None? ==> forall g: Field :: g.Key() != name
  {
    if name == "nombres" then Some(Nombres)
    else if name == "apellidos" then Some(Apellidos)
    else if name == "email" then Some(Email)
    else if name == "telefono" then Some(Telefono)
    else if name == "password" then Some(Password)
    else if name == "passwordConfirmation" then Some(PasswordConfirmation)
    else if name == "terminos" then Some(Terminos)
    else None
  }

  /** `isNotEmpty`: neither null nor undefined, and something other than
      whitespace. A boolean would make `trim` throw, hence the requires. */
  predicate IsNotEmpty(value: Value)
    requires !value.Flag?
    ensures IsNotEmpty(value) <==> value.Text? && !AllWhitespace(value.s)
  {
    TrimEmpty(if value.Text? then value.s else []);
    value.Text? && |Trim(value.s)| > 0
  }

  // ----- names -----

  const AccentedLetters: string := "áéíóúÁÉÍÓÚñÑ"

  /** The class `[a-zA-ZáéíóúÁÉÍÓÚñÑ\s]`. */
  predicate IsNameChar(c: char)
  {
    IsAsciiLetter(c) || c in AccentedLetters || IsWhitespace(c)
  }

  /** `/^[a-zA-ZáéíóúÁÉÍÓÚñÑ\s]$/`: no repetition, so exactly one character. */
  predicate NameRegex(t: string)
  {
    |t| == 1 && IsNameChar(t[0])
  }

  /** `isValidName`: the trimmed name is a single letter. The whitespace
      alternative of the class can never match, since trimming removed it. */
  predicate IsValidName(name: string)
    ensures IsValidName(name) <==>
      |Trim(name)| == 1 && (IsAsciiLetter(Trim(name)[0]) || Trim(name)[0] in AccentedLetters)
  {
    IsNotEmpty(Text(name)) && NameRegex(Trim(name))
  }

  // ----- e-mail addresses -----

  /** One `[^\s@]+` run. */
  predicate EmailPart(x: string)
  {
    |x| > 0 && forall k :: 0 <= k < |x| ==> x[k] != '@' && !IsWhitespace(x[k])
  }

  /** A non-empty run of characters that are neither `@` nor whitespace is
      an e-mail part. */
  lemma EmailPartSlice(t: string, lo: nat, hi: nat)
    requires lo < hi <= |t|
    requires forall k :: lo <= k < hi ==> t[k] != '@' && !IsWhitespace(t[k])
    ensures EmailPart(t[lo..hi])
  {
    forall k | 0 <= k < hi - lo ensures t[lo..hi][k] != '@' && !IsWhitespace(t[lo..hi][k]) {
      assert t[lo..hi][k] == t[lo + k];
    }
  }

  /** `/^[^\s@]+@[^\s@]+\.[^\s@]+$/`, with the positions of the `@` and of
      the `.` that the match chooses. */
  predicate EmailRegex(t: string)
  {
    exists at, dot :: 0 <= at < dot < |t| && t[at] == '@' && t[dot] == '.' &&
      EmailPart(t[..at]) && EmailPart(t[at + 1..dot]) && EmailPart(t[dot + 1..])
  }

  /** The expression matches once an `@` and a later `.` split the string
      into three parts. */
  lemma EmailRegexAt(t: string, at: nat, dot: nat)
    requires at < dot < |t| && t[at] == '@' && t[dot] == '.'
    requires EmailPart(t[0..at]) && EmailPart(t[at + 1..dot]) && EmailPart(t[dot + 1..|t|])
    ensures EmailRegex(t)
  {
    assert t[..at] == t[0..at] && t[dot + 1..] == t[dot + 1..|t|];
  }

  /** The same language said plainly: no whitespace, exactly one `@`, not
      first, and after it a `.` that is neither the first nor the last
      character of the domain. */
  predicate EmailShape(t: string)
  {
    NoWhitespace(t) &&
    exists at :: 0 < at < |t| && t[at] == '@' &&
      (forall k :: 0 <= k < |t| && t[k] == '@' ==> k == at) &&
      exists dot :: at + 1 < dot < |t| - 1 && t[dot] == '.'
  }

  lemma EmailRegexIsShape(t: string)
    ensures EmailRegex(t) <==> EmailShape(t)
  {
    if EmailRegex(t) {
      var at, dot :| 0 <= at < dot < |t| && t[at] == '@' && t[dot] == '.' &&
        EmailPart(t[..at]) && EmailPart(t[at + 1..dot]) && EmailPart(t[dot + 1..]);
      EmailShapeAt(t, at, dot);
    }
    if EmailShape(t) {
      EmailRegexOfShape(t);
    }
  }

  /** A string of the e-mail shape matches the expression, split at its
      only `@` and at a `.` after it. */
  lemma EmailRegexOfShape(t: string)
    requires EmailShape(t)
    ensures EmailRegex(t)
  {
    var at :| 0 < at < |t| && t[at] == '@' &&
      (forall k :: 0 <= k < |t| && t[k] == '@' ==> k == at) &&
      exists dot :: at + 1 < dot < |t| - 1 && t[dot] == '.';
    var dot :| at + 1 < dot < |t| - 1 && t[dot] == '.';
    EmailPartSlice(t, 0, at);
    EmailPartSlice(t, at + 1, dot);
    EmailPartSlice(t, dot + 1, |t|);
    EmailRegexAt(t, at, dot);
  }

  /** A match of the expression has the e-mail shape: its three parts hold
      no whitespace and no `@`, and none of them is empty. */
  lemma EmailShapeAt(t: string, at: nat, dot: nat)
    requires at < dot < |t| && t[at] == '@' && t[dot] == '.'
    requires EmailPart(t[..at]) && EmailPart(t[at + 1..dot]) && EmailPart(t[dot + 1..])
    ensures EmailShape(t)
  {
    forall k | 0 <= k < |t| ensures !IsWhitespace(t[k]) && (t[k] == '@' ==> k == at) {
      if k < at { assert t[k] == t[..at][k]; }
      else if at < k < dot { assert t[k] == t[at + 1..dot][k - at - 1]; }
      else if dot < k { assert t[k] == t[dot + 1..][k - dot - 1]; }
    }
    assert |t[..at]| > 0 && |t[at + 1..dot]| > 0 && |t[dot + 1..]| > 0;
    assert 0 < at && at + 1 < dot < |t| - 1;
  }

  /** `isValidEmail`: the trimmed value matches the e-mail expression. */
  predicate IsValidEmail(email: string)
    ensures IsValidEmail(email) <==> EmailShape(Trim(email))
  {
    EmailRegexIsShape(Trim(email));
    TrimEmpty(email);
    IsNotEmpty(Text(email)) && EmailRegex(Trim(email))
  }

  // ----- telephone numbers -----

  /** `/^[0-9]{9}$/`. */
  predicate PhoneRegex(t: string)
  {
    |t| == 9 && forall k :: 0 <= k < |t| ==> IsAsciiDigit(t[k])
  }

  /** `isValidPhone`: once trimmed and stripped of all whitespace, exactly
      nine ASCII digits. The trim is redundant: only the whitespace-free
      value matters. */
  predicate IsValidPhone(phone: string)
    ensures IsValidPhone(phone) <==> PhoneRegex(RemoveWhitespace(phone))
  {
    RemoveWhitespaceIgnoresTrim(phone);
    assert AllWhitespace(phone) ==> RemoveWhitespace(phone) == [] by {
      if AllWhitespace(phone) { RemoveWhitespaceOfAllWhitespace(phone); }
    }
    IsNotEmpty(Text(phone)) && PhoneRegex(RemoveWhitespace(Trim(phone)))
  }

  // ----- passwords -----

  /** The class `[a-zA-Z\d@$!%*?&]`. */
  predicate IsPasswordChar(c: char)
  {
    IsAsciiLetter(c) || IsAsciiDigit(c) || c == '@' || c == '$' || c == '!' || c == '%' || c == '*' || c == '?' || c == '&'
  }

  /** A look-ahead `(?=.*[...])` at the start: a character of the class
      preceded only by characters that `.` matches. */
  predicate LookaheadFinds(t: string, p: char -> bool)
  {
    exists k :: 0 <= k < |t| && p(t[k]) && forall j :: 0 <= j < k ==> !IsLineTerminator(t[j])
  }

  /** `/^(?=.*[a-z])(?=.*[A-Z])(?=.*\d)[a-zA-Z\d@$!%*?&]{8,}$/`. */
  predicate PasswordRegex(t: string)
  {
    LookaheadFinds(t, IsAsciiLower) && LookaheadFinds(t, IsAsciiUpper) && LookaheadFinds(t, IsAsciiDigit)
    && |t| >= 8 && forall k :: 0 <= k < |t| ==> IsPasswordChar(t[k])
  }

  /** What the password expression demands, without look-aheads. */
  predicate StrongPassword(t: string)
  {
    |t| >= 8 && (forall k :: 0 <= k < |t| ==> IsPasswordChar(t[k]))
    && Contains(t, IsAsciiLower) && Contains(t, IsAsciiUpper) && Contains(t, IsAsciiDigit)
  }

  /** Since every character must be in the class, none is a line terminator
      and each look-ahead reduces to "contains". */
  lemma PasswordRegexIsStrong(t: string)
    ensures PasswordRegex(t) <==> StrongPassword(t)
  {
    if StrongPassword(t) {
      forall p: char -> bool | Contains(t, p) ensures LookaheadFinds(t, p) {
        var k :| 0 <= k < |t| && p(t[k]);
        forall j | 0 <= j < k ensures !IsLineTerminator(t[j]) {
          assert IsPasswordChar(t[j]);
        }
      }
    }
  }

  /** `isValidPassword`: the trimmed value is at least 8 characters from
      `[a-zA-Z0-9@$!%*?&]` with a lower-case letter, an upper-case letter
      and a digit. */
  predicate IsValidPassword(password: string)
    ensures IsValidPassword(password) <==> StrongPassword(Trim(password))
  {
    PasswordRegexIsStrong(Trim(password));
    TrimEmpty(password);
    IsNotEmpty(Text(password)) && PasswordRegex(Trim(password))
  }

  /** `passwordsMatch`: equal once both are trimmed. Equal values always
      match, and matching values differ at most in whitespace at their ends,
      so they agree once all whitespace is removed. */
  predicate PasswordsMatch(password: string, passwordConfirmation: string)
    ensures password == passwordConfirmation ==> PasswordsMatch(password, passwordConfirmation)
    ensures PasswordsMatch(password, passwordConfirmation) ==>
      RemoveWhitespace(password) == RemoveWhitespace(passwordConfirmation)
  {
    RemoveWhitespaceIgnoresTrim(password);
    RemoveWhitespaceIgnoresTrim(passwordConfirmation);
    Trim(password) == Trim(passwordConfirmation)
  }

  /** `termsAccepted`: the strict test `=== true`. Only a boolean can pass,
      and a boolean passes exactly when it is `true`. */
  predicate TermsAccepted(terms: Value)
    ensures TermsAccepted(terms) ==> terms.Flag?
    ensures terms.Flag? ==> (TermsAccepted(terms) <==> terms.b)
  {
    terms == Flag(true)
  }

  // ----- validateField -----

  /** The fields whose case calls `isNotEmpty`, which throws on a boolean. */
  predicate TakesText(fieldName: string)
  {
    FieldNamed(fieldName).Some? && FieldNamed(fieldName).value != Terminos
  }

  /** One case of the switch: presence first, then format. */
  function CheckField(f: Field, value: Value, formData: Option<FormData>): string
    requires f != Terminos ==> !value.Flag?
  {
    match f
    case Nombres | Apellidos =>
      if !IsNotEmpty(value) then f.RequiredMessage()
      else if !IsValidName(value.s) then f.InvalidMessage()
      else ""
    case Email =>
      if !IsNotEmpty(value) then f.RequiredMessage()
      else if !IsValidEmail(value.s) then f.InvalidMessage()
      else ""
    case Telefono =>
      if !IsNotEmpty(value) then f.RequiredMessage()
      else if !IsValidPhone(value.s) then f.InvalidMessage()
      else ""
    case Password =>
      if !IsNotEmpty(value) then f.RequiredMessage()
      else if !IsValidPassword(value.s) then f.InvalidMessage()
      else ""
    case PasswordConfirmation =>
      if !IsNotEmpty(value) then f.RequiredMessage()
      else if formData.Some? && !PasswordsMatch(formData.value.password, value.s) then f.InvalidMessage()
      else ""
    case Terminos =>
      if !TermsAccepted(value) then f.RequiredMessage()
      else ""
  }

  /** `validateField`: the field's `required` message, its `invalid`
      message, or the empty string, and always the empty string for a name
      the switch has no case for. */
  function ValidateField(fieldName: string, value: Value, formData: Option<FormData>): (r: string)
    requires TakesText(fieldName) ==> !value.Flag?
    ensures FieldNamed(fieldName).None? ==> r == ""
    ensures FieldNamed(fieldName).Some? ==>
      r == "" || r == FieldNamed(fieldName).value.RequiredMessage() || r == FieldNamed(fieldName).value.InvalidMessage()
  {
    match FieldNamed(fieldName)
    case None => ""
    case Some(f) => CheckField(f, value, formData)
  }

  // ----- what validateField promises -----

  /** The field's value is there: for a text field, a string that is not
      all whitespace. */
  predicate Present(f: Field, value: Value)
  {
    f == Terminos || (value.Text? && !AllWhitespace(value.s))
  }

  /** The format rule of each field, stated through the plain
      characterisations rather than the expressions. */
  predicate FormatHolds(f: Field, value: Value, formData: Option<FormData>)
    requires Present(f, value)
  {
    match f
    case Nombres | Apellidos =>
      |Trim(value.s)| == 1 && (IsAsciiLetter(Trim(value.s)[0]) || Trim(value.s)[0] in AccentedLetters)
    case Email => EmailShape(Trim(value.s))
    case Telefono => PhoneRegex(RemoveWhitespace(value.s))
    case Password => StrongPassword(Trim(value.s))
    case PasswordConfirmation => formData.None? || Trim(formData.value.password) == Trim(value.s)
    case Terminos => value == Flag(true)
  }

  /** Any name outside the seven cases is valid, whatever its value. */
  lemma ValidateUnknownName(fieldName: string, value: Value, formData: Option<FormData>)
    requires forall f: Field :: f.Key() != fieldName
    ensures ValidateField(fieldName, value, formData) == ""
  {
  }

  /** A text field that is missing or all whitespace gets its `required`
      message; the format check is not reached. */
  lemma ValidateRequired(f: Field, value: Value, formData: Option<FormData>)
    requires f != Terminos && !value.Flag?
    requires !Present(f, value)
    ensures ValidateField(f.Key(), value, formData) == f.RequiredMessage()
  {
    assert FieldNamed(f.Key()) == Some(f);
  }

  /** A non-blank name or surname gets the field's `invalid` message
      exactly when it is not a single letter once trimmed. */
  lemma ValidateNameFormat(f: Field, name: string, formData: Option<FormData>)
    requires f == Nombres || f == Apellidos
    requires !AllWhitespace(name)
    ensures ValidateField(f.Key(), Text(name), formData) ==
      if FormatHolds(f, Text(name), formData) then "" else f.InvalidMessage()
  {
    assert FieldNamed(f.Key()) == Some(f);
    assert IsNotEmpty(Text(name));
  }

  /** A non-blank e-mail address gets the `invalid` message exactly when
      its trimmed form does not have the e-mail shape. */
  lemma ValidateEmailFormat(email: string, formData: Option<FormData>)
    requires !AllWhitespace(email)
    ensures ValidateField("email", Text(email), formData) ==
      if EmailShape(Trim(email)) then "" else Email.InvalidMessage()
    ensures ValidateField(Email.Key(), Text(email), formData) ==
      if FormatHolds(Email, Text(email), formData) then "" else Email.InvalidMessage()
    ensures FormatHolds(Email, Text(email), formData) == EmailShape(Trim(email))
  {
    assert FieldNamed("email") == Some(Email);
    assert IsNotEmpty(Text(email));
  }

  /** A non-blank telephone number gets the `invalid` message exactly when
      its whitespace-free form is not nine digits. */
  lemma ValidatePhoneFormat(phone: string, formData: Option<FormData>)
    requires !AllWhitespace(phone)
    ensures ValidateField("telefono", Text(phone), formData) ==
      if PhoneRegex(RemoveWhitespace(phone)) then "" else Telefono.InvalidMessage()
    ensures ValidateField(Telefono.Key(), Text(phone), formData) ==
      if FormatHolds(Telefono, Text(phone), formData) then "" else Telefono.InvalidMessage()
    ensures FormatHolds(Telefono, Text(phone), formData) == PhoneRegex(RemoveWhitespace(phone))
  {
    assert FieldNamed("telefono") == Some(Telefono);
    assert IsNotEmpty(Text(phone));
  }

  /** A non-blank password gets the `invalid` message exactly when its
      trimmed form is not a strong password. */
  lemma ValidatePasswordFormat(password: string, formData: Option<FormData>)
    requires !AllWhitespace(password)
    ensures ValidateField("password", Text(password), formData) ==
      if StrongPassword(Trim(password)) then "" else Password.InvalidMessage()
    ensures ValidateField(Password.Key(), Text(password), formData) ==
      if FormatHolds(Password, Text(password), formData) then "" else Password.InvalidMessage()
    ensures FormatHolds(Password, Text(password), formData) == StrongPassword(Trim(password))
  {
    assert FieldNamed("password") == Some(Password);
    assert IsNotEmpty(Text(password));
  }

  /** A present value gets the empty string exactly when its format rule
      holds, and otherwise the field's `invalid` message (for the terms,
      the same text as the `required` one). */
  lemma ValidateFormat(f: Field, value: Value, formData: Option<FormData>)
    requires f != Terminos ==> !value.Flag?
    requires Present(f, value)
    ensures ValidateField(f.Key(), value, formData) ==
      if FormatHolds(f, value, formData) then "" else f.InvalidMessage()
  {
    assert f != Terminos ==> value == Text(value.s);
    match f {
      case Nombres => ValidateNameFormat(f, value.s, formData);
      case Apellidos => ValidateNameFormat(f, value.s, formData);
      case Email => ValidateEmailFormat(value.s, formData);
      case Telefono => ValidatePhoneFormat(value.s, formData);
      case Password => ValidatePasswordFormat(value.s, formData);
      case PasswordConfirmation => ValidateConfirmation(value.s, formData);
      case Terminos => ValidateTerms(value, formData);
    }
  }

  /** The error message is non-empty exactly when the field fails one of
      its checks, for every field and every value. */
  lemma ValidateFieldFailsIff(f: Field, value: Value, formData: Option<FormData>)
    requires f != Terminos ==> !value.Flag?
    ensures ValidateField(f.Key(), value, formData) != "" <==>
      !Present(f, value) || !FormatHolds(f, value, formData)
  {
    if Present(f, value) {
      ValidateFormat(f, value, formData);
    } else {
      ValidateRequired(f, value, formData);
    }
  }

  /** Without form data the confirmation is only checked for presence;
      with it, the mismatch message comes exactly when the trimmed password
      and the trimmed confirmation differ. */
  lemma ValidateConfirmation(value: string, formData: Option<FormData>)
    requires !AllWhitespace(value)
    ensures formData.None? ==> ValidateField("passwordConfirmation", Text(value), formData) == ""
    ensures formData.Some? ==>
      (ValidateField("passwordConfirmation", Text(value), formData) == InvalidPasswordConfirmation
       <==> Trim(formData.value.password) != Trim(value))
    ensures ValidateField(PasswordConfirmation.Key(), Text(value), formData) ==
      if FormatHolds(PasswordConfirmation, Text(value), formData) then "" else PasswordConfirmation.InvalidMessage()
  {
    assert FieldNamed("passwordConfirmation") == Some(PasswordConfirmation);
    assert IsNotEmpty(Text(value));
  }

  /** The terms are accepted only by the boolean `true`; anything else gets
      the one message the catalog has for them. */
  lemma ValidateTerms(value: Value, formData: Option<FormData>)
    ensures ValidateField("terminos", value, formData) ==
      (if value == Flag(true) then "" else RequiredTerminos)
    ensures ValidateField(Terminos.Key(), value, formData) ==
      if FormatHolds(Terminos, value, formData) then "" else Terminos.InvalidMessage()
  {
  }

  /** A name or surname of two or more characters is always rejected: the
      name expression has no repetition operator. */
  lemma LongNameRejected(f: Field, name: string, formData: Option<FormData>)
    requires f == Nombres || f == Apellidos
    requires |Trim(name)| >= 2
    ensures ValidateField(f.Key(), Text(name), formData) == f.InvalidMessage()
  {
    TrimEmpty(name);
    ValidateNameFormat(f, name, formData);
  }

  /** Ten digits, the length the catalog's message asks for, are rejected. */
  lemma TenDigitPhoneRejected(phone: string, formData: Option<FormData>)
    requires |phone| == 10 && forall k :: 0 <= k < |phone| ==> IsAsciiDigit(phone[k])
    ensures ValidateField("telefono", Text(phone), formData) == Telefono.InvalidMessage()
  {
    assert !AllWhitespace(phone) by { assert !IsWhitespace(phone[0]); }
    ValidatePhoneFormat(phone, formData);
  }

  /** Nine digits are accepted. */
  lemma NineDigitPhoneAccepted(phone: string, formData: Option<FormData>)
    requires |phone| == 9 && forall k :: 0 <= k < |phone| ==> IsAsciiDigit(phone[k])
    ensures ValidateField("telefono", Text(phone), formData) == ""
  {
    assert !AllWhitespace(phone) by { assert !IsWhitespace(phone[0]); }
    ValidatePhoneFormat(phone, formData);
  }
}
