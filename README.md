# Onboarding form validation

This project is a Dafny model of the validation logic of an Ionic/Angular
onboarding front end. It covers three parts:

- `ValidatorsService` is a pure rule engine. `validateField(fieldName,
  value, formData?)` checks a field's presence first and its format second.
  It returns the field's "required" message, its "invalid" message, or `''`.
- The registration page (`RegistratePage`) has:
  - the rule table of its reactive form;
  - two custom validators: password strength, and password match at the
    form-group level;
  - the `getErrorMessage` cascade, which turns a control's error keys into
    one Spanish message;
  - `hasError`, which gates when an error is displayed;
  - `trimFormData`, which normalises values before submission;
  - the `Registrarse` submit handler;
  - the two password-visibility toggles.
- The login page (`LoginPage`) is a two-control version of the same
  registration-page pieces.

Modules:

- `Js` holds the JavaScript string built-ins the code relies on:
  - `trim` over the ECMAScript whitespace and line-terminator set;
  - `replace(/\s/g, '')`;
  - `toLowerCase`, for ASCII and Latin-1.

  It also holds the `Value` type for what a control holds: a string, a
  boolean, or nothing.
- `Validators` holds the service:
  - each anchored regular expression, written as an explicit predicate over
    `seq<char>`;
  - a plain characterisation of each expression (`EmailShape`,
    `StrongPassword`), with a proof that the two agree;
  - the message catalog;
  - the `switch` of `validateField`.
- `Forms` holds the parts of Angular's reactive forms the pages depend on,
  as stated assumptions:
  - the built-in validators `required`, `requiredTrue`, `minLength`,
    `maxLength`, `pattern` and `email`, given as the error keys each one
    reports;
  - a control's errors, as the union of the keys its validators report;
  - the "first entry that fires" message table that both `getErrorMessage`
    cascades walk.
- `Registrate` and `Login` hold the two pages. Each page is a class:
  - its form state lives in fields: a value per control, the `touched` and
    `dirty` sets, `isSubmitted` and the input types;
  - a control's error set is computed from the page's own rule table, so the
    message cascade, the display gating and the submit flow are all stated
    over the actual validators.

The model follows the code, including its quirks:

- The service's name expression has no `+`, so only a single letter passes.
- The service's phone rule is exactly nine digits, although its message
  says ten.
- The registration page has no label for `terminos`. Angular's
  `requiredTrue` reports under `required`, so the page shows
  "undefined es requerido" and never its own terms message.
- The form-level password match compares without trimming. The service
  trims both values before comparing them.

Notes on the code:

- Neither page calls `ValidatorsService`. Each page validates through its
  own Angular rule table.
- A rejected submission shows one fixed toast, "Por favor, corrige los
  errores en el formulario". It does not show the first field's message.
- There is no per-field real-time validation handler in the code. Angular
  recomputes errors from the current values, so the model computes every
  error set from the values, and a confirmation error follows the password
  automatically.

## Model

| member | source | states |
|---|---|---|
| Js.Trim | src/assets/validators/validators.service.ts:34 | `trim()`: the result is a contiguous slice of the input, neither end is whitespace, and everything cut off on either side is whitespace |
| Js.TrimEmpty | src/assets/validators/validators.service.ts:33-35 | a string trims to empty exactly when it is all whitespace, which is when `isNotEmpty` fails on it |
| Js.RemoveWhitespace | src/assets/validators/validators.service.ts:55 | `replace(/\s/g, '')` leaves no whitespace, never lengthens, and leaves whitespace-free strings alone |
| Js.RemoveWhitespaceIgnoresTrim | src/assets/validators/validators.service.ts:55 | trimming before removing all whitespace changes nothing |
| Js.ToLower | src/app/pages/registrate/registrate.page.ts:185 | `toLowerCase()` keeps the length and leaves no ASCII capital; position by position, every ASCII or Latin-1 capital rises by 0x20 to its lower-case letter and every other character is kept, so whitespace stays where it was |
| Js.LowerChar | src/app/pages/registrate/registrate.page.ts:185 | one character lower-cased: an ASCII capital's code point rises by 0x20, other characters below U+00C0 are unchanged, and whitespace is preserved |
| Js.TrimIdempotent | src/app/pages/registrate/registrate.page.ts:183-186 | trimming twice is trimming once |
| Js.TrimOfLower | src/app/pages/registrate/registrate.page.ts:185 | trimming and lower-casing commute |
| Js.TrimLowerIdempotent | src/app/pages/login/login.page.ts:91 | the trimmed, lower-cased e-mail is a fixed point of trimming and of trim-then-lower-case |
| Validators.Field.RequiredMessage | src/assets/validators/validators.service.ts:9-18 | every field has a non-empty `required` message |
| Validators.Field.InvalidMessage | src/assets/validators/validators.service.ts:19-27 | every `invalid` message is non-empty and differs from the field's `required` message, except for `terminos`, where the two are the same text |
| Validators.FieldNamed | src/assets/validators/validators.service.ts:77-111 | a field name maps to the field whose key it is, and to none when no field has that key |
| Validators.IsNotEmpty | src/assets/validators/validators.service.ts:33-35 | a value is present exactly when it is a string that is not all whitespace |
| Validators.IsValidName | src/assets/validators/validators.service.ts:38-42 | a name passes exactly when its trimmed form is one ASCII or accented letter |
| Validators.EmailRegexIsShape | src/assets/validators/validators.service.ts:47 | `^[^\s@]+@[^\s@]+\.[^\s@]+$` matches exactly the strings with no whitespace, one `@` with something before it, and a `.` after it that is neither the domain's first nor its last character |
| Validators.IsValidEmail | src/assets/validators/validators.service.ts:45-49 | an e-mail passes exactly when its trimmed form has that shape |
| Validators.IsValidPhone | src/assets/validators/validators.service.ts:52-56 | a phone passes exactly when removing all its whitespace leaves nine ASCII digits |
| Validators.PasswordRegexIsStrong | src/assets/validators/validators.service.ts:61 | the look-ahead expression matches exactly the strings of at least 8 characters from `[a-zA-Z0-9@$!%*?&]` that contain a lower-case letter, an upper-case letter and a digit |
| Validators.IsValidPassword | src/assets/validators/validators.service.ts:59-63 | a password passes exactly when its trimmed form is strong in that sense |
| Validators.PasswordsMatch | src/assets/validators/validators.service.ts:66-68 | equal values always match, and matching values have the same characters once all whitespace is removed |
| Validators.TermsAccepted | src/assets/validators/validators.service.ts:71-73 | the strict test: only a boolean can pass, and a boolean passes exactly when it is `true` |
| Validators.ValidateField | src/assets/validators/validators.service.ts:76-113 | the result is `''`, the field's `required` message or its `invalid` message, and always `''` for a name the switch does not handle |
| Validators.ValidateUnknownName | src/assets/validators/validators.service.ts:77-112 | a name outside the seven cases gets `''` whatever the value |
| Validators.ValidateRequired | src/assets/validators/validators.service.ts:78-104 | a text field that is missing or all whitespace gets its `required` message, and the format check is not reached |
| Validators.ValidateNameFormat | src/assets/validators/validators.service.ts:78-86 | a non-blank name or surname gets `''` when it is a single letter once trimmed, and the field's `invalid` message otherwise |
| Validators.ValidateEmailFormat | src/assets/validators/validators.service.ts:88-91 | a non-blank e-mail gets `''` exactly when its trimmed form has the e-mail shape, and the `invalid` message otherwise |
| Validators.ValidatePhoneFormat | src/assets/validators/validators.service.ts:93-96 | a non-blank phone gets `''` exactly when its whitespace-free form is nine digits, and the `invalid` message otherwise |
| Validators.ValidatePasswordFormat | src/assets/validators/validators.service.ts:98-101 | a non-blank password gets `''` exactly when its trimmed form is strong, and the `invalid` message otherwise |
| Validators.ValidateConfirmation | src/assets/validators/validators.service.ts:103-106 | without form data a present confirmation passes; with form data it gets the mismatch message exactly when the trimmed password and the trimmed confirmation differ |
| Validators.ValidateTerms | src/assets/validators/validators.service.ts:108-110 | the terms pass only for the boolean `true`; any other value gets the single terms message |
| Validators.ValidateFormat | src/assets/validators/validators.service.ts:76-113 | for every field, a present value gets `''` exactly when the field's format rule holds, and its `invalid` message otherwise |
| Validators.ValidateFieldFailsIff | src/assets/validators/validators.service.ts:76-113 | for every field and value, the message is non-empty exactly when the presence check or the format check fails |
| Validators.LongNameRejected | src/assets/validators/validators.service.ts:38-42 | any name or surname whose trimmed form has two or more characters gets the `invalid` message |
| Validators.TenDigitPhoneRejected | src/assets/validators/validators.service.ts:52-56 | every ten-digit phone number is rejected, although the message asks for ten digits |
| Validators.NineDigitPhoneAccepted | src/assets/validators/validators.service.ts:52-56 | every nine-digit phone number is accepted |
| Forms.RuleErrors | src/app/pages/registrate/registrate.page.ts:30-67 | the keys each assumed Angular validator reports: `required` on an empty input, `requiredTrue` (under `required`) on anything but `true`, and length, pattern and email errors only on non-empty strings that break them |
| Forms.ErrorsOf | src/app/pages/registrate/registrate.page.ts:30-67 | a control carries a key exactly when one of its validators reports it |
| Forms.ErrorsOfEmpty | src/app/pages/registrate/registrate.page.ts:30-67 | a control is valid exactly when every one of its validators passes |
| Forms.FirstMatch | src/app/pages/registrate/registrate.page.ts:109-171 | a cascade returns `''` exactly when no test fires; otherwise it returns the message of a test that fires and that no earlier firing test precedes |
| Forms.FirstMatchPriority | src/app/pages/registrate/registrate.page.ts:109-171 | a firing test wins over every test after it |
| Forms.FirstMatchReportsAll | src/app/pages/registrate/registrate.page.ts:109-171 | when a cascade tests every key its control can carry, it produces a message exactly when the control has an error or a form-level test fires |
| Forms.Toggled | src/app/pages/registrate/registrate.page.ts:239-241 | the toggle always yields `'password'` or `'text'`, and it changes either of them |
| Registrate.PasswordStrengthValidator | src/app/pages/registrate/registrate.page.ts:70-85 | nothing for an empty value; otherwise `passwordStrength` exactly when the value lacks an ASCII digit, an upper-case letter or a lower-case letter |
| Registrate.NamePattern | src/app/pages/registrate/registrate.page.ts:36 | on a single character the page's name pattern agrees with the service's name expression |
| Registrate.NamePatternAppend | src/app/pages/registrate/registrate.page.ts:36 | the pattern repeats its class: joining two accepted names gives an accepted name |
| Registrate.PhonePattern | src/app/pages/registrate/registrate.page.ts:50 | no string the page's phone pattern accepts passes the service's nine-digit expression as typed |
| Registrate.TenDigitsSplitRules | src/app/pages/registrate/registrate.page.ts:48-51 | every ten-digit number passes the page's phone pattern and is refused by the service |
| Registrate.Rules | src/app/pages/registrate/registrate.page.ts:30-67 | every control's validator list starts with a presence validator (`requiredTrue` for the terms, `required` otherwise), and its length bounds admit some length |
| Registrate.PasswordMatchValidator | src/app/pages/registrate/registrate.page.ts:88-97 | nothing when either control is missing; otherwise `passwordMismatch` exactly when the two values are not strictly equal |
| Registrate.AllAcceptedIff | src/app/pages/registrate/registrate.page.ts:30-67 | every control is free of errors exactly when every control accepts its value |
| Registrate.ControlErrors | src/app/pages/registrate/registrate.page.ts:30-67 | a control only ever carries keys its own validators can report |
| Registrate.ControlValidIff | src/app/pages/registrate/registrate.page.ts:30-67 | a control has no error exactly when its value is present, within its length bounds (names 2 to 50, password 8 to 50) and matching its pattern or validator |
| Registrate.InitialValues | src/app/pages/registrate/registrate.page.ts:30-67 | the form starts well formed, with `''` in every text control and `false` in the terms |
| Registrate.ErrorMessage | src/app/pages/registrate/registrate.page.ts:109-171 | `getErrorMessage` is the first-match cascade over the field's table, with `required` first |
| Registrate.PriorityCovers | src/app/pages/registrate/registrate.page.ts:109-171 | each field's cascade tests every key its control can carry |
| Registrate.MessageIffErrors | src/app/pages/registrate/registrate.page.ts:109-171 | a field's message is non-empty exactly when its control has an error, or, for the confirmation, when the group reports a mismatch |
| Registrate.FormFiresOnMismatch | src/app/pages/registrate/registrate.page.ts:164-168 | the only group-level test in any cascade is the confirmation's mismatch test |
| Registrate.RequiredOutranks | src/app/pages/registrate/registrate.page.ts:112-122 | a `required` error outranks every other error of the field |
| Registrate.TermsMessage | src/app/pages/registrate/registrate.page.ts:112-126 | the terms show `''` when accepted and "undefined es requerido" otherwise, never their own message |
| Registrate.MinLengthFirst | src/app/pages/registrate/registrate.page.ts:128-162 | for names and the password, a too-short value is reported before any other error but `required` |
| Registrate.MaxLengthSecond | src/app/pages/registrate/registrate.page.ts:128-162 | then a too-long value is reported before a pattern or strength error |
| Registrate.ConfirmationMessage | src/app/pages/registrate/registrate.page.ts:164-168 | the confirmation's message depends only on its own `required` error and on the group's mismatch |
| Registrate.StrengthIgnoresSpecials | src/app/pages/registrate/registrate.page.ts:70-85 | appending a special character to a non-empty value never changes the strength verdict |
| Registrate.ServiceStrongIsPageStrong | src/app/pages/registrate/registrate.page.ts:70-85 | a password the service finds strong passes the page's strength check |
| Registrate.MatchIsStrict | src/app/pages/registrate/registrate.page.ts:88-97 | a confirmation that differs only by a trailing space is a mismatch |
| Registrate.ServiceMatchTrims | src/assets/validators/validators.service.ts:66-68 | for every password, the service accepts that same confirmation, because it trims both values |
| Js.TrimOfSpaced | src/assets/validators/validators.service.ts:67 | `trim()` gives the same result with or without one trailing space, for every string |
| Registrate.Trimmed | src/app/pages/registrate/registrate.page.ts:182-194 | normalisation keeps the form well formed and changes only the names, the e-mail and the telephone |
| Registrate.NormalisedNormalForm | src/app/pages/registrate/registrate.page.ts:182-194 | after normalisation the names are trimmed, the e-mail is trimmed with no ASCII capital, and the telephone has no whitespace |
| Registrate.NormalisedIdempotent | src/app/pages/registrate/registrate.page.ts:182-194 | normalising a value twice is normalising it once |
| Registrate.TrimmedIdempotent | src/app/pages/registrate/registrate.page.ts:182-194 | normalising the whole form twice is normalising it once, so a second submit sends the same values |
| Registrate.Payload | src/app/pages/registrate/registrate.page.ts:215-218 | the payload holds every value except the confirmation, unchanged |
| Registrate.RegistratePage.constructor | src/app/pages/registrate/registrate.page.ts:15-17 | the page starts with the initial values, nothing touched or dirty, no submission, and both inputs hidden |
| Registrate.RegistratePage.GetErrorMessage | src/app/pages/registrate/registrate.page.ts:109-171 | `''` for an unknown name; otherwise a message exactly when the control has an error, or, for the confirmation, when the passwords differ |
| Registrate.RegistratePage.Invalid | src/app/pages/registrate/registrate.page.ts:203 | the form is invalid exactly when some field has something to report, and exactly when some control refuses its value or the two passwords differ |
| Registrate.RegistratePage.HasError | src/app/pages/registrate/registrate.page.ts:174-179 | an error is shown only for a known field with something to report; once the field is dirty or touched, or a submit was attempted, it is shown exactly then; before that, only the confirmation's mismatch is shown |
| Registrate.RegistratePage.TrimFormData | src/app/pages/registrate/registrate.page.ts:182-194 | the new values are the normalised old ones, and the page stays well formed |
| Registrate.RegistratePage.Registrarse | src/app/pages/registrate/registrate.page.ts:196-233 | sets `isSubmitted` and normalises; an invalid form gets every control touched and the error toast; a valid one leaves `touched` alone and sends the payload to `/login` |
| Registrate.RegistratePage.MarkAllAsTouched | src/app/pages/registrate/registrate.page.ts:205-207 | the loop adds every control to `touched` |
| Registrate.RegistratePage.TogglePasswordVisibility | src/app/pages/registrate/registrate.page.ts:239-241 | the password input type becomes its toggle |
| Registrate.RegistratePage.TogglePasswordConfirmVisibility | src/app/pages/registrate/registrate.page.ts:243-245 | the confirmation input type becomes its toggle |
| Registrate.ValidFormShowsNothing | src/app/pages/registrate/registrate.page.ts:109-179 | a form with no error shows no error and no message under any field |
| Registrate.ShownHasMessage | src/app/pages/registrate/registrate.page.ts:109-179 | every error `hasError` shows has a non-empty message |
| Registrate.SubmittedValuesAccepted | src/app/pages/registrate/registrate.page.ts:203-218 | values sent on a valid submit satisfy every control's rules, and the password equals its confirmation |
| Login.ControlNamed | src/app/pages/login/login.page.ts:58-59 | only `email` and `password` name a control, and each names the control with that key |
| Login.EmailPattern | src/app/pages/login/login.page.ts:38 | a match has at least six characters, starts with a local-part character and ends in two ASCII letters |
| Login.Rules | src/app/pages/login/login.page.ts:33-46 | each control's validator list starts with `required`, and its length bounds admit some length |
| Login.ControlErrors | src/app/pages/login/login.page.ts:33-46 | a control only ever carries keys its own validators can report |
| Login.ControlValidIff | src/app/pages/login/login.page.ts:33-46 | the e-mail is valid exactly when it is non-empty and passes both the `email` validator and the pattern; the password exactly when its length is 6 to 50 |
| Login.InitialValues | src/app/pages/login/login.page.ts:33-46 | both controls start as empty strings |
| Login.ErrorMessage | src/app/pages/login/login.page.ts:58-81 | `getErrorMessage` is the first-match cascade over the control's table, with `required` first |
| Login.PriorityCovers | src/app/pages/login/login.page.ts:58-81 | each cascade tests every key its control can carry |
| Login.MessageIffErrors | src/app/pages/login/login.page.ts:58-81 | a control's message is non-empty exactly when it has an error |
| Login.RequiredOutranks | src/app/pages/login/login.page.ts:61-63 | `required` wins first, labelled `Email` or `Contraseña` |
| Login.EmailFormatMessage | src/app/pages/login/login.page.ts:65-69 | an `email` error and a `pattern` error on the e-mail give the same message |
| Login.MinLengthFirst | src/app/pages/login/login.page.ts:71-78 | a too-short password is reported before a too-long one, with the minimum of 6 in its message |
| Login.PatternImpliesServiceEmail | src/app/pages/login/login.page.ts:38 | every address the login pattern accepts also passes the service's e-mail expression |
| Login.OneLetterDomainRefused | src/app/pages/login/login.page.ts:38 | an address ending in a one-letter top-level domain fails the pattern |
| Login.NormalisedEmail | src/app/pages/login/login.page.ts:91 | a string e-mail stays a string and never grows |
| Login.NormalisedEmailNormalForm | src/app/pages/login/login.page.ts:91 | the normalised e-mail is trimmed with no ASCII capital, and normalising it again changes nothing |
| Login.Trimmed | src/app/pages/login/login.page.ts:90-95 | normalisation keeps the form well formed, keeps its keys, and leaves the password unchanged |
| Login.TrimmedIdempotent | src/app/pages/login/login.page.ts:90-95 | normalising the form twice is normalising it once |
| Login.LoginPage.constructor | src/app/pages/login/login.page.ts:29-31 | the page starts with empty values, nothing touched or dirty, no submission, and the password hidden |
| Login.LoginPage.GetErrorMessage | src/app/pages/login/login.page.ts:58-81 | `''` for an unknown name; otherwise a message exactly when the control has an error |
| Login.InvalidIffRefused | src/app/pages/login/login.page.ts:128 | `loginForm.invalid` holds exactly when one of the two controls refuses its value |
| Login.LoginPage.HasError | src/app/pages/login/login.page.ts:84-87 | nothing is shown for an unknown name; once the control is dirty or touched, or a submit was attempted, an error is shown exactly when it has one; before that, nothing is shown |
| Login.LoginPage.TrimFormData | src/app/pages/login/login.page.ts:90-95 | the new values are the normalised old ones, and the page stays well formed |
| Login.LoginPage.Login | src/app/pages/login/login.page.ts:121-155 | sets `isSubmitted` and normalises; an invalid form gets every control touched and the error toast; a valid one leaves `touched` alone and sends the values to `/home` |
| Login.LoginPage.MarkAllAsTouched | src/app/pages/login/login.page.ts:130-132 | the loop adds every control to `touched` |
| Login.LoginPage.TogglePasswordVisibility | src/app/pages/login/login.page.ts:169-171 | the input type becomes its toggle |
| Login.ValidFormShowsNothing | src/app/pages/login/login.page.ts:58-87 | a form with no error shows no error and no message under any field |
| Login.ShownHasMessage | src/app/pages/login/login.page.ts:58-87 | every error `hasError` shows has a non-empty message |
| Login.SubmittedValuesAccepted | src/app/pages/login/login.page.ts:121-149 | an e-mail sent on a valid submit matches the login pattern and the service's e-mail expression, and the password has 6 to 50 characters |

## Left out

- Toasts (`presentErrorToast`, `presentSuccessToast`), `router.navigate` and `console.log` are not modelled as effects. A submission's outcome keeps only the error toast's text, or the payload and the route navigated to.
- The `async`/`await` shell and the `try`/`catch` around the success path are left out. The `catch` branch runs when a success toast cannot be created. It is left out along with the toasts, so its error toast is not modelled.
- Angular's `Validators.email` is not modelled. Its expression lives in the framework, not in this code. Each page takes it as the parameter `emailOk`.
- The other built-in Angular validators are not modelled from the framework's source. They are stated as assumptions in `Forms.RuleErrors`.
- Angular's `markAsTouched`, `patchValue` and change detection are represented only by their effect on the page's fields. `dirty` is set only from the template, so no method here writes it.
- String lengths are counted in Unicode characters; JavaScript counts UTF-16 code units. They differ only for characters outside the Basic Multilingual Plane.
- Js.ToLower: lower-cases ASCII and Latin-1 capitals only. Other scripts' case mappings are not modelled. Trimmed, no ASCII capital and idempotent hold for JavaScript too. Length preservation, and with it `Login.NormalisedEmail` never growing the value, holds only in the model: in JavaScript some capitals lower-case to longer strings, such as U+0130, which becomes two code units.
- Validators.ValidateField: requires a text value, or none, for the six text fields. In JavaScript a boolean there throws at `value.trim()`, and that exception path is not modelled.
- Validators.ValidateConfirmation: form data is modelled as always carrying a string `password`. In JavaScript, truthy form data whose `password` is missing, null or not a string makes `passwordsMatch` throw at `password.trim()`. That exception path is not modelled.
- The login page's unused `form` object literal, and the getters that only return a control.
- Navigation-only methods are not modelled: `GoToPage`, `RecoveryPassword`, `loginWithGoogle` and `navigateToSingUp`.
- The 404 page, the pre-login page and the route table are not part of this model. They hold presentation and configuration only.
