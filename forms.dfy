/** The parts of Angular's reactive forms that the two pages rely on, as
    assumed behaviour: the built-in validators named in `createForm`, the
    set of error keys a control carries, the ordered error-to-message
    tables the pages' `getErrorMessage` cascades walk, and the
    password-visibility toggle both pages share. A control's errors are the
    union of its validators' keys, the empty set standing for Angular's
    `null`. */
module Forms {
  import opened Js

  /** The keys of Angular's `ValidationErrors` objects that the two pages
      produce or test. `requiredTrue` is tested by a page but never produced:
      Angular's `requiredTrue` reports under `required`. */
  datatype ErrorKey =
    | RequiredKey
    | RequiredTrueKey
    | MinLengthKey
    | MaxLengthKey
    | PatternKey
    | EmailKey
    | PasswordStrengthKey
    | PasswordMismatchKey
  {
    /** The key as it appears in the errors object. */
    function Name(): string
    {
      match this
      case RequiredKey => "required"
      case RequiredTrueKey => "requiredTrue"
      case MinLengthKey => "minlength"
      case MaxLengthKey => "maxlength"
      case PatternKey => "pattern"
      case EmailKey => "email"
      case PasswordStrengthKey => "passwordStrength"
      case PasswordMismatchKey => "passwordMismatch"
    }
  }

  /** A validator in a control's rule list. `Pattern` carries the test of its
      anchored expression; `Custom` a page's own validator over a string. */
  datatype Rule =
    | Required
    | RequiredTrue
    | MinLength(min: nat)
    | MaxLength(max: nat)
    | Pattern(test: string -> bool)
    | EmailFormat
    | Custom(check: string -> set<ErrorKey>)

  /** Angular's notion of an empty input: null, undefined or "". */
  predicate IsEmptyInputValue(v: Value)
  {
    v.Nothing? || v == Text("")
  }

  /** The string-only validators are given to text controls alone. */
  predicate Applies(rule: Rule, v: Value)
  {
    rule.Required? || rule.RequiredTrue? || v.Text?
  }

  /** The keys one validator reports. `requiredTrue` reports under the key
      `required`; `minlength`, `pattern` and `email` pass an empty input;
      `emailOk` stands for the expression inside `Validators.email`. */
  function RuleErrors(rule: Rule, v: Value, emailOk: string -> bool): (errs: set<ErrorKey>)
    requires Applies(rule, v)
    ensures rule.Required? ==> (errs != {} <==> IsEmptyInputValue(v))
    ensures rule.RequiredTrue? ==> (errs != {} <==> v != Flag(true))
    ensures rule.MinLength? ==> (errs != {} <==> v.s != "" && |v.s| < rule.min)
    ensures rule.MaxLength? ==> (errs != {} <==> |v.s| > rule.max)
    ensures rule.Pattern? ==> (errs != {} <==> v.s != "" && !rule.test(v.s))
    ensures rule.EmailFormat? ==> (errs != {} <==> v.s != "" && !emailOk(v.s))
    ensures rule.Required? || rule.RequiredTrue? ==> errs <= {RequiredKey}
    ensures rule.MinLength? ==> errs <= {MinLengthKey}
    ensures rule.MaxLength? ==> errs <= {MaxLengthKey}
    ensures rule.Pattern? ==> errs <= {PatternKey}
    ensures rule.EmailFormat? ==> errs <= {EmailKey}
  {
    match rule
    case Required => if IsEmptyInputValue(v) then {RequiredKey} else {}
    case RequiredTrue => if v == Flag(true) then {} else {RequiredKey}
    case MinLength(n) => if v.s != "" && |v.s| < n then {MinLengthKey} else {}
    case MaxLength(n) => if |v.s| > n then {MaxLengthKey} else {}
    case Pattern(test) => if v.s != "" && !test(v.s) then {PatternKey} else {}
    case EmailFormat => if v.s != "" && !emailOk(v.s) then {EmailKey} else {}
    case Custom(check) => check(v.s)
  }

  /** A control's errors: the union of what each of its validators reports. */
  function ErrorsOf(rules: seq<Rule>, v: Value, emailOk: string -> bool): (errs: set<ErrorKey>)
    requires forall i :: 0 <= i < |rules| ==> Applies(rules[i], v)
    ensures forall key :: key in errs <==>
      exists i :: 0 <= i < |rules| && key in RuleErrors(rules[i], v, emailOk)
  {
    if rules == [] then {}
    else
      var rest := ErrorsOf(rules[1..], v, emailOk);
      assert forall i :: 1 <= i < |rules| ==> rules[i] == rules[1..][i - 1];
      RuleErrors(rules[0], v, emailOk) + rest
  }

  /** A control is valid exactly when each of its validators passes. */
  lemma ErrorsOfEmpty(rules: seq<Rule>, v: Value, emailOk: string -> bool)
    requires forall i :: 0 <= i < |rules| ==> Applies(rules[i], v)
    ensures ErrorsOf(rules, v, emailOk) == {} <==>
      forall i :: 0 <= i < |rules| ==> RuleErrors(rules[i], v, emailOk) == {}
  {
    var errs := ErrorsOf(rules, v, emailOk);
    if errs != {} {
      var key :| key in errs;
    }
    if exists i :: 0 <= i < |rules| && RuleErrors(rules[i], v, emailOk) != {} {
      var i :| 0 <= i < |rules| && RuleErrors(rules[i], v, emailOk) != {};
      var key :| key in RuleErrors(rules[i], v, emailOk);
      assert key in errs;
    }
  }

  /** Where a `getErrorMessage` test looks: the control's own errors or the
      form group's. */
  datatype Check = OnControl(key: ErrorKey) | OnForm(key: ErrorKey)

  predicate Fires(c: Check, control: set<ErrorKey>, form: set<ErrorKey>)
  {
    match c
    case OnControl(key) => key in control
    case OnForm(key) => key in form
  }

  /** An entry of a message table: a test and the message it returns. */
  type Entry = (Check, string)

  predicate MessagesNonEmpty(table: seq<Entry>)
  {
    forall i :: 0 <= i < |table| ==> table[i].1 != ""
  }

  /** The message of the first entry whose test fires, or "" when none does. */
  function FirstMatch(table: seq<Entry>, control: set<ErrorKey>, form: set<ErrorKey>): (r: string)
    requires MessagesNonEmpty(table)
    ensures r == "" <==> forall i :: 0 <= i < |table| ==> !Fires(table[i].0, control, form)
    ensures r != "" ==>
      exists i :: (0 <= i < |table| && Fires(table[i].0, control, form) && r == table[i].1 &&
                   forall j :: 0 <= j < i ==> !Fires(table[j].0, control, form))
  {
    if table == [] then ""
    else if Fires(table[0].0, control, form) then table[0].1
    else
      var r := FirstMatch(table[1..], control, form);
      assert forall i :: 1 <= i < |table| ==> table[i] == table[1..][i - 1];
      r
  }

  /** An entry that fires wins over every entry after it. */
  lemma {:induction false} FirstMatchPriority(table: seq<Entry>, control: set<ErrorKey>, form: set<ErrorKey>, i: nat)
    requires MessagesNonEmpty(table)
    requires i < |table| && Fires(table[i].0, control, form)
    requires forall j :: 0 <= j < i ==> !Fires(table[j].0, control, form)
    ensures FirstMatch(table, control, form) == table[i].1
  {
    if i > 0 {
      assert forall j :: 0 <= j < i - 1 ==> table[1..][j] == table[j + 1];
      FirstMatchPriority(table[1..], control, form, i - 1);
    }
  }

  /** Every key in `keys` has an entry of `table` that tests the control for it. */
  predicate Covers(table: seq<Entry>, keys: set<ErrorKey>)
  {
    forall key :: key in keys ==> exists i :: 0 <= i < |table| && table[i].0 == OnControl(key)
  }

  /** Some entry of `table` tests the form group for a key it carries. */
  predicate FormFires(table: seq<Entry>, form: set<ErrorKey>)
  {
    exists i :: 0 <= i < |table| && table[i].0.OnForm? && table[i].0.key in form
  }

  /** When the table covers every key the control can carry, a message is
      produced exactly when the control has an error or a form-level entry
      fires. */
  lemma FirstMatchReportsAll(table: seq<Entry>, control: set<ErrorKey>, form: set<ErrorKey>, keys: set<ErrorKey>)
    requires MessagesNonEmpty(table) && Covers(table, keys) && control <= keys
    ensures FirstMatch(table, control, form) != "" <==> control != {} || FormFires(table, form)
  {
    if control != {} {
      var key :| key in control;
      var i :| 0 <= i < |table| && table[i].0 == OnControl(key);
      assert Fires(table[i].0, control, form);
    }
    if FormFires(table, form) {
      var i :| 0 <= i < |table| && table[i].0.OnForm? && table[i].0.key in form;
      assert Fires(table[i].0, control, form);
    }
    if FirstMatch(table, control, form) != "" {
      var i :| 0 <= i < |table| && Fires(table[i].0, control, form);
      if table[i].0.OnControl? { assert table[i].0.key in control; }
    }
  }

  /** What a page's submit handler ends with: the error toast, or the
      payload it hands on and the route it navigates to. */
  datatype Submission<K> = Rejected(toast: string) | Sent(payload: map<K, Value>, route: string)

  /** What follows a control's label in its `required` message. */
  const RequiredSuffix: string := " es requerido"

  /** The toast of a rejected submission. */
  const CorrectErrorsToast: string := "Por favor, corrige los errores en el formulario"

  /** The two values an `<input type>` toggles between. */
  predicate IsInputType(t: string)
  {
    t == "password" || t == "text"
  }

  /** The visibility toggle: `'password'` becomes `'text'`, anything else
      becomes `'password'`. */
  function Toggled(t: string): (r: string)
    ensures IsInputType(r)
    ensures r != t || !IsInputType(t)
  {
    if t == "password" then "text" else "password"
  }

  /** Toggling twice restores either input type. */
  lemma ToggleTwice(t: string)
    requires IsInputType(t)
    ensures Toggled(Toggled(t)) == t
  {
  }
}
