/**
 * The client-side contact form: `validateField`, which judges one input, and the
 * form's submit gate, which judges every input and submits only when all pass.
 */
module Validation {
  import opened Text
  import opened Patterns

  /** The parts of a form control the validator reads. */
  datatype Field = Field(
    name: string,       // the control's `name`
    inputType: string,  // the control's `type` (`text`, `email`, `checkbox`, ...)
    value: string,      // the raw, untrimmed `value`
    required: bool,     // whether it carries the `required` attribute
    checked: bool)      // the checkbox state (meaningful for checkboxes only)

  /** What `validateField` returns, with the message it shows when the field fails. */
  datatype Verdict = Verdict(valid: bool, message: string)

  /** The rules, in the order the validator applies them. */
  datatype Rule = MissingField | InvalidEmail | InvalidPhone | TooShort | ConsentRequired

  const RequiredMessage: string := "Este campo es obligatorio"
  const EmailMessage: string := "Ingresa un email válido"
  const PhoneMessage: string := "Ingresa un teléfono válido"
  const NameMessage: string := "El nombre debe tener al menos 2 caracteres"
  const PrivacyMessage: string := "Debes aceptar la política de privacidad"

  function MessageOf(rule: Rule): (m: string)
    ensures m != ""
  {
    match rule
    case MissingField => RequiredMessage
    case InvalidEmail => EmailMessage
    case InvalidPhone => PhoneMessage
    case TooShort => NameMessage
    case ConsentRequired => PrivacyMessage
  }

  predicate IsUncheckedPrivacy(f: Field) {
    f.name == "privacy" && f.inputType == "checkbox" && !f.checked
  }

  /**
   * `validateField`: trim the value, then apply the rules in order, each failing rule
   * replacing the message of the one before. The valid verdict carries the empty
   * message, and a failing one a non-empty message.
   */
  function ValidateField(f: Field): (r: Verdict)
    ensures r.valid <==> r.message == ""
  {
    Judge(f.name, f.inputType, f.required, f.checked, JsTrim(f.value))
  }

  /** The rule chain of `validateField` applied to the already trimmed value `v`. */
  function Judge(name: string, inputType: string, required: bool, checked: bool, v: string): (r: Verdict)
    ensures r.valid <==> r.message == ""
  {
    var r0 := Verdict(true, "");
    var r1 := if required && v == "" then Verdict(false, RequiredMessage) else r0;
    var r2 := if v != "" && name == "email" && !MatchesEmail(v) then Verdict(false, EmailMessage) else r1;
    var r3 := if v != "" && name == "phone" && !MatchesPhone(v) then Verdict(false, PhoneMessage) else r2;
    var r4 := if name == "name" && v != "" && |v| < 2 then Verdict(false, NameMessage) else r3;
    if name == "privacy" && inputType == "checkbox" && !checked then Verdict(false, PrivacyMessage) else r4
  }

  /** Whether `f` breaks `rule`, judged on its own. */
  predicate Breaks(f: Field, rule: Rule) {
    var v := JsTrim(f.value);
    match rule
    case MissingField => f.required && v == ""
    case InvalidEmail => f.name == "email" && v != "" && !MatchesEmail(v)
    case InvalidPhone => f.name == "phone" && v != "" && !MatchesPhone(v)
    case TooShort => f.name == "name" && |v| == 1
    case ConsentRequired => IsUncheckedPrivacy(f)
  }

  const RuleOrder: seq<Rule> := [MissingField, InvalidEmail, InvalidPhone, TooShort, ConsentRequired]

  /** The rules among `rules` that `f` breaks, in their order. */
  function Broken(f: Field, rules: seq<Rule>): seq<Rule> {
    if rules == [] then []
    else (if Breaks(f, rules[0]) then [rules[0]] else []) + Broken(f, rules[1..])
  }

  /** Every rule `f` breaks, in the validator's order. */
  function Violations(f: Field): seq<Rule> {
    Broken(f, RuleOrder)
  }

  /**
   * The validator agrees with the list of broken rules: it accepts exactly when no
   * rule is broken, and otherwise shows the message of the last broken rule.
   */
  lemma ValidateFieldReportsLastViolation(f: Field)
    ensures ValidateField(f).valid <==> Violations(f) == []
    ensures Violations(f) != [] ==>
      ValidateField(f).message == MessageOf(Violations(f)[|Violations(f)| - 1])
  {
    var vs := Violations(f);
    ViolationsInOrder(f);
    if Breaks(f, ConsentRequired) {
      assert vs[|vs| - 1] == ConsentRequired;
    } else if Breaks(f, TooShort) {
      assert vs[|vs| - 1] == TooShort;
    } else if Breaks(f, InvalidPhone) {
      assert vs[|vs| - 1] == InvalidPhone;
    } else if Breaks(f, InvalidEmail) {
      assert vs[|vs| - 1] == InvalidEmail;
    } else if Breaks(f, MissingField) {
      assert vs == [MissingField];
    } else {
      assert vs == [];
    }
  }

  /** The broken rules, written out one rule at a time. */
  lemma ViolationsInOrder(f: Field)
    ensures Violations(f) ==
      (if Breaks(f, MissingField) then [MissingField] else [])
      + (if Breaks(f, InvalidEmail) then [InvalidEmail] else [])
      + (if Breaks(f, InvalidPhone) then [InvalidPhone] else [])
      + (if Breaks(f, TooShort) then [TooShort] else [])
      + (if Breaks(f, ConsentRequired) then [ConsentRequired] else [])
  {
    var tail4 := Broken(f, RuleOrder[4..]);
    var tail3 := Broken(f, RuleOrder[3..]);
    var tail2 := Broken(f, RuleOrder[2..]);
    var tail1 := Broken(f, RuleOrder[1..]);
    assert RuleOrder[4..] == [ConsentRequired] && [ConsentRequired][1..] == [];
    assert tail4 == (if Breaks(f, ConsentRequired) then [ConsentRequired] else []) + Broken(f, []);
    assert tail3 == (if Breaks(f, TooShort) then [TooShort] else []) + tail4;
    assert tail2 == (if Breaks(f, InvalidPhone) then [InvalidPhone] else []) + tail3;
    assert tail1 == (if Breaks(f, InvalidEmail) then [InvalidEmail] else []) + tail2;
  }

  /** The value is judged after trimming, so trimming it beforehand changes nothing. */
  lemma ValidateTrimmedValue(f: Field)
    ensures ValidateField(f.(value := JsTrim(f.value))) == ValidateField(f)
  {
    var g := f.(value := JsTrim(f.value));
    TrimIdempotent(f.value, IsJsSpace);
    assert JsTrim(g.value) == JsTrim(f.value);
  }

  /**
   * A required field whose value is empty or whitespace only is rejected with the
   * "required" message (unless it is an unchecked privacy checkbox, whose message
   * comes last).
   */
  lemma BlankRequiredRejected(f: Field)
    requires f.required && forall k :: 0 <= k < |f.value| ==> IsJsSpace(f.value[k])
    requires !IsUncheckedPrivacy(f)
    ensures ValidateField(f) == Verdict(false, RequiredMessage)
  {
    TrimEmptyIffBlank(f.value, IsJsSpace);
  }

  /** An empty field that is not required passes, unless it is an unchecked privacy checkbox. */
  lemma BlankOptionalAccepted(f: Field)
    requires !f.required && forall k :: 0 <= k < |f.value| ==> IsJsSpace(f.value[k])
    requires !IsUncheckedPrivacy(f)
    ensures ValidateField(f) == Verdict(true, "")
  {
    TrimEmptyIffBlank(f.value, IsJsSpace);
  }

  /**
   * A non-blank `email` field passes exactly when its trimmed value has no whitespace,
   * exactly one `@` with something before it, and a domain with an inner `.`.
   */
  lemma EmailFieldRule(f: Field)
    requires f.name == "email" && JsTrim(f.value) != ""
    ensures ValidateField(f).valid <==> EmailShape(JsTrim(f.value))
    ensures !ValidateField(f).valid ==> ValidateField(f).message == EmailMessage
  {
    EmailPatternShape(JsTrim(f.value));
  }

  /**
   * A non-blank `phone` field passes exactly when its trimmed value, after an optional
   * leading `+`, has ten or more characters, all digits, whitespace, `-`, `(` or `)`.
   */
  lemma PhoneFieldRule(f: Field)
    requires f.name == "phone" && JsTrim(f.value) != ""
    ensures ValidateField(f).valid <==>
      |PhoneBody(JsTrim(f.value))| >= 10 && AllPhoneChars(PhoneBody(JsTrim(f.value)))
    ensures !ValidateField(f).valid ==> ValidateField(f).message == PhoneMessage
  {
    PhonePatternShape(JsTrim(f.value));
  }

  /** A `name` field of one character is too short; two or more characters pass. */
  lemma NameLengthRule(f: Field)
    requires f.name == "name" && JsTrim(f.value) != ""
    ensures |JsTrim(f.value)| == 1 ==> ValidateField(f) == Verdict(false, NameMessage)
    ensures |JsTrim(f.value)| >= 2 ==> ValidateField(f) == Verdict(true, "")
  {
  }

  /** The privacy checkbox fails exactly when it is unchecked (given it is not blank and required). */
  lemma PrivacyRule(f: Field)
    requires f.name == "privacy" && f.inputType == "checkbox"
    requires !f.required || JsTrim(f.value) != ""
    ensures ValidateField(f) == if f.checked then Verdict(true, "") else Verdict(false, PrivacyMessage)
  {
  }

  /** The error elements after the element of input `name` (if it has one) is set to `message`. */
  function ShowMessage(texts: map<string, string>, elements: set<string>, name: string, message: string): (t: map<string, string>)
    ensures t.Keys == texts.Keys + (if name in elements then {name} else {})
    ensures name in elements ==> t[name] == message
    ensures forall n :: n in texts && n != name ==> t[n] == texts[n]
  {
    if name in elements then texts[name := message] else texts
  }

  /**
   * The error elements after judging the first `n` fields of `fs` in order: the later
   * of two same-named fields wins.
   */
  function ShowVerdicts(texts: map<string, string>, elements: set<string>, fs: seq<Field>, n: nat): map<string, string>
    requires n <= |fs|
  {
    if n == 0 then texts
    else ShowMessage(ShowVerdicts(texts, elements, fs, n - 1), elements, fs[n - 1].name, ValidateField(fs[n - 1]).message)
  }

  /** Whether the first `n` fields of `fs` all pass, judged one after another. */
  predicate PassUpTo(fs: seq<Field>, n: nat)
    requires n <= |fs|
  {
    n == 0 || (PassUpTo(fs, n - 1) && ValidateField(fs[n - 1]).valid)
  }

  /** Judging one after another and accumulating agrees with judging every field. */
  lemma {:induction false} PassUpToAll(fs: seq<Field>, n: nat)
    requires n <= |fs|
    ensures PassUpTo(fs, n) <==> forall j :: 0 <= j < n ==> ValidateField(fs[j]).valid
  {
    if n > 0 {
      PassUpToAll(fs, n - 1);
    }
  }

  predicate DistinctNames(fs: seq<Field>) {
    forall i, j :: 0 <= i < j < |fs| ==> fs[i].name != fs[j].name
  }

  /**
   * When no two inputs share a name, after the first `n` inputs have been judged each
   * of their error elements shows exactly that input's message: empty for a passing
   * input.
   */
  lemma {:induction false} ShownMessagesMatchVerdicts(texts: map<string, string>, elements: set<string>, fs: seq<Field>, n: nat)
    requires DistinctNames(fs) && n <= |fs|
    ensures forall i :: 0 <= i < n && fs[i].name in elements ==>
      fs[i].name in ShowVerdicts(texts, elements, fs, n)
      && ShowVerdicts(texts, elements, fs, n)[fs[i].name] == ValidateField(fs[i]).message
  {
    if n > 0 {
      ShownMessagesMatchVerdicts(texts, elements, fs, n - 1);
    }
  }

  /**
   * The contact form: its inputs (`input`, `select` and `textarea` elements), the
   * names that have an error element (`<name>-error`), the `error` class of each
   * input, and the text of each error element.
   */
  class ContactForm {
    var fields: seq<Field>  // the inputs, whose values change as the user types
    const elements: set<string>
    const errorClass: array<bool>
    var errorText: map<string, string>

    /** One `error` flag per input. */
    ghost predicate Valid()
      reads this
    {
      errorClass.Length == |fields|
    }

    /**
     * The form as the page renders it: the inputs with their `error` classes and the
     * error elements with their texts, as the markup gives them.
     */
    constructor (fields: seq<Field>, elements: set<string>, marked: seq<bool>, texts: map<string, string>)
      requires |marked| == |fields| && texts.Keys == elements
      ensures Valid() && fresh(errorClass)
      ensures this.fields == fields && this.elements == elements
      ensures errorClass[..] == marked && errorText == texts
    {
      this.fields := fields;
      this.elements := elements;
      errorClass := new bool[|fields|](j requires 0 <= j < |marked| => marked[j]);
      errorText := texts;
    }

    /**
     * `validateField` on input `i`: the `error` class and the error element are cleared
     * and then set from this call's verdict only.
     */
    method ValidateInput(i: nat) returns (ok: bool)
      requires Valid() && i < |fields|
      modifies this, errorClass
      ensures Valid() && fields == old(fields)
      ensures ok == ValidateField(fields[i]).valid
      ensures errorClass[i] == !ok
      ensures forall j :: 0 <= j < |fields| && j != i ==> errorClass[j] == old(errorClass[j])
      ensures errorText == ShowMessage(old(errorText), elements, fields[i].name, ValidateField(fields[i]).message)
    {
      var verdict := ValidateField(fields[i]);
      errorClass[i] := false;
      if fields[i].name in elements {
        errorText := errorText[fields[i].name := ""];
      }
      ok := verdict.valid;
      if !ok {
        errorClass[i] := true;
        if fields[i].name in elements {
          errorText := errorText[fields[i].name := verdict.message];
        }
      }
    }

    /**
     * The `input` listener: the user's edit gives input `i` its new `value` and, for a
     * checkbox, its new `checked` state; an input already marked as wrong is judged
     * again on them, an unmarked one is not.
     */
    method OnInput(i: nat, value: string, checked: bool)
      requires Valid() && i < |fields|
      modifies this, errorClass
      ensures Valid() && fields == old(fields)[i := old(fields)[i].(value := value, checked := checked)]
      ensures !old(errorClass[i]) ==> errorClass[..] == old(errorClass[..]) && errorText == old(errorText)
      ensures old(errorClass[i]) ==>
        && errorClass[i] == !ValidateField(fields[i]).valid
        && (forall j :: 0 <= j < |fields| && j != i ==> errorClass[j] == old(errorClass[j]))
        && errorText == ShowMessage(old(errorText), elements, fields[i].name, ValidateField(fields[i]).message)
      ensures old(errorClass[i]) && ValidateField(fields[i]).valid ==>
        !errorClass[i] && (fields[i].name in elements ==> errorText[fields[i].name] == "")
    {
      fields := fields[i := fields[i].(value := value, checked := checked)];
      if errorClass[i] {
        var _ := ValidateInput(i);
      }
    }

    /**
     * The submit handler: every input is judged, with no short cut, and the form is
     * submitted exactly when all of them pass.
     */
    method Submit() returns (submitted: bool)
      requires Valid()
      modifies this, errorClass
      ensures Valid() && fields == old(fields)
      ensures submitted <==> forall i :: 0 <= i < |fields| ==> ValidateField(fields[i]).valid
      ensures forall i :: 0 <= i < |fields| ==> errorClass[i] == !ValidateField(fields[i]).valid
      ensures errorText == ShowVerdicts(old(errorText), elements, fields, |fields|)
    {
      submitted := true;
      var i := 0;
      while i < |fields|
        invariant 0 <= i <= |fields| && Valid() && fields == old(fields)
        invariant submitted == PassUpTo(fields, i)
        invariant forall j :: 0 <= j < i ==> errorClass[j] == !ValidateField(fields[j]).valid
        invariant errorText == ShowVerdicts(old(errorText), elements, fields, i)
      {
        var ok := ValidateInput(i);
        if !ok {
          submitted := false;
        }
        i := i + 1;
      }
      PassUpToAll(fields, |fields|);
    }
  }
}
