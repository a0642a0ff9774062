/**
 * The rule `validateField` applies to one form control (assets/js/script.js:181-214), as a
 * pure function from the control's static attributes and its current value to a verdict.
 * Clearing and showing the annotation around it is the presenter's business (Presenter, Forms).
 */
module Fields {
  import opened Optional
  import opened Text
  import opened Shapes

  /** The `type` the rule distinguishes: `email`, `tel`, or anything else (text, textarea, select). */
  datatype Kind = Email | Tel | Other

  /** A `minlength` attribute: its raw text, quoted by the message, and what `parseInt` makes of
      it (`None` for `NaN`). Parsing itself is not modelled. */
  datatype MinLength = MinLength(text: string, parsed: Option<int>)

  /** The static attributes of one input, textarea or select of a form, in document order:
      its `id`, `type`, `required`, `minlength`, the value `form.reset()` restores, and the index
      of its closest `.form-group` ancestor, if any. */
  datatype Control = Control(
    id: string,
    kind: Kind,
    required: bool,
    minLength: Option<MinLength>,
    defaultValue: string,
    group: Option<nat>)

  datatype Verdict = Pass | Fail(message: string)

  const RequiredMessage: string := "This field is required"
  const EmailMessage: string := "Please enter a valid email address"
  const PhoneMessage: string := "Please enter a valid phone number"

  /** `Minimum ${minLength} characters required`, quoting the attribute as written. */
  function MinLengthMessage(text: string): string
  {
    "Minimum " + text + " characters required"
  }

  /** The bound the minimum-length check compares with, when it runs at all: the attribute is
      present and non-empty and parses to a number. */
  function ActiveBound(c: Control): Option<int>
  {
    if c.minLength.Some? && c.minLength.value.text != "" && c.minLength.value.parsed.Some?
    then c.minLength.value.parsed
    else None
  }

  /** The four checks of `validateField`, each on the trimmed value `v`. */
  predicate MissingRequired(c: Control, v: string) { c.required && v == [] }
  predicate BadEmail(c: Control, v: string) { c.kind == Email && v != [] && !IsValidEmail(v) }
  predicate BadPhone(c: Control, v: string) { c.kind == Tel && v != [] && !IsValidPhone(v) }
  predicate TooShort(c: Control, v: string) { ActiveBound(c).Some? && |v| < ActiveBound(c).value }

  /** The verdict of `validateField` on a control whose raw value is `raw`: the checks run on
      `raw.trim()`. */
  function Check(c: Control, raw: string): Verdict
  {
    CheckTrimmed(c, Trim(raw))
  }

  /** The checks on the trimmed value `v`, in the order required, email, phone, minimum length;
      the first that fails names the message. */
  function CheckTrimmed(c: Control, v: string): Verdict
  {
    if MissingRequired(c, v) then Fail(RequiredMessage)
    else if BadEmail(c, v) then Fail(EmailMessage)
    else if BadPhone(c, v) then Fail(PhoneMessage)
    else if TooShort(c, v) then Fail(MinLengthMessage(c.minLength.value.text))
    else Pass
  }

  /** A required control whose value is empty or white space fails with the required message,
      whatever its kind and minimum length. */
  lemma RequiredEmptyFails(c: Control, raw: string)
    requires c.required && forall k :: 0 <= k < |raw| ==> IsSpace(raw[k])
    ensures Check(c, raw) == Fail(RequiredMessage)
  {
    TrimEmptyIff(raw);
  }

  /** An optional control whose value is empty or white space passes unless it carries an
      active positive minimum length, in which case it fails with the minimum-length message. */
  lemma OptionalEmpty(c: Control, raw: string)
    requires !c.required && forall k :: 0 <= k < |raw| ==> IsSpace(raw[k])
    ensures Check(c, raw) == Pass <==> !(ActiveBound(c).Some? && 0 < ActiveBound(c).value)
    ensures Check(c, raw) != Pass ==> Check(c, raw) == Fail(MinLengthMessage(c.minLength.value.text))
  {
    TrimEmptyIff(raw);
  }

  /** What a pass means, check by check, in terms of the characterisations of the two shapes. */
  lemma PassMeans(c: Control, raw: string)
    ensures var v := Trim(raw);
            Check(c, raw) == Pass <==>
              (c.required ==> v != [])
              && (c.kind == Email && v != [] ==> EmailShape(v))
              && (c.kind == Tel && v != [] ==> IsValidPhone(v))
              && (ActiveBound(c).Some? ==> ActiveBound(c).value <= |v|)
  {
    EmailCharacterisation(Trim(raw));
  }

  /** Each message is given exactly when its check is the first, in source order, that fails. */
  lemma FailNamesFirstCheck(c: Control, raw: string)
    ensures var v := Trim(raw);
            (Check(c, raw) == Fail(RequiredMessage) <==> MissingRequired(c, v))
            && (Check(c, raw) == Fail(EmailMessage) <==> !MissingRequired(c, v) && BadEmail(c, v))
            && (Check(c, raw) == Fail(PhoneMessage) <==>
                  !MissingRequired(c, v) && !BadEmail(c, v) && BadPhone(c, v))
            && (c.minLength.Some? ==>
                  (Check(c, raw) == Fail(MinLengthMessage(c.minLength.value.text)) <==>
                     !MissingRequired(c, v) && !BadEmail(c, v) && !BadPhone(c, v) && TooShort(c, v)))
  {
    if c.minLength.Some? {
      MinLengthMessageDistinct(c.minLength.value.text);
    }
    assert RequiredMessage[0] == 'T' && EmailMessage[0] == 'P' && PhoneMessage[0] == 'P';
    assert EmailMessage[21] == 'e' && PhoneMessage[21] == 'p';
  }

  /** No minimum-length message, whatever the attribute text, equals one of the other three. */
  lemma MinLengthMessageDistinct(text: string)
    ensures MinLengthMessage(text) != RequiredMessage
    ensures MinLengthMessage(text) != EmailMessage
    ensures MinLengthMessage(text) != PhoneMessage
  {
    var m := MinLengthMessage(text);
    assert m[0] == 'M';
    assert RequiredMessage[0] == 'T' && EmailMessage[0] == 'P' && PhoneMessage[0] == 'P';
  }

  /** Only the trimmed value matters: surrounding white space never changes the verdict. */
  lemma CheckIgnoresPadding(c: Control, pre: string, s: string, post: string)
    requires forall k :: 0 <= k < |pre| ==> IsSpace(pre[k])
    requires forall k :: 0 <= k < |post| ==> IsSpace(post[k])
    requires s == [] || (!IsSpace(s[0]) && !IsSpace(s[|s| - 1]))
    ensures Check(c, pre + s + post) == Check(c, s)
  {
    TrimPadded(pre, s, post);
    TrimPadded([], s, []);
    assert [] + s + [] == s;
    assert Trim(pre + s + post) == Trim(s);
  }
}
