/**
 * One `form[data-ajax]` of the page and its submit button, changed in place by the handlers
 * `initForms` installs (assets/js/script.js:118-146) and the functions they call:
 * `validateForm`, `validateField`, `showFieldError`, `clearFieldError`, `submitFormAjax` and
 * `showFormSuccess`. Each method is specified by the functions of Presenter and FormRules.
 */
module Forms {
  import opened Optional
  import opened Text
  import opened Shapes
  import opened Fields
  import opened Presenter
  import opened FormRules

  /** The form's `button[type="submit"]`. */
  class Button {
    var disabled: bool
    var text: string

    constructor (text: string)
      ensures !disabled && this.text == text
    {
      disabled := false;
      this.text := text;
    }
  }

  /** What the completion timer of `submitFormAjax` closes over: the button label read when the
      form was submitted. */
  datatype Pending = Pending(originalLabel: string)

  class Form {
    /** The form's controls in document order, and its submit button if it has one. */
    const controls: seq<Control>
    const submit: Button?

    var values: seq<string>
    var ariaInvalid: seq<Option<string>>
    var ariaDescribedBy: seq<Option<string>>
    var inputError: seq<bool>
    var groups: seq<Group>
    /** Class `loading` on the form. */
    var loading: bool
    /** The `.form-success` notices at the head of the form, first child first. */
    var notices: seq<Notice>
    /** Identifies the next notice `showFormSuccess` creates. */
    var nextNotice: nat

    function View(): Dom
      reads this`values, this`ariaInvalid, this`ariaDescribedBy, this`inputError, this`groups
    {
      Dom(values, ariaInvalid, ariaDescribedBy, inputError, groups)
    }

    ghost predicate Valid()
      reads this`values, this`ariaInvalid, this`ariaDescribedBy, this`inputError, this`groups
      reads this`notices, this`nextNotice
    {
      WellFormed(controls, View()) && forall k :: 0 <= k < |notices| ==> notices[k].id < nextNotice
    }

    /** No control element itself has class `error`. */
    predicate Quiet()
      reads this`inputError
    {
      forall i :: 0 <= i < |inputError| ==> !inputError[i]
    }

    /** A form as the markup delivers it: default values, no annotation, no notice. */
    constructor (controls: seq<Control>, groupCount: nat, submit: Button?)
      requires forall i :: 0 <= i < |controls| && controls[i].group.Some? ==> controls[i].group.value < groupCount
      ensures this.controls == controls && this.submit == submit
      ensures values == Defaults(controls)
      ensures ariaInvalid == seq(|controls|, _ => None) && ariaDescribedBy == seq(|controls|, _ => None)
      ensures inputError == seq(|controls|, _ => false)
      ensures groups == seq(groupCount, _ => Group(false, []))
      ensures !loading && notices == [] && nextNotice == 0
      ensures Valid() && Quiet()
    {
      this.controls := controls;
      this.submit := submit;
      values := Defaults(controls);
      ariaInvalid := seq(|controls|, _ => None);
      ariaDescribedBy := seq(|controls|, _ => None);
      inputError := seq(|controls|, _ => false);
      groups := seq(groupCount, _ => Group(false, []));
      loading := false;
      notices := [];
      nextNotice := 0;
    }

    /** `showFieldError(field, message)` for control `i`. */
    method ShowFieldError(i: nat, message: string)
      requires Valid() && i < |controls|
      modifies this`groups, this`ariaInvalid, this`ariaDescribedBy
      ensures View() == ShowOn(controls, old(View()), i, message)
      ensures Valid()
    {
      ghost var before := View();
      match controls[i].group
      case None =>
      case Some(g) =>
        groups := groups[g := groups[g].(error := true)];
        if groups[g].messages == [] {
          groups := groups[g := groups[g].(messages := groups[g].messages + [""])];
        }
        groups := groups[g := groups[g].(messages := groups[g].messages[0 := message])];
        ghost var m0 := before.groups[g].messages;
        assert groups[g].messages == if m0 == [] then [message] else [message] + m0[1..];
        ariaInvalid := ariaInvalid[i := Some("true")];
        ariaDescribedBy := ariaDescribedBy[i := Some("error-" + controls[i].id)];
        ShowEffect(controls, before, i, message);
    }

    /** `clearFieldError(field)` for control `i`. */
    method ClearFieldError(i: nat)
      requires Valid() && i < |controls|
      modifies this`groups, this`ariaInvalid, this`ariaDescribedBy
      ensures View() == ClearOn(controls, old(View()), i)
      ensures Valid()
    {
      ghost var before := View();
      match controls[i].group
      case None =>
      case Some(g) =>
        groups := groups[g := groups[g].(error := false)];
        if groups[g].messages != [] {
          groups := groups[g := groups[g].(messages := groups[g].messages[1..])];
        }
        ariaInvalid := ariaInvalid[i := None];
        ariaDescribedBy := ariaDescribedBy[i := None];
        ClearEffect(controls, before, i);
    }

    /** `validateField(field)` for control `i`. */
    method ValidateField(i: nat) returns (ok: bool)
      requires Valid() && i < |controls|
      modifies this`groups, this`ariaInvalid, this`ariaDescribedBy
      ensures (View(), ok) == ValidateOn(controls, old(View()), i)
      ensures Valid()
    {
      var value := Trim(values[i]);
      var isRequired := controls[i].required;
      ghost var c, raw := controls[i], values[i];
      ClearFieldError(i);
      if isRequired && value == [] {
        assert Check(c, raw) == Fail(RequiredMessage);
        ShowFieldError(i, RequiredMessage);
        return false;
      }
      if controls[i].kind == Email && value != [] && !IsValidEmail(value) {
        assert Check(c, raw) == Fail(EmailMessage);
        ShowFieldError(i, EmailMessage);
        return false;
      }
      if controls[i].kind == Tel && value != [] && !IsValidPhone(value) {
        assert Check(c, raw) == Fail(PhoneMessage);
        ShowFieldError(i, PhoneMessage);
        return false;
      }
      var minLength := controls[i].minLength;
      if minLength.Some? && minLength.value.text != "" && minLength.value.parsed.Some?
        && |value| < minLength.value.parsed.value
      {
        assert Check(c, raw) == Fail(MinLengthMessage(minLength.value.text));
        ShowFieldError(i, MinLengthMessage(minLength.value.text));
        return false;
      }
      assert Check(c, raw) == Pass;
      return true;
    }

    /** `validateForm(form)`: its three `forEach` passes, AND-ed. */
    method ValidateForm() returns (isValid: bool)
      requires Valid()
      modifies this`groups, this`ariaInvalid, this`ariaDescribedBy
      ensures (View(), isValid) == ValidateFormOn(controls, old(View()))
      ensures Valid()
    {
      isValid := CheckRequired();
      var emailsValid := CheckRawValues(Email);
      if !emailsValid {
        isValid := false;
      }
      var phonesValid := CheckRawValues(Tel);
      if !phonesValid {
        isValid := false;
      }
    }

    /** The first pass of `validateForm`: `validateField` on every required control. */
    method CheckRequired() returns (isValid: bool)
      requires Valid()
      modifies this`groups, this`ariaInvalid, this`ariaDescribedBy
      ensures View() == RequiredPhase(controls, old(View()), |controls|)
      ensures isValid == RequiredResult(controls, values, |controls|)
      ensures Valid()
    {
      ghost var d0 := View();
      isValid := true;
      var k := 0;
      while k < |controls|
        invariant k <= |controls| && Valid() && values == d0.values
        invariant View() == RequiredPhase(controls, d0, k)
        invariant isValid == RequiredResult(controls, values, k)
        modifies this`groups, this`ariaInvalid, this`ariaDescribedBy
      {
        if controls[k].required {
          var ok := ValidateField(k);
          if !ok {
            isValid := false;
          }
        }
        k := k + 1;
      }
    }

    /** The second (`kind == Email`) or third (`kind == Tel`) pass of `validateForm`: the shape
        test on each non-empty raw value of that kind. */
    method CheckRawValues(kind: Kind) returns (isValid: bool)
      requires Valid()
      modifies this`groups, this`ariaInvalid, this`ariaDescribedBy
      ensures (View(), isValid) == RawPhase(controls, old(View()), |controls|, kind)
      ensures Valid()
    {
      ghost var d0 := View();
      isValid := true;
      var k := 0;
      while k < |controls|
        invariant k <= |controls| && Valid() && values == d0.values
        invariant View() == RawPhase(controls, d0, k, kind).0
        invariant isValid == RawPhase(controls, d0, k, kind).1
        modifies this`groups, this`ariaInvalid, this`ariaDescribedBy
      {
        if controls[k].kind == kind && values[k] != "" && !RawAccepted(kind, values[k]) {
          ShowFieldError(k, RawMessage(kind));
          isValid := false;
        }
        k := k + 1;
      }
    }

    /** `submitFormAjax(form)` up to the timer: disable the button, relabel it and mark the form
        as loading, all only when the form has a submit button. */
    method SubmitFormAjax() returns (p: Pending)
      modifies this`loading, submit
      ensures p.originalLabel == if submit != null then old(submit.text) else ""
      ensures submit != null ==> submit.disabled && submit.text == SubmittingLabel && loading
      ensures submit == null ==> loading == old(loading)
      ensures old(Valid()) ==> Valid()
    {
      var originalButtonText := if submit != null then submit.text else "";
      if submit != null {
        submit.disabled := true;
        submit.text := SubmittingLabel;
        loading := true;
      }
      p := Pending(originalButtonText);
    }

    /** The timer body of `submitFormAjax`: show the success notice, reset the values, restore
        the button, and strip class `error` and a message from every flagged element. Returns the
        id of the notice it creates. */
    method CompleteSubmission(p: Pending) returns (noticeId: nat)
      requires Valid()
      modifies this`notices, this`nextNotice, this`values, this`groups, this`inputError, this`loading, submit
      ensures noticeId == old(nextNotice) && nextNotice == noticeId + 1
      ensures notices == [Notice(noticeId, SuccessText)] + old(notices)
      ensures values == Defaults(controls)
      ensures submit != null ==> !submit.disabled && submit.text == p.originalLabel && !loading
      ensures submit == null ==> loading == old(loading)
      ensures |groups| == |old(groups)| && forall g :: 0 <= g < |groups| ==> groups[g] == ClearedGroup(old(groups)[g])
      ensures inputError == seq(|controls|, _ => false)
      ensures ariaInvalid == old(ariaInvalid) && ariaDescribedBy == old(ariaDescribedBy)
      ensures Valid() && Quiet()
    {
      noticeId := ShowFormSuccess();
      values := Defaults(controls);
      if submit != null {
        submit.disabled := false;
        submit.text := p.originalLabel;
        loading := false;
      }
      ClearAllErrors();
    }

    /** The "clear all errors" loop of the timer body: every element with class `error` loses
        it, and a flagged group also loses its first message. */
    method ClearAllErrors()
      requires |inputError| == |controls|
      modifies this`groups, this`inputError
      ensures |groups| == |old(groups)| && forall g :: 0 <= g < |groups| ==> groups[g] == ClearedGroup(old(groups)[g])
      ensures inputError == seq(|controls|, _ => false)
      ensures (forall g :: 0 <= g < |groups| ==> CleanGroup(old(groups)[g]))
              ==> forall g :: 0 <= g < |groups| ==> groups[g] == Group(false, [])
    {
      ghost var g0 := groups;
      var k := 0;
      while k < |groups|
        invariant k <= |groups| == |g0|
        invariant forall h :: 0 <= h < k ==> groups[h] == ClearedGroup(g0[h])
        invariant forall h :: k <= h < |groups| ==> groups[h] == g0[h]
        modifies this`groups
      {
        if groups[k].error {
          groups := groups[k := groups[k].(error := false)];
          if groups[k].messages != [] {
            groups := groups[k := groups[k].(messages := groups[k].messages[1..])];
          }
        }
        k := k + 1;
      }
      k := 0;
      while k < |inputError|
        invariant k <= |inputError| == |controls|
        invariant forall h :: 0 <= h < k ==> !inputError[h]
        modifies this`inputError
      {
        inputError := inputError[k := false];
        k := k + 1;
      }
      assert inputError == seq(|controls|, _ => false);
      if forall h :: 0 <= h < |groups| ==> CleanGroup(g0[h]) {
        forall h | 0 <= h < |groups| ensures groups[h] == Group(false, []) {
          ClearedGroupClean(g0[h]);
        }
      }
    }

    /** `showFormSuccess(form)` up to its timer: a new notice as the form's first child. */
    method ShowFormSuccess() returns (noticeId: nat)
      requires Valid()
      modifies this`notices, this`nextNotice
      ensures noticeId == old(nextNotice) && nextNotice == noticeId + 1
      ensures notices == [Notice(noticeId, SuccessText)] + old(notices)
      ensures Valid()
    {
      noticeId := nextNotice;
      notices := [Notice(noticeId, SuccessText)] + notices;
      nextNotice := nextNotice + 1;
    }

    /** The timer body of `showFormSuccess`: that notice leaves the form. */
    method ExpireNotice(noticeId: nat)
      requires Valid()
      modifies this`notices
      ensures notices == RemoveNotice(old(notices), noticeId)
      ensures Valid()
    {
      var ns := notices;
      var kept: seq<Notice> := [];
      var k := 0;
      while k < |ns|
        invariant k <= |ns| && kept == RemoveNotice(ns[..k], noticeId)
      {
        RemoveNoticeStep(ns, k, noticeId);
        if ns[k].id != noticeId {
          kept := kept + [ns[k]];
        }
        k := k + 1;
      }
      assert ns[..k] == ns;
      notices := kept;
      forall j | 0 <= j < |notices| ensures notices[j].id < nextNotice {
        assert notices[j] in notices;
      }
    }

    /** The submit handler: `validateForm`, then `submitFormAjax` when it passes. */
    method OnSubmit() returns (pending: Option<Pending>)
      requires Valid()
      modifies this`groups, this`ariaInvalid, this`ariaDescribedBy, this`loading, submit
      ensures pending.Some? <==> ValidateFormOn(controls, old(View())).1
      ensures View() == ValidateFormOn(controls, old(View())).0
      ensures pending.Some? ==> pending.value.originalLabel == (if submit != null then old(submit.text) else "")
      ensures pending.Some? && submit != null ==> submit.disabled && submit.text == SubmittingLabel && loading
      ensures pending.None? || submit == null ==> loading == old(loading)
      ensures pending.None? && submit != null ==> submit.disabled == old(submit.disabled) && submit.text == old(submit.text)
      ensures Valid()
    {
      var ok := ValidateForm();
      if ok {
        var p := SubmitFormAjax();
        pending := Some(p);
      } else {
        pending := None;
      }
    }

    /** The `blur` handler of control `i`. */
    method OnBlur(i: nat)
      requires Valid() && i < |controls|
      modifies this`groups, this`ariaInvalid, this`ariaDescribedBy
      ensures View() == ValidateOn(controls, old(View()), i).0
      ensures Valid()
    {
      var _ := ValidateField(i);
    }

    /** The `input` handler of control `i` after the user changed its value to `value`: it
        revalidates only when the control element itself has class `error`, which
        `showFieldError` never sets (it flags the group). */
    method OnInput(i: nat, value: string)
      requires Valid() && i < |controls|
      modifies this`values, this`groups, this`ariaInvalid, this`ariaDescribedBy
      ensures var typed := old(View()).(values := old(values)[i := value]);
              View() == if old(inputError[i]) then ValidateOn(controls, typed, i).0 else typed
      ensures old(Quiet()) ==> View() == old(View()).(values := old(values)[i := value])
      ensures Valid()
    {
      values := values[i := value];
      if inputError[i] {
        var _ := ValidateField(i);
      }
    }
  }

  /** One more notice of the list, as the loop of `ExpireNotice` sees it. */
  lemma RemoveNoticeStep(ns: seq<Notice>, k: nat, id: nat)
    requires k < |ns|
    ensures RemoveNotice(ns[..k + 1], id)
            == RemoveNotice(ns[..k], id) + (if ns[k].id == id then [] else [ns[k]])
  {
    RemoveNoticeAppend(ns[..k], [ns[k]], id);
    assert ns[..k + 1] == ns[..k] + [ns[k]];
  }

  /** Submitting again while a submission is pending (the disabled button blocks clicks, not a
      second `submit` event) closes over the label `Submitting...`, so once both timers have
      run the button keeps that label for good. */
  method SubmitTwice(f: Form) returns (text: string)
    requires f.Valid() && f.submit != null
    modifies f, f.submit
    ensures text == SubmittingLabel && f.submit.text == SubmittingLabel && !f.submit.disabled
  {
    var first := f.SubmitFormAjax();
    var second := f.SubmitFormAjax();
    var _ := f.CompleteSubmission(first);
    var _ := f.CompleteSubmission(second);
    text := f.submit.text;
  }
}
