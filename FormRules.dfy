/**
 * What `validateForm` (assets/js/script.js:150-179) and the completion of `submitFormAjax`
 * (assets/js/script.js:255-291) and `showFormSuccess` (assets/js/script.js:321-334) compute,
 * as functions on the snapshots of Presenter. The methods of `Forms.Form` follow these.
 */
module FormRules {
  import opened Optional
  import opened Text
  import opened Shapes
  import opened Fields
  import opened Presenter

  /** What the first pass of `validateForm` over controls `0..n` does to the form:
      `validateField` on each required one, in document order. */
  function RequiredPhase(cs: seq<Control>, d: Dom, n: nat): (r: Dom)
    requires Shaped(cs, d) && n <= |cs|
    ensures Shaped(cs, r) && r.values == d.values && r.inputError == d.inputError
    ensures |r.groups| == |d.groups|
  {
    if n == 0 then d
    else if cs[n - 1].required then ValidateOn(cs, RequiredPhase(cs, d, n - 1), n - 1).0
    else RequiredPhase(cs, d, n - 1)
  }

  /** What the first pass AND-s together: the result of `validateField` on each required
      control of `0..n`, which is its rule's verdict (`Presenter.ValidateOn`). */
  function RequiredResult(cs: seq<Control>, values: seq<string>, n: nat): bool
    requires n <= |cs| && n <= |values|
  {
    if n == 0 then true
    else RequiredResult(cs, values, n - 1) && (cs[n - 1].required ==> Check(cs[n - 1], values[n - 1]) == Pass)
  }

  /** Whether the second and third passes accept a raw (untrimmed) value of that kind. */
  predicate RawAccepted(kind: Kind, raw: string)
  {
    match kind
    case Email => IsValidEmail(raw)
    case Tel => IsValidPhone(raw)
    case Other => true
  }

  function RawMessage(kind: Kind): string
  {
    if kind == Email then EmailMessage else PhoneMessage
  }

  /** Whether the raw-value pass for `kind` objects to control `i`. */
  predicate RawRejects(cs: seq<Control>, values: seq<string>, i: nat, kind: Kind)
    requires i < |cs| && i < |values|
  {
    cs[i].kind == kind && values[i] != "" && !RawAccepted(kind, values[i])
  }

  /** The second (`kind == Email`) or third (`kind == Tel`) pass of `validateForm` over controls
      `0..n`: a non-empty raw value the shape rejects gets the kind's message and fails the form. */
  function RawPhase(cs: seq<Control>, d: Dom, n: nat, kind: Kind): (r: (Dom, bool))
    requires Shaped(cs, d) && n <= |cs|
    ensures Shaped(cs, r.0) && r.0.values == d.values && r.0.inputError == d.inputError
    ensures |r.0.groups| == |d.groups|
  {
    if n == 0 then (d, true)
    else if RawRejects(cs, d.values, n - 1, kind) then
      (ShowOn(cs, RawPhase(cs, d, n - 1, kind).0, n - 1, RawMessage(kind)), false)
    else RawPhase(cs, d, n - 1, kind)
  }

  /** `validateForm(form)`: the three passes one after the other. */
  function ValidateFormOn(cs: seq<Control>, d: Dom): (r: (Dom, bool))
    requires Shaped(cs, d)
    ensures Shaped(cs, r.0) && r.0.values == d.values && r.0.inputError == d.inputError
    ensures |r.0.groups| == |d.groups|
  {
    var d1 := RequiredPhase(cs, d, |cs|);
    var a := RequiredResult(cs, d.values, |cs|);
    var (d2, b) := RawPhase(cs, d1, |cs|, Email);
    var (d3, c) := RawPhase(cs, d2, |cs|, Tel);
    (d3, a && b && c)
  }

  /** Every required control passes the field rule. */
  predicate RequiredPass(cs: seq<Control>, values: seq<string>, n: nat)
    requires n <= |cs| && n <= |values|
  {
    forall i :: 0 <= i < n ==> cs[i].required ==> Check(cs[i], values[i]) == Pass
  }

  /** No control of `kind` has a non-empty raw value its shape rejects. */
  predicate RawPass(cs: seq<Control>, values: seq<string>, n: nat, kind: Kind)
    requires n <= |cs| && n <= |values|
  {
    forall i :: 0 <= i < n ==> !RawRejects(cs, values, i, kind)
  }

  lemma {:induction false} RequiredPhaseVerdict(cs: seq<Control>, values: seq<string>, n: nat)
    requires n <= |cs| && n <= |values|
    ensures RequiredResult(cs, values, n) <==> RequiredPass(cs, values, n)
  {
    if n > 0 {
      RequiredPhaseVerdict(cs, values, n - 1);
    }
  }

  lemma {:induction false} RawPhaseVerdict(cs: seq<Control>, d: Dom, n: nat, kind: Kind)
    requires Shaped(cs, d) && n <= |cs|
    ensures RawPhase(cs, d, n, kind).1 <==> RawPass(cs, d.values, n, kind)
  {
    if n > 0 {
      RawPhaseVerdict(cs, d, n - 1, kind);
    }
  }

  /** `validateForm` returns true exactly when every required control passes `validateField`
      and every non-empty email and tel input passes its shape on its raw, untrimmed value. */
  lemma FormVerdict(cs: seq<Control>, d: Dom)
    requires Shaped(cs, d)
    ensures ValidateFormOn(cs, d).1 <==>
              RequiredPass(cs, d.values, |cs|)
              && RawPass(cs, d.values, |cs|, Email) && RawPass(cs, d.values, |cs|, Tel)
  {
    var d1 := RequiredPhase(cs, d, |cs|);
    var (d2, b) := RawPhase(cs, d1, |cs|, Email);
    RequiredPhaseVerdict(cs, d.values, |cs|);
    RawPhaseVerdict(cs, d1, |cs|, Email);
    RawPhaseVerdict(cs, d2, |cs|, Tel);
  }

  /** An email written with a leading white-space character (a no-break space, say, which the
      browser's own value sanitising keeps) passes the field rule, which trims, but not the
      shape test on the raw value. */
  lemma PaddedEmail(c: Control, raw: string)
    requires c.kind == Email && ActiveBound(c).None?
    requires |raw| > 1 && IsSpace(raw[0]) && IsValidEmail(raw[1..])
    ensures Check(c, raw) == Pass && !IsValidEmail(raw)
  {
    var s := raw[1..];
    EmailCharacterisation(s);
    assert !IsSpace(s[0]) && !IsSpace(s[|s| - 1]);
    assert raw == [raw[0]] + s + [];
    CheckIgnoresPadding(c, [raw[0]], s, []);
    EmailRejectsSpace(raw, 0);
  }

  /** So such an email fails the form although `validateField` accepts it. */
  lemma PaddedEmailFailsForm(cs: seq<Control>, d: Dom, i: nat)
    requires Shaped(cs, d) && i < |cs|
    requires cs[i].kind == Email && ActiveBound(cs[i]).None?
    requires |d.values[i]| > 1 && IsSpace(d.values[i][0]) && IsValidEmail(d.values[i][1..])
    ensures Check(cs[i], d.values[i]) == Pass
    ensures !ValidateFormOn(cs, d).1
  {
    PaddedEmail(cs[i], d.values[i]);
    FormVerdict(cs, d);
    assert RawRejects(cs, d.values, i, Email);
  }

  // ------------------------------------------------------------------ annotation

  /** No two controls share a `.form-group`. */
  predicate Unshared(cs: seq<Control>)
  {
    forall i, j :: 0 <= i < |cs| && 0 <= j < |cs| && i != j && cs[i].group.Some? && cs[j].group.Some?
      ==> cs[i].group.value != cs[j].group.value
  }

  lemma {:induction false} RequiredPhaseWellFormed(cs: seq<Control>, d: Dom, n: nat)
    requires WellFormed(cs, d) && n <= |cs|
    ensures WellFormed(cs, RequiredPhase(cs, d, n))
  {
    if n > 0 {
      RequiredPhaseWellFormed(cs, d, n - 1);
      if cs[n - 1].required {
        ValidateWellFormed(cs, RequiredPhase(cs, d, n - 1), n - 1);
      }
    }
  }

  /** On control `j` with a group no other control shares, after the first pass over `0..n`
      the group of a required control `j < n` is flagged exactly when it failed the rule, and
      otherwise the group is as it was. */
  lemma {:induction false} RequiredPhaseAnnotates(cs: seq<Control>, d: Dom, n: nat, j: nat)
    requires WellFormed(cs, d) && n <= |cs| && j < |cs| && Unshared(cs) && cs[j].group.Some?
    ensures var g := cs[j].group.value;
            var e := RequiredPhase(cs, d, n);
            if j < n && cs[j].required then e.groups[g].error <==> Check(cs[j], d.values[j]) != Pass
            else e.groups[g] == d.groups[g]
  {
    if n > 0 {
      RequiredPhaseAnnotates(cs, d, n - 1, j);
      RequiredPhaseWellFormed(cs, d, n - 1);
      var d1 := RequiredPhase(cs, d, n - 1);
      var g := cs[j].group.value;
      if cs[n - 1].required {
        if n - 1 == j {
          ValidateReflects(cs, d1, j);
        } else {
          ValidateOthers(cs, d1, n - 1, g);
        }
      }
    }
  }

  /** Validating control `i` leaves every group other than its own as it was. */
  lemma ValidateOthers(cs: seq<Control>, d: Dom, i: nat, g: nat)
    requires WellFormed(cs, d) && i < |cs| && g < |d.groups|
    requires cs[i].group != Some(g)
    ensures ValidateOn(cs, d, i).0.groups[g] == d.groups[g]
  {
    if cs[i].group.Some? {
      ClearEffect(cs, d, i);
      var c := ClearOn(cs, d, i);
      match Check(cs[i], d.values[i])
      case Pass =>
      case Fail(m) => ShowEffect(cs, c, i, m);
    }
  }

  /** A raw-value pass only ever flags groups: it keeps the form well-formed, a flagged group
      stays flagged, and the group of a control it rejects ends flagged. */
  lemma {:induction false} RawPhaseAnnotates(cs: seq<Control>, d: Dom, n: nat, kind: Kind, g: nat)
    requires WellFormed(cs, d) && n <= |cs| && g < |d.groups|
    ensures WellFormed(cs, RawPhase(cs, d, n, kind).0)
    ensures d.groups[g].error ==> RawPhase(cs, d, n, kind).0.groups[g].error
    ensures forall j :: 0 <= j < n && cs[j].group == Some(g) && RawRejects(cs, d.values, j, kind)
              ==> RawPhase(cs, d, n, kind).0.groups[g].error
  {
    if n > 0 {
      RawPhaseAnnotates(cs, d, n - 1, kind, g);
      var d1 := RawPhase(cs, d, n - 1, kind).0;
      if RawRejects(cs, d.values, n - 1, kind) && cs[n - 1].group.Some? {
        ShowEffect(cs, d1, n - 1, RawMessage(kind));
      }
    }
  }

  /** After `validateForm` on a well-formed form whose groups are not shared, the group of every
      control that fails a pass is flagged; and a flagged group of a control that is not
      required stays flagged even when its value now passes, since only the first pass clears. */
  lemma FormAnnotates(cs: seq<Control>, d: Dom, j: nat)
    requires WellFormed(cs, d) && j < |cs| && Unshared(cs) && cs[j].group.Some?
    ensures var e := ValidateFormOn(cs, d).0;
            var g := cs[j].group.value;
            WellFormed(cs, e)
            && ((cs[j].required && Check(cs[j], d.values[j]) != Pass)
                || RawRejects(cs, d.values, j, Email) || RawRejects(cs, d.values, j, Tel)
                ==> e.groups[g].error)
            && (!cs[j].required && d.groups[g].error ==> e.groups[g].error)
  {
    var g := cs[j].group.value;
    RequiredPhaseWellFormed(cs, d, |cs|);
    RequiredPhaseAnnotates(cs, d, |cs|, j);
    var d1 := RequiredPhase(cs, d, |cs|);
    RawPhaseAnnotates(cs, d1, |cs|, Email, g);
    var d2 := RawPhase(cs, d1, |cs|, Email).0;
    RawPhaseAnnotates(cs, d2, |cs|, Tel, g);
  }

  /** A raw-value pass that rejects nothing leaves the form as it was and accepts. */
  lemma {:induction false} RawPhaseQuiet(cs: seq<Control>, d: Dom, n: nat, kind: Kind)
    requires Shaped(cs, d) && n <= |cs| && RawPass(cs, d.values, n, kind)
    ensures RawPhase(cs, d, n, kind) == (d, true)
  {
    if n > 0 {
      assert !RawRejects(cs, d.values, n - 1, kind);
      RawPhaseQuiet(cs, d, n - 1, kind);
    }
  }

  /** Two required controls in one `.form-group`, the first failing and the second passing:
      the second's `validateField` clears what the first showed, so after the first pass the
      group carries no error, yet `validateForm` returns false. When no raw value is rejected
      either, the form ends with no visible error at all. */
  lemma SharedGroupHidesFailure(cs: seq<Control>, d: Dom)
    requires WellFormed(cs, d) && |cs| == 2
    requires cs[0].required && cs[1].required && cs[0].group == Some(0) && cs[1].group == Some(0)
    requires Check(cs[0], d.values[0]) != Pass && Check(cs[1], d.values[1]) == Pass
    ensures RequiredPhase(cs, d, 2).groups[0] == Group(false, [])
    ensures !ValidateFormOn(cs, d).1
    ensures RawPass(cs, d.values, 2, Email) && RawPass(cs, d.values, 2, Tel)
            ==> ValidateFormOn(cs, d).0.groups[0] == Group(false, [])
  {
    var d1 := ValidateOn(cs, d, 0).0;
    assert RequiredPhase(cs, d, 1) == d1;
    ValidateWellFormed(cs, d, 0);
    ValidateReflects(cs, d1, 1);
    var e := RequiredPhase(cs, d, 2);
    assert e == ValidateOn(cs, d1, 1).0;
    FormVerdict(cs, d);
    assert !RequiredPass(cs, d.values, 2);
    if RawPass(cs, d.values, 2, Email) && RawPass(cs, d.values, 2, Tel) {
      RawPhaseQuiet(cs, e, 2, Email);
      RawPhaseQuiet(cs, e, 2, Tel);
    }
  }

  // ------------------------------------------------------------------ submission

  datatype Notice = Notice(id: nat, text: string)

  const SuccessText: string := "Thank you! Your message has been sent successfully."
  const SubmittingLabel: string := "Submitting..."

  /** The values `form.reset()` restores. */
  function Defaults(cs: seq<Control>): (r: seq<string>)
    ensures |r| == |cs| && forall i :: 0 <= i < |cs| ==> r[i] == cs[i].defaultValue
  {
    if cs == [] then [] else [cs[0].defaultValue] + Defaults(cs[1..])
  }

  /** The "clear all errors" pass over one group: a group with class `error` loses it and its
      first message. */
  function ClearedGroup(g: Group): Group
  {
    if g.error then Group(false, if g.messages == [] then [] else g.messages[1..]) else g
  }

  /** After the pass every well-formed group is unflagged and empty. */
  lemma ClearedGroupClean(g: Group)
    requires CleanGroup(g)
    ensures ClearedGroup(g) == Group(false, [])
  {
    if g.messages != [] {
      assert g.messages[1..] == [];
    }
  }

  /** `successMsg.remove()`: the notice with that id leaves the list, if it is still there. */
  function RemoveNotice(ns: seq<Notice>, id: nat): (r: seq<Notice>)
    ensures |r| <= |ns|
    ensures forall n :: n in r <==> n in ns && n.id != id
  {
    if ns == [] then []
    else (if ns[0].id == id then [] else [ns[0]]) + RemoveNotice(ns[1..], id)
  }

  /** Removal distributes over concatenation, so it keeps the order of the notices it keeps. */
  lemma {:induction false} RemoveNoticeAppend(a: seq<Notice>, b: seq<Notice>, id: nat)
    ensures RemoveNotice(a + b, id) == RemoveNotice(a, id) + RemoveNotice(b, id)
  {
    if a != [] {
      assert (a + b)[1..] == a[1..] + b;
      RemoveNoticeAppend(a[1..], b, id);
    } else {
      assert a + b == b;
    }
  }

  /** Removing a notice no other notice shares an id with, just after putting it at the head,
      gives back the list as it was. */
  lemma {:induction false} ExpireJustShown(ns: seq<Notice>, id: nat, text: string)
    requires forall k :: 0 <= k < |ns| ==> ns[k].id != id
    ensures RemoveNotice([Notice(id, text)] + ns, id) == ns
  {
    assert ([Notice(id, text)] + ns)[1..] == ns;
    RemoveNothing(ns, id);
  }

  lemma {:induction false} RemoveNothing(ns: seq<Notice>, id: nat)
    requires forall k :: 0 <= k < |ns| ==> ns[k].id != id
    ensures RemoveNotice(ns, id) == ns
  {
    if ns != [] {
      assert ns[0].id != id;
      RemoveNothing(ns[1..], id);
      assert [ns[0]] + ns[1..] == ns;
    }
  }

  /** Removing twice is removing once. */
  lemma {:induction false} RemoveNoticeIdempotent(ns: seq<Notice>, id: nat)
    ensures RemoveNotice(RemoveNotice(ns, id), id) == RemoveNotice(ns, id)
  {
    var r := RemoveNotice(ns, id);
    forall k | 0 <= k < |r| ensures r[k].id != id {
      assert r[k] in r;
    }
    RemoveNothing(r, id);
  }
}
