/**
 * The error presenter of the contact forms, `showFieldError` and `clearFieldError`
 * (assets/js/script.js:226-253), and the annotate-then-check step of `validateField`
 * (assets/js/script.js:181-214), as functions on a snapshot of the parts of a form they touch.
 * The `Form` class in Forms performs them in place and is specified by these functions.
 */
module Presenter {
  import opened Optional
  import opened Fields

  /** One `.form-group` element: whether it has class `error`, and the text of each of its
      `.error-message` descendants, in document order. */
  datatype Group = Group(error: bool, messages: seq<string>)

  /** What the script reads and writes of one form. Index `i` of the first four sequences
      belongs to control `i`: its value, its `aria-invalid` and `aria-describedby` attributes,
      and whether the control element itself has class `error`. */
  datatype Dom = Dom(
    values: seq<string>,
    ariaInvalid: seq<Option<string>>,
    ariaDescribedBy: seq<Option<string>>,
    inputError: seq<bool>,
    groups: seq<Group>)

  /** The snapshot has one entry per control and every control's group exists. */
  predicate Shaped(cs: seq<Control>, d: Dom)
  {
    |d.values| == |cs| && |d.ariaInvalid| == |cs| && |d.ariaDescribedBy| == |cs|
    && |d.inputError| == |cs|
    && forall i :: 0 <= i < |cs| && cs[i].group.Some? ==> cs[i].group.value < |d.groups|
  }

  /** A group holds at most one message, and it is flagged exactly when it holds one. The markup
      starts this way and the script keeps it so. */
  predicate CleanGroup(g: Group)
  {
    |g.messages| <= 1 && (g.error <==> |g.messages| == 1)
  }

  predicate WellFormed(cs: seq<Control>, d: Dom)
  {
    Shaped(cs, d) && forall g :: 0 <= g < |d.groups| ==> CleanGroup(d.groups[g])
  }

  /** `showFieldError(field, message)` on control `i`: flag its group, put `message` in the
      group's first message (appending one when there is none), and point the control's
      `aria-describedby` at `error-<id>`. Nothing happens without a group. */
  function ShowOn(cs: seq<Control>, d: Dom, i: nat, message: string): (r: Dom)
    requires Shaped(cs, d) && i < |cs|
    ensures Shaped(cs, r) && r.values == d.values && r.inputError == d.inputError
    ensures |r.groups| == |d.groups|
  {
    match cs[i].group
    case None => d
    case Some(g) =>
      var old_ := d.groups[g].messages;
      var msgs := if old_ == [] then [message] else [message] + old_[1..];
      d.(groups := d.groups[g := Group(true, msgs)],
         ariaInvalid := d.ariaInvalid[i := Some("true")],
         ariaDescribedBy := d.ariaDescribedBy[i := Some("error-" + cs[i].id)])
  }

  /** `clearFieldError(field)` on control `i`: unflag its group, remove the group's first
      message if there is one, and remove both aria attributes of the control. Nothing happens
      without a group. */
  function ClearOn(cs: seq<Control>, d: Dom, i: nat): (r: Dom)
    requires Shaped(cs, d) && i < |cs|
    ensures Shaped(cs, r) && r.values == d.values && r.inputError == d.inputError
    ensures |r.groups| == |d.groups|
  {
    match cs[i].group
    case None => d
    case Some(g) =>
      var old_ := d.groups[g].messages;
      d.(groups := d.groups[g := Group(false, if old_ == [] then [] else old_[1..])],
         ariaInvalid := d.ariaInvalid[i := None],
         ariaDescribedBy := d.ariaDescribedBy[i := None])
  }

  /** `validateField(field)` on control `i`: clear, then show the message of a failing check. */
  function ValidateOn(cs: seq<Control>, d: Dom, i: nat): (r: (Dom, bool))
    requires Shaped(cs, d) && i < |cs|
    ensures Shaped(cs, r.0) && r.0.values == d.values && r.0.inputError == d.inputError
    ensures |r.0.groups| == |d.groups|
    ensures r.1 <==> Check(cs[i], d.values[i]) == Pass
  {
    var cleared := ClearOn(cs, d, i);
    match Check(cs[i], d.values[i])
    case Pass => (cleared, true)
    case Fail(m) => (ShowOn(cs, cleared, i, m), false)
  }

  /** Without a `.form-group` ancestor both operations leave everything as it was. */
  lemma NoGroupNoChange(cs: seq<Control>, d: Dom, i: nat, message: string)
    requires Shaped(cs, d) && i < |cs| && cs[i].group.None?
    ensures ShowOn(cs, d, i, message) == d
    ensures ClearOn(cs, d, i) == d
  {
  }

  /** Showing the same message twice is showing it once. */
  lemma ShowIdempotent(cs: seq<Control>, d: Dom, i: nat, message: string)
    requires Shaped(cs, d) && i < |cs|
    ensures ShowOn(cs, ShowOn(cs, d, i, message), i, message) == ShowOn(cs, d, i, message)
  {
    if cs[i].group.Some? {
      var g := cs[i].group.value;
      var once := ShowOn(cs, d, i, message);
      var m := once.groups[g].messages;
      assert m != [] && m[0] == message;
      assert [message] + m[1..] == m;
    }
  }

  /** On a well-formed form, showing on a control with group `g` leaves that group flagged
      with exactly the one message, marks the control invalid, changes no other group or
      control, and keeps the form well-formed. */
  lemma ShowEffect(cs: seq<Control>, d: Dom, i: nat, message: string)
    requires WellFormed(cs, d) && i < |cs| && cs[i].group.Some?
    ensures var s := ShowOn(cs, d, i, message);
            var g := cs[i].group.value;
            WellFormed(cs, s)
            && s.groups[g] == Group(true, [message])
            && s.ariaInvalid[i] == Some("true") && s.ariaDescribedBy[i] == Some("error-" + cs[i].id)
            && (forall h :: 0 <= h < |d.groups| && h != g ==> s.groups[h] == d.groups[h])
            && (forall j :: 0 <= j < |cs| && j != i ==>
                  s.ariaInvalid[j] == d.ariaInvalid[j] && s.ariaDescribedBy[j] == d.ariaDescribedBy[j])
  {
    var g := cs[i].group.value;
    assert CleanGroup(d.groups[g]);
    var m := d.groups[g].messages;
    if m != [] {
      assert m[1..] == [];
    }
  }

  /** On a well-formed form, clearing on a control with group `g` leaves that group unflagged
      and without messages, removes both aria attributes of the control, changes no other group
      or control, and keeps the form well-formed. */
  lemma ClearEffect(cs: seq<Control>, d: Dom, i: nat)
    requires WellFormed(cs, d) && i < |cs| && cs[i].group.Some?
    ensures var c := ClearOn(cs, d, i);
            var g := cs[i].group.value;
            WellFormed(cs, c)
            && c.groups[g] == Group(false, [])
            && c.ariaInvalid[i].None? && c.ariaDescribedBy[i].None?
            && (forall h :: 0 <= h < |d.groups| && h != g ==> c.groups[h] == d.groups[h])
            && (forall j :: 0 <= j < |cs| && j != i ==>
                  c.ariaInvalid[j] == d.ariaInvalid[j] && c.ariaDescribedBy[j] == d.ariaDescribedBy[j])
  {
    var g := cs[i].group.value;
    assert CleanGroup(d.groups[g]);
    var m := d.groups[g].messages;
    if m != [] {
      assert m[1..] == [];
    }
  }

  /** On a well-formed form, clearing twice is clearing once. */
  lemma ClearIdempotent(cs: seq<Control>, d: Dom, i: nat)
    requires WellFormed(cs, d) && i < |cs|
    ensures ClearOn(cs, ClearOn(cs, d, i), i) == ClearOn(cs, d, i)
  {
    if cs[i].group.Some? {
      ClearEffect(cs, d, i);
    }
  }

  /** Validating keeps the form well-formed. */
  lemma ValidateWellFormed(cs: seq<Control>, d: Dom, i: nat)
    requires WellFormed(cs, d) && i < |cs|
    ensures WellFormed(cs, ValidateOn(cs, d, i).0)
  {
    if cs[i].group.Some? {
      ClearEffect(cs, d, i);
      var c := ClearOn(cs, d, i);
      match Check(cs[i], d.values[i])
      case Pass =>
      case Fail(m) => ShowEffect(cs, c, i, m);
    }
  }

  /** The verdict of `validateField` is the rule's, and on a control with a group the group is
      annotated exactly when the verdict is a failure, with that failure's message; the rest of
      the form is as clearing left it. */
  lemma ValidateReflects(cs: seq<Control>, d: Dom, i: nat)
    requires WellFormed(cs, d) && i < |cs|
    ensures var (d', ok) := ValidateOn(cs, d, i);
            WellFormed(cs, d') && d'.values == d.values && d'.inputError == d.inputError
            && (ok <==> Check(cs[i], d.values[i]) == Pass)
            && (cs[i].group.Some? ==>
                  var g := cs[i].group.value;
                  (d'.groups[g].error <==> !ok)
                  && d'.groups[g].messages
                       == (if ok then [] else [Check(cs[i], d.values[i]).message])
                  && (d'.ariaInvalid[i].Some? <==> !ok))
            && (cs[i].group.None? ==> d' == d)
  {
    if cs[i].group.Some? {
      ClearEffect(cs, d, i);
      var c := ClearOn(cs, d, i);
      match Check(cs[i], d.values[i])
      case Pass =>
      case Fail(m) => ShowEffect(cs, c, i, m);
    }
  }
}
