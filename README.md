# Plumbing site script: form validation, submission and page toggles in Dafny

This project models the client-side script of a plumbing-services brochure site
(`assets/js/script.js`). It covers the parts of the script that have stateable rules:

- the two shape tests of the contact forms (`isValidEmail`, `isValidPhone`) and the phone
  formatter (`formatPhoneNumber`);
- the field rule `validateField` and the error presenter `showFieldError` / `clearFieldError`;
- the form-level pass `validateForm`;
- the submission lifecycle of `submitFormAjax` and `showFormSuccess`. The timers are split into
  explicit steps: begin, complete, and expire one notice;
- the handlers `initForms` installs, and the small state machines of the page: the navigation
  menu flags, the active link and the theme toggle.

Modules, in dependency order:

| module | what it holds |
|---|---|
| `Optional` | `Option` |
| `Text` | white space (`\s`), digits, `Keep` (a global `replace` that deletes one class of characters), `trim`, digit runs |
| `Pattern` | a small regular-expression language. A pattern is a sequence of quantified character classes. Membership is a ghost predicate, `InLanguage`. A backtracking matcher, `Matches`, is proved to decide it |
| `Shapes` | the email and phone patterns, their plain characterisations, and `formatPhoneNumber` |
| `Fields` | the control's attributes and the verdict of `validateField` as a pure function, `Check` |
| `Presenter` | a snapshot of a form (`Dom`), and `showFieldError`, `clearFieldError` and `validateField` as functions on it |
| `FormRules` | `validateForm` as three folds over the snapshot, what it returns and what it annotates, plus the completion step and the notices |
| `Forms` | class `Form` (fields updated in place) and class `Button`: one method per script function and per handler, each specified by the functions above |
| `Page` | class `Nav` (the four `active`/`menu-open` flags), `initActiveLink` as a loop, and class `Theme` |

Controls refer to their `.form-group` by index into the form's group list. That is how the
model represents two controls sharing one group. A group is `error` plus the texts of its
`.error-message` descendants. `showFieldError` overwrites the first message, or appends one when
there is none. `clearFieldError` removes the first message.

Some behaviours of the script are easy to miss. Each is stated as a property:

- An empty optional field fails `validateField` when it carries a positive `minlength`
  (`Fields.OptionalEmpty`).
- `"+1 (555) 123-4567"` is rejected by `isValidPhone`: once stripped of spaces it has four digit
  runs, and the pattern allows at most three (`Shapes.RejectsCountryCodeExample`).
- An email value with a leading white-space character passes `validateField`, which trims, but
  makes `validateForm` return false, because its second pass tests the raw value
  (`FormRules.PaddedEmailFailsForm`).
- Two required controls in one `.form-group`, the first failing and the second passing: the
  second's `validateField` clears what the first showed, so `validateForm` returns false while
  the group shows no error (`FormRules.SharedGroupHidesFailure`).
- `validateForm` never clears a non-required field whose value now passes; only the first pass
  clears (`FormRules.FormAnnotates`).
- The completion step removes the group annotations but leaves every `aria-invalid` and
  `aria-describedby` attribute as it was (`Forms.Form.CompleteSubmission`).
- Nothing but the disabled button keeps a second submission from starting. A second `submit`
  while one is pending makes the button keep the label `Submitting...` for good
  (`Forms.SubmitTwice`).

## Model

| member | source | states |
|---|---|---|
| Text.TrimStartFacts | assets/js/script.js:182 | the result is a suffix of the input; everything dropped is white space; the result does not start with white space |
| Text.TrimEndFacts | assets/js/script.js:182 | the result is a prefix of the input; everything dropped is white space; the result does not end with white space |
| Text.Trim | assets/js/script.js:182 | `value.trim()` is an infix of the value; everything before and after it is white space; it neither starts nor ends with white space |
| Text.TrimEmptyIff | assets/js/script.js:182-188 | the trimmed value is empty exactly when every character is white space |
| Text.TrimPadded | assets/js/script.js:182 | trimming white space around a string without white-space ends gives that string back |
| Text.TrimKeepsNonSpace | assets/js/script.js:182 | trimming removes no character that is not white space |
| Text.Keep | assets/js/script.js:223 | `replace(/x/g, '')` keeps only characters that pass the test, and every such character, and is no longer than the input; order and multiplicity follow from `Text.KeepConcat` with `Text.KeepAll` and `Text.KeepNone` |
| Text.KeepConcat | assets/js/script.js:223 | deletion distributes over concatenation |
| Text.KeepIdempotent | assets/js/script.js:431 | deleting a class twice is deleting it once |
| Text.DigitRunsConcat | assets/js/script.js:222 | digit runs of a concatenation are at most the sum, and exactly the sum when the seam is not digit-digit |
| Pattern.MatchesIsLanguage | assets/js/script.js:217-218 | the backtracking matcher answers `test` exactly for the strings of the pattern's language |
| Pattern.Alphabet | assets/js/script.js:222 | a string of a pattern's language uses only characters of the pattern's classes |
| Pattern.DigitBounds | assets/js/script.js:222 | a string of a pattern made of digit pieces and digit-free pieces has between the pattern's minimum and maximum digit counts, and no more digit runs than it has digit pieces |
| Shapes.PlainMeaning | assets/js/script.js:217 | `[^\s@]` is every character that is neither white space nor `@` |
| Shapes.SeparatorMeaning | assets/js/script.js:222 | `[-\s\.]` is `-`, `.` or white space |
| Shapes.EmailCharacterisation | assets/js/script.js:216-219 | `isValidEmail(s)` holds exactly when `s` has no white space and exactly one `@`, with a non-empty part before it, and after it a `.` that is neither the first nor the last character (both directions) |
| Shapes.IsValidEmail | assets/js/script.js:216-219 | `emailRegex.test(email)` by the matcher; what it accepts is stated by `Shapes.EmailCharacterisation` |
| Shapes.EmailShapeMatches | assets/js/script.js:217-218 | every string of that shape is in the email pattern's language |
| Shapes.EmailMatchesShape | assets/js/script.js:217-218 | every string of the email pattern's language has that shape |
| Shapes.EmailExamples | assets/js/script.js:216-219 | `a@b.co` is accepted and `a@b` is rejected |
| Shapes.EmailRejectsSpace | assets/js/script.js:217 | a string with any white space is rejected |
| Shapes.PhonePatternFacts | assets/js/script.js:222 | the phone pattern needs 3 to 17 digits in at most 3 runs, and allows only digits, `+ ( ) - .` and white space |
| Shapes.IsValidPhone | assets/js/script.js:221-224 | the phone pattern tested on the value with white space deleted; what it accepts is stated by `Shapes.PhoneAccepted`, `Shapes.PhoneDigitsOnly` and `Shapes.PhoneAcceptsGrouped` |
| Shapes.PhoneAccepted | assets/js/script.js:221-224 | an accepted phone has only digits, `+ ( ) - .` and white space; once stripped, it has only digits and those symbols, 3 to 17 digits, and at most 3 digit runs |
| Shapes.PhoneIgnoresSpace | assets/js/script.js:223 | inserting or removing one white-space character never changes the verdict |
| Shapes.PhoneOfStripped | assets/js/script.js:223 | the verdict on the stripped or the trimmed string is the verdict on the string |
| Shapes.PhoneDigitsOnly | assets/js/script.js:222-223 | a string of digits only is accepted exactly when it has 3 to 17 digits |
| Shapes.PhoneAcceptsGrouped | assets/js/script.js:222-223 | `(aaa)bbb-ccc` is accepted for every split into 1-4, 1-4 and 1-9 digits |
| Shapes.AcceptsLocalExample | assets/js/script.js:221-224 | `(555) 123-4567` is accepted |
| Shapes.PhoneRejectsForeign | assets/js/script.js:221-224 | a phone with a character other than a digit, `+ ( ) - .` or white space, `abc` for one, is rejected |
| Shapes.PhoneRejectsFourRuns | assets/js/script.js:222-223 | a phone whose stripped form has more than three digit runs is rejected |
| Shapes.FourRuns | assets/js/script.js:222 | `+1(555)123-4567` has four digit runs |
| Shapes.RejectsCountryCodeExample | assets/js/script.js:221-224 | `+1 (555) 123-4567` is rejected |
| Shapes.FormatPhoneNumberCases | assets/js/script.js:430-436 | with at least ten digits the result is `+` followed by exactly the input's digits; otherwise the input is returned unchanged |
| Shapes.FormatPhoneNumber | assets/js/script.js:430-436 | `+` and the digits with at least ten digits, else the input; stated by `Shapes.FormatPhoneNumberCases` |
| Shapes.FormatPhoneNumberDigits | assets/js/script.js:430-436 | formatting keeps the digits, in order |
| Shapes.FormatPhoneNumberIdempotent | assets/js/script.js:430-436 | formatting a formatted number changes nothing |
| Fields.RequiredEmptyFails | assets/js/script.js:182-191 | a required control whose value is empty or white space fails with `This field is required`, whatever its kind and minimum length |
| Fields.OptionalEmpty | assets/js/script.js:181-214 | an optional control with an empty or white-space value passes exactly when it has no active positive minimum length, and otherwise fails with the minimum-length message |
| Fields.PassMeans | assets/js/script.js:181-214 | a pass means: required implies non-empty, a non-empty email has the email shape, a non-empty tel passes the phone test, and the trimmed length reaches an active bound (both directions) |
| Fields.FailNamesFirstCheck | assets/js/script.js:181-214 | each of the four messages is given exactly when its check is the first, in the order required, email, phone, minimum length, that fails |
| Fields.MinLengthMessageDistinct | assets/js/script.js:189-209 | the minimum-length message never equals one of the other three, whatever the attribute text |
| Fields.CheckIgnoresPadding | assets/js/script.js:182 | white space around the value never changes the verdict |
| Fields.Check | assets/js/script.js:181-214 | the verdict of `validateField` is that of its checks on `value.trim()`; stated by `Fields.PassMeans`, `Fields.FailNamesFirstCheck` and `Fields.CheckIgnoresPadding` |
| Fields.CheckTrimmed | assets/js/script.js:188-213 | the four checks in source order, the first failing one naming the message; stated by `Fields.PassMeans` and `Fields.FailNamesFirstCheck` |
| Presenter.ShowOn | assets/js/script.js:226-240 | `showFieldError` keeps the snapshot's shape, the values and the control classes |
| Presenter.ClearOn | assets/js/script.js:242-253 | `clearFieldError` keeps the snapshot's shape, the values and the control classes |
| Presenter.ValidateOn | assets/js/script.js:181-214 | `validateField` returns true exactly when the rule passes, and keeps the shape and the values |
| Presenter.NoGroupNoChange | assets/js/script.js:226-253 | without a `.form-group` both presenter operations change nothing |
| Presenter.ShowIdempotent | assets/js/script.js:226-240 | showing the same message twice is showing it once |
| Presenter.ShowEffect | assets/js/script.js:226-240 | showing flags the group with exactly that one message, sets `aria-invalid="true"` and `aria-describedby="error-<id>"`, changes no other group or control, and keeps every group at most one message |
| Presenter.ClearEffect | assets/js/script.js:242-253 | clearing leaves the group unflagged with no message, removes both aria attributes, and changes no other group or control |
| Presenter.ClearIdempotent | assets/js/script.js:242-253 | clearing twice is clearing once |
| Presenter.ValidateWellFormed | assets/js/script.js:181-214 | validating keeps every group at most one message, flagged exactly when it has one |
| Presenter.ValidateReflects | assets/js/script.js:185-213 | after `validateField` a control's group is flagged exactly when it returned false, carrying precisely the failing check's message, and the control has `aria-invalid` exactly then; without a group nothing changes |
| FormRules.RequiredPhase | assets/js/script.js:152-158 | what the first pass does to the form keeps the shape and the values |
| FormRules.RequiredResult | assets/js/script.js:152-158 | what the first pass AND-s together; stated by `FormRules.RequiredPhaseVerdict` |
| FormRules.RawPhase | assets/js/script.js:161-176 | the email and tel passes keep the shape and the values |
| FormRules.ValidateFormOn | assets/js/script.js:150-179 | `validateForm` keeps the shape and the values |
| FormRules.RequiredPhaseVerdict | assets/js/script.js:152-158 | what the first pass AND-s together is true exactly when every required control passes the rule |
| FormRules.RawPhaseVerdict | assets/js/script.js:161-176 | an email or tel pass is true exactly when no control of that kind has a non-empty raw value its shape rejects |
| FormRules.FormVerdict | assets/js/script.js:150-179 | `validateForm` returns true exactly when every required control passes, and every non-empty email and tel input passes its shape on the untrimmed value |
| FormRules.PaddedEmail | assets/js/script.js:163 | an email with a leading white-space character (a no-break space survives the browser's sanitising) passes `validateField`, which trims, but fails `isValidEmail` on the raw value |
| FormRules.PaddedEmailFailsForm | assets/js/script.js:161-167 | such a control makes `validateForm` return false although `validateField` accepts it |
| FormRules.RequiredPhaseWellFormed | assets/js/script.js:152-158 | the first pass keeps every group at most one message, flagged exactly when it has one |
| FormRules.RequiredPhaseAnnotates | assets/js/script.js:152-158 | with unshared groups, after the first pass a required control's group is flagged exactly when it fails the rule; any other group is untouched |
| FormRules.ValidateOthers | assets/js/script.js:181-214 | `validateField` on one control leaves every other group as it was |
| FormRules.RawPhaseAnnotates | assets/js/script.js:161-176 | an email or tel pass only adds flags: it keeps the form well-formed, keeps every flag, and flags the group of every control it rejects |
| FormRules.FormAnnotates | assets/js/script.js:150-179 | after `validateForm` every failing control's group is flagged, and a flagged group of a non-required control stays flagged even when its value now passes |
| FormRules.RawPhaseQuiet | assets/js/script.js:161-176 | an email or tel pass that rejects nothing leaves the form as it was and is true |
| FormRules.SharedGroupHidesFailure | assets/js/script.js:152-158 | with two required controls in one group, the first failing and the second passing, the group ends unflagged and empty after the first pass, and after the whole of `validateForm` when no raw value is rejected, while `validateForm` returns false |
| FormRules.Defaults | assets/js/script.js:273 | `form.reset()` gives every control its default value |
| FormRules.ClearedGroup | assets/js/script.js:283-290 | a flagged group loses `error` and its first message; stated by `FormRules.ClearedGroupClean` and `Forms.Form.ClearAllErrors` |
| FormRules.ClearedGroupClean | assets/js/script.js:283-290 | the "clear all errors" step leaves a well-formed group unflagged and empty |
| FormRules.RemoveNotice | assets/js/script.js:331-333 | removing a notice keeps only notices with another id, and every such notice, and is no longer than the list; order and multiplicity follow from `FormRules.RemoveNoticeAppend` with `FormRules.RemoveNothing` |
| FormRules.RemoveNoticeAppend | assets/js/script.js:331-333 | removal distributes over concatenation, so the notices kept stay in their order |
| FormRules.ExpireJustShown | assets/js/script.js:321-333 | expiring a notice just put at the head gives back the notices as they were |
| FormRules.RemoveNothing | assets/js/script.js:331-333 | removing an id no notice has changes nothing |
| FormRules.RemoveNoticeIdempotent | assets/js/script.js:331-333 | removing twice is removing once |
| Forms.Form.constructor | assets/js/script.js:122-124 | a form as the markup delivers it: default values, no annotation, no notice |
| Forms.Button.constructor | assets/js/script.js:257 | the submit button found by the query starts enabled, with its label |
| Forms.Form.ShowFieldError | assets/js/script.js:226-240 | the in-place steps give the state `Presenter.ShowOn` describes, and keep the form valid |
| Forms.Form.ClearFieldError | assets/js/script.js:242-253 | the in-place steps give the state `Presenter.ClearOn` describes, and keep the form valid |
| Forms.Form.ValidateField | assets/js/script.js:181-214 | the if-chain, run after clearing, gives the state and the result `Presenter.ValidateOn` describes |
| Forms.Form.ValidateForm | assets/js/script.js:150-179 | the three passes, AND-ed, give the state and the result of `FormRules.ValidateFormOn` |
| Forms.Form.CheckRequired | assets/js/script.js:152-158 | the first loop leaves the state `FormRules.RequiredPhase` describes, and AND-s the results of `validateField` into `FormRules.RequiredResult` |
| Forms.Form.CheckRawValues | assets/js/script.js:161-176 | the email or tel loop gives the state and the result of `FormRules.RawPhase` |
| Forms.Form.SubmitFormAjax | assets/js/script.js:255-265 | with a submit button: the label is captured, the button is disabled and relabelled `Submitting...`, and the form gets `loading`; without one nothing changes |
| Forms.Form.CompleteSubmission | assets/js/script.js:268-291 | exactly one success notice is added at the head; values are reset to their defaults; the button gets back the captured label, is enabled, and `loading` is removed; every group is cleared; no aria attribute changes |
| Forms.Form.ClearAllErrors | assets/js/script.js:283-290 | every flagged group is unflagged and loses its first message; no control keeps class `error` |
| Forms.Form.ShowFormSuccess | assets/js/script.js:321-329 | a new notice with the success text becomes the first child of the form |
| Forms.Form.ExpireNotice | assets/js/script.js:331-333 | that notice, and only that one, leaves the form |
| Forms.Form.OnSubmit | assets/js/script.js:126-132 | submission starts exactly when `validateForm` returns true, with the state it leaves; when it starts, the label is captured and a present button is disabled, relabelled `Submitting...` and the form gets `loading`; when it does not, the button and `loading` are untouched |
| Forms.Form.OnBlur | assets/js/script.js:137-139 | `blur` runs `validateField` |
| Forms.Form.OnInput | assets/js/script.js:141-145 | `input` revalidates only when the control itself has class `error`, so on a form where no control has it, typing changes only the value |
| Forms.SubmitTwice | assets/js/script.js:257-280 | two submissions before either completes leave the button enabled with label `Submitting...` |
| Page.ToggleTwice | assets/js/script.js:25-33 | two hamburger clicks restore the flags |
| Page.ToggleSynced | assets/js/script.js:25-33 | a click keeps the four flags in agreement and flips whether the menu is open |
| Page.CloseSynced | assets/js/script.js:37-40 | closing leaves every flag off, and closing again changes nothing |
| Page.Toggled | assets/js/script.js:25-32 | each of the four flags toggled, the overlay's only when there is an overlay; stated by `Page.ToggleTwice` and `Page.ToggleSynced` |
| Page.Closed | assets/js/script.js:49-56 | each flag removed, the overlay's only when there is an overlay; stated by `Page.CloseSynced` |
| Page.Nav.constructor | assets/js/script.js:19-23 | the menu starts closed, with the flags in agreement |
| Page.Nav.Close | assets/js/script.js:50-55 | every flag removed; the overlay's only when there is an overlay |
| Page.Nav.HamburgerClick | assets/js/script.js:25-33 | every flag toggled; flags that agreed still agree, with the menu flipped |
| Page.Nav.OverlayClick | assets/js/script.js:36-41 | every flag removed |
| Page.Nav.DocumentClick | assets/js/script.js:45-57 | the menu closes exactly when it is open and the click landed outside both the menu and the hamburger |
| Page.Nav.Resize | assets/js/script.js:61-73 | the menu closes exactly when it is open and the width exceeds 1024 |
| Page.Nav.LinkClick | assets/js/script.js:76-87 | a link click closes the menu exactly at widths up to 1024 |
| Page.LastSegment | assets/js/script.js:96 | `split('/').pop()` is the suffix after the last `/`: it has no `/`, and a `/` precedes it when it is not the whole path |
| Page.CurrentPage | assets/js/script.js:96 | the current page is that segment, or `index.html` when it is empty; so it is never empty |
| Page.ActiveWhenNonEmpty | assets/js/script.js:106-115 | for a non-empty current page, the four-way test marks a link exactly when its `href` equals that page |
| Page.IsActiveLink | assets/js/script.js:106-115 | the two `if`s of the handler, either of which adds `active`; stated by `Page.ActiveWhenNonEmpty` and `Page.ActiveIsEquality` |
| Page.ActiveIsEquality | assets/js/script.js:106-115 | since the current page is never empty, a link is active exactly when its `href` equals the current page |
| Page.MarkActiveLinks | assets/js/script.js:95-116 | the loop marks exactly the links whose `href` is the current page |
| Page.InitialTheme | assets/js/script.js:467 | the stored theme when there is a non-empty one, otherwise `light` |
| Page.NextTheme | assets/js/script.js:474 | the result is `light` or `dark`, and it is `light` exactly when the current theme is `dark` |
| Page.NextThemeTwice | assets/js/script.js:472-478 | two clicks come back exactly when the theme was `light` or `dark` |
| Page.Theme.constructor | assets/js/script.js:462-469 | the attribute starts as the initial theme |
| Page.Theme.Click | assets/js/script.js:472-478 | the attribute becomes the next theme, and the stored preference equals it |

## Left out

- Event registration (`DOMContentLoaded`, `addEventListener`): each handler is a method the caller
  invokes. `preventDefault` is left out as well.
- Real timers: the 1500 ms submission timer and the 5000 ms notice timer are the explicit steps
  `CompleteSubmission` and `ExpireNotice`. The 250 ms resize debounce collapses to one `Resize`
  call with the final width. Nothing models time or concurrency.
- The commented-out `fetch` path and `showFormError`, which only that dead path calls, are left
  out. So is the unused `FormData` object.
- Lazy loading, the fade-in observer and smooth scrolling depend on browser capabilities, so they
  are left out.
- `localStorage` is I/O: the stored theme is the plain field `Theme.stored`. `updateThemeIcon` and
  every inline style string are presentation and are left out.
- DOM queries (`closest`, `contains(event.target)`, `querySelectorAll`) are given as data: the
  group index of each control, and booleans for where a click landed.
- Fields.Check: `parseInt` is not modelled. A `minlength` attribute comes with its raw text and
  with what `parseInt` yields, where `None` stands for `NaN`.
- Fields.Check: `value.length` counts UTF-16 code units, and the model counts characters. The two
  differ for characters outside the Basic Multilingual Plane.
- Text.IsSpace: JavaScript's `\s` and `trim` set is written out as a fixed list of characters.
- Shapes.IsValidEmail, Shapes.IsValidPhone: the regular-expression engine itself is not modelled.
  Each expression is rewritten as a pattern of quantified classes, and the matcher is proved
  against the pattern's language.
- Forms.Form.ClearAllErrors: the script's single loop over `.error` elements in document order is
  two loops, one over groups and one over controls. They touch disjoint elements, so the order does
  not matter.
- FormRules.RequiredPhaseAnnotates, FormRules.FormAnnotates: stated only for controls whose group no
  other control shares (`Unshared`). For a shared group only the two-control case of
  `FormRules.SharedGroupHidesFailure` is stated.
- Forms.Form: the methods require `Valid()`, meaning every group holds at most one message and is
  flagged exactly when it holds one. The markup starts that way, and every method keeps it.
- Notices are identified by a counter (`nextNotice`), where the script holds the element itself.
