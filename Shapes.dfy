/**
 * The two shape predicates of the contact forms and the phone formatter
 * (`isValidEmail`, `isValidPhone`, `formatPhoneNumber` in assets/js/script.js).
 */
module Shapes {
  import opened Text
  import opened Pattern

  /** `[^\s@]` */
  const Plain: CharClass := Not(Union(Space, Lit('@')))

  /** `/^[^\s@]+@[^\s@]+\.[^\s@]+$/` */
  const EmailPattern: seq<Piece> := [
    Piece(Plain, 1, Unbounded),
    Piece(Lit('@'), 1, AtMost(1)),
    Piece(Plain, 1, Unbounded),
    Piece(Lit('.'), 1, AtMost(1)),
    Piece(Plain, 1, Unbounded)
  ]

  lemma PlainMeaning()
    ensures forall c :: InClass(c, Plain) <==> !IsSpace(c) && c != '@'
  {
    forall c ensures InClass(c, Plain) <==> !IsSpace(c) && c != '@' {
      assert InClass(c, Plain) == !InClass(c, Union(Space, Lit('@')));
      assert InClass(c, Union(Space, Lit('@'))) == (InClass(c, Space) || InClass(c, Lit('@')));
    }
  }

  /** A class followed by `?`. */
  function Maybe(cls: CharClass): Piece { Piece(cls, 0, AtMost(1)) }

  const Digit: CharClass := Range('0', '9')

  /** `[-\s\.]` */
  const Separator: CharClass := Union(Lit('-'), Union(Space, Lit('.')))

  lemma SeparatorMeaning()
    ensures forall c :: InClass(c, Separator) <==> c == '-' || IsSpace(c) || c == '.'
  {
    forall c ensures InClass(c, Separator) <==> c == '-' || IsSpace(c) || c == '.' {
      assert InClass(c, Separator) == (InClass(c, Lit('-')) || InClass(c, Union(Space, Lit('.'))));
      assert InClass(c, Union(Space, Lit('.'))) == (InClass(c, Space) || InClass(c, Lit('.')));
    }
  }

  /** `/^[\+]?[(]?[0-9]{1,4}[)]?[-\s\.]?[(]?[0-9]{1,4}[)]?[-\s\.]?[0-9]{1,9}$/` */
  const PhonePattern: seq<Piece> := [
    Maybe(Lit('+')), Maybe(Lit('(')), Piece(Digit, 1, AtMost(4)), Maybe(Lit(')')), Maybe(Separator),
    Maybe(Lit('(')), Piece(Digit, 1, AtMost(4)), Maybe(Lit(')')), Maybe(Separator),
    Piece(Digit, 1, AtMost(9))
  ]

  /** `isValidEmail(email)`: the email pattern matched against the whole string. */
  function IsValidEmail(email: string): bool
  {
    Matches(EmailPattern, email)
  }

  /** `isValidPhone(phone)`: the phone pattern matched after removing every white-space character. */
  function IsValidPhone(phone: string): bool
  {
    Matches(PhonePattern, Keep(phone, NotSpace))
  }

  /** `formatPhoneNumber(phone)`: with at least ten digits, `+` and the digits; otherwise the input. */
  function FormatPhoneNumber(phone: string): string
  {
    var cleaned := Keep(phone, IsDigit);
    if |cleaned| >= 10 then ['+'] + cleaned else phone
  }

  // ---------------------------------------------------------------- email

  /** The plain reading of the email pattern: no white space, exactly one `@`, something before it,
      and after it a `.` that is neither the first nor the last character of the domain. */
  ghost predicate EmailShape(s: string)
  {
    (forall k :: 0 <= k < |s| ==> !IsSpace(s[k]))
    && exists i :: 0 < i < |s| && s[i] == '@'
                   && (forall k :: 0 <= k < |s| && k != i ==> s[k] != '@')
                   && exists j :: i + 1 < j < |s| - 1 && s[j] == '.'
  }

  lemma EmailShapeAt(s: string, i: nat, j: nat)
    requires 0 < i && i + 1 < j < |s| - 1 && s[i] == '@' && s[j] == '.'
    requires AllIn(s[..i], Plain) && AllIn(s[i + 1..j], Plain) && AllIn(s[j + 1..], Plain)
    ensures EmailShape(s)
  {
    PlainMeaning();
    forall k | 0 <= k < |s| ensures !IsSpace(s[k]) && (k != i ==> s[k] != '@') {
      if k < i {
        assert s[k] == s[..i][k];
      } else if i < k < j {
        assert s[k] == s[i + 1..j][k - i - 1];
      } else if j < k {
        assert s[k] == s[j + 1..][k - j - 1];
      }
    }
  }

  /** `s` as the five runs of the email pattern, around positions `i` and `j`. */
  lemma Decompose(s: string, i: nat, j: nat)
    requires i < j < |s|
    ensures s == s[..i] + ([s[i]] + (s[i + 1..j] + ([s[j]] + s[j + 1..])))
  {
    assert s[j..] == [s[j]] + s[j + 1..];
    assert s[i + 1..] == s[i + 1..j] + s[j..];
    assert s[i..] == [s[i]] + s[i + 1..];
    assert s == s[..i] + s[i..];
  }

  lemma EmailShapeMatches(s: string)
    requires EmailShape(s)
    ensures InLanguage(EmailPattern, s)
  {
    var ep := EmailPattern;
    var i :| 0 < i < |s| && s[i] == '@' && (forall k :: 0 <= k < |s| && k != i ==> s[k] != '@')
             && exists j :: i + 1 < j < |s| - 1 && s[j] == '.';
    var j :| i + 1 < j < |s| - 1 && s[j] == '.';
    var a, b, c := s[..i], s[i + 1..j], s[j + 1..];
    PlainMeaning();
    assert AllIn(a, Plain) by {
      forall k | 0 <= k < |a| ensures InClass(a[k], Plain) { assert a[k] == s[k]; }
    }
    assert AllIn(b, Plain) by {
      forall k | 0 <= k < |b| ensures InClass(b[k], Plain) { assert b[k] == s[i + 1 + k]; }
    }
    assert AllIn(c, Plain) by {
      forall k | 0 <= k < |c| ensures InClass(c[k], Plain) { assert c[k] == s[j + 1 + k]; }
    }
    EmailFromRuns(a, b, c);
    Decompose(s, i, j);
  }

  /** The domain part: a run, a dot and a run. */
  lemma EmailTail(b: string, c: string)
    requires 1 <= |b| && 1 <= |c|
    requires AllIn(b, Plain) && AllIn(c, Plain)
    ensures InLanguage(EmailPattern[2..], b + (['.'] + c))
  {
    var ep := EmailPattern;
    assert ep[5..] == [];
    InLanguageStep(ep, 4, c, []);
    assert c + [] == c;
    InLanguageStep(ep, 3, ['.'], c);
    InLanguageStep(ep, 2, b, ['.'] + c);
  }

  lemma EmailFromRuns(a: string, b: string, c: string)
    requires 1 <= |a| && 1 <= |b| && 1 <= |c|
    requires AllIn(a, Plain) && AllIn(b, Plain) && AllIn(c, Plain)
    ensures InLanguage(EmailPattern, a + (['@'] + (b + (['.'] + c))))
  {
    var ep := EmailPattern;
    EmailTail(b, c);
    InLanguageStep(ep, 1, ['@'], b + (['.'] + c));
    InLanguageStep(ep, 0, a, ['@'] + (b + (['.'] + c)));
    assert ep[0..] == ep;
  }

  /** The tail `[^\s@]+\.[^\s@]+` of the email pattern: a dot with a run on each side. */
  lemma DomainRuns(t: string) returns (m: nat)
    requires InLanguage(EmailPattern[2..], t)
    ensures 0 < m < |t| - 1 && t[m] == '.'
    ensures AllIn(t[..m], Plain) && AllIn(t[m + 1..], Plain)
  {
    var ep := EmailPattern;
    assert ep[5..] == [];
    m := InLanguageSplit(ep, 2, t);
    var t3 := t[m..];
    var k4 := InLanguageSplit(ep, 3, t3);
    var t4 := t3[k4..];
    var k5 := InLanguageSplit(ep, 4, t4);
    assert t4[k5..] == [];
    assert k4 == 1 && t[m] == t3[..k4][0];
    assert t4 == t[m + 1..] && t4[..k5] == t4;
  }

  /** The middle `@` of the email pattern. */
  lemma AtRun(u: string)
    requires InLanguage(EmailPattern[1..], u)
    ensures u != [] && u[0] == '@' && InLanguage(EmailPattern[2..], u[1..])
  {
    var k := InLanguageSplit(EmailPattern, 1, u);
    assert k == 1 && u[0] == u[..k][0];
  }

  lemma EmailMatchesShape(s: string)
    requires InLanguage(EmailPattern, s)
    ensures EmailShape(s)
  {
    var ep := EmailPattern;
    assert ep[0..] == ep;
    var i := InLanguageSplit(ep, 0, s);
    var u := s[i..];
    AtRun(u);
    var m := DomainRuns(u[1..]);
    var t := u[1..];
    var j := i + 1 + m;
    assert t == s[i + 1..];
    assert s[i] == u[0] && s[j] == t[m];
    var b := s[i + 1..j];
    assert AllIn(b, Plain) by {
      forall k | 0 <= k < |b| ensures InClass(b[k], Plain) {
        assert b[k] == t[k] == t[..m][k];
      }
    }
    assert s[j + 1..] == t[m + 1..];
    EmailShapeAt(s, i, j);
  }

  /** The matcher for the email pattern accepts exactly the strings of `EmailShape`. */
  lemma EmailCharacterisation(s: string)
    ensures IsValidEmail(s) <==> EmailShape(s)
  {
    MatchesIsLanguage(EmailPattern, s);
    if EmailShape(s) {
      EmailShapeMatches(s);
    }
    if InLanguage(EmailPattern, s) {
      EmailMatchesShape(s);
    }
  }

  lemma EmailExamples()
    ensures IsValidEmail("a@b.co")
    ensures !IsValidEmail("a@b")
  {
    var s := "a@b.co";
    forall k | 0 <= k < |s| ensures !IsSpace(s[k]) && (k != 1 ==> s[k] != '@') {
      assert k == 0 || k == 1 || k == 2 || k == 3 || k == 4 || k == 5;
    }
    assert s[1] == '@' && s[3] == '.';
    EmailCharacterisation(s);
    EmailCharacterisation("a@b");
  }

  /** A string holding any white space is never a valid email. */
  lemma EmailRejectsSpace(s: string, k: nat)
    requires k < |s| && IsSpace(s[k])
    ensures !IsValidEmail(s)
  {
    EmailCharacterisation(s);
  }

  // ---------------------------------------------------------------- phone

  /** The characters an accepted phone number may keep once white space is removed. */
  predicate PhoneSymbol(c: char)
  {
    IsDigit(c) || c == '+' || c == '(' || c == ')' || c == '-' || c == '.'
  }

  predicate PhoneSymbolOrSpace(c: char)
  {
    PhoneSymbol(c) || IsSpace(c)
  }

  lemma PhonePatternFacts()
    ensures DigitPure(PhonePattern)
    ensures MinDigits(PhonePattern) == 3 && MaxDigits(PhonePattern) == 17
    ensures DigitGroups(PhonePattern) == 3
    ensures forall j, c :: 0 <= j < |PhonePattern| && InClass(c, PhonePattern[j].cls) ==> PhoneSymbolOrSpace(c)
  {
    var pp := PhonePattern;
    SeparatorMeaning();
    forall j | 0 <= j < |pp|
      ensures (IsDigitClass(pp[j].cls) && pp[j].max.AtMost?) || DigitFree(pp[j].cls)
      ensures forall c :: InClass(c, pp[j].cls) ==> PhoneSymbolOrSpace(c)
    {
      assert j in {0, 1, 2, 3, 4, 5, 6, 7, 8, 9};
    }
    assert pp[10..] == [];
    assert pp[9..][1..] == pp[10..];
    assert MinDigits(pp[9..]) == 1;
    assert MaxDigits(pp[9..]) == 9;
    assert DigitGroups(pp[9..]) == 1;
    assert pp[8..][1..] == pp[9..];
    assert MinDigits(pp[8..]) == 1;
    assert MaxDigits(pp[8..]) == 9;
    assert DigitGroups(pp[8..]) == 1;
    assert pp[7..][1..] == pp[8..];
    assert MinDigits(pp[7..]) == 1;
    assert MaxDigits(pp[7..]) == 9;
    assert DigitGroups(pp[7..]) == 1;
    assert pp[6..][1..] == pp[7..];
    assert MinDigits(pp[6..]) == 2;
    assert MaxDigits(pp[6..]) == 13;
    assert DigitGroups(pp[6..]) == 2;
    assert pp[5..][1..] == pp[6..];
    assert MinDigits(pp[5..]) == 2;
    assert MaxDigits(pp[5..]) == 13;
    assert DigitGroups(pp[5..]) == 2;
    assert pp[4..][1..] == pp[5..];
    assert MinDigits(pp[4..]) == 2;
    assert MaxDigits(pp[4..]) == 13;
    assert DigitGroups(pp[4..]) == 2;
    assert pp[3..][1..] == pp[4..];
    assert MinDigits(pp[3..]) == 2;
    assert MaxDigits(pp[3..]) == 13;
    assert DigitGroups(pp[3..]) == 2;
    assert pp[2..][1..] == pp[3..];
    assert MinDigits(pp[2..]) == 3;
    assert MaxDigits(pp[2..]) == 17;
    assert DigitGroups(pp[2..]) == 3;
    assert pp[1..][1..] == pp[2..];
    assert MinDigits(pp[1..]) == 3;
    assert MaxDigits(pp[1..]) == 17;
    assert DigitGroups(pp[1..]) == 3;
    assert pp[0..][1..] == pp[1..] && pp[0..] == pp;
  }

  /** What an accepted phone number looks like once white space is removed: only digits and
      `+ ( ) - .`, between 3 and 17 digits, and at most three runs of digits. */
  lemma PhoneAccepted(phone: string)
    requires IsValidPhone(phone)
    ensures forall k :: 0 <= k < |phone| ==> PhoneSymbolOrSpace(phone[k])
    ensures var t := Keep(phone, NotSpace);
            (forall k :: 0 <= k < |t| ==> PhoneSymbol(t[k]))
            && 3 <= |Keep(t, IsDigit)| <= 17
            && DigitRuns(t) <= 3
  {
    var t := Keep(phone, NotSpace);
    MatchesIsLanguage(PhonePattern, t);
    PhonePatternFacts();
    Alphabet(PhonePattern, t, PhoneSymbolOrSpace);
    DigitBounds(PhonePattern, t);
    forall k | 0 <= k < |phone| && !IsSpace(phone[k]) ensures PhoneSymbol(phone[k]) {
      assert phone[k] in t;
      var m :| 0 <= m < |t| && t[m] == phone[k];
    }
  }

  /** White space anywhere in the input never changes the verdict. */
  lemma PhoneIgnoresSpace(a: string, c: char, b: string)
    requires IsSpace(c)
    ensures IsValidPhone(a + [c] + b) == IsValidPhone(a + b)
  {
    KeepConcat(a + [c], b, NotSpace);
    KeepConcat(a, [c], NotSpace);
    KeepConcat(a, b, NotSpace);
    KeepNone([c], NotSpace);
    assert Keep(a, NotSpace) + [] == Keep(a, NotSpace);
  }

  /** Testing the stripped input gives the same verdict, so `phone` and `trim(phone)` agree. */
  lemma PhoneOfStripped(phone: string)
    ensures IsValidPhone(Keep(phone, NotSpace)) == IsValidPhone(phone)
    ensures IsValidPhone(Trim(phone)) == IsValidPhone(phone)
  {
    KeepIdempotent(phone, NotSpace);
    TrimKeepsNonSpace(phone);
  }

  /** Three digit runs `a`, `b`, `c` (1-4, 1-4, 1-9 digits), an optional `(` before `a` and `)`
      after it, and optional separators `sep1` after the first group and `sep2` after the second
      (each empty or one of `- .` or white space) are in the phone pattern's language. */
  lemma PhoneFromRuns(o: string, a: string, cl: string, sep1: string, b: string, sep2: string, c: string)
    requires 1 <= |a| <= 4 && 1 <= |b| <= 4 && 1 <= |c| <= 9
    requires AllIn(a, Digit) && AllIn(b, Digit) && AllIn(c, Digit)
    requires Fits(Maybe(Lit('(')), o) && Fits(Maybe(Lit(')')), cl)
    requires Fits(Maybe(Separator), sep1) && Fits(Maybe(Separator), sep2)
    ensures InLanguage(PhonePattern, o + (a + (cl + (sep1 + (b + (sep2 + c))))))
  {
    var pp := PhonePattern;
    var r4 := sep1 + (b + (sep2 + c));
    PhoneTail(sep1, b, sep2, c);
    InLanguageStep(pp, 3, cl, r4);
    InLanguageStep(pp, 2, a, cl + r4);
    InLanguageStep(pp, 1, o, a + (cl + r4));
    InLanguageSkip(pp, 0, o + (a + (cl + r4)));
    assert pp[0..] == pp;
  }

  /** The last six pieces: separator, optional `(`, second group, optional `)`, separator, third group. */
  lemma PhoneTail(sep1: string, b: string, sep2: string, c: string)
    requires 1 <= |b| <= 4 && 1 <= |c| <= 9
    requires AllIn(b, Digit) && AllIn(c, Digit)
    requires Fits(Maybe(Separator), sep1) && Fits(Maybe(Separator), sep2)
    ensures InLanguage(PhonePattern[4..], sep1 + (b + (sep2 + c)))
  {
    var pp := PhonePattern;
    assert pp[10..] == [];
    InLanguageStep(pp, 9, c, []);
    assert c + [] == c;
    InLanguageStep(pp, 8, sep2, c);
    InLanguageSkip(pp, 7, sep2 + c);
    InLanguageStep(pp, 6, b, sep2 + c);
    InLanguageSkip(pp, 5, b + (sep2 + c));
    InLanguageStep(pp, 4, sep1, b + (sep2 + c));
  }

  /** A string whose non-space characters are in the pattern's language is accepted. */
  lemma PhoneFromLanguage(s: string)
    requires InLanguage(PhonePattern, Keep(s, NotSpace))
    ensures IsValidPhone(s)
  {
    MatchesIsLanguage(PhonePattern, Keep(s, NotSpace));
  }

  /** Digits alone are accepted exactly when there are 3 to 17 of them. */
  lemma PhoneDigitsOnly(s: string)
    requires forall k :: 0 <= k < |s| ==> IsDigit(s[k])
    ensures IsValidPhone(s) <==> 3 <= |s| <= 17
  {
    KeepAll(s, NotSpace);
    if 3 <= |s| <= 17 {
      DigitsInLanguage(s);
      PhoneFromLanguage(s);
    } else if IsValidPhone(s) {
      KeepAll(s, IsDigit);
      PhoneAccepted(s);
    }
  }

  /** 3 to 17 digits split into runs of the three digit pieces. */
  lemma DigitsInLanguage(s: string)
    requires forall k :: 0 <= k < |s| ==> IsDigit(s[k])
    requires 3 <= |s| <= 17
    ensures InLanguage(PhonePattern, s)
  {
    var g3 := if |s| - 2 < 9 then |s| - 2 else 9;
    var r := |s| - g3;
    var g1 := if r - 1 < 4 then 1 else r - 4;
    DigitsSplit(s, g1, r);
  }

  lemma DigitsSplit(s: string, i: nat, j: nat)
    requires forall k :: 0 <= k < |s| ==> IsDigit(s[k])
    requires 1 <= i <= 4 && 1 <= j - i <= 4 && 1 <= |s| - j <= 9
    ensures InLanguage(PhonePattern, s)
  {
    var a, b, c := s[..i], s[i..j], s[j..];
    DigitSlice(s, 0, i);
    DigitSlice(s, i, j);
    DigitSlice(s, j, |s|);
    assert s[0..i] == a && s[j..|s|] == c;
    Split3(s, i, j);
    PhoneFromDigitRuns(a, b, c);
  }

  /** Three bare digit runs of 1-4, 1-4 and 1-9 digits. */
  lemma PhoneFromDigitRuns(a: string, b: string, c: string)
    requires 1 <= |a| <= 4 && 1 <= |b| <= 4 && 1 <= |c| <= 9
    requires AllIn(a, Digit) && AllIn(b, Digit) && AllIn(c, Digit)
    ensures InLanguage(PhonePattern, a + (b + c))
  {
    EmptyParts(a, b, c);
    PhoneFromRuns([], a, [], [], b, [], c);
  }

  lemma EmptyParts(a: string, b: string, c: string)
    ensures [] + (a + ([] + ([] + (b + ([] + c))))) == a + (b + c)
  {
  }

  lemma Split3(s: string, i: nat, j: nat)
    requires i <= j <= |s|
    ensures s == s[..i] + (s[i..j] + s[j..])
  {
    assert s[i..] == s[i..j] + s[j..];
    assert s == s[..i] + s[i..];
  }

  lemma DigitSlice(s: string, i: nat, j: nat)
    requires i <= j <= |s|
    requires forall k :: 0 <= k < |s| ==> IsDigit(s[k])
    ensures AllIn(s[i..j], Digit)
  {
    var w := s[i..j];
    forall k | 0 <= k < |w| ensures InClass(w[k], Digit) { assert w[k] == s[i + k]; }
  }

  /** The local format `(AAA)BBB-CCCC`, for groups of 1-4, 1-4 and 1-9 digits, is accepted. */
  lemma PhoneAcceptsGrouped(a: string, b: string, c: string)
    requires 1 <= |a| <= 4 && 1 <= |b| <= 4 && 1 <= |c| <= 9
    requires AllIn(a, Digit) && AllIn(b, Digit) && AllIn(c, Digit)
    ensures IsValidPhone(['('] + a + [')'] + b + ['-'] + c)
  {
    var t := ['('] + (a + ([')'] + ([] + (b + (['-'] + c)))));
    assert ['('] + a + [')'] + b + ['-'] + c == t;
    SeparatorMeaning();
    PhoneFromRuns(['('], a, [')'], [], b, ['-'], c);
    GroupedHasNoSpace(a, b, c);
    PhoneFromLanguage(t);
  }

  lemma GroupedHasNoSpace(a: string, b: string, c: string)
    requires AllIn(a, Digit) && AllIn(b, Digit) && AllIn(c, Digit)
    ensures var t := ['('] + (a + ([')'] + ([] + (b + (['-'] + c)))));
            Keep(t, NotSpace) == t
  {
    DigitsNotSpace(a);
    DigitsNotSpace(b);
    DigitsNotSpace(c);
    KeepAll(['('], NotSpace);
    KeepAll([')'], NotSpace);
    KeepAll(['-'], NotSpace);
    assert [] + (b + (['-'] + c)) == b + (['-'] + c);
    KeepConcat(['-'], c, NotSpace);
    KeepConcat(b, ['-'] + c, NotSpace);
    KeepConcat([')'], b + (['-'] + c), NotSpace);
    KeepConcat(a, [')'] + (b + (['-'] + c)), NotSpace);
    KeepConcat(['('], a + ([')'] + (b + (['-'] + c))), NotSpace);
  }

  lemma DigitsNotSpace(a: string)
    requires AllIn(a, Digit)
    ensures Keep(a, NotSpace) == a
  {
    forall k | 0 <= k < |a| ensures NotSpace(a[k]) {
      assert InClass(a[k], Digit);
    }
    KeepAll(a, NotSpace);
  }

  lemma AcceptsLocalExample()
    ensures IsValidPhone("(555) 123-4567")
  {
    var a, b, c := "555", "123", "4567";
    forall k | 0 <= k < 4 ensures (k < 3 ==> InClass(a[k], Digit) && InClass(b[k], Digit)) && InClass(c[k], Digit) {
      assert k in {0, 1, 2, 3};
    }
    PhoneAcceptsGrouped(a, b, c);
    assert ['('] + a + [')'] + b + ['-'] + c == "(555)" + "123-4567";
    PhoneIgnoresSpace("(555)", ' ', "123-4567");
    assert "(555)" + [' '] + "123-4567" == "(555) 123-4567";
  }

  /** A character that is neither white space nor a digit nor one of `+ ( ) - .` anywhere in the
      input makes it invalid. */
  lemma PhoneRejectsForeign(phone: string, k: nat)
    requires k < |phone| && !PhoneSymbolOrSpace(phone[k])
    ensures !IsValidPhone(phone)
  {
    if IsValidPhone(phone) {
      PhoneAccepted(phone);
    }
  }

  /** More than three runs of digits (after white space is removed) make the input invalid: an
      international number written with a separate country code is rejected. */
  lemma PhoneRejectsFourRuns(phone: string)
    requires DigitRuns(Keep(phone, NotSpace)) > 3
    ensures !IsValidPhone(phone)
  {
    if IsValidPhone(phone) {
      PhoneAccepted(phone);
    }
  }

  lemma FourRuns()
    ensures DigitRuns("+1" + ("(555" + (")123" + "-4567"))) == 4
  {
    DigitRunsConcat("+1", "(555" + (")123" + "-4567"));
    DigitRunsConcat("(555", ")123" + "-4567");
    DigitRunsConcat(")123", "-4567");
    assert DigitRuns("+1") == 1 by { assert "+1"[1..] == "1"; assert "1"[1..] == []; }
    assert DigitRuns("(555") == 1 by {
      assert "(555"[1..] == "555"; assert "555"[1..] == "55"; assert "55"[1..] == "5"; assert "5"[1..] == [];
    }
    assert DigitRuns(")123") == 1 by {
      assert ")123"[1..] == "123"; assert "123"[1..] == "23"; assert "23"[1..] == "3"; assert "3"[1..] == [];
    }
    assert DigitRuns("-4567") == 1 by {
      assert "-4567"[1..] == "4567"; assert "4567"[1..] == "567"; assert "567"[1..] == "67";
      assert "67"[1..] == "7"; assert "7"[1..] == [];
    }
  }

  lemma CountryCodeStripped()
    ensures var t := "+1" + ("(555" + (")123" + "-4567"));
            Keep(t, NotSpace) == t
  {
    var w1, w2, w3, w4 := "+1", "(555", ")123", "-4567";
    forall k | 0 <= k < 5
      ensures (k < |w1| ==> NotSpace(w1[k])) && (k < |w2| ==> NotSpace(w2[k]))
      ensures (k < |w3| ==> NotSpace(w3[k])) && NotSpace(w4[k])
    {
      assert k in {0, 1, 2, 3, 4};
    }
    KeepAll(w1, NotSpace);
    KeepAll(w2, NotSpace);
    KeepAll(w3, NotSpace);
    KeepAll(w4, NotSpace);
    KeepConcat(w3, w4, NotSpace);
    KeepConcat(w2, w3 + w4, NotSpace);
    KeepConcat(w1, w2 + (w3 + w4), NotSpace);
  }

  lemma CountryCodeParts()
    ensures "+1 (555) 123-4567" == "+1" + [' '] + "(555) 123-4567"
    ensures "+1" + "(555) 123-4567" == "+1(555)" + [' '] + "123-4567"
    ensures "+1(555)" + "123-4567" == "+1" + ("(555" + (")123" + "-4567"))
  {
  }

  lemma RejectsCountryCodeExample()
    ensures !IsValidPhone("+1 (555) 123-4567")
  {
    CountryCodeParts();
    PhoneIgnoresSpace("+1", ' ', "(555) 123-4567");
    PhoneIgnoresSpace("+1(555)", ' ', "123-4567");
    CountryCodeStripped();
    FourRuns();
    PhoneRejectsFourRuns("+1" + ("(555" + (")123" + "-4567")));
  }

  // ---------------------------------------------------------------- formatting

  /** Formatting never changes the digits of the number, in either branch. */
  lemma FormatPhoneNumberDigits(phone: string)
    ensures Keep(FormatPhoneNumber(phone), IsDigit) == Keep(phone, IsDigit)
  {
    var cleaned := Keep(phone, IsDigit);
    if |cleaned| >= 10 {
      KeepConcat(['+'], cleaned, IsDigit);
      KeepIdempotent(phone, IsDigit);
    }
  }

  /** With ten or more digits the result is `+` followed by exactly those digits, in order;
      with fewer it is the input unchanged. */
  lemma FormatPhoneNumberCases(phone: string)
    ensures var r := FormatPhoneNumber(phone);
            var digits := Keep(phone, IsDigit);
            (|digits| >= 10 ==>
               |r| == |digits| + 1 && r[0] == '+' && r[1..] == digits
               && forall k :: 1 <= k < |r| ==> IsDigit(r[k]))
            && (|digits| < 10 ==> r == phone)
  {
  }

  /** Formatting an already formatted number changes nothing. */
  lemma FormatPhoneNumberIdempotent(phone: string)
    ensures FormatPhoneNumber(FormatPhoneNumber(phone)) == FormatPhoneNumber(phone)
  {
    FormatPhoneNumberDigits(phone);
  }
}
