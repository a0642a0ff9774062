/**
 * Character classes and the string primitives the script relies on:
 * JavaScript's `\s` / `trim`, `\D` / `[0-9]`, and `replace(/x/g, '')` as filtering.
 */
module Text {

  /** The characters JavaScript's `\s` and `String.prototype.trim` treat as white space
      (WhiteSpace and LineTerminator of ECMAScript). One predicate serves both. */
  predicate IsSpace(c: char) {
    c == ' ' || c == '\t' || c == '\n' || c == '\r' || c == '\U{000B}' || c == '\U{000C}'
    || c == '\U{00A0}' || c == '\U{1680}' || ('\U{2000}' <= c <= '\U{200A}')
    || c == '\U{2028}' || c == '\U{2029}' || c == '\U{202F}' || c == '\U{205F}'
    || c == '\U{3000}' || c == '\U{FEFF}'
  }

  predicate NotSpace(c: char) { !IsSpace(c) }

  /** `[0-9]`; `\D` is its complement. */
  predicate IsDigit(c: char) { '0' <= c <= '9' }

  /** `s.replace(/x/g, '')` where `x` matches exactly the characters failing `p`. */
  function Keep(s: string, p: char -> bool): (r: string)
    ensures |r| <= |s|
    ensures forall k :: 0 <= k < |r| ==> p(r[k])
    ensures forall c :: c in r <==> c in s && p(c)
  {
    if s == [] then [] else (if p(s[0]) then [s[0]] else []) + Keep(s[1..], p)
  }

  lemma {:induction false} KeepConcat(a: string, b: string, p: char -> bool)
    ensures Keep(a + b, p) == Keep(a, p) + Keep(b, p)
  {
    if a != [] {
      assert (a + b)[1..] == a[1..] + b;
      KeepConcat(a[1..], b, p);
    } else {
      assert a + b == b;
    }
  }

  /** Filtering keeps a string whose every character passes. */
  lemma {:induction false} KeepAll(s: string, p: char -> bool)
    requires forall k :: 0 <= k < |s| ==> p(s[k])
    ensures Keep(s, p) == s
  {
    if s != [] {
      KeepAll(s[1..], p);
    }
  }

  /** Filtering empties a string none of whose characters passes. */
  lemma {:induction false} KeepNone(s: string, p: char -> bool)
    requires forall k :: 0 <= k < |s| ==> !p(s[k])
    ensures Keep(s, p) == []
  {
    if s != [] {
      KeepNone(s[1..], p);
    }
  }

  /** Filtering twice is filtering once. */
  lemma KeepIdempotent(s: string, p: char -> bool)
    ensures Keep(Keep(s, p), p) == Keep(s, p)
  {
    KeepAll(Keep(s, p), p);
  }

  /** Removes leading white space, as the first half of `trim`. */
  function TrimStart(s: string): string
  {
    if s != [] && IsSpace(s[0]) then TrimStart(s[1..]) else s
  }

  /** Removes trailing white space, as the second half of `trim`. */
  function TrimEnd(s: string): string
  {
    if s != [] && IsSpace(s[|s| - 1]) then TrimEnd(s[..|s| - 1]) else s
  }

  /** What `TrimStart` leaves is a suffix that does not start with white space, and all it drops
      is white space. */
  lemma {:induction false} TrimStartFacts(s: string)
    ensures |TrimStart(s)| <= |s| && TrimStart(s) == s[|s| - |TrimStart(s)|..]
    ensures forall k :: 0 <= k < |s| - |TrimStart(s)| ==> IsSpace(s[k])
    ensures TrimStart(s) == [] || !IsSpace(TrimStart(s)[0])
  {
    if s != [] && IsSpace(s[0]) {
      var t := s[1..];
      TrimStartFacts(t);
      assert TrimStart(s) == TrimStart(t);
      forall k | 0 <= k < |s| - |TrimStart(s)| ensures IsSpace(s[k]) {
        if k > 0 {
          assert s[k] == t[k - 1];
        }
      }
    }
  }

  /** What `TrimEnd` leaves is a prefix that does not end with white space, and all it drops is
      white space. */
  lemma {:induction false} TrimEndFacts(s: string)
    ensures |TrimEnd(s)| <= |s| && TrimEnd(s) == s[..|TrimEnd(s)|]
    ensures forall k :: |TrimEnd(s)| <= k < |s| ==> IsSpace(s[k])
    ensures TrimEnd(s) == [] || !IsSpace(TrimEnd(s)[|TrimEnd(s)| - 1])
  {
    if s != [] && IsSpace(s[|s| - 1]) {
      var t := s[..|s| - 1];
      TrimEndFacts(t);
      assert TrimEnd(s) == TrimEnd(t);
      forall k | |TrimEnd(s)| <= k < |s| ensures IsSpace(s[k]) {
        if k < |s| - 1 {
          assert s[k] == t[k];
        }
      }
    }
  }

  /** `r` is the infix `s[i..i + |r|]`, everything around it is white space, and it neither
      starts nor ends with white space. */
  ghost predicate TrimmedInfix(s: string, i: int, r: string)
  {
    0 <= i && i + |r| <= |s| && r == s[i..i + |r|]
    && (forall k :: 0 <= k < i ==> IsSpace(s[k]))
    && (forall k :: i + |r| <= k < |s| ==> IsSpace(s[k]))
    && (r == [] || (!IsSpace(r[0]) && !IsSpace(r[|r| - 1])))
  }

  /** `String.prototype.trim`: the infix left after dropping the leading and the trailing
      white space. */
  function Trim(s: string): (r: string)
    ensures TrimmedInfix(s, |s| - |TrimStart(s)|, r)
  {
    TrimStartFacts(s);
    TrimEndFacts(TrimStart(s));
    TrimOfParts(s, TrimStart(s), TrimEnd(TrimStart(s)));
    TrimEnd(TrimStart(s))
  }

  /** A prefix `r` of a suffix `t` of `s`, with only white space around each, is a trimmed
      infix of `s`. */
  lemma TrimOfParts(s: string, t: string, r: string)
    requires |t| <= |s| && t == s[|s| - |t|..]
    requires forall k :: 0 <= k < |s| - |t| ==> IsSpace(s[k])
    requires t == [] || !IsSpace(t[0])
    requires |r| <= |t| && r == t[..|r|]
    requires forall k :: |r| <= k < |t| ==> IsSpace(t[k])
    requires r == [] || !IsSpace(r[|r| - 1])
    ensures TrimmedInfix(s, |s| - |t|, r)
  {
    var i := |s| - |t|;
    forall k | i + |r| <= k < |s| ensures IsSpace(s[k]) {
      assert s[k] == t[k - i];
    }
    if r != [] {
      assert r[0] == t[0];
    }
  }

  /** Trimming yields the empty string exactly when every character is white space. */
  lemma TrimEmptyIff(s: string)
    ensures Trim(s) == [] <==> forall k :: 0 <= k < |s| ==> IsSpace(s[k])
  {
    var r := Trim(s);
    var i := |s| - |TrimStart(s)|;
    if r != [] {
      assert r[0] == s[i] && !IsSpace(s[i]);
    }
  }

  /** White space around a string that neither starts nor ends with white space is exactly what
      `trim` removes. */
  lemma TrimPadded(pre: string, s: string, post: string)
    requires forall k :: 0 <= k < |pre| ==> IsSpace(pre[k])
    requires forall k :: 0 <= k < |post| ==> IsSpace(post[k])
    requires s == [] || (!IsSpace(s[0]) && !IsSpace(s[|s| - 1]))
    ensures Trim(pre + s + post) == s
  {
    var x := pre + s + post;
    var r := Trim(x);
    var i := |x| - |TrimStart(x)|;
    if s == [] {
      assert forall k :: 0 <= k < |x| ==> IsSpace(x[k]) by {
        forall k | 0 <= k < |x| ensures IsSpace(x[k]) {
          if k < |pre| { assert x[k] == pre[k]; } else { assert x[k] == post[k - |pre|]; }
        }
      }
      TrimEmptyIff(x);
    } else {
      assert x[|pre|] == s[0];
      assert x[|pre| + |s| - 1] == s[|s| - 1];
      assert i <= |pre|;
      assert r != [];
      assert x[i] == r[0];
      assert i + |r| >= |pre| + |s|;
      assert x[i + |r| - 1] == r[|r| - 1];
      assert r == x[|pre|..|pre| + |s|];
      assert x[|pre|..|pre| + |s|] == s;
    }
  }

  /** Removing every white-space character ignores what `trim` would have removed. */
  lemma TrimKeepsNonSpace(s: string)
    ensures Keep(Trim(s), NotSpace) == Keep(s, NotSpace)
  {
    var r := Trim(s);
    var i := |s| - |TrimStart(s)|;
    var j := i + |r|;
    SpacesDropped(s, 0, i);
    SpacesDropped(s, j, |s|);
    SplitAround(s, i, j);
    assert s[i..j] == r;
    KeepConcat(s[..i] + r, s[j..], NotSpace);
    KeepConcat(s[..i], r, NotSpace);
  }

  lemma SpacesDropped(s: string, i: nat, j: nat)
    requires i <= j <= |s|
    requires forall k :: i <= k < j ==> IsSpace(s[k])
    ensures Keep(s[i..j], NotSpace) == []
    ensures i == 0 ==> Keep(s[..j], NotSpace) == []
    ensures j == |s| ==> Keep(s[i..], NotSpace) == []
  {
    var w := s[i..j];
    forall k | 0 <= k < |w| ensures !NotSpace(w[k]) {
      assert w[k] == s[i + k];
    }
    KeepNone(w, NotSpace);
    assert i == 0 ==> s[..j] == w;
    assert j == |s| ==> s[i..] == w;
  }

  lemma SplitAround(s: string, i: nat, j: nat)
    requires i <= j <= |s|
    ensures s == s[..i] + s[i..j] + s[j..]
  {
    assert s[i..] == s[i..j] + s[j..];
    assert s == s[..i] + s[i..];
  }

  /** The number of maximal runs of digits in `s`, counted at the last digit of each run. */
  function DigitRuns(s: string): nat
  {
    if s == [] then 0
    else (if IsDigit(s[0]) && (|s| == 1 || !IsDigit(s[1])) then 1 else 0) + DigitRuns(s[1..])
  }

  /** Concatenation can merge two runs into one but never creates a run. */
  lemma {:induction false} DigitRunsConcat(a: string, b: string)
    ensures DigitRuns(a + b) <= DigitRuns(a) + DigitRuns(b)
    ensures a == [] || b == [] || !IsDigit(a[|a| - 1]) || !IsDigit(b[0])
            ==> DigitRuns(a + b) == DigitRuns(a) + DigitRuns(b)
  {
    if a == [] {
      assert a + b == b;
    } else {
      assert (a + b)[1..] == a[1..] + b;
      DigitRunsConcat(a[1..], b);
      if |a| == 1 {
        assert a[1..] == [];
      }
    }
  }

  /** A string of digits is at most one run. */
  lemma {:induction false} DigitRunsOfDigits(s: string)
    requires forall k :: 0 <= k < |s| ==> IsDigit(s[k])
    ensures DigitRuns(s) == if s == [] then 0 else 1
  {
    if s != [] {
      DigitRunsOfDigits(s[1..]);
    }
  }

  /** A string without digits has no run. */
  lemma {:induction false} DigitRunsOfNonDigits(s: string)
    requires forall k :: 0 <= k < |s| ==> !IsDigit(s[k])
    ensures DigitRuns(s) == 0
  {
    if s != [] {
      DigitRunsOfNonDigits(s[1..]);
    }
  }
}
