/**
 * The fragment of JavaScript regular expressions that the two validators use:
 * an anchored sequence `^p0 p1 ... pn$` of quantified character classes.
 * `Matches` is an executable backtracking matcher; `InLanguage` is the meaning
 * of a pattern (split the string into one run per piece) and `MatchesIsLanguage`
 * proves the two agree.
 */
module Pattern {
  import opened Text

  /** A single-character atom or bracket expression. */
  datatype CharClass =
    | Lit(c: char)                              // a literal such as `@`, `\.` or `[(]`
    | Range(lo: char, hi: char)                 // `[lo-hi]`
    | Space                                     // `\s`
    | Union(left: CharClass, right: CharClass)  // the members of a bracket expression
    | Not(inner: CharClass)                     // `[^...]`

  predicate InClass(c: char, cls: CharClass)
  {
    match cls
    case Lit(d) => c == d
    case Range(lo, hi) => lo <= c <= hi
    case Space => IsSpace(c)
    case Union(l, r) => InClass(c, l) || InClass(c, r)
    case Not(i) => !InClass(c, i)
  }

  datatype Bound = AtMost(n: nat) | Unbounded

  /** A class with a quantifier `{min,max}`: `?` is `{0,1}`, `+` is `{1,}`, no quantifier `{1,1}`. */
  datatype Piece = Piece(cls: CharClass, min: nat, max: Bound)

  predicate WithinMax(b: Bound, n: nat)
  {
    match b
    case AtMost(m) => n <= m
    case Unbounded => true
  }

  predicate AllIn(w: string, cls: CharClass)
  {
    forall k :: 0 <= k < |w| ==> InClass(w[k], cls)
  }

  /** `w` is one run of piece `p`. */
  predicate Fits(p: Piece, w: string)
  {
    p.min <= |w| && WithinMax(p.max, |w|) && AllIn(w, p.cls)
  }

  /** What the anchored pattern denotes: `s` splits into consecutive runs, one per piece. */
  ghost predicate InLanguage(ps: seq<Piece>, s: string)
    decreases |ps|
  {
    if ps == [] then s == []
    else exists k :: 0 <= k <= |s| && Fits(ps[0], s[..k]) && InLanguage(ps[1..], s[k..])
  }

  /** Backtracking matcher: the first piece tries runs of increasing length from its minimum,
      and the rest of the pattern must match what is left. */
  function Matches(ps: seq<Piece>, s: string): bool
    decreases |ps|, |s| + 2
  {
    if ps == [] then s == [] else MatchesFrom(ps, s, ps[0].min)
  }

  /** The first piece takes a run of length `k` or longer. Stops as soon as the run would be
      too long or would contain a character outside the class. */
  function MatchesFrom(ps: seq<Piece>, s: string, k: nat): bool
    requires ps != []
    decreases |ps|, |s| + 1 - k
  {
    if k > |s| || !WithinMax(ps[0].max, k) || !AllIn(s[..k], ps[0].cls) then false
    else Matches(ps[1..], s[k..]) || MatchesFrom(ps, s, k + 1)
  }

  /** The matcher decides the language of the pattern. */
  lemma {:induction false} MatchesIsLanguage(ps: seq<Piece>, s: string)
    ensures Matches(ps, s) == InLanguage(ps, s)
    decreases |ps|, |s| + 2
  {
    if ps != [] {
      MatchesFromIsLanguage(ps, s, ps[0].min);
    }
  }

  lemma {:induction false} MatchesFromIsLanguage(ps: seq<Piece>, s: string, k: nat)
    requires ps != [] && ps[0].min <= k
    ensures MatchesFrom(ps, s, k) <==>
            exists j :: k <= j <= |s| && Fits(ps[0], s[..j]) && InLanguage(ps[1..], s[j..])
    decreases |ps|, |s| + 1 - k
  {
    var p := ps[0];
    if k > |s| {
    } else if !WithinMax(p.max, k) {
      forall j | k <= j <= |s| ensures !Fits(p, s[..j]) {
        assert |s[..j]| == j;
      }
    } else if !AllIn(s[..k], p.cls) {
      var t :| 0 <= t < k && !InClass(s[..k][t], p.cls);
      forall j | k <= j <= |s| ensures !Fits(p, s[..j]) {
        assert s[..j][t] == s[..k][t];
      }
    } else {
      MatchesIsLanguage(ps[1..], s[k..]);
      MatchesFromIsLanguage(ps, s, k + 1);
      assert Fits(p, s[..k]);
    }
  }

  /** Builds a match of `ps[i..]` from a run for piece `i` and a match of the rest. */
  lemma InLanguageStep(ps: seq<Piece>, i: nat, w: string, rest: string)
    requires i < |ps| && Fits(ps[i], w) && InLanguage(ps[i + 1..], rest)
    ensures InLanguage(ps[i..], w + rest)
  {
    var s := w + rest;
    assert ps[i..][0] == ps[i];
    assert ps[i..][1..] == ps[i + 1..];
    assert s[..|w|] == w && s[|w|..] == rest;
  }

  /** A piece that may be absent can be skipped. */
  lemma InLanguageSkip(ps: seq<Piece>, i: nat, rest: string)
    requires i < |ps| && ps[i].min == 0 && InLanguage(ps[i + 1..], rest)
    ensures InLanguage(ps[i..], rest)
  {
    InLanguageStep(ps, i, [], rest);
    assert [] + rest == rest;
  }

  /** Takes a match of `ps[i..]` apart into the run of piece `i` and the rest. */
  lemma InLanguageSplit(ps: seq<Piece>, i: nat, s: string) returns (k: nat)
    requires i < |ps| && InLanguage(ps[i..], s)
    ensures k <= |s| && Fits(ps[i], s[..k]) && InLanguage(ps[i + 1..], s[k..])
  {
    assert ps[i..][0] == ps[i];
    assert ps[i..][1..] == ps[i + 1..];
    k :| 0 <= k <= |s| && Fits(ps[i..][0], s[..k]) && InLanguage(ps[i..][1..], s[k..]);
  }

  /** Every character of a matched string belongs to the class of some piece. */
  lemma {:induction false} Alphabet(ps: seq<Piece>, s: string, allowed: char -> bool)
    requires InLanguage(ps, s)
    requires forall j, c :: 0 <= j < |ps| && InClass(c, ps[j].cls) ==> allowed(c)
    ensures forall k :: 0 <= k < |s| ==> allowed(s[k])
    decreases |ps|
  {
    if ps != [] {
      var k :| 0 <= k <= |s| && Fits(ps[0], s[..k]) && InLanguage(ps[1..], s[k..]);
      assert forall j, c :: 0 <= j < |ps| - 1 && InClass(c, ps[1..][j].cls) ==> allowed(c) by {
        forall j, c | 0 <= j < |ps| - 1 && InClass(c, ps[1..][j].cls) ensures allowed(c) {
          assert ps[1..][j] == ps[j + 1];
        }
      }
      Alphabet(ps[1..], s[k..], allowed);
      forall t | 0 <= t < |s| ensures allowed(s[t]) {
        if t < k {
          assert InClass(s[..k][t], ps[0].cls);
        } else {
          assert s[t] == s[k..][t - k];
        }
      }
    }
  }

  /** The class `[0-9]`. */
  predicate IsDigitClass(cls: CharClass)
  {
    cls == Range('0', '9')
  }

  /** A class none of whose members is a digit (a `[^...]` class is never treated as one). */
  predicate DigitFree(cls: CharClass)
  {
    match cls
    case Lit(c) => !IsDigit(c)
    case Range(lo, hi) => hi < '0' || '9' < lo
    case Space => true
    case Union(l, r) => DigitFree(l) && DigitFree(r)
    case Not(_) => false
  }

  lemma {:induction false} DigitFreeSound(cls: CharClass, c: char)
    requires DigitFree(cls) && InClass(c, cls)
    ensures !IsDigit(c)
  {
    match cls
    case Union(l, r) =>
      if InClass(c, l) { DigitFreeSound(l, c); } else { DigitFreeSound(r, c); }
    case _ =>
  }

  /** Every piece is either a bounded run of `[0-9]` or a class with no digit. */
  predicate DigitPure(ps: seq<Piece>)
  {
    forall j :: 0 <= j < |ps| ==> (IsDigitClass(ps[j].cls) && ps[j].max.AtMost?) || DigitFree(ps[j].cls)
  }

  /** The fewest digits a match can hold. */
  function MinDigits(ps: seq<Piece>): nat
  {
    if ps == [] then 0 else (if IsDigitClass(ps[0].cls) then ps[0].min else 0) + MinDigits(ps[1..])
  }

  /** The most digits a match can hold, when every `[0-9]` piece is bounded. */
  function MaxDigits(ps: seq<Piece>): nat
  {
    if ps == [] then 0
    else
      (if IsDigitClass(ps[0].cls) && ps[0].max.AtMost? then ps[0].max.n else 0) + MaxDigits(ps[1..])
  }

  /** The number of `[0-9]` pieces. */
  function DigitGroups(ps: seq<Piece>): nat
  {
    if ps == [] then 0 else (if IsDigitClass(ps[0].cls) then 1 else 0) + DigitGroups(ps[1..])
  }

  /** In a digit-pure pattern the digits of a match number between `MinDigits` and `MaxDigits`
      and form at most one run per `[0-9]` piece. */
  lemma {:induction false} DigitBounds(ps: seq<Piece>, s: string)
    requires DigitPure(ps) && InLanguage(ps, s)
    ensures MinDigits(ps) <= |Keep(s, IsDigit)| <= MaxDigits(ps)
    ensures DigitRuns(s) <= DigitGroups(ps)
    decreases |ps|
  {
    if ps != [] {
      var k :| 0 <= k <= |s| && Fits(ps[0], s[..k]) && InLanguage(ps[1..], s[k..]);
      var w, rest := s[..k], s[k..];
      assert s == w + rest;
      assert DigitPure(ps[1..]) by {
        forall j | 0 <= j < |ps| - 1 ensures (IsDigitClass(ps[1..][j].cls) && ps[1..][j].max.AtMost?) || DigitFree(ps[1..][j].cls) {
          assert ps[1..][j] == ps[j + 1];
        }
      }
      DigitBounds(ps[1..], rest);
      KeepConcat(w, rest, IsDigit);
      DigitRunsConcat(w, rest);
      assert (IsDigitClass(ps[0].cls) && ps[0].max.AtMost?) || DigitFree(ps[0].cls) by {
        assert ps[0] == ps[0];
      }
      if IsDigitClass(ps[0].cls) {
        assert forall t :: 0 <= t < |w| ==> IsDigit(w[t]) by {
          forall t | 0 <= t < |w| ensures IsDigit(w[t]) { assert InClass(w[t], ps[0].cls); }
        }
        KeepAll(w, IsDigit);
        DigitRunsOfDigits(w);
      } else {
        assert forall t :: 0 <= t < |w| ==> !IsDigit(w[t]) by {
          forall t | 0 <= t < |w| ensures !IsDigit(w[t]) {
            assert InClass(w[t], ps[0].cls);
            DigitFreeSound(ps[0].cls, w[t]);
          }
        }
        KeepNone(w, IsDigit);
        DigitRunsOfNonDigits(w);
      }
    }
  }
}
