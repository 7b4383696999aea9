/** The keystroke filter `validateDecimalInput` of src/lib/utils.ts: the
    regular expression ^[\d,]*\.?\d{0,2}$ written as a left-to-right
    recognizer, the structural reading of the same pattern, the proof that
    the two agree, and the closure of the accepted language under taking
    contiguous substrings. */
module DecimalGrammar {
  import opened NumberText

  /** A character of the leading [\d,]* part. */
  predicate IsWholeChar(c: char) {
    IsDigit(c) || c == ','
  }

  /** Where the recognizer stands: still in the [\d,]* part, or `digits`
      fraction digits past the decimal point. */
  datatype Phase = Whole | Fraction(digits: nat)

  predicate Recognize(s: string, phase: Phase)
    decreases |s|
  {
    if |s| == 0 then true
    else match phase
      case Whole =>
        if IsWholeChar(s[0]) then Recognize(s[1..], Whole)
        else s[0] == '.' && Recognize(s[1..], Fraction(0))
      case Fraction(n) =>
        IsDigit(s[0]) && n < 2 && Recognize(s[1..], Fraction(n + 1))
  }

  /** validateDecimalInput: every state of the recognizer accepts, so a text
      is rejected exactly when the recognizer gets stuck on some character. */
  predicate ValidateDecimalInput(s: string) {
    Recognize(s, Whole)
  }

  predicate WholePart(a: string) {
    forall k :: 0 <= k < |a| ==> IsWholeChar(a[k])
  }

  predicate FractionPart(c: string) {
    |c| <= 2 && AllDigits(c)
  }

  /** The cut s = s[..i] ++ s[i..j] ++ s[j..] reads as [\d,]* then an optional
      point then at most two digits. */
  predicate SplitMatches(s: string, i: nat, j: nat)
    requires i <= j <= |s|
  {
    && WholePart(s[..i])
    && (j == i || (j == i + 1 && s[i] == '.'))
    && FractionPart(s[j..])
  }

  /** The structural reading of ^[\d,]*\.?\d{0,2}$: some cut of `s` matches. */
  ghost predicate Matches(s: string) {
    exists i: nat, j: nat :: i <= j <= |s| && SplitMatches(s, i, j)
  }

  /** The length of the longest prefix of `s` made of digits and commas. */
  function WholeRun(s: string): (p: nat)
    ensures p <= |s| && WholePart(s[..p])
    ensures p < |s| ==> !IsWholeChar(s[p])
  {
    if |s| == 0 || !IsWholeChar(s[0]) then 0
    else
      var p := 1 + WholeRun(s[1..]);
      assert forall k :: 1 <= k < p ==> s[..p][k] == s[1..][..p - 1][k - 1];
      p
  }

  /** A digits-and-commas prefix that stops at a foreign character (or at the
      end) is the longest one. */
  lemma {:induction false} WholeRunUnique(s: string, i: nat)
    requires i <= |s| && WholePart(s[..i])
    requires i < |s| ==> !IsWholeChar(s[i])
    ensures WholeRun(s) == i
  {
    if i > 0 {
      assert s[..i][0] == s[0];
      var t := s[1..][..i - 1];
      forall k | 0 <= k < |t|
        ensures IsWholeChar(t[k])
      {
        assert t[k] == s[..i][k + 1];
      }
      WholeRunUnique(s[1..], i - 1);
    }
  }

  lemma {:induction false} RecognizeFraction(s: string, n: nat)
    requires n <= 2
    ensures Recognize(s, Fraction(n)) <==> AllDigits(s) && n + |s| <= 2
  {
    if |s| > 0 {
      if n < 2 {
        RecognizeFraction(s[1..], n + 1);
      }
      assert s == [s[0]] + s[1..];
      DigitsCons(s[0], s[1..]);
    }
  }

  lemma DigitsCons(c: char, s: string)
    ensures AllDigits([c] + s) <==> IsDigit(c) && AllDigits(s)
  {
    assert ([c] + s)[0] == c;
    assert forall k :: 0 <= k < |s| ==> ([c] + s)[k + 1] == s[k];
  }

  lemma {:induction false} RecognizeWhole(s: string)
    ensures Recognize(s, Whole) <==>
      var p := WholeRun(s);
      p == |s| || (s[p] == '.' && FractionPart(s[p + 1..]))
  {
    if |s| > 0 {
      if IsWholeChar(s[0]) {
        RecognizeWhole(s[1..]);
        var p := WholeRun(s);
        assert WholeRun(s[1..]) == p - 1;
        if p < |s| {
          assert s[1..][p - 1 + 1..] == s[p + 1..];
        }
      } else {
        RecognizeFraction(s[1..], 0);
      }
    }
  }

  /** The recognizer accepts exactly the texts of the form a ++ d ++ c with a
      digits and commas, d empty or one point, and c at most two digits. */
  lemma ValidateMatches(s: string)
    ensures ValidateDecimalInput(s) <==> Matches(s)
  {
    RecognizeWhole(s);
    var p := WholeRun(s);
    if ValidateDecimalInput(s) {
      if p == |s| {
        assert SplitMatches(s, p, p);
      } else {
        assert SplitMatches(s, p, p + 1);
      }
    }
    if Matches(s) {
      var i: nat, j: nat :| i <= j <= |s| && SplitMatches(s, i, j);
      if j == i {
        assert WholePart(s) by {
          forall k | 0 <= k < |s|
            ensures IsWholeChar(s[k])
          {
            if k < i {
              assert s[..i][k] == s[k];
            } else {
              assert s[j..][k - j] == s[k];
            }
          }
        }
        assert s[..|s|] == s;
        WholeRunUnique(s, |s|);
      } else {
        WholeRunUnique(s, i);
      }
    }
  }

  /** Any contiguous piece of a text of the pattern is itself of the pattern. */
  lemma MatchesInfix(s: string, x: nat, y: nat)
    requires x <= y <= |s| && Matches(s)
    ensures Matches(s[x..y])
  {
    var i: nat, j: nat :| i <= j <= |s| && SplitMatches(s, i, j);
    var t := s[x..y];
    var i' := Clamp(i - x, |t|);
    var j' := Clamp(j - x, |t|);
    forall k | 0 <= k < i'
      ensures IsWholeChar(t[..i'][k])
    {
      assert t[..i'][k] == s[..i][x + k];
    }
    forall k | 0 <= k < |t| - j'
      ensures IsDigit(t[j'..][k])
    {
      assert t[j'..][k] == s[j..][x + j' + k - j];
    }
    if j == i + 1 && x <= i < y {
      assert t[i'] == s[i];
    }
    assert SplitMatches(t, i', j');
  }

  function Clamp(n: int, hi: nat): (r: nat)
    ensures r <= hi
    ensures 0 <= n <= hi ==> r == n
    ensures n < 0 ==> r == 0
    ensures n > hi ==> r == hi
  {
    if n < 0 then 0 else if n > hi then hi else n
  }

  /** Closure under substrings: a text that contains a rejected piece is
      rejected itself. */
  lemma ValidateInfix(before: string, t: string, after: string)
    requires ValidateDecimalInput(before + t + after)
    ensures ValidateDecimalInput(t)
  {
    var s := before + t + after;
    ValidateMatches(s);
    MatchesInfix(s, |before|, |before| + |t|);
    assert s[|before|..|before| + |t|] == t;
    ValidateMatches(t);
  }

  /** Texts the filter lets through and texts it stops. */
  lemma ValidateExamples()
    ensures ValidateDecimalInput("1,200.50") && ValidateDecimalInput("50")
    ensures ValidateDecimalInput("") && ValidateDecimalInput(".")
    ensures !ValidateDecimalInput("1.2.3") && !ValidateDecimalInput("12.345")
    ensures !ValidateDecimalInput("abc") && !ValidateDecimalInput("-5")
  {
    AcceptsGrouped();
    RejectsSecondPoint();
    RejectsThirdDecimal();
  }

  lemma AcceptsGrouped()
    ensures ValidateDecimalInput("1,200.50")
  {
    RecognizeWhole("1,200.50");
  }

  lemma RejectsSecondPoint()
    ensures !ValidateDecimalInput("1.2.3")
  {
    RecognizeWhole("1.2.3");
  }

  lemma RejectsThirdDecimal()
    ensures !ValidateDecimalInput("12.345")
  {
    RecognizeWhole("12.345");
  }
}
