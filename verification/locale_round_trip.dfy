/** Round trips between the locale text of a number and the JavaScript
    parsers: the text toLocaleString and String produce, once its commas are
    stripped, is one whole literal that parseFloat and Number read back to
    the number it came from, provided the number has no more decimals than
    the text shows. */
module LocaleRoundTrip {
  import opened Options
  import opened NumberText
  import opened JsNumber

  /** The fraction digits, read as a whole number and scaled back up by the
      dropped zeros, give `n`. */
  lemma FractionDigitsValue(n: nat, places: nat)
    requires n < Pow10(places)
    ensures DigitsValue(FractionDigits(n, places)) * Pow10(places - |FractionDigits(n, places)|) == n
  {
    var padded := PadLeft(Digits(n), places);
    var f := TrimTrailingZeros(padded);
    assert f == FractionDigits(n, places);
    DigitsDenote(n);
    PadLeftValue(Digits(n), places);
    FractionTrim(padded);
    if places > 0 {
      DigitsLength(n, places);
      assert |padded| == places;
    } else {
      assert padded == "0" && f == "";
    }
  }

  /** The fraction digits are empty exactly for a zero fraction. */
  lemma FractionDigitsEmpty(n: nat, places: nat)
    requires n < Pow10(places)
    ensures |FractionDigits(n, places)| == 0 <==> n == 0
  {
    FractionDigitsValue(n, places);
    EmptyIffZero(FractionDigits(n, places), Pow10(places - |FractionDigits(n, places)|), n);
  }

  lemma EmptyIffZero(f: string, p: nat, n: nat)
    requires AllDigits(f) && (|f| == 0 || f[|f| - 1] != '0')
    requires p >= 1 && DigitsValue(f) * p == n
    ensures |f| == 0 <==> n == 0
  {
    if |f| > 0 {
      LastDigitPositive(f);
    }
    ProductZero(DigitsValue(f), p);
  }

  /** A digit string ending in a non-zero digit denotes a positive number. */
  lemma LastDigitPositive(f: string)
    requires AllDigits(f) && |f| > 0 && f[|f| - 1] != '0'
    ensures DigitsValue(f) >= 1
  {
    assert DigitOf(f[|f| - 1]) >= 1;
  }

  lemma ProductZero(a: nat, b: nat)
    requires b >= 1
    ensures a * b == 0 <==> a == 0
  {
    if a >= 1 {
      assert a * b >= b;
    }
  }

  lemma QuotientRemainder(u: nat, p: nat)
    requires p > 0
    ensures (u / p) as real + (u % p) as real / p as real == u as real / p as real
  {
    var q, r := u / p, u % p;
    assert u == q * p + r;
    var pr := p as real;
    assert (q * p) as real == q as real * pr;
    assert q as real == (q as real * pr) / pr;
    assert (q as real * pr) / pr + r as real / pr == (q as real * pr + r as real) / pr;
  }

  /** The digits of `q` alone are a literal worth `q`. */
  lemma DigitsLiteral(q: nat, v: real)
    requires v == q as real
    ensures UnsignedLiteral(Digits(q), v)
  {
    var w := Digits(q);
    DigitsDenote(q);
    assert w + "" == w;
    ScanWhole(w, "");
  }

  /** Whole digits, a point and non-empty fraction digits spell q + r / 10^places. */
  lemma PartsLiteral(q: nat, r: nat, places: nat, v: real)
    requires 0 < r < Pow10(places) && v == q as real + r as real / Pow10(places) as real
    ensures UnsignedLiteral(Digits(q) + PointFraction(FractionDigits(r, places)), v)
  {
    FractionDigitsEmpty(r, places);
    FractionValue(q, r, places);
    FractionScan(Digits(q), FractionDigits(r, places), v);
  }

  lemma FractionValue(q: nat, r: nat, places: nat)
    requires r < Pow10(places)
    ensures DecimalValue(Digits(q), FractionDigits(r, places)) == q as real + r as real / Pow10(places) as real
  {
    DigitsDenote(q);
    FractionDigitsRatio(r, places);
  }

  /** The fraction digits denote r / 10^places. */
  lemma FractionDigitsRatio(r: nat, places: nat)
    requires r < Pow10(places)
    ensures DigitsValue(FractionDigits(r, places)) as real / Pow10(|FractionDigits(r, places)|) as real
      == r as real / Pow10(places) as real
  {
    FractionDigitsValue(r, places);
    RatioOfScaled(DigitsValue(FractionDigits(r, places)), |FractionDigits(r, places)|,
      places - |FractionDigits(r, places)|, r, places);
  }

  lemma RatioOfScaled(a: nat, k: nat, m: nat, n: nat, places: nat)
    requires a * Pow10(m) == n && k + m == places
    ensures a as real / Pow10(k) as real == n as real / Pow10(places) as real
  {
    FractionScale(a, k, m);
  }

  /** a / 10^k is the same fraction as a * 10^m / 10^(k + m). */
  lemma FractionScale(a: nat, k: nat, m: nat)
    ensures a as real / Pow10(k) as real == (a * Pow10(m)) as real / Pow10(k + m) as real
  {
    PowAdd(k, m);
    CancelCommonFactor(a, Pow10(k), Pow10(m));
  }

  lemma CancelCommonFactor(a: nat, b: nat, c: nat)
    requires b > 0 && c > 0
    ensures (a * c) as real / (b * c) as real == a as real / b as real
  {
    var ar, br, cr := a as real, b as real, c as real;
    assert (a * c) as real == ar * cr;
    assert (b * c) as real == br * cr;
    assert (ar * cr) / (br * cr) == ar / br;
  }

  lemma FractionScan(w: string, f: string, v: real)
    requires |w| > 0 && |f| > 0 && AllDigits(w) && AllDigits(f) && DecimalValue(w, f) == v
    ensures UnsignedLiteral(w + PointFraction(f), v)
  {
    ScanFraction(w, f, "");
    assert w + "." + f + "" == w + "." + f;
    assert w + "." + f == w + ("." + f);
    assert PointFraction(f) == "." + f;
  }

  /** Grouping only inserts commas: stripping them gives the plain text. */
  lemma GroupedStrip(u: nat, places: nat)
    ensures StripCommas(GroupedText(u, places)) == PlainText(u, places)
  {
    DivMod(u, Pow10(places));
    StripCommasAppend(Group(Digits(u / Pow10(places))), PointFraction(FractionDigits(u % Pow10(places), places)));
  }

  /** The plain text of u / 10^places is one unsigned literal worth exactly that. */
  lemma PlainDenotes(u: nat, places: nat)
    ensures UnsignedLiteral(PlainText(u, places), u as real / Pow10(places) as real)
  {
    DivMod(u, Pow10(places));
    if u % Pow10(places) == 0 {
      PlainWhole(u, places);
    } else {
      PlainFraction(u, places);
    }
  }

  lemma PlainWhole(u: nat, places: nat)
    requires u % Pow10(places) == 0
    ensures UnsignedLiteral(PlainText(u, places), u as real / Pow10(places) as real)
  {
    DivMod(u, Pow10(places));
    WholeText(u, places);
    QuotientRemainder(u, Pow10(places));
    DigitsLiteral(u / Pow10(places), u as real / Pow10(places) as real);
  }

  lemma WholeText(u: nat, places: nat)
    requires u % Pow10(places) == 0
    ensures PlainText(u, places) == Digits(u / Pow10(places))
  {
    FractionDigitsEmpty(0, places);
    assert Digits(u / Pow10(places)) + "" == Digits(u / Pow10(places));
  }

  lemma PlainFraction(u: nat, places: nat)
    requires u % Pow10(places) != 0
    ensures UnsignedLiteral(PlainText(u, places), u as real / Pow10(places) as real)
  {
    DivMod(u, Pow10(places));
    QuotientRemainder(u, Pow10(places));
    PartsLiteral(u / Pow10(places), u % Pow10(places), places, u as real / Pow10(places) as real);
  }

  /** A leading minus sign (or none) in front of an unsigned literal makes a
      signed literal of the negated (or same) value. */
  lemma SignLiteral(t: string, m: real, negative: bool)
    requires UnsignedLiteral(t, m)
    ensures SignedLiteral((if negative then "-" else "") + t, if negative then -m else m)
  {
    if negative {
      NegativeLiteral(t, m);
    } else {
      PositiveLiteral(t, m);
      assert "" + t == t;
    }
  }

  lemma NegativeLiteral(t: string, m: real)
    requires UnsignedLiteral(t, m)
    ensures SignedLiteral("-" + t, -m)
  {
    var s := "-" + t;
    assert s[1..] == t;
    assert s[|s| - 1] == t[|t| - 1];
  }

  lemma PositiveLiteral(t: string, m: real)
    requires UnsignedLiteral(t, m)
    ensures SignedLiteral(t, m)
  {
    assert !IsSign(t[0]);
  }

  /** A number that is a whole number of 10^-places units is recovered from
      its rounded, scaled magnitude. */
  lemma ScaledRound(v: real, places: nat)
    requires IsScaled(v, places)
    ensures RoundHalfExpand(Abs(v), places) as real / Pow10(places) as real == Abs(v)
  {
    ScaledAbs(v, places);
    ScaledMagnitude(Abs(v), places);
  }

  lemma ScaledMagnitude(m: real, places: nat)
    requires m >= 0.0 && IsScaled(m, places)
    ensures RoundHalfExpand(m, places) as real / Pow10(places) as real == m
  {
    assert (m * (Pow10(places) as real)) / (Pow10(places) as real) == m;
  }


  lemma ScaledAbs(v: real, places: nat)
    requires IsScaled(v, places)
    ensures IsScaled(Abs(v), places)
  {
    if v < 0.0 {
      WholeNegate(Scale(v, places));
      assert (-v) * (Pow10(places) as real) == -(v * (Pow10(places) as real));
      assert Scale(-v, places) == -Scale(v, places);
      assert Abs(v) == -v;
    } else {
      assert Abs(v) == v;
    }
  }


  lemma WholeNegate(x: real)
    requires IsWhole(x)
    ensures IsWhole(-x)
  {
    assert (-x).Floor == -(x.Floor);
  }

  /** The plain rendering of a number with at most `places` decimals is one
      signed literal worth exactly that number. */
  lemma PlainStringLiteral(v: real, places: nat)
    requires IsScaled(v, places)
    ensures SignedLiteral(PlainString(v, places), v)
  {
    ScaledRound(v, places);
    PlainDenotes(RoundHalfExpand(Abs(v), places), places);
    SignLiteral(PlainText(RoundHalfExpand(Abs(v), places), places), Abs(v), v < 0.0);
  }

  /** toLocaleString with its commas stripped is the plain rendering. */
  lemma LocaleStrip(v: real, places: nat)
    ensures StripCommas(ToLocaleString(v, places)) == PlainString(v, places)
  {
    StripCommasAppend(SignText(v), GroupedText(RoundHalfExpand(Abs(v), places), places));
    GroupedStrip(RoundHalfExpand(Abs(v), places), places);
    assert StripCommas(SignText(v)) == SignText(v);
  }

  /** parseFloat and Number both read a signed literal without surrounding
      white space back to its value. */
  lemma LiteralParses(t: string, v: real)
    requires SignedLiteral(t, v)
    ensures ParseFloat(t) == Some(v) && NumberOf(t) == Some(v)
  {
    assert TrimStart(t) == t;
    assert Trim(t) == t;
  }

  /** parseFloat and Number read the comma-free locale text of a number with
      at most `places` decimals back to exactly that number. */
  lemma LocaleReadsBack(v: real, places: nat)
    requires IsScaled(v, places)
    ensures ParseFloat(StripCommas(ToLocaleString(v, places))) == Some(v)
    ensures NumberOf(StripCommas(ToLocaleString(v, places))) == Some(v)
  {
    LocaleStrip(v, places);
    PlainStringLiteral(v, places);
    LiteralParses(PlainString(v, places), v);
  }

  /** String(v) of a number with at most two decimals reads back to it. */
  lemma NumberToStringRoundTrip(v: real)
    requires IsScaled(v, 2)
    ensures ParseFloat(NumberToString(v)) == Some(v) && NumberOf(NumberToString(v)) == Some(v)
  {
    PlainStringLiteral(v, 2);
    LiteralParses(PlainString(v, 2), v);
  }
}
