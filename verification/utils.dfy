/** The custom helpers of src/lib/utils.ts: `parseNumber`, `formatNumber`
    and `calculatePercent` (the keystroke filter `validateDecimalInput` is
    in DecimalGrammar), with the facts the input fields rely on: what an
    accepted text is worth, and that formatted amounts pass the filter and
    parse back. */
module Utils {
  import opened Options
  import opened NumberText
  import opened JsNumber
  import opened DecimalGrammar
  import opened LocaleRoundTrip

  /** parseNumber: the empty text is 0; otherwise commas are removed and the
      rest read by parseFloat, NaN becoming 0. */
  function ParseNumber(s: string): real {
    if s == "" then 0.0
    else match ParseFloat(StripCommas(s))
      case None => 0.0
      case Some(x) => x
  }

  /** formatNumber: en-US grouping with zero to two fraction digits. The
      empty result of the source is reserved for NaN, which a `real` never is. */
  function FormatNumber(v: real): string {
    ToLocaleString(v, 2)
  }

  /** Math.round: the nearest whole number, halves rounded upwards. */
  function MathRound(x: real): (k: int)
    ensures x - 0.5 < k as real <= x + 0.5
  {
    (x + 0.5).Floor
  }

  /** Only one whole number lies in the rounding window of `x`. */
  lemma MathRoundUnique(x: real, k: int)
    requires x - 0.5 < k as real <= x + 0.5
    ensures MathRound(x) == k
  {
    var m := MathRound(x);
    assert (m - k) as real < 1.0 && (k - m) as real < 1.0;
  }

  /** calculatePercent: numerator / denominator as a percentage rounded to
      hundredths, and 0 when either operand is 0. */
  function CalculatePercent(numerator: real, denominator: real): (r: real)
    ensures numerator == 0.0 || denominator == 0.0 ==> r == 0.0
    ensures denominator != 0.0 ==>
      numerator / denominator * 100.0 - 0.005 < r <= numerator / denominator * 100.0 + 0.005
    ensures IsScaled(r, 2)
  {
    if numerator == 0.0 || denominator == 0.0 then
      HundredthsScaled(0);
      0.0
    else
      var k := MathRound(numerator / denominator * 100.0 * 100.0);
      HundredthsScaled(k);
      k as real / 100.0
  }

  /** The rounding leaves no choice: the one whole number of hundredths
      within half a hundredth of the exact percentage is the result. */
  lemma CalculatePercentUnique(numerator: real, denominator: real, r: real)
    requires numerator != 0.0 && denominator != 0.0 && IsScaled(r, 2)
    requires numerator / denominator * 100.0 - 0.005 < r <= numerator / denominator * 100.0 + 0.005
    ensures CalculatePercent(numerator, denominator) == r
  {
    var p := numerator / denominator * 100.0;
    var k := Scale(r, 2).Floor;
    HundredthsOf(r, k);
    assert p * 100.0 - 0.5 < k as real <= p * 100.0 + 0.5;
    MathRoundUnique(p * 100.0, k);
  }

  lemma HundredthsOf(r: real, k: int)
    requires IsScaled(r, 2) && k == Scale(r, 2).Floor
    ensures k as real == r * 100.0 && r == k as real / 100.0
  {
    assert Pow10(2) == 100;
  }

  lemma HundredthsScaled(k: int)
    ensures IsScaled(k as real / 100.0, 2)
  {
    assert Pow10(2) == 100;
    assert Scale(k as real / 100.0, 2) == k as real;
  }

  /** Worked values: a quarter of 200 is 12.5 %, and the cap rate of the
      income example. */
  lemma CalculatePercentExamples()
    ensures CalculatePercent(25.0, 200.0) == 12.5
    ensures CalculatePercent(-5900.0, 200000.0) == -2.95
    ensures CalculatePercent(0.0, 7.0) == 0.0 && CalculatePercent(7.0, 0.0) == 0.0
  {
    MathRoundUnique(25.0 / 200.0 * 100.0 * 100.0, 1250);
    MathRoundUnique(-5900.0 / 200000.0 * 100.0 * 100.0, -295);
  }

  /** The digits of the whole part of a text, commas dropped: everything
      before the first character that is neither a digit nor a comma. */
  function WholeDigits(s: string): string {
    StripCommas(s[..WholeRun(s)])
  }

  /** The digits after the decimal point, or none when there is no point. */
  function PointDigits(s: string): string {
    if WholeRun(s) < |s| then s[WholeRun(s) + 1..] else ""
  }

  /** An accepted text is digits and commas, then possibly a point and at
      most two digits; without its commas it is the whole digits followed by
      the point part unchanged. */
  lemma AcceptedShape(s: string)
    requires ValidateDecimalInput(s)
    ensures AllDigits(WholeDigits(s)) && AllDigits(PointDigits(s)) && |PointDigits(s)| <= 2
    ensures WholeRun(s) == |s| ==> StripCommas(s) == WholeDigits(s)
    ensures WholeRun(s) < |s| ==> StripCommas(s) == WholeDigits(s) + "." + PointDigits(s)
  {
    RecognizeWhole(s);
    var p := WholeRun(s);
    StripDigitsCommas(s[..p]);
    if p < |s| {
      PointTail(s, p);
    } else {
      assert s[..p] == s;
    }
  }

  /** Removing the commas leaves the point part, which has none, in place. */
  lemma PointTail(s: string, p: nat)
    requires p < |s| && s[p] == '.' && NoCommas(s[p + 1..])
    ensures StripCommas(s) == StripCommas(s[..p]) + "." + s[p + 1..]
  {
    var tail := s[p..];
    assert s == s[..p] + tail;
    StripCommasAppend(s[..p], tail);
    assert tail == "." + s[p + 1..];
    assert NoCommas(tail);
  }

  /** parseFloat of whole digits, maybe followed by a point and fraction
      digits: NaN when there is no digit at all, else their decimal value. */
  lemma ParseDigits(w: string, f: string, point: bool)
    requires AllDigits(w) && AllDigits(f) && (!point ==> f == "")
    ensures ParseFloat(if point then w + "." + f else w) ==
      if |w| + |f| == 0 then None else Some(DecimalValue(w, f))
  {
    if |w| + |f| == 0 {
      assert w == "" && f == "";
      if point {
        assert w + "." + f == ".";
        ParseNoDigits(".");
      } else {
        ParseNoDigits("");
      }
    } else if point {
      ParsePointDigits(w, f);
    } else {
      ParseWholeDigits(w);
    }
  }

  lemma ParseNoDigits(t: string)
    requires t == "" || t == "."
    ensures ParseFloat(t) == None
  {
    ScanNone(t);
    assert TrimStart(t) == t;
  }

  lemma ParsePointDigits(w: string, f: string)
    requires AllDigits(w) && AllDigits(f) && |w| + |f| > 0
    ensures ParseFloat(w + "." + f) == Some(DecimalValue(w, f))
  {
    var t := w + "." + f;
    PointStart(w, f);
    ScanFraction(w, f, "");
    assert t + "" == t;
  }

  /** A text of digits, a point and digits starts with neither white space
      nor a sign. */
  lemma PointStart(w: string, f: string)
    requires AllDigits(w)
    ensures |w + "." + f| > 0 && TrimStart(w + "." + f) == w + "." + f
    ensures !IsSign((w + "." + f)[0])
  {
    var t := w + "." + f;
    if |w| > 0 {
      assert t[0] == w[0];
      StartsLiteral(w[0]);
    } else {
      assert t[0] == '.';
      StartsLiteral('.');
    }
  }

  lemma StartsLiteral(c: char)
    requires IsDigit(c) || c == '.'
    ensures !IsJsSpace(c) && !IsSign(c)
  {
  }

  lemma ParseWholeDigits(w: string)
    requires AllDigits(w) && |w| > 0
    ensures ParseFloat(w) == Some(DecimalValue(w, ""))
  {
    assert w[0] == w[..1][0] && IsDigit(w[0]);
    StartsLiteral(w[0]);
    ScanWhole(w, "");
    assert w + "" == w;
    DecimalWhole(w);
  }

  /** Digits without a fraction are worth their whole number. */
  lemma DecimalWhole(w: string)
    requires AllDigits(w)
    ensures DecimalValue(w, "") == DigitsValue(w) as real
  {
    assert DecimalValue(w, "") == DigitsValue(w) as real + 0.0 / 1.0;
  }

  /** The worth of an accepted text read off its structure: its whole
      digits and fraction digits as one decimal number. */
  function AcceptedValue(s: string): real
    requires ValidateDecimalInput(s)
  {
    AcceptedShape(s);
    DecimalValue(WholeDigits(s), PointDigits(s))
  }

  /** parseNumber of an accepted text is its structural worth — 0 when it
      has no digit at all. */
  lemma ParseAccepted(s: string)
    requires ValidateDecimalInput(s)
    ensures ParseNumber(s) == AcceptedValue(s)
  {
    AcceptedShape(s);
    var w, f := WholeDigits(s), PointDigits(s);
    var point := WholeRun(s) < |s|;
    var t := if point then w + "." + f else w;
    ParseDigits(w, f, point);
    assert StripCommas(s) == t;
    if |w| + |f| == 0 {
      NoDigitsZero(w, f);
      ParseVia(s, t, None);
    } else {
      ParseVia(s, t, Some(DecimalValue(w, f)));
    }
  }

  lemma NoDigitsZero(w: string, f: string)
    requires |w| + |f| == 0
    ensures DecimalValue(w, f) == 0.0
  {
    assert w == "" && f == "";
    assert DecimalValue(w, f) == 0.0 / 1.0;
  }

  /** parseNumber takes what parseFloat reads from the text without its
      commas, and 0 where that is NaN. */
  lemma ParseVia(s: string, t: string, o: Option<real>)
    requires StripCommas(s) == t && ParseFloat(t) == o
    ensures ParseNumber(s) == if o.Some? then o.value else 0.0
  {
    if s == "" {
      assert t == "";
      ParseNoDigits("");
    }
  }

  /** A value parsed from an accepted text is never negative and is a whole
      number of hundredths. */
  lemma ParseAcceptedBounds(s: string)
    requires ValidateDecimalInput(s)
    ensures ParseNumber(s) >= 0.0 && IsScaled(ParseNumber(s), 2)
  {
    ParseAccepted(s);
    AcceptedShape(s);
    DecimalHundredths(WholeDigits(s), PointDigits(s));
  }

  /** Digits with at most two fraction digits denote whole hundredths. */
  lemma DecimalHundredths(w: string, f: string)
    requires AllDigits(w) && AllDigits(f) && |f| <= 2
    ensures IsScaled(DecimalValue(w, f), 2)
  {
    var a, b := DigitsValue(w), DigitsValue(f);
    var k := a * 100 + b * Pow10(2 - |f|);
    PowAdd(|f|, 2 - |f|);
    HundredthsValue(a, b, Pow10(|f|), Pow10(2 - |f|));
    HundredthsScaled(k);
  }

  lemma HundredthsValue(a: nat, b: nat, p: nat, q: nat)
    requires p * q == 100
    ensures a as real + b as real / p as real == (a * 100 + b * q) as real / 100.0
  {
    var pr, qr := p as real, q as real;
    assert pr * qr == 100.0;
    assert b as real / pr == (b as real * qr) / 100.0;
  }

  /** parseNumber never looks at commas. */
  lemma ParseIgnoresCommas(a: string, b: string)
    ensures ParseNumber(a + "," + b) == ParseNumber(a + b)
  {
    ParseStripped(a + "," + b);
    ParseStripped(a + b);
    StripCommaAt(a, b);
  }

  lemma ParseStripped(s: string)
    ensures ParseNumber(s) == ParseNumber(StripCommas(s))
  {
    if s != "" && StripCommas(s) == "" {
      ParseNoDigits("");
    }
  }

  lemma StripCommaAt(a: string, b: string)
    ensures StripCommas(a + "," + b) == StripCommas(a + b)
  {
    StripCommasAppend(a + ",", b);
    StripCommasAppend(a, ",");
    StripCommasAppend(a, b);
    assert StripCommas(",") == StripCommas(","[1..]);
    assert ","[1..] == "";
    assert StripCommas(a) + "" == StripCommas(a);
  }

  /** Accepted texts without digits, such as "." or ",", and the empty text
      are worth 0; parseNumber never fails. */
  lemma ParseExamples()
    ensures ParseNumber("") == 0.0 && ParseNumber(".") == 0.0 && ParseNumber(",") == 0.0
    ensures ParseNumber("1,200.50") == 1200.5
    ensures ValidateDecimalInput(".") && ValidateDecimalInput(",")
  {
    AcceptsPoint();
    AcceptsComma();
    ParsePointAlone();
    ParseCommaAlone();
    ParseGrouped();
  }

  lemma ParsePointAlone()
    ensures ParseNumber(".") == 0.0
  {
    assert NoCommas(".");
    ParseDigits("", "", true);
    assert "" + "." + "" == ".";
  }

  lemma ParseCommaAlone()
    ensures ParseNumber(",") == 0.0
  {
    assert StripCommas(",") == StripCommas(","[1..]);
    assert ","[1..] == "";
    ParseDigits("", "", false);
  }

  lemma ParseGrouped()
    ensures ParseNumber("1,200.50") == 1200.5
  {
    AcceptsGrouped();
    ParseAccepted("1,200.50");
    GroupedValue();
    GroupedDigitsValue();
  }

  lemma AcceptsComma()
    ensures ValidateDecimalInput(",")
  {
    assert ","[1..] == "";
  }

  lemma AcceptsPoint()
    ensures ValidateDecimalInput(".")
  {
    assert "."[1..] == "";
  }

  lemma GroupedValue()
    ensures WholeDigits("1,200.50") == "1200" && PointDigits("1,200.50") == "50"
  {
    WholeRunUnique("1,200.50", 5);
    assert "1,200.50"[..5] == "1,200";
    assert StripCommas("1,200") == "1" + StripCommas(",200");
    assert StripCommas(",200") == StripCommas("200");
  }

  lemma GroupedDigitsValue()
    ensures DecimalValue("1200", "50") == 1200.5
  {
    assert DigitsValue("1200") == 1200 by {
      assert "1200"[..3] == "120" && "120"[..2] == "12" && "12"[..1] == "1";
    }
    assert DigitsValue("50") == 50 by {
      assert "50"[..1] == "5";
    }
    assert Pow10(2) == 100;
  }

  /** Zero is formatted as "0", not as the empty text. */
  lemma FormatZero()
    ensures FormatNumber(0.0) == "0"
  {
    assert RoundHalfExpand(0.0, 2) == 0;
    FractionDigitsEmpty(0, 2);
    assert Digits(0) == "0";
    assert Group("0") == "0";
    assert GroupedText(0, 2) == "0" + "";
  }

  /** The text of a digit string with its optional fraction passes the filter
      whenever the whole part is digits and commas and the fraction has at
      most two digits. */
  lemma ValidateParts(w: string, f: string)
    requires WholePart(w) && AllDigits(f) && |f| <= 2
    ensures ValidateDecimalInput(w + PointFraction(f))
  {
    var s := w + PointFraction(f);
    assert s[..|w|] == w;
    if |f| == 0 {
      assert s[|w|..] == "";
      assert SplitMatches(s, |w|, |w|);
    } else {
      assert s[|w|] == '.';
      assert s[|w| + 1..] == f;
      assert SplitMatches(s, |w|, |w| + 1);
    }
    ValidateMatches(s);
  }

  lemma GroupedWhole(ds: string)
    requires AllDigits(ds)
    ensures WholePart(Group(ds))
  {
    GroupShape(ds);
  }

  /** A formatted amount passes the keystroke filter exactly when it is not
      negative: the only character outside the filter's alphabet it can
      carry is the minus sign. */
  lemma FormatValidates(v: real)
    ensures ValidateDecimalInput(FormatNumber(v)) <==> v >= 0.0
  {
    var u := RoundHalfExpand(Abs(v), 2);
    DivMod(u, Pow10(2));
    var ds := Digits(u / Pow10(2));
    var f := FractionDigits(u % Pow10(2), 2);
    GroupedWhole(ds);
    ValidateParts(Group(ds), f);
    if v < 0.0 {
      var s := FormatNumber(v);
      assert s[0] == '-';
      assert !Recognize(s, Whole);
    } else {
      assert FormatNumber(v) == Group(ds) + PointFraction(f);
    }
  }

  /** Formatting then parsing gives back any amount with at most two
      decimals, negative ones included. */
  lemma FormatParses(v: real)
    requires IsScaled(v, 2)
    ensures ParseNumber(FormatNumber(v)) == v
  {
    LocaleReadsBack(v, 2);
    FormatNonEmpty(v);
    ParseNonEmpty(FormatNumber(v), v);
  }

  /** The formatted text of an amount that is not negative: grouped whole
      digits (a comma exactly every four places from the right) that start
      with a digit, and with 0 only when the whole part is "0", then either
      nothing or a point and one or two digits, the last not 0. */
  lemma FormatShape(v: real)
    requires v >= 0.0
    ensures GroupedShape(FormatNumber(v)[..WholeRun(FormatNumber(v))])
    ensures WholeRun(FormatNumber(v)) > 0 && IsDigit(FormatNumber(v)[0])
    ensures FormatNumber(v)[0] == '0' ==> FormatNumber(v)[..WholeRun(FormatNumber(v))] == "0"
    ensures WholeRun(FormatNumber(v)) == |FormatNumber(v)| ||
      (FormatNumber(v)[WholeRun(FormatNumber(v))] == '.' &&
       |FormatNumber(v)| - WholeRun(FormatNumber(v)) in {2, 3} &&
       FormatNumber(v)[|FormatNumber(v)| - 1] != '0')
  {
    var u := RoundHalfExpand(Abs(v), 2);
    DivMod(u, Pow10(2));
    var ds := Digits(u / Pow10(2));
    GroupShape(ds);
    GroupedWhole(ds);
    var f := FractionDigits(u % Pow10(2), 2);
    assert FormatNumber(v) == Group(ds) + PointFraction(f);
    JoinShape(Group(ds), f);
    GroupLeads(ds);
    SameStart(FormatNumber(v), Group(ds));
  }

  lemma SameStart(s: string, g: string)
    requires 0 < |g| <= |s| && s[..|g|] == g
    ensures s[0] == g[0]
  {
    assert s[0] == s[..|g|][0];
  }

  /** Grouped digits followed by an optional point part: the digits and
      commas run exactly to the point. */
  lemma JoinShape(g: string, f: string)
    requires GroupedShape(g) && WholePart(g)
    requires AllDigits(f) && |f| <= 2 && (|f| == 0 || f[|f| - 1] != '0')
    ensures var s := g + PointFraction(f);
      WholeRun(s) == |g| && s[..|g|] == g &&
      (|f| == 0 ==> |s| == |g|) &&
      (|f| > 0 ==> s[|g|] == '.' && |s| - |g| in {2, 3} && s[|s| - 1] != '0')
  {
    var s := g + PointFraction(f);
    assert s[..|g|] == g;
    if |f| > 0 {
      assert s[|g|] == '.';
      assert s[|s| - 1] == f[|f| - 1];
    }
    WholeRunUnique(s, |g|);
  }

  /** String(v) of a field value passes the filter and parses back: the
      text a field is seeded with on focus is one it could have typed. */
  lemma NumberToStringAccepted(v: real)
    requires v >= 0.0 && IsScaled(v, 2)
    ensures ValidateDecimalInput(NumberToString(v))
    ensures ParseNumber(NumberToString(v)) == v
  {
    NumberToStringValidates(v);
    NumberToStringParses(v);
  }

  lemma NumberToStringValidates(v: real)
    requires v >= 0.0
    ensures ValidateDecimalInput(NumberToString(v))
  {
    var u := RoundHalfExpand(Abs(v), 2);
    DivMod(u, Pow10(2));
    var ds := Digits(u / Pow10(2));
    var f := FractionDigits(u % Pow10(2), 2);
    assert WholePart(ds);
    ValidateParts(ds, f);
    assert NumberToString(v) == ds + PointFraction(f);
  }

  lemma NumberToStringNonEmpty(v: real)
    ensures |NumberToString(v)| > 0
  {
    var u := RoundHalfExpand(Abs(v), 2);
    DivMod(u, Pow10(2));
    assert |Digits(u / Pow10(2))| > 0;
  }

  lemma NumberToStringParses(v: real)
    requires IsScaled(v, 2)
    ensures ParseNumber(NumberToString(v)) == v
  {
    var u := RoundHalfExpand(Abs(v), 2);
    DivMod(u, Pow10(2));
    var ds := Digits(u / Pow10(2));
    var f := FractionDigits(u % Pow10(2), 2);
    var t := ds + PointFraction(f);
    assert NoCommas(t) by {
      StripCommasAppend(ds, PointFraction(f));
    }
    assert NumberToString(v) == SignText(v) + t;
    assert NoCommas(SignText(v) + t);
    NumberToStringRoundTrip(v);
  }

  /** formatNumber rounds a non-negative amount to the nearest hundredth:
      what the text is worth is within half a hundredth of the amount, and
      exactly the amount when it has at most two decimals. */
  lemma FormatRounds(v: real)
    requires v >= 0.0
    ensures v - 0.005 < ParseNumber(FormatNumber(v)) <= v + 0.005
    ensures IsScaled(v, 2) ==> ParseNumber(FormatNumber(v)) == v
  {
    assert Abs(v) == v;
    FormatReadsRounded(v, RoundHalfExpand(v, 2));
    RoundedWindow(v, RoundHalfExpand(v, 2));
    if IsScaled(v, 2) {
      FormatParses(v);
    }
  }

  lemma FormatReadsRounded(v: real, u: nat)
    requires v >= 0.0 && u == RoundHalfExpand(Abs(v), 2)
    ensures ParseNumber(FormatNumber(v)) == u as real / Pow10(2) as real
  {
    FormatNonEmpty(v);
    LocaleReadsRounded(v, 2, u, u as real / Pow10(2) as real);
    ParseNonEmpty(FormatNumber(v), u as real / Pow10(2) as real);
  }

  lemma ParseNonEmpty(s: string, x: real)
    requires |s| > 0 && ParseFloat(StripCommas(s)) == Some(x)
    ensures ParseNumber(s) == x
  {
  }

  lemma FormatNonEmpty(v: real)
    ensures |FormatNumber(v)| > 0
  {
    var u := RoundHalfExpand(Abs(v), 2);
    DivMod(u, Pow10(2));
    assert |Group(Digits(u / Pow10(2)))| > 0;
  }

  /** parseFloat reads the comma-free locale text of a non-negative number
      as its rounded magnitude. */
  lemma LocaleReadsRounded(v: real, places: nat, u: nat, x: real)
    requires v >= 0.0 && u == RoundHalfExpand(Abs(v), places) && x == u as real / Pow10(places) as real
    ensures ParseFloat(StripCommas(ToLocaleString(v, places))) == Some(x)
  {
    LocaleStrip(v, places);
    PlainDenotes(u, places);
    SignLiteral(PlainText(u, places), x, false);
    assert PlainString(v, places) == "" + PlainText(u, places);
    LiteralParses(PlainString(v, places), x);
  }

  lemma RoundedWindow(v: real, u: nat)
    requires v >= 0.0 && Scale(v, 2) - 0.5 < u as real <= Scale(v, 2) + 0.5
    ensures v - 0.005 < u as real / Pow10(2) as real <= v + 0.005
  {
    assert Pow10(2) == 100;
    assert Scale(v, 2) == v * 100.0;
  }
}
