/** The draft form of src/components/home/main-form.tsx: the record of ten
    numbers, the schema that checks it on blur and submit, the all-zero
    defaults, and the sale-price input, which formats and parses with the
    file's own helpers rather than those of src/lib/utils.ts. */
module MainForm {
  import opened Options
  import opened NumberText
  import opened JsNumber
  import opened DecimalGrammar
  import opened LocaleRoundTrip
  import opened Utils
  import FieldInput

  datatype FormValues = FormValues(
    sellPrice: real,
    annualTax: real,
    rennovationExpenses: real,
    rentalIncomeMonthly: real,
    vacancyRate: real,
    annualExpenses: real,
    percentDown: real,
    interestRate: real,
    loanDurationYears: real,
    annualAppreciationPercent: real)

  datatype FieldName =
    | SellPrice | AnnualTax | RennovationExpenses | RentalIncomeMonthly | VacancyRate
    | AnnualExpenses | PercentDown | InterestRate | LoanDurationYears | AnnualAppreciationPercent

  /** The fields in the order the schema declares them. */
  const SchemaOrder: seq<FieldName> := [
    SellPrice, AnnualTax, RennovationExpenses, RentalIncomeMonthly, VacancyRate,
    AnnualExpenses, PercentDown, InterestRate, LoanDurationYears, AnnualAppreciationPercent]

  function Get(f: FormValues, name: FieldName): real {
    match name
    case SellPrice => f.sellPrice
    case AnnualTax => f.annualTax
    case RennovationExpenses => f.rennovationExpenses
    case RentalIncomeMonthly => f.rentalIncomeMonthly
    case VacancyRate => f.vacancyRate
    case AnnualExpenses => f.annualExpenses
    case PercentDown => f.percentDown
    case InterestRate => f.interestRate
    case LoanDurationYears => f.loanDurationYears
    case AnnualAppreciationPercent => f.annualAppreciationPercent
  }

  /** The `.min(1)` of a field, or None for a bare `z.number()`. */
  function Minimum(name: FieldName): Option<real> {
    match name
    case SellPrice => Some(1.0)
    case AnnualTax => Some(1.0)
    case RentalIncomeMonthly => Some(1.0)
    case VacancyRate => Some(1.0)
    case AnnualExpenses => Some(1.0)
    case _ => None
  }

  predicate FieldOk(f: FormValues, name: FieldName) {
    Minimum(name).None? || Get(f, name) >= Minimum(name).value
  }

  /** The fields of `names` whose value is below the field's minimum, in order. */
  function IssuesOf(f: FormValues, names: seq<FieldName>): seq<FieldName> {
    if |names| == 0 then []
    else (if FieldOk(f, names[0]) then [] else [names[0]]) + IssuesOf(f, names[1..])
  }

  /** A field is reported exactly when it is listed and below its minimum. */
  lemma {:induction false} IssuesMembership(f: FormValues, names: seq<FieldName>, n: FieldName)
    ensures n in IssuesOf(f, names) <==> n in names && !FieldOk(f, n)
  {
    if |names| > 0 {
      IssuesMembership(f, names[1..], n);
      assert names == [names[0]] + names[1..];
    }
  }

  /** The schema's verdict: the fields it reports, in declaration order. */
  function Issues(f: FormValues): seq<FieldName> {
    IssuesOf(f, SchemaOrder)
  }

  /** The schema accepts a record exactly when the sale price, annual tax,
      monthly rent, vacancy rate and annual expenses are all at least 1;
      the other five fields may hold any number. */
  lemma SchemaAccepts(f: FormValues)
    ensures |Issues(f)| == 0 <==>
      f.sellPrice >= 1.0 && f.annualTax >= 1.0 && f.rentalIncomeMonthly >= 1.0
      && f.vacancyRate >= 1.0 && f.annualExpenses >= 1.0
  {
    IssuesMembership(f, SchemaOrder, SellPrice);
    IssuesMembership(f, SchemaOrder, AnnualTax);
    IssuesMembership(f, SchemaOrder, RentalIncomeMonthly);
    IssuesMembership(f, SchemaOrder, VacancyRate);
    IssuesMembership(f, SchemaOrder, AnnualExpenses);
    if |Issues(f)| > 0 {
      var n := Issues(f)[0];
      IssuesMembership(f, SchemaOrder, n);
      assert !FieldOk(f, n);
    }
  }

  /** Giving the five unbounded fields any values at all, each its own,
      never changes the verdict. */
  lemma UnboundedFieldsFree(f: FormValues, renovation: real, down: real, interest: real, years: real, appreciation: real)
    ensures Issues(f.(rennovationExpenses := renovation, percentDown := down, interestRate := interest,
                      loanDurationYears := years, annualAppreciationPercent := appreciation)) == Issues(f)
  {
    IssuesAgree(f, f.(rennovationExpenses := renovation, percentDown := down, interestRate := interest,
                      loanDurationYears := years, annualAppreciationPercent := appreciation), SchemaOrder);
  }

  /** Two records that agree on the bounded fields get the same issues. */
  lemma {:induction false} IssuesAgree(f: FormValues, g: FormValues, names: seq<FieldName>)
    requires f.sellPrice == g.sellPrice && f.annualTax == g.annualTax
    requires f.rentalIncomeMonthly == g.rentalIncomeMonthly && f.vacancyRate == g.vacancyRate
    requires f.annualExpenses == g.annualExpenses
    ensures IssuesOf(f, names) == IssuesOf(g, names)
  {
    if |names| > 0 {
      assert FieldOk(f, names[0]) == FieldOk(g, names[0]);
      IssuesAgree(f, g, names[1..]);
    }
  }

  /** The form starts with every field at 0. */
  const Defaults: FormValues := FormValues(0.0, 0.0, 0.0, 0.0, 0.0, 0.0, 0.0, 0.0, 0.0, 0.0)

  /** The defaults do not pass the schema: all five bounded fields are reported. */
  lemma DefaultsRejected()
    ensures Issues(Defaults) == [SellPrice, AnnualTax, RentalIncomeMonthly, VacancyRate, AnnualExpenses]
  {
    var s := SchemaOrder;
    DefaultsTail();
    var t := IssuesOf(Defaults, s[5..]);
    assert s[4..][1..] == s[5..];
    assert IssuesOf(Defaults, s[4..]) == [VacancyRate] + t;
    assert s[3..][1..] == s[4..];
    assert IssuesOf(Defaults, s[3..]) == [RentalIncomeMonthly] + ([VacancyRate] + t);
    assert s[2..][1..] == s[3..];
    assert IssuesOf(Defaults, s[2..]) == IssuesOf(Defaults, s[3..]);
    assert s[1..][1..] == s[2..];
    assert IssuesOf(Defaults, s[1..]) == [AnnualTax] + IssuesOf(Defaults, s[2..]);
    assert IssuesOf(Defaults, s) == [SellPrice] + IssuesOf(Defaults, s[1..]);
    assert Issues(Defaults) == [SellPrice] + ([AnnualTax] + ([RentalIncomeMonthly] + ([VacancyRate] + t)));
    ReportedInOrder(t);
  }

  lemma ReportedInOrder(t: seq<FieldName>)
    requires t == [AnnualExpenses]
    ensures [SellPrice] + ([AnnualTax] + ([RentalIncomeMonthly] + ([VacancyRate] + t)))
      == [SellPrice, AnnualTax, RentalIncomeMonthly, VacancyRate, AnnualExpenses]
  {
  }

  /** Of the last six fields only the annual expenses are reported. */
  lemma DefaultsTail()
    ensures IssuesOf(Defaults, SchemaOrder[5..]) == [AnnualExpenses]
  {
    var s := SchemaOrder;
    assert s[9..][1..] == s[10..];
    assert IssuesOf(Defaults, s[9..]) == [];
    assert s[8..][1..] == s[9..];
    assert IssuesOf(Defaults, s[8..]) == [];
    assert s[7..][1..] == s[8..];
    assert IssuesOf(Defaults, s[7..]) == [];
    assert s[6..][1..] == s[7..];
    assert IssuesOf(Defaults, s[6..]) == [];
    assert s[5..][1..] == s[6..];
  }

  /** The file's own formatNumber: `Number(num).toLocaleString("en-US")`,
      whose default keeps up to three fraction digits. */
  function LocalFormat(v: real): string {
    ToLocaleString(v, 3)
  }

  /** The file's own parseNumber: `Number(text without commas) || 0`. Unlike
      parseFloat, Number reads the whole text or nothing. */
  function LocalParse(s: string): real {
    if s == "" then 0.0
    else match NumberOf(StripCommas(s))
      case None => 0.0
      case Some(x) => x
  }

  /** The sale-price input's onChange: whatever the text, its local parse
      becomes the sale price; nothing filters the keystrokes first. */
  function OnChange(f: FormValues, text: string): FormValues {
    f.(sellPrice := LocalParse(text))
  }

  /** What the sale-price input shows. */
  function SellPriceText(f: FormValues): string {
    LocalFormat(f.sellPrice)
  }

  /** The local helpers undo each other on every number with at most three
      decimals, negative ones included, so re-submitting the shown text as a
      change leaves the record as it was. */
  lemma LocalRoundTrip(v: real)
    requires IsScaled(v, 3)
    ensures LocalParse(LocalFormat(v)) == v
  {
    LocaleReadsBack(v, 3);
    var u := RoundHalfExpand(Abs(v), 3);
    DivMod(u, Pow10(3));
    assert |Group(Digits(u / Pow10(3)))| > 0;
  }

  lemma ShownTextStable(f: FormValues)
    requires IsScaled(f.sellPrice, 3)
    ensures OnChange(f, SellPriceText(f)) == f
  {
    LocalRoundTrip(f.sellPrice);
  }

  /** Every whole number survives the round trip. */
  lemma WholeRoundTrip(n: int)
    ensures LocalParse(LocalFormat(n as real)) == n as real
  {
    assert Scale(n as real, 3) == (n * Pow10(3)) as real;
    LocalRoundTrip(n as real);
  }

  /** A character no number ends with (anything but a digit, a point, a
      comma or white space), typed after any text at all, makes the whole
      text NaN for Number, so the sale price drops to 0. */
  lemma StrayCharacterZeroes(f: FormValues, t: string, c: char)
    requires !IsDigit(c) && c != '.' && c != ',' && !IsJsSpace(c)
    ensures OnChange(f, t + [c]).sellPrice == 0.0
  {
    StripLast(t, c);
    var u := StripCommas(t) + [c];
    assert u[|u| - 1] == c;
    NumberRejectsStrayEnd(u);
    assert NumberOf(StripCommas(t + [c])) == None;
    assert LocalParse(t + [c]) == 0.0;
  }

  /** On the grouped digits the input shows for a whole price, "200,000"
      say, a stray character zeroes the sale price, while utils' parseNumber
      still reads the number in front of it. */
  lemma StrayAfterGrouped(f: FormValues, ds: string, c: char)
    requires |ds| > 0 && AllDigits(ds)
    requires !IsDigit(c) && c != '.' && c != ',' && !IsJsSpace(c)
    ensures OnChange(f, Group(ds) + [c]).sellPrice == 0.0
    ensures ParseNumber(Group(ds) + [c]) == DigitsValue(ds) as real
  {
    StrayCharacterZeroes(f, Group(ds), c);
    StripLast(Group(ds), c);
    StrayPrefix(ds, c);
    StrayTrim(ds, c);
    assert ParseFloat(StripCommas(Group(ds) + [c])) == Some(DigitsValue(ds) as real);
    ParseNonEmpty(Group(ds) + [c], DigitsValue(ds) as real);
  }

  lemma StripLast(t: string, c: char)
    requires c != ','
    ensures StripCommas(t + [c]) == StripCommas(t) + [c]
  {
    StripCommasAppend(t, [c]);
    assert NoCommas([c]);
  }



  /** A second point anywhere makes the text NaN for Number, so the sale
      price drops to 0. */
  lemma SecondPointZeroes(f: FormValues, a: string, b: string, d: string)
    ensures OnChange(f, a + "." + b + "." + d).sellPrice == 0.0
  {
    var s := a + "." + b + "." + d;
    StripTwoPoints(a, b, d);
    var u := StripCommas(a) + "." + StripCommas(b) + "." + StripCommas(d);
    var p := |StripCommas(a)|;
    var q := p + 1 + |StripCommas(b)|;
    assert u[p] == '.' && u[q] == '.';
    NumberRejectsTwoPoints(u, p, q);
    assert NumberOf(StripCommas(s)) == None;
    assert LocalParse(s) == 0.0;
  }

  /** utils' parseNumber instead reads up to the second point. */
  lemma SecondPointIgnored(w: string, fr: string, d: string)
    requires |w| > 0 && AllDigits(w) && AllDigits(fr)
    ensures ParseNumber(w + "." + fr + "." + d) == DecimalValue(w, fr)
  {
    StripTwoPoints(w, fr, d);
    var u := w + "." + fr + ("." + StripCommas(d));
    assert StripCommas(w + "." + fr + "." + d) == u;
    FloatStopsAtPoint(w, fr, "." + StripCommas(d));
    assert ParseFloat(StripCommas(w + "." + fr + "." + d)) == Some(DecimalValue(w, fr));
    ParseNonEmpty(w + "." + fr + "." + d, DecimalValue(w, fr));
  }

  lemma FloatStopsAtPoint(w: string, fr: string, rest: string)
    requires |w| > 0 && AllDigits(w) && AllDigits(fr) && |rest| > 0 && rest[0] == '.'
    ensures ParseFloat(w + "." + fr + rest) == Some(DecimalValue(w, fr))
  {
    var u := w + "." + fr + rest;
    ScanFraction(w, fr, rest);
    assert u[0] == w[0];
    StartsLiteral(u[0]);
  }

  lemma StripTwoPoints(a: string, b: string, d: string)
    ensures StripCommas(a + "." + b + "." + d)
      == StripCommas(a) + "." + StripCommas(b) + "." + StripCommas(d)
  {
    assert NoCommas(".");
    StripCommasAppend(a, ".");
    StripCommasAppend(a + ".", b);
    StripCommasAppend(a + "." + b, ".");
    StripCommasAppend(a + "." + b + ".", d);
  }

  /** parseFloat still finds the digits at the start of the text. */
  lemma StrayPrefix(digits: string, c: char)
    requires |digits| > 0 && AllDigits(digits)
    requires !IsDigit(c) && c != '.' && c != ',' && !IsJsSpace(c)
    ensures ParseFloat(StripCommas(digits + [c])) == Some(DigitsValue(digits) as real)
  {
    StrayScan(digits, c);
    var t := digits + [c];
    assert StripCommas(t) == t;
  }

  lemma StrayScan(digits: string, c: char)
    requires |digits| > 0 && AllDigits(digits)
    requires !IsDigit(c) && c != '.' && c != ',' && !IsJsSpace(c)
    ensures NoCommas(digits + [c])
    ensures TrimStart(digits + [c]) == digits + [c] && Trim(digits + [c]) == digits + [c]
    ensures ScanSigned(digits + [c]) == Some(Scan(DigitsValue(digits) as real, |digits|))
  {
    StrayTrim(digits, c);
    StrayLiteral(digits, c);
  }

  /** The text has no comma and no white space at either end. */
  lemma StrayTrim(digits: string, c: char)
    requires |digits| > 0 && AllDigits(digits)
    requires !IsDigit(c) && c != ',' && !IsJsSpace(c)
    ensures NoCommas(digits + [c])
    ensures TrimStart(digits + [c]) == digits + [c] && Trim(digits + [c]) == digits + [c]
  {
    var t := digits + [c];
    assert t[0] == digits[0] && IsDigit(t[0]);
    assert t[|t| - 1] == c;
    assert forall i :: 0 <= i < |t| ==> t[i] != ',' by {
      forall i | 0 <= i < |t| ensures t[i] != ',' {
        if i < |digits| { assert t[i] == digits[i]; }
      }
    }
  }

  /** The literal at the start is the digits alone. */
  lemma StrayLiteral(digits: string, c: char)
    requires |digits| > 0 && AllDigits(digits)
    requires !IsDigit(c) && c != '.'
    ensures ScanSigned(digits + [c]) == Some(Scan(DigitsValue(digits) as real, |digits|))
  {
    var t := digits + [c];
    assert t[0] == digits[0] && IsDigit(t[0]);
    assert !IsSign(t[0]);
    ScanWhole(digits, [c]);
  }


  /** "12a" stores 0, where utils' parseNumber reads 12. */
  lemma StrayCharacterExample()
    ensures OnChange(Defaults, "12a").sellPrice == 0.0 && ParseNumber("12a") == 12.0
  {
    assert "12a" == Group("12") + ['a'];
    StrayAfterGrouped(Defaults, "12", 'a');
    assert DigitsValue("12") == 12 by {
      assert "12"[..1] == "1";
    }
  }

  /** The shown "200,000" followed by "a" stores 0. */
  lemma GroupedStrayExample()
    ensures OnChange(Defaults, "200,000a").sellPrice == 0.0
  {
    assert "200,000a" == "200,000" + ['a'];
    StrayCharacterZeroes(Defaults, "200,000", 'a');
  }

  /** "1.2.3" stores 0, where utils' parseNumber reads 1.2. */
  lemma SecondPointExample()
    ensures OnChange(Defaults, "1.2.3").sellPrice == 0.0 && ParseNumber("1.2.3") == 1.2
  {
    SecondPointStores();
    SecondPointReads();
  }

  lemma SecondPointStores()
    ensures OnChange(Defaults, "1.2.3").sellPrice == 0.0
  {
    assert "1.2.3" == "1" + "." + "2" + "." + "3";
    SecondPointZeroes(Defaults, "1", "2", "3");
  }

  lemma SecondPointReads()
    ensures ParseNumber("1.2.3") == 1.2
  {
    assert "1.2.3" == "1" + "." + "2" + "." + "3";
    SecondPointIgnored("1", "2", "3");
    OnePointTwo();
  }

  lemma OnePointTwo()
    ensures DecimalValue("1", "2") == 1.2
  {
    assert DigitsValue("1") == 1 && DigitsValue("2") == 2 && Pow10(1) == 10;
  }

  /** A typed decimal point disappears: the input is controlled by the
      formatted number, and digits followed by a point parse to the digits'
      whole number, which is shown without a point. */
  lemma PointSwallowed(f: FormValues, digits: string)
    requires |digits| > 0 && AllDigits(digits)
    ensures OnChange(f, digits + ".").sellPrice == DigitsValue(digits) as real
    ensures SellPriceText(OnChange(f, digits + ".")) == Group(Digits(DigitsValue(digits)))
    ensures '.' !in SellPriceText(OnChange(f, digits + "."))
  {
    PointNumber(digits);
    LocalReads(digits + ".", DigitsValue(digits) as real);
    WholeShown(DigitsValue(digits));
    NoPointInGroup(Digits(DigitsValue(digits)));
  }

  /** Number reads digits followed by a point as the digits' value. */
  lemma PointNumber(digits: string)
    requires |digits| > 0 && AllDigits(digits)
    ensures NumberOf(StripCommas(digits + ".")) == Some(DigitsValue(digits) as real)
  {
    PointReads(digits);
    PointKeepsText(digits);
    StrippedNumber(digits + ".", DigitsValue(digits) as real);
  }

  lemma PointReads(digits: string)
    requires |digits| > 0 && AllDigits(digits)
    ensures NumberOf(digits + ".") == Some(DigitsValue(digits) as real)
  {
    PointTrim(digits);
    PointLiteral(digits);
    WholeLiteral(digits + ".", DigitsValue(digits) as real);
  }

  /** Stripping commas leaves digits and a point as they are. */
  lemma PointKeepsText(digits: string)
    requires |digits| > 0 && AllDigits(digits)
    ensures StripCommas(digits + ".") == digits + "."
  {
    PointTrim(digits);
  }

  lemma StrippedNumber(t: string, v: real)
    requires NumberOf(t) == Some(v) && StripCommas(t) == t
    ensures NumberOf(StripCommas(t)) == Some(v)
  {
  }

  /** Number reads a text that is one literal from end to end. */
  lemma WholeLiteral(t: string, v: real)
    requires |t| > 0 && Trim(t) == t && ScanSigned(t) == Some(Scan(v, |t|))
    ensures NumberOf(t) == Some(v)
  {
  }

  lemma PointTrim(digits: string)
    requires |digits| > 0 && AllDigits(digits)
    ensures NoCommas(digits + ".")
    ensures Trim(digits + ".") == digits + "."
  {
    var t := digits + ".";
    assert t[0] == digits[0] && IsDigit(t[0]);
    assert t[|t| - 1] == '.';
    assert forall i :: 0 <= i < |t| ==> t[i] != ',' by {
      forall i | 0 <= i < |t| ensures t[i] != ',' {
        if i < |digits| { assert t[i] == digits[i]; }
      }
    }
  }

  /** The whole text, point included, is one literal worth the digits. */
  lemma PointLiteral(digits: string)
    requires |digits| > 0 && AllDigits(digits)
    ensures ScanSigned(digits + ".") == Some(Scan(DigitsValue(digits) as real, |digits| + 1))
  {
    var t := digits + ".";
    assert t[0] == digits[0] && IsDigit(t[0]);
    assert !IsSign(t[0]);
    PointScan(digits);
  }

  lemma PointScan(digits: string)
    requires |digits| > 0 && AllDigits(digits)
    ensures ScanUnsigned(digits + ".") == Some(Scan(DigitsValue(digits) as real, |digits| + 1))
  {
    ScanFraction(digits, "", "");
    assert digits + "." + "" + "" == digits + ".";
    DecimalWhole(digits);
  }

  /** Where Number reads a value, the local parse takes it. */
  lemma LocalReads(t: string, x: real)
    requires |t| > 0 && NumberOf(StripCommas(t)) == Some(x)
    ensures LocalParse(t) == x
  {
  }

  /** A whole number is shown as its grouped digits alone. */
  lemma WholeShown(n: nat)
    ensures LocalFormat(n as real) == Group(Digits(n))
  {
    WholeRounds(n);
    WholeGrouped(n);
    assert SignText(n as real) == "" && Abs(n as real) == n as real;
  }

  lemma WholeRounds(n: nat)
    ensures RoundHalfExpand(n as real, 3) == n * Pow10(3)
  {
    assert Scale(n as real, 3) == (n * Pow10(3)) as real;
  }

  lemma WholeGrouped(n: nat)
    ensures GroupedText(n * Pow10(3), 3) == Group(Digits(n))
  {
    ExactThousandths(n);
    GroupedExact(n * Pow10(3), n);
  }

  lemma ExactThousandths(n: nat)
    ensures (n * Pow10(3)) / Pow10(3) == n && (n * Pow10(3)) % Pow10(3) == 0
  {
    assert Pow10(3) == 1000;
  }

  lemma GroupedExact(u: nat, n: nat)
    requires u / Pow10(3) == n && u % Pow10(3) == 0
    ensures GroupedText(u, 3) == Group(Digits(n))
  {
    FractionDigitsEmpty(0, 3);
    assert Group(Digits(n)) + "" == Group(Digits(n));
  }

  /** Grouped digits hold digits and commas only. */
  lemma NoPointInGroup(ds: string)
    requires AllDigits(ds)
    ensures '.' !in Group(ds)
  {
    GroupShape(ds);
  }

  lemma PointSwallowedExample()
    ensures SellPriceText(OnChange(Defaults, "1.")) == "1"
  {
    assert "1." == "1" + ".";
    PointSwallowed(Defaults, "1");
    assert DigitsValue("1") == 1;
    assert Digits(1) == "1";
  }

  /** The sale-price input rebuilt on the currency field: the typed text is
      kept while the input has focus, and only its value reaches the form. */
  datatype SalePrice = SalePrice(form: FormValues, input: FieldInput.Field)

  function OnSalePriceChange(s: SalePrice, text: string): SalePrice {
    var input := FieldInput.OnChange(FieldInput.Currency, s.input, text);
    SalePrice(s.form.(sellPrice := input.value), input)
  }

  /** With the currency field, a typed point stays on screen and the form
      holds the digits' value, as with the original input. */
  lemma TypedPointKept(s: SalePrice, digits: string)
    requires |digits| > 0 && AllDigits(digits)
    ensures FieldInput.Display(OnSalePriceChange(s, digits + ".").input) == digits + "."
    ensures OnSalePriceChange(s, digits + ".").form.sellPrice == DigitsValue(digits) as real
  {
    PointValidates(digits);
    PointParses(digits);
  }

  lemma PointValidates(digits: string)
    requires AllDigits(digits)
    ensures ValidateDecimalInput(digits + ".")
  {
    var t := digits + ".";
    assert t[..|digits|] == digits;
    assert t[|digits|] == '.';
    assert t[|digits| + 1..] == "";
    assert SplitMatches(t, |digits|, |digits| + 1);
    ValidateMatches(t);
  }

  lemma PointParses(digits: string)
    requires |digits| > 0 && AllDigits(digits)
    ensures ParseNumber(digits + ".") == DigitsValue(digits) as real
  {
    PointFloat(digits);
    PointKeepsText(digits);
    assert ParseFloat(StripCommas(digits + ".")) == Some(DigitsValue(digits) as real);
    ParseNonEmpty(digits + ".", DigitsValue(digits) as real);
  }

  lemma PointFloat(digits: string)
    requires |digits| > 0 && AllDigits(digits)
    ensures ParseFloat(digits + ".") == Some(DigitsValue(digits) as real)
  {
    ParseDigits(digits, "", true);
    assert digits + "." + "" == digits + ".";
    DecimalWhole(digits);
  }

}
