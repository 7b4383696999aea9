/** The income statement of src/components/home/incomeTable.tsx: annual
    rent, the share lost to vacancy, expenses as a percentage of the home's
    total value, net operating income (NOI) and the cap rate, and how the
    NOI cell chooses its colour, its sign and the amount it shows. */
module IncomeTable {
  import opened JsNumber
  import opened DecimalGrammar
  import opened LocaleRoundTrip
  import opened Utils

  /** The form values the table reads. Rates are percentages: 5 means 5 %. */
  datatype Values = Values(
    sellPrice: real,
    rennovationExpenses: real,
    annualTax: real,
    rentalIncomeMonthly: real,
    vacancyRate: real,
    annualInsurance: real,
    annualExpensesPercent: real)

  datatype Income = Income(
    rentAnnual: real,
    lostToVacancy: real,
    totalHomeValue: real,
    expenses: real,
    operatingIncome: real,
    capRate: real)

  /** The derived figures. Every dollar of rent is accounted for: NOI plus
      vacancy loss, expenses, insurance and tax is the annual rent. The cap
      rate is NOI over the sale price alone (the renovation counts towards
      expenses but not here), in percent rounded to hundredths, and 0 when
      either is 0. */
  function Derive(v: Values): (r: Income)
    ensures r.rentAnnual == 12.0 * v.rentalIncomeMonthly
    ensures r.lostToVacancy * 100.0 == v.vacancyRate * r.rentAnnual
    ensures r.totalHomeValue == v.sellPrice + v.rennovationExpenses
    ensures r.operatingIncome + r.lostToVacancy + r.expenses + v.annualInsurance + v.annualTax == r.rentAnnual
    ensures r.expenses * 100.0 == v.annualExpensesPercent * (v.sellPrice + v.rennovationExpenses)
    ensures v.sellPrice == 0.0 || r.operatingIncome == 0.0 ==> r.capRate == 0.0
    ensures v.sellPrice != 0.0 ==>
      r.operatingIncome / v.sellPrice * 100.0 - 0.005 < r.capRate <= r.operatingIncome / v.sellPrice * 100.0 + 0.005
    ensures IsScaled(r.capRate, 2)
  {
    var rentAnnual := v.rentalIncomeMonthly * 12.0;
    var lostToVacancy := (v.vacancyRate / 100.0) * (v.rentalIncomeMonthly * 12.0);
    var totalHomeValue := v.sellPrice + v.rennovationExpenses;
    var expenses := (v.annualExpensesPercent / 100.0) * totalHomeValue;
    var operatingIncome := rentAnnual - lostToVacancy - expenses - v.annualInsurance - v.annualTax;
    Income(rentAnnual, lostToVacancy, totalHomeValue, expenses, operatingIncome,
      CalculatePercent(operatingIncome, v.sellPrice))
  }

  /** A vacancy rate between 0 and 100 % loses between nothing and all of
      the annual rent. */
  lemma VacancyBounds(v: Values)
    requires 0.0 <= v.vacancyRate <= 100.0 && v.rentalIncomeMonthly >= 0.0
    ensures 0.0 <= Derive(v).lostToVacancy <= Derive(v).rentAnnual
  {
    ShareBounds(v.vacancyRate, v.rentalIncomeMonthly * 12.0);
    assert Derive(v).lostToVacancy == (v.vacancyRate / 100.0) * (v.rentalIncomeMonthly * 12.0);
    assert Derive(v).rentAnnual == v.rentalIncomeMonthly * 12.0;
  }

  lemma ShareBounds(rate: real, whole: real)
    requires 0.0 <= rate <= 100.0 && whole >= 0.0
    ensures 0.0 <= (rate / 100.0) * whole <= whole
  {
    var share := rate / 100.0;
    assert 0.0 <= share <= 1.0;
    assert share * whole <= 1.0 * whole;
  }

  /** With no negative input, the operating income never exceeds the rent;
      a vacancy rate above 100 % only lowers it further. */
  lemma OperatingIncomeAtMostRent(v: Values)
    requires v.sellPrice >= 0.0 && v.rennovationExpenses >= 0.0
    requires v.annualTax >= 0.0 && v.annualInsurance >= 0.0 && v.rentalIncomeMonthly >= 0.0
    requires v.vacancyRate >= 0.0 && v.annualExpensesPercent >= 0.0
    ensures Derive(v).operatingIncome <= Derive(v).rentAnnual
  {
    NonNegativeShare(v.vacancyRate, v.rentalIncomeMonthly * 12.0);
    NonNegativeShare(v.annualExpensesPercent, v.sellPrice + v.rennovationExpenses);
  }

  lemma NonNegativeShare(rate: real, whole: real)
    requires rate >= 0.0 && whole >= 0.0
    ensures (rate / 100.0) * whole >= 0.0
  {
  }

  /** The worked example: a 200,000 sale, 2,000 tax, 1,500 a month rent,
      5 % vacancy, 1,000 insurance and 10 % expenses lose 5,900 a year, a
      cap rate of -2.95 %. */
  lemma WorkedExample()
    ensures Derive(Values(200000.0, 0.0, 2000.0, 1500.0, 5.0, 1000.0, 10.0))
      == Income(18000.0, 900.0, 200000.0, 20000.0, -5900.0, -2.95)
  {
    CalculatePercentExamples();
  }

  /** The colour class of the NOI cell. */
  datatype Tone = Gain | Loss

  /** What the NOI cell shows: a colour, "+ $" or "- $", and an amount. */
  datatype NoiCell = NoiCell(tone: Tone, prefix: string, amount: string)

  function NoiDisplay(noi: real): NoiCell {
    if noi > 0.0 then NoiCell(Gain, "+ $", FormatNumber(Abs(noi)))
    else NoiCell(Loss, "- $", FormatNumber(Abs(noi)))
  }

  /** The signed number a reader takes from the cell. */
  function CellReading(c: NoiCell): real {
    if c.prefix == "+ $" then ParseNumber(c.amount) else -ParseNumber(c.amount)
  }

  /** The cell is green with "+ $" exactly for a positive NOI and red with
      "- $" otherwise, zero included; the amount is never signed (it passes
      the keystroke filter) and is |NOI| to the nearest hundredth, so the
      cell reads as NOI to within half a hundredth, exactly when NOI is a
      whole number of hundredths. */
  lemma NoiDisplayReads(noi: real)
    ensures NoiDisplay(noi).tone == Gain <==> noi > 0.0
    ensures NoiDisplay(noi).prefix == "+ $" <==> noi > 0.0
    ensures ValidateDecimalInput(NoiDisplay(noi).amount)
    ensures Abs(noi) - 0.005 < ParseNumber(NoiDisplay(noi).amount) <= Abs(noi) + 0.005
    ensures noi - 0.005 <= CellReading(NoiDisplay(noi)) <= noi + 0.005
    ensures IsScaled(noi, 2) ==> CellReading(NoiDisplay(noi)) == noi
  {
    assert "- $"[0] != "+ $"[0];
    FormatValidates(Abs(noi));
    FormatRounds(Abs(noi));
    if IsScaled(noi, 2) {
      ScaledAbs(noi, 2);
    }
  }
}
