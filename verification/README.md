# PropertyROI core in Dafny

PropertyROI is a small web calculator for the return on a rental property.
This project models the part of it that holds logic, with exact rational
numbers (`real`) standing in for JavaScript doubles.

- **The helpers of `src/lib/utils.ts`.** Covered: the keystroke filter
  `validateDecimalInput` (`DecimalGrammar`), `parseNumber`, `formatNumber`
  and `calculatePercent` (`Utils`). The JavaScript conversions they build
  on are `parseFloat`, `Number`, `toLocaleString("en-US")` and `String`;
  they are modelled in `JsNumber` and tied together in `LocaleRoundTrip`.
- **The three numeric inputs: currency, percentage and duration.**
  `FieldInput` models them as one state machine. A field holds a committed
  value and, while it has focus, the raw text being typed. The three kinds
  differ only in the bound a parsed value must meet before it is committed.
  Only the currency field intercepts a paste.
- **The income statement of `incomeTable.tsx`** (`IncomeTable`). This
  covers annual rent, vacancy loss, expenses, net operating income (NOI),
  the cap rate, and the sign, colour and amount of the NOI cell.
- **The draft form of `main-form.tsx`** (`MainForm`). This covers the
  ten-field record, the zod schema, the all-zero defaults, and the
  sale-price input with the file's own `formatNumber`/`parseNumber`.
- **The `usePersistedState` hook** (`PersistedState`). It is modelled as
  init, set and clear over a map from keys to stored items. Whether each
  storage read, write or removal succeeds is a parameter.

Number texts are `seq<char>`.

- Files: `options.dfy`, `number_text.dfy`, `decimal_grammar.dfy`, `js_number.dfy`,
  `locale_round_trip.dfy`, `utils.dfy`, `field_input.dfy`,
  `income_table.dfy`, `main_form.dfy`, `persisted_state.dfy`.
- Source paths below are relative to the repository root.

## Model

| member | source | states |
|---|---|---|
| DecimalGrammar.ValidateMatches | src/lib/utils.ts:13-15 | The filter accepts a text exactly when it splits into a run of digits and commas, then at most one point, then at most two digits. This is the structure of `^[\d,]*\.?\d{0,2}$`. |
| DecimalGrammar.ValidateInfix | src/lib/utils.ts:13-15 | Every contiguous piece of an accepted text is accepted too. |
| DecimalGrammar.ValidateExamples | src/lib/utils.ts:13-15 | "1,200.50", "50", "" and "." pass the filter. "1.2.3", "12.345", "abc" and "-5" do not. |
| Utils.ParseAccepted | src/lib/utils.ts:25-30 | On an accepted text, parseNumber gives the decimal worth of the whole digits (commas dropped) and the fraction digits. That is 0 when there is no digit at all. |
| Utils.ParseAcceptedBounds | src/lib/utils.ts:25-30 | A value parsed from an accepted text is never negative and is a whole number of hundredths. |
| Utils.ParseIgnoresCommas | src/lib/utils.ts:25-30 | Inserting a comma anywhere in any text never changes what parseNumber returns. |
| Utils.ParseExamples | src/lib/utils.ts:25-30 | "", "." and "," are worth 0, although "." and "," pass the filter. "1,200.50" is worth 1200.5. |
| Utils.FormatZero | src/lib/utils.ts:17-23 | 0 is formatted as "0", not as the empty text. |
| Utils.FormatValidates | src/lib/utils.ts:17-23 | A formatted amount passes the keystroke filter exactly when it is not negative. |
| Utils.FormatParses | src/lib/utils.ts:17-30 | parseNumber(formatNumber(v)) == v for every v that is a whole number of hundredths, negative ones included. |
| Utils.FormatShape | src/lib/utils.ts:17-23 | For v >= 0 the text is grouped en-US style. The whole part is never empty and starts with a digit, and it starts with 0 only when it is "0". Commas sit exactly every fourth place from the right of the whole part. Any fraction follows a point, has one or two digits and does not end in 0. |
| Utils.FormatRounds | src/lib/utils.ts:17-30 | For v >= 0, formatting and parsing back lands within half a hundredth of v, and exactly on v when v is whole hundredths. |
| Utils.FormatReadsRounded | src/lib/utils.ts:17-30 | For v >= 0, parsing the formatted text gives v rounded half away from zero to hundredths. |
| Utils.MathRound | src/lib/utils.ts:38 | Math.round picks a whole number k with x - 0.5 < k <= x + 0.5. |
| Utils.MathRoundUnique | src/lib/utils.ts:38 | Only one whole number lies in that window, so the rounding is determined. |
| Utils.CalculatePercent | src/lib/utils.ts:32-39 | The result is 0 when either operand is 0. Otherwise it is within half a hundredth of numerator/denominator*100. It is always a whole number of hundredths. |
| Utils.CalculatePercentUnique | src/lib/utils.ts:32-39 | Any whole number of hundredths within half a hundredth of the exact percentage is the result, so the window determines it. |
| Utils.CalculatePercentExamples | src/lib/utils.ts:32-39 | 25 of 200 is 12.5 %, -5900 of 200000 is -2.95 %, and a zero operand gives 0. |
| Utils.NumberToStringAccepted | src/components/currencyInput.tsx:31-33 | For v >= 0 with at most two decimals, String(v) passes the filter and parses back to v. |
| LocaleRoundTrip.LocaleReadsBack | src/components/home/main-form.tsx:35-45 | Once its commas are stripped, the locale text of a number with at most `places` decimals is read back to exactly that number by both parseFloat and Number. |
| LocaleRoundTrip.NumberToStringRoundTrip | src/components/percentageInput.tsx:31-33 | String(v) of a number with at most two decimals is read back to v by parseFloat and by Number. |
| JsNumber.RoundHalfExpand | src/lib/utils.ts:19-22 | toLocaleString's rounding lands within half a unit of the scaled magnitude, and exactly on it when it is whole. |
| FieldInput.StepValid | src/components/currencyInput.tsx:30-53 | Every event keeps the field's invariant. The value is >= 0, whole hundredths and within the kind's bound. Any buffer passes the filter and parses to the value. |
| FieldInput.RunValid | src/components/durationInput.tsx:40-58 | Every state reachable from the initial one satisfies the invariant. |
| FieldInput.RunBounds | src/components/percentageInput.tsx:38-47 | A committed percentage always lies in 0..100 and a duration in 0..1000. Every committed amount is >= 0 and whole hundredths. |
| FieldInput.ChangeCommits | src/components/currencyInput.tsx:38-44 | A change takes the text as buffer exactly when it commits, or when the buffer already held it. On commit the value is the text's decimal worth; otherwise nothing changes. |
| FieldInput.DurationLowerBoundRedundant | src/components/durationInput.tsx:48-58 | Because the filter admits no sign, the `parsed >= 0` test never fails. A duration commits exactly when the text passes the filter and is worth at most 1000. |
| FieldInput.DisplayParses | src/components/currencyInput.tsx:30 | The text a valid field shows, focused or not, passes the filter and is worth the committed value. |
| FieldInput.FocusSeed | src/components/percentageInput.tsx:31-33 | Focus seeds the empty text exactly when the value is 0, and String(value) otherwise. The value is untouched. |
| FieldInput.FocusBlurRoundTrip | src/components/currencyInput.tsx:31-37 | Focusing and blurring without typing restores the field. The seeded text is worth what the formatted text showed. |
| FieldInput.InvalidPasteIgnored | src/components/currencyInput.tsx:45-53 | A pasted text whose one-line form the filter rejects never changes the currency field, because the default insertion contains that form and is rejected too. |
| FieldInput.AcceptedOneLine | src/components/currencyInput.tsx:45-53 | A text the filter accepts holds no line break, so the browser inserts it unchanged. |
| FieldInput.TrailingBreakPaste | src/components/currencyInput.tsx:45-53 | An accepted text followed by line breaks is rejected by the handler, yet the browser inserts it without the breaks, so the field takes it in as if it had been typed there. |
| FieldInput.SpreadsheetPasteExample | src/components/currencyInput.tsx:45-53 | Pasting "1,200.50" with a trailing newline into an empty currency field commits 1200.5. |
| FieldInput.ValidPasteReplaces | src/components/currencyInput.tsx:45-53 | A pasted text the filter accepts replaces the whole buffer, whatever surrounded the caret, and commits its decimal worth. |
| IncomeTable.Derive | src/components/home/incomeTable.tsx:26-38 | The annual rent is 12 times the monthly rent. The vacancy loss is the vacancy rate's percentage of the annual rent. The home value is sale price plus renovation, and expenses are the expense percentage of that value. NOI plus vacancy loss, expenses, insurance and tax equals the annual rent. The cap rate is 0 when the sale price or NOI is 0; otherwise it is within half a hundredth of NOI/price*100 and is whole hundredths. |
| IncomeTable.VacancyBounds | src/components/home/incomeTable.tsx:26-28 | A vacancy rate between 0 and 100 % loses between nothing and all of the annual rent. |
| IncomeTable.OperatingIncomeAtMostRent | src/components/home/incomeTable.tsx:26-36 | With no negative input, NOI never exceeds the annual rent. The vacancy rate may be any number >= 0, above 100 % included. |
| IncomeTable.WorkedExample | src/components/home/incomeTable.tsx:26-38 | The worked example: 200,000 sale, 2,000 tax, 1,500 a month rent, 5 % vacancy, 1,000 insurance and 10 % expenses. It gives NOI -5,900 and cap rate -2.95. |
| IncomeTable.NoiDisplayReads | src/components/home/incomeTable.tsx:95-103 | The cell is green with "+ $" exactly when NOI > 0; zero is shown red with "- $". The amount never carries a sign. The cell reads as NOI to within half a hundredth, and exactly when NOI is whole hundredths. |
| MainForm.SchemaAccepts | src/components/home/main-form.tsx:18-32 | The schema accepts a record exactly when the sale price, annual tax, monthly rent, vacancy rate and annual expenses are all >= 1. |
| MainForm.IssuesMembership | src/components/home/main-form.tsx:18-32 | A field is reported exactly when it is checked and below its minimum. |
| MainForm.UnboundedFieldsFree | src/components/home/main-form.tsx:22-31 | Giving renovation, percent down, interest, loan duration and appreciation any values, each independently of the others, never changes the verdict. |
| MainForm.DefaultsRejected | src/components/home/main-form.tsx:49-64 | The all-zero defaults fail the schema, with the five bounded fields reported in declaration order. |
| MainForm.LocalRoundTrip | src/components/home/main-form.tsx:35-45 | The file's own parse undoes its own format for every number with at most three decimals, negative ones included. |
| MainForm.WholeRoundTrip | src/components/home/main-form.tsx:35-45 | Every whole number survives the file's format-then-parse. |
| MainForm.ShownTextStable | src/components/home/main-form.tsx:98-103 | For a sale price with at most three decimals, re-entering the text the input shows leaves the record unchanged. |
| JsNumber.NumberRejectsStrayEnd | src/components/home/main-form.tsx:41-45 | Number gives NaN for any text whose last character is not a digit, a point or white space, except hexadecimal literals and "Infinity", which are not modelled. |
| JsNumber.NumberRejectsTwoPoints | src/components/home/main-form.tsx:41-45 | Number gives NaN for any text with two points. |
| MainForm.StrayCharacterZeroes | src/components/home/main-form.tsx:41-45 | Any text followed by a character that is not a digit, point, comma or white space sets the sale price to 0, except hexadecimal literals and "Infinity", which are not modelled. |
| MainForm.StrayAfterGrouped | src/components/home/main-form.tsx:41-45 | Take the grouped digits shown for a whole price, commas included, followed by such a character. It sets the sale price to 0, while utils' parseNumber reads the digits' value. |
| MainForm.SecondPointZeroes | src/components/home/main-form.tsx:41-45 | Any text with two points sets the sale price to 0. |
| MainForm.SecondPointIgnored | src/lib/utils.ts:25-30 | utils' parseNumber reads digits, a point and digits followed by a second point as the number before that second point. |
| MainForm.StrayCharacterExample | src/components/home/main-form.tsx:100-103 | Typing "12a" sets the sale price to 0, where utils' parseNumber would read 12. |
| MainForm.GroupedStrayExample | src/components/home/main-form.tsx:98-103 | Typing "a" after the shown "200,000" sets the sale price to 0. |
| MainForm.SecondPointExample | src/components/home/main-form.tsx:100-103 | "1.2.3" sets the sale price to 0, where utils' parseNumber would read 1.2. |
| MainForm.SecondPointStores | src/components/home/main-form.tsx:100-103 | Typing "1.2.3" into the sale-price input stores 0. |
| MainForm.SecondPointReads | src/lib/utils.ts:25-30 | utils' parseNumber reads "1.2.3" as 1.2, ignoring everything from the second point on. |
| MainForm.PointSwallowed | src/components/home/main-form.tsx:98-103 | Digits followed by a point are stored as the digits' whole number. The shown text is the grouped digits without a point. |
| MainForm.PointSwallowedExample | src/components/home/main-form.tsx:98-103 | Typing "1." into the sale price shows "1". |
| MainForm.TypedPointKept | src/components/currencyInput.tsx:38-44 | A sale-price input built on the currency field keeps "digits." on screen and stores the digits' value. |
| PersistedState.Set | src/lib/persistedState.ts:17-30 | The state becomes the new value whether or not the write succeeds. A successful write stores it under the key. No other key changes, and a failed write leaves storage as it was. |
| PersistedState.Clear | src/lib/persistedState.ts:32-39 | The state returns to the default. A successful removal drops the key. Storage never gains a key or a new item, so the default is not written back. |
| PersistedState.UpdaterSeesLatest | src/lib/persistedState.ts:17-27 | A function handed to the setter acts as the value it computes from the latest state. Two functions in a row compose, whether or not either write succeeds. |
| PersistedState.SetThenRemount | src/lib/persistedState.ts:8-27 | After a successful write, mounting again from the same storage gives the value just set. |
| PersistedState.ClearThenRemount | src/lib/persistedState.ts:8-39 | After a successful removal, mounting again gives the default. |
| PersistedState.SetKeepsOtherKeys | src/lib/persistedState.ts:22 | A write under one key never changes what another key mounts as. |
| PersistedState.WriteFailureInvisible | src/lib/persistedState.ts:21-27 | A failed write leaves the component's state equal to that after a successful one, and leaves storage untouched. |
| PersistedState.ReplayMirrors | src/lib/persistedState.ts:7-39 | While every storage access succeeds, a reload at any point restores the state the component held. |
| PersistedState.ReplayState | src/lib/persistedState.ts:17-39 | Whichever storage accesses fail, the in-memory state equals one computed from the calls alone, without storage. |

## Left out

- **Floating point.**
  - IEEE-754 doubles are modelled as exact rationals. Binary rounding at .xx5 boundaries is not modelled. Neither are NaN from arithmetic, -0, Infinity, or the exponent notation that `String` uses for huge or tiny numbers. `toLocaleString` never prints an exponent: it writes huge numbers out in full and rounds tiny ones to 0.
  - Utils.CalculatePercent: computed over exact rationals. The source's double arithmetic can land one hundredth away at a tie.
  - IncomeTable.Derive: the accounting identity holds exactly only over exact arithmetic.
- **Number literals.** `parseFloat` and `Number` are modelled for optional sign, JavaScript white space and plain decimal literals. Exponents, hexadecimal, binary and octal literals, and "Infinity" are not modelled.
- **formatNumber on NaN.** The empty result of `formatNumber` for NaN (`src/lib/utils.ts:18`, `main-form.tsx:36`) is not modelled, because a `real` is never NaN.
- **String(value).** The focus seed `String(value)` is modelled as plain decimal digits with at most two places. That is exact for every value a field can hold, which is whole hundredths.
- **React, zod and the form library.**
  - Scheduling and controlled-input plumbing are not modelled.
  - tanstack-form's touched/valid bookkeeping and error display are left out.
  - Of zod, only the `.min(1)` checks are kept.
  - The JSX, the CSS classes, `cn`, the routes, the navbar and the table's other display cells are left out.
  - The other cells only pass each figure through `formatNumber`, which `Utils` covers.
- **Paste.** The browser's default insertion is abstracted as `before + OneLine(pasted) + after`, where `before` and `after` are the text outside the selection. `OneLine` is what a one-line text box makes of a paste: trailing CR and LF are dropped and the other line breaks become spaces. Browsers differ in the details, for example in what they do with tabs or with breaks in the middle.
- **Storage.**
  - `sessionStorage` is a map from keys to items: a JSON text, the empty text or an unparsable text.
  - A JSON text is assumed to read back as the value it was written from.
  - Failures of reads, writes and removals are parameters. The `console.warn` calls are dropped.
- **Sale-price input.** Only the sale-price field of the draft form is modelled, because it is the only input the file renders.
- **Departures from the comments.**
  - The duration comment says 100 years, but the code bounds it at 1000. The model follows the code.
  - The zero-value focus seed is "" (`value || ""`), so focusing a field that holds 0 shows an empty box; a typed "0" is still accepted and kept.
  - The sale-price input's own format keeps up to three decimals, because that is toLocaleString's default; `utils.ts` keeps two.
  - A small negative number is formatted as "-0", because the sign is kept after rounding.

## Findings

| source | as written | input that shows it | evidently intended | confidence | as-written member | corrected member |
|---|---|---|---|---|---|---|
| src/components/home/main-form.tsx:98-103 | The sale-price input's value is always `formatNumber(state)`, and each keystroke stores `parseNumber(text)`. A text ending in a point parses to the whole number, whose format has no point. | Type "1" then "." and the field shows "1". A point typed at the end is dropped, so a decimal cannot be typed left to right. A point inserted between digits already typed ("15" to "1.5") is kept. | While focused, the input shows the text being typed, as the currency input does with its buffer. | medium, not executed | MainForm.PointSwallowed | MainForm.TypedPointKept |
