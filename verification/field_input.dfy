/** The three numeric input components — src/components/currencyInput.tsx,
    percentageInput.tsx and durationInput.tsx — as one state machine with a
    per-kind commit bound. A field holds the committed number and, while it
    has focus, the raw text being typed. */
module FieldInput {
  import opened Options
  import opened NumberText
  import opened JsNumber
  import opened DecimalGrammar
  import opened Utils

  datatype FieldKind = Currency | Percentage | Duration

  /** The bound a parsed value must meet before a change is committed:
      none for an amount of money, at most 100 for a percentage, 0 to 1000
      for a number of years. */
  predicate WithinBound(kind: FieldKind, v: real) {
    match kind
    case Currency => true
    case Percentage => v <= 100.0
    case Duration => 0.0 <= v <= 1000.0
  }

  /** `buffer` is the raw text while the field has focus and None otherwise;
      `value` is the number committed to the form. */
  datatype Field = Field(buffer: Option<string>, value: real)

  /** Paste carries the text around the caret, which the browser's default
      insertion puts on either side of the pasted text. */
  datatype Event =
    | Focus
    | Blur
    | Change(text: string)
    | Paste(before: string, pasted: string, after: string)

  /** A typed text is taken when it passes the keystroke filter and its value
      meets the field's bound. */
  predicate Commits(kind: FieldKind, text: string) {
    ValidateDecimalInput(text) && WithinBound(kind, ParseNumber(text))
  }

  function OnChange(kind: FieldKind, f: Field, text: string): Field {
    if Commits(kind, text) then Field(Some(text), ParseNumber(text)) else f
  }

  /** String(value || ""): a zero value seeds the empty text. */
  function FocusText(v: real): string {
    if v == 0.0 then "" else NumberToString(v)
  }

  function OnFocus(f: Field): Field {
    Field(Some(FocusText(f.value)), f.value)
  }

  function OnBlur(f: Field): Field {
    Field(None, f.value)
  }

  predicate IsLineBreak(c: char) {
    c == '\n' || c == '\r'
  }

  /** `p` without the line breaks at its end. */
  function DropTrailingBreaks(p: string): (r: string)
    ensures |r| <= |p| && r == p[..|r|]
    ensures |r| == 0 || !IsLineBreak(r[|r| - 1])
  {
    if |p| > 0 && IsLineBreak(p[|p| - 1]) then DropTrailingBreaks(p[..|p| - 1]) else p
  }

  /** `p` with every line break turned into a space. */
  function BreaksToSpaces(p: string): (r: string)
    ensures |r| == |p|
    ensures forall k :: 0 <= k < |p| ==> r[k] == if IsLineBreak(p[k]) then ' ' else p[k]
  {
    if |p| == 0 then [] else BreaksToSpaces(p[..|p| - 1]) + [if IsLineBreak(p[|p| - 1]) then ' ' else p[|p| - 1]]
  }

  /** What a one-line text box inserts for a pasted text: the line breaks at
      the end are dropped and every other one becomes a space. */
  function OneLine(p: string): (r: string)
    ensures NoBreaks(r) && |r| <= |p|
  {
    BreaksToSpaces(DropTrailingBreaks(p))
  }

  /** The currency field takes a pasted text that passes the filter as the
      whole new buffer and suppresses the default paste; otherwise (and in the
      other two fields always) the browser inserts the text, made one line,
      at the caret and the result arrives as a change. */
  function OnPaste(kind: FieldKind, f: Field, before: string, pasted: string, after: string): Field {
    if kind == Currency && ValidateDecimalInput(pasted) then Field(Some(pasted), ParseNumber(pasted))
    else OnChange(kind, f, before + OneLine(pasted) + after)
  }

  function Step(kind: FieldKind, f: Field, e: Event): Field {
    match e
    case Focus => OnFocus(f)
    case Blur => OnBlur(f)
    case Change(text) => OnChange(kind, f, text)
    case Paste(before, pasted, after) => OnPaste(kind, f, before, pasted, after)
  }

  /** The text in the input box: the buffer while focused, the formatted
      value otherwise. */
  function Display(f: Field): string {
    match f.buffer
    case Some(b) => b
    case None => FormatNumber(f.value)
  }

  /** A field starts unfocused at the form's default value 0. */
  const Initial: Field := Field(None, 0.0)

  /** The field after a sequence of events. */
  function Run(kind: FieldKind, events: seq<Event>): Field {
    if |events| == 0 then Initial
    else Step(kind, Run(kind, events[..|events| - 1]), events[|events| - 1])
  }

  /** What holds in every state a field can reach: the value is a
      non-negative whole number of hundredths within the field's bound, and a
      buffer is a text the filter accepts and that parses to the value. */
  predicate Valid(kind: FieldKind, f: Field) {
    && f.value >= 0.0 && IsScaled(f.value, 2) && WithinBound(kind, f.value)
    && (f.buffer.Some? ==> ValidateDecimalInput(f.buffer.value) && ParseNumber(f.buffer.value) == f.value)
  }

  lemma InitialValid(kind: FieldKind)
    ensures Valid(kind, Initial)
  {
    HundredthsScaled(0);
  }

  /** A committed text leaves a valid state. */
  lemma CommitValid(kind: FieldKind, text: string)
    requires Commits(kind, text)
    ensures Valid(kind, Field(Some(text), ParseNumber(text)))
  {
    ParseAcceptedBounds(text);
  }

  /** The focus seed is accepted and parses back to the value. */
  lemma FocusValid(kind: FieldKind, f: Field)
    requires Valid(kind, f)
    ensures Valid(kind, OnFocus(f))
  {
    if f.value == 0.0 {
      assert ValidateDecimalInput("");
    } else {
      NumberToStringAccepted(f.value);
    }
  }

  /** Focus seeds the empty text exactly when the value is 0; any other
      value is seeded with its String text. */
  lemma FocusSeed(f: Field)
    ensures OnFocus(f).buffer == Some("") <==> f.value == 0.0
    ensures f.value != 0.0 ==> OnFocus(f).buffer == Some(NumberToString(f.value))
    ensures OnFocus(f).value == f.value
  {
    NumberToStringNonEmpty(f.value);
  }

  /** Every event keeps the field valid. */
  lemma StepValid(kind: FieldKind, f: Field, e: Event)
    requires Valid(kind, f)
    ensures Valid(kind, Step(kind, f, e))
  {
    match e
    case Focus => FocusValid(kind, f);
    case Blur =>
    case Change(text) =>
      if Commits(kind, text) {
        CommitValid(kind, text);
      }
    case Paste(before, pasted, after) =>
      if kind == Currency && ValidateDecimalInput(pasted) {
        CommitValid(kind, pasted);
      } else if Commits(kind, before + OneLine(pasted) + after) {
        CommitValid(kind, before + OneLine(pasted) + after);
      }
  }

  /** Every state reached from the initial one is valid. */
  lemma {:induction false} RunValid(kind: FieldKind, events: seq<Event>)
    ensures Valid(kind, Run(kind, events))
  {
    if |events| == 0 {
      InitialValid(kind);
    } else {
      RunValid(kind, events[..|events| - 1]);
      StepValid(kind, Run(kind, events[..|events| - 1]), events[|events| - 1]);
    }
  }

  /** Committed values never leave the field's range: a percentage lies in
      0..100, a duration in 0..1000, an amount is non-negative, and all are
      whole hundredths. */
  lemma RunBounds(kind: FieldKind, events: seq<Event>)
    ensures Run(kind, events).value >= 0.0 && IsScaled(Run(kind, events).value, 2)
    ensures kind == Percentage ==> Run(kind, events).value <= 100.0
    ensures kind == Duration ==> Run(kind, events).value <= 1000.0
  {
    RunValid(kind, events);
  }

  /** A change takes the typed text as buffer exactly when it commits (or the
      buffer already held that text); when it commits, the value becomes the
      text's decimal worth, and when it does not, nothing changes. */
  lemma ChangeCommits(kind: FieldKind, f: Field, text: string)
    ensures OnChange(kind, f, text).buffer == Some(text) <==> Commits(kind, text) || f.buffer == Some(text)
    ensures Commits(kind, text) ==> OnChange(kind, f, text).value == AcceptedValue(text)
    ensures !Commits(kind, text) ==> OnChange(kind, f, text) == f
  {
    if Commits(kind, text) {
      ParseAccepted(text);
    }
  }

  /** The filter rules out a sign, so the duration field's `parsed >= 0`
      test never fails: a duration commits exactly when the text passes the
      filter and is worth at most 1000. */
  lemma DurationLowerBoundRedundant(text: string)
    ensures Commits(Duration, text) <==> ValidateDecimalInput(text) && ParseNumber(text) <= 1000.0
  {
    if ValidateDecimalInput(text) {
      ParseAcceptedBounds(text);
    }
  }

  /** The text a valid field shows passes the filter and is worth the
      committed value, focused or not. */
  lemma DisplayParses(kind: FieldKind, f: Field)
    requires Valid(kind, f)
    ensures ValidateDecimalInput(Display(f)) && ParseNumber(Display(f)) == f.value
  {
    if f.buffer.None? {
      FormatValidates(f.value);
      FormatParses(f.value);
    }
  }

  /** Focusing and leaving again without typing restores the unfocused
      field, and the seeded text is worth the value the formatted text
      showed. */
  lemma FocusBlurRoundTrip(kind: FieldKind, f: Field)
    requires Valid(kind, f) && f.buffer.None?
    ensures OnBlur(OnFocus(f)) == f
    ensures ParseNumber(Display(OnFocus(f))) == ParseNumber(Display(f))
  {
    FocusValid(kind, f);
    DisplayParses(kind, f);
  }

  /** A pasted text whose one-line form the filter rejects never changes
      the currency field: the default insertion contains that form and is
      rejected too. */
  lemma InvalidPasteIgnored(f: Field, before: string, pasted: string, after: string)
    requires !ValidateDecimalInput(OneLine(pasted))
    ensures OnPaste(Currency, f, before, pasted, after) == f
  {
    if ValidateDecimalInput(pasted) {
      AcceptedOneLine(pasted);
    }
    if ValidateDecimalInput(before + OneLine(pasted) + after) {
      ValidateInfix(before, OneLine(pasted), after);
    }
  }

  /** An accepted text holds no line break, so a one-line box inserts it as
      it is. */
  lemma AcceptedOneLine(p: string)
    requires ValidateDecimalInput(p)
    ensures NoBreaks(p) && OneLine(p) == p
  {
    AcceptedNoBreaks(p);
    NoBreaksOneLine(p);
  }

  predicate NoBreaks(p: string) {
    forall k :: 0 <= k < |p| ==> !IsLineBreak(p[k])
  }

  lemma AcceptedNoBreaks(p: string)
    requires ValidateDecimalInput(p)
    ensures NoBreaks(p)
  {
    forall k | 0 <= k < |p|
      ensures !IsLineBreak(p[k])
    {
      assert p == p[..k] + [p[k]] + p[k + 1..];
      ValidateInfix(p[..k], [p[k]], p[k + 1..]);
      BreakRejected(p[k]);
    }
  }

  lemma BreakRejected(c: char)
    requires ValidateDecimalInput([c])
    ensures !IsLineBreak(c)
  {
    assert !ValidateDecimalInput("\n") && !ValidateDecimalInput("\r");
  }

  lemma NoBreaksOneLine(p: string)
    requires NoBreaks(p)
    ensures OneLine(p) == p
  {
    if |p| > 0 {
      assert !IsLineBreak(p[|p| - 1]);
    }
    assert DropTrailingBreaks(p) == p;
  }

  /** A cell copied from a spreadsheet, an accepted text followed by line
      breaks, is rejected as pasted, but the box drops the breaks and the
      insertion commits like any typed text. */
  lemma TrailingBreakPaste(f: Field, before: string, p: string, breaks: string, after: string)
    requires ValidateDecimalInput(p) && |breaks| > 0
    requires forall k :: 0 <= k < |breaks| ==> IsLineBreak(breaks[k])
    ensures !ValidateDecimalInput(p + breaks)
    ensures OneLine(p + breaks) == p
    ensures OnPaste(Currency, f, before, p + breaks, after) == OnChange(Currency, f, before + p + after)
  {
    AcceptedOneLine(p);
    var q := p + breaks;
    assert IsLineBreak(q[|q| - 1]);
    if ValidateDecimalInput(q) {
      AcceptedNoBreaks(q);
    }
    DropBreaks(p, breaks);
  }

  lemma {:induction false} DropBreaks(p: string, breaks: string)
    requires |p| == 0 || !IsLineBreak(p[|p| - 1])
    requires forall k :: 0 <= k < |breaks| ==> IsLineBreak(breaks[k])
    ensures DropTrailingBreaks(p + breaks) == p
  {
    if |breaks| == 0 {
      assert p + breaks == p;
    } else {
      var q := p + breaks;
      assert q[|q| - 1] == breaks[|breaks| - 1];
      assert q[..|q| - 1] == p + breaks[..|breaks| - 1];
      DropBreaks(p, breaks[..|breaks| - 1]);
    }
  }

  /** "1,200.50" with a line break, as copied from a spreadsheet, commits
      1200.5. */
  lemma SpreadsheetPasteExample()
    ensures OnPaste(Currency, Initial, "", "1,200.50\n", "") == Field(Some("1,200.50"), 1200.5)
  {
    AcceptsGrouped();
    assert "1,200.50\n" == "1,200.50" + "\n";
    TrailingBreakPaste(Initial, "", "1,200.50", "\n", "");
    assert "" + "1,200.50" + "" == "1,200.50";
    ParseExamples();
  }

  /** A pasted text the filter accepts replaces the whole currency buffer,
      whatever was around the caret, and commits its decimal worth. */
  lemma ValidPasteReplaces(f: Field, before: string, pasted: string, after: string)
    requires ValidateDecimalInput(pasted)
    ensures OnPaste(Currency, f, before, pasted, after) == Field(Some(pasted), AcceptedValue(pasted))
  {
    ParseAccepted(pasted);
  }
}
