/** The JavaScript number conversions the calculator leans on — `parseFloat`,
    `Number`, `Number.prototype.toLocaleString("en-US", …)` and `String` —
    over exact rationals. Signs, white space and plain decimal literals are
    modelled; exponents, hexadecimal/binary/octal literals, "Infinity" and
    binary floating-point rounding are not. NaN is `None`. */
module JsNumber {
  import opened Options
  import opened NumberText

  /** ECMAScript StrWhiteSpaceChar: white space and line terminators. */
  predicate IsJsSpace(c: char) {
    var n := c as int;
    || n == 0x09 || n == 0x0A || n == 0x0B || n == 0x0C || n == 0x0D
    || n == 0x20 || n == 0xA0 || n == 0x1680 || 0x2000 <= n <= 0x200A
    || n == 0x2028 || n == 0x2029 || n == 0x202F || n == 0x205F
    || n == 0x3000 || n == 0xFEFF
  }

  predicate IsSign(c: char) {
    c == '+' || c == '-'
  }

  /** `s` without its leading white space. */
  function TrimStart(s: string): (r: string)
    ensures |r| <= |s| && r == s[|s| - |r|..]
    ensures |r| > 0 ==> !IsJsSpace(r[0])
    ensures (|s| == 0 || !IsJsSpace(s[0])) ==> r == s
  {
    if |s| > 0 && IsJsSpace(s[0]) then TrimStart(s[1..]) else s
  }

  /** `s` without its trailing white space. */
  function TrimEnd(s: string): (r: string)
    ensures |r| <= |s| && r == s[..|r|]
    ensures |r| > 0 ==> !IsJsSpace(r[|r| - 1])
    ensures (|s| == 0 || !IsJsSpace(s[|s| - 1])) ==> r == s
  {
    if |s| > 0 && IsJsSpace(s[|s| - 1]) then TrimEnd(s[..|s| - 1]) else s
  }

  function Trim(s: string): string {
    TrimEnd(TrimStart(s))
  }

  /** The length of the longest all-digit prefix of `s`. */
  function DigitRun(s: string): (n: nat)
    ensures n <= |s| && AllDigits(s[..n])
    ensures n < |s| ==> !IsDigit(s[n])
  {
    if |s| == 0 || !IsDigit(s[0]) then 0
    else
      var n := 1 + DigitRun(s[1..]);
      assert forall k :: 1 <= k < n ==> s[..n][k] == s[1..][..n - 1][k - 1];
      n
  }

  /** An all-digit prefix that stops at a non-digit (or at the end) is the longest one. */
  lemma {:induction false} DigitRunUnique(s: string, n: nat)
    requires n <= |s| && AllDigits(s[..n])
    requires n < |s| ==> !IsDigit(s[n])
    ensures DigitRun(s) == n
  {
    if n > 0 {
      assert s[..n][0] == s[0];
      var t := s[1..][..n - 1];
      forall k | 0 <= k < |t|
        ensures IsDigit(t[k])
      {
        assert t[k] == s[..n][k + 1];
      }
      DigitRunUnique(s[1..], n - 1);
    }
  }

  /** A decimal literal found at the start of a text: its value and how many
      characters it spans. */
  datatype Scan = Scan(value: real, length: nat)

  /** The longest prefix of `s` of the form \d+(\.\d*)? or \.\d+ (the unsigned
      StrDecimalLiteral without exponent), or None when there is none. */
  function ScanUnsigned(s: string): (r: Option<Scan>)
    ensures r.Some? ==> 0 < r.value.length <= |s| && r.value.value >= 0.0
  {
    var i := DigitRun(s);
    if i < |s| && s[i] == '.' then
      var j := DigitRun(s[i + 1..]);
      if i + j == 0 then None
      else Some(Scan(DecimalValue(s[..i], s[i + 1..][..j]), i + 1 + j))
    else if i == 0 then None
    else Some(Scan(DigitsValue(s[..i]) as real, i))
  }

  /** The value of the digits `w`, a point, and the digits `f`. */
  function DecimalValue(w: string, f: string): (v: real)
    requires AllDigits(w) && AllDigits(f)
    ensures v >= 0.0
  {
    DigitsValue(w) as real + DigitsValue(f) as real / Pow10(|f|) as real
  }

  /** A literal with an optional leading sign. */
  function ScanSigned(s: string): (r: Option<Scan>)
    ensures r.Some? ==> 0 < r.value.length <= |s|
  {
    if |s| > 0 && IsSign(s[0]) then
      match ScanUnsigned(s[1..])
      case None => None
      case Some(sc) => Some(Scan(if s[0] == '-' then -sc.value else sc.value, sc.length + 1))
    else ScanUnsigned(s)
  }

  /** parseFloat: leading white space is skipped and the longest literal
      prefix is read; None stands for NaN. */
  function ParseFloat(s: string): Option<real> {
    match ScanSigned(TrimStart(s))
    case None => None
    case Some(sc) => Some(sc.value)
  }

  /** Number(s): the text with surrounding white space removed must be one
      whole literal, and the blank text is 0; None stands for NaN. */
  function NumberOf(s: string): Option<real> {
    var t := Trim(s);
    if |t| == 0 then Some(0.0)
    else match ScanSigned(t)
      case None => None
      case Some(sc) => if sc.length == |t| then Some(sc.value) else None
  }

  /** A literal of integer digits alone, followed by anything that neither
      continues it nor starts a fraction, is read as exactly those digits. */
  lemma ScanWhole(w: string, rest: string)
    requires |w| > 0 && AllDigits(w)
    requires |rest| > 0 ==> !IsDigit(rest[0]) && rest[0] != '.'
    ensures ScanUnsigned(w + rest) == Some(Scan(DigitsValue(w) as real, |w|))
  {
    var s := w + rest;
    assert s[..|w|] == w;
    DigitRunUnique(s, |w|);
  }

  /** A literal with a point, followed by anything that does not continue
      it, is read as digits, point and fraction digits. */
  lemma ScanFraction(w: string, f: string, rest: string)
    requires AllDigits(w) && AllDigits(f) && |w| + |f| > 0
    requires |rest| > 0 ==> !IsDigit(rest[0])
    ensures ScanUnsigned(w + "." + f + rest) == Some(Scan(DecimalValue(w, f), |w| + 1 + |f|))
  {
    var s := w + "." + f + rest;
    assert s[..|w|] == w;
    assert s[|w|] == '.';
    DigitRunUnique(s, |w|);
    var s' := s[|w| + 1..];
    assert s' == f + rest;
    assert s'[..|f|] == f;
    DigitRunUnique(s', |f|);
  }

  /** A literal ends with a digit or with its point. */
  lemma UnsignedEnd(s: string)
    requires ScanUnsigned(s).Some?
    ensures var n := ScanUnsigned(s).value.length; IsDigit(s[n - 1]) || s[n - 1] == '.'
  {
    var i := DigitRun(s);
    if i < |s| && s[i] == '.' {
      var j := DigitRun(s[i + 1..]);
      if j > 0 {
        assert s[i + j] == s[i + 1..][..j][j - 1];
      }
    } else {
      assert s[i - 1] == s[..i][i - 1];
    }
  }

  lemma SignedEnd(s: string)
    requires ScanSigned(s).Some?
    ensures var n := ScanSigned(s).value.length; IsDigit(s[n - 1]) || s[n - 1] == '.'
  {
    if |s| > 0 && IsSign(s[0]) {
      UnsignedEnd(s[1..]);
      var n := ScanSigned(s).value.length;
      assert s[n - 1] == s[1..][n - 2];
    } else {
      UnsignedEnd(s);
    }
  }

  /** Every character of a literal is a digit, except the one right after
      its leading digits, where the point may sit. */
  lemma UnsignedPoint(s: string)
    requires ScanUnsigned(s).Some?
    ensures forall k :: 0 <= k < ScanUnsigned(s).value.length && k != DigitRun(s) ==> IsDigit(s[k])
  {
    var i := DigitRun(s);
    var n := ScanUnsigned(s).value.length;
    if i < |s| && s[i] == '.' {
      var j := DigitRun(s[i + 1..]);
      forall k | 0 <= k < n && k != i
        ensures IsDigit(s[k])
      {
        if k < i {
          assert s[k] == s[..i][k];
        } else {
          assert s[k] == s[i + 1..][..j][k - i - 1];
        }
      }
    } else {
      forall k | 0 <= k < n && k != i
        ensures IsDigit(s[k])
      {
        assert s[k] == s[..i][k];
      }
    }
  }

  /** A literal holds at most one point. */
  lemma SignedOnePoint(s: string)
    requires ScanSigned(s).Some?
    ensures forall k, m :: 0 <= k < m < ScanSigned(s).value.length ==> s[k] != '.' || s[m] != '.'
  {
    var n := ScanSigned(s).value.length;
    if |s| > 0 && IsSign(s[0]) {
      var t := s[1..];
      UnsignedPoint(t);
      var p := 1 + DigitRun(t);
      forall k, m | 0 <= k < m < n
        ensures s[k] != '.' || s[m] != '.'
      {
        if m != p {
          assert s[m] == t[m - 1];
        } else if k > 0 {
          assert s[k] == t[k - 1];
        }
      }
    } else {
      UnsignedPoint(s);
      var p := DigitRun(s);
      forall k, m | 0 <= k < m < n
        ensures s[k] != '.' || s[m] != '.'
      {
        if m != p {
          assert IsDigit(s[m]);
        } else {
          assert IsDigit(s[k]);
        }
      }
    }
  }

  /** Leading white space is all that TrimStart drops; a text ending in
      anything else keeps that last character. */
  lemma {:induction false} TrimStartDrops(s: string)
    ensures forall k :: 0 <= k < |s| - |TrimStart(s)| ==> IsJsSpace(s[k])
    ensures |s| > 0 && !IsJsSpace(s[|s| - 1]) ==>
      |TrimStart(s)| > 0 && TrimStart(s)[|TrimStart(s)| - 1] == s[|s| - 1]
  {
    if |s| > 0 && IsJsSpace(s[0]) {
      TrimStartDrops(s[1..]);
      forall k | 1 <= k < |s| - |TrimStart(s)|
        ensures IsJsSpace(s[k])
      {
        assert s[k] == s[1..][k - 1];
      }
      if !IsJsSpace(s[|s| - 1]) {
        assert s[1..][|s[1..]| - 1] == s[|s| - 1];
      }
    }
  }

  /** Trailing white space is all that TrimEnd drops. */
  lemma {:induction false} TrimEndDrops(s: string)
    ensures forall k :: |TrimEnd(s)| <= k < |s| ==> IsJsSpace(s[k])
  {
    if |s| > 0 && IsJsSpace(s[|s| - 1]) {
      TrimEndDrops(s[..|s| - 1]);
      forall k | |TrimEnd(s)| <= k < |s| - 1
        ensures IsJsSpace(s[k])
      {
        assert s[k] == s[..|s| - 1][k];
      }
    }
  }

  /** Number gives NaN for a text that ends in a character no literal ends
      with and that is not white space. */
  lemma NumberRejectsStrayEnd(s: string)
    requires |s| > 0 && !IsDigit(s[|s| - 1]) && s[|s| - 1] != '.' && !IsJsSpace(s[|s| - 1])
    ensures NumberOf(s) == None
  {
    TrimKeepsStrayEnd(s);
    NotWholeLiteral(Trim(s));
  }

  /** Trimming keeps a last character that is not white space. */
  lemma TrimKeepsStrayEnd(s: string)
    requires |s| > 0 && !IsJsSpace(s[|s| - 1])
    ensures |Trim(s)| > 0 && Trim(s)[|Trim(s)| - 1] == s[|s| - 1]
  {
    TrimStartDrops(s);
    var t0 := TrimStart(s);
    assert |t0| > 0 && !IsJsSpace(t0[|t0| - 1]);
    assert Trim(s) == TrimEnd(t0) == t0;
  }

  /** No literal spans a text that ends in a character no literal ends with. */
  lemma NotWholeLiteral(t: string)
    requires |t| > 0 && !IsDigit(t[|t| - 1]) && t[|t| - 1] != '.'
    ensures ScanSigned(t).None? || ScanSigned(t).value.length < |t|
  {
    if ScanSigned(t).Some? {
      SignedEnd(t);
    }
  }

  /** Number gives NaN for a text with two points. */
  lemma NumberRejectsTwoPoints(s: string, p: nat, q: nat)
    requires p < q < |s| && s[p] == '.' && s[q] == '.'
    ensures NumberOf(s) == None
  {
    TrimStartDrops(s);
    var a := |s| - |TrimStart(s)|;
    var t0 := TrimStart(s);
    TrimEndDrops(t0);
    var t := Trim(s);
    assert !IsJsSpace(s[p]) && !IsJsSpace(s[q]);
    assert a <= p;
    assert t0[p - a] == s[p] && t0[q - a] == s[q];
    assert q - a < |t|;
    assert t[p - a] == '.' && t[q - a] == '.';
    if ScanSigned(t).Some? {
      SignedOnePoint(t);
    }
  }

  /** No literal starts unless the text starts with a digit or with a point
      and a digit. */
  lemma ScanNone(s: string)
    ensures ScanUnsigned(s) == None <==>
      (|s| == 0 || (!IsDigit(s[0]) && (s[0] != '.' || |s| == 1 || !IsDigit(s[1]))))
  {
    if |s| > 0 && !IsDigit(s[0]) {
      DigitRunUnique(s, 0);
      if s[0] == '.' && |s| > 1 {
        if IsDigit(s[1]) {
          assert s[1..][..1] == [s[1]];
          assert DigitRun(s[1..]) > 0;
        } else {
          DigitRunUnique(s[1..], 0);
        }
      } else if s[0] == '.' {
        DigitRunUnique(s[1..], 0);
      }
    } else if |s| > 0 {
      assert s[..1] == [s[0]];
      assert DigitRun(s) > 0;
    }
  }

  function Abs(v: real): (a: real)
    ensures a >= 0.0 && (a == v || a == -v)
  {
    if v < 0.0 then -v else v
  }

  /** `v` is a whole number of 10^-places units. */
  predicate IsScaled(v: real, places: nat) {
    IsWhole(Scale(v, places))
  }

  /** `v` measured in units of 10^-places. */
  function Scale(v: real, places: nat): real {
    v * Pow10(places) as real
  }

  predicate IsWhole(x: real) {
    x.Floor as real == x
  }

  /** `m` in units of 10^-places, rounded half away from zero (ICU's default,
      which is what toLocaleString uses). */
  function RoundHalfExpand(m: real, places: nat): (u: nat)
    requires m >= 0.0
    ensures Scale(m, places) - 0.5 < u as real <= Scale(m, places) + 0.5
    ensures IsScaled(m, places) ==> u as real == Scale(m, places)
  {
    var x := m * Pow10(places) as real;
    assert x >= 0.0 by {
      assert Pow10(places) as real >= 1.0;
    }
    FloorHalf(x);
    assert IsScaled(m, places) ==> IsWhole(x);
    (x + 0.5).Floor
  }

  /** Adding one half and taking the floor rounds to the nearest whole
      number, ties upwards, and leaves whole numbers alone. */
  lemma FloorHalf(x: real)
    ensures x - 0.5 < (x + 0.5).Floor as real <= x + 0.5
    ensures IsWhole(x) ==> (x + 0.5).Floor as real == x
  {
    var k := (x + 0.5).Floor;
    assert k as real <= x + 0.5 < k as real + 1.0;
    if IsWhole(x) {
      var d := k - x.Floor;
      assert d as real <= 0.5 && d as real > -0.5;
      assert d == 0;
    }
  }

  /** The text of u / 10^places: the digits of the whole part, then, only
      if the fraction is not zero, a point and the fraction digits without
      trailing zeros. */
  function PlainText(u: nat, places: nat): string {
    DivMod(u, Pow10(places));
    Digits(u / Pow10(places)) + PointFraction(FractionDigits(u % Pow10(places), places))
  }

  /** PlainText with the whole part grouped en-US style. */
  function GroupedText(u: nat, places: nat): string {
    DivMod(u, Pow10(places));
    Group(Digits(u / Pow10(places))) + PointFraction(FractionDigits(u % Pow10(places), places))
  }

  /** The fraction digits behind a point, or nothing when there are none. */
  function PointFraction(f: string): (t: string)
    requires AllDigits(f)
    ensures NoCommas(t)
  {
    if |f| == 0 then "" else
      assert forall k :: 0 < k < |f| + 1 ==> ("." + f)[k] == f[k - 1];
      "." + f
  }

  lemma DivMod(u: nat, p: nat)
    requires p > 0
    ensures u / p >= 0 && u % p < p && u == (u / p) * p + u % p
  {
  }

  /** `n` written as exactly `places` digits, then trailing zeros dropped. */
  function FractionDigits(n: nat, places: nat): (f: string)
    requires n < Pow10(places)
    ensures AllDigits(f) && |f| <= places
    ensures |f| == 0 || f[|f| - 1] != '0'
  {
    FractionDigitsShape(n, places);
    TrimTrailingZeros(PadLeft(Digits(n), places))
  }

  lemma FractionDigitsShape(n: nat, places: nat)
    requires n < Pow10(places)
    ensures var f := TrimTrailingZeros(PadLeft(Digits(n), places));
      AllDigits(f) && |f| <= places
  {
    var padded := PadLeft(Digits(n), places);
    FractionTrim(padded);
    if places > 0 {
      DigitsLength(n, places);
    } else {
      assert TrimTrailingZeros(padded) == TrimTrailingZeros("0");
    }
  }

  /** The minus sign of a negative number; rounding does not remove it, so
      a small negative number can come out as "-0". */
  function SignText(v: real): string {
    if v < 0.0 then "-" else ""
  }

  /** `v.toLocaleString("en-US", { maximumFractionDigits })` with the minimum
      fraction digits at 0: sign, grouped whole part, trimmed fraction. */
  function ToLocaleString(v: real, maximumFractionDigits: nat): string {
    SignText(v) + GroupedText(RoundHalfExpand(Abs(v), maximumFractionDigits), maximumFractionDigits)
  }

  /** The same rendering without grouping. */
  function PlainString(v: real, places: nat): string {
    SignText(v) + PlainText(RoundHalfExpand(Abs(v), places), places)
  }

  /** `String(v)` for a number with at most two decimals: plain digits, no grouping. */
  function NumberToString(v: real): string {
    PlainString(v, 2)
  }

  /** `t` begins and ends with a digit and is, in its entirety, one unsigned
      literal worth `v`. */
  predicate UnsignedLiteral(t: string, v: real) {
    && |t| > 0 && IsDigit(t[0]) && IsDigit(t[|t| - 1])
    && ScanUnsigned(t) == Some(Scan(v, |t|))
  }

  /** `t` has no white space at either end and is, in its entirety, one
      literal (sign included) worth `v`. */
  predicate SignedLiteral(t: string, v: real) {
    && |t| > 0 && !IsJsSpace(t[0]) && !IsJsSpace(t[|t| - 1])
    && ScanSigned(t) == Some(Scan(v, |t|))
  }
}
