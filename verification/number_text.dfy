/** Decimal digit strings: the character classes, digit values, powers of ten
    and the comma/zero manipulations that every number-to-text and
    text-to-number conversion of the calculator is built from. */
module NumberText {

  predicate IsDigit(c: char) {
    '0' <= c <= '9'
  }

  function DigitOf(c: char): (d: nat)
    requires IsDigit(c)
    ensures d < 10
  {
    (c as int - '0' as int) as nat
  }

  function DigitChar(d: nat): (c: char)
    requires d < 10
    ensures IsDigit(c) && DigitOf(c) == d
  {
    ('0' as int + d) as char
  }

  predicate AllDigits(s: string) {
    forall k :: 0 <= k < |s| ==> IsDigit(s[k])
  }

  /** No character of `s` is a thousands separator. */
  predicate NoCommas(s: string) {
    forall k :: 0 <= k < |s| ==> s[k] != ','
  }

  function Pow10(n: nat): (r: nat)
    ensures r >= 1
  {
    if n == 0 then 1 else 10 * Pow10(n - 1)
  }

  /** The natural number a digit string denotes (most significant digit first). */
  function DigitsValue(s: string): nat
    requires AllDigits(s)
  {
    if |s| == 0 then 0 else 10 * DigitsValue(s[..|s| - 1]) + DigitOf(s[|s| - 1])
  }

  lemma {:induction false} DigitsValueAppend(a: string, b: string)
    requires AllDigits(a) && AllDigits(b)
    ensures AllDigits(a + b)
    ensures DigitsValue(a + b) == DigitsValue(a) * Pow10(|b|) + DigitsValue(b)
  {
    if |b| > 0 {
      var b' := b[..|b| - 1];
      assert (a + b)[..|a + b| - 1] == a + b';
      DigitsValueAppend(a, b');
      var x, p', y', d := DigitsValue(a), Pow10(|b'|), DigitsValue(b'), DigitOf(b[|b| - 1]);
      assert DigitsValue(a + b) == 10 * DigitsValue(a + b') + d;
      assert DigitsValue(b) == 10 * y' + d;
      assert Pow10(|b|) == 10 * p';
      MulTen(x, p');
    } else {
      assert a + b == a;
    }
  }

  lemma MulTen(x: nat, p: nat)
    ensures x * (10 * p) == 10 * (x * p)
  {
  }

  /** The shortest decimal spelling of `n`: no leading zero except for 0 itself. */
  function Digits(n: nat): (s: string)
    ensures AllDigits(s) && |s| >= 1
    ensures |s| > 1 ==> s[0] != '0'
  {
    if n < 10 then [DigitChar(n)] else Digits(n / 10) + [DigitChar(n % 10)]
  }

  /** The spelling of `n` reads back as `n`. */
  lemma {:induction false} DigitsDenote(n: nat)
    ensures DigitsValue(Digits(n)) == n
  {
    if n >= 10 {
      var s := Digits(n);
      assert s[..|s| - 1] == Digits(n / 10);
      DigitsDenote(n / 10);
    }
  }

  lemma {:induction false} DigitsLength(n: nat, p: nat)
    requires 1 <= p && n < Pow10(p)
    ensures |Digits(n)| <= p
  {
    if n >= 10 {
      DigitsLength(n / 10, p - 1);
    }
  }

  function Zeros(n: nat): (s: string)
    ensures |s| == n && forall k :: 0 <= k < n ==> s[k] == '0'
  {
    if n == 0 then [] else Zeros(n - 1) + ['0']
  }

  lemma {:induction false} ZerosValue(n: nat)
    ensures AllDigits(Zeros(n)) && DigitsValue(Zeros(n)) == 0
  {
    if n > 0 {
      assert Zeros(n)[..n - 1] == Zeros(n - 1);
      ZerosValue(n - 1);
    }
  }

  /** `s` widened to `width` characters with leading zeros. */
  function PadLeft(s: string, width: nat): (r: string)
    ensures |r| == if |s| >= width then |s| else width
    ensures AllDigits(s) ==> AllDigits(r)
  {
    if |s| >= width then s else Zeros(width - |s|) + s
  }

  /** Leading zeros do not change the value. */
  lemma PadLeftValue(s: string, width: nat)
    requires AllDigits(s)
    ensures DigitsValue(PadLeft(s, width)) == DigitsValue(s)
  {
    if |s| < width {
      var z := Zeros(width - |s|);
      ZerosValue(width - |s|);
      DigitsValueAppend(z, s);
      assert DigitsValue(z) * Pow10(|s|) == 0;
    }
  }

  /** `s` without its trailing zero digits. */
  function TrimTrailingZeros(s: string): (r: string)
    ensures |r| <= |s|
    ensures |r| == 0 || r[|r| - 1] != '0'
  {
    if |s| > 0 && s[|s| - 1] == '0' then TrimTrailingZeros(s[..|s| - 1]) else s
  }

  /** What trimming dropped was zeros only. */
  lemma {:induction false} TrimTrailingZerosSplit(s: string)
    ensures s == TrimTrailingZeros(s) + Zeros(|s| - |TrimTrailingZeros(s)|)
  {
    if |s| > 0 && s[|s| - 1] == '0' {
      var s' := s[..|s| - 1];
      TrimTrailingZerosSplit(s');
      var r := TrimTrailingZeros(s');
      var z := Zeros(|s'| - |r|);
      assert s == s' + ['0'];
      assert Zeros(|s| - |r|) == z + ['0'];
      assert r + z + ['0'] == r + (z + ['0']);
    } else {
      assert s == s + Zeros(0);
    }
  }

  /** Dropping trailing zeros divides the value by the matching power of ten. */
  lemma FractionTrim(s: string)
    requires AllDigits(s)
    ensures AllDigits(TrimTrailingZeros(s))
    ensures DigitsValue(s) == DigitsValue(TrimTrailingZeros(s)) * Pow10(|s| - |TrimTrailingZeros(s)|)
  {
    TrimTrailingZerosSplit(s);
    var r := TrimTrailingZeros(s);
    assert forall k :: 0 <= k < |r| ==> r[k] == s[k];
    ZerosValue(|s| - |r|);
    DigitsValueAppend(r, Zeros(|s| - |r|));
  }

  lemma {:induction false} PowAdd(a: nat, b: nat)
    ensures Pow10(a + b) == Pow10(a) * Pow10(b)
  {
    if b > 0 {
      PowAdd(a, b - 1);
    }
  }

  /** The text with every thousands separator removed; other characters keep their order. */
  function StripCommas(s: string): (r: string)
    ensures NoCommas(r) && |r| <= |s|
    ensures NoCommas(s) ==> r == s
    ensures AllDigits(s) ==> r == s
  {
    if |s| == 0 then []
    else if s[0] == ',' then StripCommas(s[1..])
    else [s[0]] + StripCommas(s[1..])
  }

  lemma {:induction false} StripCommasAppend(a: string, b: string)
    ensures StripCommas(a + b) == StripCommas(a) + StripCommas(b)
  {
    if |a| > 0 {
      assert (a + b)[1..] == a[1..] + b;
      StripCommasAppend(a[1..], b);
    } else {
      assert a + b == b;
    }
  }

  /** Every character of a digits-and-commas text survives stripping as a digit. */
  lemma {:induction false} StripDigitsCommas(s: string)
    requires forall k :: 0 <= k < |s| ==> IsDigit(s[k]) || s[k] == ','
    ensures AllDigits(StripCommas(s))
  {
    if |s| > 0 {
      StripDigitsCommas(s[1..]);
    }
  }

  /** The shape en-US grouping gives a text: digits and commas only, with a
      comma exactly at the positions 4, 8, 12, ... counted from the right end. */
  predicate GroupedShape(r: string) {
    && (forall k :: 0 <= k < |r| ==> IsDigit(r[k]) || r[k] == ',')
    && (forall k :: 0 <= k < |r| ==> (r[k] == ',' <==> (|r| - k) % 4 == 0))
  }

  /** en-US grouping of an integer's digits: a comma before every block of
      three digits counted from the right, and nowhere else. */
  function Group(ds: string): (r: string)
    requires AllDigits(ds)
    ensures StripCommas(r) == ds
    ensures |ds| > 0 ==> |r| > 0 && r[0] == ds[0]
  {
    if |ds| <= 3 then ds
    else
      var n := |ds|;
      var head := Group(ds[..n - 3]);
      GroupStrip(ds[..n - 3], head, ds[n - 3..]);
      assert ds[..n - 3] + ds[n - 3..] == ds;
      head + ("," + ds[n - 3..])
  }

  /** One more block of three digits keeps the commas out of the stripped text. */
  lemma GroupStrip(pre: string, head: string, tail: string)
    requires AllDigits(tail) && StripCommas(head) == pre
    ensures StripCommas(head + ("," + tail)) == pre + tail
  {
    assert StripCommas("," + tail) == tail by {
      assert ("," + tail)[1..] == tail;
    }
    StripCommasAppend(head, "," + tail);
  }

  /** Grouping puts commas exactly every four places from the right. */
  lemma {:induction false} GroupShape(ds: string)
    requires AllDigits(ds)
    ensures GroupedShape(Group(ds))
  {
    if |ds| > 3 {
      var n := |ds|;
      GroupShape(ds[..n - 3]);
      GroupStep(Group(ds[..n - 3]), ds[n - 3..]);
    }
  }

  /** One more block of three digits keeps the grouped shape. */
  lemma GroupStep(head: string, tail: string)
    requires AllDigits(tail) && |tail| == 3 && GroupedShape(head)
    ensures GroupedShape(head + ("," + tail))
  {
    var r := head + ("," + tail);
    forall k | 0 <= k < |r|
      ensures IsDigit(r[k]) || r[k] == ','
      ensures r[k] == ',' <==> (|r| - k) % 4 == 0
    {
      if k < |head| {
        assert r[k] == head[k];
        assert (|r| - k) % 4 == (|head| - k) % 4;
      } else if k > |head| {
        assert r[k] == tail[k - |head| - 1];
        assert 1 <= |r| - k <= 3;
      }
    }
  }

  /** Grouping the shortest spelling of a number starts with a digit, and
      with 0 only for 0 itself. */
  lemma GroupLeads(ds: string)
    requires AllDigits(ds) && |ds| > 0 && (|ds| > 1 ==> ds[0] != '0')
    ensures |Group(ds)| > 0 && IsDigit(Group(ds)[0])
    ensures Group(ds)[0] == '0' ==> Group(ds) == "0"
  {
    if ds[0] == '0' {
      assert ds == "0";
    }
  }
}
