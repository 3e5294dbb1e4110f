/**
 * Times of day as the reservation route handles them: strings "HH:MM" that
 * `time.split(':').map(Number)` turns into minutes since midnight, and the
 * zero-padded "HH:MM" strings the slot generator writes back
 * (`String(n).padStart(2, '0')`).
 */
module TimeOfDay {
  import opened Wrappers

  predicate IsDigit(c: char) {
    '0' <= c <= '9'
  }

  predicate AllDigits(s: string) {
    forall i :: 0 <= i < |s| ==> IsDigit(s[i])
  }

  function DigitValue(c: char): (d: nat)
    requires IsDigit(c)
    ensures d < 10
  {
    (c as int) - ('0' as int)
  }

  function DigitChar(d: nat): (c: char)
    requires d < 10
    ensures IsDigit(c) && DigitValue(c) == d
  {
    (('0' as int) + d) as char
  }

  /** What `Number(s)` yields for a non-empty string of decimal digits. */
  function DigitsValue(s: string): nat
    requires AllDigits(s)
    decreases |s|
  {
    if s == [] then 0 else DigitsValue(s[..|s| - 1]) * 10 + DigitValue(s[|s| - 1])
  }

  /** Position of the first ':' in `s`, or `|s|` when there is none. */
  function ColonIndex(s: string): (i: nat)
    ensures i <= |s|
    ensures i < |s| ==> s[i] == ':'
    ensures forall j :: 0 <= j < i ==> s[j] != ':'
    decreases |s|
  {
    if s == [] then 0
    else if s[0] == ':' then 0
    else 1 + ColonIndex(s[1..])
  }

  /**
   * `const [h, m] = s.split(':').map(Number); h * 60 + m` for a time written
   * as digits, a colon and digits. Any other string gives `None`, standing
   * for the `NaN` the source computes (see README, "Left out").
   */
  function ParseTime(s: string): Option<nat> {
    var i := ColonIndex(s);
    if 0 < i < |s| - 1 && AllDigits(s[..i]) && AllDigits(s[i + 1..])
    then Some(DigitsValue(s[..i]) * 60 + DigitsValue(s[i + 1..]))
    else None
  }

  /** `String(n)`: the decimal digits of `n`, without leading zeros. */
  function Decimal(n: nat): (s: string)
    ensures 1 <= |s| && AllDigits(s)
    ensures n >= 10 ==> |s| >= 2
    ensures n < 10 ==> |s| == 1
    ensures n < 100 ==> |s| <= 2
    decreases n
  {
    if n < 10 then [DigitChar(n)] else Decimal(n / 10) + [DigitChar(n % 10)]
  }

  /** `String(n).padStart(2, '0')`. */
  function Pad2(n: nat): (s: string)
    ensures 2 <= |s| && AllDigits(s)
    ensures n < 100 ==> |s| == 2
  {
    if n < 10 then "0" + Decimal(n) else Decimal(n)
  }

  /**
   * The slot label for minute `m` of the day: hours and minutes, each
   * zero-padded to two digits. Hours are not wrapped at 24.
   */
  function FormatTime(m: nat): string {
    Pad2(m / 60) + ":" + Pad2(m % 60)
  }

  lemma {:induction false} DecimalValue(n: nat)
    ensures DigitsValue(Decimal(n)) == n
    decreases n
  {
    if n >= 10 {
      DecimalValue(n / 10);
      var s := Decimal(n);
      assert s[..|s| - 1] == Decimal(n / 10);
    }
  }

  /** A leading '0' does not change what `Number` reads. */
  lemma {:induction false} LeadingZero(s: string)
    requires AllDigits(s)
    ensures AllDigits("0" + s) && DigitsValue("0" + s) == DigitsValue(s)
    decreases |s|
  {
    var z := "0" + s;
    assert AllDigits(z) by {
      forall i | 0 <= i < |z| ensures IsDigit(z[i]) {
        if i > 0 { assert z[i] == s[i - 1]; }
      }
    }
    if s != [] {
      var init := s[..|s| - 1];
      LeadingZero(init);
      assert z[..|z| - 1] == "0" + init;
    }
  }

  lemma Pad2Value(n: nat)
    ensures DigitsValue(Pad2(n)) == n
  {
    DecimalValue(n);
    if n < 10 {
      LeadingZero(Decimal(n));
    }
  }

  lemma ColonAfterDigits(a: string, b: string)
    requires AllDigits(a)
    ensures ColonIndex(a + ":" + b) == |a|
  {
    var s := a + ":" + b;
    assert s[|a|] == ':';
    assert forall j :: 0 <= j < |a| ==> s[j] == a[j];
  }

  /** Reading back a generated slot label gives the minute it was made from. */
  lemma ParseFormat(m: nat)
    ensures ParseTime(FormatTime(m)) == Some(m)
  {
    var h, mm := Pad2(m / 60), Pad2(m % 60);
    var s := FormatTime(m);
    ColonAfterDigits(h, mm);
    assert s[..|h|] == h;
    assert s[|h| + 1..] == mm;
    Pad2Value(m / 60);
    Pad2Value(m % 60);
  }

  /** Distinct minutes get distinct labels. */
  lemma FormatInjective(m: nat, n: nat)
    requires m != n
    ensures FormatTime(m) != FormatTime(n)
  {
    ParseFormat(m);
    ParseFormat(n);
  }
}
