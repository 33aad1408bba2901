/** Payment normalisation: the loader keeps only the digits and decimal
    points of a currency-formatted amount (`replace(/[^0-9.]/g, '')`) and
    reads the result with `parseFloat`.  On a string made only of digits and
    points `parseFloat` reads the longest prefix of the form `digits`,
    `digits.`, `digits.digits` or `.digits`, and yields NaN when that prefix
    holds no digit.  Amounts are exact reals here, not IEEE-754 doubles. */
module Payment {
  import opened Wrappers
  import Seqs

  predicate IsDigit(c: char) {
    '0' <= c <= '9'
  }

  /** The characters the normalising regular expression keeps. */
  predicate IsAmountChar(c: char) {
    IsDigit(c) || c == '.'
  }

  predicate AllDigits(s: string) {
    forall i | 0 <= i < |s| :: IsDigit(s[i])
  }

  /** Removes every character other than a digit or a decimal point. */
  function StripAmount(s: string): (r: string)
    ensures forall i | 0 <= i < |r| :: IsAmountChar(r[i])
    ensures Seqs.IsSubsequence(r, s)
  {
    Seqs.Filter(s, IsAmountChar)
  }

  /** Normalisation keeps every digit and point of the input, each as often as
      it occurs, and nothing else. */
  lemma StripAmountCounts(s: string)
    ensures forall c :: multiset(StripAmount(s))[c] == if IsAmountChar(c) then multiset(s)[c] else 0
  {
    Seqs.FilterCounts(s, IsAmountChar);
  }

  function DigitValue(c: char): (v: nat)
    requires IsDigit(c)
    ensures v <= 9
  {
    c as int - '0' as int
  }

  /** The length of the longest all-digit prefix of `s`. */
  function DigitRun(s: string): (k: nat)
    ensures k <= |s|
    ensures AllDigits(s[..k])
    ensures k < |s| ==> !IsDigit(s[k])
  {
    if |s| > 0 && IsDigit(s[0]) then
      assert s[..1 + DigitRun(s[1..])] == [s[0]] + s[1..][..DigitRun(s[1..])];
      1 + DigitRun(s[1..])
    else 0
  }

  /** The value of a decimal numeral, most significant digit first. */
  function NatValue(ds: string): nat
    requires AllDigits(ds)
  {
    if |ds| == 0 then 0 else 10 * NatValue(ds[..|ds| - 1]) + DigitValue(ds[|ds| - 1])
  }

  /** The value of the digits after a decimal point. */
  function FracValue(ds: string): (v: real)
    requires AllDigits(ds)
    ensures 0.0 <= v < 1.0
  {
    if |ds| == 0 then 0.0 else (DigitValue(ds[0]) as real + FracValue(ds[1..])) / 10.0
  }

  /** `parseFloat` on a string of digits and points: the decimal prefix, or
      None where JavaScript yields NaN. */
  function ParseDecimalPrefix(s: string): (r: Option<real>)
    ensures r.Some? <==> |s| > 0 && (IsDigit(s[0]) || (s[0] == '.' && |s| > 1 && IsDigit(s[1])))
    ensures r.Some? ==> r.value >= 0.0
  {
    var k := DigitRun(s);
    var whole := NatValue(s[..k]) as real;
    if k < |s| && s[k] == '.' then
      var f := DigitRun(s[k + 1..]);
      if k == 0 && f == 0 then None
      else Some(whole + FracValue(s[k + 1..][..f]))
    else if k == 0 then None
    else Some(whole)
  }

  /** The loader's reading of an `Average_Total_Payments` cell. */
  function ParseAmount(s: string): (r: Option<real>)
    ensures r.Some? ==> r.value >= 0.0
    ensures r.Some? ==> exists i | 0 <= i < |s| :: IsDigit(s[i])
  {
    var stripped := StripAmount(s);
    var r := ParseDecimalPrefix(stripped);
    if r.Some? then
      assert IsDigit(stripped[0]) || IsDigit(stripped[1]);
      Seqs.SubsequenceMembers(stripped, s);
      assert stripped[0] in s && stripped[1 % |stripped|] in s;
      r
    else r
  }

  /** Decimal rendering of a natural number, the partner of `NatValue`. */
  function NatToDigits(n: nat): (ds: string)
    ensures |ds| > 0 && AllDigits(ds)
  {
    if n < 10 then ["0123456789"[n]]
    else NatToDigits(n / 10) + ["0123456789"[n % 10]]
  }

  lemma {:induction false} NatValueOfDigits(n: nat)
    ensures NatValue(NatToDigits(n)) == n
  {
    var ds := NatToDigits(n);
    if n >= 10 {
      NatValueOfDigits(n / 10);
      assert ds[..|ds| - 1] == NatToDigits(n / 10);
    }
  }

  lemma AllDigitsRun(s: string)
    requires AllDigits(s)
    ensures DigitRun(s) == |s|
  {
  }

  /** Reading back the rendering of a whole number gives that number. */
  lemma ParseOfRenderedNat(n: nat)
    ensures ParseDecimalPrefix(NatToDigits(n)) == Some(n as real)
  {
    var ds := NatToDigits(n);
    AllDigitsRun(ds);
    assert ds[..|ds|] == ds;
    NatValueOfDigits(n);
  }

  /** A numeral `whole.frac` with at least one digit, followed by anything that
      does not begin with a digit, reads as `whole + 0.frac`; whatever follows
      is ignored.  Either side of the point may be empty (`"7."`, `".5"`). */
  lemma ParseOfDecimal(whole: string, frac: string, rest: string)
    requires AllDigits(whole) && AllDigits(frac) && (|whole| > 0 || |frac| > 0)
    requires |rest| == 0 || !IsDigit(rest[0])
    ensures ParseDecimalPrefix(whole + "." + frac + rest) ==
      Some(NatValue(whole) as real + FracValue(frac))
  {
    DecimalShape(whole, frac, rest);
    ParseAtPoint(whole + "." + frac + rest, whole, frac);
  }

  /** Where the digit runs and the point of `whole.frac rest` lie. */
  lemma DecimalShape(whole: string, frac: string, rest: string)
    requires AllDigits(whole) && AllDigits(frac)
    requires |rest| == 0 || !IsDigit(rest[0])
    ensures var s := whole + "." + frac + rest;
      && DigitRun(s) == |whole| < |s| && s[..|whole|] == whole && s[|whole|] == '.'
      && DigitRun(s[|whole| + 1..]) == |frac| && s[|whole| + 1..][..|frac|] == frac
  {
    var tail := frac + rest;
    var s := whole + "." + frac + rest;
    assert s == whole + ("." + tail);
    DigitRunPrefix(whole, "." + tail);
    assert s[|whole| + 1..] == tail;
    DigitRunPrefix(frac, rest);
    assert tail[..|frac|] == frac;
  }

  /** The reading of a string whose leading digit run `whole` is followed by
      a point and the digit run `frac`. */
  lemma ParseAtPoint(s: string, whole: string, frac: string)
    requires AllDigits(whole) && AllDigits(frac) && (|whole| > 0 || |frac| > 0)
    requires DigitRun(s) == |whole| < |s| && s[..|whole|] == whole && s[|whole|] == '.'
    requires DigitRun(s[|whole| + 1..]) == |frac| && s[|whole| + 1..][..|frac|] == frac
    ensures ParseDecimalPrefix(s) == Some(NatValue(whole) as real + FracValue(frac))
  {
  }

  /** A run of digits not followed by a digit or a point reads as its value,
      leading zeros included (`"007"` is 7). */
  lemma ParseOfWhole(whole: string, rest: string)
    requires |whole| > 0 && AllDigits(whole)
    requires |rest| == 0 || !IsAmountChar(rest[0])
    ensures ParseDecimalPrefix(whole + rest) == Some(NatValue(whole) as real)
  {
    DigitRunPrefix(whole, rest);
    assert (whole + rest)[..|whole|] == whole;
  }

  lemma {:induction false} DigitRunPrefix(ds: string, rest: string)
    requires AllDigits(ds)
    requires |rest| == 0 || !IsDigit(rest[0])
    ensures DigitRun(ds + rest) == |ds|
  {
    if |ds| > 0 {
      assert (ds + rest)[1..] == ds[1..] + rest;
      DigitRunPrefix(ds[1..], rest);
    }
  }

  /** Normalising a concatenation normalises each part. */
  lemma StripAppend(a: string, b: string)
    ensures StripAmount(a + b) == StripAmount(a) + StripAmount(b)
  {
    Seqs.FilterAppend(a, b, IsAmountChar);
  }

  /** A string of digits and points is already normal. */
  lemma StripKeeps(s: string)
    requires forall i | 0 <= i < |s| :: IsAmountChar(s[i])
    ensures StripAmount(s) == s
  {
    Seqs.FilterKeepsAll(s, IsAmountChar);
  }

  /** A character the normalisation drops contributes nothing. */
  lemma StripDropped(c: char)
    requires !IsAmountChar(c)
    ensures StripAmount([c]) == []
  {
    Seqs.FilterSnoc([], c, IsAmountChar);
    assert [] + [c] == [c];
  }

  /** A currency sign, a thousands separator and a trailing mark around two
      runs of digits and points leave exactly those runs. */
  lemma StripFormatted(sign: char, high: string, sep: char, low: string, mark: char)
    requires !IsAmountChar(sign) && !IsAmountChar(sep) && !IsAmountChar(mark)
    requires forall i | 0 <= i < |high| :: IsAmountChar(high[i])
    requires forall i | 0 <= i < |low| :: IsAmountChar(low[i])
    ensures StripAmount([sign] + high + [sep] + low + [mark]) == high + low
  {
    var a := [sign] + high;
    var b := a + [sep];
    var c := b + low;
    StripDropped(sign);
    StripKeeps(high);
    StripAppend([sign], high);
    assert StripAmount(a) == high;
    StripDropped(sep);
    StripAppend(a, [sep]);
    assert StripAmount(b) == high;
    StripKeeps(low);
    StripAppend(b, low);
    assert StripAmount(c) == high + low;
    StripDropped(mark);
    StripAppend(c, [mark]);
  }

  lemma StripCurrencyExample()
    ensures StripAmount("$12,345.67*") == "12345.67"
  {
    StripFormatted('$', "12", ',', "345.67", '*');
    assert ['$'] + "12" + [','] + "345.67" + ['*'] == "$12,345.67*";
    assert "12" + "345.67" == "12345.67";
  }

  lemma WholeValueExample()
    ensures NatValue("12345") == 12345
  {
    assert "12345"[..4] == "1234" && "1234"[..3] == "123" && "123"[..2] == "12" && "12"[..1] == "1";
  }

  lemma FracValueExample()
    ensures FracValue("67") == 0.67
  {
    assert "67"[1..] == "7" && "7"[1..] == "";
  }

  lemma ParseDecimalExample()
    ensures ParseDecimalPrefix("12345.67") == Some(12345.67)
  {
    assert AllDigits("12345") && AllDigits("67");
    ParseOfDecimal("12345", "67", "");
    assert "12345" + "." + "67" + "" == "12345.67";
    WholeValueExample();
    FracValueExample();
  }

  /** Currency symbols, thousands separators and trailing marks are ignored. */
  lemma ParseAmountCurrencyExample()
    ensures ParseAmount("$12,345.67*") == Some(12345.67)
  {
    StripCurrencyExample();
    ParseDecimalExample();
  }

  /** An amount with no digit at all is not a number. */
  lemma ParseAmountNotAvailable()
    ensures ParseAmount("N/A") == None
  {
  }

  lemma ParseSecondPointExample()
    ensures ParseDecimalPrefix("1.2.3") == Some(1.2)
  {
    ParseOfDecimal("1", "2", ".3");
    assert "1" + "." + "2" + ".3" == "1.2.3";
    assert "1"[..0] == "";
    assert "2"[1..] == "";
  }

  lemma StripLeadingPointExample()
    ensures StripAmount("$.50") == ".50"
  {
    StripDropped('$');
    StripKeeps(".50");
    StripAppend("$", ".50");
    assert "$" + ".50" == "$.50";
  }

  lemma ParseLeadingPointExample()
    ensures ParseDecimalPrefix(".50") == Some(0.5)
  {
    ParseOfDecimal("", "50", "");
    assert "" + "." + "50" + "" == ".50";
    assert FracValue("50") == 0.5 by {
      assert "50"[1..] == "0" && "0"[1..] == "";
    }
  }

  /** An amount with no whole part reads as its fraction. */
  lemma ParseAmountLeadingPoint()
    ensures ParseAmount("$.50") == Some(0.5)
  {
    StripLeadingPointExample();
    ParseLeadingPointExample();
  }

  lemma ParseLeadingZerosExample()
    ensures ParseDecimalPrefix("007") == Some(7.0)
  {
    ParseOfWhole("007", "");
    assert "007" + "" == "007";
    assert NatValue("007") == 7 by {
      assert "007"[..2] == "00" && "00"[..1] == "0" && "0"[..0] == "";
    }
  }

  /** Leading zeros do not change the value. */
  lemma ParseAmountLeadingZeros()
    ensures ParseAmount("007") == Some(7.0)
  {
    StripKeeps("007");
    ParseLeadingZerosExample();
  }

  /** After stripping, a second decimal point ends the number. */
  lemma ParseAmountSecondPoint()
    ensures ParseAmount("1.2.3") == Some(1.2)
  {
    StripKeeps("1.2.3");
    ParseSecondPointExample();
  }
}
