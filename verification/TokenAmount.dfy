/** Printing a token amount as a decimal number. */
module TokenAmount {
  import opened Types

  // ----- Digits -----

  predicate IsDigit(c: char) {
    '0' <= c <= '9'
  }

  predicate AllDigits(s: string) {
    forall i :: 0 <= i < |s| ==> IsDigit(s[i])
  }

  function DigitOf(n: nat): (c: char)
    requires n < 10
    ensures IsDigit(c) && ValueOf(c) == n
  {
    ('0' as int + n) as char
  }

  function ValueOf(c: char): (n: int) {
    c as int - '0' as int
  }

  /** The number a string of digits stands for. */
  function NatOf(s: string): (n: nat)
    requires AllDigits(s)
  {
    if s == "" then 0 else NatOf(s[..|s| - 1]) * 10 + ValueOf(s[|s| - 1])
  }

  function Digits(n: nat): (s: string) {
    if n < 10 then [DigitOf(n)] else Digits(n / 10) + [DigitOf(n % 10)]
  }

  function Zeros(n: nat): (s: string)
    ensures |s| == n && AllDigits(s)
  {
    if n == 0 then "" else Zeros(n - 1) + "0"
  }

  /** The digits of a number, with zeros in front if there are fewer than `width`. */
  function Padded(n: nat, width: nat): (s: string) {
    var s := Digits(n);
    if |s| < width then Zeros(width - |s|) + s else s
  }

  // ----- Printing -----

  function RealNumberString(amount: nat, decimals: nat): (s: string) {
    if decimals > 0 then
      var s := Padded(amount, decimals + 1);
      PaddedLength(amount, decimals + 1);
      s[..|s| - decimals] + "." + s[|s| - decimals..]
    else
      Digits(amount)
  }

  function TrimEnd(s: string, c: char): (trimmed: string) {
    if s != "" && s[|s| - 1] == c then TrimEnd(s[..|s| - 1], c) else s
  }

  function RealNumberStringTrimmed(amount: nat, decimals: nat): (s: string) {
    var s := RealNumberString(amount, decimals);
    if decimals > 0 then TrimEnd(TrimEnd(s, '0'), '.') else s
  }

  lemma PaddedLength(n: nat, width: nat)
    ensures |Padded(n, width)| >= width && |Padded(n, width)| >= 1
  {
    DigitsMeaning(n);
  }

  // ----- Reading -----

  /** A number in decimal notation: `digits` with the point `scale` places from the right. */
  datatype Decimal = Decimal(digits: nat, scale: nat)

  function Pow10(n: nat): (p: nat)
    ensures p > 0
  {
    if n == 0 then 1 else 10 * Pow10(n - 1)
  }

  /** Whether two numbers in decimal notation are the same number. */
  ghost predicate SameValue(a: Decimal, b: Decimal) {
    a.digits * Pow10(b.scale) == b.digits * Pow10(a.scale)
  }

  /** Where the point is, or the length if there is none. */
  function PointAt(s: string): (p: nat)
    ensures p <= |s|
  {
    if s == "" || s[0] == '.' then 0 else 1 + PointAt(s[1..])
  }

  /** Read a number: digits, and a point followed by digits if there is a fraction. */
  function Parse(s: string): (d: Option<Decimal>) {
    var p := PointAt(s);
    var whole, fraction := s[..p], if p < |s| then s[p + 1..] else "";
    if whole != "" && AllDigits(whole + fraction) && (p < |s| ==> fraction != "")
    then Some(Decimal(NatOf(whole + fraction), |fraction|))
    else None
  }

  // ----- Lemmas about digits -----

  lemma {:induction false} DigitsMeaning(n: nat)
    ensures AllDigits(Digits(n)) && |Digits(n)| >= 1 && NatOf(Digits(n)) == n
  {
    if n >= 10 {
      DigitsMeaning(n / 10);
      assert Digits(n)[..|Digits(n)| - 1] == Digits(n / 10);
    } else {
      assert [DigitOf(n)][..0] == "";
    }
  }

  lemma {:induction false} LeadingZeros(n: nat, s: string)
    requires AllDigits(s)
    ensures AllDigits(Zeros(n) + s) && NatOf(Zeros(n) + s) == NatOf(s)
  {
    if s == "" {
      assert Zeros(n) + s == Zeros(n);
      ZeroValue(n);
    } else {
      var m := |s| - 1;
      LeadingZeros(n, s[..m]);
      assert (Zeros(n) + s)[..n + m] == Zeros(n) + s[..m];
    }
  }

  lemma {:induction false} ZeroValue(n: nat)
    ensures NatOf(Zeros(n)) == 0
  {
    if n > 0 {
      ZeroValue(n - 1);
      assert Zeros(n)[..n - 1] == Zeros(n - 1);
    }
  }

  lemma PaddedMeaning(n: nat, width: nat)
    ensures AllDigits(Padded(n, width)) && NatOf(Padded(n, width)) == n
  {
    DigitsMeaning(n);
    if |Digits(n)| < width { LeadingZeros(width - |Digits(n)|, Digits(n)); }
  }

  /** Zeros at the end multiply by ten each. */
  lemma {:induction false} TrailingZeros(s: string, n: nat)
    requires AllDigits(s)
    ensures AllDigits(s + Zeros(n)) && NatOf(s + Zeros(n)) == NatOf(s) * Pow10(n)
  {
    if n == 0 {
      assert s + Zeros(n) == s;
    } else {
      TrailingZeros(s, n - 1);
      assert (s + Zeros(n))[..|s| + n - 1] == s + Zeros(n - 1);
      assert NatOf(s) * Pow10(n - 1) * 10 == NatOf(s) * Pow10(n);
    }
  }

  // ----- Lemmas about trimming -----

  /** Trimming takes off exactly the zeros at the end. */
  lemma {:induction false} TrimZeros(s: string)
    ensures var t := TrimEnd(s, '0');
            t <= s && s == t + Zeros(|s| - |t|) && (t != "" ==> t[|t| - 1] != '0')
  {
    if s != "" && s[|s| - 1] == '0' {
      var n := |s| - 1;
      TrimZeros(s[..n]);
      assert s == s[..n] + "0";
    } else {
      assert s == s + "";
    }
  }

  /** A point stops the trimming. */
  lemma {:induction false} TrimFraction(whole: string, fraction: string)
    ensures TrimEnd(whole + "." + fraction, '0') == whole + "." + TrimEnd(fraction, '0')
  {
    var s := whole + "." + fraction;
    if fraction == "" {
      assert s == whole + "." && s[|s| - 1] == '.';
    } else {
      var m := |fraction| - 1;
      assert s[|s| - 1] == fraction[m];
      if fraction[m] == '0' {
        TrimFraction(whole, fraction[..m]);
        assert s[..|s| - 1] == whole + "." + fraction[..m];
      }
    }
  }

  lemma TrimPoint(whole: string, fraction: string)
    requires AllDigits(whole) && AllDigits(fraction) && whole != ""
    ensures TrimEnd(whole + "." + fraction, '.') == if fraction == "" then whole else whole + "." + fraction
  {
    var s := whole + "." + fraction;
    if fraction == "" {
      assert s[..|s| - 1] == whole && s[|s| - 1] == '.' && IsDigit(whole[|whole| - 1]);
    } else {
      assert s[|s| - 1] == fraction[|fraction| - 1] && IsDigit(s[|s| - 1]);
    }
  }

  // ----- Lemmas about reading -----

  lemma {:induction false} PointAfter(whole: string, rest: string)
    requires AllDigits(whole) && (rest == "" || rest[0] == '.')
    ensures PointAt(whole + rest) == |whole|
  {
    if whole == "" {
      assert whole + rest == rest;
    } else {
      assert IsDigit(whole[0]) && (whole + rest)[1..] == whole[1..] + rest;
      PointAfter(whole[1..], rest);
    }
  }

  lemma PointOf(whole: string, fraction: string)
    requires AllDigits(whole)
    ensures PointAt(whole + "." + fraction) == |whole|
  {
    PointAfter(whole, "." + fraction);
    assert whole + "." + fraction == whole + ("." + fraction);
  }

  lemma ParseWhole(whole: string)
    requires AllDigits(whole) && whole != ""
    ensures Parse(whole) == Some(Decimal(NatOf(whole), 0))
  {
    PointAfter(whole, "");
    assert whole + "" == whole && whole[..|whole|] == whole;
  }

  lemma ParseFraction(whole: string, fraction: string)
    requires AllDigits(whole) && AllDigits(fraction) && whole != "" && fraction != ""
    ensures AllDigits(whole + fraction)
    ensures Parse(whole + "." + fraction) == Some(Decimal(NatOf(whole + fraction), |fraction|))
  {
    var s := whole + "." + fraction;
    PointOf(whole, fraction);
    assert s[..|whole|] == whole && s[|whole| + 1..] == fraction;
  }

  // ----- What is printed -----

  /** The parts before and after the point. */
  ghost function Whole(amount: nat, decimals: nat): (s: string) {
    var s := Padded(amount, decimals + 1);
    PaddedLength(amount, decimals + 1);
    s[..|s| - decimals]
  }

  ghost function Fraction(amount: nat, decimals: nat): (s: string) {
    var s := Padded(amount, decimals + 1);
    PaddedLength(amount, decimals + 1);
    s[|s| - decimals..]
  }

  lemma PartsMeaning(amount: nat, decimals: nat)
    ensures var whole, fraction := Whole(amount, decimals), Fraction(amount, decimals);
            && AllDigits(whole) && AllDigits(fraction) && whole != "" && |fraction| == decimals
            && AllDigits(whole + fraction) && NatOf(whole + fraction) == amount
  {
    PaddedMeaning(amount, decimals + 1);
    PaddedLength(amount, decimals + 1);
    assert Whole(amount, decimals) + Fraction(amount, decimals) == Padded(amount, decimals + 1);
  }

  lemma {:induction false} NoLeadingZero(n: nat)
    ensures Digits(n) != "" && (n > 0 ==> Digits(n)[0] != '0') && (n == 0 ==> Digits(n) == "0")
  {
    if n >= 10 { NoLeadingZero(n / 10); }
  }

  /** A whole part of more than one digit does not begin with a zero, and the digits are the usual ones. */
  lemma PrintedIsCanonical(amount: nat, decimals: nat)
    ensures var s := RealNumberString(amount, decimals);
            && (PointAt(s) > 1 ==> s[0] != '0')
            && forall i :: 0 <= i < |s| ==> s[i] in ".0123456789"
  {
    NoLeadingZero(amount);
    DigitsMeaning(amount);
    if decimals > 0 {
      PartsMeaning(amount, decimals);
      PointOf(Whole(amount, decimals), Fraction(amount, decimals));
    } else {
      PointAfter(Digits(amount), "");
      assert Digits(amount) + "" == Digits(amount);
    }
    forall c: char | IsDigit(c) ensures c in ".0123456789" { UsualDigit(c); }
  }

  lemma UsualDigit(c: char)
    requires IsDigit(c)
    ensures 0 <= ValueOf(c) < 10 && c == "0123456789"[ValueOf(c)] && c in ".0123456789"
  {
    assert ".0123456789"[ValueOf(c) + 1] == "0123456789"[ValueOf(c)];
  }

  /** The string reads back as the amount with the point `decimals` places from the right. */
  lemma PrintedReadsBack(amount: nat, decimals: nat)
    ensures Parse(RealNumberString(amount, decimals)) == Some(Decimal(amount, decimals))
  {
    if decimals > 0 {
      PartsMeaning(amount, decimals);
      ParseFraction(Whole(amount, decimals), Fraction(amount, decimals));
    } else {
      DigitsMeaning(amount);
      ParseWhole(Digits(amount));
    }
  }

  /** Trimming leaves the whole part alone and takes the zeros off the fraction. */
  lemma TrimmedParts(amount: nat, decimals: nat)
    requires decimals > 0
    ensures var whole, fraction := Whole(amount, decimals), TrimEnd(Fraction(amount, decimals), '0');
            RealNumberStringTrimmed(amount, decimals) == if fraction == "" then whole else whole + "." + fraction
  {
    var whole, fraction := Whole(amount, decimals), Fraction(amount, decimals);
    PartsMeaning(amount, decimals);
    TrimFraction(whole, fraction);
    TrimZeros(fraction);
    TrimPoint(whole, TrimEnd(fraction, '0'));
  }

  /** The number the trimmed string shows. */
  ghost function TrimmedNumber(amount: nat, decimals: nat): (d: Decimal) {
    PartsMeaning(amount, decimals);
    var whole, fraction := Whole(amount, decimals), Fraction(amount, decimals);
    TrimZeros(fraction);
    var trimmed := TrimEnd(fraction, '0');
    Decimal(NatOf(whole + trimmed), |trimmed|)
  }

  lemma TrimmedShows(amount: nat, decimals: nat)
    requires decimals > 0
    ensures Parse(RealNumberStringTrimmed(amount, decimals)) == Some(TrimmedNumber(amount, decimals))
  {
    var whole, fraction := Whole(amount, decimals), Fraction(amount, decimals);
    PartsMeaning(amount, decimals);
    TrimZeros(fraction);
    TrimmedParts(amount, decimals);
    var trimmed := TrimEnd(fraction, '0');
    if trimmed == "" {
      assert whole + trimmed == whole;
      ParseWhole(whole);
    } else {
      ParseFraction(whole, trimmed);
    }
  }

  /** Cutting the zeros off a fraction leaves the number as it was. */
  lemma CutFraction(whole: string, trimmed: string, cut: nat)
    requires AllDigits(whole) && AllDigits(trimmed) && (trimmed != "" ==> trimmed[|trimmed| - 1] != '0')
    ensures AllDigits(whole + trimmed) && AllDigits(whole + (trimmed + Zeros(cut)))
    ensures var d := Decimal(NatOf(whole + trimmed), |trimmed|);
            && SameValue(d, Decimal(NatOf(whole + (trimmed + Zeros(cut))), |trimmed| + cut))
            && (d.scale > 0 ==> d.digits % 10 != 0)
  {
    CutZeros(whole, trimmed, cut);
    if trimmed != "" { LastDigit(whole + trimmed); }
  }

  lemma TrimmedScales(amount: nat, decimals: nat)
    ensures var d := TrimmedNumber(amount, decimals);
            && d.scale <= decimals && SameValue(d, Decimal(amount, decimals))
            && (d.scale > 0 ==> d.digits % 10 != 0)
  {
    var whole, fraction := Whole(amount, decimals), Fraction(amount, decimals);
    PartsMeaning(amount, decimals);
    TrimZeros(fraction);
    var trimmed := TrimEnd(fraction, '0');
    var cut := |fraction| - |trimmed|;
    assert fraction == trimmed + Zeros(cut) && |trimmed| + cut == decimals;
    CutFraction(whole, trimmed, cut);
  }

  lemma CutZeros(whole: string, trimmed: string, cut: nat)
    requires AllDigits(whole) && AllDigits(trimmed)
    ensures AllDigits(whole + trimmed) && AllDigits(whole + (trimmed + Zeros(cut)))
    ensures SameValue(Decimal(NatOf(whole + trimmed), |trimmed|),
              Decimal(NatOf(whole + (trimmed + Zeros(cut))), |trimmed| + cut))
  {
    TrailingZeros(whole + trimmed, cut);
    assert whole + (trimmed + Zeros(cut)) == whole + trimmed + Zeros(cut);
    SameWhenScaled(Decimal(NatOf(whole + trimmed), |trimmed|), NatOf(whole + (trimmed + Zeros(cut))), cut);
  }

  lemma SameWhenScaled(d: Decimal, amount: nat, cut: nat)
    requires amount == d.digits * Pow10(cut)
    ensures SameValue(d, Decimal(amount, d.scale + cut))
  {
    PowersSplit(d.scale, cut);
    assert d.digits * (Pow10(cut) * Pow10(d.scale)) == d.digits * Pow10(cut) * Pow10(d.scale);
  }

  /** The trimmed string reads as the same number, with no zero at the end of a fraction and no bare point. */
  lemma TrimmedReadsBack(amount: nat, decimals: nat) returns (d: Decimal)
    ensures Parse(RealNumberStringTrimmed(amount, decimals)) == Some(d)
    ensures SameValue(d, Decimal(amount, decimals)) && d.scale <= decimals
    ensures d.scale > 0 ==> d.digits % 10 != 0
  {
    if decimals == 0 {
      PrintedReadsBack(amount, decimals);
      d := Decimal(amount, 0);
    } else {
      d := TrimmedNumber(amount, decimals);
      TrimmedShows(amount, decimals);
      TrimmedScales(amount, decimals);
    }
  }

  /** Trimming cuts off an end of the string, never any of its whole part. */
  lemma TrimmedKeepsWhole(amount: nat, decimals: nat)
    ensures RealNumberStringTrimmed(amount, decimals) <= RealNumberString(amount, decimals)
    ensures PointAt(RealNumberString(amount, decimals)) <= |RealNumberStringTrimmed(amount, decimals)|
  {
    if decimals > 0 {
      var whole, fraction := Whole(amount, decimals), Fraction(amount, decimals);
      PartsMeaning(amount, decimals);
      TrimmedParts(amount, decimals);
      TrimZeros(fraction);
      PointOf(whole, fraction);
    }
  }

  lemma {:induction false} PowersSplit(a: nat, b: nat)
    ensures Pow10(a + b) == Pow10(b) * Pow10(a)
  {
    if a > 0 { PowersSplit(a - 1, b); }
  }

  lemma LastDigit(s: string)
    requires AllDigits(s) && s != "" && s[|s| - 1] != '0'
    ensures NatOf(s) % 10 != 0
  {
  }

  /** Amounts printed alike with the same number of decimals are the same. */
  lemma TrimmedIsInjective(a: nat, b: nat, decimals: nat)
    requires RealNumberStringTrimmed(a, decimals) == RealNumberStringTrimmed(b, decimals)
    ensures a == b
  {
    var d := TrimmedReadsBack(a, decimals);
    var e := TrimmedReadsBack(b, decimals);
    Cancel(a, b, Pow10(d.scale));
  }

  lemma Cancel(a: nat, b: nat, p: nat)
    requires p > 0 && a * p == b * p
    ensures a == b
  {
    assert (a - b) * p == 0;
  }
}
