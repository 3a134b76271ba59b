/** The per-slice file name prefix `f"{filename_prefix}_part{i+1:02d}"`
    (nodes.py line 62): decimal formatting, zero padding to two digits, and
    a decimal parser that inverts it, from which the prefixes of distinct
    slices are proved distinct. */
module Naming {
  import opened Wrappers

  predicate IsDigit(c: char) {
    '0' <= c <= '9'
  }

  predicate AllDigits(s: string) {
    forall k :: 0 <= k < |s| ==> IsDigit(s[k])
  }

  function DigitChar(d: nat): (c: char)
    requires d < 10
    ensures IsDigit(c) && c as int - '0' as int == d
  {
    ('0' as int + d) as char
  }

  /** Decimal representation without leading zeros (`str(n)`). */
  function Decimal(n: nat): (s: string)
    ensures |s| >= 1 && AllDigits(s)
    decreases n
  {
    if n < 10 then [DigitChar(n)] else Decimal(n / 10) + [DigitChar(n % 10)]
  }

  /** `format(n, "02d")`: the decimal form, zero-filled to at least two characters. */
  function ZeroPad2(n: nat): string {
    if n < 10 then "0" + Decimal(n) else Decimal(n)
  }

  /** The value of a string of decimal digits, most significant first. */
  function DigitsValue(s: string): nat
    requires AllDigits(s)
    decreases |s|
  {
    if |s| == 0 then 0
    else DigitsValue(s[..|s| - 1]) * 10 + (s[|s| - 1] as int - '0' as int)
  }

  /** Reads a non-empty string of decimal digits; anything else is rejected. */
  function ParseDecimal(s: string): (r: Option<nat>)
    ensures r.Some? <==> |s| >= 1 && AllDigits(s)
  {
    if |s| >= 1 && AllDigits(s) then Some(DigitsValue(s)) else None
  }

  lemma {:induction false} DecimalRoundTrip(n: nat)
    ensures DigitsValue(Decimal(n)) == n
    decreases n
  {
    if n >= 10 {
      DecimalRoundTrip(n / 10);
      var s := Decimal(n);
      assert s[..|s| - 1] == Decimal(n / 10);
    }
  }

  /** A leading zero does not change the value of a digit string. */
  lemma {:induction false} LeadingZero(s: string)
    requires AllDigits(s)
    ensures AllDigits("0" + s) && DigitsValue("0" + s) == DigitsValue(s)
    decreases |s|
  {
    assert AllDigits("0" + s) by {
      forall k | 0 <= k < |"0" + s| ensures IsDigit(("0" + s)[k]) {
        if k > 0 { assert ("0" + s)[k] == s[k - 1]; }
      }
    }
    if |s| > 0 {
      var t := s[..|s| - 1];
      assert AllDigits(t) by {
        forall k | 0 <= k < |t| ensures IsDigit(t[k]) { assert t[k] == s[k]; }
      }
      LeadingZero(t);
      assert ("0" + s)[..|"0" + s| - 1] == "0" + t;
    }
  }

  /** Parsing undoes the zero-padded formatting. */
  lemma ZeroPad2RoundTrip(n: nat)
    ensures ParseDecimal(ZeroPad2(n)) == Some(n)
  {
    DecimalRoundTrip(n);
    if n < 10 {
      LeadingZero(Decimal(n));
    }
  }

  /** Two characters for every `n < 100`, three from 100 to 999 (100 is the top of the split range). */
  lemma ZeroPad2Width(n: nat)
    ensures n < 100 ==> |ZeroPad2(n)| == 2
    ensures 100 <= n < 1000 ==> |ZeroPad2(n)| == 3
  {
    if n >= 10 {
      assert |Decimal(n)| == |Decimal(n / 10)| + 1;
      if n >= 100 {
        assert |Decimal(n / 10)| == |Decimal(n / 100)| + 1;
      }
    }
  }

  /** The name prefix handed to the encoder for slice `i` (counted from 0). */
  function PartPrefix(filenamePrefix: string, i: nat): string {
    filenamePrefix + "_part" + ZeroPad2(i + 1)
  }

  /** A part prefix reads back as the caller's prefix, then `_part`, then
      the slice number counted from 1. */
  lemma PartPrefixLayout(filenamePrefix: string, i: nat)
    ensures |PartPrefix(filenamePrefix, i)| >= |filenamePrefix| + 7
    ensures PartPrefix(filenamePrefix, i)[..|filenamePrefix|] == filenamePrefix
    ensures PartPrefix(filenamePrefix, i)[|filenamePrefix|..|filenamePrefix| + 5] == "_part"
    ensures ParseDecimal(PartPrefix(filenamePrefix, i)[|filenamePrefix| + 5..]) == Some(i + 1)
  {
    ZeroPad2RoundTrip(i + 1);
    ZeroPad2Width(i + 1);
    assert PartPrefix(filenamePrefix, i)[|filenamePrefix| + 5..] == ZeroPad2(i + 1);
  }

  /** Distinct slices get distinct prefixes. */
  lemma PartPrefixInjective(filenamePrefix: string, i: nat, j: nat)
    requires PartPrefix(filenamePrefix, i) == PartPrefix(filenamePrefix, j)
    ensures i == j
  {
    PartPrefixLayout(filenamePrefix, i);
    PartPrefixLayout(filenamePrefix, j);
    var p, q := PartPrefix(filenamePrefix, i), PartPrefix(filenamePrefix, j);
    assert p[|filenamePrefix| + 5..] == q[|filenamePrefix| + 5..];
  }

  /** Worked example: prefix "X" gives X_part01, X_part03 and, for the
      hundredth slice, X_part100. */
  lemma PartPrefixExamples()
    ensures PartPrefix("X", 0) == "X_part01"
    ensures PartPrefix("X", 2) == "X_part03"
    ensures PartPrefix("X", 99) == "X_part100"
  {
    assert ZeroPad2(1) == "01" by { assert Decimal(1) == "1"; }
    assert ZeroPad2(3) == "03" by { assert Decimal(3) == "3"; }
    assert ZeroPad2(100) == "100" by {
      assert Decimal(1) == "1";
      assert Decimal(10) == Decimal(1) + "0";
      assert Decimal(100) == Decimal(10) + "0";
    }
  }
}
