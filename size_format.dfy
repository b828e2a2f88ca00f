/**
 * The byte-count label shown beside a file ("812 bytes", "1.3 KB", "2.4 MB").
 *
 * The component code divides the byte count by 1024 or 1048576 and calls
 * Number.prototype.toFixed(1) (section 21.1.3.3 of ECMA-262). Byte counts are
 * integers, so for every count below 2^53 those divisions are exact in IEEE
 * doubles; the model therefore divides exactly, as Dafny reals, and follows
 * the toFixed algorithm on that exact value: choose the integer n for which
 * n / 10 - x is closest to zero, the larger one on a tie, then print the
 * digits of n with a point before the last one.
 *
 * The same function is written out three times in the repository, character
 * for character; FormatFileSize models all three.
 */
module SizeFormat {

  /** The character of the decimal digit d. */
  function DigitChar(d: nat): (c: char)
    requires d < 10
    ensures '0' <= c <= '9'
    ensures c as int == '0' as int + d
  {
    "0123456789"[d]
  }

  /** The value of a decimal digit character. */
  function DigitValue(c: char): (d: nat)
    requires '0' <= c <= '9'
    ensures d < 10 && DigitChar(d) == c
  {
    c as int - '0' as int
  }

  ghost predicate AllDigits(s: string)
  {
    forall i :: 0 <= i < |s| ==> '0' <= s[i] <= '9'
  }

  /**
   * The decimal digits of n, most significant first, with no leading zero:
   * what Number::toString gives for a non-negative integer below 10^21.
   */
  function Decimal(n: nat): (s: string)
    ensures |s| >= 1 && AllDigits(s)
    ensures |s| > 1 ==> s[0] != '0'
    ensures n < 10 <==> |s| == 1
  {
    if n < 10 then [DigitChar(n)] else Decimal(n / 10) + [DigitChar(n % 10)]
  }

  /** The number a string of decimal digits denotes (the inverse of Decimal). */
  function DecimalValue(s: string): nat
    requires AllDigits(s)
  {
    if s == [] then 0 else 10 * DecimalValue(s[..|s| - 1]) + DigitValue(s[|s| - 1])
  }

  /** Reading back the printed digits of n gives n. */
  lemma {:induction false} DecimalRoundTrip(n: nat)
    ensures DecimalValue(Decimal(n)) == n
  {
    var s := Decimal(n);
    if n < 10 {
      assert s[..|s| - 1] == [];
    } else {
      assert s[..|s| - 1] == Decimal(n / 10);
      DecimalRoundTrip(n / 10);
    }
  }

  /** Different numbers print differently. */
  lemma DecimalInjective(m: nat, n: nat)
    requires Decimal(m) == Decimal(n)
    ensures m == n
  {
    DecimalRoundTrip(m);
    DecimalRoundTrip(n);
  }

  /** |n / 10 - x|, the distance toFixed(1) minimises. */
  function Distance(n: int, x: real): real
  {
    var e := n as real / 10.0 - x;
    if e < 0.0 then -e else e
  }

  /**
   * Step 10 of Number.prototype.toFixed with one fraction digit: n is an
   * integer for which n / 10 - x is as close to zero as possible, and the
   * larger of two such integers.
   */
  ghost predicate ToFixedChoice(x: real, n: int)
  {
    && (forall m: int :: Distance(n, x) <= Distance(m, x))
    && (forall m: int :: Distance(m, x) == Distance(n, x) ==> m <= n)
  }

  /** At most one integer meets the choice rule, so toFixed is well defined. */
  lemma ToFixedChoiceUnique(x: real, n1: int, n2: int)
    requires ToFixedChoice(x, n1) && ToFixedChoice(x, n2)
    ensures n1 == n2
  {
    assert Distance(n1, x) <= Distance(n2, x) && Distance(n2, x) <= Distance(n1, x);
  }

  /** Round half up to a whole number of tenths meets the choice rule. */
  lemma {:induction false} RoundHalfUpIsChoice(x: real, n: int)
    requires n as real <= 10.0 * x + 0.5 < n as real + 1.0
    ensures ToFixedChoice(x, n)
  {
    assert Distance(n, x) <= 0.05;
    forall m: int
      ensures Distance(n, x) <= Distance(m, x)
      ensures Distance(m, x) == Distance(n, x) ==> m <= n
    {
      if m < n {
        assert m as real <= n as real - 1.0;
        assert Distance(m, x) >= 0.05;
      } else if m > n {
        assert m as real >= n as real + 1.0;
        assert Distance(m, x) > 0.05;
      }
    }
  }

  /** The number of tenths toFixed(1) prints for a non-negative x. */
  function RoundTenths(x: real): (n: nat)
    requires x >= 0.0
    ensures ToFixedChoice(x, n)
  {
    var n := (10.0 * x + 0.5).Floor;
    RoundHalfUpIsChoice(x, n);
    n
  }

  /** A whole number of tenths written with one decimal: the integer part, a point, the tenths digit. */
  function Tenths(n: nat): string
  {
    Decimal(n / 10) + "." + [DigitChar(n % 10)]
  }

  /**
   * Steps 10 and 11 of toFixed with one fraction digit, given n: the digits of
   * n ("0" when n is 0), padded with a leading zero when there is only one,
   * with a point inserted before the last digit. That is the integer part of
   * n / 10, a point and the tenths digit.
   */
  function ToFixedDigits(n: nat): (s: string)
    ensures s == Tenths(n)
  {
    var m := if n == 0 then "0" else Decimal(n);
    var padded := if |m| <= 1 then "0" + m else m;
    var k := |padded|;
    assert padded[..k - 1] == Decimal(n / 10) && padded[k - 1..] == [DigitChar(n % 10)] by {
      if n < 10 {
        assert m == [DigitChar(n)];
        assert padded[..1] == "0" && padded[1..] == m;
        assert Decimal(n / 10) == "0";
      } else {
        assert m == Decimal(n / 10) + [DigitChar(n % 10)];
      }
    }
    padded[..k - 1] + "." + padded[k - 1..]
  }

  /** x.toFixed(1) for a non-negative x below 10^21: the tenths toFixed chooses, written out. */
  function ToFixed1(x: real): (s: string)
    requires x >= 0.0
    ensures s == Tenths(RoundTenths(x))
  {
    ToFixedDigits(RoundTenths(x))
  }

  /**
   * What x.toFixed(1) prints is digits, a point and one more digit, and it
   * reads back as the number of tenths toFixed's choice rule picks for x.
   */
  lemma ToFixed1ReadBack(x: real)
    requires x >= 0.0
    ensures var s := ToFixed1(x);
      && |s| >= 3 && s[|s| - 2] == '.' && AllDigits(s[..|s| - 2]) && '0' <= s[|s| - 1] <= '9'
      && ToFixedChoice(x, 10 * DecimalValue(s[..|s| - 2]) + DigitValue(s[|s| - 1]))
  {
    var n := RoundTenths(x);
    var s := ToFixed1(x);
    assert s[..|s| - 2] == Decimal(n / 10);
    DecimalRoundTrip(n / 10);
    assert DigitValue(s[|s| - 1]) == n % 10;
  }

  /**
   * formatFileSize, as written in the three components, and what it amounts
   * to: the count below 1 KiB, then kibibytes, then mebibytes, each to one
   * decimal with ties rounded up, in integer arithmetic.
   */
  function FormatFileSize(bytes: nat): (s: string)
    ensures bytes < 1024 ==> s == Decimal(bytes) + " bytes"
    ensures 1024 <= bytes < 1048576 ==> s == Tenths((10 * bytes + 512) / 1024) + " KB"
    ensures bytes >= 1048576 ==> s == Tenths((10 * bytes + 524288) / 1048576) + " MB"
  {
    if bytes < 1024 then Decimal(bytes) + " bytes"
    else if bytes < 1048576 then (KilobyteTenths(bytes); ToFixed1(bytes as real / 1024.0) + " KB")
    else (MegabyteTenths(bytes); ToFixed1(bytes as real / 1048576.0) + " MB")
  }

  /** `(b / 1024).toFixed(1)` is floor((10 b + 512) / 1024) tenths. */
  lemma KilobyteTenths(b: nat)
    ensures ToFixed1(b as real / 1024.0) == Tenths((10 * b + 512) / 1024)
  {
    ExactTenths(b, 1024);
  }

  /** `(b / 1048576).toFixed(1)` is floor((10 b + 524288) / 1048576) tenths. */
  lemma MegabyteTenths(b: nat)
    ensures ToFixed1(b as real / 1048576.0) == Tenths((10 * b + 524288) / 1048576)
  {
    ExactTenths(b, 1048576);
  }

  /** Different tenths counts print differently. */
  lemma TenthsInjective(m: nat, n: nat)
    requires Tenths(m) == Tenths(n)
    ensures m == n
  {
    var s, t := Tenths(m), Tenths(n);
    assert s[|s| - 1] == DigitChar(m % 10) && t[|t| - 1] == DigitChar(n % 10);
    assert s[..|s| - 2] == Decimal(m / 10);
    assert t[..|t| - 2] == Decimal(n / 10);
    DecimalInjective(m / 10, n / 10);
  }

  /**
   * Dividing a whole byte count exactly by an even unit d and rounding to
   * tenths half up is integer arithmetic: floor((10 b + d / 2) / d).
   */
  lemma ExactTenths(b: nat, d: nat)
    requires d > 0 && d % 2 == 0
    ensures RoundTenths(b as real / d as real) == (10 * b + d / 2) / d
  {
    var x, dr := b as real / d as real, d as real;
    var q := (10 * b + d / 2) / d;
    assert q * d <= 10 * b + d / 2 < q * d + d;
    var y := 10.0 * x + 0.5;
    assert y * dr == (10 * b + d / 2) as real by {
      assert x * dr == b as real;
      assert (d / 2) as real == dr / 2.0;
    }
    ScaledBounds(q, y, d);
  }

  /** If q d <= y d < (q + 1) d for a positive d, then q <= y < q + 1. */
  lemma ScaledBounds(q: int, y: real, d: nat)
    requires d > 0
    requires (q * d) as real <= y * d as real < (q * d + d) as real
    ensures q as real <= y < q as real + 1.0
  {
    var dr := d as real;
    assert (q * d) as real == q as real * dr;
    assert (q * d + d) as real == (q as real + 1.0) * dr;
    if y < q as real {
      MultiplyStrict(y, q as real, dr);
    }
    if y >= q as real + 1.0 {
      MultiplyMono(q as real + 1.0, y, dr);
    }
  }

  lemma MultiplyStrict(a: real, c: real, d: real)
    requires d > 0.0 && a < c
    ensures a * d < c * d
  {
  }

  lemma MultiplyMono(a: real, c: real, d: real)
    requires d > 0.0 && a <= c
    ensures a * d <= c * d
  {
  }

  /** Below 1024 the label is the count itself: its digits read back to b. */
  lemma BytesLabel(b: nat)
    requires b < 1024
    ensures var s := FormatFileSize(b);
      s[|s| - 6..] == " bytes" && AllDigits(s[..|s| - 6]) && DecimalValue(s[..|s| - 6]) == b
  {
    var s := FormatFileSize(b);
    assert s[..|s| - 6] == Decimal(b);
    DecimalRoundTrip(b);
  }

  /** One kibibyte is "1.0 KB" and 1.25 KiB, a tie, rounds up to "1.3 KB". */
  lemma KilobyteExamples()
    ensures FormatFileSize(1024) == "1.0 KB"
    ensures FormatFileSize(1280) == "1.3 KB"
  {
    assert (10 * 1024 + 512) / 1024 == 10;
    assert Tenths(10) == "1.0";
    assert (10 * 1280 + 512) / 1024 == 13;
    assert Tenths(13) == "1.3";
  }

  /** The bytes range ends just below 1024. */
  lemma BytesExamples()
    ensures FormatFileSize(0) == "0 bytes"
    ensures FormatFileSize(1023) == "1023 bytes"
  {
    assert Decimal(1023) == "1023" by {
      assert Decimal(102) == "102" by { assert Decimal(10) == "10"; }
    }
  }

  lemma Decimal1024()
    ensures Decimal(1024) == "1024"
  {
    assert Decimal(102) == "102" by { assert Decimal(10) == "10"; }
  }

  /** A kibibyte label reads "1024.0 KB" only for 10240 tenths, and is never an MB label. */
  lemma KilobyteLabel(n: nat)
    ensures Tenths(n) + " KB" == "1024.0 KB" <==> n == 10240
    ensures Tenths(n) + " KB" != "1.0 MB"
  {
    var s := Tenths(n) + " KB";
    Decimal1024();
    assert Tenths(10240) == "1024.0";
    if s == "1024.0 KB" {
      assert Tenths(n) == s[..|s| - 3];
      TenthsInjective(n, 10240);
    }
    assert s[|s| - 2] == 'K';
  }

  /**
   * The top of the kibibyte range rounds to 1024.0 KB: within that range the
   * label is "1024.0 KB" exactly when b >= 1048525, and it is never "1.0 MB".
   */
  lemma KilobyteCeiling(b: nat)
    requires 1024 <= b < 1048576
    ensures FormatFileSize(b) == "1024.0 KB" <==> b >= 1048525
    ensures FormatFileSize(b) != "1.0 MB"
  {
    var n := (10 * b + 512) / 1024;
    assert n == 10240 <==> b >= 1048525;
    KilobyteLabel(n);
  }

  /** "1.0 MB" covers exactly the counts from 1048576 to 1101004. */
  lemma OneMegabyte(b: nat)
    requires b >= 1048576
    ensures FormatFileSize(b) == "1.0 MB" <==> b <= 1101004
  {
    var n := (10 * b + 524288) / 1048576;
    assert Tenths(10) == "1.0";
    var s := FormatFileSize(b);
    if s == "1.0 MB" {
      assert Tenths(n) == s[..|s| - 3];
      TenthsInjective(n, 10);
    }
  }
}
