/**
 * `ByteConversionGBMBKB`: the label the data-table inspector shows for a
 * file size, picking the largest unit of which the size holds at least one.
 */
module ByteSizes {

  const GB: int := 1024 * 1024 * 1024
  const MB: int := 1024 * 1024
  const KB: int := 1024

  /** C#'s integer `/`: the quotient truncated toward zero. */
  function Quot(a: int, b: int): int
    requires b > 0
  {
    if a >= 0 then a / b else -((-a) / b)
  }

  /** For a positive divisor, the truncated quotient is at least 1 exactly when the dividend reaches the divisor. */
  lemma QuotAtLeastOne(a: int, b: int)
    requires b > 0
    ensures Quot(a, b) >= 1 <==> a >= b
  {
    if a >= b {
      assert a / b >= 1;
    } else if a >= 0 {
      assert a / b == 0;
    }
  }

  /**
   * The label: a unit with the exact quotient of the size by the unit (the
   * inspector rounds it as a `float` to two decimals before printing), or the
   * exact count of bytes.
   */
  datatype SizeLabel =
    | Scaled(quotient: real, suffix: string)
    | Exact(text: string)

  /** The character of one decimal digit. */
  function DigitChar(d: nat): (c: char)
    requires d < 10
    ensures '0' <= c <= '9' && (c - '0') as nat == d
  {
    ('0' as int + d) as char
  }

  /** The decimal digits of `n`, most significant first, with no leading zero. */
  function Digits(n: nat): (s: string)
    ensures |s| >= 1
    ensures forall i :: 0 <= i < |s| ==> '0' <= s[i] <= '9'
    ensures s[0] == '0' ==> n == 0
  {
    if n < 10 then [DigitChar(n)] else Digits(n / 10) + [DigitChar(n % 10)]
  }

  /** `long.ToString()`: a minus sign before the digits of a negative number. */
  function DecimalText(n: int): string {
    if n < 0 then "-" + Digits(-n) else Digits(n)
  }

  /** Reading the digits back, left to right. */
  function ParseDigits(s: string): nat
    requires forall i :: 0 <= i < |s| ==> '0' <= s[i] <= '9'
  {
    if s == [] then 0 else 10 * ParseDigits(s[..|s| - 1]) + (s[|s| - 1] - '0') as nat
  }

  /** Reading a decimal text back. */
  function ParseDecimal(s: string): int
    requires s != []
    requires s[0] == '-' ==> forall i :: 1 <= i < |s| ==> '0' <= s[i] <= '9'
    requires s[0] != '-' ==> forall i :: 0 <= i < |s| ==> '0' <= s[i] <= '9'
  {
    if s[0] == '-' then -(ParseDigits(s[1..]) as int) else ParseDigits(s)
  }

  lemma {:induction false} DigitsRoundTrip(n: nat)
    ensures ParseDigits(Digits(n)) == n
  {
    var s := Digits(n);
    if n >= 10 {
      var init, last := Digits(n / 10), DigitChar(n % 10);
      assert s == init + [last];
      assert s[..|s| - 1] == init && s[|s| - 1] == last;
      DigitsRoundTrip(n / 10);
      assert ParseDigits(s) == 10 * (n / 10) + n % 10;
    } else {
      assert s == [DigitChar(n)] && s[..0] == [];
    }
  }

  /** The printed integer reads back as the size itself. */
  lemma DecimalRoundTrip(n: int)
    ensures ParseDecimal(DecimalText(n)) == n
  {
    var s := DecimalText(n);
    if n < 0 {
      var d := Digits(-n);
      assert s == "-" + d && s[1..] == d;
      DigitsRoundTrip(-n);
    } else {
      assert '0' <= s[0] <= '9';
      DigitsRoundTrip(n);
    }
  }

  /**
   * `ByteConversionGBMBKB(kSize)`: GB, MB or KB by truncated integer
   * division, tried largest first; otherwise the exact size and "Byte".
   */
  function ByteConversionGBMBKB(kSize: int): (r: SizeLabel)
    ensures r == Scaled(kSize as real / GB as real, "GB") <==> kSize >= GB
    ensures r == Scaled(kSize as real / MB as real, "MB") <==> MB <= kSize < GB
    ensures r == Scaled(kSize as real / KB as real, "KB") <==> KB <= kSize < MB
    ensures r == Exact(DecimalText(kSize) + "Byte") <==> kSize < KB
  {
    QuotAtLeastOne(kSize, GB);
    QuotAtLeastOne(kSize, MB);
    QuotAtLeastOne(kSize, KB);
    if Quot(kSize, GB) >= 1 then
      Scaled(kSize as real / GB as real, "GB")
    else if Quot(kSize, MB) >= 1 then
      Scaled(kSize as real / MB as real, "MB")
    else if Quot(kSize, KB) >= 1 then
      Scaled(kSize as real / KB as real, "KB")
    else
      Exact(DecimalText(kSize) + "Byte")
  }

  /** A size below one KB, zero and negative ones included, prints as an integer that reads back as the size. */
  lemma SmallSizeExact(kSize: int)
    requires kSize < KB
    ensures var r := ByteConversionGBMBKB(kSize);
      && r.Exact? && |r.text| > 4 && r.text[|r.text| - 4..] == "Byte"
      && ParseDecimal(r.text[..|r.text| - 4]) == kSize
  {
    var r := ByteConversionGBMBKB(kSize);
    assert r.text[..|r.text| - 4] == DecimalText(kSize);
    DecimalRoundTrip(kSize);
  }

  lemma MulMonotonic(a: real, b: real, u: real)
    requires u > 0.0 && a >= b
    ensures a * u >= b * u
  {
    assert a * u - b * u == (a - b) * u;
  }

  /** A size of at least one unit is at least 1 of that unit, and below 1024 of them while it is below 1024 units. */
  lemma RatioBounds(k: real, u: real)
    requires 0.0 < u <= k
    ensures 1.0 <= k / u
    ensures k < 1024.0 * u ==> k / u < 1024.0
  {
    var q := k / u;
    assert q * u == k;
    if q >= 1024.0 {
      MulMonotonic(q, 1024.0, u);
    }
  }

  /**
   * The unit is the largest one the size reaches: the exact quotient, before
   * any rounding, is at least 1, and below 1024 unless the unit is GB.
   */
  lemma ScaledInRange(kSize: int)
    requires ByteConversionGBMBKB(kSize).Scaled?
    ensures var r := ByteConversionGBMBKB(kSize);
      && 1.0 <= r.quotient
      && (r.suffix != "GB" ==> r.quotient < 1024.0)
  {
    var r := ByteConversionGBMBKB(kSize);
    if kSize >= GB {
      RatioBounds(kSize as real, GB as real);
    } else if kSize >= MB {
      RatioBounds(kSize as real, MB as real);
    } else {
      RatioBounds(kSize as real, KB as real);
    }
  }
}
