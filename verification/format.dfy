/**
 * The number formatting `hexdump` relies on: `str(n)` for the offset width,
 * the `{:0w}` format for the zero-padded offset, and `{:02X}` for each byte;
 * each paired with the reading that inverts it.
 */
module Format {
  import opened Common

  predicate IsDigit(c: char) {
    '0' <= c <= '9'
  }

  predicate AllDigits(s: string) {
    forall i | 0 <= i < |s| :: IsDigit(s[i])
  }

  function DigitChar(d: int): char
    requires 0 <= d < 10
  {
    ('0' as int + d) as char
  }

  function DigitValue(c: char): nat
    requires IsDigit(c)
  {
    c as int - '0' as int
  }

  /** `str(n)` for a non-negative integer: decimal digits, most significant first, no leading zero. */
  function Decimal(n: nat): (s: string)
    ensures 1 <= |s| && AllDigits(s)
    ensures s[0] == '0' ==> n == 0 && s == "0"
  {
    if n < 10 then [DigitChar(n)] else Decimal(n / 10) + [DigitChar(n % 10)]
  }

  /** The number a string of decimal digits denotes; leading zeros add nothing. */
  function DecimalValue(s: string): nat
    requires AllDigits(s)
  {
    if s == [] then 0 else DecimalValue(s[..|s| - 1]) * 10 + DigitValue(s[|s| - 1])
  }

  /** Reading `str(n)` back gives `n`. */
  lemma {:induction false} DecimalRoundTrip(n: nat)
    ensures DecimalValue(Decimal(n)) == n
  {
    if n >= 10 {
      DecimalRoundTrip(n / 10);
      var s := Decimal(n);
      assert s[..|s| - 1] == Decimal(n / 10);
    }
  }

  /** A larger number never has fewer digits. */
  lemma {:induction false} DecimalLengthMonotone(a: nat, b: nat)
    requires a <= b
    ensures |Decimal(a)| <= |Decimal(b)|
  {
    if a >= 10 {
      DecimalLengthMonotone(a / 10, b / 10);
    }
  }

  /** Every number up to `n` fits in as many digits as `n` has. */
  lemma DecimalFits(n: nat)
    ensures forall i: nat | i <= n :: |Decimal(i)| <= |Decimal(n)|
  {
    forall i: nat | i <= n ensures |Decimal(i)| <= |Decimal(n)| {
      DecimalLengthMonotone(i, n);
    }
  }

  /** Leading zeros do not change the value of a digit string. */
  lemma {:induction false} LeadingZeros(k: nat, s: string)
    requires AllDigits(s)
    ensures AllDigits(Repeat('0', k) + s)
    ensures DecimalValue(Repeat('0', k) + s) == DecimalValue(s)
  {
    var z := Repeat('0', k);
    if s == [] {
      assert z + s == z;
      ZerosValue(k);
    } else {
      LeadingZeros(k, s[..|s| - 1]);
      assert (z + s)[..|z + s| - 1] == z + s[..|s| - 1];
    }
  }

  lemma {:induction false} ZerosValue(k: nat)
    ensures AllDigits(Repeat('0', k))
    ensures DecimalValue(Repeat('0', k)) == 0
  {
    if k > 0 {
      ZerosValue(k - 1);
      assert Repeat('0', k)[..k - 1] == Repeat('0', k - 1);
    }
  }

  /**
   * `format(n, "0w")`: `n` in decimal, padded on the left with zeros to at
   * least `w` characters; never truncated, and read back as `n`.
   */
  function ZeroPad(n: nat, w: nat): (s: string)
    ensures |s| == Max(w, |Decimal(n)|)
    ensures AllDigits(s) && DecimalValue(s) == n
  {
    var digits := Decimal(n);
    var pad := if |digits| < w then w - |digits| else 0;
    LeadingZeros(pad, digits);
    DecimalRoundTrip(n);
    Repeat('0', pad) + digits
  }

  /** The digits `{:X}` uses: upper case. */
  const HexDigits: string := "0123456789ABCDEF"

  predicate IsHexDigit(c: char) {
    '0' <= c <= '9' || 'A' <= c <= 'F'
  }

  function HexDigitValue(c: char): nat
    requires IsHexDigit(c)
  {
    if c <= '9' then c as int - '0' as int else c as int - 'A' as int + 10
  }

  lemma HexDigitsRun(d: int)
    requires 0 <= d < 16
    ensures IsHexDigit(HexDigits[d]) && HexDigitValue(HexDigits[d]) == d
  {
  }

  /**
   * `f"{b:02X}"`: exactly two upper-case hexadecimal digits, high nibble
   * first, that read back as `b`.
   */
  function Hex2(b: Byte): (s: string)
    ensures |s| == 2 && IsHexDigit(s[0]) && IsHexDigit(s[1])
    ensures HexDigitValue(s[0]) * 16 + HexDigitValue(s[1]) == b
  {
    HexDigitsRun(b / 16);
    HexDigitsRun(b % 16);
    [HexDigits[b / 16], HexDigits[b % 16]]
  }

  /** Reads a two-digit upper-case hexadecimal token, the inverse of `Hex2`. */
  function ParseHex2(s: string): (r: Option<Byte>)
    ensures r.Some? <==> |s| == 2 && IsHexDigit(s[0]) && IsHexDigit(s[1])
  {
    if |s| == 2 && IsHexDigit(s[0]) && IsHexDigit(s[1]) then
      Some(HexDigitValue(s[0]) * 16 + HexDigitValue(s[1]))
    else None
  }

  /** Every byte's token reads back as that byte, so no two bytes share a token. */
  lemma Hex2RoundTrip(b: Byte)
    ensures ParseHex2(Hex2(b)) == Some(b)
  {
  }
}
