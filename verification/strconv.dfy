/** Go's decimal conversions on a 64-bit platform: `strconv.Atoi` with its
    error discarded (as every caller in the updater does) and `%d`. Go's `int`
    is 64 bits wide, so out-of-range text is clamped, as `strconv` does. */
module Strconv {
  import opened Strings

  const MaxInt64: int := 0x7fff_ffff_ffff_ffff
  const MinInt64: int := -0x8000_0000_0000_0000
  const MaxUint64: int := 0xffff_ffff_ffff_ffff

  /** The value of one decimal digit. */
  function DigitValue(c: char): nat
    requires IsDigit(c)
  {
    c as int - '0' as int
  }

  /** The digit spelling a value below ten. */
  function DigitChar(d: nat): (c: char)
    requires d < 10
    ensures IsDigit(c) && DigitValue(c) == d
  {
    ('0' as int + d) as char
  }

  /** The value of a string of decimal digits (0 for the empty string). */
  function DecimalValue(ds: string): nat
    requires forall i :: 0 <= i < |ds| ==> IsDigit(ds[i])
  {
    if |ds| == 0 then 0 else DecimalValue(ds[..|ds| - 1]) * 10 + DigitValue(ds[|ds| - 1])
  }

  /** Length of the longest all-digit prefix of `s`. */
  function DigitPrefixLength(s: string): (n: nat)
    ensures n <= |s|
    ensures forall i :: 0 <= i < n ==> IsDigit(s[i])
    ensures n == |s| || !IsDigit(s[n])
  {
    if |s| > 0 && IsDigit(s[0]) then 1 + DigitPrefixLength(s[1..]) else 0
  }

  /** Saturation into Go's 64-bit `int`, as `strconv.ParseInt` does on a
      range error. */
  function Clamp64(v: int): (r: int)
    ensures MinInt64 <= r <= MaxInt64
    ensures MinInt64 <= v <= MaxInt64 ==> r == v
  {
    if v > MaxInt64 then MaxInt64 else if v < MinInt64 then MinInt64 else v
  }

  /** `n, _ := strconv.Atoi(s)`: an optional sign and decimal digits; any
      other text gives 0 (the syntax error is discarded), except that a digit
      run already beyond the unsigned 64-bit range reports a range error
      (saturated value) before the parser reaches the offending character. */
  function Atoi(s: string): (n: int)
    ensures MinInt64 <= n <= MaxInt64
    ensures IsDigits(s) ==> n == Clamp64(DecimalValue(s))
  {
    var signed := |s| > 0 && (s[0] == '-' || s[0] == '+');
    var body := if signed then s[1..] else s;
    var negative := signed && s[0] == '-';
    var len := DigitPrefixLength(body);
    var magnitude: int := DecimalValue(body[..len]);
    assert IsDigits(s) ==> !signed && body[..len] == s;
    if len == 0 then 0
    else if len == |body| || magnitude > MaxUint64 then
      Clamp64(if negative then -magnitude else magnitude)
    else 0
  }

  /** `fmt.Sprintf("%d", n)` for a non-negative `n`: no leading zeros. */
  function FormatNat(n: nat): (s: string)
    ensures IsDigits(s)
    ensures DecimalValue(s) == n
    ensures s[0] != '0' || s == "0"
  {
    if n < 10 then [DigitChar(n)]
    else
      var init := FormatNat(n / 10);
      var s := init + [DigitChar(n % 10)];
      assert s[..|s| - 1] == init;
      s
  }

  /** `fmt.Sprintf("%d", n)`. */
  function Itoa(n: int): string {
    if n < 0 then "-" + FormatNat(-n) else FormatNat(n)
  }

  /** A canonical decimal spelling: digits without a redundant leading zero. */
  predicate IsCanonicalDecimal(ds: string) {
    IsDigits(ds) && (ds[0] != '0' || |ds| == 1)
  }

  /** A digit string with a non-zero leading digit has a positive value. */
  lemma {:induction false} LeadingNonZeroPositive(ds: string)
    requires IsDigits(ds) && ds[0] != '0'
    ensures DecimalValue(ds) > 0
    decreases |ds|
  {
    if |ds| > 1 {
      LeadingNonZeroPositive(ds[..|ds| - 1]);
    }
  }

  /** Dividing by ten strips the last decimal digit. */
  lemma DivModTen(x: nat, d: nat)
    requires d < 10
    ensures (x * 10 + d) / 10 == x && (x * 10 + d) % 10 == d
  {
  }

  /** Printing the value of a canonical digit string gives it back. */
  lemma {:induction false} FormatDecimalValue(ds: string)
    requires IsCanonicalDecimal(ds)
    ensures FormatNat(DecimalValue(ds)) == ds
    decreases |ds|
  {
    if |ds| > 1 {
      var init := ds[..|ds| - 1];
      var last := ds[|ds| - 1];
      LeadingNonZeroPositive(init);
      FormatDecimalValue(init);
      var x := DecimalValue(init);
      var v := DecimalValue(ds);
      assert v == x * 10 + DigitValue(last);
      DivModTen(x, DigitValue(last));
      assert FormatNat(v) == FormatNat(x) + [DigitChar(DigitValue(last))];
      assert DigitChar(DigitValue(last)) == last;
      assert init + [last] == ds;
    } else {
      assert DigitChar(DigitValue(ds[0])) == ds[0];
    }
  }

  /** `strconv.Atoi` reads back what `%d` printed, for every 64-bit `int`. */
  lemma AtoiItoa(n: int)
    requires MinInt64 <= n <= MaxInt64
    ensures Atoi(Itoa(n)) == n
  {
    var s := Itoa(n);
    if n < 0 {
      var digits := FormatNat(-n);
      assert s[1..] == digits;
      assert DigitPrefixLength(digits) == |digits|;
      assert digits[..|digits|] == digits;
    } else {
      assert DigitPrefixLength(s) == |s|;
      assert s[..|s|] == s;
    }
  }

  /** The digit prefix of `ds ++ rest` is `ds` when `rest` starts with a
      non-digit. */
  lemma {:induction false} DigitPrefixOfConcat(ds: string, rest: string)
    requires forall i :: 0 <= i < |ds| ==> IsDigit(ds[i])
    requires |rest| > 0 && !IsDigit(rest[0])
    ensures DigitPrefixLength(ds + rest) == |ds|
    decreases |ds|
  {
    if |ds| > 0 {
      assert (ds + rest)[1..] == ds[1..] + rest;
      DigitPrefixOfConcat(ds[1..], rest);
    } else {
      assert ds + rest == rest;
    }
  }

  /** A number followed by other text (`3-beta`) reads as 0: the syntax
      error is discarded, unless the digits alone already overflow. */
  lemma AtoiTrailingText(ds: string, rest: string)
    requires IsDigits(ds) && DecimalValue(ds) <= MaxUint64
    requires |rest| > 0 && !IsDigit(rest[0])
    ensures Atoi(ds + rest) == 0
  {
    DigitPrefixOfConcat(ds, rest);
    assert (ds + rest)[..|ds|] == ds;
  }
}
