/** Character-level models of the PHP 8 built-ins that the page's masking
    and error formatting rely on: `substr`, `str_repeat`, the conversion of
    an integer by `sprintf('%s', ...)`, and the two accessors of a
    `Throwable` that the page reads.

    PHP strings are byte strings and `strlen`/`substr` count bytes. Here a
    string is a `seq<char>` and every count is a count of characters; for the
    ASCII secrets the page masks the two agree, but the mask character
    U+2022 is one character here and three bytes in PHP. */
module Php {

  /** An exception as the page observes it: `getMessage()` and `getCode()`. */
  datatype Throwable = Throwable(message: string, code: int)

  datatype Option<+T> = None | Some(value: T)

  /** A call that returns a value or throws. */
  datatype Result<+T> = Ok(value: T) | Err(error: Throwable)

  function Min(a: int, b: int): (m: int)
    ensures m <= a && m <= b && (m == a || m == b)
  {
    if a <= b then a else b
  }

  function Max(a: int, b: int): (m: int)
    ensures a <= m && b <= m && (m == a || m == b)
  {
    if a <= b then b else a
  }

  /** `substr($s, $offset, $length)` with an integer `$length`, as PHP 8
      defines it: an offset past the end gives "", a negative offset counts
      from the end and is clamped to the start, a negative length leaves
      that many characters off the end, and a length running past the end
      is cut at the end. */
  function Substr(s: string, offset: int, length: int): (r: string)
    ensures |r| <= |s|
    ensures offset > |s| || length == 0 ==> r == []
  {
    var n := |s|;
    if offset > n then ""
    else
      var f := if offset >= 0 then offset else Max(0, n + offset);
      var l := if length < 0 then Max(0, n - f + length) else Min(length, n - f);
      s[f..f + l]
  }

  /** `substr($s, 0, $n)` for `$n >= 0` is the first `$n` characters, or all
      of `$s` when it is shorter. */
  lemma SubstrFromStart(s: string, n: int)
    requires n >= 0
    ensures Substr(s, 0, n) == s[..Min(n, |s|)]
  {
  }

  /** `substr($s, -$n, $n)` for `$n > 0` is the last `$n` characters, or all
      of `$s` when it is shorter. */
  lemma SubstrLast(s: string, n: int)
    requires n > 0
    ensures Substr(s, -n, n) == s[|s| - Min(n, |s|)..]
  {
  }

  /** `n` copies of `c`. */
  function Repeat(c: char, n: nat): (r: string)
    ensures |r| == n
    ensures forall i :: 0 <= i < n ==> r[i] == c
  {
    if n == 0 then [] else Repeat(c, n - 1) + [c]
  }

  /** What PHP 8 throws when `str_repeat` is given a negative count. */
  const StrRepeatTimesError: Throwable :=
    Throwable("str_repeat(): Argument #2 ($times) must be greater than or equal to 0", 0)

  /** `str_repeat($c, $times)` for a one-character `$c`: a negative count
      throws a `ValueError` in PHP 8. */
  function StrRepeat(c: char, times: int): (r: Result<string>)
    ensures r.Ok? <==> times >= 0
    ensures r.Err? ==> r.error == StrRepeatTimesError
    ensures r.Ok? ==> |r.value| == times && forall i :: 0 <= i < times ==> r.value[i] == c
  {
    if times < 0 then Err(StrRepeatTimesError) else Ok(Repeat(c, times))
  }

  predicate IsDigit(c: char) { '0' <= c <= '9' }

  predicate AllDigits(s: string) { forall i :: 0 <= i < |s| ==> IsDigit(s[i]) }

  /** Decimal digits as PHP writes them: at least one, and no leading zero
      unless the number is zero itself. */
  predicate Canonical(s: string) { |s| > 0 && AllDigits(s) && (s[0] == '0' ==> |s| == 1) }

  function DigitChar(d: nat): (c: char)
    requires d < 10
    ensures IsDigit(c)
  {
    (('0' as int) + d) as char
  }

  function DigitValue(c: char): (d: nat)
    requires IsDigit(c)
    ensures d < 10 && DigitChar(d) == c
  {
    (c as int) - ('0' as int)
  }

  /** The decimal digits of `n`, most significant first, without leading zeros. */
  function NatToDecimal(n: nat): (r: string)
    ensures Canonical(r)
    ensures r[0] == '0' <==> n == 0
    ensures n < 10 <==> |r| == 1
  {
    if n < 10 then [DigitChar(n)] else NatToDecimal(n / 10) + [DigitChar(n % 10)]
  }

  /** The number a string of decimal digits denotes. */
  function DecimalToNat(s: string): (n: nat)
    requires AllDigits(s)
  {
    if s == [] then 0 else DecimalToNat(s[..|s| - 1]) * 10 + DigitValue(s[|s| - 1])
  }

  lemma {:induction false} DecimalRoundTrip(n: nat)
    ensures DecimalToNat(NatToDecimal(n)) == n
  {
    if n >= 10 {
      var s := NatToDecimal(n);
      assert s[..|s| - 1] == NatToDecimal(n / 10);
      DecimalRoundTrip(n / 10);
    }
  }

  /** An integer as `sprintf('%s', $i)` writes it: a minus sign for a
      negative value, then the decimal digits of its magnitude. */
  function IntToString(i: int): (r: string)
    ensures |r| > 0
    ensures r[0] == '-' <==> i < 0
    ensures i >= 0 ==> Canonical(r)
    ensures i < 0 ==> |r| > 1 && Canonical(r[1..]) && r[1] != '0' 
  {
    if i < 0 then "-" + NatToDecimal(-i) else NatToDecimal(i)
  }

  /** Reads back an optional minus sign followed by decimal digits. */
  function ParseInt(s: string): (i: Option<int>)
  {
    if |s| > 0 && s[0] == '-' then
      if |s| > 1 && AllDigits(s[1..]) then Some(0 - DecimalToNat(s[1..]) as int) else None
    else if |s| > 0 && AllDigits(s) then Some(DecimalToNat(s))
    else None
  }

  /** `IntToString` loses nothing: every integer is read back. */
  lemma {:induction false} IntRoundTrip(i: int)
    ensures ParseInt(IntToString(i)) == Some(i)
  {
    if i < 0 {
      var digits := NatToDecimal(-i);
      var s := "-" + digits;
      assert s == IntToString(i);
      assert s[0] == '-' && s[1..] == digits;
      DecimalRoundTrip(-i);
      assert ParseInt(s) == Some(0 - DecimalToNat(digits) as int);
    } else {
      DecimalRoundTrip(i);
    }
  }
}
