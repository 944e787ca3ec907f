/** Java's 64-bit integers and their decimal text: `Long.toString`, `Long.parseLong`
    and the wrap-around of `long` multiplication. */
module JavaNumbers {
  import opened Outcomes

  const INT64_MIN := -0x8000_0000_0000_0000
  const INT64_MAX := 0x7fff_ffff_ffff_ffff
  const INT32_MIN := -0x8000_0000
  const INT32_MAX := 0x7fff_ffff

  predicate InInt64(n: int) { INT64_MIN <= n <= INT64_MAX }
  predicate InInt32(n: int) { INT32_MIN <= n <= INT32_MAX }

  /** The `long` a Java multiplication or addition yields: the true value reduced
      into the 64-bit two's-complement range. */
  function Wrap64(n: int): (r: int)
    ensures InInt64(r)
    ensures (n - r) % 0x1_0000_0000_0000_0000 == 0
    ensures InInt64(n) ==> r == n
  {
    (n - INT64_MIN) % 0x1_0000_0000_0000_0000 + INT64_MIN
  }

  predicate IsDigit(c: char) { '0' <= c <= '9' }

  predicate AllDigits(s: string) { forall i :: 0 <= i < |s| ==> IsDigit(s[i]) }

  function DigitChar(d: nat): (c: char)
    requires d < 10
    ensures IsDigit(c)
  {
    ('0' as int + d) as char
  }

  /** The decimal digits of a non-negative number, without leading zeros. */
  function Digits(n: nat): (s: string)
    ensures |s| >= 1 && AllDigits(s)
    ensures |s| > 1 ==> s[0] != '0'
  {
    if n < 10 then [DigitChar(n)] else Digits(n / 10) + [DigitChar(n % 10)]
  }

  /** `Long.toString` / `Integer.toString`: a minus sign for negatives, then the digits. */
  function DecimalText(n: int): (r: string) {
    if n < 0 then "-" + Digits(-n) else Digits(n)
  }

  /** The number a string of decimal digits denotes (leading zeros allowed). */
  function DigitsValue(s: string): (r: nat)
    requires AllDigits(s)
  {
    if |s| == 0 then 0
    else DigitsValue(s[..|s| - 1]) * 10 + (s[|s| - 1] as int - '0' as int)
  }

  /** `Long.parseLong(s)`: an optional `-` or `+`, then at least one decimal digit,
      and the value must fit a `long`; `None` is the NumberFormatException. */
  function ParseLong(s: string): (r: Option<int>)
    ensures r.Some? ==> InInt64(r.value)
    ensures r.Some? ==> |s| >= 1 && (IsDigit(s[0]) || s[0] == '-' || s[0] == '+')
  {
    if |s| == 0 then None
    else
      var digits := if s[0] == '-' || s[0] == '+' then s[1..] else s;
      if |digits| == 0 || !AllDigits(digits) then None
      else
        var v: int := if s[0] == '-' then -(DigitsValue(digits) as int) else DigitsValue(digits);
        if InInt64(v) then Some(v) else None
  }

  lemma {:induction false} DigitsValueOfDigits(n: nat)
    ensures DigitsValue(Digits(n)) == n
  {
    if n >= 10 {
      var s := Digits(n);
      DigitsValueOfDigits(n / 10);
      assert s[..|s| - 1] == Digits(n / 10);
    }
  }

  /** `Long.parseLong` reads back exactly what `Long.toString` wrote. */
  lemma ParseLongDecimalText(n: int)
    requires InInt64(n)
    ensures ParseLong(DecimalText(n)) == Some(n)
  {
    var text := DecimalText(n);
    if n < 0 {
      var d := Digits(-n);
      DigitsValueOfDigits(-n);
      assert text[0] == '-' && text[1..] == d;
      assert ParseLong(text) == Some(-(DigitsValue(d) as int));
    } else {
      DigitsValueOfDigits(n);
      assert IsDigit(text[0]);
      assert ParseLong(text) == Some(DigitsValue(text));
    }
  }

  function Pow10(k: nat): (p: nat)
    ensures p >= 1
  {
    if k == 0 then 1 else 10 * Pow10(k - 1)
  }

  /** The last `width` decimal digits of `n`, zero-padded on the left. */
  function ZeroPad(n: nat, width: nat): (s: string)
    requires n < Pow10(width)
    ensures |s| == width && AllDigits(s)
  {
    if width == 0 then [] else ZeroPad(n / 10, width - 1) + [DigitChar(n % 10)]
  }

  lemma {:induction false} DigitsValueZeroPad(n: nat, width: nat)
    requires n < Pow10(width)
    ensures DigitsValue(ZeroPad(n, width)) == n
  {
    if width > 0 {
      var s := ZeroPad(n, width);
      DigitsValueZeroPad(n / 10, width - 1);
      assert s[..|s| - 1] == ZeroPad(n / 10, width - 1);
    }
  }
}
