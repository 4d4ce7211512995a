/** Python's integer formatting with a zero-padded width (`f'{n:03}'`, `f'{n:05}'`):
    sign-aware zero padding to a minimum width, never truncating. */
module PyFormat {

  predicate IsDigit(c: char)
  {
    '0' <= c <= '9'
  }

  function DigitChar(d: nat): (c: char)
    requires d < 10
    ensures IsDigit(c) && c as int - '0' as int == d
  {
    (d + '0' as int) as char
  }

  /** The decimal digits of `n`, most significant first, without leading zeros (`str(n)`). */
  function Decimal(n: nat): (s: string)
    ensures |s| > 0 && (|s| > 1 ==> s[0] != '0')
    ensures forall k :: 0 <= k < |s| ==> IsDigit(s[k])
    decreases n
  {
    if n < 10 then [DigitChar(n)] else Decimal(n / 10) + [DigitChar(n % 10)]
  }

  function Zeros(k: nat): (s: string)
    ensures |s| == k && forall i :: 0 <= i < k ==> s[i] == '0'
  {
    seq(k, _ => '0')
  }

  function Abs(n: int): nat
  {
    if n < 0 then -n else n
  }

  /** `format(n, '0' + str(width))`: an optional '-', then zeros, then the digits of |n|,
      the zeros filling the text up to `width` characters when it is shorter. */
  function ZeroPadded(n: int, width: nat): (s: string)
    ensures |s| == if width <= |Decimal(Abs(n))| + (if n < 0 then 1 else 0) then
                     |Decimal(Abs(n))| + (if n < 0 then 1 else 0)
                   else width
    ensures s[|s| - |Decimal(Abs(n))|..] == Decimal(Abs(n))
    ensures forall k :: 0 <= k < |s| ==> IsDigit(s[k]) || (k == 0 && n < 0 && s[k] == '-')
  {
    var sign := if n < 0 then "-" else "";
    var digits := Decimal(Abs(n));
    var fill := if |sign| + |digits| < width then width - |sign| - |digits| else 0;
    sign + Zeros(fill) + digits
  }

  /** The value of a string of decimal digits (`int(s)` for digit strings). */
  function DigitsValue(s: string): nat
    requires forall k :: 0 <= k < |s| ==> IsDigit(s[k])
    decreases |s|
  {
    if s == [] then 0
    else
      var last := s[|s| - 1];
      assert IsDigit(last);
      10 * DigitsValue(s[..|s| - 1]) + (last as int - '0' as int)
  }

  /** `int(s)` for an optional '-' followed by decimal digits. */
  function ParseInt(s: string): int
    requires forall k :: 0 <= k < |s| ==> IsDigit(s[k]) || (k == 0 && s[k] == '-')
  {
    if |s| > 0 && s[0] == '-' then -(DigitsValue(s[1..]) as int) else DigitsValue(s)
  }

  lemma {:induction false} DecimalValue(n: nat)
    ensures DigitsValue(Decimal(n)) == n
    decreases n
  {
    if n >= 10 {
      DecimalValue(n / 10);
      var s := Decimal(n);
      assert s[..|s| - 1] == Decimal(n / 10);
    }
  }

  lemma {:induction false} LeadingZerosValue(k: nat, s: string)
    requires forall i :: 0 <= i < |s| ==> IsDigit(s[i])
    ensures DigitsValue(Zeros(k) + s) == DigitsValue(s)
    decreases |s|
  {
    var t := Zeros(k) + s;
    if s == [] {
      assert t == Zeros(k);
      ZerosValue(k);
    } else {
      assert t[..|t| - 1] == Zeros(k) + s[..|s| - 1];
      LeadingZerosValue(k, s[..|s| - 1]);
    }
  }

  lemma {:induction false} ZerosValue(k: nat)
    ensures DigitsValue(Zeros(k)) == 0
    decreases k
  {
    if k > 0 {
      assert Zeros(k)[..k - 1] == Zeros(k - 1);
      ZerosValue(k - 1);
    }
  }

  /** Zero padding loses nothing: reading the padded text back gives the number. */
  lemma ZeroPaddedRoundTrip(n: int, width: nat)
    ensures ParseInt(ZeroPadded(n, width)) == n
  {
    var digits := Decimal(Abs(n));
    var sign := if n < 0 then "-" else "";
    var fill := if |sign| + |digits| < width then width - |sign| - |digits| else 0;
    var s := ZeroPadded(n, width);
    assert s == sign + (Zeros(fill) + digits);
    DecimalValue(Abs(n));
    LeadingZerosValue(fill, digits);
    if n < 0 {
      assert s[1..] == Zeros(fill) + digits;
    } else {
      assert s == Zeros(fill) + digits;
      if fill > 0 {
        assert s[0] == '0';
      }
    }
  }

  /** Two numbers padded to the same width give the same text only if they are equal. */
  lemma ZeroPaddedInjective(m: int, n: int, width: nat)
    requires ZeroPadded(m, width) == ZeroPadded(n, width)
    ensures m == n
  {
    ZeroPaddedRoundTrip(m, width);
    ZeroPaddedRoundTrip(n, width);
  }
}
