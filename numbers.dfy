/** Decimal integer parsing as Rust's `FromStr` does it for the fixed-width
    integer types (`str::parse::<i8>()`, `::<i16>()`, `::<u8>()`,
    `::<u16>()`), and the decimal rendering used to state round trips. */
module Numbers {
  import opened Wrappers

  type Int8 = x: int | -128 <= x <= 127
  type Int16 = x: int | -32768 <= x <= 32767
  type UInt8 = x: int | 0 <= x <= 255
  type UInt16 = x: int | 0 <= x <= 65535

  predicate IsDigit(c: char) {
    '0' <= c <= '9'
  }

  predicate AllDigits(s: string) {
    forall i :: 0 <= i < |s| ==> IsDigit(s[i])
  }

  /** The value of a string of decimal digits, or `None` when some
      character is not a digit; the empty string has value zero. */
  function DigitsValue(s: string): Option<nat> {
    if |s| == 0 then Some(0)
    else match DigitsValue(s[..|s| - 1])
      case None => None
      case Some(v) =>
        var c := s[|s| - 1];
        if IsDigit(c) then Some(10 * v + (c as int - '0' as int)) else None
  }

  /** Rust's radix-10 integer parsing for a type whose range is [lo, hi]:
      an optional `+` (or `-`, when the type is signed) and then one or more
      decimal digits whose value lies in the range. Leading zeros are
      allowed; a sign alone, or nothing at all, is rejected. */
  function ParseInt(s: string, lo: int, hi: int): (r: Option<int>)
    ensures r.Some? ==> lo <= r.value <= hi
  {
    if |s| == 0 || s == "+" || s == "-" then None
    else
      var negative := s[0] == '-' && lo < 0;
      var digits := if s[0] == '+' || negative then s[1..] else s;
      match DigitsValue(digits)
      case None => None
      case Some(n) =>
        var v: int := if negative then 0 - n as int else n;
        if lo <= v <= hi then Some(v) else None
  }

  /** `str::parse::<i8>()` */
  function ParseI8(s: string): Option<Int8> {
    match ParseInt(s, -128, 127)
    case None => None
    case Some(v) => Some(v)
  }

  /** `str::parse::<i16>()` */
  function ParseI16(s: string): Option<Int16> {
    match ParseInt(s, -32768, 32767)
    case None => None
    case Some(v) => Some(v)
  }

  /** `str::parse::<u8>()` */
  function ParseU8(s: string): Option<UInt8> {
    match ParseInt(s, 0, 255)
    case None => None
    case Some(v) => Some(v)
  }

  /** `str::parse::<u16>()` */
  function ParseU16(s: string): Option<UInt16> {
    match ParseInt(s, 0, 65535)
    case None => None
    case Some(v) => Some(v)
  }

  function DigitChar(d: nat): char
    requires d < 10
  {
    ('0' as int + d) as char
  }

  /** The decimal digits of `n`, without leading zeros. */
  function NatToString(n: nat): (r: string)
    ensures |r| >= 1 && AllDigits(r)
  {
    if n < 10 then [DigitChar(n)] else NatToString(n / 10) + [DigitChar(n % 10)]
  }

  /** The decimal rendering of `i`, with a `-` in front when negative. */
  function IntToString(i: int): (r: string)
    ensures |r| >= 1
    ensures forall j :: 0 <= j < |r| ==> r[j] == '-' || IsDigit(r[j])
  {
    if i < 0 then "-" + NatToString(-i) else NatToString(i)
  }

  lemma {:induction false} NatToStringValue(n: nat)
    ensures DigitsValue(NatToString(n)) == Some(n)
  {
    var s := NatToString(n);
    if n >= 10 {
      NatToStringValue(n / 10);
      assert s[..|s| - 1] == NatToString(n / 10);
    } else {
      assert s[..|s| - 1] == [];
    }
  }

  /** Every integer of a type's range reads back from its decimal rendering. */
  lemma {:induction false} ParseIntToString(i: int, lo: int, hi: int)
    requires lo <= i <= hi
    ensures ParseInt(IntToString(i), lo, hi) == Some(i)
  {
    var s := IntToString(i);
    if i < 0 {
      NatToStringValue(-i);
      assert s[1..] == NatToString(-i);
    } else {
      NatToStringValue(i);
    }
  }

  lemma {:induction false} ParseI8ToString(i: Int8)
    ensures ParseI8(IntToString(i)) == Some(i)
  {
    ParseIntToString(i, -128, 127);
  }

  lemma {:induction false} ParseI16ToString(i: Int16)
    ensures ParseI16(IntToString(i)) == Some(i)
  {
    ParseIntToString(i, -32768, 32767);
  }

  lemma {:induction false} ParseU8ToString(i: UInt8)
    ensures ParseU8(IntToString(i)) == Some(i)
  {
    ParseIntToString(i, 0, 255);
  }

  lemma {:induction false} ParseU16ToString(i: UInt16)
    ensures ParseU16(IntToString(i)) == Some(i)
  {
    ParseIntToString(i, 0, 65535);
  }

  /** A string with a value consists of digits only. */
  lemma {:induction false} DigitsValueDigits(s: string)
    requires DigitsValue(s).Some?
    ensures AllDigits(s)
  {
    if |s| > 0 {
      DigitsValueDigits(s[..|s| - 1]);
      assert forall i :: 0 <= i < |s| - 1 ==> s[i] == s[..|s| - 1][i];
    }
  }

  /** A text whose last character is not a digit is not a number. */
  lemma {:induction false} ParseIntNonDigitEnd(s: string, lo: int, hi: int)
    requires |s| > 0 && !IsDigit(s[|s| - 1])
    ensures ParseInt(s, lo, hi) == None
  {
    if |s| > 1 && (s[0] == '+' || s[0] == '-') {
      var digits := s[1..];
      assert digits[|digits| - 1] == s[|s| - 1];
    }
  }

  /** A text the unsigned parser accepts has no sign other than `+`, so a
      signed parser whose range holds the value accepts it with that value. */
  lemma {:induction false} UnsignedParsesSigned(s: string, hiU: int, lo: int, hi: int)
    requires lo < 0 && ParseInt(s, 0, hiU).Some? && ParseInt(s, 0, hiU).value <= hi
    ensures ParseInt(s, lo, hi) == ParseInt(s, 0, hiU)
  {
    if s[0] != '+' {
      DigitsValueDigits(s);
      assert IsDigit(s[0]);
    }
  }

  /** Nothing, and a sign with no digits, is never a number. */
  lemma {:induction false} ParseIntEmpty(lo: int, hi: int)
    ensures ParseInt("", lo, hi) == None
    ensures ParseInt("+", lo, hi) == None && ParseInt("-", lo, hi) == None
  {
  }
}
