/**
 * Java's 32-bit `int`: its range, its wrap-around addition, and the two
 * conversions the dispatcher uses, `Integer.parseInt` and `String.valueOf(int)`.
 */
module JavaInt {
  import opened Wrappers

  const MIN_INT: int := -0x8000_0000
  const MAX_INT: int := 0x7fff_ffff
  const MODULUS: int := 0x1_0000_0000

  type Int32 = x: int | MIN_INT <= x <= MAX_INT

  /**
   * The int that Java's two's-complement arithmetic yields for the
   * mathematical value x: x reduced modulo 2^32 into the int range.
   */
  function Wrap(x: int): (r: Int32)
    ensures MIN_INT <= x <= MAX_INT ==> r == x
  {
    if MIN_INT <= x <= MAX_INT then x else (x - MIN_INT) % MODULUS + MIN_INT
  }

  /** Wrapping changes a value by a multiple of 2^32. */
  lemma WrapModulus(x: int)
    ensures (Wrap(x) - x) % MODULUS == 0
  {
    var q := (x - MIN_INT) / MODULUS;
    assert x - MIN_INT == MODULUS * q + (x - MIN_INT) % MODULUS;
    assert Wrap(x) - x == MODULUS * (-q);
  }

  /** Two values that agree modulo 2^32 wrap to the same int. */
  lemma WrapCongruent(x: int, y: int)
    requires (x - y) % MODULUS == 0
    ensures Wrap(x) == Wrap(y)
  {
    var d := Wrap(x) - Wrap(y);
    WrapModulus(x);
    WrapModulus(y);
    assert (d - (x - y)) % MODULUS == 0 by {
      assert d - (x - y) == (Wrap(x) - x) - (Wrap(y) - y);
      ModSub(Wrap(x) - x, Wrap(y) - y);
    }
    ModSub(d, x - y);
    assert d % MODULUS == 0;
    assert -MODULUS < d < MODULUS;
  }

  lemma ModSub(a: int, b: int)
    requires a % MODULUS == 0 && b % MODULUS == 0
    ensures (a - b) % MODULUS == 0
  {
    assert a == MODULUS * (a / MODULUS);
    assert b == MODULUS * (b / MODULUS);
    assert a - b == MODULUS * (a / MODULUS - b / MODULUS);
  }

  /** Java's running `int` sum may wrap at each step or once at the end: the result is the same. */
  lemma WrapAdd(a: int, b: int)
    ensures Wrap(Wrap(a) + b) == Wrap(a + b)
  {
    WrapModulus(a);
    assert (Wrap(a) + b) - (a + b) == Wrap(a) - a;
    WrapCongruent(Wrap(a) + b, a + b);
  }

  /** Adding the same amount to two values that wrap alike gives sums that wrap alike. */
  lemma WrapShift(a: int, b: int, c: int)
    requires Wrap(a) == b
    ensures Wrap(a + c) == Wrap(b + c)
  {
    WrapAdd(a, c);
  }

  // ---------------------------------------------------------------------------
  // Decimal text

  predicate IsDigit(c: char) {
    '0' <= c <= '9'
  }

  predicate AllDigits(s: string) {
    forall i :: 0 <= i < |s| ==> IsDigit(s[i])
  }

  /** The value of a string of ASCII decimal digits, most significant first. */
  function DigitsValue(s: string): nat
    requires AllDigits(s)
  {
    if |s| == 0 then 0 else DigitsValue(s[..|s| - 1]) * 10 + (s[|s| - 1] as int - '0' as int)
  }

  function DigitChar(d: nat): (c: char)
    requires d < 10
  {
    ('0' as int + d) as char
  }

  /** `Integer.toString` of a non-negative value: no sign, no leading zero. */
  function NatToString(n: nat): string
  {
    if n < 10 then [DigitChar(n)] else NatToString(n / 10) + [DigitChar(n % 10)]
  }

  /** `String.valueOf(int)`: a minus sign for negative values, then the decimal digits. */
  function IntToString(n: int): string
  {
    if n < 0 then "-" + NatToString(-n) else NatToString(n)
  }

  /**
   * `Integer.parseInt(s)`: an optional leading '+' or '-', then at least one
   * decimal digit, the value within the int range; anything else is the
   * `NumberFormatException`, here `None`.
   */
  function ParseInt(s: string): (r: Option<Int32>)
    ensures r.Some? ==> |s| > 0 && AllDigits(if s[0] == '-' || s[0] == '+' then s[1..] else s)
  {
    if |s| == 0 then None
    else
      var signed := s[0] == '-' || s[0] == '+';
      var digits := if signed then s[1..] else s;
      if |digits| == 0 || !AllDigits(digits) then None
      else
        var v: int := if s[0] == '-' then -(DigitsValue(digits) as int) else DigitsValue(digits);
        if MIN_INT <= v <= MAX_INT then Some(v) else None
  }

  lemma {:induction false} NatToStringDigits(n: nat)
    ensures |NatToString(n)| > 0 && AllDigits(NatToString(n))
    ensures DigitsValue(NatToString(n)) == n
  {
    if n >= 10 {
      NatToStringDigits(n / 10);
      var s := NatToString(n);
      assert s[..|s| - 1] == NatToString(n / 10);
    }
  }

  /** What `String.valueOf` prints, `Integer.parseInt` reads back. */
  lemma ParseIntToString(n: Int32)
    ensures ParseInt(IntToString(n)) == Some(n)
  {
    var m: nat := if n < 0 then -(n as int) else n;
    NatToStringDigits(m);
    var s := IntToString(n);
    if n < 0 {
      assert s[1..] == NatToString(m);
    } else {
      assert IsDigit(s[0]);
    }
  }

  /** Only zero prints as "0": the dispatcher's test `result.equals("0")` means distance zero. */
  lemma IntToStringIsZero(n: int)
    ensures IntToString(n) == "0" <==> n == 0
  {
    if n >= 10 {
      NatToStringDigits(n / 10);
      assert |NatToString(n)| >= 2;
    } else if n < 0 {
      assert IntToString(n)[0] == '-';
    }
  }

  lemma MaxIntToString()
    ensures IntToString(MAX_INT) == "2147483647"
  {
    assert NatToString(2) == "2";
    assert NatToString(21) == "21";
    assert NatToString(214) == "214";
    assert NatToString(2147) == "2147";
    assert NatToString(21474) == "21474";
    assert NatToString(214748) == "214748";
    assert NatToString(2147483) == "2147483";
    assert NatToString(21474836) == "21474836";
    assert NatToString(214748364) == "214748364";
  }
}
