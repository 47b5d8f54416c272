/**
  The C++ integer conversions the assembler relies on: `std::to_string(int)`,
  `std::stoi` (base 10) and the truncating division of `int`.
*/
module Decimal {
  import opened Wrappers
  import opened Chars

  /** Range of a 32-bit `int`; `std::stoi` throws `out_of_range` outside it. */
  const IntMin: int := -0x8000_0000
  const IntMax: int := 0x7FFF_FFFF

  predicate InInt(v: int) {
    IntMin <= v <= IntMax
  }

  /** Value of a digit string, most significant digit first. */
  function DigitsValue(d: string): nat
    requires AllDigits(d)
  {
    if d == [] then 0 else DigitsValue(d[..|d| - 1]) * 10 + DigitValue(d[|d| - 1])
  }

  /** Decimal digits of `n` without leading zeros. */
  function NatToString(n: nat): (s: string)
    ensures |s| > 0 && AllDigits(s)
    ensures DigitsValue(s) == n
    ensures |s| == 1 || s[0] != '0'
  {
    if n < 10 then [DigitChar(n)]
    else
      var s := NatToString(n / 10) + [DigitChar(n % 10)];
      assert s[..|s| - 1] == NatToString(n / 10);
      s
  }

  /** `std::to_string(int)`: an optional minus sign followed by the digits. */
  function IntToString(v: int): (s: string)
    ensures |s| > 0 && !IsSpace(s[0])
    ensures v >= 0 <==> s[0] != '-'
  {
    if v < 0 then "-" + NatToString(-v) else NatToString(v)
  }

  /**
    `std::stoi(s)` in base 10: leading whitespace is skipped, one optional
    sign is accepted, and the longest run of digits that follows is
    converted; the rest of the text is ignored. `None` stands for the
    exception `std::stoi` throws when there are no digits
    (`invalid_argument`) or the value does not fit an `int` (`out_of_range`).
  */
  function Stoi(s: string): (r: Option<int>)
    ensures r.Some? ==> InInt(r.value)
    ensures r.Some? ==> exists k :: 0 <= k < |s| && IsDigit(s[k])
  {
    var t := SkipSpace(s);
    var signed := t != [] && (t[0] == '-' || t[0] == '+');
    var u := if signed then t[1..] else t;
    var d := DigitPrefix(u);
    if d == [] then None
    else
      assert IsDigit(s[|s| - |u|]);
      var v: int := if signed && t[0] == '-' then -(DigitsValue(d) as int) else DigitsValue(d);
      if InInt(v) then Some(v) else None
  }

  /** Reading back what `std::to_string` printed gives the same number. */
  lemma {:induction false} StoiInvertsToString(v: int)
    requires InInt(v)
    ensures Stoi(IntToString(v)) == Some(v)
  {
    var s := IntToString(v);
    assert SkipSpace(s) == s;
    if v < 0 {
      var n := NatToString(-v);
      assert s[1..] == n;
      DigitPrefixOfDigits(n, []);
      assert n + [] == n;
    } else {
      DigitPrefixOfDigits(s, []);
      assert s + [] == s;
    }
  }

  /** A plain digit string that fits an `int` converts to its value. */
  lemma {:induction false} StoiOfDigits(d: string)
    requires |d| > 0 && AllDigits(d)
    requires DigitsValue(d) <= IntMax
    ensures Stoi(d) == Some(DigitsValue(d))
  {
    assert SkipSpace(d) == d;
    DigitPrefixOfDigits(d, []);
    assert d + [] == d;
  }

  /** A text with no digit at all makes `std::stoi` throw. */
  lemma StoiRejectsDigitless(s: string)
    requires forall k :: 0 <= k < |s| ==> !IsDigit(s[k])
    ensures Stoi(s) == None
  {
  }

  /**
    C++ `int` division: the quotient is truncated toward zero, so the
    remainder takes the sign of the dividend.
  */
  function TruncDiv(a: int, d: int): (q: int)
    requires d > 0
    ensures a >= 0 ==> 0 <= a - q * d < d
    ensures a < 0 ==> -d < a - q * d <= 0
  {
    if a >= 0 then a / d else -((-a) / d)
  }
}
