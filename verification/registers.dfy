/**
  The register resolver `regCode` of main.cpp: a register token becomes a
  register number in 0..31, and every failure yields 0 (the error text goes
  to the listing, the assembly carries on).

  main.cpp consults a `REGISTER_ABRV` table that neither main.cpp nor
  definitions.hpp declares; it is modelled with the standard MIPS names,
  keyed with the leading `$` as `regCode` looks the whole token up.
*/
module Registers {
  import opened Wrappers
  import opened Chars
  import opened Decimal

  /** `[$]{1}(zero|[0-9]{2}|[a-z]{1}[0-9]{1}|[a-z]{2})` matched against the whole token. */
  predicate RegisterSyntax(s: string) {
    || s == "$zero"
    || (&& |s| == 3
        && s[0] == '$'
        && (|| (IsDigit(s[1]) && IsDigit(s[2]))
            || (IsLower(s[1]) && IsDigit(s[2]))
            || (IsLower(s[1]) && IsLower(s[2]))))
  }

  /**
    The abbreviation table `REGISTER_ABRV.find(s)`, written by letter:
    `$zero` 0, `$at` 1, `$v0-1` 2-3, `$a0-3` 4-7, `$t0-7` 8-15, `$s0-7` 16-23,
    `$t8-9` 24-25, `$k0-1` 26-27, `$gp` 28, `$sp` 29, `$fp` 30, `$ra` 31.
  */
  function AbbrevNumber(s: string): (r: Option<nat>)
    ensures r.Some? ==> r.value < 32
  {
    if s == "$zero" then Some(0)
    else if |s| != 3 || s[0] != '$' then None
    else
      var a, b := s[1], s[2];
      if a == 'a' && b == 't' then Some(1)
      else if a == 'g' && b == 'p' then Some(28)
      else if a == 's' && b == 'p' then Some(29)
      else if a == 'f' && b == 'p' then Some(30)
      else if a == 'r' && b == 'a' then Some(31)
      else if !IsDigit(b) then None
      else
        var d := DigitValue(b);
        if a == 'v' && d < 2 then Some(2 + d)
        else if a == 'a' && d < 4 then Some(4 + d)
        else if a == 't' && d < 8 then Some(8 + d)
        else if a == 's' && d < 8 then Some(16 + d)
        else if a == 't' then Some(16 + d)
        else if a == 'k' && d < 2 then Some(26 + d)
        else None
  }

  /** Standard name of register `n`, the inverse of the abbreviation table. */
  function RegisterName(n: nat): string
    requires n < 32
  {
    if n == 0 then "$zero"
    else if n == 1 then "$at"
    else if n < 4 then ['$', 'v', DigitChar(n - 2)]
    else if n < 8 then ['$', 'a', DigitChar(n - 4)]
    else if n < 16 then ['$', 't', DigitChar(n - 8)]
    else if n < 24 then ['$', 's', DigitChar(n - 16)]
    else if n < 26 then ['$', 't', DigitChar(n - 16)]
    else if n < 28 then ['$', 'k', DigitChar(n - 26)]
    else if n == 28 then "$gp"
    else if n == 29 then "$sp"
    else if n == 30 then "$fp"
    else "$ra"
  }

  /** `$` followed by two decimal digits. */
  function NumericName(n: nat): string
    requires n < 100
  {
    ['$', DigitChar(n / 10), DigitChar(n % 10)]
  }

  /**
    `regCode`: `$NN` gives NN when NN <= 31; an abbreviation gives its table
    entry; a malformed token, NN > 31 or an unknown abbreviation gives 0.
  */
  function RegCode(s: string): (r: nat)
    ensures r < 32
    ensures !RegisterSyntax(s) ==> r == 0
    ensures RegisterSyntax(s) && !IsDigit(s[1]) && AbbrevNumber(s).None? ==> r == 0
  {
    if !RegisterSyntax(s) then 0
    else if IsDigit(s[1]) then
      match Stoi(s[1..])
      case Some(n) => if n < 0 || n > 31 then 0 else n
      case None => 0
    else
      match AbbrevNumber(s)
      case Some(n) => n
      case None => 0
  }

  /** `$NN` resolves to NN for NN <= 31 and to 0 for 32..99. */
  lemma {:induction false} NumericRegister(n: nat)
    requires n < 100
    ensures RegCode(NumericName(n)) == if n <= 31 then n else 0
  {
    var s := NumericName(n);
    assert RegisterSyntax(s);
    var d := s[1..];
    assert AllDigits(d) && |d| == 2;
    assert d[..1] == [d[0]] && d[..1][..0] == [];
    assert DigitsValue(d[..1]) == DigitValue(d[0]);
    assert DigitsValue(d) == DigitValue(d[0]) * 10 + DigitValue(d[1]);
    assert DigitValue(d[0]) == n / 10 && DigitValue(d[1]) == n % 10;
    StoiOfDigits(d);
  }

  /** Every standard name is a well-formed abbreviation that resolves to its number. */
  lemma {:induction false} AbbreviationRoundTrip(n: nat)
    requires n < 32
    ensures RegisterSyntax(RegisterName(n)) && !IsDigit(RegisterName(n)[1])
    ensures AbbrevNumber(RegisterName(n)) == Some(n)
    ensures RegCode(RegisterName(n)) == n
  {
  }

  /** The table only knows standard names: a resolved abbreviation has its standard spelling. */
  lemma {:induction false} AbbreviationsAreStandard(s: string)
    requires AbbrevNumber(s).Some?
    ensures RegisterName(AbbrevNumber(s).value) == s
    ensures RegCode(s) == AbbrevNumber(s).value
  {
  }
}
