/** Decimal integers as Go's `strconv.Atoi` reads them and `strconv.Itoa`
    writes them: an optional sign, then one or more ASCII digits. Integers are
    unbounded here; the range check of `Atoi` is not modelled. */
module Decimal {
  import opened Wrappers

  predicate IsDigit(c: char) {
    '0' <= c <= '9'
  }

  predicate AllDigits(s: string) {
    forall i :: 0 <= i < |s| ==> IsDigit(s[i])
  }

  function DigitValue(c: char): (d: nat)
    requires IsDigit(c)
    ensures d < 10
  {
    (c as int) - ('0' as int)
  }

  function DigitChar(d: nat): (c: char)
    requires d < 10
    ensures IsDigit(c) && DigitValue(c) == d
  {
    ('0' as int + d) as char
  }

  /** The number a digit string denotes, most significant digit first; the
      empty string denotes 0. */
  function DecimalValue(ds: string): nat
    requires AllDigits(ds)
    decreases |ds|
  {
    if |ds| == 0 then 0
    else DecimalValue(ds[..|ds| - 1]) * 10 + DigitValue(ds[|ds| - 1])
  }

  /** `strconv.Atoi`: an optional leading `+` or `-`, then at least one digit;
      anything else (the empty string, a bare sign, any other character) is a
      syntax error, modelled as `None`. Leading zeros are accepted. */
  function Atoi(s: string): (r: Option<int>)
    ensures r.Some? ==> |s| > 0
    ensures r.Some? && s[0] != '-' ==> r.value >= 0
    ensures '-' !in s && '+' !in s ==> (r.Some? <==> |s| > 0 && AllDigits(s))
    ensures '-' !in s && '+' !in s && r.Some? ==> r.value == DecimalValue(s)
  {
    if |s| == 0 then None
    else
      var signed := s[0] == '+' || s[0] == '-';
      var digits := if signed then s[1..] else s;
      if |digits| == 0 || !AllDigits(digits) then None
      else
        var magnitude: int := DecimalValue(digits);
        Some(if s[0] == '-' then -magnitude else magnitude)
  }

  /** Decimal digits of a natural number, without leading zeros. */
  function FormatNat(n: nat): (ds: string)
    ensures |ds| >= 1 && AllDigits(ds)
    ensures DecimalValue(ds) == n
    ensures ds[0] == '0' ==> n == 0
    decreases n
  {
    if n < 10 then [DigitChar(n)]
    else
      var prefix := FormatNat(n / 10);
      var ds := prefix + [DigitChar(n % 10)];
      assert ds[..|ds| - 1] == prefix;
      ds
  }

  /** `strconv.Itoa`: a `-` for negative numbers, then the digits. */
  function FormatInt(n: int): (s: string)
    ensures |s| >= 1
    ensures '+' !in s
    ensures '-' in s <==> n < 0
  {
    if n < 0 then "-" + FormatNat(-n) else FormatNat(n)
  }

  /** `Atoi` reads back every number `FormatInt` writes. */
  lemma AtoiFormatInt(n: int)
    ensures Atoi(FormatInt(n)) == Some(n)
  {
    if n < 0 {
      assert FormatInt(n)[1..] == FormatNat(-n);
    }
  }

  /** A leading `+` is accepted and changes nothing. */
  lemma AtoiPlus(ds: string)
    requires |ds| > 0 && AllDigits(ds)
    ensures Atoi("+" + ds) == Atoi(ds) == Some(DecimalValue(ds))
  {
    assert ("+" + ds)[1..] == ds;
  }

  /** Anything that is not a decimal number is rejected. */
  lemma AtoiRejects(s: string)
    requires || |s| == 0
             || s == "+" || s == "-"
             || (s[0] != '+' && s[0] != '-' && !IsDigit(s[0]))
             || (exists i :: 1 <= i < |s| && !IsDigit(s[i]))
    ensures Atoi(s) == None
  {
  }
}
