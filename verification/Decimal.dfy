/** Decimal integers as text: strconv.Itoa and strconv.Atoi. */
module Decimal {
  import opened Arith
  import opened Text

  predicate IsDigit(ch: char) { '0' <= ch <= '9' }

  predicate AllDigits(s: string) { forall ch <- s :: IsDigit(ch) }

  function Digits(n: nat): (s: string)
    ensures s != [] && AllDigits(s)
  {
    var last := [(n % 10 + '0' as int) as char];
    if n < 10 then last else Digits(n / 10) + last
  }

  function Value(s: string): nat
    requires AllDigits(s)
  {
    if s == [] then 0 else
      assert IsDigit(s[|s| - 1]);
      Value(s[..|s| - 1]) * 10 + (s[|s| - 1] as int - '0' as int)
  }

  function Itoa(n: int): string {
    if n < 0 then "-" + Digits(-n) else Digits(n)
  }

  /** None for strconv's syntax and range errors. A sign and leading zeros are accepted. */
  function Atoi(s: string): Option<int> {
    var signed := s != [] && (s[0] == '-' || s[0] == '+');
    var digits := if signed then s[1..] else s;
    if digits == [] || !AllDigits(digits) then None else
      var v: int := if signed && s[0] == '-' then 0 - Value(digits) else Value(digits);
      if MIN_INT64 <= v <= MAX_INT64 then Some(v) else None
  }

  lemma {:induction false} ValueOfDigits(n: nat)
    ensures Value(Digits(n)) == n
  {
    var s := Digits(n);
    if n >= 10 {
      ValueOfDigits(n / 10);
      assert s[..|s| - 1] == Digits(n / 10);
    } else {
      assert s[..|s| - 1] == [];
    }
  }

  lemma AtoiItoa(n: int)
    requires MIN_INT64 <= n <= MAX_INT64
    ensures Atoi(Itoa(n)) == Some(n)
  {
    var m := if n < 0 then -n else n;
    ValueOfDigits(m);
    var digits, s := Digits(m), Itoa(n);
    assert IsDigit(digits[0]);
    hide Digits, Value;
    assert n < 0 ==> s[0] == '-' && s[1..] == digits;
  }

  lemma ItoaInjective(m: int, n: int)
    requires Itoa(m) == Itoa(n)
    ensures m == n
  {
    ValueOfDigits(if m < 0 then -m else m);
    ValueOfDigits(if n < 0 then -n else n);
    assert IsDigit(Digits(if m < 0 then -m else m)[0]) && IsDigit(Digits(if n < 0 then -n else n)[0]);
    assert m < 0 ==> Itoa(m)[1..] == Digits(-m);
    assert n < 0 ==> Itoa(n)[1..] == Digits(-n);
  }
}
