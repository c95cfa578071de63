/** Decimal text as Go's strconv prints and reads it, over 64-bit machine integers. */
module Numerals {

  datatype Option<+T> = None | Some(value: T)

  /** Go strings are byte strings: a byte is written as the character with its code. */
  type byte = char
  type bytes = seq<byte>

  const MAX_INT64: int := 0x7fff_ffff_ffff_ffff
  const MIN_INT64: int := -0x8000_0000_0000_0000

  predicate IsDigit(c: char) {
    '0' <= c <= '9'
  }

  predicate AllDigits(s: seq<char>) {
    forall i | 0 <= i < |s| :: IsDigit(s[i])
  }

  function DigitChar(d: nat): byte
    requires d < 10
  {
    ('0' as int + d) as char
  }

  /** strconv.Itoa on a non-negative integer. */
  function NatText(n: nat): (s: bytes)
    ensures |s| > 0 && AllDigits(s)
  {
    if n < 10 then [DigitChar(n)] else NatText(n / 10) + [DigitChar(n % 10)]
  }

  /** strconv.Itoa. */
  function Itoa(n: int): bytes {
    if n < 0 then ['-'] + NatText(-n) else NatText(n)
  }

  function DigitsValue(s: seq<char>): nat
    requires AllDigits(s)
  {
    if s == [] then 0
    else 10 * DigitsValue(s[..|s| - 1]) + (s[|s| - 1] as int - '0' as int)
  }

  /** strconv.Atoi: an optional sign, at least one digit, nothing else, and the value fits 64 bits. */
  function Atoi(s: seq<char>): Option<int> {
    var negative := s != [] && s[0] == '-';
    var digits := if s != [] && (s[0] == '-' || s[0] == '+') then s[1..] else s;
    if digits == [] || !AllDigits(digits) then None
    else
      var magnitude: int := DigitsValue(digits);
      var value := if negative then -magnitude else magnitude;
      if MIN_INT64 <= value <= MAX_INT64 then Some(value) else None
  }

  lemma {:induction false} NatTextValue(n: nat)
    ensures DigitsValue(NatText(n)) == n
  {
    if n >= 10 {
      NatTextValue(n / 10);
      assert NatText(n)[..|NatText(n)| - 1] == NatText(n / 10);
    }
  }

  /** Printing then reading gives the number back, for every machine integer. */
  lemma AtoiItoa(n: int)
    requires MIN_INT64 <= n <= MAX_INT64
    ensures Atoi(Itoa(n)) == Some(n)
  {
    if n < 0 {
      NatTextValue(-n);
      assert Itoa(n)[1..] == NatText(-n);
    } else {
      NatTextValue(n);
      assert IsDigit(NatText(n)[0]);
    }
  }

  lemma ItoaInjective(m: int, n: int)
    requires Itoa(m) == Itoa(n)
    ensures m == n
  {
    NatTextValue(if m < 0 then -m else m);
    NatTextValue(if n < 0 then -n else n);
    assert IsDigit(NatText(if m < 0 then -m else m)[0]);
    assert IsDigit(NatText(if n < 0 then -n else n)[0]);
    if m < 0 && n < 0 {
      assert Itoa(m)[1..] == NatText(-m) && Itoa(n)[1..] == NatText(-n);
    }
  }

  lemma ItoaCharacters(n: int)
    ensures Itoa(n) != [] && forall i | 0 <= i < |Itoa(n)| :: IsDigit(Itoa(n)[i]) || Itoa(n)[i] == '-'
  {
    if n < 0 {
      assert forall i | 0 < i < |Itoa(n)| :: Itoa(n)[i] == NatText(-n)[i - 1];
    }
  }
}
