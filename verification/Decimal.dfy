/** Decimal texts of integers, as strconv writes and reads them. */
module Decimal {

  type Byte = x: int | 0 <= x < 256

  const ZERO: Byte := 48
  const MINUS: Byte := 45
  const PLUS: Byte := 43

  import opened Options

  predicate IsDigit(b: Byte) { ZERO <= b < ZERO + 10 }

  function Digits(n: nat): (s: seq<Byte>)
    ensures s != [] && forall i :: 0 <= i < |s| ==> IsDigit(s[i])
  {
    if n < 10 then [ZERO + n] else Digits(n / 10) + [ZERO + n % 10]
  }

  /** strconv.AppendInt and AppendUint in base ten. */
  function Format(n: int): (s: seq<Byte>)
    ensures s != [] && PLUS !in s
    ensures s[0] == MINUS || IsDigit(s[0])
  {
    if n < 0 then [MINUS] + Digits(-n) else Digits(n)
  }

  function ParseDigits(s: seq<Byte>): Option<nat> {
    if s == [] then Some(0)
    else
      var last := s[|s| - 1];
      var front := ParseDigits(s[..|s| - 1]);
      if front.None? || !IsDigit(last) then None else Some(front.value * 10 + last - ZERO)
  }

  /** strconv.ParseUint; range errors are not modelled. */
  function ParseUint(s: seq<Byte>): Option<int> {
    if s == [] then None
    else
      match ParseDigits(s)
      case Some(n) => Some(n)
      case None => None
  }

  /** strconv.ParseInt: an optional sign, then digits. */
  function ParseInt(s: seq<Byte>): Option<int> {
    if s == [] then None
    else if s[0] == MINUS then
      match ParseUint(s[1..])
      case Some(n) => Some(-n)
      case None => None
    else ParseUint(if s[0] == PLUS then s[1..] else s)
  }

  lemma {:induction false} ParseDigitsInverse(n: nat)
    ensures ParseDigits(Digits(n)) == Some(n)
  {
    var s := Digits(n);
    if n < 10 {
      assert s[..0] == [];
      assert ParseDigits(s[..0]) == Some(0);
    } else {
      ParseDigitsInverse(n / 10);
      assert s[..|s| - 1] == Digits(n / 10);
    }
  }

  /** Reading back a formatted integer gives the integer. */
  lemma ParseInverse(n: int)
    ensures ParseInt(Format(n)) == Some(n)
    ensures n >= 0 ==> ParseUint(Format(n)) == Some(n)
  {
    if n < 0 {
      ParseDigitsInverse(-n);
      assert Format(n)[1..] == Digits(-n);
    } else {
      ParseDigitsInverse(n);
    }
  }
}
