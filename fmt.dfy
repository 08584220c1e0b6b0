/**
 * Decimal text of integers: the `%d` verb of `fmt.Sprintf` and the number
 * syntax the codec reads back.
 */
module Fmt {
  import opened Wrappers
  import opened Octets

  const Minus: byte := 45  // '-'

  predicate IsDigit(b: byte) {
    48 <= b <= 57
  }

  function Digit(d: nat): (b: byte)
    requires d < 10
    ensures IsDigit(b)
  {
    (48 + d) as byte
  }

  /** The decimal digits of n, most significant first, without leading zeros. */
  function DecimalNat(n: nat): (r: Bytes)
    ensures 1 <= |r|
    ensures forall i :: 0 <= i < |r| ==> IsDigit(r[i])
    ensures n < 10 <==> |r| == 1
    decreases n
  {
    if n < 10 then [Digit(n)] else DecimalNat(n / 10) + [Digit(n % 10)]
  }

  /** `fmt.Sprintf("%d", n)`: an optional minus sign, then the digits of |n|. */
  function FormatInt(n: int): (r: Bytes)
    ensures r != []
    ensures r[0] == Minus <==> n < 0
    ensures n >= 0 ==> IsDigit(r[0])
    ensures forall i :: 0 < i < |r| ==> IsDigit(r[i])
  {
    if n < 0 then [Minus] + DecimalNat(-n) else DecimalNat(n)
  }

  /** Reads a non-empty run of decimal digits. */
  function ParseNat(s: Bytes): (r: Option<nat>)
    decreases |s|
  {
    if s == [] || !IsDigit(s[|s| - 1]) then None
    else if |s| == 1 then Some((s[0] - 48) as nat)
    else match ParseNat(s[..|s| - 1])
      case None => None
      case Some(v) => Some(v * 10 + (s[|s| - 1] - 48) as nat)
  }

  /** Reads an optional minus sign followed by decimal digits. */
  function ParseInt(s: Bytes): (r: Option<int>) {
    if s != [] && s[0] == Minus then
      match ParseNat(s[1..])
      case None => None
      case Some(v) => Some(-(v as int))
    else
      match ParseNat(s)
      case None => None
      case Some(v) => Some(v)
  }

  lemma {:induction false} ParseNatDecimal(n: nat)
    ensures ParseNat(DecimalNat(n)) == Some(n)
    decreases n
  {
    var s := DecimalNat(n);
    if n >= 10 {
      assert s[..|s| - 1] == DecimalNat(n / 10);
      ParseNatDecimal(n / 10);
    }
  }

  /** Reading back the text `%d` prints yields the same integer. */
  lemma ParseIntFormat(n: int)
    ensures ParseInt(FormatInt(n)) == Some(n)
  {
    if n < 0 {
      var s := [Minus] + DecimalNat(-n);
      assert s[0] == Minus && s[1..] == DecimalNat(-n);
      ParseNatDecimal(-n);
    } else {
      var s := DecimalNat(n);
      assert IsDigit(s[0]);
      ParseNatDecimal(n);
    }
  }

  /** Distinct integers print differently. */
  lemma FormatIntInjective(a: int, b: int)
    ensures FormatInt(a) == FormatInt(b) <==> a == b
  {
    ParseIntFormat(a);
    ParseIntFormat(b);
  }

  /** Among numbers with the same number of digits, byte order of the text is numeric order. */
  lemma {:induction false} DecimalOrderMonotone(a: nat, b: nat)
    requires |DecimalNat(a)| == |DecimalNat(b)| && a < b
    ensures LexLt(DecimalNat(a), DecimalNat(b))
    decreases a
  {
    if a < 10 {
      assert DecimalNat(a) == [Digit(a)] && DecimalNat(b) == [Digit(b)];
    } else if a / 10 < b / 10 {
      DecimalOrderMonotone(a / 10, b / 10);
      LexLtExtend(DecimalNat(a / 10), DecimalNat(b / 10), [Digit(a % 10)], [Digit(b % 10)]);
    } else {
      assert a / 10 == b / 10 && a % 10 < b % 10;
      LexLtCommonPrefix(DecimalNat(a / 10), [Digit(a % 10)], [Digit(b % 10)]);
    }
  }

  lemma DecimalOrder(a: nat, b: nat)
    requires |DecimalNat(a)| == |DecimalNat(b)|
    ensures LexLt(DecimalNat(a), DecimalNat(b)) <==> a < b
  {
    if a < b {
      DecimalOrderMonotone(a, b);
    } else if b < a {
      DecimalOrderMonotone(b, a);
      if LexLe(DecimalNat(a), DecimalNat(b)) {
        LexLeAntisymmetric(DecimalNat(a), DecimalNat(b));
      }
    }
  }
}
