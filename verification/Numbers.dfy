/** Number literals: the decimal text of an integer, and the value `strtod` reads. */
module Numbers {
  import opened Bytes

  const INT_MAX: nat := 0x7FFF_FFFF
  const INT_MIN: int := -0x8000_0000

  /** The most bytes of a number that parse_number copies. */
  const NUMBER_MAX: nat := 63

  /** The characters parse_number collects before it calls strtod. */
  predicate IsNumberByte(b: byte) {
    IsDigit(b) || b == PLUS || b == MINUS || b == LOWER_E || b == UPPER_E || b == DOT
  }

  function Digits(n: nat): (s: Text)
    ensures s != [] && forall i :: 0 <= i < |s| ==> IsDigit(s[i])
  {
    if n < 10 then [ZERO + n] else Digits(n / 10) + [ZERO + n % 10]
  }

  /** `%1.15g` on an integer below 10^15 in size. */
  function Decimal(n: int): (s: Text)
    ensures s != [] && (s[0] == MINUS || IsDigit(s[0]))
    ensures forall i :: 0 <= i < |s| ==> IsNumberByte(s[i])
  {
    if n < 0 then [MINUS] + Digits(-n) else Digits(n)
  }

  function NatOf(s: Text): (n: nat)
    requires forall i :: 0 <= i < |s| ==> IsDigit(s[i])
  {
    if s == [] then 0 else
      assert IsDigit(s[|s| - 1]);
      NatOf(s[..|s| - 1]) * 10 + (s[|s| - 1] - ZERO)
  }

  lemma {:induction false} NatOfDigits(n: nat)
    ensures NatOf(Digits(n)) == n
  {
    if n >= 10 {
      NatOfDigits(n / 10);
      assert Digits(n)[..|Digits(n)| - 1] == Digits(n / 10);
    }
  }

  function Pow10(k: nat): (p: nat)
    ensures p > 0
  {
    if k == 0 then 1 else 10 * Pow10(k - 1)
  }

  lemma {:induction false} DigitsLength(n: nat, k: nat)
    requires n < Pow10(k)
    ensures |Digits(n)| <= if k == 0 then 1 else k
  {
    if n >= 10 {
      DigitsLength(n / 10, k - 1);
    }
  }

  const LIMIT: int := 1_000_000_000_000_000

  lemma DecimalLength(n: int)
    requires -LIMIT < n < LIMIT
    ensures |Decimal(n)| <= 16
  {
    assert Pow10(5) == 100_000;
    assert Pow10(10) == 100_000 * Pow10(5);
    assert Pow10(15) == 100_000 * Pow10(10);
    DigitsLength(if n < 0 then -n else n, 15);
  }

  /** Index of the first byte at or after `i` that is not a digit. */
  function DigitsEnd(s: Text, i: nat): (j: nat)
    requires i <= |s|
    ensures i <= j <= |s|
    ensures forall k :: i <= k < j ==> IsDigit(s[k])
    ensures j < |s| ==> !IsDigit(s[j])
    decreases |s| - i
  {
    if i < |s| && IsDigit(s[i]) then DigitsEnd(s, i + 1) else i
  }

  function Scale(m: int, e: int): real {
    if e >= 0 then (m * Pow10(e)) as real else m as real / Pow10(-e) as real
  }

  /** `length` bytes were converted to `value`; nothing was converted when `length` is 0. */
  datatype Conversion = Conversion(length: nat, value: real)

  function Exponent(s: Text, i: nat): (r: (nat, int))
    requires i <= |s|
    ensures i <= r.0 <= |s|
  {
    if i < |s| && (s[i] == LOWER_E || s[i] == UPPER_E) then
      var signed := i + 1 < |s| && (s[i + 1] == PLUS || s[i + 1] == MINUS);
      var first := if signed then i + 2 else i + 1;
      var last := DigitsEnd(s, first);
      if last == first then (i, 0)
      else
        var e: int := NatOf(s[first..last]);
        (last, if signed && s[i + 1] == MINUS then -e else e)
    else (i, 0)
  }

  /**
   * strtod on a run of number characters: sign, digits with an optional point, and an
   * exponent. The value is the exact one: rounding to double is not modelled.
   */
  function Strtod(s: Text): (r: Conversion)
    ensures r.length <= |s|
  {
    var start := if s != [] && (s[0] == PLUS || s[0] == MINUS) then 1 else 0;
    var whole := DigitsEnd(s, start);
    var pointed := whole < |s| && s[whole] == DOT;
    var end := if pointed then DigitsEnd(s, whole + 1) else whole;
    var places := if pointed then end - whole - 1 else 0;
    if whole == start && places == 0 then Conversion(0, 0.0)
    else
      var left, right := s[start..whole], if pointed then s[whole + 1..end] else [];
      assert forall k :: 0 <= k < |left| ==> IsDigit(left[k]);
      assert forall k :: 0 <= k < |right| ==> IsDigit(right[k]);
      var mantissa: int := NatOf(left + right);
      var (last, e) := Exponent(s, end);
      Conversion(last, Scale(if start == 1 && s[0] == MINUS then -mantissa else mantissa, e - places))
  }
}
