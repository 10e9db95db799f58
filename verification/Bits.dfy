/** The operators `&`, `|`, `<<` and `>>` on unsigned numbers, bit by bit. */
module Bits {
  function And(a: nat, b: nat): nat {
    if a == 0 || b == 0 then 0 else 2 * And(a / 2, b / 2) + if a % 2 == 1 && b % 2 == 1 then 1 else 0
  }

  function Or(a: nat, b: nat): nat {
    if a == 0 then b else if b == 0 then a else 2 * Or(a / 2, b / 2) + if a % 2 == 1 || b % 2 == 1 then 1 else 0
  }

  function ShiftLeft(a: nat, k: nat): nat { if k == 0 then a else 2 * ShiftLeft(a, k - 1) }

  function ShiftRight(a: nat, k: nat): nat { if k == 0 then a else ShiftRight(a / 2, k - 1) }

  lemma {:induction false} AndStep(a: nat, b: nat)
    ensures And(a, b) == 2 * And(a / 2, b / 2) + if a % 2 == 1 && b % 2 == 1 then 1 else 0
  {
  }

  lemma {:induction false} OrStep(a: nat, b: nat)
    ensures Or(a, b) == 2 * Or(a / 2, b / 2) + if a % 2 == 1 || b % 2 == 1 then 1 else 0
  {
  }

  lemma {:induction false} AndZero(a: nat)
    ensures And(a, 0) == 0
  {
  }

  lemma {:induction false} OrSwap(a: nat, b: nat)
    ensures Or(a, b) == Or(b, a)
    decreases a
  {
    if a > 0 && b > 0 { OrSwap(a / 2, b / 2); }
  }

  // ---- Masks.

  /** The number of `k` ones. */
  function Ones(k: nat): nat { if k == 0 then 0 else 2 * Ones(k - 1) + 1 }

  /** The lowest `k` bits. */
  function Low(a: nat, k: nat): nat { if k == 0 then 0 else 2 * Low(a / 2, k - 1) + a % 2 }

  /** Ones in a mask keep the low bits; above them it goes on with `y`. */
  lemma {:induction false} AndOnes(a: nat, y: nat, k: nat)
    ensures And(a, ShiftLeft(y, k) + Ones(k)) == ShiftLeft(And(ShiftRight(a, k), y), k) + Low(a, k)
    decreases k
  {
    hide And;
    if k > 0 {
      AndOnes(a / 2, y, k - 1);
      AndStep(a, ShiftLeft(y, k) + Ones(k));
    }
  }

  /** Zeros on one side keep the low bits of the other; above them it goes on with `y`. */
  lemma {:induction false} OrZeros(a: nat, y: nat, k: nat)
    ensures Or(a, ShiftLeft(y, k)) == ShiftLeft(Or(ShiftRight(a, k), y), k) + Low(a, k)
    decreases k
  {
    hide Or;
    if k > 0 {
      OrZeros(a / 2, y, k - 1);
      OrStep(a, ShiftLeft(y, k));
    }
  }

  lemma {:induction false} LowOnly(a: nat, k: nat)
    ensures And(a, Ones(k)) == Low(a, k)
  {
    hide And;
    AndOnes(a, 0, k);
    AndZero(ShiftRight(a, k));
    ShiftedZero(k);
  }

  lemma {:induction false} ShiftedZero(k: nat)
    ensures ShiftLeft(0, k) == 0
  {
    if k > 0 { ShiftedZero(k - 1); }
  }

  lemma Halves(a: nat, p: nat)
    requires p > 0
    ensures a % (2 * p) == 2 * (a / 2 % p) + a % 2 && a / (2 * p) == a / 2 / p
  {
    var q, r := a / 2 / p, a / 2 % p;
    assert a == q * (2 * p) + (2 * r + a % 2);
    DivisionIs(a, 2 * p, q, 2 * r + a % 2);
  }

  lemma DivisionIs(a: nat, m: nat, q: nat, r: nat)
    requires m > 0 && a == q * m + r && r < m
    ensures a % m == r && a / m == q
  {
    Multiple(q - a / m, m);
  }

  lemma Multiple(d: int, m: int)
    requires m > 0
    ensures -m < d * m < m ==> d == 0
  {
  }

  /** Shifting and taking low bits are multiplication, division and remainder by a power of two. */
  lemma {:induction false} PowerOf(a: nat, k: nat)
    ensures var p := ShiftLeft(1, k);
      p > 0 && Ones(k) == p - 1 && Low(a, k) == a % p && ShiftRight(a, k) == a / p && ShiftLeft(a, k) == a * p
    decreases k
  {
    if k > 0 {
      var p := ShiftLeft(1, k - 1);
      PowerOf(a / 2, k - 1);
      PowerOf(a, k - 1);
      Halves(a, p);
      assert a * (2 * p) == 2 * (a * p);
    }
  }

  // ---- The masks of utf16_literal_to_utf8.

  lemma Powers()
    ensures ShiftLeft(1, 3) == 8 && ShiftLeft(1, 4) == 16 && ShiftLeft(1, 5) == 32 && ShiftLeft(1, 6) == 64
    ensures ShiftLeft(1, 7) == 128 && ShiftLeft(1, 8) == 256 && ShiftLeft(1, 10) == 1024
  {
  }

  lemma {:induction false} SecondBit(d: nat)
    ensures And(Or(d, 2), 2) == 2
  {
    hide And, Or;
    OrStep(d, 2);
    OrStep(d / 2, 1);
    AndStep(Or(d, 2), 2);
    AndStep(Or(d, 2) / 2, 1);
    AndZero(Or(d, 2) / 4);
  }

  /** `(c | 0x80) & 0xBF` makes a continuation byte of the low six bits. */
  lemma {:induction false} Continuation(c: nat)
    ensures And(Or(c, 0x80), 0xBF) == 0x80 + c % 64
  {
    hide And, Or, ShiftLeft, ShiftRight, Ones, Low;
    Powers();
    PowerOf(2, 6);
    PowerOf(c, 6);
    OrZeros(c, 2, 6);
    var x := Or(c, 0x80);
    PowerOf(Or(c / 64, 2), 6);
    DivisionIs(x, 64, Or(c / 64, 2), c % 64);
    PowerOf(x, 6);
    AndOnes(x, 2, 6);
    SecondBit(c / 64);
  }

  /** Numbers without common bits: `|` adds them. */
  lemma {:induction false} OrAdds(a: nat, y: nat, k: nat)
    requires a < ShiftLeft(1, k)
    ensures Or(a, ShiftLeft(y, k)) == ShiftLeft(y, k) + a && Or(ShiftLeft(y, k), a) == ShiftLeft(y, k) + a
  {
    hide ShiftLeft, ShiftRight, Ones, Low;
    OrZeros(a, y, k);
    OrSwap(a, ShiftLeft(y, k));
    PowerOf(a, k);
    DivisionIs(a, ShiftLeft(1, k), 0, a);
  }

  /** `c & 0xFF` and the like leave what has no higher bits. */
  lemma {:induction false} MaskKeeps(c: nat, k: nat)
    requires c < ShiftLeft(1, k)
    ensures And(c, Ones(k)) == c
  {
    hide And, ShiftLeft, ShiftRight, Ones, Low;
    LowOnly(c, k);
    PowerOf(c, k);
    DivisionIs(c, ShiftLeft(1, k), 0, c);
  }

  /** `(c | mark) & 0xFF` puts `c` behind the leading ones of a first byte. */
  lemma {:induction false} Leading(c: nat, mark: nat)
    requires (mark == 0xC0 && c < 32) || (mark == 0xE0 && c < 16) || (mark == 0xF0 && c < 8)
    ensures And(Or(c, mark), 0xFF) == mark + c
  {
    hide And, Or, ShiftLeft, Ones;
    Powers();
    PowerOf(6, 5);
    PowerOf(14, 4);
    PowerOf(30, 3);
    if mark == 0xC0 { OrAdds(c, 6, 5); } else if mark == 0xE0 { OrAdds(c, 14, 4); } else { OrAdds(c, 30, 3); }
    PowerOf(mark + c, 8);
    MaskKeeps(mark + c, 8);
  }

  /** `c & 0x7F` */
  lemma {:induction false} Ascii(c: nat)
    requires c < 0x80
    ensures And(c, 0x7F) == c
  {
    hide And, ShiftLeft, Ones;
    Powers();
    PowerOf(c, 7);
    MaskKeeps(c, 7);
  }

  /** `((high & 0x3FF) << 10) | (low & 0x3FF)` */
  lemma {:induction false} TwentyBits(high: nat, low: nat)
    ensures Or(ShiftLeft(And(high, 0x3FF), 10), And(low, 0x3FF)) == high % 0x400 * 0x400 + low % 0x400
  {
    hide And, Or, ShiftLeft, Ones, Low;
    Powers();
    PowerOf(high, 10);
    PowerOf(low, 10);
    LowOnly(high, 10);
    LowOnly(low, 10);
    PowerOf(high % 0x400, 10);
    OrAdds(low % 0x400, high % 0x400, 10);
  }

  /** `c >> 6` */
  lemma {:induction false} SixBitsOff(c: nat)
    ensures ShiftRight(c, 6) == c / 64
  {
    hide ShiftLeft, ShiftRight, Ones, Low;
    Powers();
    PowerOf(c, 6);
  }
}
