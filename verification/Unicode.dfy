/** UTF-16 escapes to UTF-8 (RFC 2781 and RFC 3629), as string literals use them. */
module Unicode {
  import opened Bytes

  predicate IsHex(b: byte) {
    IsDigit(b) || UPPER_A <= b <= UPPER_F || LOWER_A <= b <= LOWER_F
  }

  function HexValue(b: byte): (v: nat)
    requires IsHex(b)
    ensures v < 16
  {
    if IsDigit(b) then b - ZERO else if b <= UPPER_F then 10 + b - UPPER_A else 10 + b - LOWER_A
  }

  predicate AllHex(h: Text) { |h| == 4 && forall i :: 0 <= i < 4 ==> IsHex(h[i]) }

  /** The number four hexadecimal digits denote; 0 when one of them is not a digit. */
  function Hex4(h: Text): (v: nat)
    requires |h| == 4
    ensures v < 0x1_0000
  {
    if AllHex(h) then
      ((HexValue(h[0]) * 16 + HexValue(h[1])) * 16 + HexValue(h[2])) * 16 + HexValue(h[3])
    else 0
  }

  /** `b` is the hexadecimal digit of `d`, in either case. */
  predicate HexDigit(b: byte, d: nat)
    requires d < 16
  {
    b as char == "0123456789abcdef"[d] || b as char == "0123456789ABCDEF"[d]
  }

  /** The four hexadecimal digits of `w`, each in either case. */
  predicate FourDigits(h: Text, w: nat) {
    && |h| == 4 && w < 0x1_0000
    && HexDigit(h[0], w / 0x1000) && HexDigit(h[1], w / 0x100 % 0x10)
    && HexDigit(h[2], w / 0x10 % 0x10) && HexDigit(h[3], w % 0x10)
  }

  lemma HexDigitValue(b: byte, d: nat)
    requires d < 16
    ensures HexDigit(b, d) <==> IsHex(b) && HexValue(b) == d
  {
    assert "0123456789abcdef"[d] == if d < 10 then '0' + d as char else 'a' + (d - 10) as char;
  }

  lemma FourParts(a: nat, b: nat, c: nat, d: nat, w: nat)
    requires a < 16 && b < 16 && c < 16 && d < 16 && w < 0x1_0000
    ensures ((a * 16 + b) * 16 + c) * 16 + d == w <==>
      a == w / 0x1000 && b == w / 0x100 % 0x10 && c == w / 0x10 % 0x10 && d == w % 0x10
  {
  }

  /** Four bytes denote `w` exactly when they are its digits, whatever their case. */
  lemma HexDenotes(h: Text, w: nat)
    requires |h| == 4
    ensures FourDigits(h, w) <==> AllHex(h) && Hex4(h) == w
  {
    hide HexDigit, IsHex, HexValue;
    if w < 0x1_0000 {
      HexDigitValue(h[0], w / 0x1000);
      HexDigitValue(h[1], w / 0x100 % 0x10);
      HexDigitValue(h[2], w / 0x10 % 0x10);
      HexDigitValue(h[3], w % 0x10);
      if AllHex(h) {
        FourParts(HexValue(h[0]), HexValue(h[1]), HexValue(h[2]), HexValue(h[3]), w);
      }
    }
  }

  predicate IsHigh(w: int) { 0xD800 <= w <= 0xDBFF }
  predicate IsLow(w: int) { 0xDC00 <= w <= 0xDFFF }
  predicate IsScalar(cp: int) { 0 <= cp <= 0x10_FFFF && !IsHigh(cp) && !IsLow(cp) }

  /** The code point of a surrogate pair: the low ten bits of both halves, above 0x10000. */
  function PairValue(w1: nat, w2: nat): (cp: nat)
    ensures 0x1_0000 <= cp <= 0x10_FFFF
  {
    0x1_0000 + (w1 % 0x400) * 0x400 + w2 % 0x400
  }

  predicate Cont(b: byte) { 0x80 <= b < 0xC0 }

  /**
   * RFC 3629, section 3, as a relation: `bs` carries the bits of `cp` behind the marks
   * of its length, and `cp` is too big for any shorter form.
   */
  predicate Encodes(bs: Text, cp: int) {
    match |bs|
    case 1 => bs[0] == cp && 0 <= cp < 0x80
    case 2 =>
      && 0x80 <= cp < 0x800 && 0xC0 <= bs[0] < 0xE0 && Cont(bs[1])
      && cp == Join(bs[0] as int - 0xC0, bs[1])
    case 3 =>
      && 0x800 <= cp < 0x1_0000 && 0xE0 <= bs[0] < 0xF0 && Cont(bs[1]) && Cont(bs[2])
      && cp == Join(Join(bs[0] as int - 0xE0, bs[1]), bs[2])
    case 4 =>
      && 0x1_0000 <= cp <= 0x10_FFFF && 0xF0 <= bs[0] < 0xF8
      && Cont(bs[1]) && Cont(bs[2]) && Cont(bs[3])
      && cp == Join(Join(Join(bs[0] as int - 0xF0, bs[1]), bs[2]), bs[3])
    case _ => false
  }

  /** Six more bits from a continuation byte. */
  function Join(bits: int, b: byte): int { bits * 64 + (b as int - 0x80) }

  function Utf8Length(cp: nat): (n: nat)
    requires cp <= 0x10_FFFF
    ensures 1 <= n <= 4
  {
    if cp < 0x80 then 1 else if cp < 0x800 then 2 else if cp < 0x1_0000 then 3 else 4
  }

  function Utf8(cp: nat): (bs: Text)
    requires cp <= 0x10_FFFF
    ensures |bs| == Utf8Length(cp)
    ensures Encodes(bs, cp)
  {
    if cp < 0x80 then [cp]
    else if cp < 0x800 then [0xC0 + cp / 64, 0x80 + cp % 64]
    else if cp < 0x1_0000 then [0xE0 + cp / 64 / 64, 0x80 + cp / 64 % 64, 0x80 + cp % 64]
    else [0xF0 + cp / 64 / 64 / 64, 0x80 + cp / 64 / 64 % 64, 0x80 + cp / 64 % 64, 0x80 + cp % 64]
  }

  /** Both directions are functional: one code point per byte form and one byte form per code point. */
  lemma EncodesUnique(bs: Text, cp: nat, bs': Text, cp': nat)
    requires Encodes(bs, cp) && Encodes(bs', cp')
    ensures bs == bs' <==> cp == cp'
  {
    if |bs| == |bs'| {
      match |bs|
      case 2 => JoinUnique(bs[0] as int - 0xC0, bs[1], bs'[0] as int - 0xC0, bs'[1]);
      case 3 =>
        JoinUnique(Join(bs[0] as int - 0xE0, bs[1]), bs[2], Join(bs'[0] as int - 0xE0, bs'[1]), bs'[2]);
        JoinUnique(bs[0] as int - 0xE0, bs[1], bs'[0] as int - 0xE0, bs'[1]);
      case 4 =>
        var x, x' := Join(bs[0] as int - 0xF0, bs[1]), Join(bs'[0] as int - 0xF0, bs'[1]);
        JoinUnique(Join(x, bs[2]), bs[3], Join(x', bs'[2]), bs'[3]);
        JoinUnique(x, bs[2], x', bs'[2]);
        JoinUnique(bs[0] as int - 0xF0, bs[1], bs'[0] as int - 0xF0, bs'[1]);
      case _ =>
    }
  }

  lemma JoinUnique(bits: int, b: byte, bits': int, b': byte)
    requires Cont(b) && Cont(b')
    ensures Join(bits, b) == Join(bits', b') <==> bits == bits' && b == b'
  {
  }

  /** RFC 2781, section 2.1: the surrogate pair of a code point above 0xFFFF. */
  function HighOf(cp: nat): nat { 0xD800 + (cp - 0x1_0000) / 0x400 }
  function LowOf(cp: nat): nat { 0xDC00 + (cp - 0x1_0000) % 0x400 }

  lemma SurrogatePairs(w1: nat, w2: nat)
    requires IsHigh(w1) && IsLow(w2)
    ensures HighOf(PairValue(w1, w2)) == w1 && LowOf(PairValue(w1, w2)) == w2
    ensures IsScalar(PairValue(w1, w2))
  {
  }
}
