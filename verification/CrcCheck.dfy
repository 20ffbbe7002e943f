// The check value of the checksum: the one that the standard gives for the text of
// the nine digits from 1 to 9. The steps are taken on words of hexadecimal digits
// that hold the bits of the register.
module CrcCheck {
  import opened CrcReference
  import opened Wire

  // Four bits, lowest first.
  datatype Digit = Digit(a: bool, b: bool, c: bool, d: bool)

  const D0 := Digit(false, false, false, false)
  const D1 := Digit(true, false, false, false)
  const D2 := Digit(false, true, false, false)
  const D3 := Digit(true, true, false, false)
  const D4 := Digit(false, false, true, false)
  const D5 := Digit(true, false, true, false)
  const D6 := Digit(false, true, true, false)
  const D7 := Digit(true, true, true, false)
  const D8 := Digit(false, false, false, true)
  const D9 := Digit(true, false, false, true)
  const DA := Digit(false, true, false, true)
  const DB := Digit(true, true, false, true)
  const DC := Digit(false, false, true, true)
  const DD := Digit(true, false, true, true)
  const DE := Digit(false, true, true, true)
  const DF := Digit(true, true, true, true)

  // Eight digits, lowest first.
  datatype Word = Word(d0: Digit, d1: Digit, d2: Digit, d3: Digit, d4: Digit, d5: Digit, d6: Digit, d7: Digit)

  // A word with the bits of a register.
  predicate Holds(w: Word, r: Register) {
    && At(w.d0, r, 0) && At(w.d1, r, 4) && At(w.d2, r, 8) && At(w.d3, r, 12)
    && At(w.d4, r, 16) && At(w.d5, r, 20) && At(w.d6, r, 24) && At(w.d7, r, 28)
  }

  predicate At(x: Digit, r: Register, i: nat)
    requires i <= 28
  {
    x == Digit(r[i], r[i + 1], r[i + 2], r[i + 3])
  }

  function Four(x: Digit): (r: seq<bool>)
    ensures |r| == 4
  {
    [x.a, x.b, x.c, x.d]
  }

  function Sixteen(x0: Digit, x1: Digit, x2: Digit, x3: Digit): (r: seq<bool>)
    ensures |r| == 16
  {
    Four(x0) + Four(x1) + Four(x2) + Four(x3)
  }

  function Flat(w: Word): (r: seq<bool>)
    ensures |r| == 32
  {
    Sixteen(w.d0, w.d1, w.d2, w.d3) + Sixteen(w.d4, w.d5, w.d6, w.d7)
  }

  function XorDigit(x: Digit, y: Digit): Digit {
    Digit(x.a != y.a, x.b != y.b, x.c != y.c, x.d != y.d)
  }

  // A digit one place down, with the bit that comes in at the top.
  function Down(x: Digit, top: bool): Digit {
    Digit(x.b, x.c, x.d, top)
  }

  // One step on the digits. The polynomial in digits is EDB88320, so that the lowest
  // digit takes nothing from it.
  function WordBit(w: Word): Word {
    var s := Word(Down(w.d0, w.d1.a), Down(w.d1, w.d2.a), Down(w.d2, w.d3.a), Down(w.d3, w.d4.a),
                  Down(w.d4, w.d5.a), Down(w.d5, w.d6.a), Down(w.d6, w.d7.a), Down(w.d7, false));
    if !w.d0.a then s
    else
      Word(s.d0, XorDigit(s.d1, D2), XorDigit(s.d2, D3), XorDigit(s.d3, D8),
           XorDigit(s.d4, D8), XorDigit(s.d5, DB), XorDigit(s.d6, DD), XorDigit(s.d7, DE))
  }

  function WordBits4(w: Word): Word {
    WordBit(WordBit(WordBit(WordBit(w))))
  }

  // A bit after one step.
  lemma BitAt(r: Register, i: nat)
    requires i < 32
    ensures CrcBit(r)[i] == ((i < 31 && r[i + 1]) != (r[0] && Power(31 - i)))
  {
    SamePolynomial();
  }

  // A digit of the polynomial.
  predicate IsDigit(p: Digit, i: nat)
    requires i <= 28
  {
    p == Digit(Power(31 - i), Power(30 - i), Power(29 - i), Power(28 - i))
  }

  lemma TwoBitsAt(r: Register, s: Register, i: nat)
    requires s == CrcBit(r) && i <= 30
    ensures s[i] == (r[i + 1] != (r[0] && Power(31 - i)))
    ensures s[i + 1] == ((i < 30 && r[i + 2]) != (r[0] && Power(30 - i)))
  {
    BitAt(r, i);
    BitAt(r, i + 1);
  }

  // A digit after one step.
  lemma DigitBit(r: Register, s: Register, i: nat, x: Digit, top: bool, p: Digit)
    requires s == CrcBit(r) && i <= 28 && At(x, r, i) && top == (i < 28 && r[i + 4]) && IsDigit(p, i)
    ensures At(if r[0] then XorDigit(Down(x, top), p) else Down(x, top), s, i)
  {
    TwoBitsAt(r, s, i);
    TwoBitsAt(r, s, i + 2);
  }

  // The step on the digits is the step of the register.
  lemma LowDigits(w: Word, r: Register, s: Register)
    requires s == CrcBit(r) && Holds(w, r)
    ensures var v := WordBit(w); At(v.d0, s, 0) && At(v.d1, s, 4) && At(v.d2, s, 8) && At(v.d3, s, 12)
  {
    DigitBit(r, s, 0, w.d0, w.d1.a, D0);
    DigitBit(r, s, 4, w.d1, w.d2.a, D2);
    DigitBit(r, s, 8, w.d2, w.d3.a, D3);
    DigitBit(r, s, 12, w.d3, w.d4.a, D8);
  }

  lemma HighDigits(w: Word, r: Register, s: Register)
    requires s == CrcBit(r) && Holds(w, r)
    ensures var v := WordBit(w); At(v.d4, s, 16) && At(v.d5, s, 20) && At(v.d6, s, 24) && At(v.d7, s, 28)
  {
    DigitBit(r, s, 16, w.d4, w.d5.a, D8);
    DigitBit(r, s, 20, w.d5, w.d6.a, DB);
    DigitBit(r, s, 24, w.d6, w.d7.a, DD);
    DigitBit(r, s, 28, w.d7, false, DE);
  }

  lemma HoldsBit(w: Word, r: Register)
    requires Holds(w, r)
    ensures Holds(WordBit(w), CrcBit(r))
  {
    LowDigits(w, r, CrcBit(r));
    HighDigits(w, r, CrcBit(r));
  }

  lemma HoldsBits4(w: Word, r: Register, n: nat)
    requires Holds(w, CrcBits(r, n))
    ensures Holds(WordBits4(w), CrcBits(r, n + 4))
  {
    HoldsBit(w, CrcBits(r, n));
    HoldsBit(WordBit(w), CrcBits(r, n + 1));
    HoldsBit(WordBit(WordBit(w)), CrcBits(r, n + 2));
    HoldsBit(WordBit(WordBit(WordBit(w))), CrcBits(r, n + 3));
  }

  // ---------- Numbers ----------

  // The lowest digit of a number.
  function DigitOf(x: int): Digit {
    Digit(x % 2 == 1, x / 2 % 2 == 1, x / 4 % 2 == 1, x / 8 % 2 == 1)
  }

  lemma {:induction false} TwoBits(x: nat, n: nat)
    ensures BitsOf(x, n + 2) == [x % 2 == 1, x / 2 % 2 == 1] + BitsOf(x / 4, n)
  {
    var rest := BitsOf(x / 2, n + 1);
    assert BitsOf(x, n + 2) == [x % 2 == 1] + rest;
    assert x / 2 / 2 == x / 4;
    assert rest == [x / 2 % 2 == 1] + BitsOf(x / 4, n);
  }

  lemma TwoAndTwo(u: seq<bool>, v: seq<bool>, w: seq<bool>, a: bool, b: bool, c: bool, d: bool)
    requires u == [a, b] + v && v == [c, d] + w
    ensures u == [a, b, c, d] + w
  {
  }

  lemma Quarter(x: nat)
    ensures x / 4 / 2 == x / 8 && x / 4 / 4 == x / 16
  {
  }

  lemma {:induction false} FourBits(x: nat, n: nat)
    ensures BitsOf(x, n + 4) == Four(DigitOf(x)) + BitsOf(x / 16, n)
  {
    var d := DigitOf(x);
    Quarter(x);
    TwoBits(x, n + 2);
    TwoBits(x / 4, n);
    TwoAndTwo(BitsOf(x, n + 4), BitsOf(x / 4, n + 2), BitsOf(x / 16, n), d.a, d.b, d.c, d.d);
  }

  function WordOf(x: int): Word {
    Word(DigitOf(x), DigitOf(x / 0x10), DigitOf(x / 0x100), DigitOf(x / 0x1000), DigitOf(x / 0x1_0000),
         DigitOf(x / 0x10_0000), DigitOf(x / 0x100_0000), DigitOf(x / 0x1000_0000))
  }

  lemma {:induction false} EightBits(x: nat, n: nat)
    ensures BitsOf(x, n + 8) == Four(DigitOf(x)) + Four(DigitOf(x / 0x10)) + BitsOf(x / 0x100, n)
  {
    FourBits(x, n + 4);
    FourBits(x / 0x10, n);
    assert x / 0x10 / 0x10 == x / 0x100;
  }

  lemma {:induction false} SixteenBits(x: nat, n: nat)
    ensures BitsOf(x, n + 16) == Sixteen(DigitOf(x), DigitOf(x / 0x10), DigitOf(x / 0x100), DigitOf(x / 0x1000))
                                 + BitsOf(x / 0x1_0000, n)
  {
    EightBits(x, n + 8);
    EightBits(x / 0x100, n);
    assert x / 0x100 / 0x10 == x / 0x1000 && x / 0x100 / 0x100 == x / 0x1_0000;
  }

  lemma {:induction false} NumberIs(x: U32)
    ensures BitsOf(x, 32) == Flat(WordOf(x))
  {
    var high := x / 0x1_0000;
    assert high / 0x10 == x / 0x10_0000 && high / 0x100 == x / 0x100_0000 && high / 0x1000 == x / 0x1000_0000;
    SixteenBits(x, 16);
    SixteenBits(high, 0);
  }

  lemma FourAt(x: Digit, r: Register, i: nat)
    requires i <= 28 && At(x, r, i)
    ensures r[i..i + 4] == Four(x)
  {
  }

  lemma SixteenAt(x0: Digit, x1: Digit, x2: Digit, x3: Digit, r: Register, i: nat)
    requires i <= 16 && At(x0, r, i) && At(x1, r, i + 4) && At(x2, r, i + 8) && At(x3, r, i + 12)
    ensures r[i..i + 16] == Sixteen(x0, x1, x2, x3)
  {
    FourAt(x0, r, i);
    FourAt(x1, r, i + 4);
    FourAt(x2, r, i + 8);
    FourAt(x3, r, i + 12);
    assert r[i..i + 16] == r[i..i + 4] + r[i + 4..i + 8] + r[i + 8..i + 12] + r[i + 12..i + 16];
  }

  lemma FlatIs(w: Word, r: Register)
    requires Holds(w, r)
    ensures r == Flat(w)
  {
    SixteenAt(w.d0, w.d1, w.d2, w.d3, r, 0);
    SixteenAt(w.d4, w.d5, w.d6, w.d7, r, 16);
    assert r == r[0..16] + r[16..32];
  }

  // ---------- Bytes ----------

  // Taking in a byte of the given digits.
  function WordByte(w: Word, low: Digit, high: Digit): Word {
    WordBits4(WordBits4(w.(d0 := XorDigit(w.d0, low), d1 := XorDigit(w.d1, high))))
  }

  lemma {:induction false} HoldsByte(w: Word, r: Register, b: Byte)
    requires Holds(w, r)
    ensures Holds(WordByte(w, DigitOf(b), DigitOf(b / 16)), CrcByte(r, b))
  {
    EightBits(b, 0);
    var v := w.(d0 := XorDigit(w.d0, DigitOf(b)), d1 := XorDigit(w.d1, DigitOf(b / 16)));
    assert Holds(v, Mix(r, b));
    HoldsBits4(v, Mix(r, b), 0);
    HoldsBits4(WordBits4(v), Mix(r, b), 4);
  }

  // ---------- The check value ----------

  // The text of the nine digits, in ASCII.
  predicate Nine(data: seq<Byte>) {
    |data| == 9 && forall k :: 0 <= k < 9 ==> data[k] == 0x31 + k
  }

  lemma AsciiDigit(k: nat)
    requires k < 9
    ensures DigitOf(0x31 + k) == DigitOf(1 + k) && DigitOf((0x31 + k) / 16) == D3
  {
  }

  lemma SmallDigits()
    ensures DigitOf(1) == D1 && DigitOf(2) == D2 && DigitOf(3) == D3
    ensures DigitOf(4) == D4 && DigitOf(5) == D5 && DigitOf(6) == D6
    ensures DigitOf(7) == D7 && DigitOf(8) == D8 && DigitOf(9) == D9
  {
  }

  lemma {:induction false} NextByte(data: seq<Byte>, k: nat, w: Word, digit: Digit, v: Word)
    requires Nine(data) && k < 9 && Holds(w, Crc(data[..k]))
    requires digit == DigitOf(1 + k) && v == WordByte(w, digit, D3)
    ensures Holds(v, Crc(data[..k + 1]))
  {
    assert data[..k + 1][..k] == data[..k];
    AsciiDigit(k);
    HoldsByte(w, Crc(data[..k]), data[k]);
  }

  lemma {:induction false} Start(data: seq<Byte>)
    ensures Holds(Word(DF, DF, DF, DF, DF, DF, DF, DF), Crc(data[..0]))
  {
  }

  lemma {:induction false} FirstThree(data: seq<Byte>)
    requires Nine(data)
    requires Holds(Word(DF, DF, DF, DF, DF, DF, DF, DF), Crc(data[..0]))
    ensures Holds(Word(DD, D2, DC, D9, D7, DB, D7, D7), Crc(data[..3]))
  {
    SmallDigits();
    NextByte(data, 0, Word(DF, DF, DF, DF, DF, DF, DF, DF), D1,
             Word(D8, D4, D0, D1, D3, D2, DC, D7));
    NextByte(data, 1, Word(D8, D4, D0, D1, D3, D2, DC, D7), D2,
             Word(D2, D3, DB, DB, DC, DA, D0, DB));
    NextByte(data, 2, Word(D2, D3, DB, DB, DC, DA, D0, DB), D3,
             Word(DD, D2, DC, D9, D7, DB, D7, D7));
  }

  lemma {:induction false} NextThree(data: seq<Byte>)
    requires Nine(data)
    requires Holds(Word(DD, D2, DC, D9, D7, DB, D7, D7), Crc(data[..3]))
    ensures Holds(Word(DE, D9, DC, D2, DD, D8, D6, DF), Crc(data[..6]))
  {
    SmallDigits();
    NextByte(data, 3, Word(DD, D2, DC, D9, D7, DB, D7, D7), D4,
             Word(DC, D5, DF, D1, DC, D1, D4, D6));
    NextByte(data, 4, Word(DC, D5, DF, D1, DC, D1, D4, D6), D5,
             Word(D3, DE, D5, DC, DA, D0, D4, D3));
    NextByte(data, 5, Word(D3, DE, D5, DC, DA, D0, D4, D3), D6,
             Word(DE, D9, DC, D2, DD, D8, D6, DF));
  }

  lemma {:induction false} LastThree(data: seq<Byte>)
    requires Nine(data)
    requires Holds(Word(DE, D9, DC, D2, DD, D8, D6, DF), Crc(data[..6]))
    ensures Holds(Word(D9, DD, D6, DC, DB, D0, D4, D3), Crc(data[..9]))
  {
    SmallDigits();
    NextByte(data, 6, Word(DE, D9, DC, D2, DD, D8, D6, DF), D7,
             Word(D0, D6, D6, D9, DC, DF, DF, DA));
    NextByte(data, 7, Word(D0, D6, D6, D9, DC, DF, DF, DA), D8,
             Word(D0, D5, D5, D2, DF, D1, D5, D6));
    NextByte(data, 8, Word(D0, D5, D5, D2, DF, D1, D5, D6), D9,
             Word(D9, DD, D6, DC, DB, D0, D4, D3));
  }

  function NotDigit(x: Digit): Digit {
    Digit(!x.a, !x.b, !x.c, !x.d)
  }

  function WordNot(w: Word): Word {
    Word(NotDigit(w.d0), NotDigit(w.d1), NotDigit(w.d2), NotDigit(w.d3),
         NotDigit(w.d4), NotDigit(w.d5), NotDigit(w.d6), NotDigit(w.d7))
  }

  lemma HoldsNot(w: Word, r: Register)
    requires Holds(w, r)
    ensures Holds(WordNot(w), Xor(r, seq(32, _ => true)))
  {
  }

  lemma LastWord()
    ensures WordNot(Word(D9, DD, D6, DC, DB, D0, D4, D3)) == WordOf(0xCBF4_3926)
  {
    LowWord();
    HighWord();
  }

  lemma LowWord()
    ensures DigitOf(0xCBF4_3926) == D6 && DigitOf(0xCBF4_392) == D2
    ensures DigitOf(0xCBF4_39) == D9 && DigitOf(0xCBF4_3) == D3
  {
  }

  lemma HighWord()
    ensures DigitOf(0xCBF4) == D4 && DigitOf(0xCBF) == DF && DigitOf(0xCB) == DB && DigitOf(0xC) == DC
  {
  }

  // The check value that the standard gives.
  lemma {:induction false} CheckValue(data: seq<Byte>)
    requires Nine(data)
    ensures Checksum(data) == 0xCBF4_3926
  {
    var last, r := Word(D9, DD, D6, DC, DB, D0, D4, D3), Xor(Crc(data), seq(32, _ => true));
    Start(data);
    FirstThree(data);
    NextThree(data);
    LastThree(data);
    assert data[..9] == data;
    HoldsNot(last, Crc(data));
    LastWord();
    FlatIs(WordNot(last), r);
    NumberIs(0xCBF4_3926);
    ValueBound(r);
    ValueOfBits(0xCBF4_3926, 32);
  }
}
