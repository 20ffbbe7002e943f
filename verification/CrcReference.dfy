// What the checksum is, apart from any register: the remainder of a division of
// polynomials over two elements, written as their coefficients from the highest
// degree down.
module CrcReference {
  import opened Sequences
  import opened Wire

  // The generator of the checksum of IEEE 802.3, also written 0x04C11DB7, is the sum
  // of x^32 and of x to these powers.
  predicate Power(k: int) {
    k in {26, 23, 22, 16, 12, 11, 10, 8, 7, 5, 4, 2, 1, 0}
  }

  // Its coefficients below x^32.
  function Generator(): (r: seq<bool>)
    ensures |r| == 32
  {
    seq(32, i => Power(31 - i))
  }

  // Long division: while the dividend has more than 32 coefficients, the divisor is
  // taken off if the first of them is one, and that one goes.
  function Remainder(s: seq<bool>): (r: seq<bool>)
    requires |s| >= 32
    ensures |r| == 32
    decreases |s|
  {
    if |s| == 32 then s
    else if s[0] then Remainder(Xor(s[1..33], Generator()) + s[33..])
    else Remainder(s[1..])
  }

  // A text as coefficients: every byte with its lowest bit first.
  function TextBits(data: seq<Byte>): (r: seq<bool>)
    ensures |r| == 8 * |data|
  {
    if data == [] then [] else BitsOf(data[0], 8) + TextBits(data[1..])
  }

  function Ones(n: nat): (r: seq<bool>)
    ensures |r| == n && forall i :: 0 <= i < n ==> r[i]
  {
    seq(n, _ => true)
  }

  // The dividend: the text times x^32, with its first 32 coefficients complemented.
  function Dividend(data: seq<Byte>): (r: seq<bool>)
    ensures |r| == 32 + 8 * |data|
  {
    Xor(Ones(32) + Zeros(8 * |data|), TextBits(data) + Zeros(32))
  }

  // ---------- The register divides ----------

  // The register of the codec lists its bits lowest first; its polynomial is the
  // generator.
  lemma SamePolynomial()
    ensures POLYNOMIAL == Generator()
  {
    forall i | 0 <= i < 32 ensures POLYNOMIAL[i] == Generator()[i] {
    }
  }

  // Taking in one bit.
  function CrcIn(c: Register, bit: bool): Register {
    CrcBit(c[0 := c[0] != bit])
  }

  function CrcInAll(c: Register, bits: seq<bool>): Register
    decreases |bits|
  {
    if bits == [] then c else CrcInAll(CrcIn(c, bits[0]), bits[1..])
  }

  // A register over a text, lined up at the front.
  function Over(c: Register, bits: seq<bool>): (r: seq<bool>)
    ensures |r| == 32 + |bits|
  {
    Xor(c + Zeros(|bits|), bits + Zeros(32))
  }

  // Without its first coefficient.
  lemma OverTail(c: Register, bits: seq<bool>)
    requires bits != []
    ensures Over(c, bits)[0] == (c[0] != bits[0])
    ensures Over(c, bits)[1..] == Over(c[1..] + [false], bits[1..])
  {
    var s, t, n := Over(c, bits), Over(c[1..] + [false], bits[1..]), |bits| - 1;
    forall i | 0 <= i < 32 + n ensures s[1..][i] == t[i] {
      assert s[i + 1] == ((c + Zeros(n + 1))[i + 1] != (bits + Zeros(32))[i + 1]);
      assert t[i] == ((c[1..] + [false] + Zeros(n))[i] != (bits[1..] + Zeros(32))[i]);
      assert (bits + Zeros(32))[i + 1] == (bits[1..] + Zeros(32))[i];
    }
  }

  // Taking the divisor off is taking it off the register.
  lemma OverXor(c: Register, p: Register, bits: seq<bool>)
    ensures Over(Xor(c, p), bits) == Xor(Over(c, bits)[..32], p) + Over(c, bits)[32..]
  {
    var s, t := Over(Xor(c, p), bits), Xor(Over(c, bits)[..32], p) + Over(c, bits)[32..];
    forall i | 0 <= i < |s| ensures s[i] == t[i] {
    }
  }

  // One step of the division is one step of the register.
  lemma DivideStep(c: Register, bits: seq<bool>)
    requires bits != []
    ensures Remainder(Over(c, bits)) == Remainder(Over(CrcIn(c, bits[0]), bits[1..]))
  {
    var s, shifted := Over(c, bits), c[1..] + [false];
    assert c[0 := c[0] != bits[0]][1..] == c[1..];
    OverTail(c, bits);
    SamePolynomial();
    if s[0] {
      OverXor(shifted, POLYNOMIAL, bits[1..]);
      assert s[1..][..32] == s[1..33] && s[1..][32..] == s[33..];
    }
  }

  lemma {:induction false} RegisterDivides(c: Register, bits: seq<bool>)
    ensures Remainder(Over(c, bits)) == CrcInAll(c, bits)
    decreases |bits|
  {
    if bits == [] {
      assert Over(c, []) == c;
    } else {
      DivideStep(c, bits);
      RegisterDivides(CrcIn(c, bits[0]), bits[1..]);
    }
  }

  // ---------- Byte by byte ----------

  lemma {:induction false} InAllConcat(c: Register, a: seq<bool>, b: seq<bool>)
    ensures CrcInAll(c, a + b) == CrcInAll(CrcInAll(c, a), b)
    decreases |a|
  {
    if a == [] {
      assert a + b == b;
    } else {
      assert (a + b)[1..] == a[1..] + b;
      InAllConcat(CrcIn(c, a[0]), a[1..], b);
    }
  }

  lemma {:induction false} StepsFirst(c: Register, n: nat)
    requires n > 0
    ensures CrcBits(c, n) == CrcBits(CrcBit(c), n - 1)
  {
    CrcBitsSum(c, 1, n - 1);
    assert CrcBits(c, 1) == CrcBit(CrcBits(c, 0));
  }

  // Taking in the first of some bits that are mixed in.
  lemma FirstBit(c: Register, bits: seq<bool>)
    requires 0 < |bits| <= 32
    ensures CrcBit(Xor(c, bits + Zeros(32 - |bits|))) == Xor(CrcIn(c, bits[0]), bits[1..] + Zeros(33 - |bits|))
  {
    var first, rest := c[0 := c[0] != bits[0]], [false] + bits[1..] + Zeros(32 - |bits|);
    assert Xor(c, bits + Zeros(32 - |bits|)) == Xor(first, rest);
    CrcBitLinear(first, rest);
    assert rest[1..] + [false] == bits[1..] + Zeros(33 - |bits|);
  }

  // Up to 32 bits can be taken in one at a time, or mixed in at once before the steps.
  lemma {:induction false} BitsAtOnce(c: Register, bits: seq<bool>)
    requires |bits| <= 32
    ensures CrcInAll(c, bits) == CrcBits(Xor(c, bits + Zeros(32 - |bits|)), |bits|)
    decreases |bits|
  {
    if bits == [] {
      assert Xor(c, bits + Zeros(32)) == c;
    } else {
      FirstBit(c, bits);
      StepsFirst(Xor(c, bits + Zeros(32 - |bits|)), |bits|);
      BitsAtOnce(CrcIn(c, bits[0]), bits[1..]);
    }
  }

  lemma ByteIn(c: Register, b: Byte)
    ensures CrcByte(c, b) == CrcInAll(c, BitsOf(b, 8))
  {
    BitsAtOnce(c, BitsOf(b, 8));
    assert Xor(c, BitsOf(b, 8) + Zeros(24)) == Mix(c, b);
  }

  lemma {:induction false} TextIn(c: Register, data: seq<Byte>)
    ensures CrcAll(c, data) == CrcInAll(c, TextBits(data))
    decreases |data|
  {
    if data != [] {
      ByteIn(c, data[0]);
      InAllConcat(c, BitsOf(data[0], 8), TextBits(data[1..]));
      TextIn(CrcByte(c, data[0]), data[1..]);
    }
  }

  // The checksum of any text is its remainder, complemented, with the coefficient of
  // the highest degree as the lowest bit.
  lemma ChecksumIsRemainder(data: seq<Byte>)
    ensures Checksum(data) == ValueOf(Xor(Remainder(Dividend(data)), Ones(32)))
  {
    var start := Ones(32);
    assert [] + data == data && Crc([]) == start;
    CrcConcat([], data);
    TextIn(start, data);
    RegisterDivides(start, TextBits(data));
    assert seq(32, _ => true) == Ones(32);
  }

  lemma ChecksumOfNothing()
    ensures Checksum([]) == 0
  {
    var r := Xor(Crc([]), seq(32, _ => true));
    assert r == Zeros(32);
    ZerosAreZero(32);
  }

  lemma {:induction false} ZerosAreZero(n: nat)
    ensures ValueOf(Zeros(n)) == 0
  {
    if n > 0 {
      assert Zeros(n)[1..] == Zeros(n - 1);
      ZerosAreZero(n - 1);
    }
  }
}
