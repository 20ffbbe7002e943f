// Bytes, big-endian integers and the CRC-32 checksum, as the binary codec uses them.
module Wire {

  type Byte = x: int | 0 <= x < 0x100
  type U16 = x: int | 0 <= x < 0x1_0000
  type U32 = x: int | 0 <= x < 0x1_0000_0000
  type U64 = x: int | 0 <= x < 0x1_0000_0000_0000_0000
  type I64 = x: int | -0x8000_0000_0000_0000 <= x < 0x8000_0000_0000_0000

  // ---------- Big-endian integers ----------

  function Big16(x: U16): (r: seq<Byte>)
    ensures |r| == 2
  {
    [x / 0x100, x % 0x100]
  }

  function Big32(x: U32): (r: seq<Byte>)
    ensures |r| == 4
  {
    Big16(x / 0x1_0000) + Big16(x % 0x1_0000)
  }

  function Big64(x: U64): (r: seq<Byte>)
    ensures |r| == 8
  {
    Big32(x / 0x1_0000_0000) + Big32(x % 0x1_0000_0000)
  }

  function U16At(s: seq<Byte>, i: nat): U16
    requires i + 2 <= |s|
  {
    (s[i] as int) * 0x100 + s[i + 1]
  }

  function U32At(s: seq<Byte>, i: nat): U32
    requires i + 4 <= |s|
  {
    (U16At(s, i) as int) * 0x1_0000 + U16At(s, i + 2)
  }

  function U64At(s: seq<Byte>, i: nat): U64
    requires i + 8 <= |s|
  {
    (U32At(s, i) as int) * 0x1_0000_0000 + U32At(s, i + 4)
  }

  // Reading and writing undo each other, in both directions.
  lemma Read16(s: seq<Byte>, i: nat, x: U16)
    requires i + 2 <= |s|
    ensures s[i..i + 2] == Big16(x) <==> U16At(s, i) == x
  {
    var t := s[i..i + 2];
    assert t[0] == s[i] && t[1] == s[i + 1];
  }

  lemma Read32(s: seq<Byte>, i: nat, x: U32)
    requires i + 4 <= |s|
    ensures s[i..i + 4] == Big32(x) <==> U32At(s, i) == x
  {
    var high, low := x / 0x1_0000, x % 0x1_0000;
    Read16(s, i, high);
    Read16(s, i + 2, low);
    assert s[i..i + 4] == s[i..i + 2] + s[i + 2..i + 4];
    HalvesEqual(s[i..i + 2], s[i + 2..i + 4], Big16(high), Big16(low));
  }

  lemma Read64(s: seq<Byte>, i: nat, x: U64)
    requires i + 8 <= |s|
    ensures s[i..i + 8] == Big64(x) <==> U64At(s, i) == x
  {
    var high, low := x / 0x1_0000_0000, x % 0x1_0000_0000;
    Read32(s, i, high);
    Read32(s, i + 4, low);
    assert s[i..i + 8] == s[i..i + 4] + s[i + 4..i + 8];
    HalvesEqual(s[i..i + 4], s[i + 4..i + 8], Big32(high), Big32(low));
  }

  lemma HalvesEqual<T>(a: seq<T>, b: seq<T>, c: seq<T>, d: seq<T>)
    requires |a| == |c|
    ensures a + b == c + d <==> a == c && b == d
  {
    assert (a + b)[..|a|] == a && (a + b)[|a|..] == b;
    assert (c + d)[..|a|] == c && (c + d)[|a|..] == d;
  }

  // Byte by byte, the first different one decides.
  predicate Before(a: seq<Byte>, b: seq<Byte>)
    requires |a| == |b|
  {
    a != [] && (a[0] < b[0] || (a[0] == b[0] && Before(a[1..], b[1..])))
  }

  lemma {:induction false} BeforeConcat(a: seq<Byte>, b: seq<Byte>, c: seq<Byte>, d: seq<Byte>)
    requires |a| == |c| && |b| == |d|
    ensures Before(a + b, c + d) == (Before(a, c) || (a == c && Before(b, d)))
  {
    if a == [] {
      assert a + b == b && c + d == d;
    } else {
      BeforeConcat(a[1..], b, c[1..], d);
      assert (a + b)[1..] == a[1..] + b && (c + d)[1..] == c[1..] + d;
      assert a == [a[0]] + a[1..] && c == [c[0]] + c[1..];
    }
  }

  // Written numbers are ordered as the numbers are, which is so for the most
  // significant byte first and for no other way to write every number.
  lemma {:induction false} Order16(x: U16, y: U16)
    ensures x < y <==> Before(Big16(x), Big16(y))
  {
    var a, b := Big16(x)[1..], Big16(y)[1..];
    assert a == [x % 0x100] && b == [y % 0x100];
    assert Before(a, b) <==> x % 0x100 < y % 0x100 by { assert !Before(a[1..], b[1..]); }
  }

  lemma {:induction false} Order32(x: U32, y: U32)
    ensures x < y <==> Before(Big32(x), Big32(y))
  {
    Order16(x / 0x1_0000, y / 0x1_0000);
    Order16(x % 0x1_0000, y % 0x1_0000);
    Order16(y / 0x1_0000, x / 0x1_0000);
    BeforeConcat(Big16(x / 0x1_0000), Big16(x % 0x1_0000), Big16(y / 0x1_0000), Big16(y % 0x1_0000));
  }

  lemma {:induction false} Order64(x: U64, y: U64)
    ensures x < y <==> Before(Big64(x), Big64(y))
  {
    Order32(x / 0x1_0000_0000, y / 0x1_0000_0000);
    Order32(x % 0x1_0000_0000, y % 0x1_0000_0000);
    Order32(y / 0x1_0000_0000, x / 0x1_0000_0000);
    BeforeConcat(Big32(x / 0x1_0000_0000), Big32(x % 0x1_0000_0000),
                 Big32(y / 0x1_0000_0000), Big32(y % 0x1_0000_0000));
  }

  // Go's conversions between int64 and uint64 keep the bits.
  function ToUnsigned(x: I64): (u: U64)
    ensures (u - x) % 0x1_0000_0000_0000_0000 == 0
  {
    if x < 0 then x + 0x1_0000_0000_0000_0000 else x
  }

  function ToSigned(x: U64): (r: I64)
    ensures ToUnsigned(r) == x
  {
    if x < 0x8000_0000_0000_0000 then x else x - 0x1_0000_0000_0000_0000
  }

  // ---------- CRC-32 (IEEE 802.3) ----------
  // The shift register is written as its 32 bits, least significant first.

  type Register = r: seq<bool> | |r| == 32 witness seq(32, _ => false)

  function BitsOf(x: nat, n: nat): (r: seq<bool>)
    ensures |r| == n
  {
    if n == 0 then [] else [x % 2 == 1] + BitsOf(x / 2, n - 1)
  }

  function ValueOf(bits: seq<bool>): nat {
    if bits == [] then 0 else (if bits[0] then 1 else 0) + 2 * ValueOf(bits[1..])
  }

  function Power2(n: nat): nat {
    if n == 0 then 1 else 2 * Power2(n - 1)
  }

  // The reflected polynomial 0xEDB88320.
  const POLYNOMIAL: Register := [
    false, false, false, false, false, true, false, false,
    true, true, false, false, false, false, false, true,
    false, false, false, true, true, true, false, true,
    true, false, true, true, false, true, true, true
  ]

  function Xor(a: seq<bool>, b: seq<bool>): (r: seq<bool>)
    requires |a| == |b|
    ensures |r| == |a|
  {
    seq(|a|, i requires 0 <= i < |a| => a[i] != b[i])
  }

  function CrcBit(c: Register): Register {
    var shifted := c[1..] + [false];
    if c[0] then Xor(shifted, POLYNOMIAL) else shifted
  }

  function CrcBits(c: Register, n: nat): Register {
    if n == 0 then c else CrcBit(CrcBits(c, n - 1))
  }

  function Mix(c: Register, b: Byte): Register {
    Xor(c[..8], BitsOf(b, 8)) + c[8..]
  }

  function CrcByte(c: Register, b: Byte): Register {
    CrcBits(Mix(c, b), 8)
  }

  function Crc(data: seq<Byte>): Register {
    if data == [] then seq(32, _ => true) else CrcByte(Crc(data[..|data| - 1]), data[|data| - 1])
  }

  function Checksum(data: seq<Byte>): U32 {
    var r := Xor(Crc(data), seq(32, _ => true));
    ValueBound(r);
    ValueOf(r)
  }

  lemma {:induction false} ValueBound(bits: seq<bool>)
    ensures ValueOf(bits) < Power2(|bits|)
    ensures Power2(32) == 0x1_0000_0000
  {
    assert Power2(8) == 0x100;
    assert Power2(16) == 0x1_0000;
    assert Power2(24) == 0x100_0000;
    if bits != [] { ValueBound(bits[1..]); }
  }

  lemma {:induction false} ValueInjective(a: seq<bool>, b: seq<bool>)
    requires |a| == |b| && ValueOf(a) == ValueOf(b)
    ensures a == b
  {
    if a != [] {
      ValueInjective(a[1..], b[1..]);
      assert a == [a[0]] + a[1..] && b == [b[0]] + b[1..];
    }
  }

  lemma {:induction false} ValueOfBits(x: nat, n: nat)
    requires x < Power2(n)
    ensures ValueOf(BitsOf(x, n)) == x
  {
    if n > 0 {
      ValueOfBits(x / 2, n - 1);
      assert BitsOf(x, n)[1..] == BitsOf(x / 2, n - 1);
    }
  }

  lemma XorInjective(a: seq<bool>, b: seq<bool>, c: seq<bool>)
    requires |a| == |b| == |c| && Xor(a, c) == Xor(b, c)
    ensures a == b
  {
    forall i | 0 <= i < |a| ensures a[i] == b[i] {
      assert Xor(a, c)[i] == Xor(b, c)[i];
    }
  }

  // The top bit of the polynomial is set, so the bit shifted out can be told.
  lemma CrcBitInjective(a: Register, b: Register)
    requires CrcBit(a) == CrcBit(b)
    ensures a == b
  {
    var x, y := a[1..] + [false], b[1..] + [false];
    assert CrcBit(a)[31] == a[0] && CrcBit(b)[31] == b[0];
    if a[0] { XorInjective(x, y, POLYNOMIAL); }
    assert x[..31] == a[1..] && y[..31] == b[1..];
    assert a == [a[0]] + a[1..] && b == [b[0]] + b[1..];
  }

  lemma {:induction false} CrcBitsInjective(a: Register, b: Register, n: nat)
    requires CrcBits(a, n) == CrcBits(b, n)
    ensures a == b
  {
    if n > 0 {
      CrcBitInjective(CrcBits(a, n - 1), CrcBits(b, n - 1));
      CrcBitsInjective(a, b, n - 1);
    }
  }

  lemma MixRegisterInjective(c: Register, d: Register, b: Byte)
    requires Mix(c, b) == Mix(d, b)
    ensures c == d
  {
    var x := BitsOf(b, 8);
    assert Mix(c, b)[..8] == Xor(c[..8], x) && Mix(d, b)[..8] == Xor(d[..8], x);
    XorInjective(c[..8], d[..8], x);
    assert Mix(c, b)[8..] == c[8..] && Mix(d, b)[8..] == d[8..];
    assert c == c[..8] + c[8..] && d == d[..8] + d[8..];
  }

  lemma ChecksumInjective(x: seq<Byte>, y: seq<Byte>)
    requires Checksum(x) == Checksum(y)
    ensures Crc(x) == Crc(y)
  {
    var ones := seq(32, _ => true);
    ValueInjective(Xor(Crc(x), ones), Xor(Crc(y), ones));
    XorInjective(Crc(x), Crc(y), ones);
  }

  // ---------- Bursts ----------

  function Zeros(n: nat): (r: seq<bool>)
    ensures |r| == n && forall i :: 0 <= i < n ==> !r[i]
  {
    seq(n, _ => false)
  }

  // The register is linear in its contents.
  lemma CrcBitLinear(a: Register, b: Register)
    ensures CrcBit(Xor(a, b)) == Xor(CrcBit(a), CrcBit(b))
  {
    var x, y, z := a[1..] + [false], b[1..] + [false], Xor(a, b)[1..] + [false];
    assert z == Xor(x, y);
    var left, right := CrcBit(Xor(a, b)), Xor(CrcBit(a), CrcBit(b));
    forall i | 0 <= i < 32 ensures left[i] == right[i] {
      assert Xor(a, b)[0] == (a[0] != b[0]) && z[i] == (x[i] != y[i]);
    }
  }

  lemma {:induction false} CrcBitsLinear(a: Register, b: Register, n: nat)
    ensures CrcBits(Xor(a, b), n) == Xor(CrcBits(a, n), CrcBits(b, n))
  {
    if n > 0 {
      CrcBitsLinear(a, b, n - 1);
      CrcBitLinear(CrcBits(a, n - 1), CrcBits(b, n - 1));
    }
  }

  // While no bit reaches the end, stepping only moves the bits along.
  lemma {:induction false} CrcBitsShift(a: Register, n: nat)
    requires n <= 32 && forall i :: 0 <= i < n ==> !a[i]
    ensures CrcBits(a, n) == a[n..] + Zeros(n)
  {
    if n == 0 {
      assert a[0..] + Zeros(0) == a;
    } else {
      CrcBitsShift(a, n - 1);
      var before := CrcBits(a, n - 1);
      assert before[0] == a[n - 1];
      assert before[1..] + [false] == a[n..] + Zeros(n);
    }
  }

  lemma {:induction false} CrcBitsSum(c: Register, j: nat, k: nat)
    ensures CrcBits(c, j + k) == CrcBits(CrcBits(c, j), k)
  {
    if k > 0 { CrcBitsSum(c, j, k - 1); }
  }

  // The register after some more bytes.
  function CrcAll(c: Register, bytes: seq<Byte>): Register
    decreases |bytes|
  {
    if bytes == [] then c else CrcAll(CrcByte(c, bytes[0]), bytes[1..])
  }

  // Up to four bytes as one register.
  function Word(bytes: seq<Byte>): Register
    requires |bytes| <= 4
  {
    if bytes == [] then Zeros(32) else BitsOf(bytes[0], 8) + Word(bytes[1..])[..24]
  }

  lemma {:induction false} WordEnd(bytes: seq<Byte>)
    requires |bytes| <= 4
    ensures forall i :: 8 * |bytes| <= i < 32 ==> !Word(bytes)[i]
  {
    if bytes != [] { WordEnd(bytes[1..]); }
  }

  // Bits behind the first eight can be mixed in before a byte or after it.
  lemma MixAhead(c: Register, b: Byte, rest: seq<bool>)
    requires |rest| == 24
    ensures CrcBits(Xor(c, BitsOf(b, 8) + rest), 8) == Xor(CrcByte(c, b), rest + Zeros(8))
  {
    var ahead := Zeros(8) + rest;
    assert Xor(c, BitsOf(b, 8) + rest) == Xor(Mix(c, b), ahead);
    CrcBitsLinear(Mix(c, b), ahead, 8);
    CrcBitsShift(ahead, 8);
    assert ahead[8..] == rest;
  }

  // Taking in up to four bytes is mixing them in at once and stepping.
  lemma {:induction false} CrcAllIsWord(c: Register, bytes: seq<Byte>)
    requires |bytes| <= 4
    ensures CrcAll(c, bytes) == CrcBits(Xor(c, Word(bytes)), 8 * |bytes|)
    decreases |bytes|
  {
    if bytes == [] {
      assert Xor(c, Zeros(32)) == c;
    } else {
      var next := Word(bytes[1..]);
      WordEnd(bytes[1..]);
      assert next[..24] + Zeros(8) == next;
      MixAhead(c, bytes[0], next[..24]);
      CrcBitsSum(Xor(c, Word(bytes)), 8, 8 * |bytes[1..]|);
      CrcAllIsWord(CrcByte(c, bytes[0]), bytes[1..]);
    }
  }

  lemma ByteInjective(a: Byte, b: Byte)
    requires BitsOf(a, 8) == BitsOf(b, 8)
    ensures a == b
  {
    assert Power2(8) == 0x100;
    ValueOfBits(a, 8);
    ValueOfBits(b, 8);
  }

  lemma {:induction false} WordInjective(a: seq<Byte>, b: seq<Byte>)
    requires |a| == |b| <= 4 && Word(a) == Word(b)
    ensures a == b
  {
    if a != [] {
      assert BitsOf(a[0], 8) == Word(a)[..8] == Word(b)[..8] == BitsOf(b[0], 8);
      ByteInjective(a[0], b[0]);
      var x, y := Word(a[1..]), Word(b[1..]);
      assert x[..24] == Word(a)[8..] == Word(b)[8..] == y[..24];
      WordEnd(a[1..]);
      WordEnd(b[1..]);
      assert x == x[..24] + Zeros(8) && y == y[..24] + Zeros(8);
      WordInjective(a[1..], b[1..]);
      assert a == [a[0]] + a[1..] && b == [b[0]] + b[1..];
    }
  }

  // From the same register, different bursts of up to four bytes lead to different
  // registers.
  lemma BurstInjective(c: Register, a: seq<Byte>, b: seq<Byte>)
    requires |a| == |b| <= 4 && CrcAll(c, a) == CrcAll(c, b)
    ensures a == b
  {
    CrcAllIsWord(c, a);
    CrcAllIsWord(c, b);
    CrcBitsInjective(Xor(c, Word(a)), Xor(c, Word(b)), 8 * |a|);
    forall i | 0 <= i < 32 ensures Word(a)[i] == Word(b)[i] {
      assert Xor(c, Word(a))[i] == Xor(c, Word(b))[i];
    }
    WordInjective(a, b);
  }

  // From different registers, the same bytes lead to different registers.
  lemma {:induction false} TailInjective(c: Register, d: Register, bytes: seq<Byte>)
    requires CrcAll(c, bytes) == CrcAll(d, bytes)
    ensures c == d
    decreases |bytes|
  {
    if bytes != [] {
      TailInjective(CrcByte(c, bytes[0]), CrcByte(d, bytes[0]), bytes[1..]);
      CrcBitsInjective(Mix(c, bytes[0]), Mix(d, bytes[0]), 8);
      MixRegisterInjective(c, d, bytes[0]);
    }
  }

  lemma {:induction false} CrcConcat(x: seq<Byte>, y: seq<Byte>)
    ensures Crc(x + y) == CrcAll(Crc(x), y)
    decreases |y|
  {
    if y == [] {
      assert x + y == x;
    } else {
      var first := x + [y[0]];
      assert first[..|first| - 1] == x;
      assert first + y[1..] == x + y;
      CrcConcat(first, y[1..]);
    }
  }

  // Changing up to four consecutive bytes of a text always changes its checksum.
  lemma BurstMatters(front: seq<Byte>, a: seq<Byte>, b: seq<Byte>, back: seq<Byte>)
    requires |a| == |b| <= 4 && a != b
    ensures Checksum(front + a + back) != Checksum(front + b + back)
  {
    if Checksum(front + a + back) == Checksum(front + b + back) {
      ChecksumInjective(front + a + back, front + b + back);
      CrcConcat(front + a, back);
      CrcConcat(front + b, back);
      TailInjective(Crc(front + a), Crc(front + b), back);
      CrcConcat(front, a);
      CrcConcat(front, b);
      BurstInjective(Crc(front), a, b);
    }
  }
}
