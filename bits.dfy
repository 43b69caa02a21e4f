/** The bit layer of the codec: single bits of a byte, least-significant-bit
    substitution, and the conversions between bytes or 32-bit words and their
    bits listed most significant bit first. Bytes are `bv8` (the bit pattern of
    a Java `byte`), words are `bv32` (the bit pattern of a Java `int`). */
module Bits {

  /** One bit of hidden information. */
  type Bit = bv1

  /** The least-significant bit of a carrier byte (`b & 1`). */
  function Lsb(b: bv8): Bit {
    (b & 1) as Bit
  }

  /** `a` and `b` agree in their upper seven bits (`a & 0xFE == b & 0xFE`). */
  predicate SameHighBits(a: bv8, b: bv8) {
    a & 0xFE == b & 0xFE
  }

  /** Replaces the least-significant bit of `b` by `bit`, keeping the upper
      seven bits (`(b & 0xFE) | bit`). */
  function SetLsb(b: bv8, bit: Bit): (r: bv8)
    ensures Lsb(r) == bit
    ensures SameHighBits(r, b)
    ensures Lsb(b) == bit ==> r == b
  {
    (b & 0xFE) | (bit as bv8)
  }

  /** Bit number `k` of `x`, counting from the least-significant bit
      (`(x >>> k) & 1`). */
  function BitOf(x: bv8, k: nat): Bit
    requires k < 8
  {
    if k == 0 then (x & 1) as Bit else BitOf(x >> 1, k - 1)
  }

  /** The eight bits of a byte, most significant first. */
  function ByteBits(x: bv8): (r: seq<Bit>)
    ensures |r| == 8
  {
    seq(8, k requires 0 <= k < 8 => BitOf(x, 7 - k))
  }

  /** The bits of a byte string: every byte in turn, each most significant
      bit first. */
  function BytesToBits(s: seq<bv8>): (r: seq<Bit>)
    ensures |r| == 8 * |s|
  {
    seq(8 * |s|, k requires 0 <= k < 8 * |s| => BitOf(s[k / 8], 7 - k % 8))
  }

  /** The least-significant bits of a run of carrier bytes. */
  function Lsbs(s: seq<bv8>): (r: seq<Bit>)
    ensures |r| == |s|
  {
    seq(|s|, j requires 0 <= j < |s| => Lsb(s[j]))
  }

  /** Accumulates bits into a byte the way a Java `byte` does, shifting left
      once per bit and keeping the low eight bits
      (`acc = (byte) ((acc << 1) | bit)`). */
  function ByteOfBits(bits: seq<Bit>): bv8 {
    if bits == [] then 0
    else (ByteOfBits(bits[..|bits| - 1]) << 1) | (bits[|bits| - 1] as bv8)
  }

  /** Accumulates bits into a Java `int`, shifting left once per bit
      (`acc = (acc << 1) | bit`); bits shifted past bit 31 are lost. */
  function WordOfBits(bits: seq<Bit>): bv32 {
    if bits == [] then 0
    else (WordOfBits(bits[..|bits| - 1]) << 1) | (bits[|bits| - 1] as bv32)
  }

  /** Bit number `k` of a 32-bit word, counting from the least-significant
      bit. */
  function WordBitOf(w: bv32, k: bv32): Bit
    requires k < 32
  {
    ((w >> k) & 1) as Bit
  }

  /** `Pow2(n)` is 2^n. */
  function Pow2(n: nat): (r: nat)
    ensures r >= 1
  {
    if n == 0 then 1 else 2 * Pow2(n - 1)
  }

  /** The unsigned number whose binary digits, most significant first, are
      `bits`. */
  function Value(bits: seq<Bit>): nat {
    if bits == [] then 0 else 2 * Value(bits[..|bits| - 1]) + bits[|bits| - 1] as int
  }

  // ---------------------------------------------------------------------
  // Bytes and their bits

  /** Reading one more carrier byte shifts its least-significant bit into a
      byte accumulator. */
  lemma ByteOfBitsStep(s: seq<bv8>, x: bv8)
    ensures ByteOfBits(Lsbs(s + [x])) == (ByteOfBits(Lsbs(s)) << 1) | (x & 1)
  {
    assert Lsbs(s + [x])[..|s|] == Lsbs(s);
  }

  /** Reading one more carrier byte shifts its least-significant bit into a
      word accumulator. */
  lemma WordOfBitsStep(s: seq<bv8>, x: bv8)
    ensures WordOfBits(Lsbs(s + [x])) == (WordOfBits(Lsbs(s)) << 1) | ((x & 1) as bv32)
  {
    assert Lsbs(s + [x])[..|s|] == Lsbs(s);
  }

  /** `BitOf` is the Java expression `(x >>> k) & 1`. */
  lemma {:induction false} BitOfShift(x: bv8, k: nat)
    requires k < 8
    ensures BitOf(x, k) == ((x >> k) & 1) as Bit
  {
    if k > 0 {
      BitOfShift(x >> 1, k - 1);
    }
  }

  /** Shifting a bit into a byte below its top bit and shifting it out again gives the byte back. */
  lemma ShiftOutByteBit(x: bv8, b: Bit)
    requires x as int < 0x80
    ensures ((x << 1) | (b as bv8)) >> 1 == x
  {
  }

  lemma {:induction false} ByteOfBitsBits(bits: seq<Bit>, j: nat)
    requires |bits| <= 8 && j < |bits|
    ensures BitOf(ByteOfBits(bits), j) == bits[|bits| - 1 - j]
  {
    if j > 0 {
      var p, last := bits[..|bits| - 1], bits[|bits| - 1];
      assert bits == p + [last];
      ByteOfBitsValue(p);
      ByteBelowTopBit(p);
      ByteOfBitsSnoc(p, last);
      ShiftOutByteBit(ByteOfBits(p), last);
      ByteOfBitsBits(p, j - 1);
    }
  }

  /** The byte accumulated from eight bits has exactly those bits, most
      significant first. */
  lemma BitsRoundTrip(bits: seq<Bit>)
    requires |bits| == 8
    ensures ByteBits(ByteOfBits(bits)) == bits
  {
    forall k | 0 <= k < 8
      ensures ByteBits(ByteOfBits(bits))[k] == bits[k]
    {
      ByteOfBitsBits(bits, 7 - k);
    }
  }

  /** A byte is determined by its eight bits. */
  lemma ByteBitsInjective(a: bv8, b: bv8)
    requires ByteBits(a) == ByteBits(b)
    ensures a == b
  {
    forall k | 0 <= k < 8
      ensures BitOf(a, k) == BitOf(b, k)
    {
      assert BitOf(a, k) == ByteBits(a)[7 - k] == ByteBits(b)[7 - k] == BitOf(b, k);
    }
    BitOfShift(a, 0); BitOfShift(b, 0);
    BitOfShift(a, 1); BitOfShift(b, 1);
    BitOfShift(a, 2); BitOfShift(b, 2);
    BitOfShift(a, 3); BitOfShift(b, 3);
    BitOfShift(a, 4); BitOfShift(b, 4);
    BitOfShift(a, 5); BitOfShift(b, 5);
    BitOfShift(a, 6); BitOfShift(b, 6);
    BitOfShift(a, 7); BitOfShift(b, 7);
  }

  /** Accumulating the bits of a byte, most significant first, gives the byte
      back. */
  lemma ByteRoundTrip(x: bv8)
    ensures ByteOfBits(ByteBits(x)) == x
  {
    BitsRoundTrip(ByteBits(x));
    ByteBitsInjective(ByteOfBits(ByteBits(x)), x);
  }

  /** The bits of a byte string start with the bits of its first byte. */
  lemma BytesToBitsCons(s: seq<bv8>)
    requires s != []
    ensures BytesToBits(s) == ByteBits(s[0]) + BytesToBits(s[1..])
  {
    var r := ByteBits(s[0]) + BytesToBits(s[1..]);
    forall k | 0 <= k < 8 * |s|
      ensures BytesToBits(s)[k] == r[k]
    {
      if k >= 8 {
        assert (k - 8) / 8 == k / 8 - 1 && (k - 8) % 8 == k % 8;
      }
    }
  }

  /** Bit `bit` of byte `i` is bit `8*i + (7 - bit)` of the byte string. */
  lemma BytesToBitsIndex(s: seq<bv8>, i: nat, bit: nat)
    requires i < |s| && bit < 8
    ensures BytesToBits(s)[8 * i + (7 - bit)] == BitOf(s[i], bit)
  {
    var k := 8 * i + (7 - bit);
    assert k / 8 == i && k % 8 == 7 - bit;
  }

  /** Bits `8*i .. 8*i + 8` of a byte string are the bits of byte `i`. */
  lemma BytesToBitsBlock(s: seq<bv8>, i: nat)
    requires i < |s|
    ensures BytesToBits(s)[8 * i .. 8 * i + 8] == ByteBits(s[i])
  {
    forall k | 0 <= k < 8
      ensures BytesToBits(s)[8 * i + k] == ByteBits(s[i])[k]
    {
      assert (8 * i + k) / 8 == i && (8 * i + k) % 8 == k;
    }
  }

  // ---------------------------------------------------------------------
  // Numeric value of a bit string

  /** 2^n grows with n. */
  lemma {:induction false} Pow2Monotone(a: nat, b: nat)
    requires a <= b
    ensures Pow2(a) <= Pow2(b)
    decreases b
  {
    if a < b {
      Pow2Monotone(a, b - 1);
    }
  }

  /** 2^(a+b) is 2^a times 2^b. */
  lemma {:induction false} Pow2Add(a: nat, b: nat)
    ensures Pow2(a + b) == Pow2(a) * Pow2(b)
    decreases b
  {
    if b > 0 {
      Pow2Add(a, b - 1);
      var x, y := Pow2(a), Pow2(b - 1);
      assert 2 * (x * y) == x * (2 * y);
    }
  }

  /** The powers of two the byte and word widths need. */
  lemma Pow2Constants()
    ensures Pow2(8) == 0x100 && Pow2(24) == 0x100_0000
    ensures Pow2(31) == 0x8000_0000 && Pow2(32) == 0x1_0000_0000
  {
    Pow2Add(8, 8);
    Pow2Add(16, 8);
    Pow2Add(24, 7);
    Pow2Add(24, 8);
  }

  /** Up to 31 bits, 2^n does not pass the sign bit of a Java `int`. */
  lemma Pow2AtMost31(n: nat)
    requires n <= 31
    ensures Pow2(n) <= 0x8000_0000
  {
    Pow2Monotone(n, 31);
    Pow2Constants();
  }

  /** `n` bits hold a number below `2^n`. */
  lemma {:induction false} ValueBound(bits: seq<Bit>)
    ensures Value(bits) < Pow2(|bits|)
  {
    if bits != [] {
      ValueBound(bits[..|bits| - 1]);
    }
  }

  /** Doubling a product doubles either factor. */
  lemma DoubleProduct(a: int, b: int)
    ensures 2 * (a * b) == a * (2 * b)
  {
  }

  /** Appending `q` to `p` shifts the value of `p` left by `|q|` bits. */
  lemma {:induction false} ValueAppend(p: seq<Bit>, q: seq<Bit>)
    ensures Value(p + q) == Value(p) * Pow2(|q|) + Value(q)
    decreases |q|
  {
    if q == [] {
      assert p + q == p;
    } else {
      var q', last := q[..|q| - 1], q[|q| - 1] as int;
      assert (p + q)[..|p + q| - 1] == p + q';
      ValueAppend(p, q');
      var vp, pw, vq := Value(p), Pow2(|q'|), Value(q');
      assert Value(p + q) == 2 * (vp * pw + vq) + last;
      assert Value(q) == 2 * vq + last;
      assert Pow2(|q|) == 2 * pw;
      DoubleProduct(vp, pw);
    }
  }

  /** The first of `n` bits decides whether their value reaches `2^(n-1)`. */
  lemma {:induction false} ValueTopBit(bits: seq<Bit>)
    requires bits != []
    ensures Value(bits) >= Pow2(|bits| - 1) <==> bits[0] == 1
  {
    var rest := bits[1..];
    assert bits == [bits[0]] + rest;
    ValueAppend([bits[0]], rest);
    assert [bits[0]][..0] == [];
    ValueBound(rest);
  }

  /** Shifting a bit into a byte below its top bit doubles its value and adds the bit. */
  lemma ShiftInByteBit(x: bv8, b: Bit)
    requires x as int < 0x80
    ensures ((x << 1) | (b as bv8)) as int == 2 * (x as int) + b as int
  {
  }

  /** Accumulating one more bit shifts it into the byte. */
  lemma ByteOfBitsSnoc(p: seq<Bit>, last: Bit)
    ensures ByteOfBits(p + [last]) == (ByteOfBits(p) << 1) | (last as bv8)
  {
    assert (p + [last])[..|p|] == p;
  }

  /** At most seven accumulated bits stay below the top bit of a byte. */
  lemma ByteBelowTopBit(p: seq<Bit>)
    requires |p| <= 7
    requires ByteOfBits(p) as int == Value(p)
    ensures ByteOfBits(p) as int < 0x80
  {
    ValueBound(p);
    Pow2Monotone(|p|, 7);
  }

  /** Up to eight bits accumulated into a byte give the byte whose unsigned
      value is the value of the bits. */
  lemma {:induction false} ByteOfBitsValue(bits: seq<Bit>)
    requires |bits| <= 8
    ensures ByteOfBits(bits) as int == Value(bits)
  {
    if bits != [] {
      var p, last := bits[..|bits| - 1], bits[|bits| - 1];
      assert bits == p + [last];
      ByteOfBitsValue(p);
      ByteBelowTopBit(p);
      ByteOfBitsSnoc(p, last);
      ShiftInByteBit(ByteOfBits(p), last);
    }
  }

  /** The bits of a byte, most significant first, have the byte's unsigned
      value. */
  lemma ByteBitsValue(x: bv8)
    ensures Value(ByteBits(x)) == x as int
  {
    ByteOfBitsValue(ByteBits(x));
    ByteRoundTrip(x);
  }

  /** Shifting a bit into a word below its sign bit doubles its value and adds the bit. */
  lemma ShiftInWordBit(x: bv32, b: Bit)
    requires x as int < 0x8000_0000
    ensures ((x << 1) | (b as bv32)) as int == 2 * (x as int) + b as int
  {
  }

  /** Accumulating one more bit shifts it into the word. */
  lemma WordOfBitsSnoc(p: seq<Bit>, last: Bit)
    ensures WordOfBits(p + [last]) == (WordOfBits(p) << 1) | (last as bv32)
  {
    assert (p + [last])[..|p|] == p;
  }

  /** Up to 32 bits accumulated into a Java `int` give the word whose unsigned
      value is the value of the bits. */
  lemma {:induction false} WordOfBitsValue(bits: seq<Bit>)
    requires |bits| <= 32
    ensures WordOfBits(bits) as int == Value(bits)
  {
    if bits != [] {
      var p, last := bits[..|bits| - 1], bits[|bits| - 1];
      assert bits == p + [last];
      WordOfBitsValue(p);
      WordBelowSignBit(p);
      WordOfBitsSnoc(p, last);
      ShiftInWordBit(WordOfBits(p), last);
    }
  }

  /** At most 31 accumulated bits stay below the sign bit. */
  lemma WordBelowSignBit(p: seq<Bit>)
    requires |p| <= 31
    requires WordOfBits(p) as int == Value(p)
    ensures WordOfBits(p) as int < 0x8000_0000
  {
    ValueBound(p);
    Pow2AtMost31(|p|);
  }

  /** Thirty-two bits accumulated into a word: its unsigned value is theirs,
      and it reaches `2^31` (the sign bit of a Java `int`) exactly when the
      first bit is set. */
  lemma WordTopBit(bits: seq<Bit>)
    requires |bits| == 32
    ensures WordOfBits(bits) as int == Value(bits)
    ensures WordOfBits(bits) as int >= 0x8000_0000 <==> bits[0] == 1
  {
    WordOfBitsValue(bits);
    ValueTopBit(bits);
    Pow2Constants();
  }

  /** A word is determined by its unsigned value. */
  lemma WordInjective(a: bv32, b: bv32)
    requires a as int == b as int
    ensures a == b
  {
    var x := a as int;
    assert x as bv32 == a;
  }

  /** The word whose unsigned value is `n`. */
  function UnsignedBits(n: nat): (w: bv32)
    requires n < 0x1_0000_0000
    ensures w as int == n
  {
    if n == 0 then 0
    else
      var high := UnsignedBits(n / 2);
      var low: Bit := if n % 2 == 0 then 0 else 1;
      ShiftInWordBit(high, low);
      (high << 1) | (low as bv32)
  }

  /** Bit `j` of a word accumulated from at most 32 bits is the `j`-th bit
      from the end of those bits. */
  lemma {:induction false} WordOfBitsBits(bits: seq<Bit>, j: bv32)
    requires |bits| <= 32 && j as int < |bits|
    ensures WordBitOf(WordOfBits(bits), j) == bits[|bits| - 1 - j as int]
    decreases |bits|
  {
    if j > 0 {
      assert (j - 1) as int == j as int - 1;
      WordOfBitsBits(bits[..|bits| - 1], j - 1);
    }
  }
}
