/** The least-significant-bit codec of the image steganography controller.

    A carrier is the raw byte buffer of an image (three bytes per pixel). A
    message is hidden one bit per carrier byte, in the byte's least-significant
    bit: first the message length as a 4-byte big-endian prefix in carrier
    bytes 0..31, then the message bytes from carrier byte 32 on, every byte
    most significant bit first. */
module Steganography {
  import opened Java
  import opened Bits

  // ---------------------------------------------------------------------
  // Length framing: bit_conversion

  /** The four bytes of a Java `int`, most significant first. */
  function BitConversion(i: bv32): (r: seq<bv8>)
    ensures |r| == 4
  {
    [((i & 0xFF00_0000) >> 24) as bv8,
     ((i & 0x00FF_0000) >> 16) as bv8,
     ((i & 0x0000_FF00) >> 8) as bv8,
     (i & 0x0000_00FF) as bv8]
  }

  /** Appends a byte below the bits of `hi`. */
  function Join(hi: bv32, b: bv8): bv32 {
    (hi << 8) | (b as bv32)
  }

  /** The four bytes, most significant first, reassemble the int: the
      conversion is big-endian and loses nothing. */
  lemma BitConversionBigEndian(i: bv32)
    ensures var r := BitConversion(i);
      i == Join(Join(Join(r[0] as bv32, r[1]), r[2]), r[3])
  {
  }

  /** Appending a byte below a word under 2^24 multiplies its value by 256 and adds the byte. */
  lemma JoinValue(hi: bv32, b: bv8)
    requires hi as int < 0x100_0000
    ensures Join(hi, b) as int == 256 * (hi as int) + b as int
  {
    assert ((hi << 8) | (b as bv32)) as int == 256 * (hi as int) + b as int;
  }

  /** Four bytes joined most significant first have the base-256 value of
      those bytes. */
  lemma JoinedValue(b0: bv8, b1: bv8, b2: bv8, b3: bv8)
    ensures Join(Join(Join(b0 as bv32, b1), b2), b3) as int
      == ((b0 as int * 256 + b1 as int) * 256 + b2 as int) * 256 + b3 as int
  {
    var x0 := b0 as bv32;
    assert x0 as int == b0 as int;
    JoinValue(x0, b1);
    var x1 := Join(x0, b1);
    JoinValue(x1, b2);
    var x2 := Join(x1, b2);
    JoinValue(x2, b3);
  }

  /** The unsigned value of `i` is the base-256 number of its four bytes, most significant first. */
  lemma BitConversionValue(i: bv32)
    ensures var r := BitConversion(i);
      i as int == ((r[0] as int * 256 + r[1] as int) * 256 + r[2] as int) * 256 + r[3] as int
  {
    var r := BitConversion(i);
    BitConversionBigEndian(i);
    JoinedValue(r[0], r[1], r[2], r[3]);
  }

  /** The bits of four bytes are the bits of each byte in turn. */
  lemma FourBytesBits(r: seq<bv8>)
    requires |r| == 4
    ensures BytesToBits(r) == ((ByteBits(r[0]) + ByteBits(r[1])) + ByteBits(r[2])) + ByteBits(r[3])
  {
    var r1 := r[1..];
    var r2 := r1[1..];
    var r3 := r2[1..];
    BytesToBitsCons(r);
    BytesToBitsCons(r1);
    BytesToBitsCons(r2);
    BytesToBitsCons(r3);
    assert r1[0] == r[1] && r2[0] == r[2] && r3[0] == r[3];
    assert BytesToBits(r3[1..]) == [];
  }

  /** Four 8-bit strings in a row spell the base-256 number of their values. */
  lemma FourBitStringsValue(b0: seq<Bit>, b1: seq<Bit>, b2: seq<Bit>, b3: seq<Bit>)
    requires |b0| == |b1| == |b2| == |b3| == 8
    ensures Value(((b0 + b1) + b2) + b3)
      == ((Value(b0) * 256 + Value(b1)) * 256 + Value(b2)) * 256 + Value(b3)
  {
    assert Pow2(8) == 256 by { Pow2Constants(); }
    var v0, v1, v2, v3 := Value(b0), Value(b1), Value(b2), Value(b3);
    ValueAppend(b0, b1);
    var w1 := Value(b0 + b1);
    assert w1 == v0 * 256 + v1;
    ValueAppend(b0 + b1, b2);
    var w2 := Value((b0 + b1) + b2);
    assert w2 == w1 * 256 + v2;
    ValueAppend((b0 + b1) + b2, b3);
    assert Value(((b0 + b1) + b2) + b3) == w2 * 256 + v3;
  }

  /** The 32 bits of four bytes, most significant first, have the base-256
      value of the bytes. */
  lemma FourBytesValue(r: seq<bv8>)
    requires |r| == 4
    ensures Value(BytesToBits(r))
      == ((r[0] as int * 256 + r[1] as int) * 256 + r[2] as int) * 256 + r[3] as int
  {
    FourBytesBits(r);
    FourBitStringsValue(ByteBits(r[0]), ByteBits(r[1]), ByteBits(r[2]), ByteBits(r[3]));
    ByteBitsValue(r[0]);
    ByteBitsValue(r[1]);
    ByteBitsValue(r[2]);
    ByteBitsValue(r[3]);
  }

  /** The length prefix is read back exactly: accumulating the 32 bits of
      `bit_conversion(i)`, most significant first, into an `int` gives `i`. */
  lemma LengthPrefixRoundTrip(i: bv32)
    ensures WordOfBits(BytesToBits(BitConversion(i))) == i
  {
    var bits := BytesToBits(BitConversion(i));
    FourBytesValue(BitConversion(i));
    BitConversionValue(i);
    WordOfBitsValue(bits);
    WordInjective(WordOfBits(bits), i);
  }

  // ---------------------------------------------------------------------
  // Bit packer: encode_text

  /** The carrier after bits `0 .. n` of `bits` have been written into the
      least-significant bits of the carrier bytes from `offset` on, one bit
      per byte; writes that fall past the end of the carrier are not made. */
  function Stamp(image: seq<bv8>, bits: seq<Bit>, offset: nat, n: nat): (r: seq<bv8>)
    requires n <= |bits|
    ensures |r| == |image|
  {
    seq(|image|, j requires 0 <= j < |image| =>
      if offset <= j < offset + n then SetLsb(image[j], bits[j - offset]) else image[j])
  }

  /** The state a call of `encode_text` leaves behind: the carrier's bytes and
      whether the call returned or threw. */
  datatype Effect =
    | Done(image: seq<bv8>)
    | Failed(image: seq<bv8>, thrown: Exception)

  /** `encode_text(image, addition, offset)`. The capacity check compares
      `addition.length + offset`, computed in 32-bit arithmetic, with the
      carrier length; when it passes, the bits of `addition` are written from
      `offset` on until they are all written or an index falls outside the
      carrier, which throws and leaves the bits written so far in place. */
  function Encoded(image: seq<bv8>, addition: seq<bv8>, offset: nat): (e: Effect)
    requires IsInt(|image|) && IsInt(|addition|) && IsInt(offset)
    ensures |e.image| == |image|
    // the capacity check rejects without touching the carrier
    ensures AddInt(|addition|, offset) > |image| ==> e == Failed(image, IllegalArgument)
    // the call returns exactly when the check passes and every bit fits
    ensures e.Done? <==> AddInt(|addition|, offset) <= |image| && offset + 8 * |addition| <= |image|
    // on success, bit `bit` of addition[i] is the LSB of byte offset + 8*i + (7 - bit)
    ensures e.Done? ==> forall i, bit :: 0 <= i < |addition| && 0 <= bit < 8 ==>
      Lsb(e.image[offset + 8 * i + (7 - bit)]) == BitOf(addition[i], bit)
    // when the check passes but the bits overrun the carrier, the loop throws
    // ArrayIndexOutOfBoundsException at the first index past the end ...
    ensures AddInt(|addition|, offset) <= |image| && offset + 8 * |addition| > |image| ==>
      e.Failed? && e.thrown == IndexOutOfBounds
    // ... and every bit whose carrier byte lies inside the carrier was written
    ensures AddInt(|addition|, offset) <= |image| ==>
      forall i, bit :: 0 <= i < |addition| && 0 <= bit < 8 && offset + 8 * i + (7 - bit) < |image| ==>
        Lsb(e.image[offset + 8 * i + (7 - bit)]) == BitOf(addition[i], bit)
    // only least-significant bits change, and only inside the written range
    ensures forall j :: 0 <= j < |image| ==> SameHighBits(e.image[j], image[j])
    ensures forall j :: 0 <= j < |image| && !(offset <= j < offset + 8 * |addition|) ==>
      e.image[j] == image[j]
  {
    if AddInt(|addition|, offset) > |image| then Failed(image, IllegalArgument)
    else
      var bits := BytesToBits(addition);
      var written := Stamp(image, bits, offset, |bits|);
      StampFrame(image, bits, offset, |bits|);
      EncodedBitsAt(image, addition, offset);
      if offset + |bits| <= |image| then
        Done(written)
      else Failed(written, IndexOutOfBounds)
  }

  /** Stamping changes only least-significant bits, and only in the written
      range. */
  lemma StampFrame(image: seq<bv8>, bits: seq<Bit>, offset: nat, n: nat)
    requires n <= |bits|
    ensures forall j :: 0 <= j < |image| ==> SameHighBits(Stamp(image, bits, offset, n)[j], image[j])
    ensures forall j :: 0 <= j < |image| && !(offset <= j < offset + n) ==>
      Stamp(image, bits, offset, n)[j] == image[j]
  {
  }

  /** After the bits of `addition` are stamped from `offset` on, bit `bit` of
      `addition[i]` is the LSB of carrier byte `offset + 8*i + (7 - bit)`,
      wherever that byte lies inside the carrier. */
  lemma EncodedBitsAt(image: seq<bv8>, addition: seq<bv8>, offset: nat)
    ensures forall i, bit :: 0 <= i < |addition| && 0 <= bit < 8 && offset + 8 * i + (7 - bit) < |image| ==>
      Lsb(Stamp(image, BytesToBits(addition), offset, 8 * |addition|)[offset + 8 * i + (7 - bit)])
        == BitOf(addition[i], bit)
  {
    var bits := BytesToBits(addition);
    forall i, bit | 0 <= i < |addition| && 0 <= bit < 8 && offset + 8 * i + (7 - bit) < |image|
      ensures Lsb(Stamp(image, bits, offset, 8 * |addition|)[offset + 8 * i + (7 - bit)])
        == BitOf(addition[i], bit)
    {
      var k := 8 * i + (7 - bit);
      assert k / 8 == i && k % 8 == 7 - bit;
    }
  }

  /** One more step of the packing loop: writing bit `n` into the next
      carrier byte of the carrier stamped with `n` bits stamps `n + 1`. */
  lemma StampStep(image: seq<bv8>, bits: seq<Bit>, offset: nat, n: nat, current: seq<bv8>)
    requires n < |bits| && offset + n < |image|
    requires current == Stamp(image, bits, offset, n)
    ensures current[offset + n := SetLsb(current[offset + n], bits[n])]
      == Stamp(image, bits, offset, n + 1)
  {
  }

  /** Once the written range has left the carrier, the remaining bits change nothing. */
  lemma StampPastEnd(image: seq<bv8>, bits: seq<Bit>, offset: nat, n: nat)
    requires n <= |bits| && |image| <= offset + n
    ensures Stamp(image, bits, offset, n) == Stamp(image, bits, offset, |bits|)
  {
  }

  /** Stamping the bits of byte `i` of `addition` at their place continues
      a stamp of the bits of the bytes before it. */
  lemma StampNextByte(image: seq<bv8>, addition: seq<bv8>, offset: nat, i: nat, current: seq<bv8>)
    requires i < |addition|
    requires current == Stamp(image, BytesToBits(addition), offset, 8 * i)
    ensures Stamp(current, ByteBits(addition[i]), offset + 8 * i, 8)
      == Stamp(image, BytesToBits(addition), offset, 8 * i + 8)
  {
    BytesToBitsBlock(addition, i);
    var bits := BytesToBits(addition);
    forall m | 0 <= m < 8
      ensures ByteBits(addition[i])[m] == bits[8 * i + m]
    {
      assert bits[8 * i .. 8 * i + 8][m] == bits[8 * i + m];
    }
  }

  /** The inner loop of `encode_text`: writes the eight bits of `add`, most
      significant first, into the least-significant bits of `image[pos..]`.
      Returns false where the Java loop throws ArrayIndexOutOfBoundsException;
      the bits written before that stay written. */
  method PackByte(image: array<bv8>, add: bv8, pos: nat) returns (ok: bool)
    modifies image
    ensures ok <==> pos + 8 <= image.Length
    ensures image[..] == Stamp(old(image[..]), ByteBits(add), pos, 8)
  {
    ghost var original := image[..];
    ghost var bits := ByteBits(add);
    var offset := pos;
    var bit := 7;
    while bit >= 0
      invariant -1 <= bit <= 7
      invariant offset == pos + (7 - bit)
      invariant offset <= image.Length || offset == pos
      invariant image[..] == Stamp(original, bits, pos, 7 - bit)
    {
      if offset >= image.Length {
        StampPastEnd(original, bits, pos, offset - pos);
        return false;
      }
      var b := BitOf(add, bit);
      ghost var before := image[..];
      StampStep(original, bits, pos, 7 - bit, before);
      image[offset] := SetLsb(image[offset], b);
      assert image[..] == before[offset := SetLsb(before[offset], b)];
      offset := offset + 1;
      bit := bit - 1;
    }
    return true;
  }

  /** The nested loops of `encode_text`: writes the bits of `addition`, each
      byte most significant bit first, into the least-significant bits of
      `image[offset..]`, advancing one carrier byte per bit. Returns false
      where the Java loop throws ArrayIndexOutOfBoundsException; the bits
      written before that stay written. */
  method PackBits(image: array<bv8>, addition: seq<bv8>, offset: nat) returns (ok: bool)
    modifies image
    ensures ok <==> |addition| == 0 || offset + 8 * |addition| <= image.Length
    ensures image[..] == Stamp(old(image[..]), BytesToBits(addition), offset, 8 * |addition|)
  {
    ghost var original := image[..];
    ghost var bits := BytesToBits(addition);
    var i := 0;
    while i < |addition|
      invariant 0 <= i <= |addition|
      invariant offset + 8 * i <= image.Length || i == 0
      invariant image[..] == Stamp(original, bits, offset, 8 * i)
    {
      ghost var before := image[..];
      var fits := PackByte(image, addition[i], offset + 8 * i);
      StampNextByte(original, addition, offset, i, before);
      if !fits {
        StampPastEnd(original, bits, offset, 8 * i + 8);
        return false;
      }
      ghost var next := Stamp(original, bits, offset, 8 * i + 8);
      assert image[..] == next;
      i := i + 1;
      assert next == Stamp(original, bits, offset, 8 * i);
    }
    return true;
  }

  /** `encode_text`: mutates `image` in place and returns the same array, or
      throws. */
  method EncodeText(image: array<bv8>, addition: seq<bv8>, offset: nat) returns (r: Outcome<array<bv8>>)
    requires IsInt(image.Length) && IsInt(|addition|) && IsInt(offset)
    modifies image
    ensures image[..] == Encoded(old(image[..]), addition, offset).image
    ensures var e := Encoded(old(image[..]), addition, offset);
      r == if e.Done? then Returned(image) else Threw(e.thrown)
  {
    if AddInt(|addition|, offset) > image.Length {
      return Threw(IllegalArgument);
    }
    var ok := PackBits(image, addition, offset);
    if ok {
      r := Returned(image);
    } else {
      r := Threw(IndexOutOfBounds);
    }
  }

  // ---------------------------------------------------------------------
  // Bit unpacker: decode_text

  /** Message byte `b` as `decode_text` rebuilds it: the least-significant
      bits of carrier bytes `32 + 8*b .. 32 + 8*b + 8`, most significant
      first. */
  function DecodedByte(image: seq<bv8>, b: nat): bv8
    requires 32 + 8 * b + 8 <= |image|
  {
    ByteOfBits(Lsbs(image[32 + 8 * b .. 32 + 8 * b + 8]))
  }

  /** The first `n` message bytes as `decode_text` rebuilds them. */
  function DecodedBytes(image: seq<bv8>, n: nat): (r: seq<bv8>)
    requires 32 + 8 * n <= |image|
    ensures |r| == n
    ensures forall b :: 0 <= b < n ==> r[b] == DecodedByte(image, b)
  {
    seq(n, b requires 0 <= b < n => DecodedByte(image, b))
  }

  /** The length prefix as `decode_text` reads it: the Java `int` whose bits,
      most significant first, are the least-significant bits of carrier bytes
      0..31. */
  function DecodedLength(image: seq<bv8>): (n: int)
    requires 32 <= |image|
    ensures IsInt(n)
  {
    IntValue(WordOfBits(Lsbs(image[..32])))
  }

  /** `decode_text(image)`. It does no bounds checking of its own: a carrier
      shorter than 32 bytes, or one whose prefix claims more message bytes
      than follow it, ends in ArrayIndexOutOfBoundsException, and a prefix
      with its top bit set in NegativeArraySizeException. */
  function Decoded(image: seq<bv8>): (r: Outcome<seq<bv8>>)
    ensures |image| < 32 ==> r == Threw(IndexOutOfBounds)
    ensures r == Threw(NegativeArraySize) <==> 32 <= |image| && DecodedLength(image) < 0
    // a message is returned exactly when the carrier holds every bit the prefix announces
    ensures r.Returned? <==>
      32 <= |image| && 0 <= DecodedLength(image) && 32 + 8 * DecodedLength(image) <= |image|
    ensures r.Returned? ==> |r.value| == DecodedLength(image)
    ensures r.Returned? ==> forall b :: 0 <= b < |r.value| ==> r.value[b] == DecodedByte(image, b)
  {
    if |image| < 32 then Threw(IndexOutOfBounds)
    else
      var length := DecodedLength(image);
      if length < 0 then Threw(NegativeArraySize)
      else if 32 + 8 * length > |image| then Threw(IndexOutOfBounds)
      else Returned(DecodedBytes(image, length))
  }

  /** The first loop of `decode_text`: shifts the least-significant bits of
      carrier bytes 0..31 into an `int`, throwing when the carrier is shorter
      than 32 bytes. */
  method ReadLength(image: array<bv8>) returns (r: Outcome<bv32>)
    ensures image.Length < 32 ==> r == Threw(IndexOutOfBounds)
    ensures image.Length >= 32 ==> r == Returned(WordOfBits(Lsbs(image[..32])))
  {
    ghost var carrier := image[..];
    var length: bv32 := 0;
    var i := 0;
    while i < 32
      invariant 0 <= i <= 32 && i <= image.Length
      invariant length == WordOfBits(Lsbs(carrier[..i]))
    {
      if i >= image.Length {
        return Threw(IndexOutOfBounds);
      }
      assert carrier[..i + 1] == carrier[..i] + [image[i]];
      WordOfBitsStep(carrier[..i], image[i]);
      ghost var prefix := WordOfBits(Lsbs(carrier[..i + 1]));
      length := (length << 1) | ((image[i] & 1) as bv32);
      assert length == prefix;
      i := i + 1;
    }
    assert carrier[..32] == image[..32];
    return Returned(length);
  }

  /** The innermost loop of `decode_text`: shifts the least-significant
      bits of carrier bytes `pos .. pos + 8` into `result[b]`, stopping with
      false at the first carrier index past the end. Whatever was shifted in
      by then stays in `result[b]`. */
  method ReadByte(image: array<bv8>, result: array<bv8>, b: nat, pos: nat) returns (ok: bool)
    requires result != image && b < result.Length && result[b] == 0
    requires pos <= image.Length
    modifies result
    ensures ok <==> pos + 8 <= image.Length
    ensures var end := if ok then pos + 8 else image.Length;
      result[..] == old(result[..])[b := ByteOfBits(Lsbs(image[pos .. end]))]
  {
    ghost var carrier := image[..];
    ghost var before := result[..];
    var offset := pos;
    var i := 0;
    while i < 8
      invariant 0 <= i <= 8 && offset == pos + i && offset <= image.Length
      invariant result[..] == before[b := ByteOfBits(Lsbs(carrier[pos .. offset]))]
    {
      if offset >= image.Length {
        return false;
      }
      assert carrier[pos .. offset + 1] == carrier[pos .. offset] + [image[offset]];
      ByteOfBitsStep(carrier[pos .. offset], image[offset]);
      result[b] := (result[b] << 1) | (image[offset] & 1);
      i := i + 1;
      offset := offset + 1;
    }
    return true;
  }

  /** The nested loops of `decode_text`: fills a fresh array of `n` bytes,
      byte `b` from the least-significant bits of carrier bytes
      `32 + 8*b .. 32 + 8*b + 8`, throwing at the first carrier index past
      the end. */
  method ReadBytes(image: array<bv8>, n: nat) returns (r: Outcome<seq<bv8>>)
    requires 32 <= image.Length
    ensures r == if 32 + 8 * n > image.Length then Threw(IndexOutOfBounds)
                 else Returned(DecodedBytes(image[..], n))
  {
    var result := new bv8[n](_ => 0);
    var offset := 32;
    var b := 0;
    while b < result.Length
      invariant 0 <= b <= n && offset == 32 + 8 * b && offset <= image.Length
      invariant forall c :: 0 <= c < b ==> result[c] == DecodedByte(image[..], c)
      invariant forall c :: b <= c < n ==> result[c] == 0
    {
      var ok := ReadByte(image, result, b, offset);
      if !ok {
        return Threw(IndexOutOfBounds);
      }
      b := b + 1;
      offset := offset + 8;
    }
    assert result[..] == DecodedBytes(image[..], n);
    return Returned(result[..]);
  }

  /** `decode_text`: reads the 32-bit length, then fills a fresh byte array of
      that length bit by bit. */
  method DecodeText(image: array<bv8>) returns (r: Outcome<seq<bv8>>)
    ensures r == Decoded(image[..])
  {
    var length := ReadLength(image);
    if length.Threw? {
      return Threw(length.thrown);
    }
    var n := IntValue(length.value);
    if n < 0 {
      return Threw(NegativeArraySize);
    }
    r := ReadBytes(image, n);
  }

  // ---------------------------------------------------------------------
  // Orchestration: add_text

  /** `add_text`: writes the 4-byte length prefix at carrier byte 0 and the
      message at carrier byte 32. An exception from either write is caught
      and dropped, so whatever the writes changed before it stays changed and
      the second write is skipped when the first throws. */
  function AddedText(image: seq<bv8>, msg: seq<bv8>): (r: seq<bv8>)
    requires IsInt(|image|) && IsInt(|msg|)
    ensures |r| == |image|
    // a carrier too short for the 4-byte prefix fails the first check untouched
    ensures |image| < 4 ==> r == image
  {
    var first := Encoded(image, BitConversion(IntBits(|msg|)), 0);
    if first.Failed? then first.image
    else Encoded(first.image, msg, 32).image
  }

  /** `add_text` on the carrier buffer of an image: returns the same
      (mutated) carrier. */
  method AddText(image: array<bv8>, msg: seq<bv8>) returns (r: array<bv8>)
    requires IsInt(image.Length) && IsInt(|msg|)
    modifies image
    ensures r == image
    ensures image[..] == AddedText(old(image[..]), msg)
  {
    var len := BitConversion(IntBits(|msg|));
    var first := EncodeText(image, len, 0);
    if first.Returned? {
      var second := EncodeText(image, msg, 32);
    }
    return image;
  }

  // ---------------------------------------------------------------------
  // What decode_text reads

  /** The decoded length is negative exactly when the least-significant bit
      of carrier byte 0, which lands in the sign bit, is set; otherwise it is
      the unsigned number spelled by the LSBs of bytes 0..31. */
  lemma DecodedLengthSign(image: seq<bv8>)
    requires 32 <= |image|
    ensures DecodedLength(image) < 0 <==> Lsb(image[0]) == 1
    ensures DecodedLength(image) >= 0 ==> DecodedLength(image) == Value(Lsbs(image[..32]))
  {
    var bits := Lsbs(image[..32]);
    WordTopBit(bits);
    assert bits[0] == Lsb(image[0]);
  }

  /** Bit `j` of the decoded length is the least-significant bit of carrier
      byte `31 - j`: the prefix is read most significant bit first. */
  lemma DecodedLengthBits(image: seq<bv8>, j: bv32)
    requires 32 <= |image| && j < 32
    ensures WordBitOf(WordOfBits(Lsbs(image[..32])), j) == Lsb(image[31 - j as int])
  {
    WordOfBitsBits(Lsbs(image[..32]), j);
  }

  /** Bit `k` of decoded message byte `b` is the least-significant bit of
      carrier byte `32 + 8*b + (7 - k)`. */
  lemma DecodedByteBits(image: seq<bv8>, b: nat, k: nat)
    requires 32 + 8 * b + 8 <= |image| && k < 8
    ensures BitOf(DecodedByte(image, b), k) == Lsb(image[32 + 8 * b + (7 - k)])
  {
    ByteOfBitsBits(Lsbs(image[32 + 8 * b .. 32 + 8 * b + 8]), k);
  }

  /** A carrier whose prefix claims more message bytes than follow it is
      rejected, not decoded to a truncated message. */
  lemma CorruptedLengthRejected(image: seq<bv8>)
    requires 32 <= |image|
    requires DecodedLength(image) >= 0 && 32 + 8 * DecodedLength(image) > |image|
    ensures Decoded(image) == Threw(IndexOutOfBounds)
  {
  }

  // ---------------------------------------------------------------------
  // Round trip and non-interference

  /** Within the written range the least-significant bits of a stamped
      carrier are the written bits. */
  lemma StampedLsbs(image: seq<bv8>, bits: seq<Bit>, offset: nat, n: nat)
    requires n <= |bits| && offset + n <= |image|
    ensures Lsbs(Stamp(image, bits, offset, n)[offset .. offset + n]) == bits[..n]
  {
  }

  /** The message bytes written at carrier byte 32 are the bytes
      `decode_text` rebuilds from there. */
  lemma DecodedBytesStamped(image: seq<bv8>, msg: seq<bv8>)
    requires 32 + 8 * |msg| <= |image|
    ensures DecodedBytes(Stamp(image, BytesToBits(msg), 32, 8 * |msg|), |msg|) == msg
  {
    var bits := BytesToBits(msg);
    var stamped := Stamp(image, bits, 32, 8 * |msg|);
    forall b | 0 <= b < |msg|
      ensures DecodedByte(stamped, b) == msg[b]
    {
      var lo := 32 + 8 * b;
      assert Lsbs(stamped[lo .. lo + 8]) == bits[8 * b .. 8 * b + 8];
      BytesToBitsBlock(msg, b);
      ByteRoundTrip(msg[b]);
    }
  }

  /** Once the carrier holds at least 32 bytes, `add_text` always leaves the
      message length readable: the prefix write succeeds, and the message
      write, whether it succeeds or throws, never touches bytes 0..31. */
  lemma AddTextLength(image: seq<bv8>, msg: seq<bv8>)
    requires IsInt(|image|) && IsInt(|msg|) && 32 <= |image|
    ensures DecodedLength(AddedText(image, msg)) == |msg|
  {
    var word := IntBits(|msg|);
    var len := BitConversion(word);
    var first := Encoded(image, len, 0);
    assert first == Done(Stamp(image, BytesToBits(len), 0, 32));
    StampedLsbs(image, BytesToBits(len), 0, 32);
    var out := AddedText(image, msg);
    assert out[..32] == first.image[..32];
    assert Lsbs(out[..32]) == BytesToBits(len);
    LengthPrefixRoundTrip(word);
  }

  /** Round trip: when the carrier has room for the prefix and every message
      bit, `decode_text` after `add_text` returns the message. */
  lemma AddTextRoundTrip(image: seq<bv8>, msg: seq<bv8>)
    requires IsInt(|image|) && IsInt(|msg|) && 32 + 8 * |msg| <= |image|
    ensures Decoded(AddedText(image, msg)) == Returned(msg)
  {
    AddTextLength(image, msg);
    var first := Encoded(image, BitConversion(IntBits(|msg|)), 0);
    assert first.Done?;
    var second := Encoded(first.image, msg, 32);
    assert second == Done(Stamp(first.image, BytesToBits(msg), 32, 8 * |msg|));
    DecodedBytesStamped(first.image, msg);
  }

  /** When the message bits do not fit, the prefix written by the first call
      survives the swallowed exception of the second, and the carrier then
      claims more message bytes than it holds: `decode_text` throws. */
  lemma AddTextOverflowUndecodable(image: seq<bv8>, msg: seq<bv8>)
    requires IsInt(|image|) && IsInt(|msg|) && 32 <= |image| < 32 + 8 * |msg|
    ensures Decoded(AddedText(image, msg)) == Threw(IndexOutOfBounds)
  {
    AddTextLength(image, msg);
  }

  /** `add_text` changes only least-significant bits, and none beyond the
      last message bit. */
  lemma AddTextNonInterference(image: seq<bv8>, msg: seq<bv8>)
    requires IsInt(|image|) && IsInt(|msg|)
    ensures forall j :: 0 <= j < |image| ==> SameHighBits(AddedText(image, msg)[j], image[j])
    ensures forall j :: 32 + 8 * |msg| <= j < |image| ==> AddedText(image, msg)[j] == image[j]
  {
    var first := Encoded(image, BitConversion(IntBits(|msg|)), 0);
    if first.Done? {
      var second := Encoded(first.image, msg, 32);
      assert forall j :: 0 <= j < |image| ==> SameHighBits(second.image[j], first.image[j]);
    }
  }
}
