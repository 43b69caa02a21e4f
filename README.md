# LSB steganography codec

A Dafny model of the codec in the image steganography service's controller
(`ImageSteganographyController.java`). The service hides a text message in
the raw byte buffer of an image, one bit per carrier byte, in the byte's
least-significant bit (LSB):

- `bit_conversion` turns the message length (a Java `int`) into four
  big-endian bytes.
- `encode_text(image, addition, offset)` checks capacity. It then writes the
  bits of `addition`, each byte most significant bit first, into the LSBs of
  `image[offset]`, `image[offset + 1]`, ... in place.
- `decode_text(image)` reads a 32-bit length from the LSBs of bytes 0..31.
  It then rebuilds that many bytes from the LSBs of the bytes from 32 on.
- `add_text` writes the length prefix at offset 0 and the message at offset
  32, and swallows any exception either write throws.

Files:

- `java.dfy` (module `Java`) holds the Java semantics the codec relies on:
  - 32-bit `int` addition with wrap-around;
  - the value of an `int` from its two's complement bits, and back;
  - the three exceptions the codec can raise;
  - an `Outcome` of a call: it returned a value or it threw.
- `bits.dfy` (module `Bits`) is the bit layer:
  - Bytes are `bv8`, the bit pattern of a Java `byte`. Words are `bv32`.
  - It defines single bits, LSB substitution and bytes/words to and from
    bit strings, most significant first.
  - `Value` is the number a bit string spells.
- `controller.dfy` (module `Steganography`) holds the four operations and
  their properties:
  - `encode_text`, `decode_text` and `add_text` are methods over `array<bv8>`.
  - Each method is proved equal to a specification function over
    `seq<bv8>`: `Encoded`, `Decoded`, `AddedText`.
  - The round trip and non-interference are lemmas about those functions.
- `capacity.dfy` (module `Capacity`) holds the capacity-check finding below:
  the code as written, and the corrected check.

Modelling choices:

- An exception is a value. `Effect` is the carrier after an `encode_text`
  call, together with whether the call returned or threw.
  ArrayIndexOutOfBoundsException in `encode_text` may happen after some bytes
  were already written. The model keeps that partial write: `Stamp` only
  writes positions inside the carrier.
- `addition.length + offset` in the capacity check is 32-bit `int`
  arithmetic (`AddInt`).
- The decoded length is the Java `int` whose bits were read (`IntValue`).
  So a set LSB in carrier byte 0 makes it negative, and `new byte[length]`
  then throws NegativeArraySizeException.

A 12 × 1 pixel image has 36 carrier bytes, too few for a one-byte message.
Its bits need carrier bytes 32..39, so the write throws at byte 36.
`add_text` swallows the exception, and `decode_text` then throws
(`Capacity.AddTextTooShortCarrier`).

## Model

Source paths are relative to the repository root.

| member | source | states |
|---|---|---|
| Java.AddInt | src/main/java/com/ncr/passport/hyd/imagesteganographyservice/ImageSteganographyController.java:194 | `addition.length + offset` as Java computes it: an `int`, equal to the true sum modulo 2^32, and equal to it outright when the sum fits in an `int` |
| Java.IntValue | src/main/java/com/ncr/passport/hyd/imagesteganographyservice/ImageSteganographyController.java:225-228 | the `int` read from 32 bits is either their unsigned value or that minus 2^32, and it is negative exactly when the top bit is set |
| Java.IntBits | src/main/java/com/ncr/passport/hyd/imagesteganographyservice/ImageSteganographyController.java:127 | the bits passed to `bit_conversion` are the two's complement bits of the message length: reading them back as an `int` gives the length |
| Bits.SetLsb | src/main/java/com/ncr/passport/hyd/imagesteganographyservice/ImageSteganographyController.java:208 | `(old & 0xFE) \| b` has LSB `b`, keeps the upper seven bits of `old`, and is `old` itself when its LSB already was `b` |
| Bits.BitOfShift | src/main/java/com/ncr/passport/hyd/imagesteganographyservice/ImageSteganographyController.java:205 | `BitOf(x, k)`, defined one shift at a time, is `(x >>> k) & 1`: the bit `b` the loop writes. `add` is the byte sign-extended to an `int`, whose bits 0..7 are the byte's |
| Bits.ByteOfBitsBits | src/main/java/com/ncr/passport/hyd/imagesteganographyservice/ImageSteganographyController.java:233-235 | after up to eight shift-ins, bit `j` of the byte accumulator is the `j`-th bit from the last one shifted in |
| Bits.BitsRoundTrip | src/main/java/com/ncr/passport/hyd/imagesteganographyservice/ImageSteganographyController.java:233-235 | the byte accumulated from eight bits has exactly those bits, most significant first |
| Bits.ByteRoundTrip | src/main/java/com/ncr/passport/hyd/imagesteganographyservice/ImageSteganographyController.java:200-208 | shifting the bits of a byte, most significant first, into an accumulator gives the byte back |
| Bits.BytesToBitsIndex | src/main/java/com/ncr/passport/hyd/imagesteganographyservice/ImageSteganographyController.java:198-208 | bit `bit` of `addition[i]` is bit `8*i + (7 - bit)` of the bit string the loops write, most significant bit of each byte first |
| Bits.BytesToBitsBlock | src/main/java/com/ncr/passport/hyd/imagesteganographyservice/ImageSteganographyController.java:200-201 | the eight bits the inner loop writes for `addition[i]` are the block `8*i .. 8*i + 8` of that bit string |
| Bits.WordOfBitsValue | src/main/java/com/ncr/passport/hyd/imagesteganographyservice/ImageSteganographyController.java:223-225 | up to 32 bits shifted into an `int` give the word whose unsigned value is the number those bits spell |
| Bits.WordOfBitsBits | src/main/java/com/ncr/passport/hyd/imagesteganographyservice/ImageSteganographyController.java:223-225 | bit `j` of the accumulated length is the `j`-th bit from the last one shifted in |
| Bits.ByteOfBitsStep | src/main/java/com/ncr/passport/hyd/imagesteganographyservice/ImageSteganographyController.java:235 | one more carrier byte shifts its LSB into the byte accumulator |
| Bits.WordOfBitsStep | src/main/java/com/ncr/passport/hyd/imagesteganographyservice/ImageSteganographyController.java:225 | one more carrier byte shifts its LSB into the length accumulator |
| Bits.ValueTopBit | src/main/java/com/ncr/passport/hyd/imagesteganographyservice/ImageSteganographyController.java:225 | the first bit read alone decides whether the 32-bit value reaches 2^31, i.e. the sign of the length |
| Bits.WordTopBit | src/main/java/com/ncr/passport/hyd/imagesteganographyservice/ImageSteganographyController.java:223-226 | 32 bits shifted into an `int` have the unsigned value the bits spell, and reach 2^31, the sign bit, exactly when the first bit read is set |
| Steganography.BitConversion | src/main/java/com/ncr/passport/hyd/imagesteganographyservice/ImageSteganographyController.java:170-183 | returns exactly four bytes |
| Steganography.BitConversionBigEndian | src/main/java/com/ncr/passport/hyd/imagesteganographyservice/ImageSteganographyController.java:177-182 | the four bytes, joined most significant first, reassemble `i`: the conversion is big-endian and loses nothing |
| Steganography.BitConversionValue | src/main/java/com/ncr/passport/hyd/imagesteganographyservice/ImageSteganographyController.java:177-182 | the unsigned value of `i` is the base-256 number of the four bytes, most significant first |
| Steganography.FourBytesValue | src/main/java/com/ncr/passport/hyd/imagesteganographyservice/ImageSteganographyController.java:182 | the 32 bits of the four returned bytes, most significant first, spell the base-256 number of those bytes |
| Steganography.LengthPrefixRoundTrip | src/main/java/com/ncr/passport/hyd/imagesteganographyservice/ImageSteganographyController.java:177-182 | the 32 bits of `bit_conversion(i)`, shifted one at a time into an `int` as `decode_text` does, give `i` back |
| Steganography.Stamp | src/main/java/com/ncr/passport/hyd/imagesteganographyservice/ImageSteganographyController.java:198-209 | the carrier keeps its length |
| Steganography.StampStep | src/main/java/com/ncr/passport/hyd/imagesteganographyservice/ImageSteganographyController.java:208 | one more loop step, writing bit `n` into carrier byte `offset + n` with `SetLsb`, turns the carrier stamped with `n` bits into the one stamped with `n + 1` |
| Steganography.StampNextByte | src/main/java/com/ncr/passport/hyd/imagesteganographyservice/ImageSteganographyController.java:198-209 | running the inner loop for `addition[i]` at offset `offset + 8*i` continues the stamp of the bytes before it by that byte's eight bits |
| Steganography.StampPastEnd | src/main/java/com/ncr/passport/hyd/imagesteganographyservice/ImageSteganographyController.java:201-208 | once the running offset has left the carrier, no later write changes it |
| Steganography.StampFrame | src/main/java/com/ncr/passport/hyd/imagesteganographyservice/ImageSteganographyController.java:208 | writing bits changes only LSBs, and no carrier byte outside the written range |
| Steganography.EncodedBitsAt | src/main/java/com/ncr/passport/hyd/imagesteganographyservice/ImageSteganographyController.java:198-209 | after the loops write the bits of `addition` from `offset` on, the LSB of `image[offset + 8*i + (7 - bit)]` is bit `bit` of `addition[i]`, wherever that carrier byte lies inside the carrier |
| Steganography.PackByte | src/main/java/com/ncr/passport/hyd/imagesteganographyservice/ImageSteganographyController.java:200-209 | the inner loop stamps the eight bits of `add`, most significant first, from `pos` on; it completes exactly when `pos + 8` fits the carrier, and the writes made before a bad index remain |
| Steganography.Encoded | src/main/java/com/ncr/passport/hyd/imagesteganographyservice/ImageSteganographyController.java:192-212 | IllegalArgumentException with the carrier unchanged when `addition.length + offset > image.length` (32-bit sum). It returns exactly when that check passes and all `8*addition.length` bits fit. When the check passes but the bits overrun the carrier, it throws ArrayIndexOutOfBoundsException, with every bit whose carrier byte lies inside the carrier already written. On return, the bit layout as in `EncodedBitsAt`. Always: only LSBs change, and no byte outside `[offset, offset + 8*addition.length)` |
| Steganography.PackBits | src/main/java/com/ncr/passport/hyd/imagesteganographyservice/ImageSteganographyController.java:198-210 | the nested loops leave the carrier with the bits of `addition` stamped from `offset` on. They complete exactly when the addition is empty or all its bits fit; otherwise the writes before the bad index remain |
| Steganography.EncodeText | src/main/java/com/ncr/passport/hyd/imagesteganographyservice/ImageSteganographyController.java:192-212 | the array afterwards is `Encoded(...).image`; the method returns the same array it was given exactly when `Encoded` returns, and throws what it throws otherwise |
| Steganography.DecodedLength | src/main/java/com/ncr/passport/hyd/imagesteganographyservice/ImageSteganographyController.java:220-226 | the length read is a Java `int` |
| Steganography.DecodedBytes | src/main/java/com/ncr/passport/hyd/imagesteganographyservice/ImageSteganographyController.java:231-237 | `n` bytes, byte `b` rebuilt from carrier bytes `32 + 8*b .. 32 + 8*b + 8` |
| Steganography.Decoded | src/main/java/com/ncr/passport/hyd/imagesteganographyservice/ImageSteganographyController.java:219-239 | a carrier under 32 bytes throws ArrayIndexOutOfBounds. A negative length throws NegativeArraySize. A message comes back exactly when the carrier holds every bit the prefix announces: the length read, with byte `b` rebuilt from carrier bytes `32 + 8*b ..` |
| Steganography.ReadLength | src/main/java/com/ncr/passport/hyd/imagesteganographyservice/ImageSteganographyController.java:220-226 | the first loop throws on a carrier under 32 bytes. Otherwise it yields the LSBs of bytes 0..31 shifted in most significant first |
| Steganography.ReadByte | src/main/java/com/ncr/passport/hyd/imagesteganographyservice/ImageSteganographyController.java:233-236 | the innermost loop shifts the LSBs of carrier bytes `pos .. pos + 8` into `result[b]` and leaves every other byte of `result` alone; it completes exactly when `pos + 8` fits the carrier, and otherwise stops at the first bad index |
| Steganography.ReadBytes | src/main/java/com/ncr/passport/hyd/imagesteganographyservice/ImageSteganographyController.java:228-237 | the nested loops throw exactly when `32 + 8*length` exceeds the carrier, and otherwise fill the fresh array with the decoded bytes |
| Steganography.DecodeText | src/main/java/com/ncr/passport/hyd/imagesteganographyservice/ImageSteganographyController.java:219-239 | returns or throws exactly as `Decoded` of the carrier |
| Steganography.DecodedLengthSign | src/main/java/com/ncr/passport/hyd/imagesteganographyservice/ImageSteganographyController.java:225-228 | the length is negative exactly when the LSB of carrier byte 0 is set. Otherwise it is the number the LSBs of bytes 0..31 spell |
| Steganography.DecodedLengthBits | src/main/java/com/ncr/passport/hyd/imagesteganographyservice/ImageSteganographyController.java:223-225 | bit `j` of the length is the LSB of carrier byte `31 - j` |
| Steganography.DecodedByteBits | src/main/java/com/ncr/passport/hyd/imagesteganographyservice/ImageSteganographyController.java:231-236 | bit `k` of message byte `b` is the LSB of carrier byte `32 + 8*b + (7 - k)` |
| Steganography.CorruptedLengthRejected | src/main/java/com/ncr/passport/hyd/imagesteganographyservice/ImageSteganographyController.java:231-235 | a prefix announcing more bytes than the carrier holds makes decoding throw rather than return a truncated message |
| Steganography.StampedLsbs | src/main/java/com/ncr/passport/hyd/imagesteganographyservice/ImageSteganographyController.java:198-209 | inside the written range, the LSBs of the carrier are the written bits |
| Steganography.DecodedBytesStamped | src/main/java/com/ncr/passport/hyd/imagesteganographyservice/ImageSteganographyController.java:130 | message bytes written at carrier byte 32 are the bytes decoding rebuilds from there |
| Steganography.AddedText | src/main/java/com/ncr/passport/hyd/imagesteganographyservice/ImageSteganographyController.java:123-135 | the carrier keeps its length, and a carrier under 4 bytes fails the first check and is left untouched |
| Steganography.AddText | src/main/java/com/ncr/passport/hyd/imagesteganographyservice/ImageSteganographyController.java:123-135 | returns the same carrier, now equal to `AddedText` of the old one; exceptions from either write are swallowed |
| Steganography.AddTextLength | src/main/java/com/ncr/passport/hyd/imagesteganographyservice/ImageSteganographyController.java:127-133 | on a carrier of at least 32 bytes the prefix always decodes to the message length, whether the message write succeeded or threw |
| Steganography.AddTextRoundTrip | src/main/java/com/ncr/passport/hyd/imagesteganographyservice/ImageSteganographyController.java:125-130 | when `32 + 8*len(msg) <= len(image)`, decoding the carrier after `add_text` returns the message |
| Steganography.AddTextOverflowUndecodable | src/main/java/com/ncr/passport/hyd/imagesteganographyservice/ImageSteganographyController.java:129-133 | when the message bits do not fit, the prefix from the first call survives the swallowed exception, and decoding then throws |
| Steganography.AddTextNonInterference | src/main/java/com/ncr/passport/hyd/imagesteganographyservice/ImageSteganographyController.java:128-133 | `add_text` changes only LSBs, and no byte from `32 + 8*len(msg)` on |
| Capacity.CapacityCheckTooWeak | src/main/java/com/ncr/passport/hyd/imagesteganographyservice/ImageSteganographyController.java:194 | a 36-byte carrier, addition `[0x41]`, offset 32 passes the check, yet the call writes carrier byte 33 and then throws ArrayIndexOutOfBounds |
| Capacity.AddTextTooShortCarrier | src/main/java/com/ncr/passport/hyd/imagesteganographyservice/ImageSteganographyController.java:128-133 | hiding "A" in a 36-byte carrier leaves a carrier that cannot be decoded |
| Capacity.EncodedChecked | src/main/java/com/ncr/passport/hyd/imagesteganographyservice/ImageSteganographyController.java:194-196 | with the bit-counting check the call returns exactly when `offset + 8*addition.length <= image.length`. Otherwise it throws IllegalArgument with the carrier untouched, never ArrayIndexOutOfBounds. The layout and non-interference are as for `Encoded` |
| Capacity.CheckedAgreesWhenItFits | src/main/java/com/ncr/passport/hyd/imagesteganographyservice/ImageSteganographyController.java:192-212 | the corrected and the original `encode_text` return on the same calls, and then leave the same carrier |
| Capacity.EncodeTextChecked | src/main/java/com/ncr/passport/hyd/imagesteganographyservice/ImageSteganographyController.java:192-212 | the in-place method with the corrected check leaves `EncodedChecked(...).image` and returns the same array exactly when it succeeds |
| Capacity.AddedTextChecked | src/main/java/com/ncr/passport/hyd/imagesteganographyservice/ImageSteganographyController.java:123-135 | the carrier keeps its length |
| Capacity.AddTextChecked | src/main/java/com/ncr/passport/hyd/imagesteganographyservice/ImageSteganographyController.java:123-135 | returns the same carrier, now equal to `AddedTextChecked` of the old one |
| Capacity.AddTextCheckedRoundTrip | src/main/java/com/ncr/passport/hyd/imagesteganographyservice/ImageSteganographyController.java:125-130 | when the message fits, the corrected `add_text` does what the original does, and decoding returns the message. When it does not fit, no carrier byte from 32 on changes |

## Left out

- The HTTP endpoints, their request validation and the Spring exception handlers are not modelled. They are transport plumbing around the codec.
- Reading and writing PNG/TIFF with `ImageIO` is not modelled. The carrier is a byte sequence from the start.
- `user_space` and `get_byte_data` are not modelled. The carrier is the image's pixel buffer of width × height × 3 bytes, taken as a given `array<bv8>`.
- `String.getBytes()` and `new String(...)` are not modelled. The message is an opaque byte sequence; no charset conversion is modelled.
- `ServletInitializer.java` is not part of this model. It only bootstraps the servlet.
- `e.printStackTrace()` in `add_text` is not modelled. It is output only.
- OutOfMemoryError from `new byte[length]` for a huge decoded length is not modelled. The model always allocates.
- Steganography.EncodeText: `offset` is a `nat`, so a negative offset is not modelled. `add_text`, the only caller, passes 0 and 32.
- Capacity.EncodedChecked: the corrected check compares the exact sum `offset + 8 * addition.length`. A Java version would need `long` arithmetic or an overflow guard to match.

## Findings

| source | as written | input that shows it | evidently intended | confidence | as-written member | corrected member |
|---|---|---|---|---|---|---|
| src/main/java/com/ncr/passport/hyd/imagesteganographyservice/ImageSteganographyController.java:194 | the check `addition.length + offset > image.length` counts one carrier byte per addition byte. The loop uses eight (:201). | a 36-byte carrier, addition `[0x41]`, offset 32: 33 <= 36 passes. The write throws at byte 36 after writing bytes 32..35, and through `add_text` the carrier cannot be decoded. | `offset + 8 * addition.length > image.length`: reject, untouched, every addition that does not fit | high; not executed | Capacity.CapacityCheckTooWeak | Capacity.EncodedChecked |
