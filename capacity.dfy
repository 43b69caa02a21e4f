/** The capacity check of `encode_text` counts message bytes, while every
    message byte occupies eight carrier bytes. A call can pass the check, run
    off the end of the carrier half-way through, and leave it half-written.
    This module exhibits that, and gives the check the bit count it evidently
    meant, with its properties proved. */
module Capacity {
  import opened Java
  import opened Bits
  import opened Steganography

  /** An all-zero carrier of `n` bytes. */
  function Blank(n: nat): (r: seq<bv8>)
    ensures |r| == n
    ensures forall j :: 0 <= j < n ==> r[j] == 0
  {
    seq(n, _ => 0)
  }

  // ---------------------------------------------------------------------
  // As written

  /** The carrier of a 12 x 1 pixel image has 36 bytes. Hiding the one-byte
      message 'A' (0x41) after the 32-byte prefix passes the check, since
      1 + 32 <= 36, but needs carrier bytes 32..39: the call writes bytes
      32..35 (turning byte 33 into 1) and then throws. */
  lemma CapacityCheckTooWeak()
    ensures AddInt(|[0x41 as bv8]|, 32) <= |Blank(36)|
    ensures Encoded(Blank(36), [0x41], 32) == Failed(Encoded(Blank(36), [0x41], 32).image, IndexOutOfBounds)
    ensures Encoded(Blank(36), [0x41], 32).image[33] == 1
  {
    var bits := BytesToBits([0x41]);
    BytesToBitsIndex([0x41], 0, 6);
    BitOfShift(0x41, 6);
    assert bits[1] == 1;
    assert Encoded(Blank(36), [0x41], 32).image == Stamp(Blank(36), bits, 32, 8);
  }

  /** The same carrier after `add_text(image, "A")`: the length prefix says
      one byte, the message bits are cut short, and `decode_text` throws
      instead of returning the message. */
  lemma AddTextTooShortCarrier()
    ensures Decoded(AddedText(Blank(36), [0x41])) == Threw(IndexOutOfBounds)
  {
    AddTextOverflowUndecodable(Blank(36), [0x41]);
  }

  // ---------------------------------------------------------------------
  // Corrected

  /** `encode_text` with the check counting bits: the addition needs eight
      carrier bytes per byte from `offset` on. A call that would not fit is
      rejected before anything is written. */
  function EncodedChecked(image: seq<bv8>, addition: seq<bv8>, offset: nat): (e: Effect)
    ensures |e.image| == |image|
    // the check rejects exactly the additions that do not fit, untouched
    ensures e.Done? <==> offset + 8 * |addition| <= |image|
    ensures e.Failed? ==> e == Failed(image, IllegalArgument)
    // on success, bit `bit` of addition[i] is the LSB of byte offset + 8*i + (7 - bit)
    ensures e.Done? ==> forall i, bit :: 0 <= i < |addition| && 0 <= bit < 8 ==>
      Lsb(e.image[offset + 8 * i + (7 - bit)]) == BitOf(addition[i], bit)
    ensures forall j :: 0 <= j < |image| ==> SameHighBits(e.image[j], image[j])
    ensures forall j :: 0 <= j < |image| && !(offset <= j < offset + 8 * |addition|) ==>
      e.image[j] == image[j]
  {
    if offset + 8 * |addition| > |image| then Failed(image, IllegalArgument)
    else
      StampFrame(image, BytesToBits(addition), offset, 8 * |addition|);
      EncodedBitsAt(image, addition, offset);
      Done(Stamp(image, BytesToBits(addition), offset, 8 * |addition|))
  }

  /** The corrected check changes nothing that works: both versions succeed
      on the same calls, with the same carrier. They differ only on calls
      that fail, where the original throws ArrayIndexOutOfBoundsException
      after a partial write. */
  lemma CheckedAgreesWhenItFits(image: seq<bv8>, addition: seq<bv8>, offset: nat)
    requires IsInt(|image|) && IsInt(|addition|) && IsInt(offset)
    ensures Encoded(image, addition, offset).Done? <==> EncodedChecked(image, addition, offset).Done?
    ensures EncodedChecked(image, addition, offset).Done? ==>
      Encoded(image, addition, offset) == EncodedChecked(image, addition, offset)
  {
    if |addition| > 0 && offset + 8 * |addition| <= |image| {
      assert IsInt(|addition| + offset);
    }
  }

  /** `encode_text` with the corrected check, in place. */
  method EncodeTextChecked(image: array<bv8>, addition: seq<bv8>, offset: nat) returns (r: Outcome<array<bv8>>)
    modifies image
    ensures image[..] == EncodedChecked(old(image[..]), addition, offset).image
    ensures var e := EncodedChecked(old(image[..]), addition, offset);
      r == if e.Done? then Returned(image) else Threw(IllegalArgument)
  {
    if offset + 8 * |addition| > image.Length {
      return Threw(IllegalArgument);
    }
    var ok := PackBits(image, addition, offset);
    return Returned(image);
  }

  /** `add_text` over the corrected `encode_text`. */
  function AddedTextChecked(image: seq<bv8>, msg: seq<bv8>): (r: seq<bv8>)
    requires IsInt(|msg|)
    ensures |r| == |image|
  {
    var first := EncodedChecked(image, BitConversion(IntBits(|msg|)), 0);
    if first.Failed? then first.image
    else EncodedChecked(first.image, msg, 32).image
  }

  /** `add_text` over the corrected `encode_text`, in place. */
  method AddTextChecked(image: array<bv8>, msg: seq<bv8>) returns (r: array<bv8>)
    requires IsInt(|msg|)
    modifies image
    ensures r == image
    ensures image[..] == AddedTextChecked(old(image[..]), msg)
  {
    var len := BitConversion(IntBits(|msg|));
    var first := EncodeTextChecked(image, len, 0);
    if first.Returned? {
      var second := EncodeTextChecked(image, msg, 32);
    }
    return image;
  }

  /** With the corrected check the round trip is unchanged, and a message
      that does not fit leaves every carrier byte from 32 on as it was: no
      half-written message. */
  lemma AddTextCheckedRoundTrip(image: seq<bv8>, msg: seq<bv8>)
    requires IsInt(|image|) && IsInt(|msg|)
    ensures 32 + 8 * |msg| <= |image| ==> AddedTextChecked(image, msg) == AddedText(image, msg)
    ensures 32 + 8 * |msg| <= |image| ==> Decoded(AddedTextChecked(image, msg)) == Returned(msg)
    ensures 32 + 8 * |msg| > |image| ==>
      forall j :: 32 <= j < |image| ==> AddedTextChecked(image, msg)[j] == image[j]
  {
    var len := BitConversion(IntBits(|msg|));
    CheckedAgreesWhenItFits(image, len, 0);
    var first := EncodedChecked(image, len, 0);
    if first.Done? {
      CheckedAgreesWhenItFits(first.image, msg, 32);
    }
    if 32 + 8 * |msg| <= |image| {
      AddTextRoundTrip(image, msg);
    }
  }
}
