/**
 * The format 0 fixtures of the repository's tests: the DUKPT example of
 * ANSI X9.24-1:2009 section A.4 (PIN 1234 with PAN 4012345678909) and a PAN
 * that differs from it in one digit.
 */
module Vectors {
  import opened Bytes
  import opened PinPacking
  import opened PanPacking
  import opened PinBlock

  const TestPin: seq<byte> := [0x01, 0x02, 0x03, 0x04]
  const TestPan: seq<byte> := [0x40, 0x12, 0x34, 0x56, 0x78, 0x90, 0x9F]
  const TestBlock: seq<byte> := [0x04, 0x12, 0x74, 0xED, 0xCB, 0xA9, 0x87, 0x6F]
  const BadPan: seq<byte> := [0x40, 0x22, 0x34, 0x56, 0x78, 0x90, 0x9F]
  const WrongPanPinField: seq<byte> := [0x04, 0x12, 0x34, 0xCF, 0xFF, 0xFF, 0xFF, 0xFF]

  /**
   * The PAN field of a 13-digit PAN padded with one trailing 0xF nibble:
   * the twelve digits before the check digit after four zero nibbles.
   */
  lemma PaddedPanField(pan: seq<byte>, digits: seq<byte>)
    requires |pan| == 7 && |digits| == 13
    requires forall i :: 0 <= i < 13 ==> digits[i] < 10
    requires Nibbles(pan) == digits + [Pad]
    ensures PanField(pan) == PackNibbles(Zeros(4) + digits[..12])
  {
    NonPadAppend(digits, [Pad]);
    NonPadOfDigits(digits);
    assert NonPad([Pad]) == [] by {
      assert [Pad][..0] == [];
    }
    assert PanDigits(pan) == digits;
    PanFieldStandard(pan);
  }

  /** The nibbles of the test PAN: 4012345678909 and one pad. */
  lemma TestPanNibbles()
    ensures Nibbles(TestPan) == [4, 0, 1, 2, 3, 4, 5, 6, 7, 8, 9, 0, 9, Pad]
  {
  }

  /** Packing four zero nibbles and the account digits of the test PAN. */
  lemma PackNibblesTestPan()
    ensures PackNibbles([0, 0, 0, 0, 4, 0, 1, 2, 3, 4, 5, 6, 7, 8, 9, 0]) == [0x00, 0x00, 0x40, 0x12, 0x34, 0x56, 0x78, 0x90]
  {
  }

  /** The PAN field of the test PAN holds its account digits 401234567890. */
  lemma TestPanField()
    ensures PanField(TestPan) == [0x00, 0x00, 0x40, 0x12, 0x34, 0x56, 0x78, 0x90]
  {
    var digits: seq<byte> := [4, 0, 1, 2, 3, 4, 5, 6, 7, 8, 9, 0, 9];
    TestPanNibbles();
    PaddedPanField(TestPan, digits);
    assert Zeros(4) + digits[..12] == [0, 0, 0, 0, 4, 0, 1, 2, 3, 4, 5, 6, 7, 8, 9, 0];
    PackNibblesTestPan();
  }

  /** The nibbles of the wrong PAN: 4022345678909 and one pad. */
  lemma BadPanNibbles()
    ensures Nibbles(BadPan) == [4, 0, 2, 2, 3, 4, 5, 6, 7, 8, 9, 0, 9, Pad]
  {
  }

  /** Packing four zero nibbles and the account digits of the wrong PAN. */
  lemma PackNibblesBadPan()
    ensures PackNibbles([0, 0, 0, 0, 4, 0, 2, 2, 3, 4, 5, 6, 7, 8, 9, 0]) == [0x00, 0x00, 0x40, 0x22, 0x34, 0x56, 0x78, 0x90]
  {
  }

  /** The PAN field of the wrong PAN differs in one account digit: 402234567890. */
  lemma BadPanField()
    ensures PanField(BadPan) == [0x00, 0x00, 0x40, 0x22, 0x34, 0x56, 0x78, 0x90]
  {
    var digits: seq<byte> := [4, 0, 2, 2, 3, 4, 5, 6, 7, 8, 9, 0, 9];
    BadPanNibbles();
    PaddedPanField(BadPan, digits);
    assert Zeros(4) + digits[..12] == [0, 0, 0, 0, 4, 0, 2, 2, 3, 4, 5, 6, 7, 8, 9, 0];
    PackNibblesBadPan();
  }

  /** The format 0 PIN field of PIN 1234: control 0, length 4, the digits, then fill. */
  lemma TestPinField()
    ensures PinField(Format0, TestPin, FillDigit) == [0x04, 0x12, 0x34, 0xFF, 0xFF, 0xFF, 0xFF, 0xFF]
  {
  }

  /** Encoding PIN 1234 with the test PAN gives the published PIN block. */
  lemma EncodeTestVector()
    ensures Encode0(TestPin, TestPan) == Ok(TestBlock)
  {
    TestPinField();
    TestPanField();
    var pinField: seq<byte> := [0x04, 0x12, 0x34, 0xFF, 0xFF, 0xFF, 0xFF, 0xFF];
    var panField: seq<byte> := [0x00, 0x00, 0x40, 0x12, 0x34, 0x56, 0x78, 0x90];
    assert XorBytes(pinField, panField) == TestBlock;
  }

  /** Decoding the published PIN block with the test PAN gives PIN 1234, and the block reads as format 0. */
  lemma DecodeTestVector()
    ensures Decode0(TestBlock, TestPan) == Ok(TestPin)
    ensures GetFormat(TestBlock) == Format0 as int
  {
    EncodeTestVector();
    Format0RoundTrip(TestPin, TestPan);
  }

  /** With the wrong PAN the recovered PIN field is 04 12 34 CF FF FF FF FF: the wrong digit lands in a fill nibble. */
  lemma WrongPanField()
    ensures XorBytes(TestBlock, PanField(BadPan)) == WrongPanPinField
  {
    BadPanField();
    var panField: seq<byte> := [0x00, 0x00, 0x40, 0x22, 0x34, 0x56, 0x78, 0x90];
    assert XorBytes(TestBlock, panField) == WrongPanPinField;
  }

  /** The PIN field recovered with the wrong PAN still holds the four digits of the test PIN. */
  lemma WrongPanDigits()
    ensures PinDigits(WrongPanPinField, 4) == TestPin
  {
  }

  /**
   * Decoding the published PIN block with the wrong PAN also succeeds, with
   * the same PIN: the decoder checks neither the fill nibbles nor anything
   * else about the PAN.
   */
  lemma WrongPanAccepted()
    ensures Decode0(TestBlock, BadPan) == Ok(TestPin)
  {
    WrongPanField();
    WrongPanDigits();
  }

  /** A fresh array holding `s`. */
  method FromSeq(s: seq<byte>) returns (a: array<byte>)
    ensures fresh(a) && a[..] == s
  {
    a := new byte[|s|](i requires 0 <= i < |s| => s[i]);
  }

  /** The encoding step of the format 0 test, with the encoder method called on arrays. */
  method EncodeExample() returns (r: int, block: seq<byte>)
    ensures r == 0 && block == TestBlock
  {
    var pin := FromSeq(TestPin);
    var pan := FromSeq(TestPan);
    var pinblock := new byte[BlockSize];
    r := EncodeFormat0(pin, pin.Length, pan, pan.Length, pinblock);
    assert pin[..pin.Length] == TestPin && pan[..pan.Length] == TestPan;
    EncodeTestVector();
    block := pinblock[..];
  }

  /** The generic decoding step of the format 0 test, with the dispatcher method called on arrays. */
  method DecodeExample() returns (r: int, format: byte, pin: seq<byte>)
    ensures r == 0 && format == Format0 && pin == TestPin
  {
    var pinblock := FromSeq(TestBlock);
    var pan := FromSeq(TestPan);
    var formatCell := new ByteCell(0xFF);
    var decoded := new byte[MaxPinLength];
    var decodedLen := new SizeCell(0);
    assert pinblock[..pinblock.Length] == TestBlock && pan[..pan.Length] == TestPan;
    DecodeTestVector();
    r := Decode(pinblock, pinblock.Length, pan, pan.Length, formatCell, decoded, decodedLen);
    format := formatCell.value;
    pin := decoded[..decodedLen.value];
  }

  /** The padding validation step of the format 0 test: decoding with the wrong PAN returns 0, not an error. */
  method WrongPanExample() returns (r: int, pinLen: nat)
    ensures r == 0 && pinLen == |TestPin|
  {
    var pinblock := FromSeq(TestBlock);
    var pan := FromSeq(BadPan);
    var decoded := new byte[MaxPinLength];
    var decodedLen := new SizeCell(0);
    assert pinblock[..pinblock.Length] == TestBlock && pan[..pan.Length] == BadPan;
    WrongPanAccepted();
    r := DecodeFormat0(pinblock, pinblock.Length, pan, pan.Length, decoded, decodedLen);
    pinLen := decodedLen.value;
  }
}
