/**
 * ISO 9564-1:2017 PIN block format 0 (section 9.3.2): the PIN field XOR the
 * PAN field, and the public entry points of `pinblock.c` that encode,
 * decode and classify 8-byte PIN blocks.
 *
 * C pointers become nullable arrays (`array?<byte>`) for buffers and
 * nullable `SizeCell`/`ByteCell` objects for the scalar out-parameters
 * `size_t* pin_len` and `uint8_t* format`; a null pointer is `null`.
 */
module PinBlock {
  import opened Bytes
  import opened PinPacking
  import opened PanPacking

  /** The PIN block formats of `enum pinblock_format_t`; the control field holds the number. */
  const Format0: byte := 0
  const Format1: byte := 1
  const Format2: byte := 2
  const Format3: byte := 3

  /** PIN lengths accepted by formats 0 to 3 (sections 8.1 and 9.1). */
  const MinPinLength := 4
  const MaxPinLength := 12

  /** Format 0 pads the PIN field with this digit. */
  const FillDigit: byte := 0xF

  /** A `size_t` reached through a pointer: `*p` is `p.value`. */
  class SizeCell {
    var value: nat

    constructor (v: nat)
      ensures value == v
    {
      value := v;
    }
  }

  /** A `uint8_t` reached through a pointer: `*p` is `p.value`. */
  class ByteCell {
    var value: byte

    constructor (v: byte)
      ensures value == v
    {
      value := v;
    }
  }

  /** An optional value: a pointer that may be null, seen as its contents. */
  datatype Option<T> = None | Some(value: T)

  /** Success with `value`, or failure with the C return code `code`. */
  datatype Result<T> = Ok(value: T) | Err(code: int)
  {
    /** The C return code: zero for success. */
    function Code(): (c: int)
    {
      if Ok? then 0 else code
    }
  }

  /** The control field of a PIN block: the most significant nibble of its first byte. */
  function ControlField(block: seq<byte>): (f: byte)
    requires |block| > 0
    ensures f < 16
  {
    High(block[0])
  }

  /**
   * `pinblock_get_format`: the control field when the block is 8 bytes long
   * and the field names one of formats 0 to 3, and -1 otherwise.
   */
  function GetFormat(block: seq<byte>): (r: int)
    ensures 0 <= r <= 3 <==> |block| == BlockSize && ControlField(block) <= Format3
    ensures 0 <= r ==> |block| == BlockSize && r == ControlField(block) as int
    ensures r < 0 ==> r == -1
  {
    if |block| == BlockSize && ControlField(block) <= Format3 then ControlField(block) as int else -1
  }

  /**
   * What `pinblock_encode_iso9564_format0` computes from the `pin_len` PIN
   * digits and the `pan_len` PAN bytes (non-null pointers):
   * -1 for an empty PIN or PAN, -2 for a PIN length outside 4..12, and
   * otherwise the PIN field for control 0 and fill 0xF XOR the PAN field.
   */
  function Encode0(pin: seq<byte>, pan: seq<byte>): (r: Result<seq<byte>>)
    ensures r.Ok? <==> |pin| > 0 && |pan| > 0 && MinPinLength <= |pin| <= MaxPinLength
    ensures r.Err? ==> r.code == (if |pin| == 0 || |pan| == 0 then -1 else -2)
    ensures r.Ok? ==> |r.value| == BlockSize
  {
    if |pin| == 0 || |pan| == 0 then Err(-1)
    else if |pin| < MinPinLength || |pin| > MaxPinLength then Err(-2)
    else Ok(XorBytes(PinField(Format0, pin, FillDigit), PanField(pan)))
  }

  /**
   * What `pinblock_decode_iso9564_format0` computes from the PIN block bytes
   * and the PAN bytes (non-null pointers), with its checks in the C order:
   * -1 for an empty block or PAN, 1 for a block that is not 8 bytes, 2 for a
   * control field other than 0, -2 for a PIN length outside 4..12, -3 when
   * XOR-ing the PAN field changes the first two bytes, and otherwise the
   * PIN digits of the recovered PIN field.
   */
  function Decode0(block: seq<byte>, pan: seq<byte>): (r: Result<seq<byte>>)
    ensures r.Ok? <==>
      |block| == BlockSize && |pan| > 0 && ControlField(block) == Format0 &&
      MinPinLength <= Low(block[0]) as int <= MaxPinLength
    ensures r.Err? ==>
      r.code == (if |block| == 0 || |pan| == 0 then -1
                 else if |block| != BlockSize then 1
                 else if ControlField(block) != Format0 then 2
                 else -2)
    ensures r.Ok? ==> |r.value| == Low(block[0]) as int && AllNibbles(r.value)
  {
    if |block| == 0 || |pan| == 0 then Err(-1)
    else if |block| != BlockSize then Err(1)
    else if ControlField(block) != Format0 then Err(2)
    else
      var n := Low(block[0]) as int;
      if n < MinPinLength || n > MaxPinLength then Err(-2)
      else
        var field := XorBytes(block, PanField(pan));
        if field[..2] != block[..2] then Err(-3)
        else Ok(PinDigits(field, n))
  }

  /** What a decoder leaves behind: its return code, the PIN buffer and `*pin_len`. */
  datatype Outputs = Outputs(code: int, pin: seq<byte>, pinLen: nat)

  /**
   * The outputs of `pinblock_decode_iso9564_format0` for non-null arguments,
   * from the PIN buffer and `*pin_len` before the call: on -1 nothing
   * changes; on any other error `*pin_len` becomes 0; on success the digits
   * overwrite the start of the PIN buffer and `*pin_len` is their number.
   */
  function Decode0Outputs(block: seq<byte>, pan: seq<byte>, pin: seq<byte>, pinLen: nat): (o: Outputs)
    requires |pin| >= MaxPinLength
    ensures |o.pin| == |pin|
    ensures o.code == Decode0(block, pan).Code()
    ensures o.code != 0 ==> o.pin == pin && o.pinLen == (if o.code == -1 then pinLen else 0)
    ensures o.code == 0 ==>
      o.pinLen == |Decode0(block, pan).value| &&
      o.pin[..o.pinLen] == Decode0(block, pan).value && o.pin[o.pinLen..] == pin[o.pinLen..]
  {
    match Decode0(block, pan)
    case Err(c) => Outputs(c, pin, if c == -1 then pinLen else 0)
    case Ok(digits) => Outputs(0, digits + pin[|digits|..], |digits|)
  }

  /**
   * The outputs of `pinblock_decode` for non-null `pinblock`, `format`,
   * `pin` and `pin_len` and a non-empty block, with `other` absent when
   * null: 1 for a block that is not 8 bytes, 5 for a control field other
   * than 0, -1 for format 0 without `other`, and otherwise what the format
   * 0 decoder leaves.
   */
  function DecodeOutputs(block: seq<byte>, other: Option<seq<byte>>, pin: seq<byte>, pinLen: nat): (o: Outputs)
    requires |pin| >= MaxPinLength
    ensures |block| != BlockSize ==> o == Outputs(1, pin, pinLen)
    ensures |block| == BlockSize && ControlField(block) != Format0 ==> o == Outputs(5, pin, pinLen)
    ensures |block| == BlockSize && 1 <= GetFormat(block) <= 3 ==> o == Outputs(5, pin, pinLen)
    ensures |block| == BlockSize && ControlField(block) == Format0 && other.None? ==> o == Outputs(-1, pin, pinLen)
    ensures |block| == BlockSize && ControlField(block) == Format0 && other.Some? ==>
      o == Decode0Outputs(block, other.value, pin, pinLen)
  {
    if |block| != BlockSize then Outputs(1, pin, pinLen)
    else if ControlField(block) != Format0 then Outputs(5, pin, pinLen)
    else if other.None? then Outputs(-1, pin, pinLen)
    else Decode0Outputs(block, other.value, pin, pinLen)
  }

  /**
   * `pinblock_encode_iso9564_format0`: checks the pointers and lengths, packs
   * the PIN field into `pinblock`, packs the PAN field into a local buffer
   * and XORs it in.
   */
  method EncodeFormat0(pin: array?<byte>, pinLen: nat, pan: array?<byte>, panLen: nat, pinblock: array?<byte>)
    returns (r: int)
    requires pin != null ==> pinLen <= pin.Length
    requires pan != null ==> panLen <= pan.Length
    requires pinblock != null ==> pinblock.Length == BlockSize && pinblock != pin && pinblock != pan
    modifies pinblock
    ensures pin == null || pan == null || pinblock == null ==> r == -1
    ensures pin != null && pan != null && pinblock != null ==>
      r == Encode0(pin[..pinLen], pan[..panLen]).Code() &&
      (r == 0 ==> pinblock[..] == Encode0(pin[..pinLen], pan[..panLen]).value)
    ensures r != 0 && pinblock != null ==> pinblock[..] == old(pinblock[..])
  {
    if pin == null || pinLen == 0 || pan == null || panLen == 0 || pinblock == null {
      return -1;
    }
    if pinLen < MinPinLength || pinLen > MaxPinLength {
      return -2;
    }
    PackPin(Format0, pin, pinLen, FillDigit, pinblock);
    ghost var field := PinField(Format0, pin[..pinLen], FillDigit);
    assert pinblock[..] == field;
    var panfield := new byte[BlockSize];
    PackPan(pan, panLen, panfield);
    XorInPlace(pinblock, panfield, BlockSize);
    assert pinblock[..] == pinblock[..BlockSize] == XorBytes(field, PanField(pan[..panLen]));
    return 0;
  }

  /**
   * The extraction step of `pinblock_decode_iso9564_format0`: copies the
   * block into a local PIN field buffer, packs the PAN field into another
   * and XORs it in.
   */
  method ExtractPinField(pinblock: array<byte>, pan: array<byte>, panLen: nat) returns (pinfield: array<byte>)
    requires pinblock.Length >= BlockSize && panLen <= pan.Length
    ensures fresh(pinfield) && pinfield.Length == BlockSize
    ensures pinfield[..] == XorBytes(pinblock[..BlockSize], PanField(pan[..panLen]))
  {
    pinfield := new byte[BlockSize];
    forall i | 0 <= i < BlockSize {
      pinfield[i] := pinblock[i];
    }
    assert pinfield[..BlockSize] == pinblock[..BlockSize];
    var panfield := new byte[BlockSize];
    PackPan(pan, panLen, panfield);
    assert panfield[..BlockSize] == panfield[..];
    XorInPlace(pinfield, panfield, BlockSize);
    assert pinfield[..] == pinfield[..BlockSize];
  }

  /**
   * `pinblock_decode_iso9564_format0`: checks the pointers and lengths, sets
   * `*pin_len` to 0, checks the size, control field and PIN length, XORs a
   * copy of the block with the PAN field, compares the first two bytes with
   * the block, and unpacks the digits into `pin`.  `pin` is the caller's
   * buffer of at least twelve bytes.
   */
  method DecodeFormat0(pinblock: array?<byte>, pinblockLen: nat, pan: array?<byte>, panLen: nat,
                       pin: array?<byte>, pinLen: SizeCell?)
    returns (r: int)
    requires pinblock != null ==> pinblockLen <= pinblock.Length
    requires pan != null ==> panLen <= pan.Length
    requires pin != null ==> pin.Length >= MaxPinLength
    modifies pin, pinLen
    ensures pinblock == null || pan == null || pin == null || pinLen == null ==> r == -1
    ensures r == -1 ==>
      (pin != null ==> pin[..] == old(pin[..])) && (pinLen != null ==> pinLen.value == old(pinLen.value))
    ensures pinblock != null && pan != null && pin != null && pinLen != null ==>
      Outputs(r, pin[..], pinLen.value) ==
      Decode0Outputs(old(pinblock[..pinblockLen]), old(pan[..panLen]), old(pin[..]), old(pinLen.value))
  {
    if pinblock == null || pinblockLen == 0 || pan == null || panLen == 0 || pin == null || pinLen == null {
      return -1;
    }
    ghost var block := pinblock[..pinblockLen];
    ghost var p := pan[..panLen];
    ghost var pinBefore := pin[..];
    ghost var outputs := Decode0Outputs(block, p, pinBefore, pinLen.value);
    pinLen.value := 0;

    if pinblockLen != BlockSize {
      assert Decode0(block, p) == Err(1);
      return 1;
    }
    var format := pinblock[0] >> 4;
    if format != Format0 {
      assert Decode0(block, p) == Err(2);
      return 2;
    }
    var decodedPinLen := (pinblock[0] & 0xF) as nat;
    if decodedPinLen < MinPinLength || decodedPinLen > MaxPinLength {
      assert Decode0(block, p) == Err(-2);
      return -2;
    }

    var pinfield := ExtractPinField(pinblock, pan, panLen);
    ghost var panBytes := PanField(p);
    ghost var field := XorBytes(block, panBytes);

    if pinfield[0] != pinblock[0] || pinfield[1] != pinblock[1] {
      // Unreachable: the first two bytes of every PAN field are zero.
      assert false;
      return -3;
    }
    XorZeroPrefix(block, panBytes, 2);
    ghost var digits := PinDigits(field, decodedPinLen);
    assert Decode0(block, p) == Ok(digits);

    assert pin[..] == pinBefore;
    UnpackPin(pinfield, pin, decodedPinLen);
    pinLen.value := decodedPinLen;
    assert pin[..] == pin[..decodedPinLen] + pin[decodedPinLen..];
    return 0;
  }

  /**
   * `pinblock_decode`: checks the pointers (`other` may be null) and the
   * size, stores the control field in `*format`, hands format 0 blocks to
   * the format 0 decoder with `other` as the PAN, and returns 5 for every
   * other control field, formats 1 to 3 included.
   */
  method Decode(pinblock: array?<byte>, pinblockLen: nat, other: array?<byte>, otherLen: nat,
                format: ByteCell?, pin: array?<byte>, pinLen: SizeCell?)
    returns (r: int)
    requires pinblock != null ==> pinblockLen <= pinblock.Length
    requires other != null ==> otherLen <= other.Length
    requires pin != null ==> pin.Length >= MaxPinLength
    modifies format, pin, pinLen
    ensures pinblock == null || pinblockLen == 0 || format == null || pin == null || pinLen == null ==>
      r == -1 &&
      (format != null ==> format.value == old(format.value)) &&
      (pin != null ==> pin[..] == old(pin[..])) &&
      (pinLen != null ==> pinLen.value == old(pinLen.value))
    ensures pinblock != null && pinblockLen != 0 && format != null && pin != null && pinLen != null ==>
      Outputs(r, pin[..], pinLen.value) ==
        DecodeOutputs(old(pinblock[..pinblockLen]), if other == null then None else Some(old(other[..otherLen])),
                      old(pin[..]), old(pinLen.value)) &&
      format.value == (if pinblockLen == BlockSize then ControlField(old(pinblock[..pinblockLen])) else old(format.value))
  {
    if pinblock == null || pinblockLen == 0 || format == null || pin == null || pinLen == null {
      return -1;
    }
    if pinblockLen != BlockSize {
      return 1;
    }
    ghost var block := pinblock[..pinblockLen];
    format.value := pinblock[0] >> 4;
    assert format.value == ControlField(block);
    if format.value == Format0 {
      r := DecodeFormat0(pinblock, pinblockLen, other, otherLen, pin, pinLen);
    } else {
      r := 5;
    }
  }

  // ---------------------------------------------------------------------
  // Properties of format 0

  /** An encoded block has control field 0 and the PIN length in its second nibble. */
  lemma EncodedHeader(pin: seq<byte>, pan: seq<byte>)
    requires Encode0(pin, pan).Ok?
    ensures var block := Encode0(pin, pan).value;
      ControlField(block) == Format0 && Low(block[0]) as int == |pin| && GetFormat(block) == 0
  {
    var field := PinField(Format0, pin, FillDigit);
    assert field[0] == Join(Format0, |pin| as byte);
    HeaderOfXor(field, PanField(pan), |pin| as byte);
  }

  /** XOR-ing a mask whose first byte is zero keeps the control and length nibbles. */
  lemma HeaderOfXor(field: seq<byte>, mask: seq<byte>, n: byte)
    requires |field| == |mask| == BlockSize && n < 16
    requires field[0] == Join(Format0, n) && mask[0] == 0
    ensures ControlField(XorBytes(field, mask)) == Format0 && Low(XorBytes(field, mask)[0]) == n
  {
    assert XorBytes(field, mask)[0] == Xor(field[0], 0) == field[0];
    SplitJoin(Format0, n);
  }

  /** Decoding the encoding of a PIN of nibbles with the same PAN gives the PIN back. */
  lemma Format0RoundTrip(pin: seq<byte>, pan: seq<byte>)
    requires MinPinLength <= |pin| <= MaxPinLength && |pan| > 0 && AllNibbles(pin)
    ensures Encode0(pin, pan).Ok?
    ensures Decode0(Encode0(pin, pan).value, pan) == Ok(pin)
  {
    var field := PinField(Format0, pin, FillDigit);
    var block := Encode0(pin, pan).value;
    EncodedHeader(pin, pan);
    XorBytesCancel(field, PanField(pan));
    assert XorBytes(block, PanField(pan)) == field;
    UnpackPackPin(Format0, pin, FillDigit);
  }

  /**
   * The two-byte sanity check of the decoder never fails: XOR-ing the PAN
   * field leaves the first two bytes of a block as they were, so no input
   * gives -3.
   */
  lemma SanityCheckNeverFails(block: seq<byte>, pan: seq<byte>)
    requires |block| == BlockSize
    ensures XorBytes(block, PanField(pan))[..2] == block[..2]
    ensures Decode0(block, pan) != Err(-3)
  {
    XorZeroPrefix(block, PanField(pan), 2);
  }
}
