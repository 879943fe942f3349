/**
 * The PIN field of ISO 9564-1:2017 section 9.3.2.2: a control nibble, a length
 * nibble, one PIN digit per nibble, then fill.  `pinblock_pack_pin` builds it
 * and `pinblock_unpack_pin` reads the digits back.
 */
module PinPacking {
  import opened Bytes

  /** Longest (masked) PIN length whose digits still fit in the 8-byte field. */
  const MaxPackedLength := 14

  /**
   * Byte `j` of the PIN field for control nibble `format`, digits `pin` and
   * fill digit `fill`.  Byte 0 holds the control and length nibbles; byte
   * `j >= 1` holds digits `2j-2` and `2j-1`, the fill digit in the low half
   * when only the first of them exists, and the memset fill byte when neither
   * does.
   */
  function PinFieldByte(format: byte, pin: seq<byte>, fill: byte, j: nat): (b: byte)
    requires |pin| <= MaxPackedLength && j < BlockSize
  {
    if j == 0 then Join(format, |pin| as byte)
    else if 2 * j - 1 < |pin| then Join(pin[2 * j - 2], Low(pin[2 * j - 1]))
    else if 2 * j - 2 < |pin| then Join(pin[2 * j - 2], Low(fill))
    else Join(fill, fill)
  }

  /** The 8-byte PIN field for `format`, the digits `pin` and `fill`. */
  function PinField(format: byte, pin: seq<byte>, fill: byte): (field: seq<byte>)
    requires |pin| <= MaxPackedLength
    ensures |field| == BlockSize
  {
    seq(BlockSize, j requires 0 <= j < BlockSize => PinFieldByte(format, pin, fill, j))
  }

  /** The `n` digits stored from the third nibble of `field` on (no range check). */
  function PinDigits(field: seq<byte>, n: nat): (digits: seq<byte>)
    requires |field| == BlockSize && n <= MaxPackedLength
    ensures |digits| == n && AllNibbles(digits)
  {
    seq(n, i requires 0 <= i < n => Nibble(field, i + 2))
  }

  /** The low nibble of every element of `pin`: what survives packing. */
  function LowNibbles(pin: seq<byte>): (r: seq<byte>)
    ensures |r| == |pin| && AllNibbles(r)
    ensures AllNibbles(pin) ==> r == pin
  {
    seq(|pin|, i requires 0 <= i < |pin| => Low(pin[i]))
  }

  /**
   * Byte `j >= 1` of the PIN field while `pinblock_pack_pin` is packing, after
   * the first `i` digits of `pin` are written over the memset fill byte.
   */
  ghost function PackedSoFar(pin: seq<byte>, fill: byte, i: nat, j: nat): (b: byte)
    requires i <= |pin| && 1 <= j
  {
    if 2 * j - 1 < i then Join(pin[2 * j - 2], Low(pin[2 * j - 1]))
    else if 2 * j - 2 < i then Join(pin[2 * j - 2], 0)
    else Join(fill, fill)
  }

  /** The C expressions of the packing loop, in terms of `Join` and `Low`. */
  lemma JoinLow(a: byte, b: byte)
    ensures Join(a, 0) | Low(b) == Join(a, Low(b))
    ensures a << 4 == Join(a, 0) && b & 0xF == Low(b)
  {
  }

  /** Writing digit `i` changes byte `j` only when `j == i / 2 + 1`, as the two branches of the packing loop do. */
  lemma PackedStepAt(pin: seq<byte>, fill: byte, i: nat, j: nat)
    requires i < |pin| && 1 <= j
    ensures PackedSoFar(pin, fill, i + 1, j) ==
      if j != i / 2 + 1 then PackedSoFar(pin, fill, i, j)
      else if i % 2 == 0 then pin[i] << 4
      else PackedSoFar(pin, fill, i, j) | (pin[i] & 0xF)
  {
    JoinLow(pin[i], pin[i]);
    if j == i / 2 + 1 && i % 2 == 1 {
      JoinLow(pin[i - 1], pin[i]);
    }
  }

  /** Once every digit is written, byte `j` is the field's, except an odd length's last nibble. */
  lemma PackedAllAt(format: byte, pin: seq<byte>, fill: byte, j: nat)
    requires |pin| <= MaxPackedLength && 1 <= j < BlockSize
    ensures PinField(format, pin, fill)[j] ==
      if |pin| % 2 == 1 && j == |pin| / 2 + 1 then PackedSoFar(pin, fill, |pin|, j) | (fill & 0xF)
      else PackedSoFar(pin, fill, |pin|, j)
  {
    JoinLow(fill, fill);
    if |pin| % 2 == 1 {
      JoinLow(pin[|pin| - 1], fill);
    }
  }

  /**
   * `pinblock_pack_pin`: masks `pinLen` to four bits, fills the field with the
   * doubled fill digit, writes the control/length byte and packs the digits,
   * then puts the fill digit in the last nibble of an odd-length PIN.
   */
  method PackPin(format: byte, pin: array<byte>, pinLen: nat, fill: byte, pinblock: array<byte>)
    requires pinLen % 16 <= MaxPackedLength && pinLen % 16 <= pin.Length
    requires pinblock.Length == BlockSize && pinblock != pin
    modifies pinblock
    ensures pinblock[..] == PinField(format, pin[..pinLen % 16], fill)
  {
    var n := pinLen % 16;
    ghost var p := pin[..n];
    forall k | 0 <= k < BlockSize {
      pinblock[k] := (fill << 4) | fill;
    }
    pinblock[0] := (format << 4) | (n as byte);
    var i := 0;
    while i < n
      invariant 0 <= i <= n
      invariant pinblock[0] == Join(format, n as byte)
      invariant forall j :: 1 <= j < BlockSize ==> pinblock[j] == PackedSoFar(p, fill, i, j)
    {
      forall j | 1 <= j < BlockSize {
        PackedStepAt(p, fill, i, j);
      }
      if i % 2 == 0 {
        pinblock[i / 2 + 1] := pin[i] << 4;
      } else {
        pinblock[i / 2 + 1] := pinblock[i / 2 + 1] | (pin[i] & 0xF);
      }
      i := i + 1;
    }
    forall j | 1 <= j < BlockSize {
      PackedAllAt(format, p, fill, j);
    }
    if n % 2 == 1 {
      pinblock[n / 2 + 1] := pinblock[n / 2 + 1] | (fill & 0xF);
    }
    assert pin[..pinLen % 16] == p;
  }

  /**
   * `pinblock_unpack_pin`: copies the `pinLen` digit nibbles that follow the
   * control byte into `pin`, one per byte.
   */
  method UnpackPin(pinblock: array<byte>, pin: array<byte>, pinLen: nat)
    requires pinblock.Length == BlockSize && pinLen <= MaxPackedLength
    requires pinLen <= pin.Length && pin != pinblock
    modifies pin
    ensures pin[..pinLen] == PinDigits(pinblock[..], pinLen)
    ensures pin[pinLen..] == old(pin[pinLen..])
  {
    var i := 0;
    while i < pinLen
      invariant 0 <= i <= pinLen
      invariant forall k :: 0 <= k < i ==> pin[k] == Nibble(pinblock[..], k + 2)
      invariant pin[i..] == old(pin[i..])
    {
      var digit: byte;
      if i % 2 == 0 {
        digit := pinblock[i / 2 + 1] >> 4;
      } else {
        digit := pinblock[i / 2 + 1] & 0xF;
      }
      pin[i] := digit;
      i := i + 1;
    }
  }

  /**
   * The layout of section 9.3.2.2: nibble 0 is the control field, nibble 1 the
   * length, nibble `i+2` the low nibble of digit `i`, and every later nibble,
   * including the one after an odd-length PIN, is the fill digit.
   */
  lemma PinFieldLayout(format: byte, pin: seq<byte>, fill: byte)
    requires |pin| <= MaxPackedLength && fill < 16
    ensures Nibble(PinField(format, pin, fill), 0) == Low(format)
    ensures Nibble(PinField(format, pin, fill), 1) == |pin| as byte
    ensures forall i :: 0 <= i < |pin| ==> Nibble(PinField(format, pin, fill), i + 2) == Low(pin[i])
    ensures forall k :: |pin| + 2 <= k < 2 * BlockSize ==> Nibble(PinField(format, pin, fill), k) == fill
  {
    var field := PinField(format, pin, fill);
    SplitJoin(format, |pin| as byte);
    forall i | 0 <= i < |pin|
      ensures Nibble(field, i + 2) == Low(pin[i])
    {
      PackedDigit(format, pin, fill, i);
    }
    forall k | |pin| + 2 <= k < 2 * BlockSize
      ensures Nibble(field, k) == fill
    {
      var j := k / 2;
      assert field[j] == PinFieldByte(format, pin, fill, j);
      if 2 * j - 2 < |pin| {
        SplitJoin(pin[2 * j - 2], Low(fill));
      } else {
        SplitJoin(fill, fill);
      }
    }
  }

  /** Nibble `i + 2` of a packed field is the low nibble of digit `i`. */
  lemma PackedDigit(format: byte, pin: seq<byte>, fill: byte, i: nat)
    requires |pin| <= MaxPackedLength && i < |pin|
    ensures Nibble(PinField(format, pin, fill), i + 2) == Low(pin[i])
  {
    var j := i / 2 + 1;
    assert PinField(format, pin, fill)[j] == PinFieldByte(format, pin, fill, j);
    if i % 2 == 0 {
      if i + 1 < |pin| {
        SplitJoin(pin[i], Low(pin[i + 1]));
      } else {
        SplitJoin(pin[i], Low(fill));
      }
    } else {
      SplitJoin(pin[i - 1], Low(pin[i]));
    }
  }

  /** Unpacking a packed PIN gives back the low nibble of every digit. */
  lemma UnpackPackPin(format: byte, pin: seq<byte>, fill: byte)
    requires |pin| <= MaxPackedLength
    ensures PinDigits(PinField(format, pin, fill), |pin|) == LowNibbles(pin)
  {
    var field := PinField(format, pin, fill);
    var digits := PinDigits(field, |pin|);
    forall i | 0 <= i < |pin|
      ensures digits[i] == LowNibbles(pin)[i]
    {
      PackedDigit(format, pin, fill, i);
    }
  }
}
