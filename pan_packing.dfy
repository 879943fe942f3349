/**
 * The PAN field of ISO 9564-1:2017 sections 9.3.2.3 and 9.3.5.3: the
 * rightmost twelve digits of the primary account number, excluding pad
 * nibbles and the check digit, right-justified in eight bytes and padded on
 * the left with zeros.  `PackPan` is `pinblock_pack_pan`, which scans the PAN
 * from its last nibble backwards; `PanField` is the field that scan
 * produces, and `PanFieldStandard` proves it equal to the left-to-right
 * statement of the standard.
 */
module PanPacking {
  import opened Bytes

  /** The nibble value that pads a PAN with an odd number of digits. */
  const Pad: byte := 0xF

  /** How many account digits the PAN field holds. */
  const FieldDigits := 12

  /** The elements of `z` that are not `Pad`, in their order. */
  function NonPad(z: seq<byte>): (d: seq<byte>)
    ensures |d| <= |z|
    ensures forall i :: 0 <= i < |d| ==> d[i] != Pad
    ensures AllNibbles(z) ==> AllNibbles(d)
  {
    if |z| == 0 then []
    else NonPad(z[..|z| - 1]) + (if z[|z| - 1] == Pad then [] else [z[|z| - 1]])
  }

  /** The digits of `pan`: its nibbles, most significant first, without pad nibbles. */
  function PanDigits(pan: seq<byte>): (d: seq<byte>)
    ensures AllNibbles(d)
  {
    NonPad(Nibbles(pan))
  }

  /** The digits of a PAN without its last one, the check digit. */
  function AccountDigits(digits: seq<byte>): (a: seq<byte>)
    ensures |a| == if |digits| == 0 then 0 else |digits| - 1
    ensures forall i :: 0 <= i < |a| ==> a[i] == digits[i]
  {
    if |digits| == 0 then [] else digits[..|digits| - 1]
  }

  /** The last `FieldDigits` elements of `a`, or all of them when there are fewer. */
  function Rightmost(a: seq<byte>): (w: seq<byte>)
    ensures |w| == if |a| < FieldDigits then |a| else FieldDigits
    ensures forall i :: 0 <= i < |w| ==> w[i] == a[|a| - |w| + i]
  {
    if |a| < FieldDigits then a else a[|a| - FieldDigits..]
  }

  /** The account digits that go into the PAN field of `pan`. */
  function FieldDigitsOf(pan: seq<byte>): (w: seq<byte>)
    ensures |w| <= FieldDigits && AllNibbles(w)
  {
    Rightmost(AccountDigits(PanDigits(pan)))
  }

  // ---------------------------------------------------------------------
  // The order in which `pinblock_pack_pan` visits the PAN

  /** The nibbles of `pan` from the least significant nibble of its last byte backwards. */
  function ScanOrder(pan: seq<byte>): (s: seq<byte>)
    ensures |s| == 2 * |pan|
  {
    Reverse(Nibbles(pan))
  }

  /**
   * Nibble `k` in the order `pinblock_pack_pan` visits them: the low nibble
   * (`k` even) or high nibble (`k` odd) of byte `|pan| - 1 - k / 2`.
   */
  function ScanAt(pan: seq<byte>, k: nat): (d: byte)
    requires k < 2 * |pan|
  {
    var b := pan[|pan| - 1 - k / 2];
    if k % 2 == 0 then Low(b) else High(b)
  }

  /** The scan order is read nibble by nibble by `ScanAt`. */
  lemma ScanNibble(pan: seq<byte>, k: nat)
    requires k < 2 * |pan|
    ensures ScanOrder(pan)[k] == ScanAt(pan, k)
  {
    assert ScanOrder(pan)[k] == Nibble(pan, 2 * |pan| - 1 - k);
  }

  /** The nibbles other than `Pad` among the first `k` that the scan visits. */
  function Scanned(pan: seq<byte>, k: nat): (d: seq<byte>)
    requires k <= 2 * |pan|
  {
    if k == 0 then []
    else Scanned(pan, k - 1) + (if ScanAt(pan, k - 1) == Pad then [] else [ScanAt(pan, k - 1)])
  }

  /** The scan keeps at most one digit per visited nibble, and never a pad. */
  lemma {:induction false} ScannedDigits(pan: seq<byte>, k: nat)
    requires k <= 2 * |pan|
    ensures |Scanned(pan, k)| <= k
    ensures forall i :: 0 <= i < |Scanned(pan, k)| ==> Scanned(pan, k)[i] != Pad
  {
    if k > 0 {
      ScannedDigits(pan, k - 1);
    }
  }

  /** `Scanned` is the non-pad part of a prefix of the scan order. */
  lemma {:induction false} ScannedIsNonPad(pan: seq<byte>, k: nat)
    requires k <= 2 * |pan|
    ensures Scanned(pan, k) == NonPad(ScanOrder(pan)[..k])
  {
    if k > 0 {
      ScannedIsNonPad(pan, k - 1);
      ScanNibble(pan, k - 1);
      NonPadStep(ScanOrder(pan), k - 1);
    } else {
      assert ScanOrder(pan)[..0] == [];
    }
  }

  /** The scanned digits with the first one, the check digit, skipped. */
  function DropCheck(d: seq<byte>): (r: seq<byte>)
    ensures |r| == if |d| == 0 then 0 else |d| - 1
  {
    if |d| == 0 then [] else d[1..]
  }

  /** The first `FieldDigits` elements of `d`, or all of them when there are fewer. */
  function Leftmost(d: seq<byte>): (r: seq<byte>)
    ensures |r| == if |d| < FieldDigits then |d| else FieldDigits
    ensures forall i :: 0 <= i < |r| ==> r[i] == d[i]
  {
    if |d| < FieldDigits then d else d[..FieldDigits]
  }

  /** Element `k` of `w`, or zero past its end: what a zeroed buffer holds where nothing was written. */
  function At(w: seq<byte>, k: nat): (d: byte)
  {
    if k < |w| then w[k] else 0
  }

  /**
   * Byte `j` of a field filled from the right with the digits `w`: digit 0 in
   * the low nibble of byte 7, digit 1 in its high nibble, digit 2 in the low
   * nibble of byte 6, and so on.
   */
  function PackRightByte(w: seq<byte>, j: nat): (b: byte)
    requires j < BlockSize
  {
    Join(At(w, 2 * BlockSize - 1 - 2 * j), At(w, 2 * BlockSize - 2 - 2 * j))
  }

  /** The whole field filled from the right with `w`. */
  function PackRight(w: seq<byte>): (field: seq<byte>)
    ensures |field| == BlockSize
  {
    seq(BlockSize, j requires 0 <= j < BlockSize => PackRightByte(w, j))
  }

  /**
   * The PAN field as the backward scan builds it: skip pads, skip the first
   * digit found (the check digit), fill at most twelve further digits in from
   * the right.  Only nibbles 4 to 15 can be written, so the first two bytes
   * are always zero.
   */
  function PanField(pan: seq<byte>): (field: seq<byte>)
    ensures |field| == BlockSize
    ensures field[0] == 0 && field[1] == 0
  {
    var w := Leftmost(DropCheck(Scanned(pan, 2 * |pan|)));
    assert At(w, 12) == At(w, 13) == At(w, 14) == At(w, 15) == 0;
    PackRight(w)
  }

  // ---------------------------------------------------------------------
  // Lemmas connecting the scan to the left-to-right definition

  /** Removing pads distributes over concatenation. */
  lemma {:induction false} NonPadAppend(a: seq<byte>, b: seq<byte>)
    ensures NonPad(a + b) == NonPad(a) + NonPad(b)
    decreases |b|
  {
    if |b| > 0 {
      var b' := b[..|b| - 1];
      assert (a + b)[..|a + b| - 1] == a + b';
      assert (a + b)[|a + b| - 1] == b[|b| - 1];
      NonPadAppend(a, b');
    } else {
      assert a + b == a;
    }
  }

  /** Digits without pads are kept whole. */
  lemma {:induction false} NonPadOfDigits(z: seq<byte>)
    requires forall i :: 0 <= i < |z| ==> z[i] != Pad
    ensures NonPad(z) == z
    decreases |z|
  {
    if |z| > 0 {
      NonPadOfDigits(z[..|z| - 1]);
      assert z[..|z| - 1] + [z[|z| - 1]] == z;
    }
  }

  /** One more scanned nibble adds itself to the kept digits unless it is a pad. */
  lemma NonPadStep(s: seq<byte>, k: nat)
    requires k < |s|
    ensures NonPad(s[..k + 1]) == NonPad(s[..k]) + (if s[k] == Pad then [] else [s[k]])
  {
    assert s[..k + 1][..k] == s[..k];
  }

  lemma ReverseAppend(a: seq<byte>, b: seq<byte>)
    ensures Reverse(a + b) == Reverse(b) + Reverse(a)
  {
    var l := Reverse(a + b);
    var r := Reverse(b) + Reverse(a);
    forall i | 0 <= i < |l|
      ensures l[i] == r[i]
    {
      if i < |b| {
        assert l[i] == b[|b| - 1 - i];
      } else {
        assert l[i] == a[|a| + |b| - 1 - i];
      }
    }
  }

  /** Removing pads commutes with reversing. */
  lemma {:induction false} NonPadReverse(z: seq<byte>)
    ensures NonPad(Reverse(z)) == Reverse(NonPad(z))
    decreases |z|
  {
    if |z| > 0 {
      var z' := z[..|z| - 1];
      var x := [z[|z| - 1]];
      assert z == z' + x;
      ReverseAppend(z', x);
      assert Reverse(x) == x;
      NonPadAppend(x, Reverse(z'));
      NonPadReverse(z');
      ReverseAppend(NonPad(z'), NonPad(x));
      assert NonPad(x) == if z[|z| - 1] == Pad then [] else x by {
        assert x[..0] == [];
      }
      assert Reverse(NonPad(x)) == NonPad(x);
    } else {
      assert Reverse(z) == [];
    }
  }

  /** Skipping the first scanned digit drops the last digit of the PAN. */
  lemma DropCheckReverse(d: seq<byte>)
    ensures DropCheck(Reverse(d)) == Reverse(AccountDigits(d))
  {
  }

  /** The first twelve scanned account digits are the rightmost twelve, reversed. */
  lemma LeftmostReverse(a: seq<byte>)
    ensures Leftmost(Reverse(a)) == Reverse(Rightmost(a))
  {
  }

  /** Filling from the right with the reversed digits gives the left-to-right layout. */
  lemma PackRightReverse(w: seq<byte>)
    requires |w| <= FieldDigits
    ensures PackRight(Reverse(w)) == PackNibbles(Zeros(2 * BlockSize - |w|) + w)
  {
    var z := Zeros(2 * BlockSize - |w|) + w;
    var r := Reverse(w);
    forall j | 0 <= j < BlockSize
      ensures PackRight(r)[j] == PackNibbles(z)[j]
    {
      assert At(r, 2 * BlockSize - 1 - 2 * j) == z[2 * j];
      assert At(r, 2 * BlockSize - 2 - 2 * j) == z[2 * j + 1];
    }
  }

  /**
   * The PAN field is the ISO 9564-1 layout: sixteen nibbles, the rightmost
   * twelve account digits (pads and check digit removed) right-justified
   * after leading zeros.
   */
  lemma PanFieldStandard(pan: seq<byte>)
    ensures var w := FieldDigitsOf(pan);
      PanField(pan) == PackNibbles(Zeros(2 * BlockSize - |w|) + w)
  {
    var digits := PanDigits(pan);
    var account := AccountDigits(digits);
    var w := FieldDigitsOf(pan);
    ScannedIsNonPad(pan, 2 * |pan|);
    assert ScanOrder(pan)[..2 * |pan|] == ScanOrder(pan);
    NonPadReverse(Nibbles(pan));
    assert Scanned(pan, 2 * |pan|) == Reverse(digits);
    DropCheckReverse(digits);
    assert DropCheck(Reverse(digits)) == Reverse(account);
    LeftmostReverse(account);
    assert Leftmost(Reverse(account)) == Reverse(w);
    PackRightReverse(w);
  }

  /**
   * When the scan stops, either every nibble was visited or twelve digits are
   * in the field; both leave the digits of the whole scan.
   */
  lemma ScanStops(s: seq<byte>, k: nat)
    requires k <= |s|
    requires |DropCheck(NonPad(s[..k]))| <= FieldDigits
    requires k == |s| || |DropCheck(NonPad(s[..k]))| == FieldDigits
    ensures DropCheck(NonPad(s[..k])) == Leftmost(DropCheck(NonPad(s)))
  {
    if k < |s| {
      assert s == s[..k] + s[k..];
      NonPadAppend(s[..k], s[k..]);
      var d := NonPad(s[..k]);
      assert DropCheck(d + NonPad(s[k..])) == DropCheck(d) + NonPad(s[k..]);
    } else {
      assert s[..k] == s;
    }
  }

  /** Adding digit `d` to a right-filled field changes one byte, as the two branches of the packing loop do. */
  lemma PackRightStep(w: seq<byte>, d: byte, j: nat)
    requires |w| < FieldDigits && j < BlockSize
    ensures PackRightByte(w + [d], j) ==
      if j != BlockSize - 1 - |w| / 2 then PackRightByte(w, j)
      else if |w| % 2 == 0 then d
      else PackRightByte(w, j) | (d << 4)
  {
    if j == BlockSize - 1 - |w| / 2 {
      if |w| % 2 == 0 {
        assert Join(0, d) == d;
      } else {
        var x := w[|w| - 1];
        assert Join(0, x) | (d << 4) == Join(d, x);
      }
    }
  }

  /** One more scanned digit is skipped as the check digit when it is the first, and kept otherwise. */
  lemma DropCheckStep(kept: seq<byte>, d: byte)
    ensures DropCheck(kept + [d]) == if |kept| == 0 then [] else DropCheck(kept) + [d]
  {
    if |kept| > 0 {
      assert (kept + [d])[1..] == kept[1..] + [d];
    }
  }

  /** A buffer that agrees with `PackRight(w)` at every index is `PackRight(w)`. */
  lemma PackRightExt(b: seq<byte>, w: seq<byte>)
    requires |b| == BlockSize
    requires forall j :: 0 <= j < BlockSize ==> b[j] == PackRightByte(w, j)
    ensures b == PackRight(w)
  {
  }

  /** The field the scan leaves when it stops is the PAN field. */
  lemma ScanDone(pan: seq<byte>, k: nat, b: seq<byte>)
    requires k <= 2 * |pan| && |b| == BlockSize
    requires var w := DropCheck(Scanned(pan, k));
      |w| <= FieldDigits && (k == 2 * |pan| || |w| == FieldDigits) &&
      forall j :: 0 <= j < BlockSize ==> b[j] == PackRightByte(w, j)
    ensures b == PanField(pan)
  {
    var w := DropCheck(Scanned(pan, k));
    ScannedIsNonPad(pan, k);
    ScannedIsNonPad(pan, 2 * |pan|);
    assert ScanOrder(pan)[..2 * |pan|] == ScanOrder(pan);
    ScanStops(ScanOrder(pan), k);
    PackRightExt(b, w);
  }

  /** The write of the packing loop, on the field's contents before and after. */
  lemma PackRightWrite(w: seq<byte>, d: byte, before: seq<byte>, after: seq<byte>)
    requires |w| < FieldDigits && |before| == BlockSize
    requires forall j :: 0 <= j < BlockSize ==> before[j] == PackRightByte(w, j)
    requires |after| == BlockSize
    requires forall j :: 0 <= j < BlockSize && j != BlockSize - 1 - |w| / 2 ==> after[j] == before[j]
    requires var k := BlockSize - 1 - |w| / 2;
      after[k] == if |w| % 2 == 0 then d else before[k] | (d << 4)
    ensures forall j :: 0 <= j < BlockSize ==> after[j] == PackRightByte(w + [d], j)
  {
    forall j | 0 <= j < BlockSize
      ensures after[j] == PackRightByte(w + [d], j)
    {
      PackRightStep(w, d, j);
    }
  }

  /**
   * The extraction step of `pinblock_pack_pan`: reads the low nibble of
   * `pan[remaining - 1]` at an even scan index and its high nibble at an odd
   * one, moving to the previous byte after the high nibble.  It yields
   * nibble `panIdx` of the scan order.
   */
  method NextNibble(pan: array<byte>, panLen: nat, remaining: nat, panIdx: nat)
    returns (digit: byte, remaining': nat)
    requires panLen <= pan.Length && panIdx < 2 * panLen
    requires remaining == panLen - panIdx / 2
    ensures digit == ScanAt(pan[..panLen], panIdx)
    ensures remaining' == panLen - (panIdx + 1) / 2
  {
    remaining' := remaining;
    if panIdx % 2 == 0 {
      digit := pan[remaining - 1] & 0xF;
    } else {
      digit := pan[remaining - 1] >> 4;
      remaining' := remaining - 1;
    }
  }

  /**
   * The packing step of `pinblock_pack_pan`: with `w` already in the field,
   * digit number `fieldIdx == |w|` goes into the low nibble of byte
   * `fieldLen - 1` when `fieldIdx` is even, or is OR-ed into its high nibble
   * when odd, after which `fieldLen` moves one byte left.
   */
  method PutDigit(panfield: array<byte>, fieldLen: nat, fieldIdx: nat, digit: byte, ghost w: seq<byte>)
    returns (fieldLen': nat)
    requires panfield.Length == BlockSize
    requires fieldIdx == |w| < FieldDigits && fieldLen == BlockSize - fieldIdx / 2
    requires forall j :: 0 <= j < BlockSize ==> panfield[j] == PackRightByte(w, j)
    modifies panfield
    ensures forall j :: 0 <= j < BlockSize ==> panfield[j] == PackRightByte(w + [digit], j)
    ensures fieldLen' == BlockSize - (fieldIdx + 1) / 2
  {
    ghost var before := panfield[..];
    fieldLen' := fieldLen;
    if fieldIdx % 2 == 0 {
      panfield[fieldLen - 1] := digit;
    } else {
      panfield[fieldLen - 1] := panfield[fieldLen - 1] | (digit << 4);
      fieldLen' := fieldLen - 1;
    }
    PackRightWrite(w, digit, before, panfield[..]);
  }

  /**
   * `pinblock_pack_pan`: zeroes the field, then visits the PAN nibbles from
   * the last one backwards, skipping pad nibbles and the first digit found
   * (the check digit), and writes each further digit into the field from the
   * right until twelve are written or the PAN is exhausted.
   */
  method PackPan(pan: array<byte>, panLen: nat, panfield: array<byte>)
    requires panLen <= pan.Length
    requires panfield.Length == BlockSize && panfield != pan
    modifies panfield
    ensures panfield[..] == PanField(pan[..panLen])
  {
    ghost var p := pan[..panLen];
    ghost var kept: seq<byte> := [];
    ghost var written: seq<byte> := [];
    var remaining := panLen;
    var fieldLen := BlockSize;
    var panIdx := 0;
    var fieldIdx := 0;
    var checkDigitFound := false;

    forall k | 0 <= k < BlockSize {
      panfield[k] := 0;
    }
    assert forall j :: 0 <= j < BlockSize ==> PackRightByte([], j) == 0;

    while remaining > 0 && fieldLen > 0 && fieldIdx < FieldDigits
      invariant panIdx <= 2 * panLen && remaining == panLen - panIdx / 2
      invariant pan[..panLen] == p
      invariant kept == Scanned(p, panIdx) && written == DropCheck(kept)
      invariant checkDigitFound == (|kept| > 0)
      invariant fieldIdx == |written| <= FieldDigits
      invariant fieldLen == BlockSize - fieldIdx / 2
      invariant forall j :: 0 <= j < BlockSize ==> panfield[j] == PackRightByte(written, j)
      decreases 2 * panLen - panIdx
    {
      var digit;
      digit, remaining := NextNibble(pan, panLen, remaining, panIdx);
      panIdx := panIdx + 1;

      if digit == Pad {
        continue;
      }
      DropCheckStep(kept, digit);
      kept := kept + [digit];
      if !checkDigitFound {
        checkDigitFound := true;
        continue;
      }

      fieldLen := PutDigit(panfield, fieldLen, fieldIdx, digit, written);
      written := written + [digit];
      fieldIdx := fieldIdx + 1;
    }
    ScanDone(p, panIdx, panfield[..]);
  }
}
