/**
 * Bytes, nibbles and the bytewise XOR that the ISO 9564-1 PIN block codec is
 * built from.
 */
module Bytes {

  /** An unsigned 8-bit value, C's `uint8_t`. */
  type byte = bv8

  /** Size in bytes of a PIN block of format 0, 1, 2 or 3 (`PINBLOCK_SIZE`). */
  const BlockSize := 8

  /** True when every element of `z` fits in four bits. */
  predicate AllNibbles(z: seq<byte>)
  {
    forall i :: 0 <= i < |z| ==> z[i] < 16
  }

  /** The most significant four bits of `b`. */
  function High(b: byte): (d: byte)
    ensures d < 16
  {
    b >> 4
  }

  /** The least significant four bits of `b`. */
  function Low(b: byte): (d: byte)
    ensures d < 16
  {
    b & 0xF
  }

  /** The byte whose high half is the low nibble of `hi`, OR-ed with `lo` (C's `(hi << 4) | lo` on a `uint8_t`). */
  function Join(hi: byte, lo: byte): (b: byte)
  {
    (hi << 4) | lo
  }

  /** Splitting a byte built from two nibbles gives them back. */
  lemma SplitJoin(hi: byte, lo: byte)
    requires lo < 16
    ensures High(Join(hi, lo)) == Low(hi) && Low(Join(hi, lo)) == lo
  {
  }

  /** Nibble `k` of `s`, counting from the most significant nibble of `s[0]`. */
  function Nibble(s: seq<byte>, k: nat): (d: byte)
    requires k < 2 * |s|
    ensures d < 16
  {
    if k % 2 == 0 then High(s[k / 2]) else Low(s[k / 2])
  }

  /** All nibbles of `s`, most significant first: two per byte. */
  function Nibbles(s: seq<byte>): (z: seq<byte>)
    ensures |z| == 2 * |s| && AllNibbles(z)
    ensures forall k :: 0 <= k < |z| ==> z[k] == Nibble(s, k)
  {
    seq(2 * |s|, k requires 0 <= k < 2 * |s| => Nibble(s, k))
  }

  /** Packs an even number of nibbles two per byte, the first of each pair in the high half. */
  function PackNibbles(z: seq<byte>): (s: seq<byte>)
    requires |z| % 2 == 0
    ensures |s| == |z| / 2
  {
    seq(|z| / 2, j requires 0 <= j < |z| / 2 => Join(z[2 * j], z[2 * j + 1]))
  }

  /** Packing nibbles and reading them back is the identity. */
  lemma NibblesOfPackNibbles(z: seq<byte>)
    requires |z| % 2 == 0 && AllNibbles(z)
    ensures Nibbles(PackNibbles(z)) == z
  {
    var s := PackNibbles(z);
    forall k | 0 <= k < |z|
      ensures Nibbles(s)[k] == z[k]
    {
      var j := k / 2;
      assert s[j] == Join(z[2 * j], z[2 * j + 1]);
      SplitJoin(z[2 * j], z[2 * j + 1]);
      assert Low(z[2 * j]) == z[2 * j];
    }
  }

  /** `n` zero nibbles (or bytes). */
  function Zeros(n: nat): (z: seq<byte>)
    ensures |z| == n
    ensures forall i :: 0 <= i < n ==> z[i] == 0
  {
    seq(n, _ => 0)
  }

  /** The elements of `s` in reverse order. */
  function Reverse<T>(s: seq<T>): (r: seq<T>)
    ensures |r| == |s|
  {
    seq(|s|, i requires 0 <= i < |s| => s[|s| - 1 - i])
  }

  /** The exclusive or of two bytes (C's `^`). */
  function Xor(a: byte, b: byte): (c: byte)
  {
    a ^ b
  }

  /** Bytewise exclusive or of two buffers of equal size. */
  function XorBytes(a: seq<byte>, b: seq<byte>): (c: seq<byte>)
    requires |a| == |b|
    ensures |c| == |a|
  {
    seq(|a|, i requires 0 <= i < |a| => Xor(a[i], b[i]))
  }

  /** Masking with the same buffer twice gives the original back. */
  lemma XorBytesCancel(a: seq<byte>, b: seq<byte>)
    requires |a| == |b|
    ensures XorBytes(XorBytes(a, b), b) == a
  {
    forall i | 0 <= i < |a|
      ensures XorBytes(XorBytes(a, b), b)[i] == a[i]
    {
      assert Xor(Xor(a[i], b[i]), b[i]) == a[i];
    }
  }

  /** XOR with a buffer that starts with `n` zero bytes leaves the first `n` bytes as they were. */
  lemma XorZeroPrefix(a: seq<byte>, b: seq<byte>, n: nat)
    requires |a| == |b| && n <= |a|
    requires forall i :: 0 <= i < n ==> b[i] == 0
    ensures XorBytes(a, b)[..n] == a[..n]
  {
    var c := XorBytes(a, b);
    forall i | 0 <= i < n
      ensures c[i] == a[i]
    {
      assert Xor(a[i], 0) == a[i];
    }
  }

  /**
   * `crypto_xor(dst, src, n)`: XORs the first `n` bytes of `src` into `dst`.
   * Every new byte is computed from the old contents, so `dst == src` clears `dst`.
   */
  method XorInPlace(dst: array<byte>, src: array<byte>, n: nat)
    requires n <= dst.Length && n <= src.Length
    modifies dst
    ensures dst[..n] == XorBytes(old(dst[..n]), old(src[..n]))
    ensures dst[n..] == old(dst[n..])
  {
    forall i | 0 <= i < n {
      dst[i] := dst[i] ^ src[i];
    }
  }
}
