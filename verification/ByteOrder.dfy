/** Fixed-width numbers in either byte order. */
module ByteOrder {
  import opened Words

  /** The `n` bytes from `off` on as one number. */
  function BytesLE(bytes: seq<u8>, off: nat, n: nat): (r: nat)
    requires off + n <= |bytes|
    decreases n
  {
    if n == 0 then 0 else bytes[off] + 0x100 * BytesLE(bytes, off + 1, n - 1)
  }

  function BytesBE(bytes: seq<u8>, off: nat, n: nat): (r: nat)
    requires off + n <= |bytes|
    decreases n
  {
    if n == 0 then 0 else bytes[off + n - 1] + 0x100 * BytesBE(bytes, off, n - 1)
  }

  function FixedWidth(bytes: seq<u8>, off: nat, n: nat, littleEndian: bool): nat
    requires off + n <= |bytes|
  {
    if littleEndian then BytesLE(bytes, off, n) else BytesBE(bytes, off, n)
  }

  /** The low `n` bytes of a number. */
  function EncodeFixed(v: nat, n: nat, littleEndian: bool): (e: seq<u8>)
    ensures |e| == n
  {
    if n == 0 then []
    else if littleEndian then [v % 0x100] + EncodeFixed(v / 0x100, n - 1, littleEndian)
    else EncodeFixed(v / 0x100, n - 1, littleEndian) + [v % 0x100]
  }

  function Pow256(n: nat): (p: nat)
    ensures p >= 1
  {
    if n == 0 then 1 else 0x100 * Pow256(n - 1)
  }

  /** A number that fits its width reads back as itself, wherever it stands. */
  lemma {:induction false} FixedRoundTrip(bytes: seq<u8>, off: nat, v: nat, n: nat, littleEndian: bool)
    requires v < Pow256(n) && off + n <= |bytes|
    requires bytes[off..off + n] == EncodeFixed(v, n, littleEndian)
    ensures FixedWidth(bytes, off, n, littleEndian) == v
    decreases n
  {
    if n > 0 {
      var e := EncodeFixed(v, n, littleEndian);
      if littleEndian {
        assert bytes[off] == bytes[off..off + n][0];
        assert bytes[off + 1..off + 1 + (n - 1)] == bytes[off..off + n][1..];
        FixedRoundTrip(bytes, off + 1, v / 0x100, n - 1, true);
      } else {
        assert bytes[off + n - 1] == bytes[off..off + n][n - 1];
        assert bytes[off..off + (n - 1)] == bytes[off..off + n][..n - 1];
        FixedRoundTrip(bytes, off, v / 0x100, n - 1, false);
      }
    }
  }
}
