/** Bytes and the little-endian 64-bit words kept inside mapped files. */
module Bytes {

  newtype Byte = x: int | 0 <= x < 256
  type ByteSeq = seq<Byte>

  const U32_LIMIT: nat := 0x1_0000_0000
  const U64_LIMIT: nat := 0x1_0000_0000_0000_0000

  /** The `k` low-order bytes of `n`, least significant first. */
  function ToLittleEndian(n: nat, k: nat): (s: ByteSeq)
    ensures |s| == k
  {
    if k == 0 then [] else [(n % 256) as Byte] + ToLittleEndian(n / 256, k - 1)
  }

  function FromLittleEndian(s: ByteSeq): nat {
    if s == [] then 0 else s[0] as nat + 256 * FromLittleEndian(s[1..])
  }

  function Pow256(k: nat): (p: nat)
    ensures p > 0
  {
    if k == 0 then 1 else 256 * Pow256(k - 1)
  }

  lemma {:induction false} LittleEndianRoundTrip(n: nat, k: nat)
    requires n < Pow256(k)
    ensures FromLittleEndian(ToLittleEndian(n, k)) == n
  {
    if k > 0 {
      LittleEndianRoundTrip(n / 256, k - 1);
      var s := ToLittleEndian(n, k);
      assert s[1..] == ToLittleEndian(n / 256, k - 1);
    }
  }

  function U64(n: nat): (s: ByteSeq)
    ensures |s| == 8
  {
    ToLittleEndian(n, 8)
  }

  /** A 64-bit word read back from its eight bytes is the word written. */
  lemma U64RoundTrip(n: nat)
    requires n < U64_LIMIT
    ensures FromLittleEndian(U64(n)) == n
  {
    assert Pow256(8) == U64_LIMIT by {
      assert Pow256(4) == 0x1_0000_0000;
      assert Pow256(8) == 256 * 256 * 256 * 256 * Pow256(4);
    }
    LittleEndianRoundTrip(n, 8);
  }

  /** `b` with the bytes from `off` on replaced by `w`. */
  function Overwrite(b: ByteSeq, off: nat, w: ByteSeq): (r: ByteSeq)
    requires off + |w| <= |b|
    ensures |r| == |b|
    ensures r[off..off + |w|] == w
    ensures r[..off] == b[..off] && r[off + |w|..] == b[off + |w|..]
  {
    b[..off] + w + b[off + |w|..]
  }

  ghost predicate SameOn(r: ByteSeq, b: ByteSeq, i: nat, j: nat) {
    i <= j <= |b| == |r| && forall k :: i <= k < j ==> r[k] == b[k]
  }

  lemma OverwriteSame(b: ByteSeq, off: nat, w: ByteSeq)
    requires off + |w| <= |b|
    ensures SameOn(Overwrite(b, off, w), b, 0, off)
    ensures SameOn(Overwrite(b, off, w), b, off + |w|, |b|)
  {
  }

  lemma SameSlice(r: ByteSeq, b: ByteSeq, i: nat, j: nat)
    requires SameOn(r, b, i, j)
    ensures r[i..j] == b[i..j]
    ensures i == 0 ==> r[..j] == b[..j]
    ensures j == |b| ==> r[i..] == b[i..]
  {
  }
}
