/** Coding a byte string block by block: eight bytes to eleven symbols, and a last shorter block to
    fewer. The coding of one block is a parameter. */
module Blockwise {
  import opened Bytes

  datatype Decoded = Bad | Good(data: ByteSeq)

  function Join(a: Decoded, b: Decoded): Decoded {
    if a.Bad? || b.Bad? then Bad else Good(a.data + b.data)
  }

  function BytesOf(data: ByteSeq, i: nat): (block: ByteSeq)
    requires (i + 1) * 8 <= |data|
    ensures |block| == 8
  {
    data[i * 8..(i + 1) * 8]
  }

  function SymbolsOf(s: string, i: nat): (block: string)
    requires (i + 1) * 11 <= |s|
    ensures |block| == 11
  {
    s[i * 11..(i + 1) * 11]
  }

  /** The first `n` full blocks, encoded. */
  function EncodeBlocks(enc: ByteSeq -> string, data: ByteSeq, n: nat): string
    requires n * 8 <= |data|
    decreases n
  {
    if n == 0 then "" else EncodeBlocks(enc, data, n - 1) + enc(BytesOf(data, n - 1))
  }

  function Encode(enc: ByteSeq -> string, data: ByteSeq): string {
    EncodeBlocks(enc, data, |data| / 8) + enc(data[|data| / 8 * 8..])
  }

  /** The first `n` full blocks, decoded. */
  function DecodeBlocks(dec: string -> Decoded, s: string, n: nat): Decoded
    requires n * 11 <= |s|
    decreases n
  {
    if n == 0 then Good([]) else Join(DecodeBlocks(dec, s, n - 1), dec(SymbolsOf(s, n - 1)))
  }

  function Decode(dec: string -> Decoded, s: string): Decoded {
    Join(DecodeBlocks(dec, s, |s| / 11), dec(s[|s| / 11 * 11..]))
  }

  predicate IsBytes(b: ByteSeq) {
    |b| <= 8
  }

  predicate IsText(s: string) {
    |s| <= 11
  }

  /** Encoding and decoding of single blocks, the empty one included, undo each other. */
  ghost predicate Inverse(enc: ByteSeq -> string, dec: string -> Decoded) {
    && (forall b: ByteSeq {:trigger IsBytes(b)} :: IsBytes(b) ==>
          |enc(b)| <= 11 && (|enc(b)| == 11 <==> |b| == 8) && dec(enc(b)) == Good(b))
    && (forall s: string {:trigger IsText(s)} :: IsText(s) && dec(s).Good? ==>
          |dec(s).data| <= 8 && (|dec(s).data| == 8 <==> |s| == 11) && enc(dec(s).data) == s)
  }

  lemma SymbolsAt(p: string, block: string, rest: string, m: nat)
    requires |p| == m * 11 && |block| == 11
    ensures p + block + rest == p + (block + rest)
    ensures |p + block + rest| >= (m + 1) * 11 && SymbolsOf(p + block + rest, m) == block
  {
  }

  lemma BytesAt(p: ByteSeq, block: ByteSeq, rest: ByteSeq, m: nat)
    requires |p| == m * 8 && |block| == 8
    ensures p + block + rest == p + (block + rest)
    ensures |p + block + rest| >= (m + 1) * 8 && BytesOf(p + block + rest, m) == block
  {
  }

  lemma TakeBytes(data: ByteSeq, m: nat)
    requires (m + 1) * 8 <= |data|
    ensures data[..(m + 1) * 8] == data[..m * 8] + BytesOf(data, m)
  {
  }

  lemma TakeSymbols(s: string, m: nat)
    requires (m + 1) * 11 <= |s|
    ensures s[..(m + 1) * 11] == s[..m * 11] + SymbolsOf(s, m)
  {
  }

  lemma {:induction false} EncodeBlocksLength(enc: ByteSeq -> string, dec: string -> Decoded, data: ByteSeq, n: nat)
    requires Inverse(enc, dec) && n * 8 <= |data|
    ensures |EncodeBlocks(enc, data, n)| == n * 11
    decreases n
  {
    if n > 0 {
      EncodeBlocksLength(enc, dec, data, n - 1);
      assert IsBytes(BytesOf(data, n - 1));
    }
  }

  lemma DecodeNext(dec: string -> Decoded, p: string, block: string, rest: string, m: nat, front: ByteSeq, x: ByteSeq)
    requires |p| == m * 11 && |block| == 11
    requires DecodeBlocks(dec, p + (block + rest), m) == Good(front) && dec(block) == Good(x)
    ensures DecodeBlocks(dec, p + block + rest, m + 1) == Good(front + x)
  {
    SymbolsAt(p, block, rest, m);
  }

  lemma {:induction false} BlocksRoundTrip(enc: ByteSeq -> string, dec: string -> Decoded, data: ByteSeq, n: nat,
                      rest: string)
    requires Inverse(enc, dec) && n * 8 <= |data|
    ensures |EncodeBlocks(enc, data, n)| == n * 11
    ensures DecodeBlocks(dec, EncodeBlocks(enc, data, n) + rest, n) == Good(data[..n * 8])
    decreases n
  {
    EncodeBlocksLength(enc, dec, data, n);
    if n > 0 {
      var m := n - 1;
      var block := enc(BytesOf(data, m));
      assert IsBytes(BytesOf(data, m));
      BlocksRoundTrip(enc, dec, data, m, block + rest);
      DecodeNext(dec, EncodeBlocks(enc, data, m), block, rest, m, data[..m * 8], BytesOf(data, m));
      TakeBytes(data, m);
    }
  }

  /** Decoding what was encoded gives back the bytes. */
  lemma RoundTrip(enc: ByteSeq -> string, dec: string -> Decoded, data: ByteSeq)
    requires Inverse(enc, dec)
    ensures Decode(dec, Encode(enc, data)) == Good(data)
  {
    var n := |data| / 8;
    var last := data[n * 8..];
    assert IsBytes(last);
    BlocksRoundTrip(enc, dec, data, n, enc(last));
    SymbolsSplitAt(EncodeBlocks(enc, data, n), enc(last), n);
    assert data == data[..n * 8] + last;
  }

  lemma SymbolsSplitAt(p: string, q: string, n: nat)
    requires |p| == n * 11 && |q| < 11
    ensures |p + q| / 11 == n && (p + q)[n * 11..] == q
  {
  }

  lemma {:induction false} BlocksCanonical(enc: ByteSeq -> string, dec: string -> Decoded, s: string, n: nat,
                      rest: ByteSeq)
    requires Inverse(enc, dec) && n * 11 <= |s| && DecodeBlocks(dec, s, n).Good?
    ensures |DecodeBlocks(dec, s, n).data| == n * 8
    ensures EncodeBlocks(enc, DecodeBlocks(dec, s, n).data + rest, n) == s[..n * 11]
    decreases n
  {
    if n > 0 {
      var m := n - 1;
      var a, x := DecodeBlocks(dec, s, m).data, dec(SymbolsOf(s, m)).data;
      assert IsText(SymbolsOf(s, m));
      BlocksCanonical(enc, dec, s, m, x + rest);
      BytesAt(a, x, rest, m);
      TakeSymbols(s, m);
    }
  }

  lemma SplitsAt(a: ByteSeq, b: ByteSeq, n: nat)
    requires |a| == n * 8 && |b| < 8
    ensures |a + b| / 8 == n && (a + b)[n * 8..] == b
  {
  }

  /** Only the encoding of the result decodes to it. */
  lemma Canonical(enc: ByteSeq -> string, dec: string -> Decoded, s: string)
    requires Inverse(enc, dec) && Decode(dec, s).Good?
    ensures Encode(enc, Decode(dec, s).data) == s
  {
    var n := |s| / 11;
    var last := s[n * 11..];
    var a, b := DecodeBlocks(dec, s, n).data, dec(last).data;
    assert IsText(last);
    BlocksCanonical(enc, dec, s, n, b);
    SplitsAt(a, b, n);
    assert s == s[..n * 11] + last;
  }

  lemma {:induction false} BadBlock(dec: string -> Decoded, s: string, i: nat, n: nat)
    requires i < n && n * 11 <= |s| && dec(SymbolsOf(s, i)).Bad?
    ensures DecodeBlocks(dec, s, n).Bad?
    decreases n
  {
    if i < n - 1 { BadBlock(dec, s, i, n - 1); }
  }
}
