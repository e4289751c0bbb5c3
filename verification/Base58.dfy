/** CryptoNote's block form of Base58: eight bytes become eleven symbols, a shorter last block a
    fixed shorter number of symbols. */
module Base58 {
  import opened Bytes
  import opened Positional
  import opened Blockwise

  const ALPHABET: string :=
    "123456789" + "ABCDEFGH" + "JKLMN" + "PQRSTUVWXYZ" + "abcdefghijk" + "mnopqrstuvwxyz"
  const ALPHABET_SIZE: nat := 58
  const FULL_BLOCK: nat := 8
  const FULL_ENCODED: nat := 11

  /** The symbol of a digit, by the six runs of consecutive characters in the alphabet. */
  function Symbol(d: nat): char
    requires d < ALPHABET_SIZE
  {
    if d < 9 then ('1' as int + d) as char
    else if d < 17 then ('A' as int + d - 9) as char
    else if d < 22 then ('J' as int + d - 17) as char
    else if d < 33 then ('P' as int + d - 22) as char
    else if d < 44 then ('a' as int + d - 33) as char
    else ('m' as int + d - 44) as char
  }

  lemma AlphabetIsSymbols(d: nat)
    requires d < ALPHABET_SIZE
    ensures |ALPHABET| == ALPHABET_SIZE && ALPHABET[d] == Symbol(d)
  {
    if d < 9 {
      assert d == 0 || d == 1 || d == 2 || d == 3 || d == 4 || d == 5 || d == 6 || d == 7 || d == 8;
    } else if d < 17 {
      assert d == 9 || d == 10 || d == 11 || d == 12 || d == 13 || d == 14 || d == 15 || d == 16;
    } else if d < 22 {
      assert d == 17 || d == 18 || d == 19 || d == 20 || d == 21;
    } else if d < 33 {
      assert d == 22 || d == 23 || d == 24 || d == 25 || d == 26 || d == 27 || d == 28 || d == 29 || d == 30
        || d == 31 || d == 32;
    } else if d < 44 {
      assert d == 33 || d == 34 || d == 35 || d == 36 || d == 37 || d == 38 || d == 39 || d == 40 || d == 41
        || d == 42 || d == 43;
    } else {
      assert d == 44 || d == 45 || d == 46 || d == 47 || d == 48 || d == 49 || d == 50 || d == 51 || d == 52
        || d == 53 || d == 54 || d == 55 || d == 56 || d == 57;
    }
  }

  /** The digit of a symbol, or -1. */
  function DigitOf(c: char): (d: int)
    ensures -1 <= d < ALPHABET_SIZE
  {
    if '1' <= c <= '9' then c as int - '1' as int
    else if 'A' <= c <= 'H' then c as int - 'A' as int + 9
    else if 'J' <= c <= 'N' then c as int - 'J' as int + 17
    else if 'P' <= c <= 'Z' then c as int - 'P' as int + 22
    else if 'a' <= c <= 'k' then c as int - 'a' as int + 33
    else if 'm' <= c <= 'z' then c as int - 'm' as int + 44
    else -1
  }

  lemma DigitOfSymbol(d: nat)
    requires d < ALPHABET_SIZE
    ensures DigitOf(Symbol(d)) == d
  {
  }

  lemma SymbolOfDigit(c: char)
    ensures DigitOf(c) >= 0 ==> Symbol(DigitOf(c)) == c
  {
  }

  const ENCODED_SIZES: seq<nat> := [0, 2, 3, 5, 6, 7, 9, 10, 11]

  function EncodedSize(n: nat): (m: nat)
    requires n <= FULL_BLOCK
    ensures m <= FULL_ENCODED && (n > 0 ==> m > 0) && (n < FULL_BLOCK ==> m < FULL_ENCODED)
  {
    ENCODED_SIZES[n]
  }

  /** The number of bytes a block of `m` symbols stands for, or -1. */
  function DecodedSize(m: nat): (n: int)
    requires m <= FULL_ENCODED
    ensures -1 <= n <= FULL_BLOCK
    ensures n >= 0 ==> EncodedSize(n) == m
    ensures n == FULL_BLOCK ==> m == FULL_ENCODED
  {
    if m == 0 then 0 else if m == 2 then 1 else if m == 3 then 2 else if m == 5 then 3
    else if m == 6 then 4 else if m == 7 then 5 else if m == 9 then 6 else if m == 10 then 7
    else if m == 11 then 8 else -1
  }

  // ------------------------------------------------------------------ the reverse tables

  /** The lookup in the table; characters below '1' wrap to a huge index in the source. */
  function Lookup(table: seq<int>, c: char): int {
    var index := c as int - '1' as int;
    if 0 <= index < |table| then table[index] else -1
  }

  /** The constructor of reverse_alphabet. */
  method BuildReverseAlphabet() returns (table: seq<int>)
    ensures forall c: char :: Lookup(table, c) == DigitOf(c)
  {
    table := seq('z' as int - '1' as int + 1, _ => -1);
    for i := 0 to ALPHABET_SIZE
      invariant |table| == 74
      invariant forall k :: 0 <= k < 74 ==>
        table[k] == var d := DigitOf(('1' as int + k) as char); if d < i then d else -1
    {
      AlphabetIsSymbols(i);
      DigitOfSymbol(i);
      table := table[ALPHABET[i] as int - '1' as int := i];
    }
  }

  /** The constructor of decoded_block_sizes. */
  method BuildDecodedSizes() returns (table: seq<int>)
    ensures |table| == FULL_ENCODED + 1
    ensures forall m :: 0 <= m <= FULL_ENCODED ==> table[m] == DecodedSize(m)
  {
    table := seq(FULL_ENCODED + 1, _ => -1);
    for i := 0 to FULL_BLOCK + 1
      invariant |table| == FULL_ENCODED + 1
      invariant forall m :: 0 <= m <= FULL_ENCODED ==>
        table[m] == if DecodedSize(m) < i then DecodedSize(m) else -1
    {
      table := table[EncodedSize(i) := i];
    }
  }

  // ---------------------------------------------------------------------------- blocks

  function Nats(bytes: ByteSeq): (ds: seq<nat>)
    ensures |ds| == |bytes|
  {
    seq(|bytes|, i requires 0 <= i < |bytes| => bytes[i] as nat)
  }

  function ToBytes(ds: seq<nat>): (bytes: ByteSeq)
    requires forall i :: 0 <= i < |ds| ==> ds[i] < 256
    ensures |bytes| == |ds|
  {
    seq(|ds|, i requires 0 <= i < |ds| => ds[i] as Byte)
  }

  function Symbols(ds: seq<nat>): (s: string)
    requires forall i :: 0 <= i < |ds| ==> ds[i] < ALPHABET_SIZE
    ensures |s| == |ds|
  {
    seq(|ds|, i requires 0 <= i < |ds| => Symbol(ds[i]))
  }

  predicate AllSymbols(s: string) {
    forall i :: 0 <= i < |s| ==> DigitOf(s[i]) >= 0
  }

  function DigitsOf(s: string): (ds: seq<nat>)
    requires AllSymbols(s)
    ensures |ds| == |s| && forall i :: 0 <= i < |ds| ==> ds[i] < ALPHABET_SIZE
  {
    seq(|s|, i requires 0 <= i < |s| => DigitOf(s[i]))
  }

  /** A block's symbols: its big-endian value in base 58, at the fixed length. */
  function EncodedBlock(block: ByteSeq): (s: string)
    requires 1 <= |block| <= FULL_BLOCK
    ensures |s| == EncodedSize(|block|)
  {
    DigitsInBase(58, Value(256, Nats(block)), EncodedSize(|block|));
    Symbols(Digits(58, Value(256, Nats(block)), EncodedSize(|block|)))
  }

  /** The blocks that stand for bytes: of a possible length, of symbols only, and of a value that
      fits the bytes. */
  predicate Decodable(s: string)
    requires 1 <= |s| <= FULL_ENCODED
  {
    DecodedSize(|s|) > 0 && AllSymbols(s) && Value(58, DigitsOf(s)) < Pow(256, DecodedSize(|s|))
  }

  function DecodedBlock(s: string): (bytes: ByteSeq)
    requires 1 <= |s| <= FULL_ENCODED && Decodable(s)
    ensures |bytes| == DecodedSize(|s|)
  {
    DigitsInBase(256, Value(58, DigitsOf(s)), DecodedSize(|s|));
    ToBytes(Digits(256, Value(58, DigitsOf(s)), DecodedSize(|s|)))
  }

  /** A block's value always fits its symbols. */
  lemma BlockFits(n: nat)
    requires 1 <= n <= FULL_BLOCK
    ensures Pow(256, n) <= Pow(58, EncodedSize(n))
  {
    assert Pow(256, 1) == 256 && Pow(58, 2) == 3364;
    assert Pow(256, 2) == 65536 && Pow(58, 3) == 195112;
    assert Pow(256, 3) == 16777216 && Pow(58, 5) == 656356768;
    assert Pow(256, 4) == 4294967296 && Pow(58, 6) == 38068692544;
    assert Pow(256, 5) == 1099511627776 && Pow(58, 7) == 2207984167552;
    assert Pow(256, 6) == 281474976710656 && Pow(58, 9) == 7427658739644928;
    assert Pow(256, 7) == 72057594037927936 && Pow(58, 10) == 430804206899405824;
    assert Pow(256, 8) == 18446744073709551616 && Pow(58, 11) == 24986644000165537792;
    assert n == 1 || n == 2 || n == 3 || n == 4 || n == 5 || n == 6 || n == 7 || n == 8;
  }

  /** No shorter block of symbols could hold every block of `n` bytes. */
  lemma EncodedSizeIsLeast(n: nat)
    requires 1 <= n <= FULL_BLOCK
    ensures Pow(58, EncodedSize(n) - 1) < Pow(256, n)
  {
    assert Pow(256, 1) == 256 && Pow(58, 1) == 58;
    assert Pow(256, 2) == 65536 && Pow(58, 2) == 3364;
    assert Pow(256, 3) == 16777216 && Pow(58, 4) == 11316496;
    assert Pow(256, 4) == 4294967296 && Pow(58, 5) == 656356768;
    assert Pow(256, 5) == 1099511627776 && Pow(58, 6) == 38068692544;
    assert Pow(256, 6) == 281474976710656 && Pow(58, 8) == 128063081718016;
    assert Pow(256, 7) == 72057594037927936 && Pow(58, 9) == 7427658739644928;
    assert Pow(256, 8) == 18446744073709551616 && Pow(58, 10) == 430804206899405824;
  }

  lemma BlockRoundTrip(block: ByteSeq)
    requires 1 <= |block| <= FULL_BLOCK
    ensures Decodable(EncodedBlock(block)) && DecodedBlock(EncodedBlock(block)) == block
  {
    var n := |block|;
    var v := Value(256, Nats(block));
    var ds := Digits(58, v, EncodedSize(n));
    BlockFits(n);
    Rebased(256, 58, Nats(block), EncodedSize(n));
    DigitsInBase(58, v, EncodedSize(n));
    DigitsOfSymbols(ds);
    DecodedSizeOfEncoded(n);
    assert ToBytes(Nats(block)) == block;
  }

  lemma DigitsOfSymbols(ds: seq<nat>)
    requires forall i :: 0 <= i < |ds| ==> ds[i] < ALPHABET_SIZE
    ensures AllSymbols(Symbols(ds)) && DigitsOf(Symbols(ds)) == ds
  {
    forall i | 0 <= i < |ds| ensures DigitOf(Symbols(ds)[i]) == ds[i] { DigitOfSymbol(ds[i]); }
  }

  lemma DecodedSizeOfEncoded(n: nat)
    requires n <= FULL_BLOCK
    ensures DecodedSize(EncodedSize(n)) == n
  {
    assert n == 0 || n == 1 || n == 2 || n == 3 || n == 4 || n == 5 || n == 6 || n == 7 || n == 8;
  }

  lemma BlockCanonical(s: string)
    requires 1 <= |s| <= FULL_ENCODED && Decodable(s)
    ensures 1 <= |DecodedBlock(s)| <= FULL_BLOCK && EncodedBlock(DecodedBlock(s)) == s
  {
    var n: nat := DecodedSize(|s|);
    var v := Value(58, DigitsOf(s));
    DigitsInBase(256, v, n);
    assert Nats(DecodedBlock(s)) == Digits(256, v, n);
    ValueOfDigits(256, v, n);
    DigitsOfValue(58, DigitsOf(s));
    SymbolsOfDigits(s);
  }

  lemma SymbolsOfDigits(s: string)
    requires AllSymbols(s)
    ensures Symbols(DigitsOf(s)) == s
  {
    forall i | 0 <= i < |s| ensures Symbol(DigitsOf(s)[i]) == s[i] { SymbolOfDigit(s[i]); }
  }

  // ------------------------------------------------------------------------- whole strings

  /** One block, which may be empty. */
  function EncodeOne(block: ByteSeq): (s: string) {
    if 1 <= |block| <= FULL_BLOCK then EncodedBlock(block) else ""
  }

  function DecodeOne(s: string): Decoded {
    if s == "" then Good([])
    else if |s| <= FULL_ENCODED && Decodable(s) then Good(DecodedBlock(s))
    else Bad
  }

  function Encoded(data: ByteSeq): string {
    Blockwise.Encode(EncodeOne, data)
  }

  function Decode(s: string): Decoded {
    Blockwise.Decode(DecodeOne, s)
  }

  lemma EncodeOneInverse(b: ByteSeq)
    requires IsBytes(b)
    ensures |EncodeOne(b)| <= 11 && (|EncodeOne(b)| == 11 <==> |b| == 8) && DecodeOne(EncodeOne(b)) == Good(b)
  {
    if b != [] { BlockRoundTrip(b); }
  }

  lemma DecodeOneInverse(s: string)
    requires IsText(s) && DecodeOne(s).Good?
    ensures |DecodeOne(s).data| <= 8 && (|DecodeOne(s).data| == 8 <==> |s| == 11) && EncodeOne(DecodeOne(s).data) == s
  {
    if s != "" { BlockCanonical(s); }
  }

  lemma BlocksAreInverse()
    ensures Inverse(EncodeOne, DecodeOne)
  {
    forall b: ByteSeq | IsBytes(b)
      ensures |EncodeOne(b)| <= 11 && (|EncodeOne(b)| == 11 <==> |b| == 8) && DecodeOne(EncodeOne(b)) == Good(b)
    {
      EncodeOneInverse(b);
    }
    forall s: string | IsText(s) && DecodeOne(s).Good?
      ensures |DecodeOne(s).data| <= 8 && (|DecodeOne(s).data| == 8 <==> |s| == 11) && EncodeOne(DecodeOne(s).data) == s
    {
      DecodeOneInverse(s);
    }
  }

  /** Decoding what was encoded gives back the bytes. */
  lemma RoundTrip(data: ByteSeq)
    ensures Decode(Encoded(data)) == Good(data)
  {
    BlocksAreInverse();
    Blockwise.RoundTrip(EncodeOne, DecodeOne, data);
  }

  /** Only the encoding of the result decodes to it, so decoding is injective and accepts exactly the
      encodings. */
  lemma Canonical(s: string)
    requires Decode(s).Good?
    ensures Encoded(Decode(s).data) == s
  {
    BlocksAreInverse();
    Blockwise.Canonical(EncodeOne, DecodeOne, s);
  }

  // ------------------------------------------------------------------- 64-bit arithmetic


  /** mul128: the 128-bit product of two 64-bit words from products of their halves. */
  method Mul128(x: nat, y: nat) returns (lo: nat, hi: nat)
    requires x < U64_LIMIT && y < U64_LIMIT
    ensures lo < U64_LIMIT
    ensures hi * U64_LIMIT + lo == x * y
  {
    var a, b := x / U32_LIMIT, x % U32_LIMIT;
    var c, d := y / U32_LIMIT, y % U32_LIMIT;
    var ac, ad, bc, bd := HalfProduct(a, c), HalfProduct(a, d), HalfProduct(b, c), HalfProduct(b, d);
    var adbc := Wrap(ad + bc);
    var adbcCarry: nat := if adbc < ad then 1 else 0;
    lo := Wrap(bd + (adbc % U32_LIMIT) * U32_LIMIT);
    var loCarry: nat := if lo < bd then 1 else 0;
    var sum: nat := ac + adbc / U32_LIMIT + adbcCarry * U32_LIMIT + loCarry;
    AssembleHalves(U32_LIMIT, a, b, c, d, adbc, adbcCarry, lo, loCarry);
    ProductFits(x, y, sum, lo, U64_LIMIT);
    hi := Wrap(sum);
  }

  /** 64-bit addition of two words: at most one multiple of 2^64 is lost. */
  function Wrap(n: nat): (r: nat)
    ensures r < U64_LIMIT
    ensures n < U64_LIMIT ==> r == n
    ensures U64_LIMIT <= n < 2 * U64_LIMIT ==> r == n - U64_LIMIT
  {
    n % U64_LIMIT
  }

  lemma MulMonotone(a: nat, b: nat, c: nat, d: nat)
    requires a <= c && b <= d
    ensures a * b <= c * d
  {
    assert c * b == a * b + (c - a) * b;
    assert c * d == c * b + c * (d - b);
  }

  function HalfProduct(a: nat, b: nat): (p: nat)
    requires a < U32_LIMIT && b < U32_LIMIT
    ensures p <= 0xFFFF_FFFE_0000_0001
  {
    MulMonotone(a, b, U32_LIMIT - 1, U32_LIMIT - 1);
    ProductNonNegative(a, b);
    a * b
  }

  lemma HalvesMultiplied(h: nat, a: nat, b: nat, c: nat, d: nat)
    ensures (a * h + b) * (c * h + d) == a * c * (h * h) + (a * d + b * c) * h + b * d
  {
    assert (a * h + b) * (c * h + d) == a * h * (c * h) + a * h * d + b * (c * h) + b * d;
    assert a * h * (c * h) == a * c * (h * h);
  }

  lemma AssembleHalves(h: nat, a: nat, b: nat, c: nat, d: nat, adbc: nat, k: nat, lo: nat, j: nat)
    requires h > 0
    requires a * d + b * c == adbc + k * (h * h)
    requires b * d + (adbc % h) * h == lo + j * (h * h)
    ensures (a * c + adbc / h + k * h + j) * (h * h) + lo == (a * h + b) * (c * h + d)
  {
    var q, r := adbc / h, adbc % h;
    assert adbc == q * h + r;
    assert (a * d + b * c) * h == q * (h * h) + r * h + k * h * (h * h);
    HalvesMultiplied(h, a, b, c, d);
    calc {
      (a * h + b) * (c * h + d);
      a * c * (h * h) + (a * d + b * c) * h + b * d;
      a * c * (h * h) + q * (h * h) + r * h + k * h * (h * h) + b * d;
      a * c * (h * h) + q * (h * h) + k * h * (h * h) + j * (h * h) + lo;
      (a * c + q + k * h + j) * (h * h) + lo;
    }
  }

  lemma ProductFits(x: nat, y: nat, hi: nat, lo: nat, limit: nat)
    requires x < limit && y < limit && hi * limit + lo == x * y
    ensures hi < limit
  {
    MulMonotone(x, y, limit - 1, limit);
    assert hi >= limit ==> hi * limit >= limit * limit;
    assert (limit - 1) * limit == limit * limit - limit;
  }

  // ------------------------------------------------------------------ the loops over blocks

  /** uint_8be_to_64 */
  method ReadBigEndian(block: ByteSeq) returns (num: nat)
    requires 1 <= |block| <= FULL_BLOCK
    ensures num == Value(256, Nats(block))
  {
    num := 0;
    for i := 0 to |block|
      invariant num == Value(256, Nats(block[..i]))
    {
      assert Nats(block[..i + 1])[..i] == Nats(block[..i]);
      num := num * 256 + block[i] as nat;
    }
    assert block[..|block|] == block;
  }

  /** encode_block: writes the digits of the block's value from the right into a buffer prefilled
      with the zero symbol, and never before the block's place in it. */
  method EncodeBlock(block: ByteSeq, res: array<char>, off: nat)
    requires 1 <= |block| <= FULL_BLOCK && off + EncodedSize(|block|) <= res.Length
    requires forall k :: off <= k < off + EncodedSize(|block|) ==> res[k] == Symbol(0)
    modifies res
    ensures res[off..off + EncodedSize(|block|)] == EncodedBlock(block)
    ensures forall k :: 0 <= k < off || off + EncodedSize(|block|) <= k < res.Length ==> res[k] == old(res[k])
  {
    var num: nat := ReadBigEndian(block);
    ValueBound(256, Nats(block));
    BlockFits(|block|);
    WriteDigits(num, res, off, EncodedSize(|block|));
  }

  /** The loop of encode_block. */
  method WriteDigits(value: nat, res: array<char>, off: nat, size: nat)
    requires off + size <= res.Length && value < Pow(58, size)
    requires forall k :: off <= k < off + size ==> res[k] == Symbol(0)
    modifies res
    ensures forall k :: 0 <= k < size ==> Digits(58, value, size)[k] < ALPHABET_SIZE
    ensures res[off..off + size] == Symbols(Digits(58, value, size))
    ensures forall k :: 0 <= k < off || off + size <= k < res.Length ==> res[k] == old(res[k])
  {
    DigitsInBase(58, value, size);
    ghost var ds := Digits(58, value, size);
    var num: nat := value;
    var i := size - 1;
    while 0 < num
      invariant -1 <= i < size && num < Pow(58, i + 1)
      invariant forall k :: 0 <= k <= i ==> ds[k] == Digits(58, num, i + 1)[k]
      invariant forall k :: off + i < k < off + size ==> res[k] == Symbol(ds[k - off])
      invariant forall k :: off <= k <= off + i ==> res[k] == Symbol(0)
      invariant forall k :: 0 <= k < off || off + size <= k < res.Length ==> res[k] == old(res[k])
    {
      var remainder := num % ALPHABET_SIZE;
      AlphabetIsSymbols(remainder);
      DigitsStep(58, num, i);
      num := num / ALPHABET_SIZE;
      res[off + i] := ALPHABET[remainder];
      i := i - 1;
    }
    DigitsOfZero(58, i + 1);
    forall k | off <= k < off + size ensures res[k] == Symbol(ds[k - off]) {
      if k <= off + i { assert ds[k - off] == Digits(58, num, i + 1)[k - off] == 0; }
    }
  }

  lemma DigitsStep(b: nat, n: nat, len: nat)
    requires b > 0 && n < Pow(b, len + 1)
    ensures n / b < Pow(b, len)
    ensures forall k :: 0 <= k < len ==> Digits(b, n, len + 1)[k] == Digits(b, n / b, len)[k]
    ensures Digits(b, n, len + 1)[len] == n % b
  {
    DivBound(n, b, Pow(b, len));
  }

  lemma DigitsOfZero(b: nat, len: nat)
    requires b > 0
    ensures forall k :: 0 <= k < len ==> Digits(b, 0, len)[k] == 0
    decreases len
  {
    if len > 0 { DigitsOfZero(b, len - 1); }
  }

  lemma PowersFit(k: nat)
    requires k <= 10
    ensures Pow(58, k) < U64_LIMIT
  {
    assert Pow(58, 5) == 656356768 && Pow(58, 10) == 430804206899405824;
    PowMonotone(58, k, 10);
  }

  lemma {:induction false} PowMonotone(b: nat, i: nat, j: nat)
    requires b > 0 && i <= j
    ensures Pow(b, i) <= Pow(b, j)
    decreases j
  {
    if i < j {
      PowMonotone(b, i, j - 1);
      MulMonotone(Pow(b, j - 1), 1, Pow(b, j - 1), b);
    }
  }

  predicate SymbolsFrom(block: string, i: nat) {
    forall k :: i <= k < |block| ==> DigitOf(block[k]) >= 0
  }

  /** The value of the symbols from position `i` on, built up from the right as the loop does. */
  function ValueFrom(block: string, i: nat): nat
    requires i <= |block| && SymbolsFrom(block, i)
    decreases |block| - i
  {
    if i == |block| then 0
    else
      assert DigitOf(block[i]) >= 0;
      Term(DigitOf(block[i]), |block| - 1 - i) + ValueFrom(block, i + 1)
  }

  /** A digit times its power of the base. */
  function Term(digit: nat, k: nat): (t: nat)
    ensures t == digit * Pow(58, k)
  {
    ProductNonNegative(digit, Pow(58, k));
    digit * Pow(58, k)
  }

  lemma {:induction false} ValueFromIsValue(block: string, i: nat)
    requires i <= |block| && AllSymbols(block)
    ensures ValueFrom(block, i) == Value(58, DigitsOf(block)[i..])
    decreases |block| - i
  {
    if i < |block| {
      ValueFromIsValue(block, i + 1);
      var tail := DigitsOf(block)[i..];
      assert tail[1..] == DigitsOf(block)[i + 1..];
      ValueFromLeft(58, tail);
    }
  }

  lemma {:induction false} ValueFromGrows(block: string, i: nat)
    requires i <= |block| && SymbolsFrom(block, 0)
    ensures ValueFrom(block, i) <= ValueFrom(block, 0)
    decreases i
  {
    if i > 0 { ValueFromGrows(block, i - 1); }
  }

  /** Adding a product in 64 bits: an overflow of either operation is noticed. */
  method AddProduct(num: nat, order: nat, digit: nat) returns (fits: bool, sum: nat)
    requires num < U64_LIMIT && order < U64_LIMIT && digit < ALPHABET_SIZE
    ensures fits == (digit * order + num < U64_LIMIT)
    ensures fits ==> sum == digit * order + num
  {
    var lo, hi := Mul128(order, digit);
    sum := Wrap(num + lo);
    fits := !(sum < num || hi != 0);
    assert hi > 0 ==> hi * U64_LIMIT >= U64_LIMIT;
  }

  /** The loop of decode_block in wrapping 64-bit arithmetic: it detects exactly the bad symbols and
      the values of 2^64 and more. */
  method Accumulate(block: string) returns (ok: bool, num: nat)
    requires 1 <= |block| <= FULL_ENCODED
    ensures ok == (AllSymbols(block) && Value(58, DigitsOf(block)) < U64_LIMIT)
    ensures ok ==> num == Value(58, DigitsOf(block))
  {
    num := 0;
    ok := true;
    var order: nat := 1;
    var i := |block| - 1;
    while i >= 0
      invariant -1 <= i < |block|
      invariant SymbolsFrom(block, i + 1) && num == ValueFrom(block, i + 1) < U64_LIMIT
      invariant i >= 0 ==> order == Pow(58, |block| - 1 - i) < U64_LIMIT
    {
      ok, num, order := TakeSymbol(block, i, num, order);
      if !ok { return; }
      i := i - 1;
    }
    ValueFromIsValue(block, 0);
    assert DigitsOf(block)[0..] == DigitsOf(block);
  }

  /** The loop body for the symbol at `i`. */
  method TakeSymbol(block: string, i: nat, num: nat, order: nat) returns (ok: bool, sum: nat, next: nat)
    requires i < |block| <= FULL_ENCODED
    requires SymbolsFrom(block, i + 1) && num == ValueFrom(block, i + 1) < U64_LIMIT
    requires order == Pow(58, |block| - 1 - i) < U64_LIMIT
    ensures ok ==> SymbolsFrom(block, i) && sum == ValueFrom(block, i) < U64_LIMIT
    ensures ok && i > 0 ==> next == Pow(58, |block| - i) < U64_LIMIT
    ensures !ok ==> !(AllSymbols(block) && Value(58, DigitsOf(block)) < U64_LIMIT)
  {
    ok, sum, next := false, num, order;
    var digit := DigitOf(block[i]);
    if digit < 0 { return; }
    ok, sum := AddProduct(num, order, digit);
    if !ok {
      if AllSymbols(block) { TooLarge(block, i); }
      return;
    }
    if i > 0 { PowersFit(|block| - i); }
    next := Wrap(order * ALPHABET_SIZE);
  }

  lemma TooLarge(block: string, i: nat)
    requires i <= |block| && AllSymbols(block) && ValueFrom(block, i) >= U64_LIMIT
    ensures Value(58, DigitsOf(block)) >= U64_LIMIT
  {
    ValueFromGrows(block, i);
    ValueFromIsValue(block, 0);
    assert DigitsOf(block)[0..] == DigitsOf(block);
  }

  /** decode_block: succeeds exactly on the decodable blocks, and then writes their bytes. */
  method DecodeBlock(block: string, res: array<Byte>, off: nat) returns (ok: bool)
    requires 1 <= |block| <= FULL_ENCODED
    requires DecodedSize(|block|) > 0 ==> off + DecodedSize(|block|) <= res.Length
    modifies res
    ensures ok == Decodable(block)
    ensures ok ==> res[off..off + DecodedSize(|block|)] == DecodedBlock(block)
    ensures !ok ==> res[..] == old(res[..])
    ensures forall k :: 0 <= k < res.Length && (k < off || off + DecodedSize(|block|) <= k) ==> res[k] == old(res[k])
  {
    ok := false;
    var size := DecodedSize(|block|);
    if size <= 0 { return; }
    var fits, num := Accumulate(block);
    PowerLimit(size);
    if !fits { return; }
    if size < FULL_BLOCK && Pow(256, size) <= num { return; }
    DigitsInBase(256, num, size);
    var bytes := ToBytes(Digits(256, num, size));
    forall k | 0 <= k < size { res[off + k] := bytes[k]; }
    assert res[off..off + size] == bytes;
    ok := true;
  }

  lemma PowerLimit(size: nat)
    requires size <= FULL_BLOCK
    ensures Pow(256, size) <= U64_LIMIT && (size == FULL_BLOCK ==> Pow(256, size) == U64_LIMIT)
  {
    assert Pow(256, 4) == 4294967296 && Pow(256, 8) == U64_LIMIT;
    PowMonotone(256, size, 8);
  }

  // ------------------------------------------------------------------ encode and decode

  /** encode */
  method EncodeString(data: ByteSeq) returns (s: string)
    ensures s == Encoded(data)
  {
    if data == [] { return ""; }
    var full, last := |data| / FULL_BLOCK, |data| % FULL_BLOCK;
    var res := new char[full * FULL_ENCODED + EncodedSize(last)](_ => Symbol(0));
    EncodeFullBlocks(data, full, res);
    ghost var done := res[..full * 11];
    EncodeOneBlock(data[full * FULL_BLOCK..], res, full * FULL_ENCODED);
    assert res[..] == done + res[full * 11..full * 11 + EncodedSize(last)];
    s := res[..];
  }

  method EncodeFullBlocks(data: ByteSeq, full: nat, res: array<char>)
    requires full * 8 <= |data| && full * 11 <= res.Length
    requires forall k :: 0 <= k < res.Length ==> res[k] == Symbol(0)
    modifies res
    ensures res[..full * 11] == EncodeBlocks(EncodeOne, data, full)
    ensures forall k :: full * 11 <= k < res.Length ==> res[k] == Symbol(0)
  {
    for i := 0 to full
      invariant res[..i * 11] == EncodeBlocks(EncodeOne, data, i)
      invariant forall k :: i * 11 <= k < res.Length ==> res[k] == Symbol(0)
    {
      ghost var done := res[..i * 11];
      EncodeOneBlock(BytesOf(data, i), res, i * FULL_ENCODED);
      assert res[..(i + 1) * 11] == done + res[i * 11..i * 11 + 11];
    }
  }

  /** encode_block, skipped for an empty last block. */
  method EncodeOneBlock(block: ByteSeq, res: array<char>, off: nat)
    requires |block| <= FULL_BLOCK && off + EncodedSize(|block|) <= res.Length
    requires forall k :: off <= k < off + EncodedSize(|block|) ==> res[k] == Symbol(0)
    modifies res
    ensures res[off..off + EncodedSize(|block|)] == EncodeOne(block)
    ensures forall k :: 0 <= k < off || off + EncodedSize(|block|) <= k < res.Length ==> res[k] == old(res[k])
  {
    if 0 < |block| {
      EncodeBlock(block, res, off);
    }
  }

  /** decode */
  method DecodeString(s: string) returns (ok: bool, data: ByteSeq)
    ensures ok == Decode(s).Good?
    ensures ok ==> data == Decode(s).data
  {
    if s == "" { return true, []; }
    ok, data := false, [];
    var full, last := |s| / FULL_ENCODED, |s| % FULL_ENCODED;
    var lastSize := DecodedSize(last);
    if lastSize < 0 {
      BadLength(s[full * FULL_ENCODED..]);
      return;
    }
    var res := new Byte[full * FULL_BLOCK + lastSize](_ => 0);
    ok := DecodeFullBlocks(s, full, res);
    if !ok { return; }
    ok := DecodeLastBlock(s, full, res);
    data := res[..];
  }

  method DecodeLastBlock(s: string, full: nat, res: array<Byte>) returns (ok: bool)
    requires full * 11 <= |s| < full * 11 + 11 && DecodedSize(|s| - full * 11) >= 0
    requires res.Length == full * 8 + DecodedSize(|s| - full * 11)
    modifies res
    ensures ok == DecodeOne(s[full * 11..]).Good?
    ensures ok ==> res[..] == old(res[..full * 8]) + DecodeOne(s[full * 11..]).data
  {
    ghost var done := res[..full * 8];
    ok := DecodeOneBlock(s[full * FULL_ENCODED..], res, full * FULL_BLOCK);
    assert res[..] == done + res[full * 8..res.Length];
  }

  lemma BadLength(s: string)
    requires |s| < FULL_ENCODED && DecodedSize(|s|) < 0
    ensures DecodeOne(s).Bad?
  {
  }

  method DecodeFullBlocks(s: string, full: nat, res: array<Byte>) returns (ok: bool)
    requires full * 11 <= |s| && full * 8 <= res.Length
    modifies res
    ensures ok == DecodeBlocks(DecodeOne, s, full).Good?
    ensures ok ==> res[..full * 8] == DecodeBlocks(DecodeOne, s, full).data
  {
    ok := true;
    for i := 0 to full
      invariant DecodeBlocks(DecodeOne, s, i) == Good(res[..i * 8])
    {
      ok := DecodeNextBlock(s, i, res);
      if !ok {
        BadBlock(DecodeOne, s, i, full);
        return;
      }
    }
  }

  method DecodeNextBlock(s: string, i: nat, res: array<Byte>) returns (ok: bool)
    requires (i + 1) * 11 <= |s| && (i + 1) * 8 <= res.Length
    requires DecodeBlocks(DecodeOne, s, i) == Good(res[..i * 8])
    modifies res
    ensures !ok ==> DecodeOne(SymbolsOf(s, i)).Bad?
    ensures ok ==> DecodeBlocks(DecodeOne, s, i + 1) == Good(res[..(i + 1) * 8])
  {
    ghost var done := res[..i * 8];
    ok := DecodeOneBlock(SymbolsOf(s, i), res, i * FULL_BLOCK);
    assert res[..(i + 1) * 8] == done + res[i * 8..i * 8 + 8];
  }

  /** decode_block, skipped for an empty last block. */
  method DecodeOneBlock(block: string, res: array<Byte>, off: nat) returns (ok: bool)
    requires |block| <= FULL_ENCODED
    requires DecodedSize(|block|) >= 0 ==> off + DecodedSize(|block|) <= res.Length
    modifies res
    ensures ok == DecodeOne(block).Good?
    ensures ok ==> DecodedSize(|block|) >= 0 && res[off..off + DecodedSize(|block|)] == DecodeOne(block).data
    ensures forall k :: 0 <= k < res.Length && k < off ==> res[k] == old(res[k])
  {
    ok := true;
    if 0 < |block| {
      ok := DecodeBlock(block, res, off);
    }
  }
}
