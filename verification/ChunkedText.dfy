/** Chunked bodies as they are written: sizes in the hexadecimal notation, lines ended by "\r\n". */
module ChunkedText {
  import opened Bytes
  import opened ChunkedBody
  import opened ChunkedPackets

  // ------------------------------------------------------------- the hexadecimal notation

  const LOWER_CASE: string := "0123456789abcdef"
  const UPPER_CASE: string := "0123456789ABCDEF"

  function Lower(d: nat): Byte
    requires d < 16
  {
    LowerIsAscii(d);
    LOWER_CASE[d] as int as Byte
  }

  function Upper(d: nat): Byte
    requires d < 16
  {
    UpperIsAscii(d);
    UPPER_CASE[d] as int as Byte
  }

  lemma LowerIsAscii(d: nat)
    requires d < 16
    ensures LOWER_CASE[d] as int == if d < 10 then '0' as int + d else 'a' as int + d - 10
  {
  }

  lemma UpperIsAscii(d: nat)
    requires d < 16
    ensures UPPER_CASE[d] as int == if d < 10 then '0' as int + d else 'A' as int + d - 10
  {
  }

  /** The two symbols of the digit `d`. */
  predicate IsDigit(b: Byte, d: nat) {
    d < 16 && (b == Lower(d) || b == Upper(d))
  }

  /** A byte is a hex digit of this value exactly when it stands at this index in one of the alphabets. */
  lemma HexDigitExact(b: Byte, d: nat)
    ensures IsHex(b) && HexValue(b) == d <==> IsDigit(b, d)
  {
    if d < 16 {
      LowerIsAscii(d);
      UpperIsAscii(d);
    }
  }

  /** The number in lower case, without leading zeros. */
  function HexText(n: nat): ByteSeq {
    (if n < 16 then [] else HexText(n / 16)) + [Lower(n % 16)]
  }

  lemma {:induction false} HexTextNumber(n: nat)
    ensures AllHex(HexText(n)) && HexNumber(HexText(n)) == n
    decreases n
  {
    HexDigitExact(Lower(n % 16), n % 16);
    if n >= 16 {
      HexTextNumber(n / 16);
      assert HexText(n)[..|HexText(n)| - 1] == HexText(n / 16);
    }
  }

  /** A number below 16^k takes at most `k` digits, and at least one. */
  lemma {:induction false} HexTextLength(n: nat, k: nat)
    requires k > 0 && n < Pow16(k)
    ensures 1 <= |HexText(n)| <= k
    decreases k
  {
    if n >= 16 {
      HexTextLength(n / 16, k - 1);
    }
  }

  function Pow16(k: nat): nat {
    if k == 0 then 1 else 16 * Pow16(k - 1)
  }

  /** The same digits, each in either case. */
  ghost predicate SameDigits(s: ByteSeq, t: ByteSeq) {
    |s| == |t| && forall i :: 0 <= i < |s| ==> SameDigit(s[i], t[i])
  }

  ghost predicate SameDigit(a: Byte, b: Byte) {
    exists d :: IsDigit(a, d) && IsDigit(b, d)
  }

  lemma SameDigitValue(a: Byte, b: Byte)
    requires SameDigit(a, b)
    ensures IsHex(a) && IsHex(b) && HexValue(a) == HexValue(b)
  {
    var d :| IsDigit(a, d) && IsDigit(b, d);
    HexDigitExact(a, d);
    HexDigitExact(b, d);
  }

  lemma {:induction false} NumberOfValues(s: ByteSeq, t: ByteSeq)
    requires |s| == |t| && AllHex(s) && AllHex(t)
    requires forall i :: 0 <= i < |s| ==> HexValue(s[i]) == HexValue(t[i])
    ensures HexNumber(s) == HexNumber(t)
  {
    if s != [] {
      NumberOfValues(s[..|s| - 1], t[..|s| - 1]);
    }
  }

  /** The case of the letters does not matter. */
  lemma CaseIsIgnored(s: ByteSeq, t: ByteSeq)
    requires SameDigits(s, t)
    ensures AllHex(s) && AllHex(t) && HexNumber(s) == HexNumber(t)
  {
    forall i | 0 <= i < |s|
      ensures IsHex(s[i]) && IsHex(t[i]) && HexValue(s[i]) == HexValue(t[i])
    {
      SameDigitValue(s[i], t[i]);
    }
    NumberOfValues(s, t);
  }

  // ------------------------------------------------------------------------ whole bodies

  const LINE_END: ByteSeq := ['\r' as int as Byte, '\n' as int as Byte]
  const ZERO: ByteSeq := ['0' as int as Byte]

  /** The body a server sends for these pieces of data: the length of each in hex, a line end, the piece,
      a line end; then a zero, a line end and the trailer. `sizes` are the lengths as it writes
      them, in any mixture of cases. */
  function Served(pieces: seq<ByteSeq>, sizes: seq<ByteSeq>, trailer: ByteSeq): ByteSeq
    requires |pieces| == |sizes|
    decreases |pieces|
  {
    if pieces == [] then ZERO + LINE_END + trailer
    else sizes[0] + LINE_END + pieces[0] + LINE_END + Served(pieces[1..], sizes[1..], trailer)
  }

  ghost predicate Announced(pieces: seq<ByteSeq>, sizes: seq<ByteSeq>) {
    && |pieces| == |sizes|
    && forall i :: 0 <= i < |pieces| ==> 0 < |pieces[i]| < U32_LIMIT && SameDigits(HexText(|pieces[i]|), sizes[i])
  }

  function BodyOf(pieces: seq<ByteSeq>, sizes: seq<ByteSeq>, trailer: ByteSeq): Body
    requires |pieces| == |sizes|
    decreases |pieces|
  {
    if pieces == [] then Last(ZERO, [], trailer)
    else Chunk(sizes[0], [], pieces[0], BodyOf(pieces[1..], sizes[1..], trailer))
  }

  lemma {:induction false} BodyServed(pieces: seq<ByteSeq>, sizes: seq<ByteSeq>, trailer: ByteSeq)
    requires Announced(pieces, sizes)
    ensures var body := BodyOf(pieces, sizes, trailer);
      && WellFormed(body) && PlainBody(body)
      && Wire(body) == Served(pieces, sizes, trailer) && Content(body) == Concat(pieces)
    decreases |pieces|
  {
    assert LINE_END == CRLF;
    if pieces == [] {
      HexDigitExact(ZERO[0], 0);
      assert ZERO[..0] == [];
      assert ZERO + LINE_END + trailer == ZERO + [] + (CRLF + trailer);
    } else {
      BodyServed(pieces[1..], sizes[1..], trailer);
      SizeAnnounced(|pieces[0]|, sizes[0]);
      var rest := Served(pieces[1..], sizes[1..], trailer);
      WireJoined(sizes[0], pieces[0], rest);
    }
  }

  lemma SizeAnnounced(n: nat, size: ByteSeq)
    requires n < U32_LIMIT && SameDigits(HexText(n), size)
    ensures AllHex(size) && 1 <= |size| <= 8 && HexNumber(size) == n
  {
    assert Pow16(8) == U32_LIMIT;
    HexTextLength(n, 8);
    HexTextNumber(n);
    CaseIsIgnored(HexText(n), size);
  }

  lemma WireJoined(size: ByteSeq, data: ByteSeq, rest: ByteSeq)
    ensures size + LINE_END + data + LINE_END + rest == size + [] + (CRLF + (data + (CRLF + rest)))
  {
    assert LINE_END == CRLF;
  }

  /** What is sent is what is received: for all pieces of data, whatever the case of the sizes, whatever
      follows the last chunk and however the network cuts the body into packets. */
  lemma ServedIsReceived(pieces: seq<ByteSeq>, sizes: seq<ByteSeq>, trailer: ByteSeq, packets: seq<ByteSeq>)
    requires Announced(pieces, sizes) && Concat(packets) == Served(pieces, sizes, trailer)
    ensures FeedAll(START, packets).done && FeedAll(START, packets).content == Concat(pieces)
  {
    BodyServed(pieces, sizes, trailer);
    PacketIndependence(BodyOf(pieces, sizes, trailer), packets);
  }
}
