/** The chunked-body decoder as `getHTTPResponse` runs it, with its variables and buffers in place. */
module ChunkDecoders {
  import opened Bytes
  import opened Sequences
  import opened ChunkedBody
  import opened ChunkedPackets

  lemma SizeStep(digits: ByteSeq, j: nat)
    requires AllHex(digits) && j < |digits|
    ensures IsHex(digits[j]) && AllHex(digits[..j]) && AllHex(digits[..j + 1])
    ensures Size32(digits[..j + 1]) == (Size32(digits[..j]) * 16 + HexValue(digits[j])) % U32_LIMIT
  {
    assert digits[..j + 1][..j] == digits[..j];
  }

  lemma HexRunAt(digits: ByteSeq, buf: ByteSeq, at: nat, i: nat)
    requires at <= i <= |buf| && AllHex(buf[at..i]) && |digits| + (i - at) <= MAX_DIGITS
    requires i == |buf| || |digits| + (i - at) == MAX_DIGITS || !IsHex(buf[i])
    ensures buf[at..i] == MoreDigits(digits, buf[at..])
  {
    Tails(buf, at, i);
    assert forall k :: 0 <= k < i - at ==> buf[at..][k] == buf[at..i][k];
    HexEndIs(buf[at..], 0, MAX_DIGITS - |digits|, i - at);
  }

  /** The variables of `getHTTPResponse` that live across packets, with its two buffers. */
  class ChunkDecoder {
    var chunksize: nat
    const chunksizeBuf: array<Byte>
    var chunksizeBufIndex: nat
    var contentBuf: array<Byte>
    var contentBufUsed: nat
    const contentLength: int
    var endOfStream: bool

    ghost predicate Valid()
      reads this, chunksizeBuf, contentBuf
    {
      && chunksizeBuf.Length == MAX_DIGITS + 1 && chunksizeBufIndex <= MAX_DIGITS
      && contentBufUsed <= contentBuf.Length && contentBuf != chunksizeBuf
      && Sane(View())
    }

    ghost function View(): State
      requires chunksizeBufIndex <= chunksizeBuf.Length && contentBufUsed <= contentBuf.Length
      reads this, chunksizeBuf, contentBuf
    {
      State(chunksize, chunksizeBuf[..chunksizeBufIndex], contentBuf[..contentBufUsed], endOfStream)
    }

    constructor (contentLength: int)
      ensures Valid() && View() == START && this.contentLength == contentLength
      ensures fresh(chunksizeBuf) && fresh(contentBuf)
    {
      chunksize, chunksizeBufIndex, contentBufUsed, endOfStream := 0, 0, 0, false;
      this.contentLength := contentLength;
      chunksizeBuf := new Byte[32](_ => 0);
      contentBuf := new Byte[2048](_ => 0);
    }

    /** One packet: the state moves as `ChunkedBody.Feed` says, and the content buffer grows in time. */
    method FeedPacket(buf: ByteSeq)
      requires Valid() && !endOfStream && contentBufUsed + |buf| < U32_LIMIT
      modifies this, chunksizeBuf, contentBuf
      ensures Valid() && View() == Feed(old(View()), buf)
      ensures contentBufUsed <= old(contentBufUsed) + |buf|
      ensures contentBuf == old(contentBuf) || fresh(contentBuf)
    {
      var i := 0;
      ghost var start := View();
      assert buf[0..] == buf;
      while i < |buf| && !endOfStream
        invariant Valid() && i <= |buf|
        invariant contentBuf == old(contentBuf) || fresh(contentBuf)
        invariant contentBufUsed <= old(contentBufUsed) + i
        invariant Feed(View(), buf[i..]) == Feed(start, buf)
        decreases |buf| - i
      {
        i := TakePass(buf, i);
      }
    }

    /** The packets of a connection, until the end of the stream or the announced length is reached. */
    method FeedPackets(packets: seq<ByteSeq>)
      requires Valid() && contentBufUsed + |Concat(packets)| < U32_LIMIT
      modifies this, chunksizeBuf, contentBuf
      ensures Valid() && View() == Received(old(View()), packets, contentLength)
    {
      var k := 0;
      ghost var start := View();
      assert packets[0..] == packets;
      while k < |packets| && !endOfStream
        invariant Valid() && k <= |packets|
        invariant contentBuf == old(contentBuf) || fresh(contentBuf)
        invariant contentBufUsed + |Concat(packets[k..])| < U32_LIMIT
        invariant Received(View(), packets[k..], contentLength) == Received(start, packets, contentLength)
        decreases |packets| - k
      {
        assert packets[k..][1..] == packets[k + 1..];
        FeedPacket(packets[k]);
        k := k + 1;
        if contentLength > 0 && contentBufUsed >= contentLength { return; }
      }
    }

    method TakePass(buf: ByteSeq, at: nat) returns (i: nat)
      requires Valid() && !endOfStream && at < |buf| && contentBufUsed + (|buf| - at) < U32_LIMIT
      modifies this, chunksizeBuf, contentBuf
      ensures Valid() && at < i <= |buf|
      ensures Pass(View(), buf[i..]) == OnePass(old(View()), buf[at..])
      ensures contentBufUsed - old(contentBufUsed) <= i - at
      ensures contentBuf == old(contentBuf) || fresh(contentBuf)
    {
      i := at;
      if chunksize == 0 {
        var complete;
        i, complete := ReadSizeLine(buf, at);
        if !complete { return; }
        if chunksize == 0 {
          endOfStream := true;
          return;
        }
      }
      i := CopyBytes(buf, i);
    }

    /** The size line: a full line leaves the size, an unfinished one the digits so far. */
    method ReadSizeLine(buf: ByteSeq, at: nat) returns (i: nat, complete: bool)
      requires Valid() && chunksize == 0 && at < |buf|
      modifies this`chunksize, this`chunksizeBufIndex, chunksizeBuf
      ensures Valid() && at < i <= |buf|
      ensures ReadAs(old(View()).digits, LineStart(old(View()).digits, buf[at..]), complete, buf[i..])
    {
      i := SkipLineStart(buf, at);
      i, complete := ScanSizeLine(buf, i);
    }

    method SkipLineStart(buf: ByteSeq, at: nat) returns (i: nat)
      requires Valid() && at <= |buf|
      ensures at <= i <= |buf| && buf[i..] == LineStart(View().digits, buf[at..])
    {
      i := at;
      if chunksizeBufIndex == 0 {
        i := SkipAt(buf, i, CR);
        i := SkipAt(buf, i, LF);
      }
    }

    method ScanSizeLine(buf: ByteSeq, at: nat) returns (i: nat, complete: bool)
      requires Valid() && chunksize == 0 && at <= |buf|
      modifies this`chunksize, this`chunksizeBufIndex, chunksizeBuf
      ensures Valid() && at <= i <= |buf|
      ensures ReadAs(old(View()).digits, buf[at..], complete, buf[i..])
    {
      ghost var digits := View().digits;
      var mid := TakeDigits(buf, at);
      Tails(buf, at, mid);
      i, complete := ScanEnd(digits + buf[at..mid], buf, mid);
      if complete {
        TakeSize();
      }
    }

    ghost predicate ReadAs(digits: ByteSeq, p: ByteSeq, complete: bool, rest: ByteSeq)
      requires Valid() && AllHex(digits) && |digits| <= MAX_DIGITS
      reads this, chunksizeBuf, contentBuf
    {
      var line := ScanLine(digits, p);
      && complete == line.complete && rest == line.rest
      && View().digits == (if complete then [] else line.digits)
      && chunksize == (if complete then Size32(line.digits) else 0)
    }

    /** After the digits: the extension and the line end. */
    static method ScanEnd(ghost digits: ByteSeq, buf: ByteSeq, at: nat) returns (i: nat, complete: bool)
      requires at <= |buf|
      ensures at <= i <= |buf|
      ensures ScanLineEnd(digits, buf[at..]) == Line(digits, complete, buf[i..])
    {
      var e := SkipExtension(buf, at);
      Tails(buf, at, e);
      i := SkipAt(buf, e, CR);
      complete := i < |buf| && buf[i] == LF;
      if complete {
        i := i + 1;
      }
    }

    /** The line is complete: its digits become the chunk size. */
    method TakeSize()
      requires Valid() && chunksize == 0
      modifies this`chunksize, this`chunksizeBufIndex, chunksizeBuf
      ensures Valid() && chunksize == Size32(old(View()).digits) && View().digits == []
    {
      chunksize := SizeOfDigits();
      chunksizeBuf[0] := 0;
      chunksizeBufIndex := 0;
    }

    static method SkipAt(buf: ByteSeq, at: nat, b: Byte) returns (i: nat)
      requires at <= |buf|
      ensures at <= i <= |buf| && buf[i..] == SkipOne(buf[at..], b)
    {
      i := at;
      if i < |buf| && buf[i] == b { i := i + 1; }
    }

    /** Hex digits go to `chunksizeBuf` while it has room. */
    method TakeDigits(buf: ByteSeq, at: nat) returns (i: nat)
      requires Valid() && chunksize == 0 && at <= |buf|
      modifies this`chunksizeBufIndex, chunksizeBuf
      ensures Valid() && at <= i <= |buf|
      ensures buf[at..i] == MoreDigits(old(View()).digits, buf[at..])
      ensures View().digits == old(View()).digits + buf[at..i]
    {
      i := at;
      while i < |buf| && IsHex(buf[i]) && chunksizeBufIndex < chunksizeBuf.Length - 1
        invariant Valid() && at <= i <= |buf| && chunksizeBufIndex == old(chunksizeBufIndex) + (i - at)
        invariant View().digits == old(View()).digits + buf[at..i]
        invariant AllHex(buf[at..i])
      {
        Longer(buf, at, i);
        PutDigit(buf[i]);
        i := i + 1;
      }
      HexRunAt(old(View()).digits, buf, at, i);
    }

    method PutDigit(b: Byte)
      requires Valid() && chunksize == 0 && chunksizeBufIndex < MAX_DIGITS && IsHex(b)
      modifies this`chunksizeBufIndex, chunksizeBuf
      ensures Valid() && chunksizeBufIndex == old(chunksizeBufIndex) + 1
      ensures View().digits == old(View()).digits + [b]
    {
      chunksizeBuf[chunksizeBufIndex] := b;
      chunksizeBufIndex := chunksizeBufIndex + 1;
      chunksizeBuf[chunksizeBufIndex] := 0;
    }

    static method SkipExtension(buf: ByteSeq, at: nat) returns (i: nat)
      requires at <= |buf|
      ensures at <= i <= |buf| && i == at + LineRun(buf[at..])
    {
      i := at;
      while i < |buf| && buf[i] != CR && buf[i] != LF
        invariant at <= i <= |buf|
        invariant forall k :: at <= k < i ==> !EndsLine(buf[k])
      {
        i := i + 1;
      }
      LineEndIs(buf[at..], 0, i - at);
    }

    method SizeOfDigits() returns (size: nat)
      requires Valid()
      ensures size == Size32(View().digits)
    {
      size := 0;
      ghost var digits := View().digits;
      for j := 0 to chunksizeBufIndex
        invariant AllHex(digits[..j]) && size == Size32(digits[..j])
      {
        var d := chunksizeBuf[j];
        SizeStep(digits, j);
        assert d == digits[j];
        if 48 <= d <= 57 {
          size := (size * 16 + (d as nat - 48)) % U32_LIMIT;
        } else {
          size := (size * 16 + (LowerCase(d) - 97 + 10)) % U32_LIMIT;
        }
      }
      assert digits[..chunksizeBufIndex] == digits;
    }

    /** `d | 32` for a letter. */
    static function LowerCase(d: Byte): nat {
      if 65 <= d <= 90 then d as nat + 32 else d as nat
    }

    /** Chunk data into the content buffer, which is enlarged when it is too short. */
    method CopyBytes(buf: ByteSeq, at: nat) returns (i: nat)
      requires Valid() && chunksize > 0 && at <= |buf| && contentBufUsed + (|buf| - at) < U32_LIMIT
      modifies this, contentBuf
      ensures Valid() && at <= i <= |buf| && i == at + (contentBufUsed - old(contentBufUsed))
      ensures Pass(View(), buf[i..]) == Copy(old(View()), buf[at..])
      ensures contentBuf == old(contentBuf) || fresh(contentBuf)
    {
      var bytesToCopy := if chunksize < |buf| - at then chunksize else |buf| - at;
      if contentBufUsed + bytesToCopy > contentBuf.Length {
        Enlarge(if contentLength >= contentBufUsed + bytesToCopy then contentLength else contentBufUsed + bytesToCopy);
      }
      Append(buf[at..at + bytesToCopy]);
      assert buf[at..][..bytesToCopy] == buf[at..at + bytesToCopy];
      i := at + bytesToCopy;
      chunksize := chunksize - bytesToCopy;
    }

    /** `realloc`. */
    method Enlarge(length: nat)
      requires Valid() && contentBuf.Length < length
      modifies this`contentBuf
      ensures Valid() && View() == old(View()) && fresh(contentBuf) && contentBuf.Length == length
    {
      ghost var was := View();
      var tmp := new Byte[length](_ => 0);
      for k := 0 to contentBufUsed
        modifies tmp
        invariant tmp[..k] == contentBuf[..k]
      {
        tmp[k] := contentBuf[k];
      }
      contentBuf := tmp;
      assert View() == was;
    }

    /** `memcpy` to the end of the content. */
    method Append(bytes: ByteSeq)
      requires Valid() && contentBufUsed + |bytes| <= contentBuf.Length
      modifies this`contentBufUsed, contentBuf
      ensures Valid() && View() == old(View()).(content := old(View()).content + bytes)
      ensures contentBufUsed == old(contentBufUsed) + |bytes|
    {
      ghost var was := View();
      for k := 0 to |bytes|
        modifies contentBuf
        invariant contentBuf[..contentBufUsed + k] == was.content + bytes[..k]
        invariant chunksizeBuf[..chunksizeBufIndex] == was.digits
      {
        contentBuf[contentBufUsed + k] := bytes[k];
      }
      contentBufUsed := contentBufUsed + |bytes|;
      assert bytes[..|bytes|] == bytes;
    }
  }

  /** A response body from the network, in packets that keep its sizes: the content is that of the body,
      or a prefix of it no shorter than the announced length. */
  method ReceiveBody(ghost body: Body, packets: seq<ByteSeq>, contentLength: int) returns (content: ByteSeq)
    requires WellFormed(body) && Concat(packets) == Wire(body) && InStep(packets, body) && |Wire(body)| < U32_LIMIT
    ensures content == Received(START, packets, contentLength).content
    ensures content <= Content(body) && (content == Content(body) || 0 < contentLength <= |content|)
  {
    var decoder := new ChunkDecoder(contentLength);
    decoder.FeedPackets(packets);
    ReceivedContent(body, packets, contentLength);
    content := decoder.contentBuf[..decoder.contentBufUsed];
  }
}
