/** The chunked-body decoder of `getHTTPResponse` (chunked transfer coding, section 7.1 of RFC 9112).
    Its state has to survive packet boundaries anywhere in the body. */
module ChunkedBody {
  import opened Bytes

  const CR: Byte := 13
  const LF: Byte := 10
  /** Digits that fit in chunksize_buf beside its terminating zero. */
  const MAX_DIGITS: nat := 31

  predicate IsHex(b: Byte) {
    48 <= b <= 57 || 65 <= b <= 70 || 97 <= b <= 102
  }

  function HexValue(b: Byte): (v: nat)
    requires IsHex(b)
    ensures v < 16
  {
    if b <= 57 then b as nat - 48 else if b <= 70 then b as nat - 65 + 10 else b as nat - 97 + 10
  }

  predicate AllHex(s: ByteSeq) {
    forall i :: 0 <= i < |s| ==> IsHex(s[i])
  }

  predicate EndsLine(b: Byte) {
    b == CR || b == LF
  }

  /** The number the digits stand for, in 32-bit arithmetic. */
  function Size32(digits: ByteSeq): (n: nat)
    requires AllHex(digits)
    ensures n < U32_LIMIT
  {
    if digits == [] then 0
    else (Size32(digits[..|digits| - 1]) * 16 + HexValue(digits[|digits| - 1])) % U32_LIMIT
  }

  // ------------------------------------------------------------------------ the decoder

  /** `chunksize`, the digits in `chunksize_buf`, the content so far, and whether the end of the
      stream was reached. */
  datatype State = State(chunk: nat, digits: ByteSeq, content: ByteSeq, done: bool)

  const START: State := State(0, [], [], false)

  ghost predicate Sane(st: State) {
    AllHex(st.digits) && |st.digits| <= MAX_DIGITS && (st.chunk > 0 ==> st.digits == [])
  }

  /** Where the hex digits from `i` on end, at most `room` of them. */
  function HexEnd(p: ByteSeq, i: nat, room: nat): (e: nat)
    requires i <= |p|
    ensures i <= e <= |p| && e - i <= room && (e < |p| && e - i < room ==> !IsHex(p[e]))
    decreases |p| - i
  {
    if i == |p| || room == 0 || !IsHex(p[i]) then i else HexEnd(p, i + 1, room - 1)
  }

  /** How many hex digits the packet starts with, at most `room`. */
  function HexRun(p: ByteSeq, room: nat): (n: nat)
    ensures n <= |p| && n <= room && (n < |p| && n < room ==> !IsHex(p[n]))
  {
    HexEnd(p, 0, room)
  }

  lemma {:induction false} HexEndHex(p: ByteSeq, i: nat, room: nat)
    requires i <= |p|
    ensures forall k :: i <= k < HexEnd(p, i, room) ==> IsHex(p[k])
    decreases |p| - i
  {
    if i < HexEnd(p, i, room) {
      HexEndHex(p, i + 1, room - 1);
    }
  }

  /** The hex digits a packet starts with that still fit in `chunksize_buf`. */
  function MoreDigits(digits: ByteSeq, p: ByteSeq): (h: ByteSeq)
    requires |digits| <= MAX_DIGITS
    ensures AllHex(h) && |digits + h| <= MAX_DIGITS
  {
    HexEndHex(p, 0, MAX_DIGITS - |digits|);
    p[..HexRun(p, MAX_DIGITS - |digits|)]
  }

  /** Where the line that goes on at `i` ends. */
  function LineEnd(p: ByteSeq, i: nat): (e: nat)
    requires i <= |p|
    ensures i <= e <= |p| && (e < |p| ==> EndsLine(p[e]))
    decreases |p| - i
  {
    if i == |p| || EndsLine(p[i]) then i else LineEnd(p, i + 1)
  }

  /** How many bytes come before the end of the line. */
  function LineRun(p: ByteSeq): (n: nat)
    ensures n <= |p| && (n < |p| ==> EndsLine(p[n]))
  {
    LineEnd(p, 0)
  }

  function SkipOne(p: ByteSeq, b: Byte): ByteSeq {
    if p != [] && p[0] == b then p[1..] else p
  }

  /** What one pass of the loop leaves: the state and the unread part of the packet. */
  datatype Pass = Pass(st: State, rest: ByteSeq)

  function Copy(st: State, p: ByteSeq): Pass {
    var n := if st.chunk < |p| then st.chunk else |p|;
    Pass(st.(chunk := st.chunk - n, content := st.content + p[..n]), p[n..])
  }

  /** A size line as far as the packet has it: all digits so far, and whether its end was reached. */
  datatype Line = Line(digits: ByteSeq, complete: bool, rest: ByteSeq)

  function ScanLine(digits: ByteSeq, p: ByteSeq): (line: Line)
    requires AllHex(digits) && |digits| <= MAX_DIGITS
    ensures AllHex(line.digits) && |line.digits| <= MAX_DIGITS
    ensures |line.rest| <= |p| && (p != [] ==> |line.rest| < |p|)
  {
    var h := MoreDigits(digits, p);
    ScanLineEnd(digits + h, p[|h|..])
  }

  /** The rest of the line after its digits: the extension is skipped, then the line end. */
  function ScanLineEnd(digits: ByteSeq, p: ByteSeq): (line: Line)
    ensures line.digits == digits && |line.rest| <= |p|
    ensures p != [] && !(IsHex(p[0]) && |digits| < MAX_DIGITS) ==> |line.rest| < |p|
  {
    var t := SkipOne(p[LineRun(p)..], CR);
    if t != [] && t[0] == LF then Line(digits, true, t[1..]) else Line(digits, false, t)
  }

  function FinishLine(content: ByteSeq, line: Line): (pass: Pass)
    requires AllHex(line.digits)
    ensures |line.digits| <= MAX_DIGITS ==> Sane(pass.st)
    ensures |pass.rest| <= |line.rest|
  {
    if !line.complete then Pass(State(0, line.digits, content, false), line.rest)
    else if Size32(line.digits) == 0 then Pass(State(0, [], content, true), line.rest)
    else Copy(State(Size32(line.digits), [], content, false), line.rest)
  }

  function OnePass(st: State, p: ByteSeq): (pass: Pass)
    requires Sane(st) && p != []
    ensures Sane(pass.st) && |pass.rest| < |p|
  {
    if st.chunk > 0 then Copy(st, p) else FinishLine(st.content, ScanLine(st.digits, LineStart(st.digits, p)))
  }

  /** A line end in front of a size line is skipped. */
  function LineStart(digits: ByteSeq, p: ByteSeq): ByteSeq {
    if digits == [] then SkipOne(SkipOne(p, CR), LF) else p
  }

  /** A whole packet. */
  function Feed(st: State, p: ByteSeq): (r: State)
    requires Sane(st)
    ensures Sane(r)
    decreases |p|
  {
    if p == [] || st.done then st else Feed(OnePass(st, p).st, OnePass(st, p).rest)
  }

  const CRLF: ByteSeq := [CR, LF]

  function Concat(packets: seq<ByteSeq>): ByteSeq {
    if packets == [] then [] else packets[0] + Concat(packets[1..])
  }

  /** The packets in order, as far as the loop reads them. */
  function FeedAll(st: State, packets: seq<ByteSeq>): State
    requires Sane(st)
    decreases |packets|
  {
    if packets == [] || st.done then st else FeedAll(Feed(st, packets[0]), packets[1..])
  }

  /** The sizes that a pass, a packet and a whole run read from their size lines. */
  function PassSizes(st: State, p: ByteSeq): (sizes: seq<nat>)
    requires Sane(st) && p != []
    ensures |sizes| <= 1
  {
    if st.chunk > 0 then [] else LineSizes(ScanLine(st.digits, LineStart(st.digits, p)))
  }

  function LineSizes(line: Line): (sizes: seq<nat>)
    requires AllHex(line.digits)
    ensures |sizes| <= 1
  {
    if line.complete then [Size32(line.digits)] else []
  }

  function FeedSizes(st: State, p: ByteSeq): seq<nat>
    requires Sane(st)
    decreases |p|
  {
    if p == [] || st.done then [] else PassSizes(st, p) + FeedSizes(OnePass(st, p).st, OnePass(st, p).rest)
  }

  function SizesRead(st: State, packets: seq<ByteSeq>): seq<nat>
    requires Sane(st)
    decreases |packets|
  {
    if packets == [] || st.done then []
    else FeedSizes(st, packets[0]) + SizesRead(Feed(st, packets[0]), packets[1..])
  }

  // --------------------------------------------------------------------- numbers in hex

  /** The number the digits stand for. */
  function HexNumber(digits: ByteSeq): nat
    requires AllHex(digits)
  {
    if digits == [] then 0 else HexNumber(digits[..|digits| - 1]) * 16 + HexValue(digits[|digits| - 1])
  }

  lemma {:induction false} Size32IsNumber(digits: ByteSeq)
    requires AllHex(digits)
    ensures Size32(digits) == HexNumber(digits) % U32_LIMIT
  {
    if digits != [] {
      var front := digits[..|digits| - 1];
      Size32IsNumber(front);
      ModStep(HexNumber(front), HexValue(digits[|digits| - 1]));
    }
  }

  lemma ModStep(n: nat, h: nat)
    ensures (n % U32_LIMIT * 16 + h) % U32_LIMIT == (n * 16 + h) % U32_LIMIT
  {
    var q, m := n / U32_LIMIT, n % U32_LIMIT;
    assert n * 16 + h == m * 16 + h + 16 * q * U32_LIMIT;
    ModWhole(m * 16 + h, 16 * q);
  }

  lemma {:induction false} ModWhole(a: nat, k: nat)
    ensures (a + k * U32_LIMIT) % U32_LIMIT == a % U32_LIMIT
  {
    if k > 0 {
      ModWhole(a, k - 1);
      assert a + k * U32_LIMIT == a + (k - 1) * U32_LIMIT + U32_LIMIT;
    }
  }

  lemma LongerSize(digits: ByteSeq, x: Byte)
    requires AllHex(digits) && IsHex(x)
    ensures AllHex(digits + [x])
    ensures Size32(digits + [x]) == Size32(digits) <==> (15 * Size32(digits) + HexValue(x)) % U32_LIMIT == 0
  {
    assert (digits + [x])[..|digits|] == digits;
    SameMod(Size32(digits), HexValue(x));
  }

  lemma SameMod(s: nat, h: nat)
    requires s < U32_LIMIT
    ensures (s * 16 + h) % U32_LIMIT == s <==> (15 * s + h) % U32_LIMIT == 0
  {
    var n := 15 * s + h;
    assert s * 16 + h == n + s;
    assert n == n / U32_LIMIT * U32_LIMIT + n % U32_LIMIT;
  }

  // ---------------------------------------------------------------------- scanning a line

  /** Two ways to cut the same bytes. */
  lemma Cut(p: ByteSeq, q: ByteSeq, a: ByteSeq, b: ByteSeq)
    requires p + q == a + b
    ensures |p| <= |a| ==> p == a[..|p|] && q == a[|p|..] + b
    ensures |p| >= |a| ==> p == a + p[|a|..] && p[|a|..] + q == b
  {
    var r := p + q;
    if |p| <= |a| {
      assert p == r[..|p|] && q == r[|p|..];
    }
    if |p| >= |a| {
      assert a == r[..|a|] && b == r[|a|..];
    }
  }

  lemma CutFirst(p: ByteSeq, q: ByteSeq, x: Byte, b: ByteSeq)
    requires p != [] && p + q == [x] + b
    ensures p == [x] + p[1..] && p[0] == x && p[1..] + q == b
  {
    Cut(p, q, [x], b);
  }

  lemma {:induction false} HexEndIs(p: ByteSeq, i: nat, room: nat, e: nat)
    requires i <= e <= |p| && e - i <= room && (forall k :: i <= k < e ==> IsHex(p[k]))
    requires e == |p| || e - i == room || !IsHex(p[e])
    ensures HexEnd(p, i, room) == e
    decreases e - i
  {
    if i < e {
      HexEndIs(p, i + 1, room - 1, e);
    }
  }

  lemma {:induction false} LineEndIs(p: ByteSeq, i: nat, e: nat)
    requires i <= e <= |p| && (forall k :: i <= k < e ==> !EndsLine(p[k])) && (e == |p| || EndsLine(p[e]))
    ensures LineEnd(p, i) == e
    decreases e - i
  {
    if i < e {
      LineEndIs(p, i + 1, e);
    }
  }

  ghost predicate NoLineEnd(e: ByteSeq) {
    forall i :: 0 <= i < |e| ==> !EndsLine(e[i])
  }

  /** The packet ends in the text after the digits. */
  lemma CutInText(digits: ByteSeq, e: ByteSeq)
    requires NoLineEnd(e)
    ensures ScanLineEnd(digits, e) == Line(digits, false, [])
  {
    LineEndIs(e, 0, |e|);
  }

  /** The packet ends inside the line end. */
  lemma CutInLineEnd(digits: ByteSeq, e: ByteSeq)
    requires NoLineEnd(e)
    ensures ScanLineEnd(digits, e + [CR]) == Line(digits, false, [])
  {
    LineEndIs(e + [CR], 0, |e|);
    assert (e + [CR])[|e|..] == [CR];
  }

  /** The packet has the whole line end. */
  lemma WholeLineEnd(digits: ByteSeq, e: ByteSeq, rest: ByteSeq)
    requires NoLineEnd(e)
    ensures ScanLineEnd(digits, e + CRLF + rest) == Line(digits, true, rest)
  {
    var p := e + CRLF + rest;
    assert p[|e|] == CR;
    LineEndIs(p, 0, |e|);
    assert p[|e|..] == CRLF + rest;
    assert (CRLF + rest)[1..] == [LF] + rest;
  }
}
