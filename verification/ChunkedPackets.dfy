/** What the chunked-body decoder makes of a body that arrives in packets, wherever they are cut. */
module ChunkedPackets {
  import opened Bytes
  import opened ChunkedBody

  // ------------------------------------------------------------------- well-formed bodies

  /** A chunked body: chunks of data, then a chunk of size zero and whatever follows it. */
  datatype Body =
    | Last(digits: ByteSeq, ext: ByteSeq, trailer: ByteSeq)
    | Chunk(digits: ByteSeq, ext: ByteSeq, data: ByteSeq, next: Body)
  {
    function Size(): nat {
      if Chunk? then |data| else 0
    }

    /** The text of the size line. */
    function Text(): ByteSeq {
      digits + ext
    }
  }

  /** An extension may hold anything but line ends, and does not go on with the number. */
  ghost predicate WellFormed(body: Body) {
    && AllHex(body.digits) && 1 <= |body.digits| <= MAX_DIGITS
    && NoLineEnd(body.ext) && (body.ext != [] && |body.digits| < MAX_DIGITS ==> !IsHex(body.ext[0]))
    && HexNumber(body.digits) == body.Size() < U32_LIMIT
    && (body.Chunk? ==> body.data != [] && WellFormed(body.next))
  }

  /** The bytes of a body, from its first size line on. */
  function Wire(body: Body): ByteSeq
    decreases body, 1
  {
    body.Text() + (CRLF + WireAfterLine(body))
  }

  function WireAfterLine(body: Body): ByteSeq
    decreases body, 0
  {
    match body
    case Last(_, _, trailer) => trailer
    case Chunk(_, _, data, next) => data + (CRLF + Wire(next))
  }

  /** The content of a body. */
  function Content(body: Body): ByteSeq {
    match body
    case Last(_, _, _) => []
    case Chunk(_, _, data, next) => data + Content(next)
  }

  /** The sizes its lines announce. */
  function Sizes(body: Body): seq<nat> {
    [body.Size()] + if body.Chunk? then Sizes(body.next) else []
  }

  // ------------------------------------------------------------- what the cuts make of a line

  /** The digits collected by the end of a line of which `n` bytes are still to come before its line
      end, in the rest `p` of a packet and the packets `later`: at the start of every packet hex
      digits are taken for digits of the size, as long as there is room. */
  function LineDigits(digits: ByteSeq, n: nat, p: ByteSeq, later: seq<ByteSeq>): (r: ByteSeq)
    requires AllHex(digits) && |digits| <= MAX_DIGITS
    ensures AllHex(r) && |r| <= MAX_DIGITS
    decreases |later|
  {
    if n <= |p| then digits + MoreDigits(digits, p[..n])
    else if later == [] then digits + MoreDigits(digits, p)
    else LineDigits(digits + MoreDigits(digits, p), n - |p|, later[0], later[1..])
  }

  /** Every size line of a body that starts after `k` more bytes keeps its size under these cuts. */
  ghost predicate InStepFrom(k: nat, p: ByteSeq, later: seq<ByteSeq>, body: Body)
    decreases body, |later|
  {
    if k > |p| then later != [] && InStepFrom(k - |p|, later[0], later[1..], body)
    else
      var n := |body.Text()|;
      && Size32(LineDigits([], n, p[k..], later)) == body.Size()
      && (body.Chunk? ==> InStepFrom(n + 2 + |body.data| + 2, p[k..], later, body.next))
  }

  ghost predicate InStep(packets: seq<ByteSeq>, body: Body) {
    InStepFrom(0, [], packets, body)
  }

  lemma {:induction false} InStepConsumed(k: nat, n: nat, p: ByteSeq, later: seq<ByteSeq>, body: Body)
    requires n <= k && n <= |p|
    ensures InStepFrom(k, p, later, body) == InStepFrom(k - n, p[n..], later, body)
  {
    if k <= |p| {
      assert p[n..][k - n..] == p[k..];
    }
  }

  lemma {:induction false} NoMoreDigits(digits: ByteSeq)
    requires |digits| <= MAX_DIGITS
    ensures MoreDigits(digits, []) == [] && digits + MoreDigits(digits, []) == digits
  {
  }

  /** An exhausted packet. */
  lemma {:induction false} LineDigitsNext(digits: ByteSeq, n: nat, later: seq<ByteSeq>)
    requires AllHex(digits) && |digits| <= MAX_DIGITS && later != []
    ensures LineDigits(digits, n, [], later) == LineDigits(digits, n, later[0], later[1..])
  {
    NoMoreDigits(digits);
    if n == 0 {
      assert later[0][..0] == [];
    }
  }

  lemma {:induction false} InStepNext(k: nat, later: seq<ByteSeq>, body: Body)
    requires later != []
    ensures InStepFrom(k, [], later, body) == InStepFrom(k, later[0], later[1..], body)
  {
    if k == 0 {
      LineDigitsNext([], |body.Text()|, later);
      assert later[0][0..] == later[0];
    }
  }

  // ------------------------------------------------- places in a body between two passes

  /** Where in a body the decoder stands. */
  datatype Place =
    | InData(left: ByteSeq, next: Body)     // chunk data left, then the rest
    | AtBreak(next: Body)                   // before the line end after a chunk
    | InBreak(next: Body)                   // inside that line end
    | InLine(text: ByteSeq, body: Body)     // text left of a size line
    | InLineEnd(body: Body)                 // inside the line end of a size line
    | Over                                  // after the last size line

  /** The bytes to come. */
  function Ahead(place: Place): ByteSeq
    requires !place.Over?
  {
    match place
    case InData(left, next) => left + (CRLF + Wire(next))
    case AtBreak(next) => CRLF + Wire(next)
    case InBreak(next) => [LF] + Wire(next)
    case InLine(text, body) => text + (CRLF + WireAfterLine(body))
    case InLineEnd(body) => [LF] + WireAfterLine(body)
  }

  /** The content still due. */
  function Due(place: Place): ByteSeq {
    match place
    case InData(left, next) => left + Content(next)
    case AtBreak(next) => Content(next)
    case InBreak(next) => Content(next)
    case InLine(_, body) => Content(body)
    case InLineEnd(body) => Content(body)
    case Over => []
  }

  function SizesDue(place: Place): seq<nat> {
    match place
    case InData(_, next) => Sizes(next)
    case AtBreak(next) => Sizes(next)
    case InBreak(next) => Sizes(next)
    case InLine(_, body) => Sizes(body)
    case InLineEnd(body) => Sizes(body)
    case Over => []
  }

  ghost predicate Fits(st: State, place: Place) {
    && st.done == place.Over?
    && match place
       case InData(left, next) => st.chunk == |left| > 0 && st.digits == [] && WellFormed(next)
       case AtBreak(next) => st.chunk == 0 && st.digits == [] && WellFormed(next)
       case InBreak(next) => st.chunk == 0 && st.digits == [] && WellFormed(next)
       case InLine(text, body) =>
         st.chunk == 0 && WellFormed(body) && NoLineEnd(text) && (st.digits == [] ==> text != [] && IsHex(text[0]))
       case InLineEnd(body) => st.chunk == 0 && WellFormed(body) && st.digits != []
       case Over => true
  }

  /** From here on every size line keeps its size under these cuts. */
  ghost predicate Keeps(place: Place, digits: ByteSeq, p: ByteSeq, later: seq<ByteSeq>)
    requires AllHex(digits) && |digits| <= MAX_DIGITS
  {
    match place
    case InData(left, next) => InStepFrom(|left| + 2, p, later, next)
    case AtBreak(next) => InStepFrom(2, p, later, next)
    case InBreak(next) => InStepFrom(1, p, later, next)
    case InLine(text, body) =>
      && Size32(LineDigits(digits, |text|, p, later)) == body.Size()
      && AfterLineInStep(|text| + 2, p, later, body)
    case InLineEnd(body) => Size32(digits) == body.Size() && AfterLineInStep(1, p, later, body)
    case Over => true
  }

  ghost predicate AfterLineInStep(k: nat, p: ByteSeq, later: seq<ByteSeq>, body: Body) {
    body.Chunk? ==> InStepFrom(k + |body.data| + 2, p, later, body.next)
  }

  lemma {:induction false} KeepsNext(place: Place, digits: ByteSeq, later: seq<ByteSeq>)
    requires AllHex(digits) && |digits| <= MAX_DIGITS && later != []
    ensures Keeps(place, digits, [], later) == Keeps(place, digits, later[0], later[1..])
  {
    match place
    case InData(left, next) => InStepNext(|left| + 2, later, next);
    case AtBreak(next) => InStepNext(2, later, next);
    case InBreak(next) => InStepNext(1, later, next);
    case InLine(text, body) =>
      LineDigitsNext(digits, |text|, later);
      if body.Chunk? { InStepNext(|text| + 2 + |body.data| + 2, later, body.next); }
    case InLineEnd(body) =>
      if body.Chunk? { InStepNext(1 + |body.data| + 2, later, body.next); }
    case Over =>
  }

  // ------------------------------------------------------------------ scanning across a cut

  lemma {:induction false} MoreDigitsCut(digits: ByteSeq, p: ByteSeq, n: nat)
    requires |digits| <= MAX_DIGITS && |MoreDigits(digits, p)| <= n <= |p|
    ensures MoreDigits(digits, p[..n]) == MoreDigits(digits, p)
  {
    var room := MAX_DIGITS - |digits|;
    var h := HexRun(p, room);
    HexEndHex(p, 0, room);
    HexEndIs(p[..n], 0, room, h);
    assert p[..n][..h] == p[..h];
  }

  /** The digits a packet adds all lie before the line end. */
  lemma {:induction false} DigitsInText(digits: ByteSeq, p: ByteSeq, w: ByteSeq, q: ByteSeq, after: ByteSeq)
    requires |digits| <= MAX_DIGITS && p + q == w + (CRLF + after)
    ensures |MoreDigits(digits, p)| <= |w|
  {
    HexEndHex(p, 0, MAX_DIGITS - |digits|);
    if |p| > |w| {
      assert p[|w|] == (p + q)[|w|] == (w + (CRLF + after))[|w|] == CR;
    }
  }

  /** A line as far as a packet has it. */
  lemma {:induction false} ScanText(digits: ByteSeq, p: ByteSeq, w: ByteSeq, q: ByteSeq, after: ByteSeq)
    requires AllHex(digits) && |digits| <= MAX_DIGITS && NoLineEnd(w) && p + q == w + (CRLF + after)
    ensures var d := digits + MoreDigits(digits, p);
      ScanLine(digits, p) == if |p| <= |w| + 1 then Line(d, false, []) else Line(d, true, p[|w| + 2..])
    ensures |p| > |w| + 1 ==> p[|w| + 2..] + q == after
  {
    var h := MoreDigits(digits, p);
    var t := p[|h|..];
    DigitsInText(digits, p, w, q, after);
    Cut(p, q, w, CRLF + after);
    if |p| <= |w| {
      CutInText(digits + h, t);
    } else {
      var u := p[|w|..];
      TextThen(p, w, |h|, u);
      Cut(u, q, CRLF, after);
      LineEndScanned(digits + h, w[|h|..], u, q, after);
      if |u| > 1 {
        assert u[2..] == p[|w| + 2..];
      }
    }
  }

  lemma {:induction false} TextThen(p: ByteSeq, w: ByteSeq, n: nat, u: ByteSeq)
    requires n <= |w| <= |p| && p == w + p[|w|..] && u == p[|w|..]
    ensures p[n..] == w[n..] + u
  {
  }

  lemma {:induction false} LineEndScanned(digits: ByteSeq, e: ByteSeq, u: ByteSeq, q: ByteSeq, after: ByteSeq)
    requires NoLineEnd(e) && u != [] && u + q == CRLF + after
    ensures ScanLineEnd(digits, e + u) == if |u| == 1 then Line(digits, false, []) else Line(digits, true, u[2..])
  {
    Cut(u, q, CRLF, after);
    if |u| == 1 {
      assert u == [CR];
      CutInLineEnd(digits, e);
    } else {
      assert e + u == e + CRLF + u[2..];
      WholeLineEnd(digits, e, u[2..]);
    }
  }

  /** What a packet adds to the digits of a line, and what the later ones do. */
  lemma {:induction false} LineDigitsStep(digits: ByteSeq, p: ByteSeq, later: seq<ByteSeq>, w: ByteSeq, after: ByteSeq)
    requires AllHex(digits) && |digits| <= MAX_DIGITS && p + Concat(later) == w + (CRLF + after)
    ensures |p| >= |w| ==> LineDigits(digits, |w|, p, later) == digits + MoreDigits(digits, p)
    ensures |p| <= |w| ==>
      LineDigits(digits, |w|, p, later) == LineDigits(digits + MoreDigits(digits, p), |w| - |p|, [], later)
  {
    DigitsInText(digits, p, w, Concat(later), after);
    if |p| >= |w| {
      MoreDigitsCut(digits, p, |w|);
      NoMoreDigits(digits + MoreDigits(digits, p));
    } else {
      assert |p + Concat(later)| > |w|;
      PacketUsedUp(digits, |w|, p, later);
    }
  }

  lemma {:induction false} PacketUsedUp(digits: ByteSeq, n: nat, p: ByteSeq, later: seq<ByteSeq>)
    requires AllHex(digits) && |digits| <= MAX_DIGITS && n > |p| && later != []
    ensures var d := digits + MoreDigits(digits, p);
      LineDigits(digits, n, p, later) == LineDigits(d, n - |p|, [], later)
  {
    LineDigitsNext(digits + MoreDigits(digits, p), n - |p|, later);
  }

  // ------------------------------------------------------------------------- passes

  /** What is to come of a run: all of its content, the sizes it has yet to read, and whether the cuts
      keep them. */
  datatype Goal = Goal(content: ByteSeq, sizes: seq<nat>, kept: bool)

  ghost function GoalOf(st: State, place: Place, p: ByteSeq, later: seq<ByteSeq>): Goal
    requires Sane(st)
  {
    Goal(st.content + Due(place), SizesDue(place), Keeps(place, st.digits, p, later))
  }

  /** The decoder stands at `place`, with `p` left of a packet, and has this goal. */
  ghost predicate Stands(st: State, place: Place, p: ByteSeq, later: seq<ByteSeq>, goal: Goal) {
    && Sane(st) && Fits(st, place) && (place.Over? || p + Concat(later) == Ahead(place))
    && GoalOf(st, place, p, later) == goal
  }

  /** Having read these sizes the decoder is where it should be as long as they are the right ones. A
      wrong size can only come from cuts that do not keep the sizes. */
  ghost predicate Moved(goal: Goal, sizes: seq<nat>, st: State, place: Place, p: ByteSeq, later: seq<ByteSeq>) {
    if sizes <= goal.sizes then Stands(st, place, p, later, goal.(sizes := goal.sizes[|sizes|..])) else !goal.kept
  }

  lemma {:induction false} MovedNothing(goal: Goal, st: State, place: Place, p: ByteSeq, later: seq<ByteSeq>)
    requires Stands(st, place, p, later, goal)
    ensures Moved(goal, [], st, place, p, later)
  {
    assert goal.sizes[0..] == goal.sizes;
  }

  lemma {:induction false} MovedTwice(goal: Goal, first: seq<nat>, st: State, place: Place, p: ByteSeq,
                      second: seq<nat>, st': State, place': Place, p': ByteSeq, later: seq<ByteSeq>)
    requires Moved(goal, first, st, place, p, later)
    requires first <= goal.sizes ==>
      Stands(st, place, p, later, goal.(sizes := goal.sizes[|first|..])) ==>
      Moved(goal.(sizes := goal.sizes[|first|..]), second, st', place', p', later)
    ensures Moved(goal, first + second, st', place', p', later)
  {
    PrefixSplit(first, second, goal.sizes);
  }

  lemma {:induction false} PrefixSplit(first: seq<nat>, second: seq<nat>, all: seq<nat>)
    ensures first + second <= all <==> first <= all && second <= all[|first|..]
    ensures first + second <= all ==> all[|first|..][|second|..] == all[|first + second|..]
  {
    var both := first + second;
    if both <= all {
      assert first == both[..|first|] == all[..|first|];
      assert second == both[|first|..];
    }
    if first <= all && second <= all[|first|..] {
      assert all == first + (second + all[|first|..][|second|..]);
    }
  }

  // ----- chunk data

  lemma {:induction false} CopyMoved(st: State, p: ByteSeq, later: seq<ByteSeq>, left: ByteSeq, next: Body, goal: Goal)
    returns (place': Place)
    requires Stands(st, InData(left, next), p, later, goal)
    ensures Stands(Copy(st, p).st, place', Copy(st, p).rest, later, goal)
  {
    if |p| < |left| {
      place' := InData(left[|p|..], next);
      CopyPart(st, p, later, left, next, goal);
    } else {
      place' := AtBreak(next);
      CopyAll(st, p, later, left, next, goal);
    }
  }

  lemma {:induction false} CopyPart(st: State, p: ByteSeq, later: seq<ByteSeq>, left: ByteSeq, next: Body, goal: Goal)
    requires Stands(st, InData(left, next), p, later, goal) && |p| < |left|
    ensures Stands(Copy(st, p).st, InData(left[|p|..], next), Copy(st, p).rest, later, goal)
  {
    var q := Concat(later);
    Cut(p, q, left, CRLF + Wire(next));
    InStepConsumed(|left| + 2, |p|, p, later, next);
    Copied(st.content, p, left, Content(next), |p|);
    AllTaken(p, q);
  }

  lemma {:induction false} AllTaken(p: ByteSeq, q: ByteSeq)
    ensures p[..|p|] == p && p[|p|..] == [] && p[|p|..] + q == q
  {
  }

  lemma {:induction false} CopyAll(st: State, p: ByteSeq, later: seq<ByteSeq>, left: ByteSeq, next: Body, goal: Goal)
    requires Stands(st, InData(left, next), p, later, goal) && |p| >= |left|
    ensures Stands(Copy(st, p).st, AtBreak(next), Copy(st, p).rest, later, goal)
  {
    Cut(p, Concat(later), left, CRLF + Wire(next));
    InStepConsumed(|left| + 2, |left|, p, later, next);
    Copied(st.content, p, left, Content(next), |left|);
  }

  lemma {:induction false} Copied(content: ByteSeq, p: ByteSeq, left: ByteSeq, more: ByteSeq, n: nat)
    requires n <= |p| && n <= |left| && p[..n] == left[..n]
    ensures content + p[..n] + (left[n..] + more) == content + (left + more)
    ensures n == |left| ==> content + p[..n] + more == content + (left + more)
  {
    assert left == left[..n] + left[n..];
  }

  // ----- size lines

  lemma {:induction false} SizesFirst(body: Body, size: nat)
    ensures [size] <= Sizes(body) <==> size == body.Size()
    ensures Sizes(body)[1..] == if body.Chunk? then Sizes(body.next) else []
  {
    assert Sizes(body)[0] == body.Size();
  }

  /** The goal when the text of the line is read and its digits are these. */
  ghost function LineGoal(digits: ByteSeq, content: ByteSeq, k: nat, p: ByteSeq, later: seq<ByteSeq>, body: Body): Goal
    requires AllHex(digits)
  {
    Goal(content + Content(body), Sizes(body), Size32(digits) == body.Size() && AfterLineInStep(k, p, later, body))
  }

  lemma {:induction false} LineCompleted(digits: ByteSeq, content: ByteSeq, body: Body, later: seq<ByteSeq>, line: Line,
                                         goal: Goal)
    returns (place': Place)
    requires WellFormed(body) && AllHex(digits) && |digits| <= MAX_DIGITS && line.digits == digits && line.complete
    requires line.rest + Concat(later) == WireAfterLine(body)
    requires goal == LineGoal(digits, content, 0, line.rest, later, body)
    ensures LineMoves(goal, content, line, place', later)
  {
    SizesFirst(body, Size32(digits));
    place' := Over;
    if Size32(digits) == body.Size() && body.Chunk? {
      var goal' := Goal(content + Content(body), Sizes(body.next), AfterLineInStep(0, line.rest, later, body));
      ChunkStands(content, line.rest, body, later, goal');
      place' := CopyMoved(State(|body.data|, [], content, false), line.rest, later, body.data, body.next, goal');
    }
  }

  /** The rest of a pass after this much of a size line was read. */
  ghost predicate LineMoves(goal: Goal, content: ByteSeq, line: Line, place': Place, later: seq<ByteSeq>)
    requires AllHex(line.digits)
  {
    Moved(goal, LineSizes(line), FinishLine(content, line).st, place', FinishLine(content, line).rest, later)
  }

  lemma {:induction false} ChunkStands(content: ByteSeq, rest: ByteSeq, body: Body, later: seq<ByteSeq>, goal: Goal)
    requires WellFormed(body) && body.Chunk? && rest + Concat(later) == WireAfterLine(body)
    requires goal == Goal(content + Content(body), Sizes(body.next), AfterLineInStep(0, rest, later, body))
    ensures Stands(State(|body.data|, [], content, false), InData(body.data, body.next), rest, later, goal)
  {
  }

  /** A line that goes on with the text `w`, read from a packet rest `p`. */
  lemma {:induction false} LineMoved(digits: ByteSeq, content: ByteSeq, p: ByteSeq, w: ByteSeq, body: Body,
                                     later: seq<ByteSeq>, goal: Goal)
    returns (place': Place)
    requires Stands(State(0, digits, content, false), InLine(w, body), p, later, goal)
    ensures LineMoves(goal, content, ScanLine(digits, p), place', later)
  {
    var line := ScanLine(digits, p);
    var d := digits + MoreDigits(digits, p);
    ScanText(digits, p, w, Concat(later), WireAfterLine(body));
    LineDigitsStep(digits, p, later, w, WireAfterLine(body));
    if |p| <= |w| {
      place' := InLine(w[|p|..], body);
      TextStands(digits, content, p, w, body, later, goal, d);
      LineUnfinished(goal, content, line, place', later);
    } else if |p| == |w| + 1 {
      place' := InLineEnd(body);
      EndStands(digits, content, p, w, body, later, goal, d);
      LineUnfinished(goal, content, line, place', later);
    } else {
      FullGoal(digits, content, p, w, body, later, goal, d);
      place' := LineCompleted(d, content, body, later, line, goal);
    }
  }

  lemma {:induction false} LineUnfinished(goal: Goal, content: ByteSeq, line: Line, place': Place, later: seq<ByteSeq>)
    requires AllHex(line.digits) && !line.complete
    requires Stands(State(0, line.digits, content, false), place', line.rest, later, goal)
    ensures LineMoves(goal, content, line, place', later)
  {
    MovedNothing(goal, State(0, line.digits, content, false), place', line.rest, later);
  }

  lemma {:induction false} FullGoal(digits: ByteSeq, content: ByteSeq, p: ByteSeq, w: ByteSeq, body: Body,
                                    later: seq<ByteSeq>, goal: Goal, d: ByteSeq)
    requires Stands(State(0, digits, content, false), InLine(w, body), p, later, goal) && |p| > |w| + 1
    requires AllHex(d) && LineDigits(digits, |w|, p, later) == d
    ensures goal == LineGoal(d, content, 0, p[|w| + 2..], later, body)
  {
    AfterLineConsumed(|w| + 2, |w| + 2, p, later, body);
  }

  lemma {:induction false} TextStands(digits: ByteSeq, content: ByteSeq, p: ByteSeq, w: ByteSeq, body: Body,
                      later: seq<ByteSeq>, goal: Goal, d: ByteSeq)
    requires Stands(State(0, digits, content, false), InLine(w, body), p, later, goal) && |p| <= |w|
    requires d == digits + MoreDigits(digits, p)
    requires LineDigits(digits, |w|, p, later) == LineDigits(d, |w| - |p|, [], later)
    ensures Stands(State(0, d, content, false), InLine(w[|p|..], body), [], later, goal)
  {
    var q, w' := Concat(later), w[|p|..];
    UnfinishedText(digits, p, w, q, WireAfterLine(body));
    AfterLineConsumed(|w| + 2, |p|, p, later, body);
    assert [] + q == q;
    TextKeeps(digits, p, w, body, later, d);
    assert Fits(State(0, d, content, false), InLine(w', body));
  }

  lemma {:induction false} TextKeeps(digits: ByteSeq, p: ByteSeq, w: ByteSeq, body: Body, later: seq<ByteSeq>,
                      d: ByteSeq)
    requires AllHex(digits) && |digits| <= MAX_DIGITS && AllHex(d) && |d| <= MAX_DIGITS && |p| <= |w| && p[|p|..] == []
    requires LineDigits(digits, |w|, p, later) == LineDigits(d, |w| - |p|, [], later)
    requires AfterLineInStep(|w| + 2, p, later, body) == AfterLineInStep(|w| + 2 - |p|, p[|p|..], later, body)
    ensures Keeps(InLine(w, body), digits, p, later) == Keeps(InLine(w[|p|..], body), d, [], later)
  {
    assert |w[|p|..]| == |w| - |p|;
  }

  lemma {:induction false} EndStands(digits: ByteSeq, content: ByteSeq, p: ByteSeq, w: ByteSeq, body: Body,
                      later: seq<ByteSeq>, goal: Goal, d: ByteSeq)
    requires Stands(State(0, digits, content, false), InLine(w, body), p, later, goal) && |p| == |w| + 1
    requires d == digits + MoreDigits(digits, p) && LineDigits(digits, |w|, p, later) == d
    ensures Stands(State(0, d, content, false), InLineEnd(body), [], later, goal)
  {
    UnfinishedEnd(digits, p, w, Concat(later), WireAfterLine(body));
    AfterLineConsumed(|w| + 2, |p|, p, later, body);
    assert [] + Concat(later) == Concat(later);
  }

  lemma {:induction false} AfterLineConsumed(k: nat, n: nat, p: ByteSeq, later: seq<ByteSeq>, body: Body)
    requires n <= k && n <= |p|
    ensures AfterLineInStep(k, p, later, body) == AfterLineInStep(k - n, p[n..], later, body)
  {
    if body.Chunk? {
      InStepConsumed(k + |body.data| + 2, n, p, later, body.next);
    }
  }

  /** The packet ends in the text. */
  lemma {:induction false} UnfinishedText(digits: ByteSeq, p: ByteSeq, w: ByteSeq, q: ByteSeq, after: ByteSeq)
    requires |digits| <= MAX_DIGITS && |p| <= |w| && NoLineEnd(w) && p + q == w + (CRLF + after)
    requires digits == [] ==> w != [] && IsHex(w[0])
    ensures q == w[|p|..] + (CRLF + after) && NoLineEnd(w[|p|..]) && p[|p|..] == []
    ensures digits + MoreDigits(digits, p) == [] ==> w[|p|..] != [] && IsHex(w[|p|..][0])
  {
    Cut(p, q, w, CRLF + after);
  }

  /** The packet ends inside the line end. */
  lemma {:induction false} UnfinishedEnd(digits: ByteSeq, p: ByteSeq, w: ByteSeq, q: ByteSeq, after: ByteSeq)
    requires |digits| <= MAX_DIGITS && |p| == |w| + 1 && p + q == w + (CRLF + after)
    requires digits == [] ==> w != [] && IsHex(w[0])
    ensures q == [LF] + after && p[|p|..] == []
    ensures digits + MoreDigits(digits, p) != []
  {
    assert w + (CRLF + after) == (w + [CR]) + ([LF] + after);
    Cut(p, q, w + [CR], [LF] + after);
    assert digits == [] ==> p[0] == w[0];
  }

  // ----- one pass

  lemma {:induction false} PassMoved(st: State, p: ByteSeq, place: Place, later: seq<ByteSeq>, goal: Goal)
    returns (place': Place)
    requires Stands(st, place, p, later, goal) && p != [] && !st.done
    ensures Moved(goal, PassSizes(st, p), OnePass(st, p).st, place', OnePass(st, p).rest, later)
  {
    match place
    case InData(left, next) =>
      place' := CopyMoved(st, p, later, left, next, goal);
      MovedNothing(goal, Copy(st, p).st, place', Copy(st, p).rest, later);
    case AtBreak(next) =>
      place' := BreakMoved(st.content, p, next, later, goal);
    case InBreak(next) =>
      place' := HalfBreakMoved(st.content, p, next, later, goal);
    case InLine(text, body) =>
      StartsHex(st.digits, p, Concat(later), text, CRLF + WireAfterLine(body));
      place' := LineMoved(st.digits, st.content, p, text, body, later, goal);
    case InLineEnd(body) =>
      place' := LineFeedMoved(st.digits, st.content, p, body, later, goal);
  }

  lemma {:induction false} LineFeedMoved(digits: ByteSeq, content: ByteSeq, p: ByteSeq, body: Body, later: seq<ByteSeq>,
                                         goal: Goal)
    returns (place': Place)
    requires Stands(State(0, digits, content, false), InLineEnd(body), p, later, goal) && p != []
    ensures LineMoves(goal, content, ScanLine(digits, LineStart(digits, p)), place', later)
  {
    CutFirst(p, Concat(later), LF, WireAfterLine(body));
    LineFeedFirst(digits, p[1..]);
    EndGoal(digits, content, p, body, later, goal);
    place' := LineCompleted(digits, content, body, later, ScanLine(digits, LineStart(digits, p)), goal);
  }

  lemma {:induction false} EndGoal(digits: ByteSeq, content: ByteSeq, p: ByteSeq, body: Body, later: seq<ByteSeq>,
                      goal: Goal)
    requires Stands(State(0, digits, content, false), InLineEnd(body), p, later, goal) && p != []
    ensures goal == LineGoal(digits, content, 0, p[1..], later, body)
  {
    AfterLineConsumed(1, 1, p, later, body);
  }

  lemma {:induction false} HalfBreakMoved(content: ByteSeq, p: ByteSeq, next: Body, later: seq<ByteSeq>, goal: Goal)
    returns (place': Place)
    requires Stands(State(0, [], content, false), InBreak(next), p, later, goal) && p != []
    ensures LineMoves(goal, content, ScanLine([], LineStart([], p)), place', later)
  {
    CutFirst(p, Concat(later), LF, Wire(next));
    StartStands(content, p, 1, next, later, goal);
    place' := LineMoved([], content, p[1..], next.Text(), next, later, goal);
  }

  lemma {:induction false} LineFeedFirst(digits: ByteSeq, rest: ByteSeq)
    requires AllHex(digits) && |digits| <= MAX_DIGITS
    ensures ScanLine(digits, [LF] + rest) == Line(digits, true, rest)
  {
    var p := [LF] + rest;
    HexEndIs(p, 0, MAX_DIGITS - |digits|, 0);
    LineEndIs(p, 0, 0);
    assert digits + p[..0] == digits && p[0..] == p;
  }

  /** Nothing is skipped in front of a line that has begun or starts with a digit. */
  lemma {:induction false} StartsHex(digits: ByteSeq, p: ByteSeq, q: ByteSeq, text: ByteSeq, after: ByteSeq)
    requires p != [] && p + q == text + after && (digits == [] ==> text != [] && IsHex(text[0]))
    ensures LineStart(digits, p) == p
  {
    if digits == [] {
      assert p[0] == (p + q)[0] == (text + after)[0] == text[0];
    }
  }

  /** The first size line after a break of which `n` bytes are left. */
  lemma {:induction false} StartStands(content: ByteSeq, p: ByteSeq, n: nat, body: Body, later: seq<ByteSeq>,
                      goal: Goal)
    requires n <= |p| && p[n..] + Concat(later) == Wire(body) && WellFormed(body)
    requires goal == Goal(content + Content(body), Sizes(body), InStepFrom(n, p, later, body))
    ensures Stands(State(0, [], content, false), InLine(body.Text(), body), p[n..], later, goal)
  {
    InStepConsumed(n, n, p, later, body);
    StartKeeps(p[n..], later, body);
    TextIsLine(body);
  }

  lemma {:induction false} StartKeeps(p: ByteSeq, later: seq<ByteSeq>, body: Body)
    ensures InStepFrom(0, p, later, body) == Keeps(InLine(body.Text(), body), [], p, later)
  {
    assert p[0..] == p;
  }

  lemma {:induction false} TextIsLine(body: Body)
    requires WellFormed(body)
    ensures NoLineEnd(body.Text()) && body.Text() != [] && IsHex(body.Text()[0])
  {
    assert body.Text()[0] == body.digits[0];
  }

  lemma {:induction false} BreakMoved(content: ByteSeq, p: ByteSeq, next: Body, later: seq<ByteSeq>, goal: Goal)
    returns (place': Place)
    requires Stands(State(0, [], content, false), AtBreak(next), p, later, goal) && p != []
    ensures LineMoves(goal, content, ScanLine([], LineStart([], p)), place', later)
  {
    assert CRLF + Wire(next) == [CR] + ([LF] + Wire(next));
    CutFirst(p, Concat(later), CR, [LF] + Wire(next));
    var t := p[1..];
    if t == [] {
      place' := InBreak(next);
      InStepConsumed(2, 1, p, later, next);
      EmptyLine();
      LineUnfinished(goal, content, Line([], false, []), place', later);
    } else {
      CutFirst(t, Concat(later), LF, Wire(next));
      assert t[1..] == p[2..];
      StartStands(content, p, 2, next, later, goal);
      place' := LineMoved([], content, p[2..], next.Text(), next, later, goal);
    }
  }

  lemma {:induction false} EmptyLine()
    ensures ScanLine([], []) == Line([], false, [])
  {
    NoMoreDigits([]);
  }

  // ------------------------------------------------------------------ packets and runs

  lemma {:induction false} PacketMoved(st: State, p: ByteSeq, place: Place, later: seq<ByteSeq>, goal: Goal)
    returns (place': Place)
    requires Stands(st, place, p, later, goal)
    ensures Moved(goal, FeedSizes(st, p), Feed(st, p), place', [], later)
    decreases |p|
  {
    place' := place;
    if st.done {
      AtTheEnd(st, place, p, [], later, goal);
      MovedNothing(goal, st, place, [], later);
    } else if p == [] {
      MovedNothing(goal, st, place, [], later);
    } else {
      var pass, sizes := OnePass(st, p), PassSizes(st, p);
      var next := PassMoved(st, p, place, later, goal);
      if sizes <= goal.sizes {
        place' := PacketMoved(pass.st, pass.rest, next, later, goal.(sizes := goal.sizes[|sizes|..]));
      }
      MovedTwice(goal, sizes, pass.st, next, pass.rest,
                 FeedSizes(pass.st, pass.rest), Feed(pass.st, pass.rest), place', [], later);
    }
  }

  lemma {:induction false} AtTheEnd(st: State, place: Place, p: ByteSeq, p': ByteSeq, later: seq<ByteSeq>, goal: Goal)
    requires Stands(st, place, p, later, goal) && st.done
    ensures Stands(st, place, p', later, goal)
  {
  }

  lemma {:induction false} NextPacket(st: State, place: Place, packets: seq<ByteSeq>, goal: Goal)
    requires Stands(st, place, [], packets, goal) && packets != []
    ensures Stands(st, place, packets[0], packets[1..], goal)
  {
    KeepsNext(place, st.digits, packets);
    assert [] + Concat(packets) == Concat(packets);
  }

  /** A whole run reads the right sizes exactly when the cuts keep them, and then ends with all of the
      content. */
  lemma {:induction false} RunMoved(st: State, packets: seq<ByteSeq>, place: Place, goal: Goal)
    requires Stands(st, place, [], packets, goal)
    ensures SizesRead(st, packets) == goal.sizes <==> goal.kept
    ensures goal.kept ==> FeedAll(st, packets).done && FeedAll(st, packets).content == goal.content
    decreases |packets|
  {
    if st.done {
      assert st.content + [] == st.content;
    } else {
      NotEmpty(place);
      NextPacket(st, place, packets, goal);
      var p, later := packets[0], packets[1..];
      var sizes := FeedSizes(st, p);
      var next := PacketMoved(st, p, place, later, goal);
      var more := SizesRead(Feed(st, p), later);
      WholeSplit(sizes, more, goal.sizes);
      if sizes <= goal.sizes {
        RunMoved(Feed(st, p), later, next, goal.(sizes := goal.sizes[|sizes|..]));
      }
    }
  }

  lemma {:induction false} WholeSplit(first: seq<nat>, second: seq<nat>, all: seq<nat>)
    ensures first + second == all <==> first <= all && second == all[|first|..]
  {
    var both := first + second;
    assert both[..|first|] == first && both[|first|..] == second;
    if first <= all && second == all[|first|..] {
      assert all == first + all[|first|..];
    }
  }

  lemma {:induction false} NotEmpty(place: Place)
    requires !place.Over?
    ensures Ahead(place) != []
  {
  }

  // ---------------------------------------------------------------------- whole bodies

  lemma {:induction false} BodyStands(body: Body, packets: seq<ByteSeq>)
    requires WellFormed(body) && Concat(packets) == Wire(body)
    ensures Stands(START, InLine(body.Text(), body), [], packets,
                   Goal(Content(body), Sizes(body), InStep(packets, body)))
  {
    var p: ByteSeq := [];
    assert p[0..] == p && [] + Concat(packets) == Concat(packets) && [] + Content(body) == Content(body);
    StartStands([], p, 0, body, packets, Goal([] + Content(body), Sizes(body), InStep(packets, body)));
  }

  /** The exact condition: for every body and every cut into packets, the decoder reads the sizes that
      the body announces if and only if the cuts keep the size of every line. */
  lemma {:induction false} SizesExact(body: Body, packets: seq<ByteSeq>)
    requires WellFormed(body) && Concat(packets) == Wire(body)
    ensures SizesRead(START, packets) == Sizes(body) <==> InStep(packets, body)
  {
    BodyStands(body, packets);
    RunMoved(START, packets, InLine(body.Text(), body), Goal(Content(body), Sizes(body), InStep(packets, body)));
  }

  /** And then it reaches the end of the stream with exactly the data of the chunks. */
  lemma {:induction false} InStepDecodes(body: Body, packets: seq<ByteSeq>)
    requires WellFormed(body) && Concat(packets) == Wire(body) && InStep(packets, body)
    ensures FeedAll(START, packets).done && FeedAll(START, packets).content == Content(body)
  {
    BodyStands(body, packets);
    RunMoved(START, packets, InLine(body.Text(), body), Goal(Content(body), Sizes(body), InStep(packets, body)));
  }

  // ------------------------------------------------------------- extensions without hex digits

  ghost predicate Plain(e: ByteSeq) {
    forall i :: 0 <= i < |e| ==> !IsHex(e[i])
  }

  ghost predicate PlainBody(body: Body) {
    Plain(body.ext) && (body.Chunk? ==> PlainBody(body.next))
  }

  /** The digits among the next bytes of a line whose rest is `left + ext`. */
  lemma {:induction false} PlainMore(digits: ByteSeq, left: ByteSeq, ext: ByteSeq, v: ByteSeq)
    requires AllHex(left) && |digits + left| <= MAX_DIGITS && Plain(ext) && v <= left + ext
    ensures MoreDigits(digits, v) == if |v| <= |left| then v else left
  {
    var n := if |v| <= |left| then |v| else |left|;
    assert forall k :: 0 <= k < |v| ==> v[k] == (left + ext)[k];
    assert n < |v| ==> v[n] == ext[0];
    HexEndIs(v, 0, MAX_DIGITS - |digits|, n);
    assert v[..n] == left[..n];
  }

  lemma {:induction false} PlainDigits(digits: ByteSeq, left: ByteSeq, ext: ByteSeq, p: ByteSeq, later: seq<ByteSeq>,
                                       after: ByteSeq)
    requires AllHex(digits) && AllHex(left) && |digits + left| <= MAX_DIGITS && Plain(ext)
    requires p + Concat(later) == left + ext + after
    ensures LineDigits(digits, |left + ext|, p, later) == digits + left
    decreases |later|
  {
    var text := left + ext;
    Cut(p, Concat(later), text, after);
    if |text| <= |p| {
      assert p[..|text|] == text;
      PlainMore(digits, left, ext, text);
      assert |text| <= |left| ==> text == left;
    } else {
      PlainMore(digits, left, ext, p);
      var n := if |p| <= |left| then |p| else |left|;
      PlainRest(left, ext, p, n);
      assert MoreDigits(digits, p) == left[..n];
      assert |left[n..] + ext[|p| - n..]| == |text| - |p|;
      assert digits + left[..n] + left[n..] == digits + left;
      PlainDigits(digits + left[..n], left[n..], ext[|p| - n..], later[0], later[1..], after);
    }
  }

  lemma {:induction false} PlainRest(left: ByteSeq, ext: ByteSeq, p: ByteSeq, n: nat)
    requires n == (if |p| <= |left| then |p| else |left|) && |p| <= |left + ext|
    ensures (left + ext)[|p|..] == left[n..] + ext[|p| - n..]
  {
  }

  /** Without hex digits in the extensions every cut keeps every size. */
  lemma {:induction false} PlainInStep(k: nat, p: ByteSeq, later: seq<ByteSeq>, body: Body)
    requires WellFormed(body) && PlainBody(body)
    requires k <= |p + Concat(later)| && (p + Concat(later))[k..] == Wire(body)
    ensures InStepFrom(k, p, later, body)
    decreases body, |later|
  {
    if k > |p| {
      assert (p + Concat(later))[k..] == Concat(later)[k - |p|..];
      PlainInStep(k - |p|, later[0], later[1..], body);
    } else {
      var r := p[k..];
      assert r + Concat(later) == Wire(body);
      PlainLine(r, later, body);
      if body.Chunk? {
        NextWire(body);
        PlainInStep(|body.Text()| + 2 + |body.data| + 2, r, later, body.next);
      }
    }
  }

  lemma {:induction false} PlainLine(p: ByteSeq, later: seq<ByteSeq>, body: Body)
    requires WellFormed(body) && Plain(body.ext) && p + Concat(later) == Wire(body)
    ensures Size32(LineDigits([], |body.Text()|, p, later)) == body.Size()
  {
    assert [] + body.digits == body.digits;
    PlainDigits([], body.digits, body.ext, p, later, CRLF + WireAfterLine(body));
    SizeOfBody(body);
  }

  lemma {:induction false} NextWire(body: Body)
    requires body.Chunk?
    ensures var n := |body.Text()| + 2 + |body.data| + 2; n <= |Wire(body)| && Wire(body)[n..] == Wire(body.next)
  {
    assert Wire(body) == (body.Text() + CRLF + body.data + CRLF) + Wire(body.next);
  }

  lemma {:induction false} SizeOfBody(body: Body)
    requires WellFormed(body)
    ensures Size32(body.digits) == body.Size()
  {
    Size32IsNumber(body.digits);
  }

  /** Packet independence: for every well-formed body without hex digits in its extensions, and every
      way to cut it into packets, the decoder ends with exactly the data of the chunks. */
  lemma {:induction false} PacketIndependence(body: Body, packets: seq<ByteSeq>)
    requires WellFormed(body) && PlainBody(body) && Concat(packets) == Wire(body)
    ensures InStep(packets, body)
    ensures FeedAll(START, packets).done && FeedAll(START, packets).content == Content(body)
  {
    assert ([] + Concat(packets))[0..] == Wire(body);
    PlainInStep(0, [], packets, body);
    InStepDecodes(body, packets);
  }

  /** An extension cut once, in front of `after`: the hex digits there are added to the size. */
  lemma {:induction false} CutExtension(digits: ByteSeq, before: ByteSeq, after: ByteSeq, tail: ByteSeq)
    requires AllHex(digits) && 1 <= |digits| <= MAX_DIGITS && NoLineEnd(before) && NoLineEnd(after)
    requires before != [] && (|digits| < MAX_DIGITS ==> !IsHex(before[0])) && tail != [] && !IsHex(tail[0])
    ensures LineDigits([], |digits + before + after|, digits + before, [after + tail])
         == digits + MoreDigits(digits, after + tail)
  {
    var p, later := digits + before, [after + tail];
    FirstDigits(digits, before);
    assert [] + digits == digits;
    assert later[0] == after + tail && |digits + before + after| - |p| == |after|;
    HexEndHex(after + tail, 0, MAX_DIGITS - |digits|);
    assert |MoreDigits(digits, after + tail)| <= |after| by {
      assert (after + tail)[|after|] == tail[0];
    }
    MoreDigitsCut(digits, after + tail, |after|);
    if after == [] {
      assert MoreDigits(digits, after + tail) == [];
      assert p[..|p|] == p;
    }
  }

  lemma {:induction false} FirstDigits(digits: ByteSeq, before: ByteSeq)
    requires AllHex(digits) && |digits| <= MAX_DIGITS && before != [] && (|digits| < MAX_DIGITS ==> !IsHex(before[0]))
    ensures MoreDigits([], digits + before) == digits
  {
    HexEndIs(digits + before, 0, MAX_DIGITS, |digits|);
    assert (digits + before)[..|digits|] == digits;
  }

  /** For a single hex digit behind the cut, that is when 15 times the size plus the digit is 0. */
  lemma {:induction false} CutBeforeDigit(digits: ByteSeq, x: Byte, after: ByteSeq)
    requires AllHex(digits) && 1 <= |digits| < MAX_DIGITS && IsHex(x) && (after == [] || !IsHex(after[0]))
    ensures MoreDigits(digits, [x] + after) == [x] && AllHex(digits + [x])
    ensures Size32(digits + [x]) == Size32(digits) <==> (15 * Size32(digits) + HexValue(x)) % U32_LIMIT == 0
  {
    HexEndIs([x] + after, 0, MAX_DIGITS - |digits|, 1);
    LongerSize(digits, x);
  }


  // ------------------------------------------------------------------------ Content-Length

  /** The packets of a connection as far as they are read: until the end of the stream, or until a
      packet has brought the content to the announced length, if there is one. */
  function Received(st: State, packets: seq<ByteSeq>, contentLength: int): State
    requires Sane(st)
    decreases |packets|
  {
    if packets == [] || st.done then st
    else
      var t := Feed(st, packets[0]);
      if 0 < contentLength <= |t.content| then t else Received(t, packets[1..], contentLength)
  }

  lemma {:induction false} ReceivedMoved(st: State, packets: seq<ByteSeq>, place: Place, goal: Goal, contentLength: int)
    requires Stands(st, place, [], packets, goal) && goal.kept
    ensures var r := Received(st, packets, contentLength).content;
      r <= goal.content && (r == goal.content || 0 < contentLength <= |r|)
    decreases |packets|
  {
    if st.done {
      assert st.content + [] == st.content;
    } else {
      NotEmpty(place);
      NextPacket(st, place, packets, goal);
      var sizes := FeedSizes(st, packets[0]);
      var next := PacketMoved(st, packets[0], place, packets[1..], goal);
      assert sizes <= goal.sizes;
      ReceivedMoved(Feed(st, packets[0]), packets[1..], next, goal.(sizes := goal.sizes[|sizes|..]), contentLength);
    }
  }

  /** With a Content-Length the content may be cut short, but only to a prefix at least that long. */
  lemma {:induction false} ReceivedContent(body: Body, packets: seq<ByteSeq>, contentLength: int)
    requires WellFormed(body) && Concat(packets) == Wire(body) && InStep(packets, body)
    ensures var r := Received(START, packets, contentLength).content;
      r <= Content(body) && (r == Content(body) || 0 < contentLength <= |r|)
  {
    BodyStands(body, packets);
    ReceivedMoved(START, packets, InLine(body.Text(), body), Goal(Content(body), Sizes(body), true), contentLength);
  }

  /** One packet for every byte. */
  function Singles(w: ByteSeq): seq<ByteSeq> {
    if w == [] then [] else [[w[0]]] + Singles(w[1..])
  }

  lemma {:induction false} SinglesConcat(w: ByteSeq)
    ensures Concat(Singles(w)) == w
  {
    if w != [] {
      SinglesConcat(w[1..]);
      var packets := Singles(w);
      assert packets[0] == [w[0]] && packets[1..] == Singles(w[1..]);
      assert w == [w[0]] + w[1..];
    }
  }

  lemma {:induction false} FeedAdds(st: State, p: ByteSeq)
    requires Sane(st)
    ensures |Feed(st, p).content| <= |st.content| + |p|
    decreases |p|
  {
    if p != [] && !st.done {
      FeedAdds(OnePass(st, p).st, OnePass(st, p).rest);
    }
  }

  lemma {:induction false} SinglesStop(st: State, w: ByteSeq, contentLength: int)
    requires Sane(st) && |st.content| < contentLength
    ensures |Received(st, Singles(w), contentLength).content| <= contentLength
    decreases |w|
  {
    if w != [] && !st.done {
      var packets := Singles(w);
      assert packets[0] == [w[0]] && packets[1..] == Singles(w[1..]);
      FeedAdds(st, packets[0]);
      if |Feed(st, packets[0]).content| < contentLength {
        SinglesStop(Feed(st, packets[0]), w[1..], contentLength);
      }
    }
  }

  /** The exact condition: the content is complete for every cut into packets if and only if there is no
      positive Content-Length below its length. */
  lemma {:induction false} ContentLengthExact(body: Body, contentLength: int)
    requires WellFormed(body) && PlainBody(body)
    ensures (forall packets :: Concat(packets) == Wire(body) ==>
               Received(START, packets, contentLength).content == Content(body))
       <==> contentLength <= 0 || contentLength >= |Content(body)|
  {
    if contentLength <= 0 || contentLength >= |Content(body)| {
      forall packets | Concat(packets) == Wire(body)
        ensures Received(START, packets, contentLength).content == Content(body)
      {
        PacketIndependence(body, packets);
        ReceivedContent(body, packets, contentLength);
      }
    } else {
      SinglesConcat(Wire(body));
      SinglesStop(START, Wire(body), contentLength);
      assert Received(START, Singles(Wire(body)), contentLength).content != Content(body);
    }
  }
}
