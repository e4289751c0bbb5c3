/** Whole runs of operations on a mapped vector: they behave as on a mathematical sequence, and a crash
    anywhere shows the value before or after the operation then running. */
module VectorRuns {
  import opened Bytes
  import opened MappedDisk
  import opened Positional
  import opened VectorLayout
  import opened FileMappedVectors

  datatype Op =
    | Reserve(n: nat)
    | ShrinkToFit
    | Erase(first: nat, last: nat)
    | Insert(position: nat, values: seq<ByteSeq>)
    | ResizePrefix(size: nat)
    | ResizeSuffix(size: nat)
    | PushBack(x: ByteSeq)
    | PopBack
    | Clear

  /** How a call ends; calls that the caller must not make are not made. */
  datatype Reply = Returned | Threw | NotCalled

  /** What the caller answers for: positions inside the vector, elements of the right size, files
      below 2^64 bytes. */
  predicate Allowed(op: Op, size: nat, cap: nat, prefixSize: nat, suffixSize: nat, valueSize: nat) {
    match op
    case Reserve(n) => n > cap ==> FileLength(n, prefixSize, suffixSize, valueSize) < U64_LIMIT
    case ShrinkToFit => true
    case Erase(first, last) => first <= last <= size
    case Insert(position, values) =>
      && position <= size && AllSized(values, valueSize)
      && var n := FileMappedVector.InsertCapacity(size, cap, |values|);
         FileLength(n, prefixSize, suffixSize, valueSize) < U64_LIMIT
    case ResizePrefix(n) => FileLength(cap, n, suffixSize, valueSize) < U64_LIMIT
    case ResizeSuffix(n) => FileLength(cap, prefixSize, n, valueSize) < U64_LIMIT
    case PushBack(x) =>
      && |x| == valueSize
      && (size == cap ==> FileLength(FileMappedVector.NextCapacity(cap), prefixSize, suffixSize, valueSize) < U64_LIMIT)
    case PopBack => size > 0
    case Clear => true
  }

  ghost predicate AllowedOn(op: Op, v: Vec, valueSize: nat) {
    Allowed(op, |v.items|, v.cap, |v.prefix|, |v.suffix|, valueSize)
  }

  /** The operation on the mathematical vector. */
  ghost predicate Result(op: Op, v: Vec, w: Vec) {
    match op
    case Reserve(n) => w == v.(cap := if n > v.cap then n else v.cap)
    case ShrinkToFit => w == v.(cap := |v.items|)
    case Erase(first, last) =>
      first <= last <= |v.items| && w == v.(items := v.items[..first] + v.items[last..])
    case Insert(position, values) =>
      && position <= |v.items|
      && w == v.(items := v.items[..position] + values + v.items[position..],
                 cap := FileMappedVector.InsertCapacity(|v.items|, v.cap, |values|))
    case ResizePrefix(n) => w == v.(prefix := w.prefix) && |w.prefix| == n && KeepsCommon(w.prefix, v.prefix)
    case ResizeSuffix(n) => w == v.(suffix := w.suffix) && |w.suffix| == n && KeepsCommon(w.suffix, v.suffix)
    case PushBack(x) =>
      w == v.(items := v.items + [x],
              cap := if |v.items| == v.cap then FileMappedVector.NextCapacity(v.cap) else v.cap)
    case PopBack => v.items != [] && w == v.(items := v.items[..|v.items| - 1])
    case Clear => w == v.(items := [])
  }

  /** What a crash can show during the operation: only `push_back` passes a third value. */
  ghost predicate ShowsDuring(s: Snapshot, op: Op, v: Vec, w: Vec, valueSize: nat) {
    if op.PushBack? then ShowsGrowth(s, v, w, valueSize) else Shows(s, v, w, valueSize)
  }

  ghost predicate AllShowDuring(log: seq<Snapshot>, from: nat, op: Op, v: Vec, w: Vec, valueSize: nat) {
    forall k :: from <= k < |log| ==> ShowsDuring(log[k], op, v, w, valueSize)
  }

  /** What one call does: to the mathematical vector, to the mapped name and to the log. It throws only
      on a vector mapped to its backup or when a directory operation fails. */
  twostate predicate Performed(vector: FileMappedVector, op: Op, r: Outcome)
    requires old(vector.history) != [] && vector.history != []
    reads vector, vector.disk
  {
    && (if r == Done then Result(op, old(vector.Value()), vector.Value()) else vector.Value() == old(vector.Value()))
    && LogGrows(vector.disk.log, old(vector.disk.log))
    && vector.disk.faults >= old(vector.disk.faults)
    && (old(vector.file) == Main && vector.disk.faults == old(vector.disk.faults) ==> r == Done && vector.file == Main)
    && (vector.autoFlush ==>
          AllShowDuring(vector.disk.log, |old(vector.disk.log)|, op, old(vector.Value()), vector.Value(),
                        vector.valueSize))
  }

  method PerformResize(vector: FileMappedVector, op: Op) returns (r: Outcome)
    requires vector.Valid() && AllowedOn(op, vector.Value(), vector.valueSize)
    requires op.Reserve? || op.ShrinkToFit? || op.ResizePrefix? || op.ResizeSuffix?
    modifies vector, vector.disk
    ensures vector.Valid() && Performed(vector, op, r)
  {
    match op
    case Reserve(n) => r := vector.Reserve(n);
    case ShrinkToFit => r := vector.ShrinkToFit();
    case ResizePrefix(n) => r := vector.ResizePrefix(n);
    case ResizeSuffix(n) => r := vector.ResizeSuffix(n);
  }

  method PerformEdit(vector: FileMappedVector, op: Op) returns (r: Outcome)
    requires vector.Valid() && AllowedOn(op, vector.Value(), vector.valueSize)
    requires op.Erase? || op.Insert?
    modifies vector, vector.disk
    ensures vector.Valid() && Performed(vector, op, r)
  {
    var position;
    match op
    case Erase(first, last) => r, position := vector.Erase(first, last);
    case Insert(at, values) => r, position := vector.Insert(at, values);
  }

  method PerformInPlace(vector: FileMappedVector, op: Op) returns (r: Outcome)
    requires vector.Valid() && AllowedOn(op, vector.Value(), vector.valueSize)
    requires op.PushBack? || op.PopBack? || op.Clear?
    modifies vector, vector.disk
    ensures vector.Valid() && Performed(vector, op, r)
  {
    r := Done;
    match op
    case PushBack(x) => r := vector.PushBack(x);
    case PopBack => vector.PopBack();
    case Clear => vector.Clear();
  }

  /** One call, if the caller may make it. */
  method Perform(vector: FileMappedVector, op: Op) returns (reply: Reply)
    requires vector.Valid()
    modifies vector, vector.disk
    ensures vector.Valid()
    ensures reply == NotCalled <==> !AllowedOn(op, old(vector.Value()), vector.valueSize)
    ensures reply == NotCalled ==> unchanged(vector) && unchanged(vector.disk)
    ensures reply != NotCalled ==> Performed(vector, op, if reply == Returned then Done else Failed)
  {
    var size := vector.Size();
    var cap := vector.Capacity();
    reply := NotCalled;
    if Allowed(op, size, cap, vector.prefixSize, vector.suffixSize, vector.valueSize) {
      var r;
      if op.Erase? || op.Insert? {
        r := PerformEdit(vector, op);
      } else if op.PushBack? || op.PopBack? || op.Clear? {
        r := PerformInPlace(vector, op);
      } else {
        r := PerformResize(vector, op);
      }
      reply := if r == Done then Returned else Threw;
    }
  }

  /** The record of a run: `values` before, between and after the calls, and for every state of the
      disk since its beginning the number of the call during which it was passed. */
  ghost predicate Recorded(log: seq<Snapshot>, from: nat, ops: seq<Op>, values: seq<Vec>, marks: seq<nat>,
                           valueSize: nat)
  {
    && |values| == |ops| + 1 && |log| == from + |marks|
    && forall k :: 0 <= k < |marks| ==> Passed(log[from + k], ops, values, marks[k], valueSize)
  }

  ghost predicate Passed(s: Snapshot, ops: seq<Op>, values: seq<Vec>, i: nat, valueSize: nat)
    requires |values| == |ops| + 1
  {
    i < |ops| && ShowsDuring(s, ops[i], values[i], values[i + 1], valueSize)
  }

  lemma RecordGrows(log0: seq<Snapshot>, log: seq<Snapshot>, from: nat, ops: seq<Op>, values: seq<Vec>, marks: seq<nat>,
                    op: Op, w: Vec, valueSize: nat)
    requires Recorded(log0, from, ops, values, marks, valueSize) && LogGrows(log, log0)
    requires AllShowDuring(log, |log0|, op, values[|ops|], w, valueSize)
    ensures Recorded(log, from, ops + [op], values + [w], marks + Repeat(|ops|, |log| - |log0|), valueSize)
  {
    var ops', values', marks' := ops + [op], values + [w], marks + Repeat(|ops|, |log| - |log0|);
    forall k | 0 <= k < |marks'| ensures Passed(log[from + k], ops', values', marks'[k], valueSize) {
      if k < |marks| {
        assert log[from + k] == log0[from + k];
        assert Passed(log0[from + k], ops, values, marks[k], valueSize);
      } else {
        assert ShowsDuring(log[from + k], op, values[|ops|], w, valueSize);
      }
    }
  }

  /** Every call did to the mathematical vector what its reply says. */
  ghost predicate Followed(ops: seq<Op>, replies: seq<Reply>, values: seq<Vec>, valueSize: nat) {
    && |replies| == |ops| && |values| == |ops| + 1
    && forall i :: 0 <= i < |ops| ==> FollowedOne(ops[i], replies[i], values[i], values[i + 1], valueSize)
  }

  ghost predicate FollowedOne(op: Op, reply: Reply, v: Vec, w: Vec, valueSize: nat) {
    && (reply == NotCalled <==> !AllowedOn(op, v, valueSize))
    && if reply == Returned then Result(op, v, w) else w == v
  }

  lemma FollowedGrows(ops: seq<Op>, replies: seq<Reply>, values: seq<Vec>, op: Op, reply: Reply, w: Vec, valueSize: nat)
    requires Followed(ops, replies, values, valueSize) && FollowedOne(op, reply, values[|ops|], w, valueSize)
    ensures Followed(ops + [op], replies + [reply], values + [w], valueSize)
  {
  }

  /** Everything known about a run so far. */
  ghost predicate RunSoFar(vector: FileMappedVector, from: nat, ops: seq<Op>, replies: seq<Reply>, values: seq<Vec>,
                           marks: seq<nat>)
    reads vector, vector.disk
  {
    && vector.Valid() && Followed(ops, replies, values, vector.valueSize) && values[|ops|] == vector.Value()
    && (vector.autoFlush ==> Recorded(vector.disk.log, from, ops, values, marks, vector.valueSize))
  }

  method RunOne(vector: FileMappedVector, op: Op, ghost from: nat, ghost ops: seq<Op>, ghost replies: seq<Reply>,
                ghost values: seq<Vec>, ghost marks: seq<nat>)
    returns (reply: Reply, ghost marks': seq<nat>)
    requires RunSoFar(vector, from, ops, replies, values, marks)
    modifies vector, vector.disk
    ensures vector.Valid() && RunSoFar(vector, from, ops + [op], replies + [reply], values + [vector.Value()], marks')
    ensures vector.disk.faults >= old(vector.disk.faults)
    ensures old(vector.file) == Main && vector.disk.faults == old(vector.disk.faults) ==>
      reply != Threw && vector.file == Main
  {
    ghost var before := vector.disk.log;
    marks' := marks;
    reply := Perform(vector, op);
    FollowedGrows(ops, replies, values, op, reply, vector.Value(), vector.valueSize);
    if vector.autoFlush {
      RecordGrows(before, vector.disk.log, from, ops, values, marks, op, vector.Value(), vector.valueSize);
      marks' := marks + Repeat(|ops|, |vector.disk.log| - |before|);
    }
  }

  /** Any run of operations. */
  method Run(vector: FileMappedVector, ops: seq<Op>)
    returns (replies: seq<Reply>, ghost values: seq<Vec>, ghost marks: seq<nat>)
    requires vector.Valid()
    modifies vector, vector.disk
    ensures vector.Valid() && Followed(ops, replies, values, vector.valueSize)
    ensures values[0] == old(vector.Value()) && values[|ops|] == vector.Value()
    ensures old(vector.file) == Main && vector.disk.faults == old(vector.disk.faults) ==> Threw !in replies
    ensures vector.autoFlush ==>
      Recorded(vector.disk.log, |old(vector.disk.log)|, ops, values, marks, vector.valueSize)
  {
    replies, values, marks := [], [vector.Value()], [];
    ghost var from := |vector.disk.log|;
    for i := 0 to |ops|
      invariant RunSoFar(vector, from, ops[..i], replies, values, marks)
      invariant values[0] == old(vector.Value()) && vector.disk.faults >= old(vector.disk.faults)
      invariant old(vector.file) == Main && vector.disk.faults == old(vector.disk.faults) ==>
        Threw !in replies && vector.file == Main
    {
      var reply;
      reply, marks := RunOne(vector, ops[i], from, ops[..i], replies, values, marks);
      assert ops[..i + 1] == ops[..i] + [ops[i]];
      replies, values := replies + [reply], values + [vector.Value()];
    }
    assert ops[..|ops|] == ops;
  }

  /** A crash in any state of any run: there is a file to recover, and it holds the value before or after
      the call then running, or, while `push_back` grows the vector, the old elements with the
      new capacity. */
  lemma RunSurvivesCrash(log: seq<Snapshot>, from: nat, ops: seq<Op>, values: seq<Vec>, marks: seq<nat>, valueSize: nat,
                         k: nat, found: map<Name, ByteSeq>)
    requires Recorded(log, from, ops, values, marks, valueSize) && k < |marks|
    requires CrashLeaves(log[from + k], found)
    ensures Recoverable(found) && marks[k] < |ops|
    ensures var v, w := values[marks[k]], values[marks[k] + 1];
      || Encodes(Survivor(found), v, valueSize)
      || Encodes(Survivor(found), w, valueSize)
      || (ops[marks[k]].PushBack? && Encodes(Survivor(found), v.(cap := w.cap), valueSize))
  {
    assert Passed(log[from + k], ops, values, marks[k], valueSize);
    assert Survivor(found) in Survivor(log[from + k]);
  }

  // -------------------------------------------------------------------- how often it grows

  /** How many of the first `n` calls changed the capacity. */
  ghost function Growths(values: seq<Vec>, n: nat): nat
    requires n < |values|
  {
    if n == 0 then 0 else Growths(values, n - 1) + if values[n].cap == values[n - 1].cap then 0 else 1
  }

  /** `g` growths by half, from capacity `base`, have brought the vector to this capacity and size. */
  ghost predicate GrownBy(g: nat, base: nat, cap: nat, size: nat) {
    && Pow(3, g) * (base + 1) <= Pow(2, g) * (cap + 1)
    && (g > 0 ==> Pow(3, g - 1) * (base + 1) <= Pow(2, g - 1) * size)
  }

  lemma GrowOnce(g: nat, base: nat, size: nat, cap: nat)
    requires GrownBy(g, base, size, size) && 2 * cap > 3 * size
    ensures GrownBy(g + 1, base, cap, size + 1)
  {
    var p, q := Pow(2, g), Pow(3, g);
    assert Pow(2, g + 1) == p * 2 && Pow(3, g + 1) == q * 3;
    HalfAsMuchAgain(p, q, base + 1, size + 1, cap + 1);
  }

  lemma HalfAsMuchAgain(p: nat, q: nat, a: nat, b: nat, c: nat)
    requires q * a <= p * b && 3 * b <= 2 * c
    ensures (q * 3) * a <= (p * 2) * c
  {
    MulMonotone(p, 3 * b, 2 * c);
    assert (q * 3) * a == 3 * (q * a) && p * (3 * b) == 3 * (p * b) && (p * 2) * c == p * (2 * c);
  }

  lemma GrowNot(g: nat, base: nat, size: nat, cap: nat)
    requires GrownBy(g, base, cap, size)
    ensures GrownBy(g, base, cap, size + 1)
  {
    if g > 0 {
      MulMonotone(Pow(2, g - 1), size, size + 1);
    }
  }

  lemma MulMonotone(p: nat, a: nat, b: nat)
    requires a <= b
    ensures p * a <= p * b
  {
  }

  /** A run of `push_back` calls copies the file only logarithmically often: with `g` growths, the
      size reached is at least (3/2)^(g - 1) times what the first capacity could take and one more. */
  lemma {:induction false} GrowsSeldom(ops: seq<Op>, replies: seq<Reply>, values: seq<Vec>, valueSize: nat, n: nat)
    requires Followed(ops, replies, values, valueSize) && n <= |ops|
    requires forall i :: 0 <= i < |ops| ==> ops[i].PushBack?
    ensures GrownBy(Growths(values, n), values[0].cap, values[n].cap, |values[n].items|)
  {
    if n > 0 {
      GrowsSeldom(ops, replies, values, valueSize, n - 1);
      assert FollowedOne(ops[n - 1], replies[n - 1], values[n - 1], values[n], valueSize);
      var g, v, w := Growths(values, n - 1), values[n - 1], values[n];
      if w.cap != v.cap {
        GrowOnce(g, values[0].cap, v.cap, w.cap);
      } else if w != v {
        GrowNot(g, values[0].cap, |v.items|, v.cap);
      }
    }
  }
}
