/** The byte layout of a vector file, `[prefix][capacity][size][data][suffix]`, and the
    mathematical vector it stands for. */
module VectorLayout {
  import opened Bytes

  /** An abstract vector: elements are byte strings of one fixed size. */
  datatype Vec = Vec(prefix: ByteSeq, items: seq<ByteSeq>, cap: nat, suffix: ByteSeq)

  const METADATA_SIZE: nat := 16

  /** `n * valueSize` (see SpanIsProduct), kept as repeated addition so that proofs stay linear. */
  function Span(n: nat, valueSize: nat): nat {
    if n == 0 then 0 else Span(n - 1, valueSize) + valueSize
  }

  lemma {:induction false} SpanIsProduct(n: nat, valueSize: nat)
    ensures Span(n, valueSize) == n * valueSize
  {
    if n > 0 {
      SpanIsProduct(n - 1, valueSize);
      assert n * valueSize == (n - 1) * valueSize + valueSize;
    }
  }

  lemma {:induction false} SpanMonotone(i: nat, j: nat, valueSize: nat)
    requires i <= j
    ensures Span(i, valueSize) <= Span(j, valueSize)
    ensures valueSize > 0 ==> j - i <= Span(j, valueSize) - Span(i, valueSize)
    decreases j
  {
    if i < j {
      SpanMonotone(i, j - 1, valueSize);
    }
  }

  /** Where element `i` starts, for a prefix of `p` bytes. */
  function Slot(p: nat, i: nat, valueSize: nat): nat {
    p + METADATA_SIZE + Span(i, valueSize)
  }

  function FileLength(cap: nat, prefixSize: nat, suffixSize: nat, valueSize: nat): nat {
    Slot(prefixSize, cap, valueSize) + suffixSize
  }

  /** The bytes of slot `i`. */
  function ItemAt(b: ByteSeq, p: nat, i: nat, valueSize: nat): (x: ByteSeq)
    requires Slot(p, i + 1, valueSize) <= |b|
    ensures |x| == valueSize
  {
    b[Slot(p, i, valueSize)..Slot(p, i + 1, valueSize)]
  }

  /** Slot `i` holds `x`. */
  ghost predicate SlotIs(b: ByteSeq, p: nat, i: nat, x: ByteSeq, valueSize: nat) {
    Slot(p, i + 1, valueSize) <= |b| && ItemAt(b, p, i, valueSize) == x
  }

  /** The first slots hold `items`. */
  ghost predicate Holds(b: ByteSeq, p: nat, items: seq<ByteSeq>, valueSize: nat) {
    forall i :: 0 <= i < |items| ==> SlotIs(b, p, i, items[i], valueSize)
  }

  predicate AllSized(items: seq<ByteSeq>, valueSize: nat) {
    forall i :: 0 <= i < |items| ==> |items[i]| == valueSize
  }

  ghost predicate WellFormed(v: Vec, valueSize: nat) {
    && valueSize > 0
    && AllSized(v.items, valueSize)
    && |v.items| <= v.cap
    && FileLength(v.cap, |v.prefix|, |v.suffix|, valueSize) < U64_LIMIT
  }

  /** `b` is a file holding `v`; nothing is said about the bytes of unused slots. */
  ghost predicate Encodes(b: ByteSeq, v: Vec, valueSize: nat) {
    var p := |v.prefix|;
    && WellFormed(v, valueSize)
    && |b| == FileLength(v.cap, p, |v.suffix|, valueSize)
    && b[..p] == v.prefix
    && b[p..p + 8] == U64(v.cap)
    && b[p + 8..p + 16] == U64(|v.items|)
    && Holds(b, p, v.items, valueSize)
    && b[Slot(p, v.cap, valueSize)..] == v.suffix
  }

  /** The words that `capacity()` and `size()` read are the abstract ones. */
  lemma WordsRead(b: ByteSeq, v: Vec, valueSize: nat)
    requires Encodes(b, v, valueSize)
    ensures FromLittleEndian(b[|v.prefix|..|v.prefix| + 8]) == v.cap
    ensures FromLittleEndian(b[|v.prefix| + 8..|v.prefix| + 16]) == |v.items|
  {
    SpanMonotone(0, v.cap, valueSize);
    U64RoundTrip(v.cap);
    U64RoundTrip(|v.items|);
  }

  /** A file and a prefix size determine the vector. */
  lemma EncodesUnique(b: ByteSeq, v: Vec, w: Vec, valueSize: nat)
    requires Encodes(b, v, valueSize) && Encodes(b, w, valueSize)
    requires |v.prefix| == |w.prefix|
    ensures v == w
  {
    WordsRead(b, v, valueSize);
    WordsRead(b, w, valueSize);
    assert v.items == w.items;
  }

  /** Slots outside the changed bytes keep their elements. */
  lemma HoldsKept(b: ByteSeq, r: ByteSeq, p: nat, items: seq<ByteSeq>, valueSize: nat)
    requires Holds(b, p, items, valueSize)
    requires Slot(p, |items|, valueSize) <= |b| && SameOn(r, b, p + METADATA_SIZE, Slot(p, |items|, valueSize))
    ensures Holds(r, p, items, valueSize)
  {
    forall i | 0 <= i < |items|
      ensures SlotIs(r, p, i, items[i], valueSize)
    {
      SpanMonotone(i + 1, |items|, valueSize);
      SameSlice(r, b, Slot(p, i, valueSize), Slot(p, i + 1, valueSize));
    }
  }

  /** Bytes of unused slots do not matter. */
  lemma SlackIgnored(b: ByteSeq, r: ByteSeq, v: Vec, valueSize: nat)
    requires Encodes(b, v, valueSize)
    requires SameOn(r, b, 0, Slot(|v.prefix|, |v.items|, valueSize))
    requires SameOn(r, b, Slot(|v.prefix|, v.cap, valueSize), |b|)
    ensures Encodes(r, v, valueSize)
  {
    var p := |v.prefix|;
    SameSlice(r, b, 0, p);
    SameSlice(r, b, p, p + 8);
    SameSlice(r, b, p + 8, p + 16);
    HoldsKept(b, r, p, v.items, valueSize);
    SameSlice(r, b, Slot(p, v.cap, valueSize), |b|);
  }

  /** Storing the size word makes the file hold exactly the elements already in its slots. */
  lemma SizeStored(b: ByteSeq, v: Vec, items: seq<ByteSeq>, valueSize: nat)
    requires Encodes(b, v, valueSize)
    requires AllSized(items, valueSize) && |items| <= v.cap && Holds(b, |v.prefix|, items, valueSize)
    ensures Encodes(Overwrite(b, |v.prefix| + 8, U64(|items|)), v.(items := items), valueSize)
  {
    var p := |v.prefix|;
    var r := Overwrite(b, p + 8, U64(|items|));
    SpanMonotone(|items|, v.cap, valueSize);
    SameSlice(r, b, 0, p);
    SameSlice(r, b, p, p + 8);
    HoldsKept(b, r, p, items, valueSize);
    SameSlice(r, b, Slot(p, v.cap, valueSize), |b|);
  }

  // ------------------------------------------------- stores through the mapping

  /** The first `n` slots of a file, whatever they hold. */
  function SlotsOf(b: ByteSeq, p: nat, n: nat, valueSize: nat): (items: seq<ByteSeq>)
    requires Slot(p, n, valueSize) <= |b|
    ensures |items| == n && AllSized(items, valueSize) && Holds(b, p, items, valueSize)
  {
    if n == 0 then [] else SlotsOf(b, p, n - 1, valueSize) + [ItemAt(b, p, n - 1, valueSize)]
  }

  /** A file with a zero size word and a capacity word holds an empty vector. */
  lemma FreshFile(b: ByteSeq, cap: nat, p: nat, suffixSize: nat, valueSize: nat)
    requires valueSize > 0 && |b| == FileLength(cap, p, suffixSize, valueSize) < U64_LIMIT
    requires b[p..p + 8] == U64(cap) && b[p + 8..p + 16] == U64(0)
    ensures Encodes(b, Vec(b[..p], [], cap, b[Slot(p, cap, valueSize)..]), valueSize)
  {
  }

  /** The two words that `create` stores make an empty vector of whatever was in the file. */
  lemma WordsStored(b: ByteSeq, cap: nat, p: nat, suffixSize: nat, valueSize: nat)
    requires valueSize > 0 && |b| == FileLength(cap, p, suffixSize, valueSize) < U64_LIMIT
    ensures var r := Overwrite(Overwrite(b, p + 8, U64(0)), p, U64(cap));
            Encodes(r, Vec(r[..p], [], cap, r[Slot(p, cap, valueSize)..]), valueSize)
  {
    var m := Overwrite(b, p + 8, U64(0));
    var r := Overwrite(m, p, U64(cap));
    SameSlice(r, m, p + 8, p + 16);
    FreshFile(r, cap, p, suffixSize, valueSize);
  }

  lemma PrefixStored(b: ByteSeq, v: Vec, w: ByteSeq, valueSize: nat)
    requires Encodes(b, v, valueSize) && |w| <= |v.prefix|
    ensures Encodes(Overwrite(b, 0, w), v.(prefix := w + v.prefix[|w|..]), valueSize)
  {
    var p := |v.prefix|;
    var r := Overwrite(b, 0, w);
    SpanMonotone(|v.items|, v.cap, valueSize);
    assert r[..p] == w + v.prefix[|w|..];
    SameSlice(r, b, p, p + 8);
    SameSlice(r, b, p + 8, p + 16);
    HoldsKept(b, r, p, v.items, valueSize);
    SameSlice(r, b, Slot(p, v.cap, valueSize), |b|);
  }

  lemma SuffixStored(b: ByteSeq, v: Vec, w: ByteSeq, valueSize: nat)
    requires Encodes(b, v, valueSize) && |w| <= |v.suffix|
    ensures Encodes(Overwrite(b, Slot(|v.prefix|, v.cap, valueSize), w),
                    v.(suffix := w + v.suffix[|w|..]), valueSize)
  {
    var p := |v.prefix|;
    var start := Slot(p, v.cap, valueSize);
    var r := Overwrite(b, start, w);
    SpanMonotone(|v.items|, v.cap, valueSize);
    SameSlice(r, b, 0, p);
    SameSlice(r, b, p, p + 8);
    SameSlice(r, b, p + 8, p + 16);
    HoldsKept(b, r, p, v.items, valueSize);
    assert r[start..] == w + v.suffix[|w|..];
  }

  /** Storing one element changes that element and nothing else. */
  lemma ItemStored(b: ByteSeq, r: ByteSeq, v: Vec, i: nat, x: ByteSeq, valueSize: nat)
    requires Encodes(b, v, valueSize) && i < |v.items| && |x| == valueSize
    requires SameOn(r, b, 0, Slot(|v.prefix|, i, valueSize))
    requires SameOn(r, b, Slot(|v.prefix|, i + 1, valueSize), |b|)
    requires SlotIs(r, |v.prefix|, i, x, valueSize)
    ensures Encodes(r, v.(items := v.items[i := x]), valueSize)
  {
    var p := |v.prefix|;
    SpanMonotone(i + 1, |v.items|, valueSize);
    SpanMonotone(|v.items|, v.cap, valueSize);
    SameSlice(r, b, 0, p);
    SameSlice(r, b, p, p + 8);
    SameSlice(r, b, p + 8, p + 16);
    SlotReplaced(b, r, p, v.items, i, x, valueSize);
    SameSlice(r, b, Slot(p, v.cap, valueSize), |b|);
  }

  lemma ItemOverwritten(b: ByteSeq, v: Vec, i: nat, x: ByteSeq, valueSize: nat)
    requires Encodes(b, v, valueSize) && i < |v.items| && |x| == valueSize
    ensures Slot(|v.prefix|, i, valueSize) + |x| <= |b|
    ensures Encodes(Overwrite(b, Slot(|v.prefix|, i, valueSize), x), v.(items := v.items[i := x]), valueSize)
  {
    SpanMonotone(i + 1, v.cap, valueSize);
    var off := Slot(|v.prefix|, i, valueSize);
    var r := Overwrite(b, off, x);
    OverwriteSame(b, off, x);
    assert SlotIs(r, |v.prefix|, i, x, valueSize);
    ItemStored(b, r, v, i, x, valueSize);
  }

  lemma SlotReplaced(b: ByteSeq, r: ByteSeq, p: nat, items: seq<ByteSeq>, i: nat, x: ByteSeq, valueSize: nat)
    requires Holds(b, p, items, valueSize) && i < |items|
    requires Slot(p, |items|, valueSize) <= |b| == |r|
    requires SameOn(r, b, p + METADATA_SIZE, Slot(p, i, valueSize))
    requires SameOn(r, b, Slot(p, i + 1, valueSize), |b|)
    requires SlotIs(r, p, i, x, valueSize)
    ensures Holds(r, p, items[i := x], valueSize)
  {
    var changed := items[i := x];
    forall j | 0 <= j < |changed|
      ensures SlotIs(r, p, j, changed[j], valueSize)
    {
      SpanMonotone(j + 1, |items|, valueSize);
      if j < i {
        SpanMonotone(j + 1, i, valueSize);
        SameSlice(r, b, Slot(p, j, valueSize), Slot(p, j + 1, valueSize));
      } else if i < j {
        SpanMonotone(i + 1, j, valueSize);
        SameSlice(r, b, Slot(p, j, valueSize), Slot(p, j + 1, valueSize));
      }
    }
  }

  /** The slots in use hold the elements. */
  lemma SlotsAreItems(b: ByteSeq, v: Vec, valueSize: nat)
    requires Encodes(b, v, valueSize)
    ensures Slot(|v.prefix|, |v.items|, valueSize) <= |b|
    ensures SlotsOf(b, |v.prefix|, |v.items|, valueSize) == v.items
  {
    SpanMonotone(|v.items|, v.cap, valueSize);
  }

  // ------------------------------------------------------------ opening a file

  function CapacityWord(b: ByteSeq, prefixSize: nat): nat
    requires prefixSize + METADATA_SIZE <= |b|
  {
    FromLittleEndian(b[prefixSize..prefixSize + 8])
  }

  function SizeWord(b: ByteSeq, prefixSize: nat): nat
    requires prefixSize + METADATA_SIZE <= |b|
  {
    FromLittleEndian(b[prefixSize + 8..prefixSize + 16])
  }

  /** The checks `open(path, prefixSize)` makes on a file, the last one in 64-bit arithmetic. */
  predicate OpenAccepts(b: ByteSeq, prefixSize: nat, valueSize: nat) {
    && prefixSize + METADATA_SIZE <= |b|
    && SizeWord(b, prefixSize) <= CapacityWord(b, prefixSize)
    && |b| >= Slot(prefixSize, CapacityWord(b, prefixSize), valueSize) % U64_LIMIT
  }

  ghost predicate HoldsVector(b: ByteSeq, prefixSize: nat, valueSize: nat) {
    exists v: Vec :: |v.prefix| == prefixSize && Encodes(b, v, valueSize)
  }

  /** Every vector file passes the checks, and a file that passes them holds a vector exactly when
      the announced data ends below 2^64; see WrappedCapacityAccepted for one that does not. */
  lemma OpenExact(b: ByteSeq, prefixSize: nat, valueSize: nat)
    requires valueSize > 0 && |b| < U64_LIMIT && prefixSize + METADATA_SIZE < U64_LIMIT
    ensures HoldsVector(b, prefixSize, valueSize) ==> OpenAccepts(b, prefixSize, valueSize)
    ensures OpenAccepts(b, prefixSize, valueSize) ==>
      (HoldsVector(b, prefixSize, valueSize)
       <==> Slot(prefixSize, CapacityWord(b, prefixSize), valueSize) < U64_LIMIT)
  {
    if v: Vec :| |v.prefix| == prefixSize && Encodes(b, v, valueSize) {
      WordsRead(b, v, valueSize);
    }
    if OpenAccepts(b, prefixSize, valueSize)
       && Slot(prefixSize, CapacityWord(b, prefixSize), valueSize) < U64_LIMIT {
      DecodeEncodes(b, prefixSize, valueSize);
    }
  }

  lemma {:induction false} LittleEndianOfRead(s: ByteSeq)
    ensures ToLittleEndian(FromLittleEndian(s), |s|) == s
  {
    if s != [] {
      LittleEndianOfRead(s[1..]);
      LowByte(s[0] as nat, FromLittleEndian(s[1..]));
      assert s == [s[0]] + s[1..];
    }
  }

  lemma LowByte(low: nat, rest: nat)
    requires low < 256
    ensures (low + 256 * rest) % 256 == low && (low + 256 * rest) / 256 == rest
  {
  }

  function Decode(b: ByteSeq, prefixSize: nat, valueSize: nat): Vec
    requires prefixSize + METADATA_SIZE <= |b|
    requires SizeWord(b, prefixSize) <= CapacityWord(b, prefixSize)
    requires Slot(prefixSize, CapacityWord(b, prefixSize), valueSize) <= |b|
  {
    var cap, size := CapacityWord(b, prefixSize), SizeWord(b, prefixSize);
    SpanMonotone(size, cap, valueSize);
    Vec(b[..prefixSize], SlotsOf(b, prefixSize, size, valueSize), cap, b[Slot(prefixSize, cap, valueSize)..])
  }

  lemma DecodeEncodes(b: ByteSeq, prefixSize: nat, valueSize: nat)
    requires valueSize > 0 && |b| < U64_LIMIT && OpenAccepts(b, prefixSize, valueSize)
    requires Slot(prefixSize, CapacityWord(b, prefixSize), valueSize) < U64_LIMIT
    ensures Encodes(b, Decode(b, prefixSize, valueSize), valueSize)
  {
    LittleEndianOfRead(b[prefixSize..prefixSize + 8]);
    LittleEndianOfRead(b[prefixSize + 8..prefixSize + 16]);
  }

  /** A vector file opened with another prefix size: it is read, as another vector, exactly when the
      bytes found there pass the checks and announce data that ends below 2^64. */
  lemma OtherPrefixExact(b: ByteSeq, v: Vec, prefixSize: nat, valueSize: nat)
    requires Encodes(b, v, valueSize) && prefixSize != |v.prefix| && prefixSize + METADATA_SIZE < U64_LIMIT
    ensures HoldsVector(b, prefixSize, valueSize) <==>
      OpenAccepts(b, prefixSize, valueSize) && Slot(prefixSize, CapacityWord(b, prefixSize), valueSize) < U64_LIMIT
    ensures HoldsVector(b, prefixSize, valueSize) ==>
      Encodes(b, Decode(b, prefixSize, valueSize), valueSize) && Decode(b, prefixSize, valueSize) != v
  {
    OpenExact(b, prefixSize, valueSize);
    if HoldsVector(b, prefixSize, valueSize) {
      DecodeEncodes(b, prefixSize, valueSize);
    }
  }

  /** Such a file: while a prefix of 16 zeros is being dropped, opening the old file with the new
      prefix size reads a vector that is neither the old nor the new one. */
  lemma ThirdVectorRead(v: Vec, w: Vec) returns (b: ByteSeq, u: Vec)
    requires v == Vec(U64(0) + U64(0), [], 0, []) && w == v.(prefix := [])
    ensures Encodes(b, v, 1) && OpenAccepts(b, |w.prefix|, 1)
    ensures |u.prefix| == |w.prefix| && Encodes(b, u, 1) && u != v && u != w
  {
    b, u := v.prefix + v.prefix, Vec([], [], 0, v.prefix);
    assert b[0..8] == U64(0) && b[8..16] == U64(0) && b[16..24] == U64(0) && b[24..32] == U64(0);
    assert b[..16] == v.prefix && b[32..] == [] && b[..0] == [] && b[16..] == v.prefix;
    FreshFile(b, 0, 16, 0, 1);
    FreshFile(b, 0, 0, 16, 1);
    OpenExact(b, 0, 1);
  }

  /** A capacity whose byte count wraps to zero is accepted although there is no data behind it. */
  lemma WrappedCapacityAccepted()
    ensures exists b: ByteSeq :: |b| == 16 && OpenAccepts(b, 0, 2) && !HoldsVector(b, 0, 2)
  {
    WrappedCapacity(U64_LIMIT / 2);
  }

  lemma WrappedCapacity(cap: nat)
    requires cap < U64_LIMIT && cap * 2 == U64_LIMIT
    ensures var b := U64(cap) + U64(0); OpenAccepts(b, 0, 2) && !HoldsVector(b, 0, 2)
  {
    WordsOf(cap);
    SpanIsProduct(cap, 2);
    OpenExact(U64(cap) + U64(0), 0, 2);
  }

  lemma WordsOf(cap: nat)
    requires cap < U64_LIMIT
    ensures var b := U64(cap) + U64(0); CapacityWord(b, 0) == cap && SizeWord(b, 0) == 0
  {
    var b := U64(cap) + U64(0);
    assert b[0..8] == U64(cap) && b[8..16] == U64(0);
    U64RoundTrip(cap);
    U64RoundTrip(0);
  }
}
