/** `FileMappedVector`: a vector kept in one mapped file. Structural changes build a new file beside
    the old one and swap the two by renaming; `push_back`, `pop_back` and `clear` work in place. */
module FileMappedVectors {
  import opened Bytes
  import opened MappedDisk
  import opened VectorLayout

  /** Whether an operation returned or threw. */
  datatype Outcome = Done | Failed

  function Min(a: nat, b: nat): nat {
    if a <= b then a else b
  }

  // ------------------------------------------------------------- what a crash may leave

  /** The directory still has a file that recovery will use. */
  ghost predicate Recoverable<X(!new)>(s: map<Name, X>) {
    Main in s || Bak in s
  }

  /** The entry that `open` ends up using: the file itself, or the backup when there is no file. */
  function Survivor<X(!new)>(s: map<Name, X>): X
    requires Recoverable(s)
  {
    if Main in s then s[Main] else s[Bak]
  }

  /** Whatever a crash in state `s` leaves, recovery finds one of `images`. */
  ghost predicate Safe(s: Snapshot, images: iset<ByteSeq>) {
    Recoverable(s) && Survivor(s) <= images
  }

  ghost predicate AllSafe(log: seq<Snapshot>, from: nat, images: iset<ByteSeq>) {
    forall k :: from <= k < |log| ==> Safe(log[k], images)
  }

  /** Whatever a crash in state `s` leaves, recovery finds the vector `v` or the vector `w`. */
  ghost predicate Shows(s: Snapshot, v: Vec, w: Vec, valueSize: nat) {
    Recoverable(s) && forall b :: b in Survivor(s) ==> Encodes(b, v, valueSize) || Encodes(b, w, valueSize)
  }

  ghost predicate AllShow(log: seq<Snapshot>, from: nat, v: Vec, w: Vec, valueSize: nat) {
    forall k :: from <= k < |log| ==> Shows(log[k], v, w, valueSize)
  }

  /** The same while `push_back` first grows the vector and then appends. */
  ghost predicate ShowsGrowth(s: Snapshot, v: Vec, w: Vec, valueSize: nat) {
    Shows(s, v, v.(cap := w.cap), valueSize) || Shows(s, v.(cap := w.cap), w, valueSize)
  }

  ghost predicate AllShowGrowth(log: seq<Snapshot>, from: nat, v: Vec, w: Vec, valueSize: nat) {
    forall k :: from <= k < |log| ==> ShowsGrowth(log[k], v, w, valueSize)
  }

  lemma GrowthShown(log: seq<Snapshot>, middle: seq<Snapshot>, log0: seq<Snapshot>, v: Vec, grown: Vec, w: Vec,
                    valueSize: nat)
    requires LogGrows(log, middle) && LogGrows(middle, log0) && grown == v.(cap := w.cap)
    requires AllShow(middle, |log0|, v, grown, valueSize) && AllShow(log, |middle|, grown, w, valueSize)
    ensures LogGrows(log, log0) && AllShowGrowth(log, |log0|, v, w, valueSize)
  {
    assert log[..|log0|] == log[..|middle|][..|log0|];
    forall k | |log0| <= k < |log| ensures ShowsGrowth(log[k], v, w, valueSize) {
      if k < |middle| {
        assert log[k] == log[..|middle|][k];
        assert Shows(middle[k], v, grown, valueSize);
      } else {
        assert Shows(log[k], grown, w, valueSize);
      }
    }
  }

  /** State `s` was passed during operation number `j`, between the values `h[j]` and `h[j + 1]`. */
  ghost predicate Explained(s: Snapshot, h: seq<Vec>, j: nat, valueSize: nat) {
    j + 1 < |h| && Shows(s, h[j], h[j + 1], valueSize)
  }

  /** The record of a run: every state of the disk since position `base` of the log, in order,
      was passed during some operation and shows the value before or after that operation. */
  ghost predicate Chronicle(log: seq<Snapshot>, base: nat, h: seq<Vec>, during: seq<nat>, valueSize: nat) {
    && base + |during| == |log|
    && (forall k :: 0 <= k < |during| ==> Explained(log[base + k], h, during[k], valueSize))
    && (forall i, k :: 0 <= i < k < |during| ==> during[i] <= during[k])
  }

  function Repeat(j: nat, n: nat): (s: seq<nat>)
    ensures |s| == n && forall k :: 0 <= k < n ==> s[k] == j
  {
    seq(n, _ => j)
  }

  lemma ChronicleGrows(log0: seq<Snapshot>, log: seq<Snapshot>, base: nat, h: seq<Vec>, during: seq<nat>,
                       w: Vec, valueSize: nat)
    requires Chronicle(log0, base, h, during, valueSize)
    requires h != [] && |log0| <= |log| && log[..|log0|] == log0
    requires AllShow(log, |log0|, h[|h| - 1], w, valueSize)
    ensures Chronicle(log, base, h + [w], during + Repeat(|h| - 1, |log| - |log0|), valueSize)
  {
    var h' := h + [w];
    var during' := during + Repeat(|h| - 1, |log| - |log0|);
    forall k | 0 <= k < |during'| ensures Explained(log[base + k], h', during'[k], valueSize) {
      if k < |during| {
        assert log[base + k] == log0[base + k];
        assert Explained(log0[base + k], h, during[k], valueSize);
      } else {
        assert Shows(log[base + k], h[|h| - 1], w, valueSize);
      }
    }
    forall k | 0 <= k < |during| ensures during[k] < |h| - 1 {
      assert Explained(log0[base + k], h, during[k], valueSize);
    }
  }

  lemma SafeShows(log: seq<Snapshot>, from: nat, images: iset<ByteSeq>, b: ByteSeq, v: Vec, w: Vec, valueSize: nat)
    requires AllSafe(log, from, images + iset{b})
    requires forall i :: i in images ==> Encodes(i, v, valueSize)
    requires Encodes(b, w, valueSize)
    ensures AllShow(log, from, v, w, valueSize)
  {
    forall k | from <= k < |log| ensures Shows(log[k], v, w, valueSize) {
      assert Safe(log[k], images + iset{b});
    }
  }

  /** `kept` agrees with `before` on the part both have. */
  ghost predicate KeepsCommon(kept: ByteSeq, before: ByteSeq) {
    var n := Min(|kept|, |before|);
    kept[..n] == before[..n]
  }

  class FileMappedVector {
    const disk: Disk
    const valueSize: nat
    const autoFlush: bool
    ghost const base: nat
    /** `m_path` */
    var path: Name
    /** The name of the mapped file, `m_file.path()` */
    var file: Name
    var prefixSize: nat
    var suffixSize: nat
    /** The values the vector has had, oldest first. */
    ghost var history: seq<Vec>
    /** For every state of the disk since opening, the operation during which it was passed. */
    ghost var during: seq<nat>

    ghost function Value(): Vec
      reads this
      requires history != []
    {
      history[|history| - 1]
    }

    /** The mapped file holds the current value, and is the one recovery will use. */
    ghost predicate Consistent()
      reads this, disk
    {
      && disk.Valid()
      && history != []
      && path == Main
      && file in disk.files
      && (file == Main || (file == Bak && Main !in disk.files))
      && |Value().prefix| == prefixSize
      && |Value().suffix| == suffixSize
      && Encodes(disk.files[file], Value(), valueSize)
    }

    /** Nothing but the current value can survive a crash now, and at every earlier moment of the
        run nothing but the value before or after the operation then running. */
    ghost predicate CrashSafe()
      reads this, disk
    {
      && history != []
      && file in disk.durable
      && (forall b :: b in disk.durable[file] ==> Encodes(b, Value(), valueSize))
      && Chronicle(disk.log, base, history, during, valueSize)
    }

    ghost predicate Valid()
      reads this, disk
    {
      Consistent() && (autoFlush ==> CrashSafe())
    }

    constructor Attach(disk: Disk, b: ByteSeq, prefixSize: nat, valueSize: nat, autoFlush: bool)
      requires disk.Valid() && Main in disk.files && disk.files[Main] == b && disk.durable[Main] == iset{b}
      requires valueSize > 0 && |b| < U64_LIMIT && OpenAccepts(b, prefixSize, valueSize)
      requires Slot(prefixSize, CapacityWord(b, prefixSize), valueSize) < U64_LIMIT
      ensures Valid()
      ensures this.disk == disk && this.valueSize == valueSize && this.autoFlush == autoFlush
      ensures history == [Decode(b, prefixSize, valueSize)]
      ensures file == Main
    {
      this.disk := disk;
      this.valueSize := valueSize;
      this.autoFlush := autoFlush;
      this.base := |disk.log|;
      path, file := Main, Main;
      this.prefixSize := prefixSize;
      this.suffixSize := |b| - Slot(prefixSize, CapacityWord(b, prefixSize), valueSize);
      history := [Decode(b, prefixSize, valueSize)];
      during := [];
      new;
      DecodeEncodes(b, prefixSize, valueSize);
    }

    // ------------------------------------------------------------------ reading

    method Capacity() returns (n: nat)
      requires Valid()
      ensures n == Value().cap
    {
      WordsRead(disk.files[file], Value(), valueSize);
      n := CapacityWord(disk.files[file], prefixSize);
    }

    method Size() returns (n: nat)
      requires Valid()
      ensures n == |Value().items|
    {
      WordsRead(disk.files[file], Value(), valueSize);
      n := SizeWord(disk.files[file], prefixSize);
    }

    /** `at`: the element, or nothing where the source throws. */
    method At(index: nat) returns (ok: bool, x: ByteSeq)
      requires Valid()
      ensures ok == (index < |Value().items|)
      ensures ok ==> x == Value().items[index]
    {
      var n := Size();
      ok, x := index < n, [];
      if ok {
        assert SlotIs(disk.files[file], prefixSize, index, Value().items[index], valueSize);
        x := ItemAt(disk.files[file], prefixSize, index, valueSize);
      }
    }

    method Items() returns (items: seq<ByteSeq>)
      requires Valid()
      ensures items == Value().items
    {
      var n := Size();
      SlotsAreItems(disk.files[file], Value(), valueSize);
      items := SlotsOf(disk.files[file], prefixSize, n, valueSize);
    }

    // ------------------------------------------------------- the copy-and-swap update

    /** Builds the temporary file of an update and flushes it. Only the entry `tmp` changes. */
    method BuildTemporary(tmp: Name, items: seq<ByteSeq>, newCapacity: nat, newPrefixSize: nat, newSuffixSize: nat)
      returns (ok: bool, ghost w: Vec)
      requires Consistent() && tmp.Tmp?
      requires AllSized(items, valueSize) && |items| <= newCapacity
      requires FileLength(newCapacity, newPrefixSize, newSuffixSize, valueSize) < U64_LIMIT
      modifies disk
      ensures disk.Valid() && Touches(disk.Now(), old(disk.Now()), tmp)
      ensures disk.faults == old(disk.faults) + if ok then 0 else 1
      ensures ok ==> tmp in disk.files && disk.durable[tmp] == iset{disk.files[tmp]}
      ensures ok ==> Encodes(disk.files[tmp], w, valueSize)
      ensures ok ==> IsUpdate(w, Value(), items, newCapacity, newPrefixSize, newSuffixSize)
    {
      ghost var begin := disk.Now();
      ghost var v := Value();
      var source := disk.files[file];
      w := v;
      ok := disk.Create(tmp, FileLength(newCapacity, newPrefixSize, newSuffixSize, valueSize));
      if !ok { return; }
      var image;
      image, w := BuildImage(disk.files[tmp], source, prefixSize, suffixSize, items,
                             newCapacity, newPrefixSize, newSuffixSize, valueSize, v);
      ok := ReplaceContents(disk, tmp, image, begin);
    }

    /** `atomicUpdate` and `atomicUpdate0`: copy to a temporary file, move the old file to the
        backup name, move the new one into place, drop the backup. Every removal, creation and
        rename may fail. At each step a crash leaves, byte for byte, a content that could have
        been found before the call or the flushed new file. */
    method AtomicUpdate(items: seq<ByteSeq>, newCapacity: nat, newPrefixSize: nat, newSuffixSize: nat)
      returns (r: Outcome)
      requires Valid()
      requires AllSized(items, valueSize) && |items| <= newCapacity
      requires FileLength(newCapacity, newPrefixSize, newSuffixSize, valueSize) < U64_LIMIT
      modifies this, disk
      ensures Valid()
      ensures history == old(history) + [Value()]
      ensures r == Failed ==> Value() == old(Value())
      ensures r == Done ==> IsUpdate(Value(), old(Value()), items, newCapacity, newPrefixSize, newSuffixSize)
      ensures old(file) != Main ==> r == Failed
      ensures r == Failed ==> old(file) != Main || disk.faults > old(disk.faults)
      ensures LogGrows(disk.log, old(disk.log))
      ensures AllSafe(disk.log, |old(disk.log)|, old(disk.durable[file]) + iset{disk.files[file]})
      ensures autoFlush ==> AllShow(disk.log, |old(disk.log)|, old(Value()), Value(), valueSize)
      ensures (r == Done ==> file == Main) && disk.faults >= old(disk.faults)
    {
      ghost var v, log0 := Value(), disk.log;
      ghost var images := disk.durable[file];
      r := Failed;
      ghost var w := v;
      if file == path {
        r, w := CopyAndSwap(items, newCapacity, newPrefixSize, newSuffixSize);
      }
      if autoFlush {
        SafeShows(disk.log, |log0|, images, disk.files[file], v, w, valueSize);
      }
      Commit(w, log0);
    }

    /** Records that the operation that began when the log was `log0` ends with the value `w`. */
    ghost method Commit(w: Vec, log0: seq<Snapshot>)
      requires history != []
      requires autoFlush ==> Chronicle(log0, base, history, during, valueSize)
      requires autoFlush ==> LogGrows(disk.log, log0) && AllShow(disk.log, |log0|, Value(), w, valueSize)
      modifies this`history, this`during
      ensures history == old(history) + [w]
      ensures autoFlush ==> Chronicle(disk.log, base, history, during, valueSize)
    {
      if autoFlush {
        ChronicleGrows(log0, disk.log, base, history, during, w, valueSize);
        during := during + Repeat(|history| - 1, |disk.log| - |log0|);
      }
      history := history + [w];
    }

    /** The part of `atomicUpdate0` after its first check. */
    method CopyAndSwap(items: seq<ByteSeq>, newCapacity: nat, newPrefixSize: nat, newSuffixSize: nat)
      returns (r: Outcome, ghost w: Vec)
      requires Consistent() && file == Main
      requires AllSized(items, valueSize) && |items| <= newCapacity
      requires FileLength(newCapacity, newPrefixSize, newSuffixSize, valueSize) < U64_LIMIT
      modifies this`file, this`prefixSize, this`suffixSize, disk
      ensures disk.Valid() && file in disk.files
      ensures file == Main || (file == Bak && Main !in disk.files)
      ensures |w.prefix| == prefixSize && |w.suffix| == suffixSize
      ensures Encodes(disk.files[file], w, valueSize)
      ensures r == Failed ==> w == Value() && disk.durable[file] == old(disk.durable[file])
      ensures r == Done ==> IsUpdate(w, Value(), items, newCapacity, newPrefixSize, newSuffixSize)
      ensures r == Done ==> disk.durable[file] == iset{disk.files[file]}
      ensures r == Failed ==> disk.faults > old(disk.faults)
      ensures (r == Done ==> file == Main) && disk.faults >= old(disk.faults)
      ensures LogGrows(disk.log, old(disk.log))
      ensures AllSafe(disk.log, |old(disk.log)|, old(disk.durable[Main]) + iset{disk.files[file]})
    {
      w := Value();
      r := Failed;
      var ok;
      ghost var images := disk.durable[Main];
      ghost var log0 := disk.log;
      ok := RemoveStaleBackup(disk);
      if !ok {
        AllSafeWeaken(disk.log, |log0|, images, images + iset{disk.files[Main]});
        return;
      }
      ghost var removed := disk.Now();
      var id: nat := *;
      var tmp := Tmp(id);
      ok, w := BuildTemporary(tmp, items, newCapacity, newPrefixSize, newSuffixSize);
      SafeWhileTouching(disk.Now(), removed, tmp, log0, images);
      if !ok {
        w := Value();
        RemoveTemporary(disk, tmp, log0, images);
        AllSafeWeaken(disk.log, |log0|, images, images + iset{disk.files[Main]});
        return;
      }
      ghost var built := disk.log;
      r, w := SwapFiles(tmp, newPrefixSize, newSuffixSize, w);
      AllSafeJoin(disk.log, built, log0, images, disk.files[file]);
    }

    /** The renames of `atomicUpdate0`, with the attempt to restore when the second one fails. */
    method SwapFiles(tmp: Name, newPrefixSize: nat, newSuffixSize: nat, ghost newValue: Vec)
      returns (r: Outcome, ghost w: Vec)
      requires Consistent() && file == Main && Bak !in disk.files
      requires tmp.Tmp? && tmp in disk.files && disk.durable[tmp] == iset{disk.files[tmp]}
      requires Encodes(disk.files[tmp], newValue, valueSize)
      requires |newValue.prefix| == newPrefixSize && |newValue.suffix| == newSuffixSize
      modifies this`file, this`prefixSize, this`suffixSize, disk
      ensures disk.Valid() && file in disk.files
      ensures file == Main || (file == Bak && Main !in disk.files)
      ensures |w.prefix| == prefixSize && |w.suffix| == suffixSize
      ensures Encodes(disk.files[file], w, valueSize)
      ensures r == Failed ==> w == Value() && disk.durable[file] == old(disk.durable[file])
      ensures r == Done ==> w == newValue && disk.durable[file] == iset{disk.files[file]}
      ensures r == Failed ==> disk.faults > old(disk.faults)
      ensures (r == Done ==> file == Main) && disk.faults >= old(disk.faults)
      ensures LogGrows(disk.log, old(disk.log))
      ensures AllSafe(disk.log, |old(disk.log)|, old(disk.durable[Main]) + iset{disk.files[file]})
    {
      r, w := Failed, Value();
      var done;
      done, file := SwapOnDisk(disk, tmp);
      if done {
        r, w := Done, newValue;
        prefixSize, suffixSize := newPrefixSize, newSuffixSize;
      }
    }

    // ------------------------------------------------------------ structural operations

    method Reserve(n: nat) returns (r: Outcome)
      requires Valid()
      requires n > Value().cap ==> FileLength(n, prefixSize, suffixSize, valueSize) < U64_LIMIT
      modifies this, disk
      ensures Valid() && (history == old(history) || history == old(history) + [Value()])
      ensures LogGrows(disk.log, old(disk.log))
      ensures autoFlush ==> AllShow(disk.log, |old(disk.log)|, old(Value()), Value(), valueSize)
      ensures (r == Done && old(file) == Main ==> file == Main) && disk.faults >= old(disk.faults)
      ensures r == Failed ==> Value() == old(Value()) && (old(file) != Main || disk.faults > old(disk.faults))
      ensures r == Done ==> Value() == old(Value()).(cap := if n > old(Value()).cap then n else old(Value()).cap)
      ensures n <= old(Value()).cap ==> r == Done && disk.log == old(disk.log)
    {
      var capacity := Capacity();
      r := Done;
      if n > capacity {
        var items := Items();
        r := AtomicUpdate(items, n, prefixSize, suffixSize);
      }
    }

    method ShrinkToFit() returns (r: Outcome)
      requires Valid()
      modifies this, disk
      ensures Valid() && (history == old(history) || history == old(history) + [Value()])
      ensures LogGrows(disk.log, old(disk.log))
      ensures autoFlush ==> AllShow(disk.log, |old(disk.log)|, old(Value()), Value(), valueSize)
      ensures (r == Done && old(file) == Main ==> file == Main) && disk.faults >= old(disk.faults)
      ensures r == Failed ==> Value() == old(Value()) && (old(file) != Main || disk.faults > old(disk.faults))
      ensures r == Done ==> Value() == old(Value()).(cap := |old(Value()).items|)
    {
      var size := Size();
      var capacity := Capacity();
      r := Done;
      if size < capacity {
        var items := Items();
        SpanMonotone(size, capacity, valueSize);
        r := AtomicUpdate(items, size, prefixSize, suffixSize);
      }
    }

    /** Erases the elements from `first` up to `last`; returns the position after them. */
    method Erase(first: nat, last: nat) returns (r: Outcome, position: nat)
      requires Valid() && first <= last <= |Value().items|
      modifies this, disk
      ensures Valid() && history == old(history) + [Value()] && LogGrows(disk.log, old(disk.log))
      ensures autoFlush ==> AllShow(disk.log, |old(disk.log)|, old(Value()), Value(), valueSize)
      ensures (r == Done && old(file) == Main ==> file == Main) && disk.faults >= old(disk.faults)
      ensures position == first
      ensures r == Failed ==> Value() == old(Value()) && (old(file) != Main || disk.faults > old(disk.faults))
      ensures r == Done ==> Value() == old(Value()).(items := old(Value()).items[..first] + old(Value()).items[last..])
    {
      var items := Items();
      var capacity := Capacity();
      r := AtomicUpdate(items[..first] + items[last..], capacity, prefixSize, suffixSize);
      position := first;
    }

    /** The capacity an insertion of `count` elements will leave. */
    static function InsertCapacity(size: nat, capacity: nat, count: nat): (n: nat)
      ensures n >= size + count && n >= capacity
      ensures if size + count <= capacity then n == capacity else 2 * n > 3 * capacity
    {
      if size + count > capacity then
        if size + count > NextCapacity(capacity) then size + count else NextCapacity(capacity)
      else
        capacity
    }

    /** Half as much again, rounded up to more than that. */
    static function NextCapacity(capacity: nat): (n: nat)
      ensures n > capacity && 3 * capacity < 2 * n <= 3 * capacity + 2
    {
      capacity + capacity / 2 + 1
    }

    method Insert(position: nat, values: seq<ByteSeq>) returns (r: Outcome, at: nat)
      requires Valid() && position <= |Value().items| && AllSized(values, valueSize)
      requires FileLength(InsertCapacity(|Value().items|, Value().cap, |values|), prefixSize, suffixSize, valueSize)
               < U64_LIMIT
      modifies this, disk
      ensures Valid() && history == old(history) + [Value()] && LogGrows(disk.log, old(disk.log))
      ensures autoFlush ==> AllShow(disk.log, |old(disk.log)|, old(Value()), Value(), valueSize)
      ensures (r == Done && old(file) == Main ==> file == Main) && disk.faults >= old(disk.faults)
      ensures at == position
      ensures r == Failed ==> Value() == old(Value()) && (old(file) != Main || disk.faults > old(disk.faults))
      ensures r == Done ==> Value() == old(Value()).(
        items := old(Value()).items[..position] + values + old(Value()).items[position..],
        cap := InsertCapacity(|old(Value()).items|, old(Value()).cap, |values|))
    {
      var items := Items();
      var capacity := Capacity();
      r := AtomicUpdate(items[..position] + values + items[position..],
                        InsertCapacity(|items|, capacity, |values|), prefixSize, suffixSize);
      at := position;
    }

    method ResizePrefix(newPrefixSize: nat) returns (r: Outcome)
      requires Valid() && FileLength(Value().cap, newPrefixSize, suffixSize, valueSize) < U64_LIMIT
      modifies this, disk
      ensures Valid() && (history == old(history) || history == old(history) + [Value()])
      ensures LogGrows(disk.log, old(disk.log))
      ensures autoFlush ==> AllShow(disk.log, |old(disk.log)|, old(Value()), Value(), valueSize)
      ensures (r == Done && old(file) == Main ==> file == Main) && disk.faults >= old(disk.faults)
      ensures r == Failed ==> Value() == old(Value()) && (old(file) != Main || disk.faults > old(disk.faults))
      ensures r == Done ==> Value() == old(Value()).(prefix := Value().prefix)
      ensures r == Done ==> |Value().prefix| == newPrefixSize && KeepsCommon(Value().prefix, old(Value()).prefix)
    {
      r := Done;
      if prefixSize != newPrefixSize {
        var items := Items();
        var capacity := Capacity();
        r := AtomicUpdate(items, capacity, newPrefixSize, suffixSize);
      }
    }

    method ResizeSuffix(newSuffixSize: nat) returns (r: Outcome)
      requires Valid() && FileLength(Value().cap, prefixSize, newSuffixSize, valueSize) < U64_LIMIT
      modifies this, disk
      ensures Valid() && (history == old(history) || history == old(history) + [Value()])
      ensures LogGrows(disk.log, old(disk.log))
      ensures autoFlush ==> AllShow(disk.log, |old(disk.log)|, old(Value()), Value(), valueSize)
      ensures (r == Done && old(file) == Main ==> file == Main) && disk.faults >= old(disk.faults)
      ensures r == Failed ==> Value() == old(Value()) && (old(file) != Main || disk.faults > old(disk.faults))
      ensures r == Done ==> Value() == old(Value()).(suffix := Value().suffix)
      ensures r == Done ==> |Value().suffix| == newSuffixSize && KeepsCommon(Value().suffix, old(Value()).suffix)
    {
      r := Done;
      if suffixSize != newSuffixSize {
        var items := Items();
        var capacity := Capacity();
        r := AtomicUpdate(items, capacity, prefixSize, newSuffixSize);
      }
    }

    // -------------------------------------------------------------- in-place operations

    /** The store to the size word that ends every in-place operation, with its flush. The slots
        already hold the elements the vector is to have. */
    method StoreSize(n: nat, ghost items: seq<ByteSeq>, ghost log0: seq<Snapshot>)
      requires Consistent()
      requires AllSized(items, valueSize) && |items| == n <= Value().cap
      requires Holds(disk.files[file], prefixSize, items, valueSize)
      requires autoFlush ==> AllReady(disk.durable[file], Value(), items, valueSize)
      requires LogGrows(disk.log, log0) && (autoFlush ==> Chronicle(log0, base, history, during, valueSize))
      requires autoFlush ==> AllShow(disk.log, |log0|, Value(), Value().(items := items), valueSize)
      modifies this`history, this`during, disk`files, disk`durable, disk`log
      ensures Valid() && LogGrows(disk.log, log0)
      ensures history == old(history) + [old(Value()).(items := items)]
      ensures autoFlush ==> AllShow(disk.log, |log0|, old(Value()), Value(), valueSize)
    {
      ghost var v := Value();
      SizeStored(disk.files[file], v, items, valueSize);
      if autoFlush {
        WriteAndFlushSize(disk, file, prefixSize, n, v, items, log0, valueSize);
      } else {
        disk.WriteWord(file, prefixSize + 8, U64(n));
      }
      Commit(v.(items := items), log0);
    }

    /** `pop_back` on a non-empty vector. */
    method PopBack()
      requires Valid() && Value().items != []
      modifies this`history, this`during, disk`files, disk`durable, disk`log
      ensures Valid() && LogGrows(disk.log, old(disk.log))
      ensures history == old(history) + [old(Value()).(items := old(Value()).items[..|old(Value()).items| - 1])]
      ensures autoFlush ==> AllShow(disk.log, |old(disk.log)|, old(Value()), Value(), valueSize)
    {
      var n := Size();
      StoreSize(n - 1, Value().items[..n - 1], disk.log);
    }

    method Clear()
      requires Valid()
      modifies this`history, this`during, disk`files, disk`durable, disk`log
      ensures Valid() && LogGrows(disk.log, old(disk.log))
      ensures history == old(history) + [old(Value()).(items := [])]
      ensures autoFlush ==> AllShow(disk.log, |old(disk.log)|, old(Value()), Value(), valueSize)
    {
      StoreSize(0, [], disk.log);
    }

    /** The first part of `push_back`: a full vector grows. */
    method MakeRoom() returns (r: Outcome)
      requires Valid()
      requires |Value().items| == Value().cap ==>
        FileLength(NextCapacity(Value().cap), prefixSize, suffixSize, valueSize) < U64_LIMIT
      modifies this, disk
      ensures Valid() && (history == old(history) || history == old(history) + [Value()])
      ensures LogGrows(disk.log, old(disk.log))
      ensures autoFlush ==> AllShow(disk.log, |old(disk.log)|, old(Value()), Value(), valueSize)
      ensures (r == Done && old(file) == Main ==> file == Main) && disk.faults >= old(disk.faults)
      ensures r == Failed ==> Value() == old(Value()) && (old(file) != Main || disk.faults > old(disk.faults))
      ensures r == Done ==> Value() == old(Value()).(
        cap := if |old(Value()).items| == old(Value()).cap then NextCapacity(old(Value()).cap) else old(Value()).cap)
      ensures |old(Value()).items| < old(Value()).cap ==> r == Done
    {
      r := Done;
      var size := Size();
      var capacity := Capacity();
      if capacity == size {
        r := Reserve(NextCapacity(capacity));
      }
    }

    method PushBack(x: ByteSeq) returns (r: Outcome)
      requires Valid() && |x| == valueSize
      requires |Value().items| == Value().cap ==>
        FileLength(NextCapacity(Value().cap), prefixSize, suffixSize, valueSize) < U64_LIMIT
      modifies this, disk
      ensures Valid() && old(history) <= history && LogGrows(disk.log, old(disk.log))
      ensures forall i :: |old(history)| <= i < |history| ==>
        history[i] == Value() || history[i] == old(Value()).(cap := Value().cap)
      ensures autoFlush ==> AllShowGrowth(disk.log, |old(disk.log)|, old(Value()), Value(), valueSize)
      ensures (r == Done && old(file) == Main ==> file == Main) && disk.faults >= old(disk.faults)
      ensures r == Failed ==> Value() == old(Value()) && (old(file) != Main || disk.faults > old(disk.faults))
      ensures r == Done ==> Value() == old(Value()).(
        items := old(Value()).items + [x],
        cap := if |old(Value()).items| == old(Value()).cap then NextCapacity(old(Value()).cap) else old(Value()).cap)
      ensures |old(Value()).items| < old(Value()).cap ==> r == Done
    {
      ghost var v, log0 := Value(), disk.log;
      r := MakeRoom();
      if r == Failed { return; }
      ghost var grown, log1 := Value(), disk.log;
      var size := Size();
      Append(x, size);
      if autoFlush {
        GrowthShown(disk.log, log1, log0, v, grown, Value(), valueSize);
      }
    }

    method Append(x: ByteSeq, size: nat)
      requires Valid() && |x| == valueSize && size == |Value().items| < Value().cap
      modifies this`history, this`during, disk`files, disk`durable, disk`log
      ensures Valid() && LogGrows(disk.log, old(disk.log))
      ensures history == old(history) + [old(Value()).(items := old(Value()).items + [x])]
      ensures autoFlush ==> AllShow(disk.log, |old(disk.log)|, old(Value()), Value(), valueSize)
    {
      ghost var v, log0 := Value(), disk.log;
      SlotWritten(disk.files[file], v, x, valueSize);
      if autoFlush {
        WriteAndFlushSlot(disk, file, prefixSize, size, x, v, valueSize);
      } else {
        disk.WriteData(file, Slot(prefixSize, size, valueSize), x);
      }
      StoreSize(size + 1, v.items + [x], log0);
    }
  }

  /** The element with its flush: throughout, a crash finds the old vector. */
  method WriteAndFlushSlot(disk: Disk, file: Name, prefixSize: nat, size: nat, x: ByteSeq, ghost v: Vec, valueSize: nat)
    requires disk.Valid() && file in disk.files && (file == Main || (file == Bak && Main !in disk.files))
    requires |v.prefix| == prefixSize && |v.items| == size < v.cap && |x| == valueSize
    requires Slot(prefixSize, size, valueSize) + |x| <= |disk.files[file]|
    requires forall b :: b in disk.durable[file] ==> Encodes(b, v, valueSize)
    modifies disk`files, disk`durable, disk`log
    ensures disk.Valid()
    ensures disk.files
         == old(disk.files)[file := Overwrite(old(disk.files[file]), Slot(prefixSize, size, valueSize), x)]
    ensures AllReady(disk.durable[file], v, v.items + [x], valueSize)
    ensures LogGrows(disk.log, old(disk.log))
    ensures AllShow(disk.log, |old(disk.log)|, v, v.(items := v.items + [x]), valueSize)
  {
    ghost var w := v.(items := v.items + [x]);
    ghost var log0 := disk.log;
    WriteSlot(disk, file, prefixSize, size, x, v, valueSize);
    ghost var log1 := disk.log;
    FlushedSlot(disk.durable[file], disk.files[file], v, x, valueSize);
    disk.Flush(file, Slot(prefixSize, size, valueSize), valueSize);
    ShowsStep(disk.log, log1, log0, v, w, file, valueSize);
  }

  method WriteSlot(disk: Disk, file: Name, prefixSize: nat, size: nat, x: ByteSeq, ghost v: Vec, valueSize: nat)
    requires disk.Valid() && file in disk.files && (file == Main || (file == Bak && Main !in disk.files))
    requires |v.prefix| == prefixSize && |v.items| == size < v.cap && |x| == valueSize
    requires Slot(prefixSize, size, valueSize) + |x| <= |disk.files[file]|
    requires forall b :: b in disk.durable[file] ==> Encodes(b, v, valueSize)
    modifies disk`files, disk`durable, disk`log
    ensures disk.Valid()
    ensures disk.files
         == old(disk.files)[file := Overwrite(old(disk.files[file]), Slot(prefixSize, size, valueSize), x)]
    ensures forall b :: b in disk.durable[file] ==> Encodes(b, v, valueSize)
    ensures LogGrows(disk.log, old(disk.log)) && SlotIs(disk.files[file], prefixSize, size, x, valueSize)
    ensures AllShow(disk.log, |old(disk.log)|, v, v.(items := v.items + [x]), valueSize)
  {
    ghost var log0 := disk.log;
    TornSlot(disk.durable[file], v, x, valueSize);
    disk.WriteData(file, Slot(prefixSize, size, valueSize), x);
    ShowsStep(disk.log, log0, log0, v, v.(items := v.items + [x]), file, valueSize);
  }

  /** The size word with its flush: before the flush a crash finds the old or the new vector,
      after it only the new one. */
  method WriteAndFlushSize(disk: Disk, file: Name, prefixSize: nat, n: nat, ghost v: Vec, ghost items: seq<ByteSeq>,
                           ghost log0: seq<Snapshot>, valueSize: nat)
    requires disk.Valid() && file in disk.files && (file == Main || (file == Bak && Main !in disk.files))
    requires |v.prefix| == prefixSize && prefixSize + 16 <= |disk.files[file]|
    requires AllSized(items, valueSize) && |items| == n <= v.cap
    requires AllReady(disk.durable[file], v, items, valueSize)
    requires LogGrows(disk.log, log0) && AllShow(disk.log, |log0|, v, v.(items := items), valueSize)
    modifies disk`files, disk`durable, disk`log
    ensures disk.Valid()
    ensures disk.files == old(disk.files)[file := Overwrite(old(disk.files[file]), prefixSize + 8, U64(n))]
    ensures forall b :: b in disk.durable[file] ==> Encodes(b, v.(items := items), valueSize)
    ensures LogGrows(disk.log, log0) && AllShow(disk.log, |log0|, v, v.(items := items), valueSize)
  {
    ghost var w := v.(items := items);
    ghost var images, log1 := disk.durable[file], disk.log;
    WordEither(images, v, items, valueSize);
    disk.WriteWord(file, prefixSize + 8, U64(n));
    ghost var log2 := disk.log;
    ShowsStep(log2, log1, log0, v, w, file, valueSize);
    FlushedWord(images, disk.files[file], v, items, valueSize);
    disk.Flush(file, prefixSize + 8, 8);
    ShowsStep(disk.log, log2, log0, v, w, file, valueSize);
  }

  /** Every image still holds `v` while its slots already hold `items`. */
  ghost predicate AllReady(images: iset<ByteSeq>, v: Vec, items: seq<ByteSeq>, valueSize: nat) {
    forall b :: b in images ==> Encodes(b, v, valueSize) && Holds(b, |v.prefix|, items, valueSize)
  }

  /** A state whose mapped file shows only `v` or `w` extends a log that does. */
  lemma ShowsStep(log: seq<Snapshot>, before: seq<Snapshot>, log0: seq<Snapshot>, v: Vec, w: Vec, file: Name,
                  valueSize: nat)
    requires |log| == |before| + 1 && log[..|before|] == before
    requires LogGrows(before, log0) && AllShow(before, |log0|, v, w, valueSize)
    requires file in log[|before|] && (file == Main || (file == Bak && Main !in log[|before|]))
    requires forall b :: b in log[|before|][file] ==> Encodes(b, v, valueSize) || Encodes(b, w, valueSize)
    ensures LogGrows(log, log0) && AllShow(log, |log0|, v, w, valueSize)
  {
    assert log[..|log0|] == log[..|before|][..|log0|];
    forall k | |log0| <= k < |log| ensures Shows(log[k], v, w, valueSize) {
      if k < |before| {
        assert log[k] == log[..|before|][k];
      }
    }
  }

  /** A crash after the store of the size word finds the old or the new vector. */
  lemma WordEither(images: iset<ByteSeq>, v: Vec, items: seq<ByteSeq>, valueSize: nat)
    requires AllReady(images, v, items, valueSize) && AllSized(items, valueSize) && |items| <= v.cap
    ensures forall r :: r in AfterWord(images, |v.prefix| + 8, U64(|items|)) ==>
              Encodes(r, v, valueSize) || Encodes(r, v.(items := items), valueSize)
  {
    var off, word := |v.prefix| + 8, U64(|items|);
    forall r | r in AfterWord(images, off, word) && r !in images
      ensures Encodes(r, v.(items := items), valueSize)
    {
      var b :| b in images && IsOverwrite(b, r, off, word);
      SizeStored(b, v, items, valueSize);
    }
  }

  /** After the flush of the size word only the new vector is left. */
  lemma FlushedWord(images: iset<ByteSeq>, mem: ByteSeq, v: Vec, items: seq<ByteSeq>, valueSize: nat)
    requires AllReady(images, v, items, valueSize) && AllSized(items, valueSize) && |items| <= v.cap
    requires |v.prefix| + 16 <= |mem| && mem[|v.prefix| + 8..|v.prefix| + 16] == U64(|items|)
    ensures forall r ::
      r in AfterFlush(AfterWord(images, |v.prefix| + 8, U64(|items|)), mem, |v.prefix| + 8, |v.prefix| + 16) ==>
              Encodes(r, v.(items := items), valueSize)
  {
    var off, word := |v.prefix| + 8, U64(|items|);
    var stored := AfterWord(images, off, word);
    forall r | r in AfterFlush(stored, mem, off, off + 8) ensures Encodes(r, v.(items := items), valueSize) {
      var m :| m in stored && IsOverwrite(m, r, off, mem[off..off + 8]);
      if m in images {
        SizeStored(m, v, items, valueSize);
      } else {
        var b :| b in images && IsOverwrite(b, m, off, word);
        SizeStored(b, v, items, valueSize);
        assert r == m;
      }
    }
  }

  /** Storing an element in the first unused slot keeps the vector and readies the longer one. */
  lemma SlotWritten(b: ByteSeq, v: Vec, x: ByteSeq, valueSize: nat)
    requires Encodes(b, v, valueSize) && |x| == valueSize && |v.items| < v.cap
    ensures Slot(|v.prefix|, |v.items|, valueSize) + |x| <= |b|
    ensures var r := Overwrite(b, Slot(|v.prefix|, |v.items|, valueSize), x);
            Encodes(r, v, valueSize) && Holds(r, |v.prefix|, v.items + [x], valueSize)
  {
    var p, n := |v.prefix|, |v.items|;
    SpanMonotone(n + 1, v.cap, valueSize);
    var r := Overwrite(b, Slot(p, n, valueSize), x);
    OverwriteSame(b, Slot(p, n, valueSize), x);
    SlackIgnored(b, r, v, valueSize);
    var longer := v.items + [x];
    forall i | 0 <= i < |longer| ensures SlotIs(r, p, i, longer[i], valueSize) {
      if i < n {
        assert SlotIs(r, p, i, v.items[i], valueSize);
      }
    }
  }

  lemma TornSlot(images: iset<ByteSeq>, v: Vec, x: ByteSeq, valueSize: nat)
    requires forall b :: b in images ==> Encodes(b, v, valueSize)
    requires |x| == valueSize && |v.items| < v.cap
    ensures forall r :: r in AfterTorn(images, Slot(|v.prefix|, |v.items|, valueSize), x) ==> Encodes(r, v, valueSize)
  {
    var off := Slot(|v.prefix|, |v.items|, valueSize);
    SpanMonotone(|v.items| + 1, v.cap, valueSize);
    forall r | r in AfterTorn(images, off, x) ensures Encodes(r, v, valueSize) {
      var b :| b in images && Torn(b, r, off, x);
      SlackIgnored(b, r, v, valueSize);
    }
  }

  lemma FlushedSlot(images: iset<ByteSeq>, mem: ByteSeq, v: Vec, x: ByteSeq, valueSize: nat)
    requires forall b :: b in images ==> Encodes(b, v, valueSize)
    requires |x| == valueSize && |v.items| < v.cap
    requires SlotIs(mem, |v.prefix|, |v.items|, x, valueSize)
    ensures AllReady(AfterFlush(images, mem, Slot(|v.prefix|, |v.items|, valueSize),
                                Slot(|v.prefix|, |v.items| + 1, valueSize)), v, v.items + [x], valueSize)
  {
    var from, to := Slot(|v.prefix|, |v.items|, valueSize), Slot(|v.prefix|, |v.items| + 1, valueSize);
    forall r | r in AfterFlush(images, mem, from, to)
      ensures Encodes(r, v, valueSize) && Holds(r, |v.prefix|, v.items + [x], valueSize)
    {
      var b :| b in images && IsOverwrite(b, r, from, mem[from..to]);
      SlotWritten(b, v, x, valueSize);
    }
  }

  /** The directory steps of the swap; `file` is the name the vector is mapped to afterwards. */
  method SwapOnDisk(disk: Disk, tmp: Name) returns (done: bool, file: Name)
    requires disk.Valid() && tmp.Tmp?
    requires Main in disk.files && Bak !in disk.files && tmp in disk.files
    modifies disk
    ensures disk.Valid() && file in disk.files
    ensures file == Main || (file == Bak && Main !in disk.files)
    ensures !done ==> disk.files[file] == old(disk.files[Main]) && disk.durable[file] == old(disk.durable[Main])
    ensures done ==> file == Main
    ensures (!done ==> disk.faults > old(disk.faults)) && disk.faults >= old(disk.faults)
    ensures done ==> disk.files[file] == old(disk.files[tmp]) && disk.durable[file] == old(disk.durable[tmp])
    ensures LogGrows(disk.log, old(disk.log))
    ensures !done ==> AllSafe(disk.log, |old(disk.log)|, old(disk.durable[Main]))
    ensures AllSafe(disk.log, |old(disk.log)|, old(disk.durable[Main]) + old(disk.durable[tmp]))
  {
    ghost var log0, images := disk.log, disk.durable[Main];
    ghost var either := images + disk.durable[tmp];
    done, file := false, Main;
    var ok := disk.Rename(Main, Bak);
    SafeStep(disk.log, log0, log0, images);
    if !ok {
      RemoveTemporary(disk, tmp, log0, images);
      AllSafeWeaken(disk.log, |log0|, images, either);
      return;
    }
    file := Bak;
    ghost var aside := disk.log;
    ok := disk.Rename(tmp, Main);
    if !ok {
      SafeStep(disk.log, aside, log0, images);
      ghost var failed := disk.log;
      var restored := disk.Rename(Bak, Main);
      SafeStep(disk.log, failed, log0, images);
      if restored { file := Main; }
      RemoveTemporary(disk, tmp, log0, images);
      AllSafeWeaken(disk.log, |log0|, images, either);
      return;
    }
    AllSafeWeaken(aside, |log0|, images, either);
    SafeStep(disk.log, aside, log0, either);
    done, file := true, Main;
    DropBackup(disk, log0, either);
  }

  lemma SafeStep(log: seq<Snapshot>, before: seq<Snapshot>, log0: seq<Snapshot>, images: iset<ByteSeq>)
    requires |log| == |before| + 1 && log[..|before|] == before && Safe(log[|before|], images)
    requires LogGrows(before, log0) && AllSafe(before, |log0|, images)
    ensures LogGrows(log, log0) && AllSafe(log, |log0|, images)
  {
    assert log[..|log0|] == log[..|before|][..|log0|];
    forall k | |log0| <= k < |log| ensures Safe(log[k], images) {
      if k < |before| {
        assert log[k] == log[..|before|][k];
      }
    }
  }

  lemma AllSafeWeaken(log: seq<Snapshot>, from: nat, images: iset<ByteSeq>, more: iset<ByteSeq>)
    requires AllSafe(log, from, images) && images <= more
    ensures AllSafe(log, from, more)
  {
    forall k | from <= k < |log| ensures Safe(log[k], more) {
      assert Safe(log[k], images);
    }
  }

  /** The scope-exit handler of an update that did not complete; errors are ignored. */
  method RemoveTemporary(disk: Disk, tmp: Name, ghost log0: seq<Snapshot>, ghost images: iset<ByteSeq>)
    requires disk.Valid() && tmp.Tmp? && Safe(disk.durable, images)
    requires LogGrows(disk.log, log0) && AllSafe(disk.log, |log0|, images)
    modifies disk
    ensures disk.Valid()
    ensures SameExcept(disk.files, old(disk.files), tmp) && SameExcept(disk.durable, old(disk.durable), tmp)
    ensures disk.faults >= old(disk.faults)
    ensures LogGrows(disk.log, log0) && AllSafe(disk.log, |log0|, images)
  {
    ghost var before := disk.log;
    var _ := disk.Remove(tmp);
    SafeStep(disk.log, before, log0, images);
  }

  /** A backup beside an existing file is stale, so an update starts by removing it. */
  method RemoveStaleBackup(disk: Disk) returns (ok: bool)
    requires disk.Valid() && Main in disk.files
    modifies disk
    ensures disk.Valid()
    ensures SameExcept(disk.files, old(disk.files), Bak) && SameExcept(disk.durable, old(disk.durable), Bak)
    ensures ok ==> Bak !in disk.files
    ensures disk.faults == old(disk.faults) + if ok then 0 else 1
    ensures LogGrows(disk.log, old(disk.log))
    ensures AllSafe(disk.log, |old(disk.log)|, disk.durable[Main])
  {
    ok := true;
    if Bak in disk.files {
      ghost var log0 := disk.log;
      ok := disk.Remove(Bak);
      SafeStep(disk.log, log0, log0, disk.durable[Main]);
    }
  }

  /** Closing the old file, which flushes it, and removing it; errors are ignored. */
  method DropBackup(disk: Disk, ghost log0: seq<Snapshot>, ghost images: iset<ByteSeq>)
    requires disk.Valid() && Main in disk.files && Bak in disk.files && Safe(disk.durable, images)
    requires LogGrows(disk.log, log0) && AllSafe(disk.log, |log0|, images)
    modifies disk
    ensures disk.Valid()
    ensures SameExcept(disk.files, old(disk.files), Bak) && SameExcept(disk.durable, old(disk.durable), Bak)
    ensures disk.faults >= old(disk.faults)
    ensures LogGrows(disk.log, log0) && AllSafe(disk.log, |log0|, images)
  {
    ghost var before := disk.log;
    disk.Flush(Bak, 0, |disk.files[Bak]|);
    SafeStep(disk.log, before, log0, images);
    ghost var flushed := disk.log;
    var _ := disk.Remove(Bak);
    SafeStep(disk.log, flushed, log0, images);
  }

  /** While only a temporary entry is touched, a crash finds what it would have found before. */
  lemma SafeWhileTouching(now: View, before: View, tmp: Name, log0: seq<Snapshot>, images: iset<ByteSeq>)
    requires tmp.Tmp? && Touches(now, before, tmp)
    requires Main in before.durable && before.durable[Main] == images
    requires LogGrows(before.log, log0) && AllSafe(before.log, |log0|, images)
    ensures LogGrows(now.log, log0) && AllSafe(now.log, |log0|, images)
  {
    assert now.log[..|log0|] == now.log[..|before.log|][..|log0|];
    forall k | |log0| <= k < |now.log| ensures Safe(now.log[k], images) {
      if k < |before.log| {
        assert now.log[k] == now.log[..|before.log|][k];
      } else {
        assert SameExcept(now.log[k], before.durable, tmp);
      }
    }
  }

  lemma AllSafeJoin(log: seq<Snapshot>, middle: seq<Snapshot>, log0: seq<Snapshot>, images: iset<ByteSeq>, b: ByteSeq)
    requires LogGrows(log, middle) && LogGrows(middle, log0)
    requires AllSafe(middle, |log0|, images) && AllSafe(log, |middle|, images + iset{b})
    ensures LogGrows(log, log0) && AllSafe(log, |log0|, images + iset{b})
  {
    assert log[..|log0|] == log[..|middle|][..|log0|];
    forall k | |log0| <= k < |log| ensures Safe(log[k], images + iset{b}) {
      if k < |middle| {
        assert log[k] == log[..|middle|][k];
        assert Safe(middle[k], images);
      }
    }
  }

  ghost predicate LogGrows(log: seq<Snapshot>, log0: seq<Snapshot>) {
    |log0| <= |log| && log[..|log0|] == log0
  }

  /** `w` is what an update of `v` with new elements and new sizes must produce: the elements, the
      capacity, and the parts of prefix and suffix that still fit. */
  ghost predicate IsUpdate(w: Vec, v: Vec, items: seq<ByteSeq>, cap: nat, prefixSize: nat, suffixSize: nat) {
    && w.items == items && w.cap == cap
    && |w.prefix| == prefixSize && KeepsCommon(w.prefix, v.prefix)
    && |w.suffix| == suffixSize && KeepsCommon(w.suffix, v.suffix)
  }

  /** The stores made into the mapping of the new file, starting from its first contents: the
      words of `create`, the common prefix, the size, the elements, the common suffix. */
  method BuildImage(first: ByteSeq, source: ByteSeq, prefixSize: nat, suffixSize: nat, items: seq<ByteSeq>,
                    newCapacity: nat, newPrefixSize: nat, newSuffixSize: nat, valueSize: nat, ghost v: Vec)
    returns (b: ByteSeq, ghost w: Vec)
    requires Encodes(source, v, valueSize) && |v.prefix| == prefixSize && |v.suffix| == suffixSize
    requires |first| == FileLength(newCapacity, newPrefixSize, newSuffixSize, valueSize) < U64_LIMIT
    requires AllSized(items, valueSize) && |items| <= newCapacity
    ensures Encodes(b, w, valueSize)
    ensures IsUpdate(w, v, items, newCapacity, newPrefixSize, newSuffixSize)
  {
    WordsStored(first, newCapacity, newPrefixSize, newSuffixSize, valueSize);
    b := Overwrite(Overwrite(first, newPrefixSize + 8, U64(0)), newPrefixSize, U64(newCapacity));
    w := Vec(b[..newPrefixSize], [], newCapacity, b[Slot(newPrefixSize, newCapacity, valueSize)..]);
    b, w := StorePrefix(b, source[..prefixSize], newPrefixSize, valueSize, w);
    b, w := StoreItems(b, items, newPrefixSize, valueSize, w);
    WordsRead(source, v, valueSize);
    var start := Slot(prefixSize, CapacityWord(source, prefixSize), valueSize);
    b, w := StoreSuffix(b, source[start..], newPrefixSize, newCapacity, newSuffixSize, valueSize, w);
  }

  method StorePrefix(first: ByteSeq, prefix: ByteSeq, newPrefixSize: nat, valueSize: nat, ghost v: Vec)
    returns (b: ByteSeq, ghost w: Vec)
    requires Encodes(first, v, valueSize) && |v.prefix| == newPrefixSize
    ensures Encodes(b, w, valueSize)
    ensures w == v.(prefix := w.prefix) && |w.prefix| == newPrefixSize && KeepsCommon(w.prefix, prefix)
  {
    b, w := first, v;
    if |prefix| != 0 && newPrefixSize != 0 {
      var common := prefix[..Min(|prefix|, newPrefixSize)];
      PrefixStored(b, v, common, valueSize);
      b, w := Overwrite(b, 0, common), v.(prefix := common + v.prefix[|common|..]);
    }
  }

  method StoreSuffix(first: ByteSeq, suffix: ByteSeq, newPrefixSize: nat, newCapacity: nat, newSuffixSize: nat,
                     valueSize: nat, ghost v: Vec)
    returns (b: ByteSeq, ghost w: Vec)
    requires Encodes(first, v, valueSize)
    requires |v.prefix| == newPrefixSize && v.cap == newCapacity && |v.suffix| == newSuffixSize
    ensures Encodes(b, w, valueSize)
    ensures w == v.(suffix := w.suffix) && |w.suffix| == newSuffixSize && KeepsCommon(w.suffix, suffix)
  {
    b, w := first, v;
    if |suffix| != 0 && newSuffixSize != 0 {
      var common := suffix[..Min(|suffix|, newSuffixSize)];
      SuffixStored(b, v, common, valueSize);
      b := Overwrite(b, Slot(newPrefixSize, newCapacity, valueSize), common);
      w := v.(suffix := common + v.suffix[|common|..]);
    }
  }

  /** The size word first, then the elements one by one. */
  method StoreItems(first: ByteSeq, items: seq<ByteSeq>, prefixSize: nat, valueSize: nat, ghost v: Vec)
    returns (b: ByteSeq, ghost w: Vec)
    requires Encodes(first, v, valueSize) && |v.prefix| == prefixSize
    requires AllSized(items, valueSize) && |items| <= v.cap
    ensures Encodes(b, w, valueSize)
    ensures w == v.(items := items)
  {
    SpanMonotone(|items|, v.cap, valueSize);
    w := v.(items := SlotsOf(first, prefixSize, |items|, valueSize));
    SizeStored(first, v, w.items, valueSize);
    b := Overwrite(first, prefixSize + 8, U64(|items|));
    for i := 0 to |items|
      invariant Encodes(b, w, valueSize)
      invariant w == v.(items := w.items) && |w.items| == |items|
      invariant forall k :: 0 <= k < i ==> w.items[k] == items[k]
    {
      ItemOverwritten(b, w, i, items[i], valueSize);
      b := Overwrite(b, Slot(prefixSize, i, valueSize), items[i]);
      w := w.(items := w.items[i := items[i]]);
    }
    assert w.items == items;
  }

  method ReplaceContents(disk: Disk, name: Name, image: ByteSeq, ghost begin: View) returns (ok: bool)
    requires disk.Valid() && name in disk.files && |image| == |disk.files[name]|
    requires Touches(disk.Now(), begin, name)
    modifies disk
    ensures disk.Valid() && Touches(disk.Now(), begin, name)
    ensures name in disk.files && disk.files[name] == image && (ok ==> disk.durable[name] == iset{image})
    ensures disk.faults == old(disk.faults) + if ok then 0 else 1
  {
    ghost var before := disk.Now();
    disk.WriteData(name, 0, image);
    assert disk.files[name] == image;
    ghost var written := disk.Now();
    ok := disk.TryFlush(name, 0, |image|);
    FlushAll(written.durable[name], image);
    TouchesTransitive(written, before, begin, name);
    TouchesTransitive(disk.Now(), written, begin, name);
  }

  // ------------------------------------------------------------------ recovery

  /** The first part of `open`: a backup beside the file is removed, a backup without a file is
      moved back. Recovery may itself be interrupted anywhere and started again. */
  method Recover(disk: Disk) returns (ok: bool, fileExists: bool)
    requires disk.Valid()
    modifies disk
    ensures disk.Valid()
    ensures disk.faults == old(disk.faults) + if ok then 0 else 1
    ensures ok ==> fileExists == old(Recoverable(disk.files)) == (Main in disk.files)
    ensures old(Recoverable(disk.files)) ==>
      && Recoverable(disk.files)
      && Survivor(disk.files) == old(Survivor(disk.files))
      && Survivor(disk.durable) == old(Survivor(disk.durable))
    ensures LogGrows(disk.log, old(disk.log))
    ensures old(Recoverable(disk.files)) ==>
      AllSafe(disk.log, |old(disk.log)|, old(Survivor(disk.durable)))
  {
    ok, fileExists := true, false;
    ghost var log0 := disk.log;
    if Main in disk.files {
      ok := RemoveStaleBackup(disk);
      fileExists := true;
    } else if Bak in disk.files {
      ghost var images := disk.durable[Bak];
      ok := disk.Rename(Bak, Main);
      SafeStep(disk.log, log0, log0, images);
      fileExists := true;
    }
  }

  /** Nothing is pending: every file has exactly one possible content. */
  ghost predicate Settled(files: map<Name, ByteSeq>, durable: Snapshot) {
    forall n :: n in files ==> n in durable && durable[n] == iset{files[n]} && |files[n]| < U64_LIMIT
  }

  /** `open` in the modes that do not create. Not accepted means that the source throws or would go
      on to create. An accepted file without a vector in it is one of WrappedCapacityAccepted;
      the source then goes on with data that lies outside the file. */
  method Open(disk: Disk, prefixSize: nat, valueSize: nat, autoFlush: bool)
    returns (accepted: bool, vector: FileMappedVector?)
    requires disk.Valid() && valueSize > 0 && Settled(disk.files, disk.durable)
    requires prefixSize + METADATA_SIZE < U64_LIMIT
    modifies disk
    ensures accepted ==> old(Recoverable(disk.files)) && OpenAccepts(old(Survivor(disk.files)), prefixSize, valueSize)
    ensures !accepted ==>
      || !old(Recoverable(disk.files))
      || !OpenAccepts(old(Survivor(disk.files)), prefixSize, valueSize)
      || disk.faults > old(disk.faults)
    ensures vector != null <==> accepted && HoldsVector(old(Survivor(disk.files)), prefixSize, valueSize)
    ensures vector != null ==> fresh(vector) && vector.Valid() && vector.disk == disk
    ensures vector != null ==> vector.valueSize == valueSize && vector.autoFlush == autoFlush
    ensures vector != null ==> |vector.Value().prefix| == prefixSize && vector.history == [vector.Value()]
    ensures vector != null ==> Encodes(old(Survivor(disk.files)), vector.Value(), valueSize)
  {
    accepted, vector := false, null;
    var ok, fileExists := Recover(disk);
    if !ok || !fileExists { return; }
    var b := disk.files[Main];
    OpenExact(b, prefixSize, valueSize);
    accepted := OpenAccepts(b, prefixSize, valueSize);
    if accepted && Slot(prefixSize, CapacityWord(b, prefixSize), valueSize) < U64_LIMIT {
      DecodeEncodes(b, prefixSize, valueSize);
      vector := new FileMappedVector.Attach(disk, b, prefixSize, valueSize, autoFlush);
    }
  }

  /** Crash atomicity over whole runs: whatever a power loss at any recorded state of any run
      leaves, there is a file to recover, and it holds the value before or after the operation
      that was running. */
  lemma CrashFinds(log: seq<Snapshot>, base: nat, h: seq<Vec>, during: seq<nat>, valueSize: nat,
                   k: nat, found: map<Name, ByteSeq>)
    requires Chronicle(log, base, h, during, valueSize) && k < |during|
    requires CrashLeaves(log[base + k], found)
    ensures Recoverable(found) && during[k] + 1 < |h|
    ensures Encodes(Survivor(found), h[during[k]], valueSize)
         || Encodes(Survivor(found), h[during[k] + 1], valueSize)
  {
    assert Explained(log[base + k], h, during[k], valueSize);
    assert Survivor(found) in Survivor(log[base + k]);
  }

  ghost predicate Reads(b: ByteSeq, v: Vec, prefixSize: nat, valueSize: nat) {
    |v.prefix| == prefixSize && Encodes(b, v, valueSize)
  }

  /** The surviving file holds the value before or after operation `j`, and that value has a prefix of
      this size. */
  ghost predicate Opens(found: map<Name, ByteSeq>, h: seq<Vec>, j: nat, prefixSize: nat, valueSize: nat) {
    && Recoverable(found) && j + 1 < |h|
    && (Reads(Survivor(found), h[j], prefixSize, valueSize) || Reads(Survivor(found), h[j + 1], prefixSize, valueSize))
  }

  /** After every crash the prefix size from before or the one from after the operation is right. */
  lemma CrashOpens(log: seq<Snapshot>, base: nat, h: seq<Vec>, during: seq<nat>, valueSize: nat,
                   k: nat, found: map<Name, ByteSeq>)
    requires Chronicle(log, base, h, during, valueSize) && k < |during|
    requires CrashLeaves(log[base + k], found)
    ensures during[k] + 1 < |h|
    ensures Opens(found, h, during[k], |h[during[k]].prefix|, valueSize)
         || Opens(found, h, during[k], |h[during[k] + 1].prefix|, valueSize)
  {
    CrashFinds(log, base, h, during, valueSize, k, found);
  }

  /** The same, carried through a restart and `open` with the prefix size of the value that survived:
      the reopened vector has that value, the one before or the one after the interrupted
      operation. See OtherPrefixExact for any other prefix size. */
  method ReopenAfterCrash(vector: FileMappedVector, k: nat, found: map<Name, ByteSeq>, prefixSize: nat)
    returns (reopened: FileMappedVector?, ghost faults: nat)
    requires vector.Valid() && vector.autoFlush && k < |vector.during|
    requires CrashLeaves(vector.disk.log[vector.base + k], found)
    requires forall n :: n in found ==> |found[n]| < U64_LIMIT
    requires Opens(found, vector.history, vector.during[k], prefixSize, vector.valueSize)
    ensures reopened != null ==> fresh(reopened) && reopened.Valid()
    ensures reopened != null ==> Encodes(Survivor(found), reopened.Value(), vector.valueSize)
    ensures reopened != null ==>
      || reopened.Value() == vector.history[vector.during[k]]
      || reopened.Value() == vector.history[vector.during[k] + 1]
    ensures faults == 0 ==> reopened != null
  {
    ghost var h, j := vector.history, vector.during[k];
    ghost var u := if Reads(Survivor(found), h[j], prefixSize, vector.valueSize) then h[j] else h[j + 1];
    reopened, faults := Reopen(found, prefixSize, vector.valueSize, u);
  }

  /** A restart on the directory `found`, and `open` with the prefix size of the value that survived. */
  method Reopen(found: map<Name, ByteSeq>, prefixSize: nat, valueSize: nat, ghost u: Vec)
    returns (reopened: FileMappedVector?, ghost faults: nat)
    requires Recoverable(found) && Reads(Survivor(found), u, prefixSize, valueSize)
    requires forall n :: n in found ==> |found[n]| < U64_LIMIT
    ensures reopened != null ==> fresh(reopened) && reopened.Valid() && reopened.Value() == u
    ensures faults == 0 ==> reopened != null
  {
    var disk := new Disk.AfterRestart(found);
    assert HoldsVector(Survivor(found), prefixSize, valueSize);
    OpenExact(Survivor(found), prefixSize, valueSize);
    var accepted;
    accepted, reopened := Open(disk, prefixSize, valueSize, true);
    faults := disk.faults;
    if reopened != null {
      EncodesUnique(Survivor(found), u, reopened.Value(), valueSize);
    }
  }
}
