/** The directory a mapped vector lives in, with the contract of `System::MemoryMappedFile`
    and of the directory operations.

    A mapped file has the contents every process sees (`files`) and the set of contents a power
    loss may leave on the medium (`durable`): a write that was not flushed may have reached the
    medium or not, byte by byte for ordinary data and as a whole for a 64-bit word; a flush makes
    its range certain; renames and removals change the directory atomically. Every step appends
    the resulting `durable` state to `log`, so `log` holds each state in which a run may stop. */
module MappedDisk {
  import opened Bytes

  /** The three kinds of names an update of one vector uses. */
  datatype Name = Main | Bak | Tmp(id: nat)

  type Snapshot = map<Name, iset<ByteSeq>>

  ghost predicate Torn(b: ByteSeq, r: ByteSeq, off: nat, w: ByteSeq) {
    && |r| == |b|
    && off + |w| <= |b|
    && forall i :: 0 <= i < |b| ==> r[i] == b[i] || (off <= i < off + |w| && r[i] == w[i - off])
  }

  ghost predicate FromTorn(images: iset<ByteSeq>, r: ByteSeq, off: nat, w: ByteSeq) {
    exists b :: b in images && Torn(b, r, off, w)
  }

  ghost function AfterTorn(images: iset<ByteSeq>, off: nat, w: ByteSeq): iset<ByteSeq> {
    iset r: ByteSeq | FromTorn(images, r, off, w)
  }

  ghost predicate IsOverwrite(b: ByteSeq, r: ByteSeq, off: nat, w: ByteSeq) {
    off + |w| <= |b| && r == Overwrite(b, off, w)
  }

  ghost predicate FromOverwrite(images: iset<ByteSeq>, r: ByteSeq, off: nat, w: ByteSeq) {
    exists b :: b in images && IsOverwrite(b, r, off, w)
  }

  ghost function AfterWord(images: iset<ByteSeq>, off: nat, w: ByteSeq): iset<ByteSeq> {
    iset r: ByteSeq | r in images || FromOverwrite(images, r, off, w)
  }

  ghost function AfterFlush(images: iset<ByteSeq>, mem: ByteSeq, off: nat, end: nat): iset<ByteSeq>
    requires off <= end <= |mem|
  {
    iset r: ByteSeq | |r| == |mem| && FromOverwrite(images, r, off, mem[off..end])
  }

  /** `b` with those bytes of the write `w` that are kept. */
  ghost function Mixed(b: ByteSeq, off: nat, w: ByteSeq, kept: iset<nat>): ByteSeq {
    seq(|b|, i requires 0 <= i < |b| => if off <= i < off + |w| && i in kept then w[i - off] else b[i])
  }

  /** Before a flush a crash can leave any part of a write, and all or nothing of a word. */
  lemma UnflushedMayBeLost(images: iset<ByteSeq>, b: ByteSeq, off: nat, w: ByteSeq, kept: iset<nat>)
    requires b in images && off + |w| <= |b|
    ensures Mixed(b, off, w, kept) in AfterTorn(images, off, w)
    ensures b in AfterWord(images, off, w) && Overwrite(b, off, w) in AfterWord(images, off, w)
  {
    assert Torn(b, Mixed(b, off, w, kept), off, w);
    assert IsOverwrite(b, Overwrite(b, off, w), off, w);
  }

  /** A flush settles its range and leaves open all that was open elsewhere. */
  lemma UnflushedStaysOpen(images: iset<ByteSeq>, b: ByteSeq, mem: ByteSeq, off: nat, end: nat)
    requires b in images && off <= end <= |mem| == |b|
    ensures Overwrite(b, off, mem[off..end]) in AfterFlush(images, mem, off, end)
  {
    assert IsOverwrite(b, Overwrite(b, off, mem[off..end]), off, mem[off..end]);
  }

  ghost predicate SoundAll(files: map<Name, ByteSeq>, durable: Snapshot) {
    files.Keys == durable.Keys && forall n :: n in files ==> files[n] in durable[n]
  }

  /** Replacing one entry by a sound one is a step that touches only that entry. */
  lemma EntryReplaced(before: View, name: Name, mem: ByteSeq, images: iset<ByteSeq>)
    requires SoundAll(before.files, before.durable) && mem in images
    ensures SoundAll(before.files[name := mem], before.durable[name := images])
    ensures Touches(View(before.files[name := mem], before.durable[name := images],
                         before.log + [before.durable[name := images]]), before, name)
  {
    var durable := before.durable[name := images];
    assert (before.log + [durable])[..|before.log|] == before.log;
  }

  lemma WordSound(mem: ByteSeq, images: iset<ByteSeq>, off: nat, w: ByteSeq)
    requires mem in images && off + |w| <= |mem|
    ensures Overwrite(mem, off, w) in AfterWord(images, off, w)
  {
    assert IsOverwrite(mem, Overwrite(mem, off, w), off, w);
  }

  lemma TornSound(mem: ByteSeq, images: iset<ByteSeq>, off: nat, w: ByteSeq)
    requires mem in images && off + |w| <= |mem|
    ensures Overwrite(mem, off, w) in AfterTorn(images, off, w)
  {
    assert Torn(mem, Overwrite(mem, off, w), off, w);
  }

  lemma FlushSound(mem: ByteSeq, images: iset<ByteSeq>, off: nat, end: nat)
    requires mem in images && off <= end <= |mem|
    ensures mem in AfterFlush(images, mem, off, end)
  {
    assert mem == Overwrite(mem, off, mem[off..end]);
    assert IsOverwrite(mem, mem, off, mem[off..end]);
  }

  /** Flushing a whole file leaves exactly its contents. */
  lemma FlushAll(images: iset<ByteSeq>, mem: ByteSeq)
    requires mem in images
    ensures AfterFlush(images, mem, 0, |mem|) == iset{mem}
  {
    forall r: ByteSeq ensures r in AfterFlush(images, mem, 0, |mem|) <==> r in iset{mem} {
      assert mem[0..|mem|] == mem;
      if r == mem {
        assert IsOverwrite(mem, r, 0, mem[0..|mem|]);
      }
    }
  }

  /** Two directories that differ at most in the entry `name`. */
  ghost predicate SameExcept<X(!new)>(m: map<Name, X>, m0: map<Name, X>, name: Name) {
    forall n :: n != name ==> (n in m <==> n in m0) && (n in m ==> m[n] == m0[n])
  }

  /** All of a disk's state at one moment. */
  datatype View = View(files: map<Name, ByteSeq>, durable: Snapshot, log: seq<Snapshot>)

  /** Between the two moments only the entry `name` was touched. */
  ghost predicate Touches(now: View, before: View, name: Name) {
    && SameExcept(now.files, before.files, name)
    && SameExcept(now.durable, before.durable, name)
    && |before.log| <= |now.log| && now.log[..|before.log|] == before.log
    && forall k :: |before.log| <= k < |now.log| ==> SameExcept(now.log[k], before.durable, name)
  }

  lemma TouchesTransitive(now: View, middle: View, before: View, name: Name)
    requires Touches(now, middle, name) && Touches(middle, before, name)
    ensures Touches(now, before, name)
  {
    assert now.log[..|before.log|] == now.log[..|middle.log|][..|before.log|];
    forall k | |before.log| <= k < |now.log| ensures SameExcept(now.log[k], before.durable, name) {
      if k < |middle.log| {
        assert now.log[k] == now.log[..|middle.log|][k] == middle.log[k];
      }
    }
  }

  /** Some power loss at the state `s` leaves the directory `files`. */
  ghost predicate CrashLeaves(s: Snapshot, files: map<Name, ByteSeq>) {
    files.Keys == s.Keys && forall n :: n in s ==> files[n] in s[n]
  }

  class Disk {
    var files: map<Name, ByteSeq>
    ghost var durable: Snapshot
    ghost var log: seq<Snapshot>
    /** How many directory operations have failed. */
    ghost var faults: nat

    ghost predicate Valid()
      reads this
    {
      SoundAll(files, durable)
    }

    ghost function Now(): View
      reads this
    {
      View(files, durable, log)
    }

    /** The directory found when the machine comes up again. */
    constructor AfterRestart(found: map<Name, ByteSeq>)
      ensures Valid()
      ensures files == found
      ensures durable == map n | n in found :: iset{found[n]}
      ensures log == [] && faults == 0
    {
      files := found;
      durable := map n | n in found :: iset{found[n]};
      log, faults := [], 0;
    }

    method Rename(from: Name, to: Name) returns (ok: bool)
      requires Valid() && from != to
      modifies this
      ensures Valid()
      ensures ok ==> from in old(files)
      ensures ok ==> files == (old(files) - {from})[to := old(files)[from]]
      ensures ok ==> durable == (old(durable) - {from})[to := old(durable)[from]]
      ensures !ok ==> files == old(files) && durable == old(durable)
      ensures log == old(log) + [durable]
      ensures faults == old(faults) + if ok then 0 else 1
    {
      ok := *;
      ok := ok && from in files;
      if ok {
        files := (files - {from})[to := files[from]];
        durable := (durable - {from})[to := durable[from]];
      } else {
        faults := faults + 1;
      }
      log := log + [durable];
    }

    method Remove(name: Name) returns (ok: bool)
      requires Valid()
      modifies this
      ensures Valid()
      ensures ok ==> files == old(files) - {name} && durable == old(durable) - {name}
      ensures !ok ==> files == old(files) && durable == old(durable)
      ensures log == old(log) + [durable]
      ensures faults == old(faults) + if ok then 0 else 1
    {
      ok := *;
      if ok {
        files := files - {name};
        durable := durable - {name};
      } else {
        faults := faults + 1;
      }
      log := log + [durable];
    }

    /** Creates a file that must not exist yet. Nothing is promised about its first contents,
        and a failed creation may leave an unusable file behind. */
    method Create(name: Name, length: nat) returns (ok: bool)
      requires Valid()
      modifies this
      ensures Valid()
      ensures ok ==> name !in old(files) && name in files && |files[name]| == length
      ensures faults == old(faults) + if ok then 0 else 1
      ensures Touches(Now(), old(Now()), name)
    {
      ok := *;
      var made: bool := *;
      ok := ok && name !in files;
      if !ok { faults := faults + 1; }
      if ok || (made && name !in files) {
        var zeros: ByteSeq := seq(length, _ => 0);
        assert |zeros| == length;
        var first: ByteSeq :| |first| == length;
        ghost var images := iset b: ByteSeq | |b| == length;
        assert first in images;
        EntryReplaced(Now(), name, first, images);
        files, durable, log := files[name := first], durable[name := images], log + [durable[name := images]];
      }
    }

    /** A store of a 64-bit word through the mapping. */
    method WriteWord(name: Name, off: nat, w: ByteSeq)
      requires Valid() && name in files && off + |w| <= |files[name]|
      modifies this`files, this`durable, this`log
      ensures Valid()
      ensures files == old(files)[name := Overwrite(old(files)[name], off, w)]
      ensures durable == old(durable)[name := AfterWord(old(durable)[name], off, w)]
      ensures log == old(log) + [durable]
      ensures Touches(Now(), old(Now()), name)
    {
      ghost var images := AfterWord(durable[name], off, w);
      WordSound(files[name], durable[name], off, w);
      EntryReplaced(Now(), name, Overwrite(files[name], off, w), images);
      files, durable, log :=
        files[name := Overwrite(files[name], off, w)], durable[name := images], log + [durable[name := images]];
    }

    /** A store of ordinary data through the mapping. */
    method WriteData(name: Name, off: nat, w: ByteSeq)
      requires Valid() && name in files && off + |w| <= |files[name]|
      modifies this`files, this`durable, this`log
      ensures Valid()
      ensures files == old(files)[name := Overwrite(old(files)[name], off, w)]
      ensures durable == old(durable)[name := AfterTorn(old(durable)[name], off, w)]
      ensures log == old(log) + [durable]
      ensures Touches(Now(), old(Now()), name)
    {
      ghost var images := AfterTorn(durable[name], off, w);
      TornSound(files[name], durable[name], off, w);
      EntryReplaced(Now(), name, Overwrite(files[name], off, w), images);
      files, durable, log :=
        files[name := Overwrite(files[name], off, w)], durable[name := images], log + [durable[name := images]];
    }

    /** A flush that may fail, and then makes nothing certain. */
    method TryFlush(name: Name, off: nat, length: nat) returns (ok: bool)
      requires Valid() && name in files && off <= |files[name]|
      modifies this`durable, this`log, this`faults
      ensures Valid()
      ensures ok ==> durable == old(durable)[name := AfterFlush(old(durable)[name], files[name], off,
                                                                FlushEnd(files[name], off, length))]
      ensures !ok ==> durable == old(durable)
      ensures log == old(log) + [durable]
      ensures faults == old(faults) + if ok then 0 else 1
      ensures Touches(Now(), old(Now()), name)
    {
      ok := *;
      if ok {
        Flush(name, off, length);
      } else {
        faults := faults + 1;
        EntryReplaced(Now(), name, files[name], durable[name]);
        assert durable[name := durable[name]] == durable && files[name := files[name]] == files;
        log := log + [durable];
      }
    }

    /** Flushes a range, cut off at the end of the file. */
    method Flush(name: Name, off: nat, length: nat)
      requires Valid() && name in files && off <= |files[name]|
      modifies this`durable, this`log
      ensures Valid()
      ensures durable == old(durable)[name := AfterFlush(old(durable)[name], files[name], off,
                                                         FlushEnd(files[name], off, length))]
      ensures log == old(log) + [durable]
      ensures Touches(Now(), old(Now()), name)
    {
      ghost var end := FlushEnd(files[name], off, length);
      ghost var images := AfterFlush(durable[name], files[name], off, end);
      FlushSound(files[name], durable[name], off, end);
      EntryReplaced(Now(), name, files[name], images);
      assert files[name := files[name]] == files;
      durable, log := durable[name := images], log + [durable[name := images]];
    }
  }

  function FlushEnd(mem: ByteSeq, off: nat, length: nat): (end: nat)
    requires off <= |mem|
    ensures off <= end <= |mem|
  {
    if off + length <= |mem| then off + length else |mem|
  }
}
