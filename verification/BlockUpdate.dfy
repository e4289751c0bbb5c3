/** The handling of a `localBlockchainUpdated` notification: the heights to request, and the
    sorting of the reply into new and orphaned blocks with the choice of the new known top. */
module BlockUpdate {

  import opened Sequences

  /** What the classification looks at in `BlockDetails`. */
  datatype Block = Block(height: nat, hash: nat, isOrphaned: bool)

  const U32_MAX: nat := 0xFFFF_FFFF

  function Flatten(groups: seq<seq<Block>>): seq<Block> {
    if groups == [] then [] else Flatten(groups[..|groups| - 1]) + groups[|groups| - 1]
  }

  /** The orphaned blocks, in order. */
  function Orphans(blocks: seq<Block>): seq<Block> {
    if blocks == [] then []
    else
      var last := blocks[|blocks| - 1];
      Orphans(blocks[..|blocks| - 1]) + if last.isOrphaned then [last] else []
  }

  /** A main-chain block above the known top, or with another hash. */
  predicate IsNew(b: Block, known: Block) {
    !b.isOrphaned && (b.height > known.height || b.hash != known.hash)
  }

  /** The new main-chain blocks, in order. */
  function News(blocks: seq<Block>, known: Block): seq<Block> {
    if blocks == [] then []
    else
      var last := blocks[|blocks| - 1];
      News(blocks[..|blocks| - 1], known) + if IsNew(last, known) then [last] else []
  }

  lemma {:induction false} OrphansPicked(blocks: seq<Block>) returns (at: seq<nat>)
    ensures PickedAt(blocks, at, Orphans(blocks))
    ensures forall i :: 0 <= i < |blocks| ==> (i in at <==> blocks[i].isOrphaned)
  {
    at := [];
    if blocks != [] {
      var n := |blocks| - 1;
      at := OrphansPicked(blocks[..n]);
      PickedOneMore(blocks[..n], at, Orphans(blocks[..n]), blocks[n]);
      assert blocks == blocks[..n] + [blocks[n]];
      at := at + if blocks[n].isOrphaned then [n] else [];
    }
  }

  lemma {:induction false} NewsPicked(blocks: seq<Block>, known: Block) returns (at: seq<nat>)
    ensures PickedAt(blocks, at, News(blocks, known))
    ensures forall i :: 0 <= i < |blocks| ==> (i in at <==> IsNew(blocks[i], known))
  {
    at := [];
    if blocks != [] {
      var n := |blocks| - 1;
      at := NewsPicked(blocks[..n], known);
      PickedOneMore(blocks[..n], at, News(blocks[..n], known), blocks[n]);
      assert blocks == blocks[..n] + [blocks[n]];
      at := at + if IsNew(blocks[n], known) then [n] else [];
    }
  }

  /** No main-chain block with the hash of the known top is above it. */
  ghost predicate TopAgrees(blocks: seq<Block>, known: Block) {
    forall i :: 0 <= i < |blocks| && !blocks[i].isOrphaned && blocks[i].hash == known.hash ==>
      blocks[i].height <= known.height
  }

  /** Every block of a reply goes to one place: `orphans` and `news` are the places of the blocks of
      the two lists, each list in the order and multiplicity of the reply. The orphaned blocks are
      all there; the new ones are, exactly when the known hash has no higher block, the
      others without the known top, whatever their height. */
  lemma EveryBlockSorted(blocks: seq<Block>, known: Block) returns (orphans: seq<nat>, news: seq<nat>)
    ensures PickedAt(blocks, orphans, Orphans(blocks)) && PickedAt(blocks, news, News(blocks, known))
    ensures forall i :: 0 <= i < |blocks| ==> (i in orphans <==> blocks[i].isOrphaned)
    ensures TopAgrees(blocks, known) <==>
      forall i :: 0 <= i < |blocks| ==> (i in news <==> !blocks[i].isOrphaned && blocks[i].hash != known.hash)
    ensures forall i :: 0 <= i < |blocks| ==> i in orphans || i in news || blocks[i].hash == known.hash
  {
    orphans := OrphansPicked(blocks);
    news := NewsPicked(blocks, known);
  }

  function MaxHeight(blocks: seq<Block>): nat {
    if blocks == [] then 0
    else
      var n := |blocks| - 1;
      var m := MaxHeight(blocks[..n]);
      if m < blocks[n].height then blocks[n].height else m
  }

  lemma {:induction false} MaxHeightBounds(blocks: seq<Block>)
    ensures forall i :: 0 <= i < |blocks| ==> blocks[i].height <= MaxHeight(blocks)
  {
    if blocks != [] {
      var front := blocks[..|blocks| - 1];
      MaxHeightBounds(front);
      assert forall i :: 0 <= i < |front| ==> blocks[i] == front[i];
    }
  }

  /** Where the search for the top starts over for the last time: the first block of the greatest
      height (see TopStartIsFirstMax). */
  function TopStart(blocks: seq<Block>): (k: nat)
    ensures k <= |blocks|
  {
    if blocks == [] then 0
    else
      var n := |blocks| - 1;
      if MaxHeight(blocks[..n]) < blocks[n].height then n else TopStart(blocks[..n])
  }

  lemma {:induction false} TopStartIsFirstMax(blocks: seq<Block>)
    requires MaxHeight(blocks) > 0
    ensures TopStart(blocks) < |blocks| && blocks[TopStart(blocks)].height == MaxHeight(blocks)
    ensures forall i :: 0 <= i < TopStart(blocks) ==> blocks[i].height < MaxHeight(blocks)
  {
    var n := |blocks| - 1;
    if MaxHeight(blocks[..n]) < blocks[n].height {
      MaxHeightBounds(blocks[..n]);
      assert forall i :: 0 <= i < n ==> blocks[..n][i] == blocks[i];
    } else {
      TopStartIsFirstMax(blocks[..n]);
    }
  }

  /** The first main-chain block from position `from` on. */
  ghost predicate IsFirstMain(blocks: seq<Block>, from: nat, b: Block) {
    exists k :: from <= k < |blocks| && blocks[k] == b && !b.isOrphaned
                && forall i :: from <= i < k ==> blocks[i].isOrphaned
  }

  ghost predicate NoMain(blocks: seq<Block>, from: nat) {
    forall i :: from <= i < |blocks| ==> blocks[i].isOrphaned
  }

  class ChainMirror {
    var knownTop: Block
    var knownTopHeight: nat

    constructor (top: Block)
      ensures knownTop == top && knownTopHeight == top.height
    {
      knownTop, knownTopHeight := top, top.height;
    }

    /** The heights to ask for: from the known top up to the announced one. */
    method RequestHeights(height: nat) returns (heights: seq<nat>)
      requires knownTopHeight <= height < U32_MAX
      modifies this`knownTopHeight
      ensures knownTopHeight == height
      ensures |heights| == height - old(knownTopHeight) + 1
      ensures forall k :: 0 <= k < |heights| ==> heights[k] == old(knownTopHeight) + k
    {
      heights := [];
      var i := knownTopHeight;
      while i <= height
        invariant knownTopHeight <= i <= height + 1
        invariant |heights| == i - knownTopHeight
        invariant forall k :: 0 <= k < |heights| ==> heights[k] == knownTopHeight + k
      {
        heights := heights + [i];
        i := i + 1;
      }
      knownTopHeight := height;
    }

    /** A run of notifications: what each of them asks for. */
    method RequestAll(tops: seq<nat>) returns (requests: seq<seq<nat>>)
      requires Ascending([knownTopHeight] + tops) && forall i :: 0 <= i < |tops| ==> tops[i] < U32_MAX
      modifies this`knownTopHeight
      ensures |requests| == |tops|
      ensures forall i, h :: 0 <= i < |tops| ==> (h in requests[i] <==> Asked([old(knownTopHeight)] + tops, i, h))
    {
      requests := [];
      ghost var all := [knownTopHeight] + tops;
      for i := 0 to |tops|
        invariant knownTopHeight == all[i] && |requests| == i
        invariant forall j, h :: 0 <= j < i ==> (h in requests[j] <==> Asked(all, j, h))
      {
        assert all[i] <= all[i + 1] == tops[i];
        var heights := RequestHeights(tops[i]);
        HeightsAsked(all, i, heights);
        requests := requests + [heights];
      }
    }

    /** The callback's classification. It fails, changing nothing, when no main-chain block follows
        the first block of the greatest height. */
    method BlocksArrived(groups: seq<seq<Block>>) returns (ok: bool, newBlocks: seq<Block>, orphaned: seq<Block>)
      modifies this`knownTop
      ensures ok == !NoMain(Flatten(groups), TopStart(Flatten(groups)))
      ensures ok ==> IsFirstMain(Flatten(groups), TopStart(Flatten(groups)), knownTop)
      ensures !ok ==> knownTop == old(knownTop)
      ensures orphaned == Orphans(Flatten(groups))
      ensures newBlocks == News(Flatten(groups), old(knownTop))
    {
      var t := ClassifyAll(groups, knownTop);
      ok, newBlocks, orphaned := t.gotTop, t.newBlocks, t.orphaned;
      if ok {
        knownTop := t.top;
      }
    }
  }

  // ------------------------------------------------------------ heights that never arrive

  ghost predicate Ascending(tops: seq<nat>) {
    forall i, j :: 0 <= i <= j < |tops| ==> tops[i] <= tops[j]
  }

  /** Request `i` of a run asks for this height. */
  ghost predicate Asked(tops: seq<nat>, i: nat, h: nat) {
    i + 1 < |tops| && tops[i] <= h <= tops[i + 1]
  }

  lemma HeightsAsked(tops: seq<nat>, i: nat, heights: seq<nat>)
    requires i + 1 < |tops| && tops[i] <= tops[i + 1] && |heights| == tops[i + 1] - tops[i] + 1
    requires forall k :: 0 <= k < |heights| ==> heights[k] == tops[i] + k
    ensures forall h :: h in heights <==> Asked(tops, i, h)
  {
    forall h: nat | Asked(tops, i, h)
      ensures h in heights
    {
      assert heights[h - tops[i]] == h;
    }
  }

  /** The known height moves before the reply. So a height is asked for again only if it is the last of
      its request and there is a later one. */
  lemma AskedAgain(tops: seq<nat>, i: nat, h: nat)
    requires Ascending(tops) && Asked(tops, i, h)
    ensures (exists j :: i < j && Asked(tops, j, h)) <==> i + 2 < |tops| && h == tops[i + 1]
  {
    if i + 2 < |tops| && h == tops[i + 1] {
      assert Asked(tops, i + 1, h);
    }
  }

  /** Some request for this height was answered. */
  ghost predicate Arrives(tops: seq<nat>, answered: seq<bool>, h: nat)
    requires |tops| == |answered| + 1
  {
    exists i :: 0 <= i < |answered| && answered[i] && Asked(tops, i, h)
  }

  /** Request `i` was answered, or it asked for nothing that its neighbours do not bring. */
  ghost predicate Covered(tops: seq<nat>, answered: seq<bool>, i: nat)
    requires |tops| == |answered| + 1 && i < |answered|
  {
    answered[i]
    || (tops[i + 1] <= tops[i] + 1 && Arrives(tops, answered, tops[i]) && Arrives(tops, answered, tops[i + 1]))
  }

  /** Every height of a run arrives if and only if no failed request asked for a height strictly between
      two tops, and the tops it shares with its neighbours arrive through them. */
  lemma AllArriveExact(tops: seq<nat>, answered: seq<bool>)
    requires Ascending(tops) && |tops| == |answered| + 1
    ensures (forall i, h :: Asked(tops, i, h) ==> Arrives(tops, answered, h))
       <==> forall i :: 0 <= i < |answered| ==> Covered(tops, answered, i)
  {
    if forall i :: 0 <= i < |answered| ==> Covered(tops, answered, i) {
      forall i, h | Asked(tops, i, h)
        ensures Arrives(tops, answered, h)
      {
        assert Covered(tops, answered, i);
      }
    }
    if forall i, h :: Asked(tops, i, h) ==> Arrives(tops, answered, h) {
      forall i | 0 <= i < |answered|
        ensures Covered(tops, answered, i)
      {
        assert tops[i] <= tops[i + 1];
        assert Asked(tops, i, tops[i]) && Asked(tops, i, tops[i + 1]);
        if tops[i + 1] > tops[i] + 1 {
          assert Asked(tops, i, tops[i] + 1);
          AskedInside(tops, i, tops[i] + 1);
        }
      }
    }
  }

  /** A height strictly between two tops is asked for once. */
  lemma AskedInside(tops: seq<nat>, i: nat, h: nat)
    requires Ascending(tops) && i + 1 < |tops| && tops[i] < h < tops[i + 1]
    ensures forall j :: Asked(tops, j, h) ==> j == i
  {
  }

  /** The two nested loops over the reply. */
  method ClassifyAll(groups: seq<seq<Block>>, known: Block) returns (t: Tally)
    ensures Classified(Flatten(groups), known, t)
  {
    t := Tally(0, false, known, [], []);
    ghost var seen: seq<Block> := [];
    for g := 0 to |groups|
      invariant seen == Flatten(groups[..g])
      invariant Classified(seen, known, t)
    {
      t := ClassifyGroup(groups[g], known, t, seen);
      FlattenMore(groups, g);
      seen := seen + groups[g];
    }
    assert groups[..|groups|] == groups;
  }

  lemma FlattenMore(groups: seq<seq<Block>>, g: nat)
    requires g < |groups|
    ensures Flatten(groups[..g + 1]) == Flatten(groups[..g]) + groups[g]
  {
    assert groups[..g + 1][..g] == groups[..g];
  }

  /** The inner loop. */
  method ClassifyGroup(group: seq<Block>, known: Block, before: Tally, ghost lower: seq<Block>) returns (t: Tally)
    requires Classified(lower, known, before)
    ensures Classified(lower + group, known, t)
  {
    t := before;
    assert lower + group[..0] == lower;
    for j := 0 to |group|
      invariant Classified(lower + group[..j], known, t)
    {
      t := Classify(group[j], known, t, lower + group[..j]);
      assert lower + group[..j + 1] == lower + group[..j] + [group[j]];
    }
    assert group[..|group|] == group;
  }

  /** The variables of the loop. */
  datatype Tally = Tally(topHeight: nat, gotTop: bool, top: Block, newBlocks: seq<Block>, orphaned: seq<Block>)

  /** The loop body. */
  method Classify(block: Block, known: Block, before: Tally, ghost seen: seq<Block>) returns (t: Tally)
    requires Classified(seen, known, before)
    ensures Classified(seen + [block], known, t)
  {
    t := before;
    if t.topHeight < block.height {
      t := t.(topHeight := block.height, gotTop := false);
    }
    if block.isOrphaned {
      t := t.(orphaned := t.orphaned + [block]);
    } else {
      if block.height > known.height || block.hash != known.hash {
        t := t.(newBlocks := t.newBlocks + [block]);
      }
      if !t.gotTop {
        t := t.(top := block, gotTop := true);
      }
    }
    ClassifyOne(seen, block, known, before);
  }

  /** The state of the loop after the blocks `seen`. */
  ghost predicate Classified(seen: seq<Block>, known: Block, t: Tally) {
    && t.topHeight == MaxHeight(seen)
    && t.newBlocks == News(seen, known)
    && t.orphaned == Orphans(seen)
    && (t.gotTop ==> IsFirstMain(seen, TopStart(seen), t.top))
    && (!t.gotTop ==> NoMain(seen, TopStart(seen)))
  }

  lemma ClassifyOne(seen: seq<Block>, b: Block, known: Block, t: Tally)
    requires Classified(seen, known, t)
    ensures
      var higher := t.topHeight < b.height;
      var got := t.gotTop && !higher;
      Classified(seen + [b], known,
                 Tally(if higher then b.height else t.topHeight, got || !b.isOrphaned,
                       if got || b.isOrphaned then t.top else b,
                       t.newBlocks + (if IsNew(b, known) then [b] else []),
                       t.orphaned + (if b.isOrphaned then [b] else [])))
  {
    var all := seen + [b];
    assert all[..|seen|] == seen;
    var start := TopStart(all);
    var top := t.top;
    if t.gotTop && !(t.topHeight < b.height) {
      var k :| start <= k < |seen| && seen[k] == top && !top.isOrphaned
               && forall i :: start <= i < k ==> seen[i].isOrphaned;
      assert all[k] == top && forall i :: start <= i < k ==> all[i].isOrphaned;
    } else if !b.isOrphaned {
      assert all[|seen|] == b && forall i :: start <= i < |seen| ==> all[i].isOrphaned;
    }
  }

  // ------------------------------------------------- replies grouped by ascending height

  /** Group `k` holds only blocks of the `k`-th requested height. */
  ghost predicate GroupedByHeight(groups: seq<seq<Block>>, base: nat) {
    forall k, j :: 0 <= k < |groups| && 0 <= j < |groups[k]| ==> groups[k][j].height == base + k
  }

  lemma {:induction false} FlattenHeights(groups: seq<seq<Block>>, base: nat)
    requires GroupedByHeight(groups, base)
    ensures forall i :: 0 <= i < |Flatten(groups)| ==> base <= Flatten(groups)[i].height < base + |groups|
  {
    if groups != [] {
      FlattenHeights(groups[..|groups| - 1], base);
    }
  }

  lemma {:induction false} FlattenEmptyTail(groups: seq<seq<Block>>, n: nat)
    requires n <= |groups| && forall k :: n <= k < |groups| ==> groups[k] == []
    ensures Flatten(groups) == Flatten(groups[..n])
  {
    if n < |groups| {
      FlattenEmptyTail(groups[..|groups| - 1], n);
      assert groups[..|groups| - 1][..n] == groups[..n];
    } else {
      assert groups[..n] == groups;
    }
  }

  /** For a reply grouped by height whose highest non-empty group is number `g`, the search for the
      top is a search of exactly that group. */
  lemma TopIsInHighestGroup(groups: seq<seq<Block>>, base: nat, g: nat)
    requires GroupedByHeight(groups, base)
    requires g < |groups| && groups[g] != [] && forall k :: g < k < |groups| ==> groups[k] == []
    ensures NoMain(Flatten(groups), TopStart(Flatten(groups))) <==> NoMain(groups[g], 0)
    ensures forall b :: IsFirstMain(Flatten(groups), TopStart(Flatten(groups)), b) <==> IsFirstMain(groups[g], 0, b)
  {
    var lower := Flatten(groups[..g]);
    SplitAtGroup(groups, base, g);
    NoMainShifted(lower, groups[g]);
    forall b ensures IsFirstMain(lower + groups[g], |lower|, b) <==> IsFirstMain(groups[g], 0, b) {
      FirstMainShifted(lower, groups[g], b);
    }
  }

  lemma SplitAtGroup(groups: seq<seq<Block>>, base: nat, g: nat)
    requires GroupedByHeight(groups, base)
    requires g < |groups| && groups[g] != [] && forall k :: g < k < |groups| ==> groups[k] == []
    ensures Flatten(groups) == Flatten(groups[..g]) + groups[g]
    ensures TopStart(Flatten(groups)) == |Flatten(groups[..g])|
  {
    FlattenEmptyTail(groups, g + 1);
    assert groups[..g + 1][..g] == groups[..g];
    FlattenHeights(groups[..g], base);
    TopStartOfGroup(Flatten(groups[..g]), groups[g], base + g);
  }

  lemma NoMainShifted(lower: seq<Block>, group: seq<Block>)
    ensures NoMain(lower + group, |lower|) <==> NoMain(group, 0)
  {
    var all := lower + group;
    assert forall i :: 0 <= i < |group| ==> all[|lower| + i] == group[i];
    assert NoMain(all, |lower|) ==> NoMain(group, 0);
  }

  lemma TopStartOfGroup(lower: seq<Block>, group: seq<Block>, height: nat)
    requires forall i :: 0 <= i < |lower| ==> lower[i].height < height
    requires group != [] && forall j :: 0 <= j < |group| ==> group[j].height == height
    ensures TopStart(lower + group) == |lower|
  {
    var all := lower + group;
    assert all[|lower|].height == height;
    if height == 0 {
      assert |lower| > 0 ==> lower[0].height < 0;
      ZeroHeights(all);
    } else {
      MaxHeightBounds(all);
      TopStartIsFirstMax(all);
    }
  }

  lemma {:induction false} ZeroHeights(blocks: seq<Block>)
    requires forall i :: 0 <= i < |blocks| ==> blocks[i].height == 0
    ensures TopStart(blocks) == 0
  {
    if blocks != [] {
      ZeroHeights(blocks[..|blocks| - 1]);
    }
  }

  lemma FirstMainShifted(lower: seq<Block>, group: seq<Block>, b: Block)
    ensures IsFirstMain(lower + group, |lower|, b) <==> IsFirstMain(group, 0, b)
  {
    var all, n := lower + group, |lower|;
    if IsFirstMain(all, n, b) {
      var k :| n <= k < |all| && all[k] == b && !b.isOrphaned && forall i :: n <= i < k ==> all[i].isOrphaned;
      assert group[k - n] == b;
      forall i | 0 <= i < k - n ensures group[i].isOrphaned { assert all[n + i].isOrphaned; }
    }
    if IsFirstMain(group, 0, b) {
      var k :| 0 <= k < |group| && group[k] == b && !b.isOrphaned && forall i :: 0 <= i < k ==> group[i].isOrphaned;
      assert all[n + k] == b;
      forall i | n <= i < n + k ensures all[i].isOrphaned { assert group[i - n].isOrphaned; }
    }
  }
}
