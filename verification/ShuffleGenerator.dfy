/** `ShuffleGenerator`: a lazy Fisher-Yates shuffle of 0..n-1 over a sparse map. The random choices
    are inputs. */
module ShuffleGenerators {

  /** The array the generator avoids allocating: positions without an entry hold themselves. */
  function Dense(selected: map<nat, nat>, count: nat): (a: seq<nat>)
    ensures |a| == count
  {
    seq(count, i => if i in selected then selected[i] else i)
  }

  /** One step of the dense shuffle: the chosen element leaves, the last one takes its place. */
  function Removed(a: seq<nat>, j: nat): seq<nat>
    requires j < |a|
  {
    a[j := a[|a| - 1]][..|a| - 1]
  }

  function Identity(n: nat): (a: seq<nat>)
    ensures |a| == n && forall i :: 0 <= i < n ==> a[i] == i
  {
    seq(n, i => i)
  }

  class ShuffleGenerator {
    const N: nat
    var count: nat
    var selected: map<nat, nat>

    constructor (n: nat)
      ensures N == n && count == n && Dense(selected, count) == Identity(n)
    {
      N, count, selected := n, n, map[];
    }

    /** `operator()`: the drawn value, or failure when the sequence has ended. `choice` is what the
        distribution returns for the range 0..count-1. */
    method Next(choice: nat) returns (ok: bool, value: nat)
      requires count > 0 ==> choice < count
      modifies this
      ensures ok == (old(count) > 0)
      ensures ok ==> count == old(count) - 1
      ensures ok ==> value == Dense(old(selected), old(count))[choice]
      ensures ok ==> Dense(selected, count) == Removed(Dense(old(selected), old(count)), choice)
      ensures !ok ==> count == old(count) && selected == old(selected)
    {
      ok, value := count > 0, 0;
      if !ok { return; }
      count := count - 1;
      value := choice;
      var rval := if count in selected then selected[count] else count;
      if value in selected {
        value := selected[value];
        selected := selected[choice := rval];
      } else {
        selected := selected[value := rval];
      }
    }

    method Empty() returns (b: bool)
      ensures b == (count == 0)
    {
      b := count == 0;
    }

    method Reset()
      modifies this
      ensures count == N && Dense(selected, count) == Identity(N)
    {
      count := N;
      selected := map[];
    }
  }

  // -------------------------------------------------------------- runs of the dense shuffle

  /** One choice in range for each remaining call. */
  ghost predicate ValidChoices(n: nat, choices: seq<nat>)
    decreases |choices|
  {
    choices == [] || (choices[0] < n && ValidChoices(n - 1, choices[1..]))
  }

  /** What the calls with these choices return. */
  ghost function Draws(a: seq<nat>, choices: seq<nat>): (r: seq<nat>)
    requires ValidChoices(|a|, choices)
    ensures |r| == |choices| <= |a|
    decreases |choices|
  {
    if choices == [] then [] else [a[choices[0]]] + Draws(Removed(a, choices[0]), choices[1..])
  }

  /** What is left after them. */
  ghost function Left(a: seq<nat>, choices: seq<nat>): (r: seq<nat>)
    requires ValidChoices(|a|, choices)
    decreases |choices|
  {
    if choices == [] then a else Left(Removed(a, choices[0]), choices[1..])
  }

  /** Calls of the generator, one per choice, return what the dense shuffle returns. */
  method Draw(g: ShuffleGenerator, choices: seq<nat>) returns (values: seq<nat>)
    requires ValidChoices(g.count, choices)
    modifies g
    ensures values == Draws(old(Dense(g.selected, g.count)), choices)
    ensures g.count == old(g.count) - |choices|
    ensures Dense(g.selected, g.count) == Left(old(Dense(g.selected, g.count)), choices)
    decreases |choices|
  {
    values := [];
    if choices != [] {
      var _, value := g.Next(choices[0]);
      var rest := Draw(g, choices[1..]);
      values := [value] + rest;
    }
  }

  lemma RemovedMultiset(a: seq<nat>, j: nat)
    requires j < |a|
    ensures multiset(a) == multiset{a[j]} + multiset(Removed(a, j))
  {
    var n := |a| - 1;
    assert a == a[..n] + [a[n]];
    if j < n {
      assert Removed(a, j) == a[..n][j := a[n]];
    } else {
      assert Removed(a, j) == a[..n];
    }
  }

  /** Conservation: values drawn and values left are together the starting values. */
  lemma {:induction false} DrawsConserve(a: seq<nat>, choices: seq<nat>)
    requires ValidChoices(|a|, choices)
    ensures multiset(Draws(a, choices)) + multiset(Left(a, choices)) == multiset(a)
    ensures |Left(a, choices)| == |a| - |choices|
    decreases |choices|
  {
    if choices != [] {
      RemovedMultiset(a, choices[0]);
      DrawsConserve(Removed(a, choices[0]), choices[1..]);
      assert Draws(a, choices) == [a[choices[0]]] + Draws(Removed(a, choices[0]), choices[1..]);
    }
  }

  /** A full run returns a permutation of 0..n-1, whatever the choices. */
  lemma FullRunIsPermutation(n: nat, choices: seq<nat>)
    requires ValidChoices(n, choices) && |choices| == n
    ensures multiset(Draws(Identity(n), choices)) == multiset(Identity(n))
  {
    DrawsConserve(Identity(n), choices);
    assert Left(Identity(n), choices) == [];
  }

  ghost predicate Distinct(a: seq<nat>) {
    forall i, j :: 0 <= i < j < |a| ==> a[i] != a[j]
  }

  lemma RemovedDistinct(a: seq<nat>, j: nat)
    requires j < |a| && Distinct(a)
    ensures Distinct(Removed(a, j))
  {
  }

  /** Different choices give different results. */
  lemma {:induction false} ChoicesAreDetermined(a: seq<nat>, c: seq<nat>, d: seq<nat>)
    requires Distinct(a) && ValidChoices(|a|, c) && ValidChoices(|a|, d) && |c| == |d|
    requires Draws(a, c) == Draws(a, d)
    ensures c == d
    decreases |c|
  {
    if c != [] {
      var r, s := Draws(a, c), Draws(a, d);
      assert r[0] == a[c[0]] && s[0] == a[d[0]];
      assert c[0] == d[0];
      RemovedDistinct(a, c[0]);
      assert r[1..] == Draws(Removed(a, c[0]), c[1..]);
      assert s[1..] == Draws(Removed(a, d[0]), d[1..]);
      ChoicesAreDetermined(Removed(a, c[0]), c[1..], d[1..]);
    }
  }

  lemma RestIsPermutation(a: seq<nat>, p: seq<nat>) returns (j: nat)
    requires multiset(p) == multiset(a) && p != []
    ensures j < |a| && a[j] == p[0] && multiset(p[1..]) == multiset(Removed(a, j))
  {
    assert p[0] in multiset(p);
    j :| 0 <= j < |a| && a[j] == p[0];
    RemovedMultiset(a, j);
    assert p == [p[0]] + p[1..];
    Cancel(multiset{p[0]}, multiset(p[1..]), multiset(Removed(a, j)));
  }

  lemma Cancel(x: multiset<nat>, y: multiset<nat>, z: multiset<nat>)
    requires x + y == x + z
    ensures y == z
  {
    assert (x + y) - x == y && (x + z) - x == z;
  }

  /** Every permutation is the result of some choices. */
  lemma {:induction false} EveryPermutationIsDrawn(a: seq<nat>, p: seq<nat>) returns (choices: seq<nat>)
    requires multiset(p) == multiset(a)
    ensures ValidChoices(|a|, choices) && |choices| == |a| && Draws(a, choices) == p
    decreases |p|
  {
    if p == [] {
      assert |multiset(a)| == |a| == 0;
      choices := [];
    } else {
      var j := RestIsPermutation(a, p);
      var rest := EveryPermutationIsDrawn(Removed(a, j), p[1..]);
      choices := [j] + rest;
      assert choices[1..] == rest;
    }
  }

  /** Exactly one sequence of choices leads to each permutation, so uniform independent choices make
      every permutation equally likely. */
  lemma UniformlyShuffled(n: nat, p: seq<nat>)
    requires multiset(p) == multiset(Identity(n))
    ensures exists c: seq<nat> ::
      && ValidChoices(n, c) && |c| == n && Draws(Identity(n), c) == p
      && forall d: seq<nat> :: ValidChoices(n, d) && |d| == n && Draws(Identity(n), d) == p ==> d == c
  {
    var c := EveryPermutationIsDrawn(Identity(n), p);
    forall d: seq<nat> | ValidChoices(n, d) && |d| == n && Draws(Identity(n), d) == p ensures d == c {
      ChoicesAreDetermined(Identity(n), d, c);
    }
  }
}
