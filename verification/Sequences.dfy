/** Facts about slices and subsequences. */
module Sequences {
  lemma Longer<T>(s: seq<T>, from: nat, to: nat)
    requires from <= to < |s|
    ensures s[from..to + 1] == s[from..to] + [s[to]]
  {
  }

  /** `picked` is what stands in `all` at the ascending indices `at`. */
  ghost predicate PickedAt<T>(all: seq<T>, at: seq<nat>, picked: seq<T>) {
    && |at| == |picked|
    && (forall i, j :: 0 <= i < j < |at| ==> at[i] < at[j])
    && forall k :: 0 <= k < |at| ==> at[k] < |all| && picked[k] == all[at[k]]
  }

  lemma PickedOneMore<T>(all: seq<T>, at: seq<nat>, picked: seq<T>, x: T)
    requires PickedAt(all, at, picked)
    ensures PickedAt(all + [x], at, picked) && PickedAt(all + [x], at + [|all|], picked + [x])
  {
  }

  /** The indices after one more element in front. */
  function OneFurther(at: seq<nat>): (r: seq<nat>)
    ensures |r| == |at| && forall k :: 0 <= k < |at| ==> r[k] == at[k] + 1
  {
    seq(|at|, k requires 0 <= k < |at| => at[k] + 1)
  }

  lemma OneFurtherHas(at: seq<nat>, i: nat)
    ensures i in OneFurther(at) <==> i > 0 && i - 1 in at
  {
    if i > 0 && i - 1 in at {
      var k :| 0 <= k < |at| && at[k] == i - 1;
      assert OneFurther(at)[k] == i;
    }
  }

  lemma PickedOneFurther<T>(all: seq<T>, at: seq<nat>, picked: seq<T>)
    requires all != [] && PickedAt(all[1..], at, picked)
    ensures PickedAt(all, OneFurther(at), picked) && PickedAt(all, [0] + OneFurther(at), [all[0]] + picked)
  {
  }

  lemma Tails<T>(s: seq<T>, from: nat, to: nat)
    requires from <= to <= |s|
    ensures s[from..][..to - from] == s[from..to] && s[from..][to - from..] == s[to..]
  {
  }
}
