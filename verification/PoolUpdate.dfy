/** The pool update protocol of `BlockchainExplorer`: a three-state guard changed by weak
    compare-and-swap, a chain of two asynchronous requests, and a local mirror of the node's pool.

    Any number of threads run `poolChanged` at once; each atomic access to shared state is a step.
    Every request is answered exactly once, with a result or with an error. */
module PoolUpdate {

  import opened Sequences

  /** A transaction hash; only equality matters. */
  type Hash = nat

  datatype Guard = Idle | Updating | UpdateRequired

  /** Where one activity stands: a thread inside `poolChanged`, or a chain of requests. */
  datatype Activity =
    | Entering                                  // poolChanged was called
    | Loading                                   // about to load the guard in beginUpdate
    | Beginning(seen: Guard)                    // in the loop of beginUpdate
    | Preparing                                 // beginUpdate returned true
    | AwaitingDiff(sent: set<Hash>)             // first request sent
    | DiffReady(sent: set<Hash>, asOf: set<Hash>, added: seq<Hash>, removed: seq<Hash>) // answered
    | DiffFailed                                // first request answered with an error
    | AwaitingDetails(added: seq<Hash>, removed: seq<Hash>) // second request sent
    | Finishing                                 // about to load the guard in endUpdate
    | Ending(seen: Guard)                       // in the loop of endUpdate
  {
    /** Between a successful beginUpdate and the matching endUpdate. */
    predicate InChain() {
      Preparing? || AwaitingDiff? || DiffReady? || DiffFailed? || AwaitingDetails? || Finishing? || Ending?
    }

    /** Will ask the node for its pool, or make another chain do so, unless something fails. */
    predicate WillAsk() {
      Entering? || Loading? || (Beginning? && seen != UpdateRequired) || Preparing? || AwaitingDiff?
    }
  }

  /** `known`: knownPoolState. `pool`: the node's pool. `observed`: the pool as the observers can
      reconstruct it from their notifications. `enabled`: synchronized, with observers.
      `answered`: the node's pool at its last answer. `stale`: since that answer a notification was
      ignored or a request failed. `owed`: the hashes observers were not told about, or not told
      about again, because the second request failed. */
  datatype State = State(
    guard: Guard,
    known: set<Hash>,
    pool: set<Hash>,
    observed: set<Hash>,
    enabled: bool,
    answered: set<Hash>,
    stale: bool,
    owed: set<Hash>,
    at: map<nat, Activity>)

  function Elements(s: seq<Hash>): set<Hash> {
    set h | h in s
  }

  /** The hashes in exactly one of the two sets. */
  function Difference(a: set<Hash>, b: set<Hash>): set<Hash> {
    (a - b) + (b - a)
  }

  // ------------------------------------------------------------ applying the first reply

  /** The hashes of `raw` that are not yet in `known`, each once, in order. */
  function NewOnes(raw: seq<Hash>, known: set<Hash>): seq<Hash> {
    if raw == [] then []
    else if raw[0] in known then NewOnes(raw[1..], known)
    else [raw[0]] + NewOnes(raw[1..], known + {raw[0]})
  }

  /** The hashes of `removed` that are in `known`, each once, in order. */
  function GoneOnes(removed: seq<Hash>, known: set<Hash>): seq<Hash> {
    if removed == [] then []
    else if removed[0] in known then [removed[0]] + GoneOnes(removed[1..], known - {removed[0]})
    else GoneOnes(removed[1..], known)
  }

  lemma {:induction false} NewOnesExact(raw: seq<Hash>, known: set<Hash>)
    ensures Elements(NewOnes(raw, known)) == Elements(raw) - known
    ensures forall i, j :: 0 <= i < j < |NewOnes(raw, known)| ==> NewOnes(raw, known)[i] != NewOnes(raw, known)[j]
  {
    if raw != [] {
      assert raw == [raw[0]] + raw[1..];
      var known' := if raw[0] in known then known else known + {raw[0]};
      NewOnesExact(raw[1..], known');
      forall h ensures h in Elements(NewOnes(raw, known)) <==> h in Elements(raw) - known {
        assert h in Elements(NewOnes(raw[1..], known')) <==> h in Elements(raw[1..]) - known';
      }
      if raw[0] !in known {
        var rest := NewOnes(raw[1..], known');
        forall j | 0 <= j < |rest| ensures rest[j] != raw[0] {
          assert rest[j] in Elements(rest);
        }
      }
    }
  }

  lemma {:induction false} GoneOnesExact(removed: seq<Hash>, known: set<Hash>)
    ensures Elements(GoneOnes(removed, known)) == Elements(removed) * known
    ensures forall i, j :: 0 <= i < j < |GoneOnes(removed, known)| ==>
      GoneOnes(removed, known)[i] != GoneOnes(removed, known)[j]
  {
    if removed != [] {
      assert removed == [removed[0]] + removed[1..];
      var known' := known - {removed[0]};
      if removed[0] in known {
        GoneOnesExact(removed[1..], known');
        var rest := GoneOnes(removed[1..], known');
        forall h ensures h in Elements(GoneOnes(removed, known)) <==> h in Elements(removed) * known {
          assert h in Elements(rest) <==> h in Elements(removed[1..]) * known';
        }
        forall j | 0 <= j < |rest| ensures rest[j] != removed[0] {
          assert rest[j] in Elements(rest);
        }
      } else {
        GoneOnesExact(removed[1..], known);
        forall h ensures h in Elements(GoneOnes(removed, known)) <==> h in Elements(removed) * known {
          assert h in Elements(GoneOnes(removed[1..], known)) <==> h in Elements(removed[1..]) * known;
        }
      }
    }
  }

  /** Index `i` is the first with its hash. */
  predicate FirstOf(s: seq<Hash>, i: nat)
    requires i < |s|
  {
    s[i] !in s[..i]
  }

  lemma FirstOneFurther(s: seq<Hash>, i: nat)
    requires 0 < i < |s|
    ensures FirstOf(s, i) <==> FirstOf(s[1..], i - 1) && s[i] != s[0]
  {
    assert s[..i] == [s[0]] + s[1..][..i - 1];
  }

  /** The new hashes are, in the order of the reply, the first occurrences of those not known. */
  lemma {:induction false} NewOnesPicked(raw: seq<Hash>, known: set<Hash>) returns (at: seq<nat>)
    ensures PickedAt(raw, at, NewOnes(raw, known))
    ensures forall i :: 0 <= i < |raw| ==> (i in at <==> raw[i] !in known && FirstOf(raw, i))
  {
    at := [];
    if raw != [] {
      var unknown := raw[0] !in known;
      var known' := if unknown then known + {raw[0]} else known;
      var rest := NewOnesPicked(raw[1..], known');
      PickedOneFurther(raw, rest, NewOnes(raw[1..], known'));
      at := (if unknown then [0] else []) + OneFurther(rest);
      forall i | 0 <= i < |raw| ensures i in at <==> raw[i] !in known && FirstOf(raw, i) {
        OneFurtherHas(rest, i);
        if i > 0 {
          FirstOneFurther(raw, i);
        }
      }
    }
  }

  /** The gone hashes are, in the order of the reply, the first occurrences of those known. */
  lemma {:induction false} GoneOnesPicked(removed: seq<Hash>, known: set<Hash>) returns (at: seq<nat>)
    ensures PickedAt(removed, at, GoneOnes(removed, known))
    ensures forall i :: 0 <= i < |removed| ==> (i in at <==> removed[i] in known && FirstOf(removed, i))
  {
    at := [];
    if removed != [] {
      var hit := removed[0] in known;
      var known' := if hit then known - {removed[0]} else known;
      var rest := GoneOnesPicked(removed[1..], known');
      PickedOneFurther(removed, rest, GoneOnes(removed[1..], known'));
      at := (if hit then [0] else []) + OneFurther(rest);
      forall i | 0 <= i < |removed| ensures i in at <==> removed[i] in known && FirstOf(removed, i) {
        OneFurtherHas(rest, i);
        if i > 0 {
          FirstOneFurther(removed, i);
        }
      }
    }
  }

  /** The mirror and the two loops of the first callback. */
  class PoolMirror {
    var knownPoolState: set<Hash>

    method ApplyDifference(raw: seq<Hash>, removed: seq<Hash>) returns (added: seq<Hash>, gone: seq<Hash>)
      modifies this
      ensures knownPoolState == old(knownPoolState) + Elements(raw) - Elements(removed)
      ensures added == NewOnes(raw, old(knownPoolState))
      ensures gone == GoneOnes(removed, old(knownPoolState) + Elements(raw))
    {
      ghost var before := knownPoolState;
      added := [];
      for i := 0 to |raw|
        invariant knownPoolState == before + Elements(raw[..i])
        invariant NewOnes(raw, before) == added + NewOnes(raw[i..], knownPoolState)
      {
        assert raw[..i + 1] == raw[..i] + [raw[i]];
        assert raw[i..] == [raw[i]] + raw[i + 1..];
        if raw[i] !in knownPoolState {
          knownPoolState := knownPoolState + {raw[i]};
          added := added + [raw[i]];
        }
      }
      assert raw[..|raw|] == raw;
      ghost var middle := knownPoolState;
      gone := [];
      for i := 0 to |removed|
        invariant knownPoolState == middle - Elements(removed[..i])
        invariant GoneOnes(removed, middle) == gone + GoneOnes(removed[i..], knownPoolState)
      {
        assert removed[..i + 1] == removed[..i] + [removed[i]];
        assert removed[i..] == [removed[i]] + removed[i + 1..];
        if removed[i] in knownPoolState {
          gone := gone + [removed[i]];
          knownPoolState := knownPoolState - {removed[i]};
        }
      }
      assert removed[..|removed|] == removed;
    }
  }

  // ----------------------------------------------------------------------------- steps

  datatype Step =
    | PoolChanges(i: nat, pool': set<Hash>)     // the node's pool changes and poolChanged is called
    | Enable(on: bool)
    | ReadGate(i: nat)
    | LoadBegin(i: nat)
    | CasBegin(i: nat, spurious: bool)
    | SendFirst(i: nat)
    | NodeAnswers(i: nat, added: seq<Hash>, removed: seq<Hash>)
    | NodeFails(i: nat)
    | ApplyAnswer(i: nat)
    | GiveUp(i: nat)
    | Details(i: nat, ok: bool)
    | LoadEnd(i: nat)
    | CasEnd(i: nat, spurious: bool)

  predicate CanStep(s: State, step: Step) {
    match step
    case PoolChanges(i, _) => i !in s.at
    case Enable(_) => true
    case ReadGate(i) => i in s.at && s.at[i].Entering?
    case LoadBegin(i) => i in s.at && s.at[i].Loading?
    case CasBegin(i, _) => i in s.at && s.at[i].Beginning?
    case SendFirst(i) => i in s.at && s.at[i].Preparing?
    case NodeAnswers(i, added, removed) =>
      // the true symmetric difference between what was sent and the pool
      && i in s.at && s.at[i].AwaitingDiff?
      && Elements(added) == s.pool - s.at[i].sent
      && Elements(removed) == s.at[i].sent - s.pool
    case NodeFails(i) => i in s.at && s.at[i].AwaitingDiff?
    case ApplyAnswer(i) => i in s.at && s.at[i].DiffReady?
    case GiveUp(i) => i in s.at && s.at[i].DiffFailed?
    case Details(i, _) => i in s.at && s.at[i].AwaitingDetails?
    case LoadEnd(i) => i in s.at && s.at[i].Finishing?
    case CasEnd(i, _) => i in s.at && s.at[i].Ending?
  }

  function Do(s: State, step: Step): State
    requires CanStep(s, step)
  {
    match step
    case PoolChanges(i, pool') => s.(pool := pool', at := s.at[i := Entering])
    case Enable(on) => s.(enabled := on)
    case ReadGate(i) =>
      if s.enabled then s.(at := s.at[i := Loading]) else s.(at := s.at - {i}, stale := true)
    case LoadBegin(i) => s.(at := s.at[i := Beginning(s.guard)])
    case CasBegin(i, spurious) =>
      var seen := s.at[i].seen;
      if seen == UpdateRequired then s.(at := s.at - {i})                        // returns false
      else if s.guard != seen || spurious then s.(at := s.at[i := Beginning(s.guard)])
      else if seen == Idle then s.(guard := Updating, at := s.at[i := Preparing]) // returns true
      else s.(guard := UpdateRequired, at := s.at - {i})                         // returns false
    case SendFirst(i) => s.(at := s.at[i := AwaitingDiff(s.known)])
    case NodeAnswers(i, added, removed) =>
      s.(at := s.at[i := DiffReady(s.at[i].sent, s.pool, added, removed)],
         answered := s.pool, stale := false)
    case NodeFails(i) => s.(at := s.at[i := DiffFailed], stale := true)
    case ApplyAnswer(i) =>
      var a := s.at[i];
      s.(known := s.known + Elements(a.added) - Elements(a.removed),
         at := s.at[i := AwaitingDetails(NewOnes(a.added, s.known),
                                         GoneOnes(a.removed, s.known + Elements(a.added)))])
    case GiveUp(i) => s.(at := s.at[i := Finishing])
    case Details(i, ok) =>
      var a := s.at[i];
      var news := Elements(a.added) + Elements(a.removed);
      if ok then
        s.(observed := s.observed + Elements(a.added) - Elements(a.removed),
           owed := s.owed - news, at := s.at[i := Finishing])
      else
        s.(owed := Difference(s.owed, news), at := s.at[i := Finishing])
    case LoadEnd(i) => s.(at := s.at[i := Ending(s.guard)])
    case CasEnd(i, spurious) =>
      var seen := s.at[i].seen;
      if s.guard != seen || spurious then s.(at := s.at[i := Ending(s.guard)])
      else if seen == UpdateRequired then s.(guard := Idle, at := s.at[i := Entering]) // poolChanged again
      else s.(guard := Idle, at := s.at - {i})
  }

  ghost predicate Initial(s: State) {
    && s.guard == Idle && s.known == {} && s.observed == {} && s.at == map[]
    && s.owed == {} && s.answered == {} && s.stale == (s.pool != {})
  }

  ghost predicate LegalRun(s: State, steps: seq<Step>)
    decreases |steps|
  {
    steps == [] || (CanStep(s, steps[0]) && LegalRun(Do(s, steps[0]), steps[1..]))
  }

  /** The state after the first `n` steps. */
  ghost function StateAt(s: State, steps: seq<Step>, n: nat): State
    requires LegalRun(s, steps) && n <= |steps|
    decreases n
  {
    if n == 0 then s else StateAt(Do(s, steps[0]), steps[1..], n - 1)
  }

  ghost function After(s: State, steps: seq<Step>): State
    requires LegalRun(s, steps)
  {
    StateAt(s, steps, |steps|)
  }

  // ------------------------------------------------------------------------ invariants

  ghost predicate AtMostOneChain(s: State) {
    forall i, j :: i in s.at && j in s.at && s.at[i].InChain() && s.at[j].InChain() ==> i == j
  }

  ghost predicate SomeChain(s: State) {
    exists i :: i in s.at && s.at[i].InChain()
  }

  /** The guard is idle exactly when no chain is in flight, and there is never more than one. */
  ghost predicate GuardIsToken(s: State) {
    && AtMostOneChain(s)
    && (s.guard != Idle <==> SomeChain(s))
    && forall i :: i in s.at && s.at[i].Ending? ==> s.at[i].seen != Idle
  }

  /** What was sent is still the mirror, and the answer is its difference to the pool of that moment. */
  ghost predicate AnswerFits(s: State) {
    forall i :: i in s.at ==>
      && (s.at[i].AwaitingDiff? ==> s.at[i].sent == s.known)
      && (s.at[i].DiffReady? ==>
            && s.at[i].sent == s.known
            && Elements(s.at[i].added) == s.at[i].asOf - s.known
            && Elements(s.at[i].removed) == s.known - s.at[i].asOf)
  }

  ghost predicate SomeWillAsk(s: State) {
    exists i :: i in s.at && s.at[i].WillAsk()
  }

  /** The mirror is the pool of the last answer, or will be once the answer at hand is applied. */
  ghost predicate MirrorsAnswer(s: State) {
    if exists i :: i in s.at && s.at[i].DiffReady?
    then forall i :: i in s.at && s.at[i].DiffReady? ==> s.at[i].asOf == s.answered
    else s.known == s.answered
  }

  /** No notification is lost: the last answer is right, or an activity or the guard will see to it. */
  ghost predicate NothingLost(s: State) {
    s.stale || s.guard == UpdateRequired || SomeWillAsk(s) || s.answered == s.pool
  }

  /** The observers differ from the mirror in what they are owed and in what is on its way. */
  ghost predicate ObserversFollow(s: State) {
    if exists i :: i in s.at && s.at[i].AwaitingDetails?
    then forall i :: i in s.at && s.at[i].AwaitingDetails? ==> OnItsWay(s, s.at[i])
    else Difference(s.observed, s.known) == s.owed
  }

  /** The mirror already has the added hashes and no longer the removed ones. */
  ghost predicate OnItsWay(s: State, a: Activity)
    requires a.AwaitingDetails?
  {
    var added, removed := Elements(a.added), Elements(a.removed);
    && added <= s.known && removed !! s.known
    && Difference(s.observed, s.known - added + removed) == s.owed
  }

  ghost predicate Inv(s: State) {
    GuardIsToken(s) && AnswerFits(s) && MirrorsAnswer(s) && NothingLost(s) && ObserversFollow(s)
  }

  // ------------------------------------------------------------------- every step keeps them

  /** The activity a step belongs to. */
  function Who(step: Step): nat {
    match step
    case Enable(_) => 0
    case _ => step.i
  }

  /** All activities but `w` are where they were. */
  ghost predicate OthersStay(s: State, t: State, w: nat) {
    forall j :: j != w ==> (j in t.at <==> j in s.at) && (j in s.at ==> t.at[j] == s.at[j])
  }

  lemma OnlyOneMoves(s: State, step: Step)
    requires CanStep(s, step)
    ensures OthersStay(s, Do(s, step), Who(step))
    ensures step.Enable? ==> Do(s, step).at == s.at
  {
  }

  predicate Chained(s: State, w: nat) {
    w in s.at && s.at[w].InChain()
  }

  /** How the guard may change when activity `w` moves: a chain begins on an idle guard, ends by
      making it idle, and otherwise idleness does not change. */
  ghost predicate TokenMoves(s: State, t: State, w: nat) {
    && (Chained(s, w) == Chained(t, w) ==> (t.guard == Idle) == (s.guard == Idle))
    && (!Chained(s, w) && Chained(t, w) ==> s.guard == Idle && t.guard != Idle)
    && (Chained(s, w) && !Chained(t, w) ==> t.guard == Idle)
    && (w in t.at && t.at[w].Ending? ==> t.at[w].seen != Idle)
  }

  lemma StepMovesToken(s: State, step: Step)
    requires CanStep(s, step)
    requires Chained(s, Who(step)) ==> s.guard != Idle
    requires Chained(s, Who(step)) && s.at[Who(step)].Ending? ==> s.at[Who(step)].seen != Idle
    ensures TokenMoves(s, Do(s, step), Who(step))
  {
  }

  lemma TokenKept(s: State, t: State, w: nat)
    requires GuardIsToken(s) && OthersStay(s, t, w) && TokenMoves(s, t, w)
    ensures GuardIsToken(t)
  {
    if t.guard != Idle {
      if !(w in t.at && t.at[w].InChain()) {
        var i :| i in s.at && s.at[i].InChain();
        assert i in t.at && t.at[i].InChain();
      }
    }
  }

  lemma AnswerKept(s: State, step: Step)
    requires CanStep(s, step) && AtMostOneChain(s) && AnswerFits(s)
    ensures AnswerFits(Do(s, step))
  {
    var t, w := Do(s, step), Who(step);
    OnlyOneMoves(s, step);
    forall i | i in t.at
      ensures
        && (t.at[i].AwaitingDiff? ==> t.at[i].sent == t.known)
        && (t.at[i].DiffReady? ==>
              && t.at[i].sent == t.known
              && Elements(t.at[i].added) == t.at[i].asOf - t.known
              && Elements(t.at[i].removed) == t.known - t.at[i].asOf)
    {
      if step.ApplyAnswer? && i != w {
        assert s.at[w].InChain() && !s.at[i].InChain();
      }
    }
  }

  lemma AskingKept(s: State, t: State, w: nat)
    requires OthersStay(s, t, w) && SomeWillAsk(s)
    requires w in s.at && s.at[w].WillAsk() ==> w in t.at && t.at[w].WillAsk()
    ensures SomeWillAsk(t)
  {
    var i :| i in s.at && s.at[i].WillAsk();
    assert i in t.at && t.at[i].WillAsk();
  }

  /** Steps that neither touch the mirror nor an answer. */
  lemma MirrorUntouched(s: State, t: State, w: nat)
    requires OthersStay(s, t, w) && MirrorsAnswer(s) && t.known == s.known && t.answered == s.answered
    requires w in s.at ==> !s.at[w].DiffReady?
    requires w in t.at ==> !t.at[w].DiffReady?
    ensures MirrorsAnswer(t)
  {
    if i :| i in s.at && s.at[i].DiffReady? {
      assert i in t.at && t.at[i].DiffReady?;
    }
  }

  /** An activity that will ask keeps a successor: itself, the guard, or the staleness mark. */
  lemma AskerSucceeded(s: State, step: Step)
    requires CanStep(s, step) && !step.NodeAnswers?
    requires Who(step) in s.at && s.at[Who(step)].WillAsk()
    ensures var t := Do(s, step);
            t.stale || t.guard == UpdateRequired || (Who(step) in t.at && t.at[Who(step)].WillAsk())
  {
  }

  /** The guard only leaves UpdateRequired in an endUpdate that returns true. */
  lemma RequiredKept(s: State, step: Step)
    requires CanStep(s, step) && s.guard == UpdateRequired
    ensures Do(s, step).guard == UpdateRequired
         || (step.CasEnd? && step.i in Do(s, step).at && Do(s, step).at[step.i].Entering?)
  {
  }

  lemma MirrorKept(s: State, step: Step)
    requires CanStep(s, step) && AtMostOneChain(s) && AnswerFits(s) && MirrorsAnswer(s)
    ensures MirrorsAnswer(Do(s, step))
  {
    var t, w := Do(s, step), Who(step);
    OnlyOneMoves(s, step);
    if step.NodeAnswers? {
      assert t.at[w].DiffReady? && t.at[w].asOf == t.answered;
      OnlyChain(s, w);
    } else if step.ApplyAnswer? {
      assert s.at[w].asOf == s.answered;
      OnlyChain(s, w);
    } else if step.Enable? {
      assert t.at == s.at;
    } else {
      MirrorUntouched(s, t, w);
    }
  }

  /** No other activity is in a chain. */
  lemma OnlyChain(s: State, w: nat)
    requires AtMostOneChain(s) && w in s.at && s.at[w].InChain()
    ensures forall j :: j in s.at && j != w ==> !s.at[j].DiffReady? && !s.at[j].AwaitingDetails?
  {
    forall j | j in s.at && j != w
      ensures !s.at[j].DiffReady? && !s.at[j].AwaitingDetails?
    {
      assert !s.at[j].InChain();
    }
  }

  lemma NothingLostKept(s: State, step: Step)
    requires CanStep(s, step) && NothingLost(s)
    ensures NothingLost(Do(s, step))
  {
    var t, w := Do(s, step), Who(step);
    OnlyOneMoves(s, step);
    if step.PoolChanges? {
      assert w in t.at && t.at[w].WillAsk();
    } else if s.stale || step.NodeAnswers? || step.Enable? {
      assert step.NodeAnswers? ==> t.answered == t.pool;
    } else if s.guard == UpdateRequired {
      RequiredKept(s, step);
    } else if w in s.at && s.at[w].WillAsk() {
      AskerSucceeded(s, step);
    } else if SomeWillAsk(s) {
      AskingKept(s, t, w);
    }
  }

  lemma ObserversKept(s: State, step: Step)
    requires CanStep(s, step) && AtMostOneChain(s) && AnswerFits(s) && ObserversFollow(s)
    ensures ObserversFollow(Do(s, step))
  {
    var t, w := Do(s, step), Who(step);
    OnlyOneMoves(s, step);
    if step.ApplyAnswer? {
      OnlyChain(s, w);
      ApplyObserved(s, step);
      OneOnItsWay(t, w);
    } else if step.Details? {
      OnlyChain(s, w);
      DetailsObserved(s, step);
      NothingOnItsWay(t);
    } else if step.Enable? {
      assert t.at == s.at;
    } else {
      ObserversUntouched(s, t, w);
    }
  }

  lemma OneOnItsWay(t: State, w: nat)
    requires w in t.at && t.at[w].AwaitingDetails? && OnItsWay(t, t.at[w])
    requires forall j :: j in t.at && j != w ==> !t.at[j].AwaitingDetails?
    ensures ObserversFollow(t)
  {
  }

  lemma NothingOnItsWay(t: State)
    requires Difference(t.observed, t.known) == t.owed && forall j :: j in t.at ==> !t.at[j].AwaitingDetails?
    ensures ObserversFollow(t)
  {
  }

  lemma ObserversUntouched(s: State, t: State, w: nat)
    requires OthersStay(s, t, w) && ObserversFollow(s)
    requires t.known == s.known && t.observed == s.observed && t.owed == s.owed
    requires w in s.at ==> !s.at[w].AwaitingDetails?
    requires w in t.at ==> !t.at[w].AwaitingDetails?
    ensures ObserversFollow(t)
  {
    if i :| i in s.at && s.at[i].AwaitingDetails? {
      assert i in t.at && t.at[i].AwaitingDetails?;
    }
  }

  /** What an answer changes is on its way to the observers. */
  lemma ApplyObserved(s: State, step: Step)
    requires CanStep(s, step) && step.ApplyAnswer? && AnswerFits(s)
    requires Difference(s.observed, s.known) == s.owed
    ensures OnItsWay(Do(s, step), Do(s, step).at[step.i])
  {
    var a, t := s.at[step.i], Do(s, step);
    NewOnesExact(a.added, s.known);
    GoneOnesExact(a.removed, s.known + Elements(a.added));
    var b := t.at[step.i];
    assert Elements(b.added) == Elements(a.added) && Elements(b.removed) == Elements(a.removed);
    assert t.known - Elements(b.added) + Elements(b.removed) == s.known;
  }

  /** The second reply settles what was on its way, or makes it owed. */
  lemma DetailsObserved(s: State, step: Step)
    requires CanStep(s, step) && step.Details? && OnItsWay(s, s.at[step.i])
    ensures Difference(Do(s, step).observed, Do(s, step).known) == Do(s, step).owed
  {
    var a, t := s.at[step.i], Do(s, step);
    var added, removed := Elements(a.added), Elements(a.removed);
    forall h
      ensures h in Difference(t.observed, t.known) <==> h in t.owed
    {
      assert h in s.owed <==> h in Difference(s.observed, s.known - added + removed);
    }
  }

  lemma StepKeepsInv(s: State, step: Step)
    requires CanStep(s, step) && Inv(s)
    ensures Inv(Do(s, step))
  {
    OnlyOneMoves(s, step);
    StepMovesToken(s, step);
    TokenKept(s, Do(s, step), Who(step));
    AnswerKept(s, step);
    MirrorKept(s, step);
    NothingLostKept(s, step);
    ObserversKept(s, step);
  }

  // ----------------------------------------------------------------------- whole runs

  lemma {:induction false} RunKeepsInv(s: State, steps: seq<Step>)
    requires Inv(s) && LegalRun(s, steps)
    ensures Inv(After(s, steps))
    decreases |steps|
  {
    if steps != [] {
      StepKeepsInv(s, steps[0]);
      RunKeepsInv(Do(s, steps[0]), steps[1..]);
    }
  }

  lemma InitialInv(s: State)
    requires Initial(s)
    ensures Inv(s)
  {
  }

  /** In every reachable state at most one chain is in flight, the guard is idle exactly when none
      is, endUpdate never finds an idle guard, and the hashes sent to the node are still the
      mirror when its answer is applied. */
  lemma ReachableGuard(s: State, steps: seq<Step>)
    requires Initial(s) && LegalRun(s, steps)
    ensures GuardIsToken(After(s, steps)) && AnswerFits(After(s, steps))
  {
    InitialInv(s);
    RunKeepsInv(s, steps);
  }

  /** Applying the answer, whatever happened meanwhile, makes the mirror the pool the node had
      when it answered. */
  lemma AppliedAnswerIsThePool(s: State, steps: seq<Step>, i: nat)
    requires Initial(s) && LegalRun(s, steps)
    requires CanStep(After(s, steps), ApplyAnswer(i))
    ensures Do(After(s, steps), ApplyAnswer(i)).known == After(s, steps).at[i].asOf
  {
    ReachableGuard(s, steps);
  }

  /** Convergence: when a run has come to rest, the guard is idle; the mirror is the pool of the last
      answer, which is the node's pool unless since then a notification was ignored or a request
      failed; and the observers agree with the mirror exactly when nothing is owed to them. */
  lemma RestIsConsistent(s: State, steps: seq<Step>)
    requires Initial(s) && LegalRun(s, steps) && After(s, steps).at == map[]
    ensures After(s, steps).guard == Idle
    ensures After(s, steps).known == After(s, steps).answered
    ensures !After(s, steps).stale ==> After(s, steps).known == After(s, steps).pool
    ensures Difference(After(s, steps).observed, After(s, steps).known) == After(s, steps).owed
    ensures After(s, steps).observed == After(s, steps).known <==> After(s, steps).owed == {}
  {
    InitialInv(s);
    RunKeepsInv(s, steps);
    var t := After(s, steps);
    if t.owed == {} {
      assert forall h :: h in t.observed <==> h in t.known by {
        assert forall h :: h !in Difference(t.observed, t.known);
      }
    }
  }

  // ------------------------------------------------------------------- refused callers

  lemma {:induction false} StateStep(s: State, steps: seq<Step>, n: nat)
    requires LegalRun(s, steps) && n < |steps|
    ensures CanStep(StateAt(s, steps, n), steps[n])
    ensures StateAt(s, steps, n + 1) == Do(StateAt(s, steps, n), steps[n])
    decreases n
  {
    if n > 0 {
      StateStep(Do(s, steps[0]), steps[1..], n - 1);
    }
  }

  /** The step is an endUpdate that returns true, after which its thread is in poolChanged again. */
  ghost predicate Restarts(s: State, step: Step) {
    && CanStep(s, step) && step.CasEnd? && s.guard == UpdateRequired
    && step.i in Do(s, step).at && Do(s, step).at[step.i].Entering?
  }

  /** The step is a beginUpdate that returns false. */
  ghost predicate Refuses(s: State, step: Step) {
    && step.CasBegin? && CanStep(s, step)
    && (s.at[step.i].seen == UpdateRequired || (s.at[step.i].seen == s.guard == Updating && !step.spurious))
  }

  /** In the states from `j` to `n` thread `i` is in the loop of one beginUpdate. */
  ghost predicate InCall(s: State, steps: seq<Step>, i: nat, j: nat, n: nat)
    requires LegalRun(s, steps) && n <= |steps|
  {
    forall m :: j <= m <= n ==> i in StateAt(s, steps, m).at && StateAt(s, steps, m).at[i].Beginning?
  }

  /** Who has seen UpdateRequired saw it during this call. */
  lemma {:induction false} SeenDuringCall(s: State, steps: seq<Step>, i: nat, n: nat) returns (j: nat)
    requires Initial(s) && LegalRun(s, steps) && n <= |steps|
    requires i in StateAt(s, steps, n).at && StateAt(s, steps, n).at[i] == Beginning(UpdateRequired)
    ensures j <= n && StateAt(s, steps, j).guard == UpdateRequired && InCall(s, steps, i, j, n)
    decreases n
  {
    StateStep(s, steps, n - 1);
    var t := StateAt(s, steps, n - 1);
    OnlyOneMoves(t, steps[n - 1]);
    if i in t.at && t.at[i] == Beginning(UpdateRequired) {
      j := SeenDuringCall(s, steps, i, n - 1);
    } else {
      j := n;
    }
  }

  /** From a state with the guard at UpdateRequired on, it still is, or some thread has restarted. */
  lemma {:induction false} RequiredUntilRestart(s: State, steps: seq<Step>, j: nat, m: nat)
    requires LegalRun(s, steps) && j <= m <= |steps| && StateAt(s, steps, j).guard == UpdateRequired
    ensures StateAt(s, steps, m).guard == UpdateRequired
         || exists k :: j <= k < m && Restarts(StateAt(s, steps, k), steps[k])
    decreases m
  {
    if j < m {
      RequiredUntilRestart(s, steps, j, m - 1);
      StateStep(s, steps, m - 1);
      if StateAt(s, steps, m - 1).guard == UpdateRequired {
        RequiredKept(StateAt(s, steps, m - 1), steps[m - 1]);
        if StateAt(s, steps, m).guard != UpdateRequired {
          assert Restarts(StateAt(s, steps, m - 1), steps[m - 1]);
        }
      } else {
        var k :| j <= k < m - 1 && Restarts(StateAt(s, steps, k), steps[k]);
      }
    }
  }

  /** Every beginUpdate that returns false, in any run: at some moment `j` of that call, or with its
      last step, the guard was at UpdateRequired, and in every state from then on it still is or
      an endUpdate since then has called poolChanged again. */
  lemma RefusedCallerIsServed(s: State, steps: seq<Step>, k: nat) returns (j: nat)
    requires Initial(s) && LegalRun(s, steps) && k < |steps| && Refuses(StateAt(s, steps, k), steps[k])
    ensures j <= k + 1 && StateAt(s, steps, j).guard == UpdateRequired && InCall(s, steps, steps[k].i, j, k)
    ensures forall m :: j <= m <= |steps| ==>
      || StateAt(s, steps, m).guard == UpdateRequired
      || exists l :: j <= l < m && Restarts(StateAt(s, steps, l), steps[l])
  {
    StateStep(s, steps, k);
    if StateAt(s, steps, k).at[steps[k].i].seen == UpdateRequired {
      j := SeenDuringCall(s, steps, steps[k].i, k);
    } else {
      j := k + 1;
    }
    forall m | j <= m <= |steps|
      ensures StateAt(s, steps, m).guard == UpdateRequired
           || exists l :: j <= l < m && Restarts(StateAt(s, steps, l), steps[l])
    {
      RequiredUntilRestart(s, steps, j, m);
    }
  }

  // ---------------------------------------------------- what the book-keeping means in a run

  lemma {:induction false} ReachableInv(s: State, steps: seq<Step>, n: nat)
    requires Initial(s) && LegalRun(s, steps) && n <= |steps|
    ensures Inv(StateAt(s, steps, n))
    decreases n
  {
    if n == 0 {
      InitialInv(s);
    } else {
      ReachableInv(s, steps, n - 1);
      StateStep(s, steps, n - 1);
      StepKeepsInv(StateAt(s, steps, n - 1), steps[n - 1]);
    }
  }

  /** The step is a reply to a second request that concerns `h`. */
  ghost predicate Concerns(s: State, step: Step, h: Hash) {
    step.Details? && CanStep(s, step) && (h in s.at[step.i].added || h in s.at[step.i].removed)
  }

  /** How many second requests that concern `h` have failed since the last that succeeded. */
  ghost function FailuresSince(s: State, steps: seq<Step>, n: nat, h: Hash): nat
    requires LegalRun(s, steps) && n <= |steps|
    decreases n
  {
    if n == 0 then 0
    else if !Concerns(StateAt(s, steps, n - 1), steps[n - 1], h) then FailuresSince(s, steps, n - 1, h)
    else if steps[n - 1].ok then 0
    else FailuresSince(s, steps, n - 1, h) + 1
  }

  /** What one step does to a single hash owed. */
  lemma OwedMoves(s: State, step: Step, h: Hash)
    requires CanStep(s, step)
    ensures h in Do(s, step).owed <==> if Concerns(s, step, h) then !step.ok && h !in s.owed else h in s.owed
  {
    if step.Details? {
      var a := s.at[step.i];
      assert h in Elements(a.added) + Elements(a.removed) <==> Concerns(s, step, h);
    }
  }

  /** A hash is owed exactly when an odd number of requests for it have failed since the last that
      succeeded: the second failure is about the opposite change. */
  lemma {:induction false} OwedExactly(s: State, steps: seq<Step>, n: nat, h: Hash)
    requires Initial(s) && LegalRun(s, steps) && n <= |steps|
    ensures h in StateAt(s, steps, n).owed <==> FailuresSince(s, steps, n, h) % 2 == 1
    decreases n
  {
    if n > 0 {
      OwedExactly(s, steps, n - 1, h);
      StateStep(s, steps, n - 1);
      OwedMoves(StateAt(s, steps, n - 1), steps[n - 1], h);
    }
  }

  /** Every second request is answered without an error. */
  ghost predicate NoDetailsFail(steps: seq<Step>) {
    forall k :: 0 <= k < |steps| && steps[k].Details? ==> steps[k].ok
  }

  lemma {:induction false} NoFailures(s: State, steps: seq<Step>, n: nat, h: Hash)
    requires LegalRun(s, steps) && NoDetailsFail(steps) && n <= |steps|
    ensures FailuresSince(s, steps, n, h) == 0
    decreases n
  {
    if n > 0 {
      NoFailures(s, steps, n - 1, h);
    }
  }

  /** As long as no second request fails, nothing is ever owed to the observers. */
  lemma NothingOwed(s: State, steps: seq<Step>, n: nat)
    requires Initial(s) && LegalRun(s, steps) && NoDetailsFail(steps) && n <= |steps|
    ensures StateAt(s, steps, n).owed == {}
  {
    forall h: Hash ensures h !in StateAt(s, steps, n).owed {
      OwedExactly(s, steps, n, h);
      NoFailures(s, steps, n, h);
    }
  }

  /** A reply without an error tells the observers: in every run, afterwards they have every added
      hash, no removed one, and otherwise what they had. No other step tells them anything. */
  lemma DetailsTell(s: State, steps: seq<Step>, n: nat)
    requires Initial(s) && LegalRun(s, steps) && n < |steps|
    ensures CanStep(StateAt(s, steps, n), steps[n])
    ensures var t, u := StateAt(s, steps, n), StateAt(s, steps, n + 1);
            if steps[n].Details? && steps[n].ok then
              forall h ::
                && (h in t.at[steps[n].i].added ==> h in u.observed)
                && (h in t.at[steps[n].i].removed ==> h !in u.observed)
                && (!Concerns(t, steps[n], h) ==> (h in u.observed <==> h in t.observed))
            else u.observed == t.observed
  {
    ReachableInv(s, steps, n);
    StateStep(s, steps, n);
    var t := StateAt(s, steps, n);
    if steps[n].Details? && steps[n].ok {
      assert OnItsWay(t, t.at[steps[n].i]);
      forall h | h in t.at[steps[n].i].added ensures h !in t.at[steps[n].i].removed {
        assert h in Elements(t.at[steps[n].i].added);
      }
    }
  }

  /** What the last `Enable` before step `n` set, or `on` without one. */
  ghost function EnabledBy(on: bool, steps: seq<Step>, n: nat): bool
    requires n <= |steps|
    decreases n
  {
    if n == 0 then on else if steps[n - 1].Enable? then steps[n - 1].on else EnabledBy(on, steps, n - 1)
  }

  lemma {:induction false} EnabledIs(s: State, steps: seq<Step>, n: nat)
    requires LegalRun(s, steps) && n <= |steps|
    ensures StateAt(s, steps, n).enabled == EnabledBy(s.enabled, steps, n)
    decreases n
  {
    if n > 0 {
      EnabledIs(s, steps, n - 1);
      StateStep(s, steps, n - 1);
    }
  }

  /** Step `m` is a first request that fails, or a call of poolChanged while it is switched off. */
  ghost predicate Disturbs(on: bool, steps: seq<Step>, m: nat)
    requires m < |steps|
  {
    steps[m].NodeFails? || (steps[m].ReadGate? && !EnabledBy(on, steps, m))
  }

  /** From an answer on, and from the start with an empty pool, only such a step makes the answer stale. */
  lemma {:induction false} FreshSince(s: State, steps: seq<Step>, k: nat, n: nat)
    requires LegalRun(s, steps) && k <= n <= |steps|
    requires if k == 0 then !s.stale else steps[k - 1].NodeAnswers?
    requires forall m :: k <= m < n ==> !Disturbs(s.enabled, steps, m)
    ensures !StateAt(s, steps, n).stale
    decreases n
  {
    if k < n {
      FreshSince(s, steps, k, n - 1);
      assert !Disturbs(s.enabled, steps, n - 1);
      EnabledIs(s, steps, n - 1);
      StateStep(s, steps, n - 1);
    } else if k > 0 {
      StateStep(s, steps, k - 1);
    }
  }

  /** Convergence in terms of what happened: a run that started with an empty pool (`k == 0`) or in
      which step `k - 1` was an answer of the node, and in which since then no first request failed
      and poolChanged was not switched off, ends with the mirror equal to the node's pool once it
      comes to rest; and with the observers there too if no second request ever failed. */
  lemma RestAfterAnswer(s: State, steps: seq<Step>, k: nat)
    requires Initial(s) && LegalRun(s, steps) && After(s, steps).at == map[]
    requires k <= |steps| && if k == 0 then s.pool == {} else steps[k - 1].NodeAnswers?
    requires forall m :: k <= m < |steps| ==> !Disturbs(s.enabled, steps, m)
    ensures After(s, steps).known == After(s, steps).pool
    ensures NoDetailsFail(steps) ==> After(s, steps).observed == After(s, steps).pool
  {
    FreshSince(s, steps, k, |steps|);
    RestIsConsistent(s, steps);
    if NoDetailsFail(steps) {
      NothingOwed(s, steps, |steps|);
    }
  }

  /** In every run without a failed second request, the observers agree with the mirror at rest. */
  lemma ObserversAtRest(s: State, steps: seq<Step>)
    requires Initial(s) && LegalRun(s, steps) && NoDetailsFail(steps) && After(s, steps).at == map[]
    ensures After(s, steps).observed == After(s, steps).known
  {
    NothingOwed(s, steps, |steps|);
    RestIsConsistent(s, steps);
  }

  // ------------------------------------------------------------------ coming to rest

  lemma {:induction false} RunsJoined(s: State, first: seq<Step>, second: seq<Step>)
    requires LegalRun(s, first) && LegalRun(After(s, first), second)
    ensures LegalRun(s, first + second) && After(s, first + second) == After(After(s, first), second)
    decreases |first|
  {
    if first == [] {
      assert first + second == second;
    } else {
      RunsJoined(Do(s, first[0]), first[1..], second);
      assert (first + second)[1..] == first[1..] + second;
    }
  }

  lemma RunExtended(s: State, steps: seq<Step>, step: Step)
    requires LegalRun(s, steps) && CanStep(After(s, steps), step)
    ensures LegalRun(s, steps + [step]) && After(s, steps + [step]) == Do(After(s, steps), step)
    decreases |steps|
  {
    if steps != [] {
      RunExtended(Do(s, steps[0]), steps[1..], step);
      assert (steps + [step])[1..] == steps[1..] + [step];
    }
  }

  /** A step of an activity under way in which nothing fails. */
  predicate Smooth(step: Step) {
    match step
    case PoolChanges(_, _) => false
    case Enable(_) => false
    case NodeFails(_) => false
    case Details(_, ok) => ok
    case CasBegin(_, spurious) => !spurious
    case CasEnd(_, spurious) => !spurious
    case _ => true
  }

  ghost predicate SmoothRun(s: State, steps: seq<Step>) {
    LegalRun(s, steps) && forall k :: 0 <= k < |steps| ==> Smooth(steps[k])
  }

  /** A smooth run leads from `s` to `t`. */
  ghost predicate Leads(s: State, t: State) {
    exists steps :: SmoothRun(s, steps) && After(s, steps) == t
  }

  lemma LeadsNowhere(s: State)
    ensures Leads(s, s)
  {
    assert SmoothRun(s, []) && After(s, []) == s;
  }

  lemma LeadsOn(s: State, t: State, step: Step)
    requires Leads(s, t) && CanStep(t, step) && Smooth(step)
    ensures Leads(s, Do(t, step))
  {
    var steps :| SmoothRun(s, steps) && After(s, steps) == t;
    RunExtended(s, steps, step);
    assert SmoothRun(s, steps + [step]);
  }

  lemma LeadsKeepsInv(s: State, t: State)
    requires Inv(s) && Leads(s, t)
    ensures Inv(t)
  {
    var steps :| SmoothRun(s, steps) && After(s, steps) == t;
    RunKeepsInv(s, steps);
  }

  /** Every finite set of hashes can be listed, so the node can always answer. */
  lemma {:induction false} Listed(hashes: set<Hash>) returns (s: seq<Hash>)
    ensures Elements(s) == hashes
    decreases |hashes|
  {
    s := [];
    if hashes != {} {
      var h :| h in hashes;
      var rest := Listed(hashes - {h});
      s := [h] + rest;
      assert Elements(s) == {h} + Elements(rest);
    }
  }

  /** Only activity `i` has moved; the node's pool and the switch are the same. */
  ghost predicate OnlyMoved(s: State, t: State, i: nat) {
    t.pool == s.pool && t.enabled == s.enabled && t.at - {i} == s.at - {i}
  }

  /** How many steps a chain is away from the end of its second reply. */
  function Replies(a: Activity): nat {
    match a
    case Preparing => 4
    case AwaitingDiff(_) => 3
    case DiffReady(_, _, _, _) => 2
    case Finishing => 0
    case _ => 1
  }

  /** A chain gets to the end of its second reply. */
  lemma ChainFinishes(s: State, t: State, i: nat) returns (u: State)
    requires Leads(s, t) && OnlyMoved(s, t, i) && Chained(t, i) && !t.at[i].Ending?
    ensures Leads(s, u) && OnlyMoved(s, u, i) && i in u.at && u.at[i].Finishing? && u.guard == t.guard
    decreases Replies(t.at[i])
  {
    match t.at[i]
    case Finishing => u := t;
    case Preparing => u := ChainGoesOn(s, t, i, SendFirst(i));
    case AwaitingDiff(sent) =>
      var added := Listed(t.pool - sent);
      var removed := Listed(sent - t.pool);
      u := ChainGoesOn(s, t, i, NodeAnswers(i, added, removed));
    case DiffReady(_, _, _, _) => u := ChainGoesOn(s, t, i, ApplyAnswer(i));
    case DiffFailed => u := ChainGoesOn(s, t, i, GiveUp(i));
    case AwaitingDetails(_, _) => u := ChainGoesOn(s, t, i, Details(i, true));
  }

  lemma ChainGoesOn(s: State, t: State, i: nat, step: Step) returns (u: State)
    requires Leads(s, t) && OnlyMoved(s, t, i) && CanStep(t, step) && Smooth(step) && Who(step) == i
    requires Chained(t, i) && !t.at[i].Ending? && !t.at[i].Finishing? && !step.Enable?
    ensures Leads(s, u) && OnlyMoved(s, u, i) && i in u.at && u.at[i].Finishing? && u.guard == t.guard
    decreases Replies(t.at[i]), 0
  {
    LeadsOn(s, t, step);
    u := ChainFinishes(s, Do(t, step), i);
  }

  /** endUpdate returns, and calls poolChanged again if an update was required meanwhile. */
  lemma ChainEnds(s: State, t: State, i: nat) returns (u: State)
    requires Leads(s, t) && OnlyMoved(s, t, i) && i in t.at && t.guard != Idle
    requires t.at[i].Finishing? || (t.at[i].Ending? && t.at[i].seen != Idle)
    ensures Leads(s, u) && OnlyMoved(s, u, i) && u.guard == Idle
    ensures if t.guard == UpdateRequired then i in u.at && u.at[i].Entering? else i !in u.at
    decreases if t.at[i].Finishing? then 2 else if t.at[i].seen != t.guard then 1 else 0
  {
    var step := if t.at[i].Finishing? then LoadEnd(i) else CasEnd(i, false);
    LeadsOn(s, t, step);
    u := Do(t, step);
    if t.at[i].Finishing? || t.at[i].seen != t.guard {
      u := ChainEnds(s, u, i);
    }
  }

  /** beginUpdate returns: the caller has left, or it has become the chain on an idle guard. */
  lemma CallEnds(s: State, t: State, i: nat) returns (u: State)
    requires Leads(s, t) && OnlyMoved(s, t, i) && i in t.at && !t.at[i].InChain()
    ensures Leads(s, u) && OnlyMoved(s, u, i)
    ensures i !in u.at || (u.at[i].Preparing? && u.guard == Updating)
    decreases if t.at[i].Entering? then 3 else if t.at[i].Loading? then 2 else
              if t.at[i].seen != t.guard then 1 else 0
  {
    var step := if t.at[i].Entering? then ReadGate(i) else if t.at[i].Loading? then LoadBegin(i)
                else CasBegin(i, false);
    LeadsOn(s, t, step);
    u := Do(t, step);
    if i in u.at && !u.at[i].InChain() {
      u := CallEnds(s, u, i);
    }
  }

  /** A call of poolChanged gets to its end, with the chain it starts if it starts one. */
  lemma CallSettles(s: State, t: State, i: nat) returns (u: State)
    requires Leads(s, t) && OnlyMoved(s, t, i) && i in t.at && !t.at[i].InChain()
    ensures Leads(s, u) && OnlyMoved(s, u, i) && i !in u.at
  {
    u := CallEnds(s, t, i);
    if i in u.at {
      u := ChainFinishes(s, u, i);
      u := ChainEnds(s, u, i);
    }
  }

  /** Every activity gets to its end while all others stand still. */
  lemma ActivitySettles(s: State, i: nat) returns (u: State)
    requires Inv(s) && i in s.at
    ensures Leads(s, u) && OnlyMoved(s, u, i) && i !in u.at
  {
    LeadsNowhere(s);
    u := s;
    if s.at[i].InChain() {
      assert s.guard != Idle;
      if !s.at[i].Ending? {
        u := ChainFinishes(s, u, i);
      }
      u := ChainEnds(s, u, i);
    }
    if i in u.at {
      u := CallSettles(s, u, i);
    }
  }

  lemma LeadsJoined(s: State, t: State, u: State)
    requires Leads(s, t) && Leads(t, u)
    ensures Leads(s, u)
  {
    var first :| SmoothRun(s, first) && After(s, first) == t;
    var second :| SmoothRun(t, second) && After(t, second) == u;
    RunsJoined(s, first, second);
    assert SmoothRun(s, first + second);
  }

  lemma {:induction false} ComesToRest(s: State) returns (u: State)
    requires Inv(s)
    ensures Leads(s, u) && u.at == map[] && u.pool == s.pool
    decreases |s.at.Keys|
  {
    if s.at == map[] {
      LeadsNowhere(s);
      u := s;
    } else {
      var i :| i in s.at;
      var t := ActivitySettles(s, i);
      LeadsKeepsInv(s, t);
      assert t.at == t.at - {i} == s.at - {i};
      assert t.at.Keys == s.at.Keys - {i};
      u := ComesToRest(t);
      LeadsJoined(s, t, u);
    }
  }

  lemma {:induction false} SmoothStaysFresh(s: State, steps: seq<Step>)
    requires SmoothRun(s, steps) && s.enabled && !s.stale
    ensures !After(s, steps).stale
    decreases |steps|
  {
    if steps != [] {
      assert Smooth(steps[0]);
      assert forall k :: 0 <= k < |steps| - 1 ==> steps[1..][k] == steps[k + 1];
      SmoothStaysFresh(Do(s, steps[0]), steps[1..]);
    }
  }

  /** No deadlock: from every reachable state there is a run to rest in which nothing fails and no
      notification comes in. If poolChanged is switched on and nothing was missed since the last
      answer, that run ends with the mirror equal to the node's pool. */
  lemma EveryRunCanRest(s: State, steps: seq<Step>) returns (later: seq<Step>)
    requires Initial(s) && LegalRun(s, steps)
    ensures SmoothRun(After(s, steps), later) && LegalRun(s, steps + later)
    ensures After(s, steps + later).at == map[] && After(s, steps + later).pool == After(s, steps).pool
    ensures After(s, steps).enabled && !After(s, steps).stale ==>
      After(s, steps + later).known == After(s, steps).pool
  {
    InitialInv(s);
    RunKeepsInv(s, steps);
    var t := After(s, steps);
    var u := ComesToRest(t);
    later :| SmoothRun(t, later) && After(t, later) == u;
    RunsJoined(s, steps, later);
    RestIsConsistent(s, steps + later);
    if t.enabled && !t.stale {
      SmoothStaysFresh(t, later);
    }
  }

  // ------------------------------------------------------------- a notification that is lost

  /** A run in which a hash enters the pool and the second request for it fails: its start, its state
      when the node has answered, and its end. */
  function Quiet(): State {
    State(Idle, {}, {}, {}, true, {}, false, {}, map[])
  }

  function Answered(h: Hash): State {
    State(Updating, {}, {h}, {}, true, {h}, false, {}, map[0 := DiffReady({}, {h}, [h], [])])
  }

  function Behind(h: Hash): State {
    State(Idle, {h}, {h}, {}, true, {h}, false, {h}, map[])
  }

  /** A failed second request leaves the observers behind although the mirror has moved; by
      RestIsConsistent they stay behind until later changes of the same hashes reach them. */
  lemma FailedDetailsLoseNotification(h: Hash) returns (steps: seq<Step>)
    ensures Initial(Quiet()) && LegalRun(Quiet(), steps) && After(Quiet(), steps).at == map[]
    ensures After(Quiet(), steps).known == After(Quiet(), steps).pool == {h}
    ensures After(Quiet(), steps).observed == {}
  {
    var upToAnswer := LostRunFirstHalf(h);
    var afterAnswer := LostRunSecondHalf(h);
    RunsJoined(Quiet(), upToAnswer, afterAnswer);
    steps := upToAnswer + afterAnswer;
  }

  lemma LostRunFirstHalf(h: Hash) returns (steps: seq<Step>)
    ensures LegalRun(Quiet(), steps) && After(Quiet(), steps) == Answered(h)
  {
    var s := Quiet();
    steps := [];
    RunExtended(s, steps, PoolChanges(0, {h}));
    steps := steps + [PoolChanges(0, {h})];
    RunExtended(s, steps, ReadGate(0));
    steps := steps + [ReadGate(0)];
    RunExtended(s, steps, LoadBegin(0));
    steps := steps + [LoadBegin(0)];
    RunExtended(s, steps, CasBegin(0, false));
    steps := steps + [CasBegin(0, false)];
    RunExtended(s, steps, SendFirst(0));
    steps := steps + [SendFirst(0)];
    assert CanStep(After(s, steps), NodeAnswers(0, [h], []));
    RunExtended(s, steps, NodeAnswers(0, [h], []));
    steps := steps + [NodeAnswers(0, [h], [])];
  }

  lemma LostRunSecondHalf(h: Hash) returns (steps: seq<Step>)
    ensures LegalRun(Answered(h), steps) && After(Answered(h), steps) == Behind(h)
  {
    var s := Answered(h);
    steps := [];
    RunExtended(s, steps, ApplyAnswer(0));
    steps := steps + [ApplyAnswer(0)];
    assert NewOnes([h], {}) == [h];
    assert After(s, steps).known == {h};
    RunExtended(s, steps, Details(0, false));
    steps := steps + [Details(0, false)];
    RunExtended(s, steps, LoadEnd(0));
    steps := steps + [LoadEnd(0)];
    RunExtended(s, steps, CasEnd(0, false));
    steps := steps + [CasEnd(0, false)];
  }
}
