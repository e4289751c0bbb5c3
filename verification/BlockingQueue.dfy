/** `BlockingQueue`: a bounded queue with two condition variables and closing, and `GroupClose`.

    A step is one stay inside the mutex: a call runs from acquiring the mutex, or from reacquiring
    it after a wake-up, until it waits or returns. Any thread may enter at any time, so a woken
    thread can be overtaken; waiting threads may wake up spuriously. */
module BlockingQueues {

  type Tid = nat

  /** A thread inside a call and not in the mutex. */
  datatype Thread<T> =
    | PopWaiting             // on m_haveData
    | PopWoken
    | PushWaiting(v: T)      // on m_haveSpace
    | PushWoken(v: T)
    | CloseWaiting           // on m_haveSpace, in close(true)
    | CloseWoken

  /** `accepted`: the values of all pushes that returned true; `popped`: all values popped. */
  datatype Queue<T> = Queue(
    maxSize: nat,
    items: seq<T>,
    closed: bool,
    threads: map<Tid, Thread<T>>,
    accepted: seq<T>,
    popped: seq<T>)

  datatype Choice = Nobody | Wake(t: Tid)

  datatype Step<T> =
    | Push(t: Tid, v: T, choice: Choice)
    | PushAgain(t: Tid, choice: Choice)
    | Pop(t: Tid, choice: Choice)
    | PopAgain(t: Tid, choice: Choice)
    | Close(t: Tid, wait: bool)
    | CloseAgain(t: Tid)
    | Spurious(t: Tid)

  // ------------------------------------------------------------------- waiting and waking

  ghost function DataWaiters<T>(threads: map<Tid, Thread<T>>): set<Tid> {
    set t | t in threads && threads[t].PopWaiting?
  }

  ghost function SpaceWaiters<T>(threads: map<Tid, Thread<T>>): set<Tid> {
    set t | t in threads && (threads[t].PushWaiting? || threads[t].CloseWaiting?)
  }

  ghost function WokenPops<T>(threads: map<Tid, Thread<T>>): set<Tid> {
    set t | t in threads && threads[t].PopWoken?
  }

  ghost function WokenPushes<T>(threads: map<Tid, Thread<T>>): set<Tid> {
    set t | t in threads && threads[t].PushWoken?
  }

  /** How many threads are in each of the four sets. */
  datatype Counts = Counts(dataWaiters: nat, spaceWaiters: nat, wokenPops: nat, wokenPushes: nat)

  ghost function Census<T>(threads: map<Tid, Thread<T>>): Counts {
    Counts(|DataWaiters(threads)|, |SpaceWaiters(threads)|, |WokenPops(threads)|, |WokenPushes(threads)|)
  }

  function Woken<T>(th: Thread<T>): Thread<T> {
    match th
    case PopWaiting => PopWoken
    case PushWaiting(v) => PushWoken(v)
    case CloseWaiting => CloseWoken
    case _ => th
  }

  /** notify_one wakes one of the waiters, any of them, if there is one. */
  ghost predicate ValidChoice(waiters: set<Tid>, choice: Choice) {
    match choice
    case Nobody => waiters == {}
    case Wake(t) => t in waiters
  }

  ghost function NotifyOne<T>(q: Queue<T>, choice: Choice): Queue<T>
    requires choice.Wake? ==> choice.t in q.threads
  {
    match choice
    case Nobody => q
    case Wake(t) => q.(threads := q.threads[t := Woken(q.threads[t])])
  }

  ghost function NotifyAll<T>(q: Queue<T>, waiters: set<Tid>): Queue<T> {
    q.(threads := map t | t in q.threads :: if t in waiters then Woken(q.threads[t]) else q.threads[t])
  }

  // ------------------------------------------------------------------- the three calls

  /** Whether push, its loop condition evaluated now, would wait. */
  ghost predicate PushBlocks<T>(q: Queue<T>) {
    !q.closed && |q.items| >= q.maxSize
  }

  ghost function PushStay<T>(q: Queue<T>, t: Tid, v: T, choice: Choice): Queue<T>
    requires choice.Wake? ==> choice.t in q.threads && choice.t != t
  {
    if PushBlocks(q) then q.(threads := q.threads[t := PushWaiting(v)])
    else if q.closed then q.(threads := q.threads - {t})                       // returns false
    else
      NotifyOne(q.(items := q.items + [v], accepted := q.accepted + [v], threads := q.threads - {t}), choice)
  }

  ghost function PopStay<T>(q: Queue<T>, t: Tid, choice: Choice): Queue<T>
    requires choice.Wake? ==> choice.t in q.threads && choice.t != t
  {
    if q.items == [] then
      if q.closed then q.(threads := q.threads - {t})                          // returns false
      else q.(threads := q.threads[t := PopWaiting])
    else
      var r := q.(items := q.items[1..], popped := q.popped + [q.items[0]], threads := q.threads - {t});
      if r.closed && r.items == [] then NotifyAll(r, SpaceWaiters(r.threads)) else NotifyOne(r, choice)
  }

  ghost function CloseStay<T>(q: Queue<T>, t: Tid, wait: bool): Queue<T> {
    var r := NotifyAll(q.(closed := true), DataWaiters(q.threads) + SpaceWaiters(q.threads));
    if wait && q.items != [] then r.(threads := r.threads[t := CloseWaiting]) else r
  }

  ghost predicate CanStep<T>(q: Queue<T>, step: Step<T>) {
    match step
    case Push(t, _, choice) => t !in q.threads && ValidChoice(DataWaiters(q.threads), choice)
    case PushAgain(t, choice) =>
      t in q.threads && q.threads[t].PushWoken? && ValidChoice(DataWaiters(q.threads), choice)
    case Pop(t, choice) => t !in q.threads && ValidChoice(SpaceWaiters(q.threads), choice)
    case PopAgain(t, choice) => t in q.threads && q.threads[t].PopWoken? && ValidChoice(SpaceWaiters(q.threads), choice)
    case Close(t, _) => t !in q.threads
    case CloseAgain(t) => t in q.threads && q.threads[t].CloseWoken?
    case Spurious(t) => t in DataWaiters(q.threads) + SpaceWaiters(q.threads)
  }

  ghost function Do<T>(q: Queue<T>, step: Step<T>): Queue<T>
    requires CanStep(q, step)
  {
    match step
    case Push(t, v, choice) => PushStay(q, t, v, choice)
    case PushAgain(t, choice) => PushStay(q, t, q.threads[t].v, choice)
    case Pop(t, choice) => PopStay(q, t, choice)
    case PopAgain(t, choice) => PopStay(q, t, choice)
    case Close(t, wait) => CloseStay(q, t, wait)
    case CloseAgain(t) =>
      if q.items != [] then q.(threads := q.threads[t := CloseWaiting]) else q.(threads := q.threads - {t})
    case Spurious(t) => q.(threads := q.threads[t := Woken(q.threads[t])])
  }

  ghost predicate Initial<T>(q: Queue<T>) {
    q.items == [] && !q.closed && q.threads == map[] && q.accepted == [] && q.popped == []
  }

  ghost predicate LegalRun<T>(q: Queue<T>, steps: seq<Step<T>>)
    decreases |steps|
  {
    steps == [] || (CanStep(q, steps[0]) && LegalRun(Do(q, steps[0]), steps[1..]))
  }

  ghost function After<T>(q: Queue<T>, steps: seq<Step<T>>): Queue<T>
    requires LegalRun(q, steps)
    decreases |steps|
  {
    if steps == [] then q else After(Do(q, steps[0]), steps[1..])
  }

  // ------------------------------------------------------------------------ invariants

  /** First in, first out, nothing lost or duplicated, never over capacity. */
  ghost predicate Faithful<T>(q: Queue<T>) {
    q.popped + q.items == q.accepted && |q.items| <= q.maxSize
  }

  /** As long as a pop waits there are at least as many woken pops as items, and as long as a push
      waits there are at least as many woken pushes as free places. */
  ghost predicate EnoughWoken<T>(q: Queue<T>) {
    !q.closed ==> Enough(Census(q.threads), |q.items|, q.maxSize)
  }

  ghost predicate Enough(c: Counts, size: nat, maxSize: nat) {
    && (c.dataWaiters > 0 ==> c.wokenPops >= size)
    && (c.spaceWaiters > 0 ==> c.wokenPushes >= maxSize - size)
  }

  /** Only close waits while the queue is closed, and only for a queue that is not empty. */
  ghost predicate ClosedWaits<T>(q: Queue<T>) {
    && (!q.closed ==> forall t :: t in q.threads ==> !q.threads[t].CloseWaiting? && !q.threads[t].CloseWoken?)
    && (q.closed ==>
          && DataWaiters(q.threads) == {}
          && (forall t :: t in q.threads ==> !q.threads[t].PushWaiting?)
          && (SpaceWaiters(q.threads) != {} ==> q.items != []))
  }

  ghost predicate Inv<T>(q: Queue<T>) {
    Faithful(q) && EnoughWoken(q) && ClosedWaits(q)
  }

  lemma FaithfulKept<T>(q: Queue<T>, step: Step<T>)
    requires CanStep(q, step) && Faithful(q)
    ensures Faithful(Do(q, step))
  {
    match step
    case Push(t, v, choice) => PushFaithful(q, t, v, choice);
    case PushAgain(t, choice) => PushFaithful(q, t, q.threads[t].v, choice);
    case Pop(t, choice) => PopFaithful(q, t, choice);
    case PopAgain(t, choice) => PopFaithful(q, t, choice);
    case Close(t, wait) =>
    case CloseAgain(t) =>
    case Spurious(t) =>
  }

  lemma PushFaithful<T>(q: Queue<T>, t: Tid, v: T, choice: Choice)
    requires Faithful(q) && (choice.Wake? ==> choice.t in q.threads && choice.t != t)
    ensures Faithful(PushStay(q, t, v, choice))
  {
    assert q.popped + (q.items + [v]) == q.popped + q.items + [v];
  }

  lemma PopFaithful<T>(q: Queue<T>, t: Tid, choice: Choice)
    requires Faithful(q) && (choice.Wake? ==> choice.t in q.threads && choice.t != t)
    ensures Faithful(PopStay(q, t, choice))
  {
    if q.items != [] {
      assert q.popped + [q.items[0]] + q.items[1..] == q.popped + q.items;
    }
  }

  lemma ClosedWaitsKept<T>(q: Queue<T>, step: Step<T>)
    requires CanStep(q, step) && ClosedWaits(q)
    ensures ClosedWaits(Do(q, step))
  {
  }

  /** A thread that may enter push now: a new caller, or one woken in push. */
  ghost predicate MayPush<T>(q: Queue<T>, t: Tid) {
    t in q.threads ==> q.threads[t].PushWoken?
  }

  ghost predicate MayPop<T>(q: Queue<T>, t: Tid) {
    t in q.threads ==> q.threads[t].PopWoken?
  }

  ghost predicate SameElsewhere<T(!new)>(m: map<Tid, Thread<T>>, m0: map<Tid, Thread<T>>, t: Tid) {
    forall u :: u != t ==> (u in m <==> u in m0) && (u in m ==> m[u] == m0[u])
  }

  function One(b: bool): nat {
    if b then 1 else 0
  }

  /** The part of thread `t` in the census. */
  ghost function Share<T>(threads: map<Tid, Thread<T>>, t: Tid): Counts {
    if t !in threads then Counts(0, 0, 0, 0)
    else Counts(One(threads[t].PopWaiting?), One(threads[t].PushWaiting? || threads[t].CloseWaiting?),
                One(threads[t].PopWoken?), One(threads[t].PushWoken?))
  }

  /** When one thread moves, the census changes by its old and its new share. */
  lemma OneMoves<T(!new)>(m: map<Tid, Thread<T>>, m0: map<Tid, Thread<T>>, t: Tid)
    requires SameElsewhere(m, m0, t)
    ensures Census(m).dataWaiters + Share(m0, t).dataWaiters == Census(m0).dataWaiters + Share(m, t).dataWaiters
    ensures Census(m).spaceWaiters + Share(m0, t).spaceWaiters == Census(m0).spaceWaiters + Share(m, t).spaceWaiters
    ensures Census(m).wokenPops + Share(m0, t).wokenPops == Census(m0).wokenPops + Share(m, t).wokenPops
    ensures Census(m).wokenPushes + Share(m0, t).wokenPushes == Census(m0).wokenPushes + Share(m, t).wokenPushes
  {
    SetMoves(DataWaiters(m), DataWaiters(m0), t);
    SetMoves(SpaceWaiters(m), SpaceWaiters(m0), t);
    SetMoves(WokenPops(m), WokenPops(m0), t);
    SetMoves(WokenPushes(m), WokenPushes(m0), t);
  }

  lemma SetMoves(s: set<Tid>, s0: set<Tid>, t: Tid)
    requires s - {t} == s0 - {t}
    ensures |s| + One(t in s0) == |s0| + One(t in s)
  {
    Split(s, t);
    Split(s0, t);
  }

  lemma Split(s: set<Tid>, t: Tid)
    ensures |s| == |s - {t}| + One(t in s)
  {
    if t in s {
      assert s == (s - {t}) + {t};
    } else {
      assert s == s - {t};
    }
  }

  lemma PushKeepsWoken<T(!new)>(q: Queue<T>, t: Tid, v: T, choice: Choice)
    requires MayPush(q, t) && ValidChoice(DataWaiters(q.threads), choice)
    requires EnoughWoken(q) && ClosedWaits(q)
    ensures EnoughWoken(PushStay(q, t, v, choice))
  {
    var r := PushStay(q, t, v, choice);
    if PushBlocks(q) {
      OneMoves(r.threads, q.threads, t);
    } else if !q.closed {
      var m := q.threads - {t};
      OneMoves(m, q.threads, t);
      if choice.Wake? {
        OneMoves(r.threads, m, choice.t);
      }
    }
  }

  lemma PopKeepsWoken<T(!new)>(q: Queue<T>, t: Tid, choice: Choice)
    requires MayPop(q, t) && ValidChoice(SpaceWaiters(q.threads), choice)
    requires EnoughWoken(q) && ClosedWaits(q)
    ensures EnoughWoken(PopStay(q, t, choice))
  {
    var r := PopStay(q, t, choice);
    if !q.closed {
      if q.items == [] {
        OneMoves(r.threads, q.threads, t);
      } else {
        var m := q.threads - {t};
        OneMoves(m, q.threads, t);
        if choice.Wake? {
          OneMoves(r.threads, m, choice.t);
        }
      }
    }
  }

  lemma SpuriousKeepsWoken<T(!new)>(q: Queue<T>, t: Tid)
    requires CanStep(q, Spurious(t)) && EnoughWoken(q) && ClosedWaits(q)
    ensures EnoughWoken(Do(q, Spurious(t)))
  {
    OneMoves(Do(q, Spurious(t)).threads, q.threads, t);
  }

  lemma StepKeepsInv<T(!new)>(q: Queue<T>, step: Step<T>)
    requires CanStep(q, step) && Inv(q)
    ensures Inv(Do(q, step))
  {
    FaithfulKept(q, step);
    ClosedWaitsKept(q, step);
    match step
    case Push(t, v, choice) => PushKeepsWoken(q, t, v, choice);
    case PushAgain(t, choice) => PushKeepsWoken(q, t, q.threads[t].v, choice);
    case Pop(t, choice) => PopKeepsWoken(q, t, choice);
    case PopAgain(t, choice) => PopKeepsWoken(q, t, choice);
    case Close(_, _) =>
    case CloseAgain(_) =>
    case Spurious(t) => SpuriousKeepsWoken(q, t);
  }

  // ----------------------------------------------------------------------- whole runs

  lemma {:induction false} RunKeepsInv<T(!new)>(q: Queue<T>, steps: seq<Step<T>>)
    requires Inv(q) && LegalRun(q, steps)
    ensures Inv(After(q, steps))
    decreases |steps|
  {
    if steps != [] {
      StepKeepsInv(q, steps[0]);
      RunKeepsInv(Do(q, steps[0]), steps[1..]);
    }
  }

  /** In every reachable state the values popped so far followed by the queue are the accepted
      pushes in order, the bound holds, and no wake-up has been lost. */
  lemma Reachable<T(!new)>(q: Queue<T>, steps: seq<Step<T>>)
    requires Initial(q) && LegalRun(q, steps)
    ensures Inv(After(q, steps))
  {
    RunKeepsInv(q, steps);
  }

  /** When no thread has been woken, every thread that waits is right to wait. */
  lemma NobodyWaitsInVain<T(!new)>(q: Queue<T>, steps: seq<Step<T>>)
    requires Initial(q) && LegalRun(q, steps)
    requires WokenPops(After(q, steps).threads) == {} && WokenPushes(After(q, steps).threads) == {}
    ensures var r := After(q, steps);
      && (DataWaiters(r.threads) != {} ==> r.items == [] && !r.closed)
      && (forall t :: t in r.threads && r.threads[t].PushWaiting? ==> !r.closed && |r.items| >= r.maxSize)
      && (forall t :: t in r.threads && r.threads[t].CloseWaiting? ==> r.closed && r.items != [])
  {
    Reachable(q, steps);
    var r := After(q, steps);
    forall t | t in r.threads && (r.threads[t].PushWaiting? || r.threads[t].CloseWaiting?)
      ensures t in SpaceWaiters(r.threads) {}
  }

  /** Once closed, a queue stays closed and accepts nothing more. */
  lemma {:induction false} ClosedAcceptsNothing<T>(q: Queue<T>, steps: seq<Step<T>>)
    requires q.closed && LegalRun(q, steps)
    ensures After(q, steps).closed && After(q, steps).accepted == q.accepted
    ensures |After(q, steps).items| <= |q.items|
    decreases |steps|
  {
    if steps != [] {
      ClosedStep(q, steps[0]);
      ClosedAcceptsNothing(Do(q, steps[0]), steps[1..]);
    }
  }

  lemma ClosedStep<T>(q: Queue<T>, step: Step<T>)
    requires q.closed && CanStep(q, step)
    ensures Do(q, step).closed && Do(q, step).accepted == q.accepted && |Do(q, step).items| <= |q.items|
  {
  }

  // ------------------------------------------------------------------- what each call does

  /** The value of each thread's last call of push, from the calls of a run alone. */
  ghost function LastPushed<T>(before: map<Tid, T>, steps: seq<Step<T>>): map<Tid, T>
    decreases |steps|
  {
    if steps == [] then before
    else if steps[0].Push? then LastPushed(before[steps[0].t := steps[0].v], steps[1..])
    else LastPushed(before, steps[1..])
  }

  /** A thread inside push still has the value it was called with. */
  ghost predicate HasItsValue<T>(q: Queue<T>, called: map<Tid, T>) {
    forall t :: t in q.threads && (q.threads[t].PushWaiting? || q.threads[t].PushWoken?) ==>
      t in called && q.threads[t].v == called[t]
  }

  lemma {:induction false} ValuesKept<T>(q: Queue<T>, steps: seq<Step<T>>, called: map<Tid, T>)
    requires LegalRun(q, steps) && HasItsValue(q, called)
    ensures HasItsValue(After(q, steps), LastPushed(called, steps))
    decreases |steps|
  {
    if steps != [] {
      ValuesKept(Do(q, steps[0]), steps[1..], if steps[0].Push? then called[steps[0].t := steps[0].v] else called);
    }
  }

  /** The value a push step is about: that of the call it belongs to. */
  ghost predicate Pushes<T>(called: map<Tid, T>, step: Step<T>, v: T) {
    (step.Push? && step.v == v) || (step.PushAgain? && step.t in called && called[step.t] == v)
  }

  /** The thread is not inside a call. */
  ghost predicate Returned<T>(q: Queue<T>, t: Tid) {
    t !in q.threads
  }

  /** In every run, a push of `v`, new or woken up, is accepted with that value exactly when the queue
      is open and has room; it waits exactly when it is open and full; and it returns false, leaving
      the queue alone, exactly when it is closed. */
  lemma PushOutcome<T>(q: Queue<T>, steps: seq<Step<T>>, step: Step<T>, v: T)
    requires Initial(q) && LegalRun(q, steps) && CanStep(After(q, steps), step)
    requires Pushes(LastPushed(map[], steps), step, v)
    ensures var r, u := After(q, steps), Do(After(q, steps), step);
            if r.closed then Returned(u, step.t) && u.accepted == r.accepted && u.items == r.items
            else if |r.items| < r.maxSize then
              Returned(u, step.t) && u.accepted == r.accepted + [v] && u.items == r.items + [v]
            else u == r.(threads := r.threads[step.t := PushWaiting(v)])
  {
    ValuesKept(q, steps, map[]);
  }

  /** A pop, new or woken up, takes the oldest value exactly when there is one; otherwise it returns
      false if the queue is closed and waits if it is open. */
  lemma PopOutcome<T>(q: Queue<T>, step: Step<T>)
    requires CanStep(q, step) && (step.Pop? || step.PopAgain?)
    ensures var u := Do(q, step);
            if q.items != [] then
              Returned(u, step.t) && u.popped == q.popped + [q.items[0]] && u.items == q.items[1..]
            else if q.closed then Returned(u, step.t) && u.popped == q.popped && u.items == q.items
            else u == q.(threads := q.threads[step.t := PopWaiting])
  {
  }

  /** Every close closes the queue, keeps what is in it and leaves nobody waiting but, with `wait`
      and a queue that is not empty, the caller. Without `wait` the caller has returned. */
  lemma CloseOutcome<T>(q: Queue<T>, step: Step<T>)
    requires CanStep(q, step) && step.Close?
    ensures var u := Do(q, step);
      && u.closed && u.items == q.items && u.accepted == q.accepted && u.popped == q.popped
      && u.threads.Keys == q.threads.Keys + (if step.wait && q.items != [] then {step.t} else {})
      && DataWaiters(u.threads) == {}
      && SpaceWaiters(u.threads) == (if step.wait && q.items != [] then {step.t} else {})
      && (!step.wait ==> Returned(u, step.t))
  {
  }

  /** A push that returns false: it leaves the call and its value is not accepted. */
  ghost predicate PushReturnsFalse<T>(q: Queue<T>, step: Step<T>) {
    && (step.Push? || step.PushAgain?) && CanStep(q, step)
    && Returned(Do(q, step), step.t) && Do(q, step).accepted == q.accepted
  }

  /** A push returns false only on a queue that is closed, and then nothing is accepted any more. */
  lemma PushFailsOnlyWhenClosed<T>(q: Queue<T>, step: Step<T>, later: seq<Step<T>>)
    requires PushReturnsFalse(q, step) && LegalRun(Do(q, step), later)
    ensures q.closed && After(Do(q, step), later).accepted == q.accepted
  {
    var t := Do(q, step);
    assert !q.closed && |q.items| < q.maxSize ==> |t.accepted| == |q.accepted| + 1;
    ClosedAcceptsNothing(t, later);
  }

  /** A pop that returns false: it leaves the call without a value. */
  ghost predicate PopReturnsFalse<T>(q: Queue<T>, step: Step<T>) {
    && (step.Pop? || step.PopAgain?) && CanStep(q, step)
    && step.t !in Do(q, step).threads && Do(q, step).popped == q.popped
  }

  /** A pop returns false only when everything ever accepted has been popped, now and for good. */
  lemma PopFailsOnlyWhenDrained<T(!new)>(q: Queue<T>, steps: seq<Step<T>>, step: Step<T>, later: seq<Step<T>>)
    requires Initial(q) && LegalRun(q, steps) && PopReturnsFalse(After(q, steps), step)
    requires LegalRun(Do(After(q, steps), step), later)
    ensures After(q, steps).closed && After(q, steps).popped == After(q, steps).accepted
    ensures var r := After(Do(After(q, steps), step), later);
            r.items == [] && r.accepted == After(q, steps).accepted && r.popped == r.accepted
  {
    Reachable(q, steps);
    var s := After(q, steps);
    var t := Do(s, step);
    assert s.items != [] ==> |t.popped| == |s.popped| + 1;
    StepKeepsInv(s, step);
    ClosedAcceptsNothing(t, later);
    RunKeepsInv(t, later);
  }

  /** A close(true) that returns: the caller leaves the call. */
  ghost predicate WaitingCloseReturns<T>(q: Queue<T>, step: Step<T>) {
    && CanStep(q, step) && ((step.Close? && step.wait) || step.CloseAgain?)
    && step.t !in Do(q, step).threads
  }

  /** close(true) returns only on a queue that is empty and will stay so. */
  lemma CloseReturnsOnlyWhenEmpty<T(!new)>(q: Queue<T>, steps: seq<Step<T>>, step: Step<T>, later: seq<Step<T>>)
    requires Initial(q) && LegalRun(q, steps) && WaitingCloseReturns(After(q, steps), step)
    requires LegalRun(Do(After(q, steps), step), later)
    ensures Do(After(q, steps), step).closed
    ensures After(Do(After(q, steps), step), later).items == []
  {
    Reachable(q, steps);
    ClosedAcceptsNothing(Do(After(q, steps), step), later);
  }
}

/** `GroupClose`: closes a queue when the last of a group of producers has called `close`. The check
    for zero and the decrement are separate atomic accesses to a 64-bit counter. */
module GroupCloses {

  import opened Bytes

  /** `inside`: callers between the check and the decrement; `decrements`, `closes`: how often the
      counter was decremented and the queue closed. */
  datatype Group = Group(size: nat, count: nat, inside: nat, decrements: nat, closes: nat)

  datatype Step = Check | Decrement

  predicate CanStep(g: Group, step: Step) {
    step == Decrement ==> g.inside > 0
  }

  function Do(g: Group, step: Step): Group
    requires CanStep(g, step)
  {
    match step
    case Check => if g.count == 0 then g else g.(inside := g.inside + 1)
    case Decrement =>
      Group(g.size, (g.count + U64_LIMIT - 1) % U64_LIMIT, g.inside - 1, g.decrements + 1,
            if g.count == 1 then g.closes + 1 else g.closes)
  }

  ghost predicate LegalRun(g: Group, steps: seq<Step>)
    decreases |steps|
  {
    steps == [] || (CanStep(g, steps[0]) && LegalRun(Do(g, steps[0]), steps[1..]))
  }

  ghost function After(g: Group, steps: seq<Step>): Group
    requires LegalRun(g, steps)
    decreases |steps|
  {
    if steps == [] then g else After(Do(g, steps[0]), steps[1..])
  }

  /** The counter and the number of closings after `d` decrements, for fewer than 2^64 excess ones. */
  ghost predicate Counts(g: Group) {
    && 0 < g.size < U64_LIMIT
    && (g.decrements < g.size + U64_LIMIT ==>
          && g.count == (if g.decrements <= g.size then g.size - g.decrements else g.size + U64_LIMIT - g.decrements)
          && g.closes == if g.decrements >= g.size then 1 else 0)
  }

  lemma CountsKept(g: Group, step: Step)
    requires CanStep(g, step) && Counts(g)
    ensures Counts(Do(g, step))
  {
    if step == Decrement && g.decrements + 1 < g.size + U64_LIMIT {
      if g.count == 0 {
        assert (g.count + U64_LIMIT - 1) % U64_LIMIT == U64_LIMIT - 1;
      } else {
        assert (g.count + U64_LIMIT - 1) % U64_LIMIT == g.count - 1;
      }
    }
  }

  /** In every interleaving, even with more callers than the group has members racing past the
      check, the queue is closed exactly once, by the decrement that completes the group. */
  lemma {:induction false} ClosedExactlyOnce(g: Group, steps: seq<Step>)
    requires Counts(g) && LegalRun(g, steps)
    requires After(g, steps).decrements < g.size + U64_LIMIT
    ensures After(g, steps).closes == if After(g, steps).decrements >= g.size then 1 else 0
    ensures After(g, steps).size == g.size
    decreases |steps|
  {
    if steps != [] {
      CountsKept(g, steps[0]);
      ClosedExactlyOnce(Do(g, steps[0]), steps[1..]);
    }
  }

  // ------------------------------------------------------------------ in terms of calls

  /** How many calls of close a run begins. */
  ghost function Calls(steps: seq<Step>): nat
    decreases |steps|
  {
    if steps == [] then 0 else (if steps[0] == Check then 1 else 0) + Calls(steps[1..])
  }

  /** Until the group is complete every one of the `calls` has decremented or is about to. */
  ghost predicate CallsCount(g: Group, calls: nat) {
    && g.decrements + g.inside <= calls
    && (g.decrements >= g.size || g.decrements + g.inside == calls)
  }

  lemma {:induction false} CallsCounted(g: Group, steps: seq<Step>, calls: nat)
    requires Counts(g) && LegalRun(g, steps) && CallsCount(g, calls)
    requires calls + Calls(steps) < g.size + U64_LIMIT
    ensures CallsCount(After(g, steps), calls + Calls(steps)) && After(g, steps).size == g.size
    decreases |steps|
  {
    if steps != [] {
      CountsKept(g, steps[0]);
      CallsCounted(Do(g, steps[0]), steps[1..], calls + if steps[0] == Check then 1 else 0);
    }
  }

  /** For every number of calls and every interleaving: the queue is not closed before as many members
      have called as the group has, and it is closed once when that many calls have finished. */
  lemma ClosedByTheLastCall(size: nat, steps: seq<Step>)
    requires 0 < size < U64_LIMIT && LegalRun(Group(size, size, 0, 0, 0), steps)
    requires Calls(steps) < size + U64_LIMIT
    ensures var r := After(Group(size, size, 0, 0, 0), steps);
      && r.closes <= 1
      && (Calls(steps) < size ==> r.closes == 0)
      && (Calls(steps) >= size && r.inside == 0 ==> r.closes == 1)
  {
    var g := Group(size, size, 0, 0, 0);
    CallsCounted(g, steps, 0);
    ClosedExactlyOnce(g, steps);
  }

  /** A group of no members never closes its queue. */
  lemma {:induction false} EmptyGroupNeverCloses(g: Group, steps: seq<Step>)
    requires g == Group(0, 0, 0, 0, 0) && LegalRun(g, steps)
    ensures After(g, steps).closes == 0
    decreases |steps|
  {
    if steps != [] {
      EmptyGroupNeverCloses(Do(g, steps[0]), steps[1..]);
    }
  }
}
