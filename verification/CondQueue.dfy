/** The queue of cpp/misc/queue.cpp as a transition system. */
module CondQueue {
  /* Consumers are woken through a condition variable; `post` notifies only when
     it finds the queue empty or at least a water mark long.  Any number of
     producers and consumers take turns; a notified consumer competes for the
     mutex like everyone else, a notification picks any sleeper, and a sleeper
     may also wake up for no reason. */

  import opened Sums
  import opened Threads

  /** Where a producer stands inside `post`; `todo` is what it has not yet pushed. */
  datatype Producer<T> =
    | Idle(todo: seq<T>)                  // wants the mutex; finished when todo is empty
    | Inside(todo: seq<T>)                // owns the mutex, about to push
    | Pushed(todo: seq<T>, oldsize: nat)  // about to decide on a notification
    | Leaving(todo: seq<T>)               // about to release the mutex

  /** Where a consumer stands inside its loop; `count` is what it still expects. */
  datatype Consumer<T> =
    | Ready(count: nat)                                // at the loop test, wants the mutex; finished at zero
    | Testing(count: nat)                              // owns the mutex, about to test the queue
    | Asleep(count: nat)                               // in the condition variable's wait set
    | Woken(count: nat)                                // out of the wait set, wants the mutex back
    | Draining(count: nat, left: nat, items: seq<T>)   // owns the mutex, left items still to pop

  /** `posted` and `received` are histories: what was pushed, and what the calls
      of `wait` that have returned handed out. */
  datatype State<T> = State(
    queue: seq<T>,
    mutex: Mutex,
    producers: seq<Producer<T>>,
    consumers: seq<Consumer<T>>,
    posted: seq<T>,
    received: seq<T>)

  // ---------- the moves ----------

  datatype Move =
    | Go(t: Thread)              // a thread's own next step
    | Notify(i: nat, j: nat)     // producer i's notify_one picks the sleeping consumer j
    | Spurious(j: nat)           // consumer j wakes up unasked

  predicate Notifies(oldsize: nat, waterMark: nat) { oldsize == 0 || oldsize >= waterMark }

  ghost predicate NoSleeper<T>(s: State<T>) { forall j :: 0 <= j < |s.consumers| ==> !s.consumers[j].Asleep? }

  ghost predicate Sleeping<T>(s: State<T>, j: nat) { j < |s.consumers| && s.consumers[j].Asleep? }

  ghost predicate Enabled<T>(waterMark: nat, s: State<T>, m: Move)
  {
    match m
    case Go(Producing(i)) =>
      i < |s.producers| &&
      (match s.producers[i]
       case Idle(todo) => todo != [] && s.mutex == Free
       case Inside(todo) => todo != []
       case Pushed(_, oldsize) => !Notifies(oldsize, waterMark) || NoSleeper(s)
       case Leaving(_) => true)
    case Go(Consuming(j)) =>
      j < |s.consumers| &&
      (match s.consumers[j]
       case Ready(count) => count > 0 && s.mutex == Free
       case Testing(_) => true
       case Asleep(_) => false
       case Woken(_) => s.mutex == Free
       case Draining(_, left, _) => left == 0 || s.queue != [])
    case Notify(i, j) =>
      i < |s.producers| && s.producers[i].Pushed? && Notifies(s.producers[i].oldsize, waterMark) && Sleeping(s, j)
    case Spurious(j) => Sleeping(s, j)
  }

  const WRAP: nat := 0x1_0000_0000_0000_0000

  /** count -= n on a size_t. */
  function Minus(count: nat, n: nat): nat { if n <= count then count - n else (count - n) % WRAP }

  /** A consumer that receives no more than it still expects counts down to what
      is left; one that receives more ends up just below 2^64 and goes on. */
  lemma MinusIs(count: nat, n: nat)
    requires count < 0x1_0000_0000_0000_0000 && n < 0x1_0000_0000_0000_0000
    ensures n <= count ==> Minus(count, n) + n == count
    ensures n > count ==> 0 < Minus(count, n) == 0x1_0000_0000_0000_0000 - (n - count)
  {
  }

  ghost function Produce<T>(waterMark: nat, s: State<T>, i: nat): State<T>
    requires Enabled(waterMark, s, Go(Producing(i)))
  {
    match s.producers[i]
    case Idle(todo) => s.(mutex := HeldBy(Producing(i)), producers := s.producers[i := Inside(todo)])
    case Inside(todo) =>
      s.(queue := s.queue + [todo[0]], posted := s.posted + [todo[0]],
         producers := s.producers[i := Pushed(todo[1..], |s.queue|)])
    case Pushed(todo, _) => s.(producers := s.producers[i := Leaving(todo)])
    case Leaving(todo) => s.(mutex := Free, producers := s.producers[i := Idle(todo)])
  }

  ghost function Consume<T>(waterMark: nat, s: State<T>, j: nat): State<T>
    requires Enabled(waterMark, s, Go(Consuming(j)))
  {
    match s.consumers[j]
    case Ready(count) => s.(mutex := HeldBy(Consuming(j)), consumers := s.consumers[j := Testing(count)])
    case Woken(count) => s.(mutex := HeldBy(Consuming(j)), consumers := s.consumers[j := Testing(count)])
    case Testing(count) =>
      if s.queue == [] then s.(mutex := Free, consumers := s.consumers[j := Asleep(count)])
      else
        var n := if waterMark < |s.queue| then waterMark else |s.queue|;
        s.(consumers := s.consumers[j := Draining(count, n, [])])
    case Asleep(_) => s
    case Draining(count, left, items) =>
      if left == 0 then
        s.(mutex := Free, received := s.received + items,
           consumers := s.consumers[j := Ready(Minus(count, |items|))])
      else
        s.(queue := s.queue[1..],
           consumers := s.consumers[j := Draining(count, left - 1, items + [s.queue[0]])])
  }

  ghost function Wake<T>(s: State<T>, j: nat): State<T>
    requires Sleeping(s, j)
  {
    s.(consumers := s.consumers[j := Woken(s.consumers[j].count)])
  }

  ghost function Do<T>(waterMark: nat, s: State<T>, m: Move): State<T>
    requires Enabled(waterMark, s, m)
  {
    match m
    case Go(Producing(i)) => Produce(waterMark, s, i)
    case Go(Consuming(j)) => Consume(waterMark, s, j)
    case Notify(i, j) => Wake(s, j).(producers := s.producers[i := Leaving(s.producers[i].todo)])
    case Spurious(j) => Wake(s, j)
  }

  ghost predicate Init<T>(s: State<T>)
  {
    && s.queue == [] && s.mutex == Free && s.posted == [] && s.received == []
    && (forall i :: 0 <= i < |s.producers| ==> s.producers[i].Idle?)
    && (forall j :: 0 <= j < |s.consumers| ==> s.consumers[j].Ready?)
  }

  ghost predicate Next<T>(waterMark: nat, s: State<T>, m: Move, s': State<T>)
  {
    Enabled(waterMark, s, m) && s' == Do(waterMark, s, m)
  }

  /** A run and the moves that make it. */
  ghost predicate IsRun<T>(waterMark: nat, run: seq<State<T>>, moves: seq<Move>)
  {
    && |run| == |moves| + 1 && Init(run[0])
    && forall i :: 0 <= i < |moves| ==> Next(waterMark, run[i], moves[i], run[i + 1])
  }

  /** A run goes on with any move its last state allows. */
  lemma RunExtends<T>(waterMark: nat, run: seq<State<T>>, moves: seq<Move>, m: Move)
    requires IsRun(waterMark, run, moves) && Enabled(waterMark, run[|moves|], m)
    ensures IsRun(waterMark, run + [Do(waterMark, run[|moves|], m)], moves + [m])
  {
    hide Enabled, Do, Init;
    var run', moves' := run + [Do(waterMark, run[|moves|], m)], moves + [m];
    forall i | 0 <= i < |moves'| ensures Next(waterMark, run'[i], moves'[i], run'[i + 1]) {
      if i < |moves| { assert run'[i] == run[i] && moves'[i] == moves[i] && run'[i + 1] == run[i + 1]; }
    }
  }

  // ---------- the invariant ----------

  ghost predicate InCritical<T>(s: State<T>, t: Thread)
  {
    match t
    case Producing(i) => i < |s.producers| && !s.producers[i].Idle?
    case Consuming(j) => j < |s.consumers| && (s.consumers[j].Testing? || s.consumers[j].Draining?)
  }

  ghost predicate MutexOk<T>(s: State<T>)
  {
    forall t: Thread :: InCritical(s, t) <==> s.mutex == HeldBy(t)
  }

  ghost function SleepsF<T>(k: Consumer<T>): nat { if k.Asleep? then 1 else 0 }

  /** One for a consumer that has been woken and has not yet looked at the queue. */
  ghost function PendingF<T>(k: Consumer<T>): nat { if k.Woken? || k.Testing? then 1 else 0 }

  /** The size of the queue not counting an item whose producer has yet to decide
      on its notification, nor the items the draining consumer has claimed. */
  ghost function Settled<T>(s: State<T>): int
  {
    match s.mutex
    case HeldBy(Producing(i)) =>
      if i < |s.producers| && s.producers[i].Pushed? then s.producers[i].oldsize else |s.queue|
    case HeldBy(Consuming(j)) =>
      if j < |s.consumers| && s.consumers[j].Draining? then |s.queue| - s.consumers[j].left else |s.queue|
    case Free => |s.queue|
  }

  /** The number of woken consumers a queue of n items calls for while others
      sleep: one, and one more for every item beyond the water mark. */
  function Owed(n: int, waterMark: nat): int { if n <= 0 then 0 else if n <= waterMark then 1 else 1 + n - waterMark }

  ghost predicate WakeOk<T>(waterMark: nat, s: State<T>)
  {
    Sum(s.consumers, SleepsF) == 0 || Sum(s.consumers, PendingF) >= Owed(Settled(s), waterMark)
  }

  ghost predicate PartsOk<T>(waterMark: nat, s: State<T>)
  {
    && (forall i :: 0 <= i < |s.producers| && s.producers[i].Inside? ==> s.producers[i].todo != [])
    && (forall i :: 0 <= i < |s.producers| && s.producers[i].Pushed? ==> s.producers[i].oldsize + 1 == |s.queue|)
    && (forall j :: 0 <= j < |s.consumers| && s.consumers[j].Draining? ==>
          var k := s.consumers[j];
          k.left <= |s.queue| && 1 <= k.left + |k.items| <= waterMark)
  }

  ghost function InHand<T>(s: State<T>): seq<T>
  {
    if s.mutex.HeldBy? && s.mutex.owner.Consuming? && s.mutex.owner.i < |s.consumers| &&
       s.consumers[s.mutex.owner.i].Draining?
    then s.consumers[s.mutex.owner.i].items else []
  }

  ghost predicate OrderOk<T>(s: State<T>) { s.received + InHand(s) + s.queue == s.posted }

  ghost predicate Inv<T>(waterMark: nat, s: State<T>)
  {
    MutexOk(s) && PartsOk(waterMark, s) && WakeOk(waterMark, s) && OrderOk(s)
  }

  lemma InitInv<T>(waterMark: nat, s: State<T>)
    requires Init(s)
    ensures Inv(waterMark, s)
  {
    SumZero(s.consumers, SleepsF);
    assert s.received + InHand(s) + s.queue == s.posted;
  }

  lemma StepMutex<T>(waterMark: nat, s: State<T>, m: Move)
    requires MutexOk(s) && Enabled(waterMark, s, m)
    ensures MutexOk(Do(waterMark, s, m))
  {
    var s' := Do(waterMark, s, m);
    forall u: Thread ensures InCritical(s', u) <==> s'.mutex == HeldBy(u) {
      assert InCritical(s, u) <==> s.mutex == HeldBy(u);
      if m.Go? { assert InCritical(s, m.t) <==> s.mutex == HeldBy(m.t); }
    }
  }

  /** Whoever owns the mutex is the only one inside. */
  lemma OnlyOwner<T>(s: State<T>, t: Thread)
    requires MutexOk(s) && InCritical(s, t)
    ensures s.mutex == HeldBy(t) && forall u: Thread :: u != t ==> !InCritical(s, u)
  {
    forall u: Thread | u != t ensures !InCritical(s, u) {
      assert InCritical(s, u) <==> s.mutex == HeldBy(u);
      assert InCritical(s, t) <==> s.mutex == HeldBy(t);
    }
  }

  lemma StepParts<T>(waterMark: nat, s: State<T>, m: Move)
    requires waterMark >= 1 && MutexOk(s) && PartsOk(waterMark, s) && Enabled(waterMark, s, m)
    ensures PartsOk(waterMark, Do(waterMark, s, m))
  {
    var s' := Do(waterMark, s, m);
    if m.Go? && InCritical(s, m.t) {
      OnlyOwner(s, m.t);
      forall i | 0 <= i < |s.producers| ensures Producing(i) != m.t ==> s.producers[i].Idle? {
        assert Producing(i) != m.t ==> !InCritical(s, Producing(i));
      }
      forall j | 0 <= j < |s.consumers| ensures Consuming(j) != m.t ==> !s.consumers[j].Draining? {
        assert Consuming(j) != m.t ==> !InCritical(s, Consuming(j));
      }
    }
  }

  lemma StepOrder<T>(waterMark: nat, s: State<T>, m: Move)
    requires MutexOk(s) && OrderOk(s) && Enabled(waterMark, s, m)
    ensures OrderOk(Do(waterMark, s, m))
  {
    var s' := Do(waterMark, s, m);
    if m.Go? { assert InCritical(s, m.t) <==> s.mutex == HeldBy(m.t); }
    if m.Go? && m.t.Consuming? && s.consumers[m.t.i].Draining? && s.queue != [] {
      assert s.queue == [s.queue[0]] + s.queue[1..];
    }
    if m.Notify? { assert InCritical(s, Producing(m.i)) <==> s.mutex == HeldBy(Producing(m.i)); }
    if m.Spurious? { assert InCritical(s, Consuming(m.j)) <==> s.mutex == HeldBy(Consuming(m.j)); }
  }

  /** Every push beyond the water mark, and every push onto an empty queue, adds
      the woken consumer it owes. */
  lemma ProduceWake<T>(waterMark: nat, s: State<T>, i: nat)
    requires waterMark >= 1 && MutexOk(s) && PartsOk(waterMark, s) && WakeOk(waterMark, s)
    requires Enabled(waterMark, s, Go(Producing(i)))
    ensures WakeOk(waterMark, Produce(waterMark, s, i))
  {
    assert InCritical(s, Producing(i)) <==> s.mutex == HeldBy(Producing(i));
    if NoSleeper(s) { SumZero(s.consumers, SleepsF); }
  }

  lemma NotifyWake<T>(waterMark: nat, s: State<T>, i: nat, j: nat)
    requires waterMark >= 1 && MutexOk(s) && PartsOk(waterMark, s) && WakeOk(waterMark, s)
    requires Enabled(waterMark, s, Notify(i, j))
    ensures WakeOk(waterMark, Do(waterMark, s, Notify(i, j)))
  {
    var s' := Do(waterMark, s, Notify(i, j));
    assert InCritical(s, Producing(i)) <==> s.mutex == HeldBy(Producing(i));
    SumUpdate(s.consumers, j, s'.consumers[j], SleepsF);
    SumUpdate(s.consumers, j, s'.consumers[j], PendingF);
  }

  lemma ConsumeWake<T>(waterMark: nat, s: State<T>, j: nat)
    requires waterMark >= 1 && MutexOk(s) && PartsOk(waterMark, s) && WakeOk(waterMark, s)
    requires Enabled(waterMark, s, Go(Consuming(j)))
    ensures WakeOk(waterMark, Consume(waterMark, s, j))
  {
    var s' := Consume(waterMark, s, j);
    assert InCritical(s, Consuming(j)) <==> s.mutex == HeldBy(Consuming(j));
    SumUpdate(s.consumers, j, s'.consumers[j], SleepsF);
    SumUpdate(s.consumers, j, s'.consumers[j], PendingF);
  }

  lemma SpuriousWake<T>(waterMark: nat, s: State<T>, j: nat)
    requires MutexOk(s) && WakeOk(waterMark, s) && Sleeping(s, j)
    ensures WakeOk(waterMark, Wake(s, j))
  {
    var s' := Wake(s, j);
    assert InCritical(s, Consuming(j)) <==> s.mutex == HeldBy(Consuming(j));
    SumUpdate(s.consumers, j, s'.consumers[j], SleepsF);
    SumUpdate(s.consumers, j, s'.consumers[j], PendingF);
    SumBoundsElement(s.consumers, j, SleepsF);
  }

  lemma StepInv<T>(waterMark: nat, s: State<T>, m: Move)
    requires waterMark >= 1 && Inv(waterMark, s) && Enabled(waterMark, s, m)
    ensures Inv(waterMark, Do(waterMark, s, m))
  {
    hide MutexOk, PartsOk, WakeOk, OrderOk, Produce, Consume;
    StepMutex(waterMark, s, m);
    StepParts(waterMark, s, m);
    StepOrder(waterMark, s, m);
    match m {
      case Go(Producing(i)) => ProduceWake(waterMark, s, i);
      case Go(Consuming(j)) => ConsumeWake(waterMark, s, j);
      case Notify(i, j) => NotifyWake(waterMark, s, i, j);
      case Spurious(j) => SpuriousWake(waterMark, s, j);
    }
  }

  lemma {:induction false} RunInv<T>(waterMark: nat, run: seq<State<T>>, moves: seq<Move>, n: nat)
    requires waterMark >= 1 && IsRun(waterMark, run, moves) && n < |run|
    ensures Inv(waterMark, run[n])
  {
    if n == 0 {
      InitInv(waterMark, run[0]);
    } else {
      RunInv(waterMark, run, moves, n - 1);
      assert Next(waterMark, run[n - 1], moves[n - 1], run[n - 1 + 1]);
      StepInv(waterMark, run[n - 1], moves[n - 1]);
    }
  }

  // ---------- main results ----------

  /** No wake-up is lost, for any number of threads: whenever a consumer sleeps
      over a non-empty queue and the mutex is free, some other consumer has been
      woken and is on its way, and one more for each item beyond the water mark. */
  lemma NoLostWakeUp<T>(waterMark: nat, run: seq<State<T>>, moves: seq<Move>, n: nat, j: nat)
    requires waterMark >= 1 && IsRun(waterMark, run, moves) && n < |run|
    requires run[n].mutex == Free && Sleeping(run[n], j) && run[n].queue != []
    ensures Sum(run[n].consumers, PendingF) >= Owed(|run[n].queue|, waterMark) >= 1
    ensures exists k: nat :: k < |run[n].consumers| && run[n].consumers[k].Woken?
  {
    var s := run[n];
    RunInv(waterMark, run, moves, n);
    SumBoundsElement(s.consumers, j, SleepsF);
    if forall k: nat :: k < |s.consumers| ==> !s.consumers[k].Woken? {
      forall k | 0 <= k < |s.consumers| ensures PendingF(s.consumers[k]) == 0 {
        assert InCritical(s, Consuming(k)) <==> s.mutex == HeldBy(Consuming(k));
      }
      SumZero(s.consumers, PendingF);
    }
  }

  /** So a single consumer sleeps only over an empty queue. */
  lemma LoneSleeper<T>(waterMark: nat, run: seq<State<T>>, moves: seq<Move>, n: nat)
    requires waterMark >= 1 && IsRun(waterMark, run, moves) && n < |run|
    requires run[n].mutex == Free && |run[n].consumers| == 1 && Sleeping(run[n], 0)
    ensures run[n].queue == []
  {
    if run[n].queue != [] { NoLostWakeUp(waterMark, run, moves, n, 0); }
  }

  /** First in, first out, nothing lost or duplicated, and mutual exclusion. */
  lemma Safety<T>(waterMark: nat, run: seq<State<T>>, moves: seq<Move>, n: nat)
    requires waterMark >= 1 && IsRun(waterMark, run, moves) && n < |run|
    ensures run[n].received + InHand(run[n]) + run[n].queue == run[n].posted
    ensures forall t: Thread, u: Thread :: InCritical(run[n], t) && InCritical(run[n], u) ==> t == u
    ensures forall j :: 0 <= j < |run[n].consumers| && run[n].consumers[j].Draining? ==>
              1 <= run[n].consumers[j].left + |run[n].consumers[j].items| <= waterMark
  {
    RunInv(waterMark, run, moves, n);
    forall t: Thread, u: Thread | InCritical(run[n], t) && InCritical(run[n], u) ensures t == u {
      OnlyOwner(run[n], t);
    }
  }

  /** Nothing can happen any more but a spurious wake-up. */
  ghost predicate Stuck<T>(waterMark: nat, s: State<T>)
  {
    forall m: Move :: Enabled(waterMark, s, m) ==> m.Spurious?
  }

  ghost predicate ProducerDone<T>(p: Producer<T>) { p == Idle([]) }

  ghost predicate ConsumerDone<T>(k: Consumer<T>) { k == Ready(0) }

  lemma OwnerCanMove<T>(waterMark: nat, s: State<T>) returns (m: Move)
    requires Inv(waterMark, s) && s.mutex.HeldBy?
    ensures Enabled(waterMark, s, m) && !m.Spurious?
  {
    var t := s.mutex.owner;
    assert InCritical(s, t) <==> s.mutex == HeldBy(t);
    m := Go(t);
    if t.Producing? && s.producers[t.i].Pushed? && !NoSleeper(s) {
      var j: nat :| j < |s.consumers| && s.consumers[j].Asleep?;
      if Notifies(s.producers[t.i].oldsize, waterMark) { m := Notify(t.i, j); }
    }
  }

  lemma StuckIsFree<T>(waterMark: nat, s: State<T>)
    requires Inv(waterMark, s) && Stuck(waterMark, s)
    ensures s.mutex == Free
  {
    if s.mutex.HeldBy? { var m := OwnerCanMove(waterMark, s); }
  }

  lemma WokenCanMove<T>(waterMark: nat, run: seq<State<T>>, moves: seq<Move>, n: nat, j: nat) returns (m: Move)
    requires waterMark >= 1 && IsRun(waterMark, run, moves) && n < |run|
    requires run[n].mutex == Free && Sleeping(run[n], j) && run[n].queue != []
    ensures Enabled(waterMark, run[n], m) && !m.Spurious?
  {
    NoLostWakeUp(waterMark, run, moves, n, j);
    var k: nat :| k < |run[n].consumers| && run[n].consumers[k].Woken?;
    m := Go(Consuming(k));
  }

  /** The only way to get stuck is to have posted everything and, if somebody is
      still asleep, to have received everything posted. */
  lemma StuckOnlyWhenDrained<T>(waterMark: nat, run: seq<State<T>>, moves: seq<Move>, n: nat)
    requires waterMark >= 1 && IsRun(waterMark, run, moves) && n < |run| && Stuck(waterMark, run[n])
    ensures forall i :: 0 <= i < |run[n].producers| ==> ProducerDone(run[n].producers[i])
    ensures forall j :: 0 <= j < |run[n].consumers| ==> ConsumerDone(run[n].consumers[j]) || Sleeping(run[n], j)
    ensures (exists j: nat :: Sleeping(run[n], j)) ==> run[n].queue == [] && run[n].received == run[n].posted
  {
    var s := run[n];
    RunInv(waterMark, run, moves, n);
    StuckIsFree(waterMark, s);
    forall i | 0 <= i < |s.producers| ensures ProducerDone(s.producers[i]) {
      assert InCritical(s, Producing(i)) <==> s.mutex == HeldBy(Producing(i));
      assert !Enabled(waterMark, s, Go(Producing(i)));
    }
    forall j | 0 <= j < |s.consumers| ensures ConsumerDone(s.consumers[j]) || Sleeping(s, j) {
      assert InCritical(s, Consuming(j)) <==> s.mutex == HeldBy(Consuming(j));
      assert !Enabled(waterMark, s, Go(Consuming(j)));
    }
    if j: nat :| Sleeping(s, j) {
      if s.queue != [] { var m := WokenCanMove(waterMark, run, moves, n, j); }
    }
  }

  // ---------- termination ----------

  ghost function PWork<T>(p: Producer<T>): nat
  {
    10 * |p.todo| +
    match p
    case Idle(_) => 1
    case Inside(_) => 0
    case Pushed(_, _) => 5
    case Leaving(_) => 2
  }

  ghost function KWork<T>(k: Consumer<T>): nat
  {
    match k
    case Ready(_) => 2
    case Testing(_) => 1
    case Asleep(_) => 0
    case Woken(_) => 2
    case Draining(_, _, items) => if items == [] then 0 else 3
  }

  ghost function Work<T>(s: State<T>): nat
  {
    Sum(s.producers, PWork) + 4 * |s.queue| + Sum(s.consumers, KWork)
  }

  ghost function Unasked(moves: seq<Move>): nat
  {
    if moves == [] then 0 else Unasked(moves[..|moves| - 1]) + if moves[|moves| - 1].Spurious? then 1 else 0
  }

  /** One for each spurious wake-up among the moves. */
  lemma {:induction false} UnaskedIs(moves: seq<Move>)
    ensures Unasked(moves) <= |moves|
    ensures Unasked(moves) == 0 <==> forall i :: 0 <= i < |moves| ==> !moves[i].Spurious?
    ensures Unasked(moves) == |moves| <==> forall i :: 0 <= i < |moves| ==> moves[i].Spurious?
  {
    if moves != [] { UnaskedIs(moves[..|moves| - 1]); }
  }

  lemma StepWork<T>(waterMark: nat, s: State<T>, m: Move)
    requires waterMark >= 1 && PartsOk(waterMark, s) && Enabled(waterMark, s, m)
    ensures Work(Do(waterMark, s, m)) < Work(s) + if m.Spurious? then 3 else 0
  {
    var s' := Do(waterMark, s, m);
    match m {
      case Go(Producing(i)) => SumUpdate(s.producers, i, s'.producers[i], PWork);
      case Go(Consuming(j)) => SumUpdate(s.consumers, j, s'.consumers[j], KWork);
      case Notify(i, j) =>
        SumUpdate(s.producers, i, s'.producers[i], PWork);
        SumUpdate(s.consumers, j, s'.consumers[j], KWork);
      case Spurious(j) => SumUpdate(s.consumers, j, s'.consumers[j], KWork);
    }
  }

  /** Runs with finitely many spurious wake-ups are finite: ten moves an item, one
      a producer, two a consumer and three a spurious wake-up. */
  lemma {:induction false} RunsAreBounded<T>(waterMark: nat, run: seq<State<T>>, moves: seq<Move>, n: nat)
    requires waterMark >= 1 && IsRun(waterMark, run, moves) && n < |run|
    ensures n + Work(run[n]) <= Work(run[0]) + 3 * Unasked(moves[..n])
    ensures Work(run[0]) == Sum(run[0].producers, PWork) + 2 * |run[0].consumers|
  {
    if n == 0 {
      ReadyWork(run[0].consumers);
    } else {
      RunsAreBounded(waterMark, run, moves, n - 1);
      RunInv(waterMark, run, moves, n - 1);
      assert Next(waterMark, run[n - 1], moves[n - 1], run[n - 1 + 1]);
      StepWork(waterMark, run[n - 1], moves[n - 1]);
      assert moves[..n][..n - 1] == moves[..n - 1];
    }
  }

  lemma {:induction false} ReadyWork<T>(ks: seq<Consumer<T>>)
    requires forall j :: 0 <= j < |ks| ==> ks[j].Ready?
    ensures Sum(ks, KWork) == 2 * |ks|
  {
    if ks != [] { ReadyWork(ks[1..]); }
  }

  // ---------- the program of main ----------

  /** One producer posting `items`, one consumer expecting that many. */
  ghost predicate IsMain<T>(s: State<T>, items: seq<T>)
  {
    s.producers == [Idle(items)] && s.consumers == [Ready(|items|)]
  }

  lemma {:induction false} MainAccounts<T>(waterMark: nat, run: seq<State<T>>, moves: seq<Move>, items: seq<T>, n: nat)
    requires waterMark >= 1 && IsRun(waterMark, run, moves) && IsMain(run[0], items) && n < |run|
    ensures |run[n].producers| == |run[n].consumers| == 1
    ensures run[n].posted + run[n].producers[0].todo == items
    ensures run[n].consumers[0].count + |run[n].received| == |items|
    ensures run[n].consumers[0].Ready? || run[n].consumers[0].count > 0
  {
    if n > 0 {
      MainAccounts(waterMark, run, moves, items, n - 1);
      RunInv(waterMark, run, moves, n - 1);
      var s, m := run[n - 1], moves[n - 1];
      assert Next(waterMark, s, m, run[n - 1 + 1]);
      if m == Go(Producing(0)) && s.producers[0].Inside? {
        var todo := s.producers[0].todo;
        assert todo == [todo[0]] + todo[1..];
      }
      if m == Go(Consuming(0)) && s.consumers[0].Draining? {
        assert InCritical(s, Consuming(0)) <==> s.mutex == HeldBy(Consuming(0));
        assert |s.received + InHand(s)| <= |s.posted| <= |items|;
      }
    }
  }

  /** When main can go no further, both threads are done and the consumer has
      received exactly the items posted, in order. */
  lemma MainCompletes<T>(waterMark: nat, run: seq<State<T>>, moves: seq<Move>, items: seq<T>)
    requires waterMark >= 1 && IsRun(waterMark, run, moves) && IsMain(run[0], items)
    requires Stuck(waterMark, run[|moves|])
    ensures run[|moves|] == State([], Free, [Idle([])], [Ready(0)], items, items)
  {
    var s := run[|moves|];
    RunInv(waterMark, run, moves, |moves|);
    MainAccounts(waterMark, run, moves, items, |moves|);
    StuckIsFree(waterMark, s);
    StuckOnlyWhenDrained(waterMark, run, moves, |moves|);
    assert ProducerDone(s.producers[0]) && s.posted == items;
  }
}
