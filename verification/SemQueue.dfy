/** The bounded queue of cpp/misc/semqueue.cpp as a transition system. */
module SemQueue {
  /* Any number of producers run `productor` over their own script of items and
     any number of consumers run `consumer` until they have received the number
     of items they expect.  Each `sem_wait`, mutex acquisition, push, pop,
     `sem_post` and mutex release is one step of one thread. */

  import opened Arith
  import opened Sums
  import opened Threads

  /** The two constructor-time numbers of the queue. */
  datatype Config = Config(capacity: nat, waterMark: nat) {
    ghost predicate Valid() { capacity >= 1 && waterMark >= 1 }
  }

  /** Where a producer stands inside `post`; `todo` is what it has not yet pushed. */
  datatype Producer<T> =
    | Posting(todo: seq<T>)     // before sem_wait(&wsem_); finished when todo is empty
    | Admitted(todo: seq<T>)    // owns a writer token, wants the mutex
    | Pushing(todo: seq<T>)     // owns the mutex, about to push
    | Signalling(todo: seq<T>)  // has pushed, about to test the water mark
    | Leaving(todo: seq<T>)     // about to release the mutex

  /** Where a consumer stands inside its loop around `wait`. */
  datatype Consumer<T> =
    | Waiting(total: nat, expected: nat)  // at the loop test; finished when total == expected
    | Claimed(total: nat, expected: nat)  // owns a reader token, wants the mutex
    | Locked(total: nat, expected: nat)   // owns the mutex, about to fix the batch size
    | Draining(total: nat, expected: nat, left: nat, items: seq<T>)   // left items still to pop
    | Returning(total: nat, expected: nat, left: nat, items: seq<T>)  // popped one, owes its writer token

  /** The shared queue, the threads, and two histories: `log` tags each pushed
      item with its producer, `batches` lists what the calls of `wait` returned. */
  datatype State<T> = State(
    queue: seq<T>,
    wsem: nat,
    rsem: nat,
    mutex: Mutex,
    producers: seq<Producer<T>>,
    consumers: seq<Consumer<T>>,
    log: seq<(nat, T)>,
    batches: seq<seq<T>>)

  // ---------- the steps ----------

  /** Whether thread t has a step to take.  Every thread has at most one. */
  ghost predicate Enabled<T>(s: State<T>, t: Thread)
  {
    match t
    case Producing(i) =>
      i < |s.producers| &&
      (match s.producers[i]
       case Posting(todo) => todo != [] && s.wsem > 0
       case Admitted(_) => s.mutex == Free
       case _ => true)
    case Consuming(i) =>
      i < |s.consumers| &&
      (match s.consumers[i]
       case Waiting(total, expected) => total != expected && s.rsem > 0
       case Claimed(_, _) => s.mutex == Free
       case _ => true)
  }

  /** The step of producer i. */
  ghost function Produce<T>(c: Config, s: State<T>, i: nat): State<T>
    requires c.Valid() && Enabled(s, Producing(i))
    requires s.producers[i].Pushing? ==> s.producers[i].todo != []
  {
    match s.producers[i]
    case Posting(todo) =>
      s.(wsem := s.wsem - 1, producers := s.producers[i := Admitted(todo)])
    case Admitted(todo) =>
      s.(mutex := HeldBy(Producing(i)), producers := s.producers[i := Pushing(todo)])
    case Pushing(todo) =>
      s.(queue := s.queue + [todo[0]], log := s.log + [(i, todo[0])],
         producers := s.producers[i := Signalling(todo[1..])])
    case Signalling(todo) =>
      s.(rsem := if (|s.queue| - 1) % c.waterMark == 0 then s.rsem + 1 else s.rsem,
         producers := s.producers[i := Leaving(todo)])
    case Leaving(todo) =>
      s.(mutex := Free, producers := s.producers[i := Posting(todo)])
  }

  /** The step of consumer i. */
  ghost function Consume<T>(c: Config, s: State<T>, i: nat): State<T>
    requires c.Valid() && Enabled(s, Consuming(i))
    requires s.consumers[i].Draining? && s.consumers[i].left > 0 ==> s.queue != []
  {
    match s.consumers[i]
    case Waiting(total, expected) =>
      s.(rsem := s.rsem - 1, consumers := s.consumers[i := Claimed(total, expected)])
    case Claimed(total, expected) =>
      s.(mutex := HeldBy(Consuming(i)), consumers := s.consumers[i := Locked(total, expected)])
    case Locked(total, expected) =>
      var count := if c.waterMark < |s.queue| then c.waterMark else |s.queue|;
      s.(consumers := s.consumers[i := Draining(total, expected, count, [])])
    case Draining(total, expected, left, items) =>
      if left == 0 then
        s.(mutex := Free, batches := s.batches + [items],
           consumers := s.consumers[i := Waiting(total + |items|, expected)])
      else
        s.(queue := s.queue[1..],
           consumers := s.consumers[i := Returning(total, expected, left - 1, items + [s.queue[0]])])
    case Returning(total, expected, left, items) =>
      s.(wsem := s.wsem + 1, consumers := s.consumers[i := Draining(total, expected, left, items)])
  }

  /** What the code relies on at a step; Inv establishes it in every reachable state. */
  ghost predicate Safe<T>(s: State<T>, t: Thread)
    requires Enabled(s, t)
  {
    match t
    case Producing(i) => s.producers[i].Pushing? ==> s.producers[i].todo != []
    case Consuming(i) => s.consumers[i].Draining? && s.consumers[i].left > 0 ==> s.queue != []
  }

  ghost function Do<T>(c: Config, s: State<T>, t: Thread): State<T>
    requires c.Valid() && Enabled(s, t) && Safe(s, t)
  {
    match t
    case Producing(i) => Produce(c, s, i)
    case Consuming(i) => Consume(c, s, i)
  }

  ghost predicate Next<T>(c: Config, s: State<T>, s': State<T>)
    requires c.Valid()
  {
    exists t :: Enabled(s, t) && Safe(s, t) && s' == Do(c, s, t)
  }

  /** The state after construction: the writer semaphore is full, the reader
      semaphore empty, every producer is about to post its script. */
  ghost predicate Init<T>(c: Config, s: State<T>, scripts: seq<seq<T>>)
  {
    && s.queue == [] && s.wsem == c.capacity && s.rsem == 0 && s.mutex == Free
    && s.log == [] && s.batches == []
    && |s.producers| == |scripts|
    && (forall i :: 0 <= i < |scripts| ==> s.producers[i] == Posting(scripts[i]))
    && (forall i :: 0 <= i < |s.consumers| ==> s.consumers[i].Waiting? && s.consumers[i].total == 0)
  }

  /** A run: a non-empty sequence of states, each the successor of the one before. */
  ghost predicate IsRun<T>(c: Config, run: seq<State<T>>, scripts: seq<seq<T>>)
    requires c.Valid()
  {
    && run != [] && Init(c, run[0], scripts)
    && forall i :: 0 <= i < |run| - 1 ==> Next(c, run[i], run[i + 1])
  }

  /** A run goes on with any step its last state allows. */
  lemma RunExtends<T>(c: Config, run: seq<State<T>>, scripts: seq<seq<T>>, t: Thread)
    requires c.Valid() && IsRun(c, run, scripts)
    requires Enabled(run[|run| - 1], t) && Safe(run[|run| - 1], t)
    ensures IsRun(c, run + [Do(c, run[|run| - 1], t)], scripts)
  {
    hide Enabled, Safe, Do, Init;
    var run' := run + [Do(c, run[|run| - 1], t)];
    forall i | 0 <= i < |run'| - 1 ensures Next(c, run'[i], run'[i + 1]) {
      if i < |run| - 1 { assert run'[i] == run[i] && run'[i + 1] == run[i + 1]; }
    }
  }

  // ---------- the invariant ----------

  /** Sections that own the mutex. */
  ghost predicate InCritical<T>(s: State<T>, t: Thread)
  {
    match t
    case Producing(i) =>
      i < |s.producers| &&
      (s.producers[i].Pushing? || s.producers[i].Signalling? || s.producers[i].Leaving?)
    case Consuming(i) =>
      i < |s.consumers| && !s.consumers[i].Waiting? && !s.consumers[i].Claimed?
  }

  /** One for a producer holding a writer token it has not turned into an item. */
  ghost function SlotHeld<T>(p: Producer<T>): nat { if p.Admitted? || p.Pushing? then 1 else 0 }

  /** One for a consumer that has popped an item whose writer token it still owes. */
  ghost function SlotOwed<T>(k: Consumer<T>): nat { if k.Returning? then 1 else 0 }

  /** One for a consumer holding a reader token it has not turned into a batch. */
  ghost function TokenHeld<T>(k: Consumer<T>): nat { if k.Claimed? || k.Locked? then 1 else 0 }

  /** Items received by a consumer from the calls of `wait` that have returned. */
  ghost function Received<T>(k: Consumer<T>): nat { k.total }

  /** The size of the queue not counting an item whose producer has yet to test
      the water mark, nor the items the draining consumer has already claimed. */
  ghost function Settled<T>(s: State<T>): int
  {
    match s.mutex
    case HeldBy(Producing(i)) =>
      if i < |s.producers| && s.producers[i].Signalling? then |s.queue| - 1 else |s.queue|
    case HeldBy(Consuming(i)) =>
      if i < |s.consumers| && (s.consumers[i].Draining? || s.consumers[i].Returning?)
      then |s.queue| - s.consumers[i].left else |s.queue|
    case Free => |s.queue|
  }

  /** The batch the mutex owner has popped but not yet returned. */
  ghost function InHand<T>(s: State<T>): seq<T>
  {
    if s.mutex.HeldBy? && s.mutex.owner.Consuming? && s.mutex.owner.i < |s.consumers| &&
       (var k := s.consumers[s.mutex.owner.i]; k.Draining? || k.Returning?)
    then s.consumers[s.mutex.owner.i].items else []
  }

  function CeilDiv(a: nat, b: nat): nat
    requires b >= 1
  {
    (a + b - 1) / b
  }

  ghost function Untag<T>(log: seq<(nat, T)>): seq<T>
  {
    seq(|log|, i requires 0 <= i < |log| => log[i].1)
  }

  /** The items of the log pushed by producer p, in order. */
  ghost function By<T>(log: seq<(nat, T)>, p: nat): seq<T>
  {
    if log == [] then [] else
      By(log[..|log| - 1], p) + (if log[|log| - 1].0 == p then [log[|log| - 1].1] else [])
  }

  ghost predicate MutexOk<T>(s: State<T>)
  {
    forall t: Thread :: InCritical(s, t) <==> s.mutex == HeldBy(t)
  }

  /** Writer tokens, writer tokens in producers' hands, items and owed tokens make up the capacity. */
  ghost predicate SlotsOk<T>(c: Config, s: State<T>)
  {
    s.wsem + Sum(s.producers, SlotHeld) + |s.queue| + Sum(s.consumers, SlotOwed) == c.capacity
  }

  /** Reader tokens, free or claimed, are exactly one per started water mark of settled items. */
  ghost predicate TokensOk<T>(c: Config, s: State<T>)
    requires c.Valid()
  {
    Settled(s) >= 0 && s.rsem + Sum(s.consumers, TokenHeld) == CeilDiv(Settled(s), c.waterMark)
  }

  ghost predicate ConsumersOk<T>(c: Config, s: State<T>)
  {
    forall i :: 0 <= i < |s.consumers| && (s.consumers[i].Draining? || s.consumers[i].Returning?) ==>
      var k := s.consumers[i];
      && k.left <= |s.queue| && 1 <= k.left + |k.items| <= c.waterMark
      && (k.Returning? ==> k.items != [])
  }

  ghost predicate ProducersOk<T>(s: State<T>)
  {
    forall i :: 0 <= i < |s.producers| && (s.producers[i].Admitted? || s.producers[i].Pushing?) ==>
      s.producers[i].todo != []
  }

  /** Nothing is lost, duplicated or reordered on the way through the queue. */
  ghost predicate OrderOk<T>(s: State<T>)
  {
    && Flatten(s.batches) + InHand(s) + s.queue == Untag(s.log)
    && Sum(s.consumers, Received) == |Flatten(s.batches)|
  }

  /** Each producer has pushed a prefix of its script. */
  ghost predicate ScriptsOk<T>(s: State<T>, scripts: seq<seq<T>>)
  {
    && |s.producers| == |scripts|
    && (forall p :: 0 <= p < |scripts| ==> By(s.log, p) + s.producers[p].todo == scripts[p])
    && (forall j :: 0 <= j < |s.log| ==> s.log[j].0 < |scripts|)
  }

  ghost predicate BatchesOk<T>(c: Config, s: State<T>)
  {
    forall b :: b in s.batches ==> 1 <= |b| <= c.waterMark
  }

  ghost predicate Inv<T>(c: Config, s: State<T>, scripts: seq<seq<T>>)
    requires c.Valid()
  {
    && MutexOk(s) && ConsumersOk(c, s) && ProducersOk(s)
    && SlotsOk(c, s) && TokensOk(c, s)
    && OrderOk(s) && ScriptsOk(s, scripts) && BatchesOk(c, s)
  }

  // ---------- the invariant holds in every reachable state ----------

  lemma InitInv<T>(c: Config, s: State<T>, scripts: seq<seq<T>>)
    requires c.Valid() && Init(c, s, scripts)
    ensures Inv(c, s, scripts)
  {
    SumZero(s.producers, SlotHeld);
    SumZero(s.consumers, SlotOwed);
    SumZero(s.consumers, TokenHeld);
    SumZero(s.consumers, Received);
    forall t: Thread ensures InCritical(s, t) <==> s.mutex == HeldBy(t) {}
    assert Flatten(s.batches) + InHand(s) + s.queue == Untag(s.log);
    assert CeilDiv(0, c.waterMark) == 0;
  }

  /** Crossing into a new water mark is exactly what the test in `post` detects. */
  lemma CeilDivSucc(n: nat, m: nat)
    requires m >= 1
    ensures CeilDiv(n + 1, m) == CeilDiv(n, m) + (if n % m == 0 then 1 else 0)
  {
    var q, r := n / m, n % m;
    assert n == q * m + r;
    DivModUnique(n + m, m, q + 1, r);
    if r == 0 {
      DivModUnique(n + m - 1, m, q, m - 1);
    } else {
      DivModUnique(n + m - 1, m, q + 1, r - 1);
    }
  }

  /** Taking a full batch, or the whole rest, uses up exactly one reader token. */
  lemma CeilDivBatch(n: nat, m: nat)
    requires m >= 1 && n >= 1
    ensures CeilDiv(n, m) == 1 + CeilDiv(if m < n then n - m else 0, m)
  {
    if m < n {
      var q, r := (n - m + m - 1) / m, (n - m + m - 1) % m;
      assert n - 1 == q * m + r;
      DivModUnique(n - 1 + m, m, q + 1, r);
    } else {
      DivModUnique(n + m - 1, m, 1, n - 1);
      DivModUnique(m - 1, m, 0, m - 1);
    }
  }

  /** Only the stepping thread enters or leaves the critical section. */
  lemma StepMutex<T>(c: Config, s: State<T>, t: Thread)
    requires c.Valid() && MutexOk(s) && Enabled(s, t) && Safe(s, t)
    ensures MutexOk(Do(c, s, t))
  {
    var s' := Do(c, s, t);
    assert InCritical(s, t) <==> s.mutex == HeldBy(t);
    forall u: Thread ensures InCritical(s', u) <==> s'.mutex == HeldBy(u) {
      assert InCritical(s, u) <==> s.mutex == HeldBy(u);
    }
  }

  lemma ProduceTokens<T>(c: Config, s: State<T>, i: nat)
    requires c.Valid() && MutexOk(s) && ProducersOk(s) && SlotsOk(c, s) && TokensOk(c, s)
    requires Enabled(s, Producing(i)) && Safe(s, Producing(i))
    ensures SlotsOk(c, Produce(c, s, i)) && TokensOk(c, Produce(c, s, i))
    ensures ProducersOk(Produce(c, s, i))
  {
    var s' := Produce(c, s, i);
    SumUpdate(s.producers, i, s'.producers[i], SlotHeld);
    assert InCritical(s, Producing(i)) <==> s.mutex == HeldBy(Producing(i));
    if s.producers[i].Signalling? {
      CeilDivSucc(|s.queue| - 1, c.waterMark);
    }
  }

  lemma ProduceOrder<T>(c: Config, s: State<T>, i: nat)
    requires c.Valid() && MutexOk(s) && OrderOk(s)
    requires Enabled(s, Producing(i)) && Safe(s, Producing(i))
    ensures OrderOk(Produce(c, s, i))
  {
    var s' := Produce(c, s, i);
    assert InCritical(s, Producing(i)) <==> s.mutex == HeldBy(Producing(i));
    if s.producers[i].Pushing? {
      assert Untag(s'.log) == Untag(s.log) + [s.producers[i].todo[0]];
    }
  }

  lemma ProduceScripts<T>(c: Config, s: State<T>, scripts: seq<seq<T>>, i: nat)
    requires c.Valid() && ScriptsOk(s, scripts)
    requires Enabled(s, Producing(i)) && Safe(s, Producing(i))
    ensures ScriptsOk(Produce(c, s, i), scripts)
  {
    var s' := Produce(c, s, i);
    if s.producers[i].Pushing? {
      var todo := s.producers[i].todo;
      assert s'.log[..|s'.log| - 1] == s.log;
      assert todo == [todo[0]] + todo[1..];
      assert By(s'.log, i) + todo[1..] == By(s.log, i) + todo;
    }
  }

  lemma ConsumeTokens<T>(c: Config, s: State<T>, i: nat)
    requires c.Valid() && MutexOk(s) && ConsumersOk(c, s) && SlotsOk(c, s) && TokensOk(c, s)
    requires Enabled(s, Consuming(i)) && Safe(s, Consuming(i))
    ensures SlotsOk(c, Consume(c, s, i)) && TokensOk(c, Consume(c, s, i))
    ensures s.consumers[i].Locked? ==> s.queue != []
  {
    var s' := Consume(c, s, i);
    SumUpdate(s.consumers, i, s'.consumers[i], SlotOwed);
    SumUpdate(s.consumers, i, s'.consumers[i], TokenHeld);
    SumBoundsElement(s.consumers, i, TokenHeld);
    assert InCritical(s, Consuming(i)) <==> s.mutex == HeldBy(Consuming(i));
    if s.consumers[i].Locked? {
      if s.queue == [] { DivModUnique(c.waterMark - 1, c.waterMark, 0, c.waterMark - 1); }
      CeilDivBatch(|s.queue|, c.waterMark);
    }
  }

  lemma ConsumeOrder<T>(c: Config, s: State<T>, i: nat)
    requires c.Valid() && MutexOk(s) && OrderOk(s)
    requires Enabled(s, Consuming(i)) && Safe(s, Consuming(i))
    ensures OrderOk(Consume(c, s, i))
  {
    var s' := Consume(c, s, i);
    SumUpdate(s.consumers, i, s'.consumers[i], Received);
    assert InCritical(s, Consuming(i)) <==> s.mutex == HeldBy(Consuming(i));
    if s.consumers[i].Draining? {
      if s.consumers[i].left == 0 {
        assert s'.batches[..|s'.batches| - 1] == s.batches;
      } else {
        assert s.queue == [s.queue[0]] + s.queue[1..];
      }
    }
  }

  lemma ConsumeBatches<T>(c: Config, s: State<T>, i: nat)
    requires c.Valid() && MutexOk(s) && ConsumersOk(c, s) && BatchesOk(c, s)
    requires Enabled(s, Consuming(i)) && Safe(s, Consuming(i))
    requires s.consumers[i].Locked? ==> s.queue != []
    ensures ConsumersOk(c, Consume(c, s, i)) && BatchesOk(c, Consume(c, s, i))
  {
    var s' := Consume(c, s, i);
    assert InCritical(s, Consuming(i)) <==> s.mutex == HeldBy(Consuming(i));
    forall j | 0 <= j < |s.consumers| && j != i
      ensures InCritical(s, Consuming(i)) ==> s.consumers[j].Waiting? || s.consumers[j].Claimed?
    {
      assert InCritical(s, Consuming(j)) <==> s.mutex == HeldBy(Consuming(j));
    }
  }

  /** The invariant is inductive, and makes every step of the code well defined. */
  lemma InvIsSafe<T>(c: Config, s: State<T>, scripts: seq<seq<T>>, t: Thread)
    requires c.Valid() && Inv(c, s, scripts) && Enabled(s, t)
    ensures Safe(s, t)
  {
  }

  lemma ProduceFrame<T>(c: Config, s: State<T>, i: nat)
    requires c.Valid() && ConsumersOk(c, s) && BatchesOk(c, s) && MutexOk(s)
    requires Enabled(s, Producing(i)) && Safe(s, Producing(i))
    ensures ConsumersOk(c, Produce(c, s, i)) && BatchesOk(c, Produce(c, s, i))
  {
  }

  lemma ConsumeFrame<T>(c: Config, s: State<T>, scripts: seq<seq<T>>, i: nat)
    requires c.Valid() && ProducersOk(s) && ScriptsOk(s, scripts)
    requires Enabled(s, Consuming(i)) && Safe(s, Consuming(i))
    ensures ProducersOk(Consume(c, s, i)) && ScriptsOk(Consume(c, s, i), scripts)
  {
  }

  lemma StepInv<T>(c: Config, s: State<T>, scripts: seq<seq<T>>, t: Thread)
    requires c.Valid() && Inv(c, s, scripts) && Enabled(s, t)
    ensures Safe(s, t) && Inv(c, Do(c, s, t), scripts)
  {
    InvIsSafe(c, s, scripts, t);
    StepMutex(c, s, t);
    hide MutexOk, SlotsOk, TokensOk, ConsumersOk, ProducersOk, OrderOk, ScriptsOk, BatchesOk, Produce, Consume, Safe;
    match t {
      case Producing(i) =>
        ProduceTokens(c, s, i);
        ProduceOrder(c, s, i);
        ProduceScripts(c, s, scripts, i);
        ProduceFrame(c, s, i);
      case Consuming(i) =>
        ConsumeTokens(c, s, i);
        ConsumeOrder(c, s, i);
        ConsumeBatches(c, s, i);
        ConsumeFrame(c, s, scripts, i);
    }
  }

  lemma {:induction false} RunInv<T>(c: Config, run: seq<State<T>>, scripts: seq<seq<T>>, n: nat)
    requires c.Valid() && IsRun(c, run, scripts) && n < |run|
    ensures Inv(c, run[n], scripts)
  {
    if n == 0 {
      InitInv(c, run[0], scripts);
    } else {
      RunInv(c, run, scripts, n - 1);
      assert Next(c, run[n - 1], run[n - 1 + 1]);
      var t :| Enabled(run[n - 1], t) && Safe(run[n - 1], t) && run[n] == Do(c, run[n - 1], t);
      StepInv(c, run[n - 1], scripts, t);
    }
  }

  // ---------- main results ----------

  /** Safety over every run of any number of producers and consumers. */
  lemma Safety<T>(c: Config, run: seq<State<T>>, scripts: seq<seq<T>>, n: nat)
    requires c.Valid() && IsRun(c, run, scripts) && n < |run|
    // the semaphores bound the queue
    ensures |run[n].queue| <= c.capacity
    ensures run[n].mutex == Free ==>
              run[n].wsem + Sum(run[n].producers, SlotHeld) + |run[n].queue| == c.capacity
    // one reader token per started water mark, although tokens are posted only once per water mark
    ensures run[n].mutex == Free ==>
              run[n].rsem + Sum(run[n].consumers, TokenHeld) == CeilDiv(|run[n].queue|, c.waterMark)
    // `wait` never returns an empty or an oversized batch
    ensures forall b :: b in run[n].batches ==> 1 <= |b| <= c.waterMark
    // first in, first out, nothing lost or duplicated
    ensures Flatten(run[n].batches) + InHand(run[n]) + run[n].queue == Untag(run[n].log)
    ensures forall p :: 0 <= p < |scripts| ==> By(run[n].log, p) <= scripts[p]
    // the mutex excludes
    ensures forall t: Thread, u: Thread :: InCritical(run[n], t) && InCritical(run[n], u) ==> t == u
  {
    var s := run[n];
    RunInv(c, run, scripts, n);
    if s.mutex == Free {
      forall i | 0 <= i < |s.consumers| ensures SlotOwed(s.consumers[i]) == 0 {
        assert InCritical(s, Consuming(i)) <==> s.mutex == HeldBy(Consuming(i));
      }
      SumZero(s.consumers, SlotOwed);
    }
    forall t: Thread, u: Thread | InCritical(s, t) && InCritical(s, u) ensures t == u {
      assert s.mutex == HeldBy(t) && s.mutex == HeldBy(u);
    }
    forall p | 0 <= p < |scripts| ensures By(s.log, p) <= scripts[p] {
      assert By(s.log, p) + s.producers[p].todo == scripts[p];
    }
  }

  ghost predicate ProducerDone<T>(p: Producer<T>) { p == Posting([]) }

  ghost predicate ConsumerDone<T>(k: Consumer<T>) { k.Waiting? && k.total == k.expected }

  ghost predicate Stuck<T>(s: State<T>) { forall t: Thread :: !Enabled(s, t) }

  /** The only way to get stuck with a consumer still waiting is to run out of
      items: no reader wake-up and no writer wake-up is ever lost. */
  lemma StuckOnlyWhenDrained<T>(c: Config, s: State<T>, scripts: seq<seq<T>>, i: nat)
    requires c.Valid() && Inv(c, s, scripts) && Stuck(s)
    requires i < |s.consumers| && !ConsumerDone(s.consumers[i])
    ensures s.queue == [] && s.mutex == Free
    ensures forall p :: 0 <= p < |s.producers| ==> ProducerDone(s.producers[p])
  {
    StuckThreads(c, s, scripts);
    assert !Enabled(s, Consuming(i));
    SumZero(s.consumers, TokenHeld);
    SumZero(s.consumers, SlotOwed);
    SumZero(s.producers, SlotHeld);
    if s.queue != [] { CeilDivBatch(|s.queue|, c.waterMark); }
    forall p | 0 <= p < |s.producers| ensures ProducerDone(s.producers[p]) {
      assert !Enabled(s, Producing(p));
    }
  }

  lemma OwnerCanStep<T>(c: Config, s: State<T>, scripts: seq<seq<T>>)
    requires c.Valid() && Inv(c, s, scripts) && s.mutex.HeldBy?
    ensures Enabled(s, s.mutex.owner)
  {
    assert InCritical(s, s.mutex.owner) <==> s.mutex == HeldBy(s.mutex.owner);
  }

  lemma StuckThreads<T>(c: Config, s: State<T>, scripts: seq<seq<T>>)
    requires c.Valid() && Inv(c, s, scripts) && Stuck(s)
    ensures s.mutex == Free
    ensures forall i :: 0 <= i < |s.consumers| ==> s.consumers[i].Waiting?
    ensures forall i :: 0 <= i < |s.producers| ==> s.producers[i].Posting?
  {
    if s.mutex.HeldBy? { OwnerCanStep(c, s, scripts); }
    forall i | 0 <= i < |s.consumers| ensures s.consumers[i].Waiting? {
      assert InCritical(s, Consuming(i)) <==> s.mutex == HeldBy(Consuming(i));
      assert !Enabled(s, Consuming(i));
    }
    forall i | 0 <= i < |s.producers| ensures s.producers[i].Posting? {
      assert InCritical(s, Producing(i)) <==> s.mutex == HeldBy(Producing(i));
      assert !Enabled(s, Producing(i));
    }
  }

  // ---------- termination ----------

  ghost function PWork<T>(p: Producer<T>): nat
  {
    11 * |p.todo| +
    match p
    case Posting(_) => 2
    case Admitted(_) => 1
    case Pushing(_) => 0
    case Signalling(_) => 4
    case Leaving(_) => 3
  }

  ghost function KWork<T>(k: Consumer<T>): nat
  {
    match k
    case Waiting(_, _) => 4
    case Claimed(_, _) => 3
    case Locked(_, _) => 2
    case Draining(_, _, _, items) => if items == [] then 1 else 5
    case Returning(_, _, _, _) => 6
  }

  /** An upper bound on the number of steps the system can still take. */
  ghost function Work<T>(s: State<T>): nat
  {
    Sum(s.producers, PWork) + 6 * |s.queue| + Sum(s.consumers, KWork)
  }

  lemma ProduceWork<T>(c: Config, s: State<T>, i: nat)
    requires c.Valid() && Enabled(s, Producing(i)) && Safe(s, Producing(i))
    ensures Work(Produce(c, s, i)) < Work(s)
  {
    SumUpdate(s.producers, i, Produce(c, s, i).producers[i], PWork);
  }

  lemma ConsumeWork<T>(c: Config, s: State<T>, i: nat)
    requires c.Valid() && ConsumersOk(c, s) && Enabled(s, Consuming(i)) && Safe(s, Consuming(i))
    ensures Work(Consume(c, s, i)) < Work(s)
  {
    SumUpdate(s.consumers, i, Consume(c, s, i).consumers[i], KWork);
  }

  lemma StepWork<T>(c: Config, s: State<T>, scripts: seq<seq<T>>, t: Thread)
    requires c.Valid() && Inv(c, s, scripts) && Enabled(s, t)
    ensures Safe(s, t) && Work(Do(c, s, t)) < Work(s)
  {
    StepInv(c, s, scripts, t);
    match t
    case Producing(i) => ProduceWork(c, s, i);
    case Consuming(i) => ConsumeWork(c, s, i);
  }

  /** Every run is finite, with an explicit bound fixed by the initial state:
      eleven per item, two per producer and four per consumer. */
  lemma {:induction false} RunsAreBounded<T>(c: Config, run: seq<State<T>>, scripts: seq<seq<T>>, n: nat)
    requires c.Valid() && IsRun(c, run, scripts) && n < |run|
    ensures n + Work(run[n]) <= Work(run[0]) == Sum(scripts, (x: seq<T>) => 11 * |x| + 2) + 4 * |run[0].consumers|
  {
    if n == 0 {
      InitialWork(run[0].producers, scripts);
      ConstantSum(run[0].consumers);
    } else {
      RunsAreBounded(c, run, scripts, n - 1);
      RunInv(c, run, scripts, n - 1);
      assert Next(c, run[n - 1], run[n - 1 + 1]);
      var t :| Enabled(run[n - 1], t) && Safe(run[n - 1], t) && run[n] == Do(c, run[n - 1], t);
      StepWork(c, run[n - 1], scripts, t);
    }
  }

  lemma {:induction false} InitialWork<T>(ps: seq<Producer<T>>, scripts: seq<seq<T>>)
    requires |ps| == |scripts| && forall i :: 0 <= i < |ps| ==> ps[i] == Posting(scripts[i])
    ensures Sum(ps, PWork) == Sum(scripts, (x: seq<T>) => 11 * |x| + 2)
  {
    if ps != [] { InitialWork(ps[1..], scripts[1..]); }
  }

  lemma {:induction false} ConstantSum<T>(ks: seq<Consumer<T>>)
    requires forall i :: 0 <= i < |ks| ==> ks[i].Waiting?
    ensures Sum(ks, KWork) == 4 * |ks|
  {
    if ks != [] { ConstantSum(ks[1..]); }
  }

  // ---------- the program of main: one producer, one consumer ----------

  /** One producer posting `items`, one consumer expecting that many. */
  ghost predicate IsMain<T>(run: seq<State<T>>, items: seq<T>)
  {
    && run != [] && |run[0].consumers| == 1
    && run[0].consumers[0].expected == |items|
  }

  lemma {:induction false} ConsumersFixed<T>(c: Config, run: seq<State<T>>, scripts: seq<seq<T>>, n: nat)
    requires c.Valid() && IsRun(c, run, scripts) && n < |run|
    ensures |run[n].consumers| == |run[0].consumers|
    ensures forall i :: 0 <= i < |run[0].consumers| ==> run[n].consumers[i].expected == run[0].consumers[i].expected
  {
    if n > 0 {
      ConsumersFixed(c, run, scripts, n - 1);
      assert Next(c, run[n - 1], run[n - 1 + 1]);
    }
  }

  lemma {:induction false} SingleProducerLog<T>(log: seq<(nat, T)>)
    requires forall j :: 0 <= j < |log| ==> log[j].0 == 0
    ensures By(log, 0) == Untag(log)
  {
    if log != [] {
      SingleProducerLog(log[..|log| - 1]);
      assert Untag(log) == Untag(log[..|log| - 1]) + [log[|log| - 1].1];
    }
  }

  /** Everything posted is received, in hand, queued or still to be posted. */
  lemma MainAccounts<T>(c: Config, run: seq<State<T>>, items: seq<T>, n: nat)
    requires c.Valid() && IsRun(c, run, [items]) && IsMain(run, items) && n < |run|
    ensures |run[n].producers| == |run[n].consumers| == 1
    ensures run[n].consumers[0].expected == |items|
    ensures Flatten(run[n].batches) + InHand(run[n]) + run[n].queue + run[n].producers[0].todo == items
    ensures run[n].consumers[0].total == |Flatten(run[n].batches)|
  {
    var s := run[n];
    RunInv(c, run, [items], n);
    ConsumersFixed(c, run, [items], n);
    SingleProducerLog(s.log);
    assert By(s.log, 0) + s.producers[0].todo == [items][0];
    assert Sum(s.consumers, Received) == Received(s.consumers[0]) + Sum(s.consumers[1..], Received);
  }

  /** `total` never overshoots `count`, so the `!=` loop of the consumer can only stop at equality. */
  lemma TotalNeverOvershoots<T>(c: Config, run: seq<State<T>>, items: seq<T>, n: nat)
    requires c.Valid() && IsRun(c, run, [items]) && IsMain(run, items) && n < |run|
    ensures |run[n].consumers| == 1 && run[n].consumers[0].total <= run[n].consumers[0].expected == |items|
  {
    MainAccounts(c, run, items, n);
  }

  /** A run of main that can go no further has finished both threads, and the
      batches received are exactly the items posted, in order. */
  lemma MainCompletes<T>(c: Config, run: seq<State<T>>, items: seq<T>)
    requires c.Valid() && IsRun(c, run, [items]) && IsMain(run, items)
    requires Stuck(run[|run| - 1])
    ensures var s := run[|run| - 1];
            && s.producers == [Posting([])] && s.consumers == [Waiting(|items|, |items|)]
            && Flatten(s.batches) == items && s.queue == [] && s.mutex == Free
  {
    var n := |run| - 1;
    var s := run[n];
    RunInv(c, run, [items], n);
    MainAccounts(c, run, items, n);
    StuckThreads(c, s, [items]);
    if !ConsumerDone(s.consumers[0]) {
      StuckOnlyWhenDrained(c, s, [items], 0);
    }
  }

  /** Main always ends: any run can be continued until both threads are done,
      within a number of steps fixed by the number of items. */
  lemma MainBounded<T>(c: Config, run: seq<State<T>>, items: seq<T>)
    requires c.Valid() && IsRun(c, run, [items]) && IsMain(run, items)
    ensures |run| <= 11 * |items| + 7
  {
    RunsAreBounded(c, run, [items], |run| - 1);
    assert Sum([items], (x: seq<T>) => 11 * |x| + 2) == 11 * |items| + 2 + Sum([items][1..], (x: seq<T>) => 11 * |x| + 2);
  }
}
