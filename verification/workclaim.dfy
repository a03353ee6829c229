/**
  The claim counter of the thread-pool variant as a sequential state
  machine. The counter `sWorkItemNr` starts at 0; a worker's
  `fetch_add(1)` is one indivisible step that hands out the old value and
  increments the counter. A value below kWorkItems makes the worker process
  that item; any other value makes it leave its loop for good. Processing
  an item touches only that item's bitset and the worker's own tally, so it
  is one step as well. A thread interleaving is a schedule: the sequence of
  thread numbers that take a step.
 */
module WorkClaim {
  import opened Primality
  import opened OddScan
  import opened ThreadPool

  datatype Worker = Claiming | Working(item: nat) | Exhausted

  /** One `fetch_add`: which thread called it and the value it returned. */
  datatype Claim = Claim(thread: nat, value: nat)

  /**
    The shared state: the counter, each worker's control state, the
    per-thread `prime_count` tallies, the item bitsets `s_results`, and the
    history of claims in the order they happened.
   */
  datatype Pool = Pool(counter: nat, workers: seq<Worker>, tallies: seq<nat>, store: seq<seq<bool>>, claims: seq<Claim>)

  /** The bitset a processed item ends with: bit j set iff its j-th odd value is prime. */
  function ItemBits(c: Config, w: nat): seq<bool>
    requires c.workItems > 0
  {
    PrimeBits(ItemStart(c, w), Half(c))
  }

  /** Before the threads start: counter 0, every worker about to claim, every bitset clear. */
  function Init(c: Config): Pool
    requires c.workItems > 0
  {
    Pool(0, seq(c.threads, _ => Claiming), seq(c.threads, _ => 0), seq(c.workItems, _ => Zeros(Half(c))), [])
  }

  /** Thread t takes one step; a thread that has left its loop does nothing. */
  function Step(c: Config, p: Pool, t: nat): Pool
    requires c.workItems > 0
  {
    if t >= |p.workers| || t >= |p.tallies| then p
    else match p.workers[t]
      case Claiming =>
        var v := p.counter;
        p.(counter := v + 1,
           claims := p.claims + [Claim(t, v)],
           workers := p.workers[t := if v < c.workItems then Working(v) else Exhausted])
      case Working(w) =>
        if w >= |p.store| then p
        else
          var bits := ItemBits(c, w);
          p.(store := p.store[w := bits],
             tallies := p.tallies[t := p.tallies[t] + Popcount(bits)],
             workers := p.workers[t := Claiming])
      case Exhausted => p
  }

  /**
    A working thread's step as the worker loop performs it: compute the
    item's `start` as `ValType` holds it, run the loop over
    `kCountPerWorkItem` values from there, store the bitset and add its
    count to the thread's tally. The loop only runs for a claimed value
    below kWorkItems. The step it takes is `Step`'s, and the tally grows by
    the number of primes in the item.
   */
  method WorkStep(c: Config, p: Pool, t: nat) returns (q: Pool)
    requires WellFormed(c)
    requires t < |p.workers| && t < |p.tallies| && p.workers[t].Working? && p.workers[t].item < c.workItems
    ensures q == Step(c, p, t)
    ensures p.workers[t].item < |p.store| ==>
      q.tallies[t] == p.tallies[t] + |KeepPrimes(Progression(ItemStart(c, p.workers[t].item), Half(c)))|
  {
    var w := p.workers[t].item;
    if w >= |p.store| {
      return p;
    }
    var start := WrappedItemStart(c, w);
    WorkerNoWrap(c, w);
    var slot, found := ProcessItem(start, ItemSize(c));
    ItemBitsArePrimes(ItemStart(c, w), Half(c));
    q := p.(store := p.store[w := slot],
            tallies := p.tallies[t := p.tallies[t] + found],
            workers := p.workers[t := Claiming]);
  }

  /** The state after the threads step in the order of `sched`. */
  function RunSchedule(c: Config, p: Pool, sched: seq<nat>): Pool
    requires c.workItems > 0
    decreases |sched|
  {
    if |sched| == 0 then p else RunSchedule(c, Step(c, p, sched[0]), sched[1..])
  }

  /** Every thread has left its loop: the point where `main` has joined them all. */
  predicate AllExhausted(p: Pool) {
    forall t :: 0 <= t < |p.workers| ==> p.workers[t] == Exhausted
  }

  function CountExhausted(ws: seq<Worker>): nat {
    if |ws| == 0 then 0 else (if ws[0] == Exhausted then 1 else 0) + CountExhausted(ws[1..])
  }

  function CountWorking(ws: seq<Worker>): nat {
    if |ws| == 0 then 0 else (if ws[0].Working? then 1 else 0) + CountWorking(ws[1..])
  }

  /** How many claims in the history returned `v`. */
  function Occurrences(claims: seq<Claim>, v: nat): nat {
    if |claims| == 0 then 0
    else Occurrences(claims[..|claims| - 1], v) + (if claims[|claims| - 1].value == v then 1 else 0)
  }

  /** Item w has been claimed and its claimant has finished it. */
  predicate Done(p: Pool, w: nat) {
    w < |p.claims| && p.claims[w].thread < |p.workers| && p.workers[p.claims[w].thread] != Working(w)
  }

  predicate Shape(c: Config, p: Pool)
    requires c.workItems > 0
  {
    |p.workers| == c.threads && |p.tallies| == c.threads && |p.store| == c.workItems
    && Uniform(p.store, Half(c)) && |p.claims| == p.counter
  }

  /** The k-th `fetch_add` returned k, and was made by some thread of the pool. */
  predicate ClaimsInOrder(p: Pool) {
    forall k :: 0 <= k < |p.claims| ==> p.claims[k].value == k && p.claims[k].thread < |p.workers|
  }

  /** A working thread holds an item below kWorkItems, and it is the thread that claimed it. */
  predicate Ownership(c: Config, p: Pool) {
    forall t :: 0 <= t < |p.workers| && p.workers[t].Working? ==>
      p.workers[t].item < c.workItems && p.workers[t].item < |p.claims| && p.claims[p.workers[t].item].thread == t
  }

  /** A bitset holds its item's primes once the item is done, and is clear until then. */
  predicate StoreState(c: Config, p: Pool)
    requires c.workItems > 0
  {
    forall w :: 0 <= w < |p.store| ==> p.store[w] == (if Done(p, w) then ItemBits(c, w) else Zeros(Half(c)))
  }

  /**
    A thread that receives a value of kWorkItems or more has left its loop,
    and no two such values went to the same thread.
   */
  predicate StopsAfterOverflow(c: Config, p: Pool) {
    (forall k :: c.workItems <= k < |p.claims| && p.claims[k].thread < |p.workers| ==> p.workers[p.claims[k].thread] == Exhausted)
    && (forall k1, k2 :: c.workItems <= k1 < k2 < |p.claims| ==> p.claims[k1].thread != p.claims[k2].thread)
  }

  /** The counter runs past kWorkItems by exactly the number of threads that have stopped. */
  predicate ExhaustedCount(c: Config, p: Pool) {
    CountExhausted(p.workers) == if p.counter <= c.workItems then 0 else p.counter - c.workItems
  }

  /**
    The invariant every step keeps. It includes the corrected guard
    `WellFormed`: with the range below 2^32 no `ValType` sum of a worker
    wraps, so the exact item bounds of `Step` are the worker's own.
   */
  predicate Inv(c: Config, p: Pool) {
    WellFormed(c) && Shape(c, p) && ClaimsInOrder(p) && Ownership(c, p) && StoreState(c, p)
    && StopsAfterOverflow(c, p) && ExhaustedCount(c, p) && Sum(p.tallies) == TotalBits(p.store)
  }

  /** Work still to be done: two per unclaimed value up to kWorkItems + kThreads, one per item being processed. */
  function Measure(c: Config, p: Pool): int {
    2 * (c.workItems + c.threads - p.counter) + CountWorking(p.workers)
  }

  // ---------------------------------------------------------------------
  // Counting lemmas

  lemma {:induction false} CountExhaustedUpdate(ws: seq<Worker>, t: nat, x: Worker)
    requires t < |ws|
    ensures CountExhausted(ws[t := x]) + (if ws[t] == Exhausted then 1 else 0)
         == CountExhausted(ws) + (if x == Exhausted then 1 else 0)
    decreases |ws|
  {
    if t > 0 {
      assert ws[t := x][1..] == ws[1..][t - 1 := x];
      CountExhaustedUpdate(ws[1..], t - 1, x);
    } else {
      assert ws[t := x][1..] == ws[1..];
    }
  }

  lemma {:induction false} CountWorkingUpdate(ws: seq<Worker>, t: nat, x: Worker)
    requires t < |ws|
    ensures CountWorking(ws[t := x]) + (if ws[t].Working? then 1 else 0)
         == CountWorking(ws) + (if x.Working? then 1 else 0)
    decreases |ws|
  {
    if t > 0 {
      assert ws[t := x][1..] == ws[1..][t - 1 := x];
      CountWorkingUpdate(ws[1..], t - 1, x);
    } else {
      assert ws[t := x][1..] == ws[1..];
    }
  }

  lemma {:induction false} CountExhaustedBound(ws: seq<Worker>)
    ensures CountExhausted(ws) <= |ws|
    ensures CountExhausted(ws) == |ws| <==> forall t :: 0 <= t < |ws| ==> ws[t] == Exhausted
    decreases |ws|
  {
    if |ws| > 0 {
      CountExhaustedBound(ws[1..]);
      if forall t :: 0 <= t < |ws| ==> ws[t] == Exhausted {
        forall t | 0 <= t < |ws| - 1
          ensures ws[1..][t] == Exhausted
        {
          assert ws[t + 1] == Exhausted;
        }
      }
      if CountExhausted(ws) == |ws| {
        forall t | 0 <= t < |ws|
          ensures ws[t] == Exhausted
        {
          if t > 0 {
            assert ws[t] == ws[1..][t - 1];
          }
        }
      }
    }
  }

  /** With the k-th claim returning k, every value below the counter was returned exactly once. */
  lemma {:induction false} OccurrencesInOrder(claims: seq<Claim>, v: nat)
    requires forall k :: 0 <= k < |claims| ==> claims[k].value == k
    ensures Occurrences(claims, v) == if v < |claims| then 1 else 0
    decreases |claims|
  {
    if |claims| > 0 {
      OccurrencesInOrder(claims[..|claims| - 1], v);
    }
  }

  // ---------------------------------------------------------------------
  // The invariant holds initially and is kept by every step

  lemma {:induction false} TotalBitsZeros(n: nat, h: nat)
    ensures TotalBits(seq(n, _ => Zeros(h))) == 0
    decreases n
  {
    if n > 0 {
      assert seq(n, _ => Zeros(h))[1..] == seq(n - 1, _ => Zeros(h));
      TotalBitsZeros(n - 1, h);
      PopcountZeros(h);
    }
  }

  lemma {:induction false} SumZeros(n: nat)
    ensures Sum(seq(n, _ => 0)) == 0
    decreases n
  {
    if n > 0 {
      assert seq(n, _ => 0)[1..] == seq(n - 1, _ => 0);
      SumZeros(n - 1);
    }
  }

  lemma {:induction false} CountExhaustedClaiming(n: nat)
    ensures CountExhausted(seq(n, _ => Claiming)) == 0
    decreases n
  {
    if n > 0 {
      assert seq(n, _ => Claiming)[1..] == seq(n - 1, _ => Claiming);
      CountExhaustedClaiming(n - 1);
    }
  }

  lemma InitInv(c: Config)
    requires WellFormed(c)
    ensures Inv(c, Init(c))
  {
    TotalBitsZeros(c.workItems, Half(c));
    SumZeros(c.threads);
    CountExhaustedClaiming(c.threads);
  }

  /** A claim keeps the history in order and hands the claimed item to the claimant alone. */
  lemma ClaimKeepsOwnership(c: Config, p: Pool, t: nat)
    requires Inv(c, p) && t < c.threads && p.workers[t] == Claiming
    ensures var q := Step(c, p, t);
      Shape(c, q) && ClaimsInOrder(q) && Ownership(c, q) && StopsAfterOverflow(c, q)
  {
  }

  lemma ClaimKeepsStore(c: Config, p: Pool, t: nat)
    requires Inv(c, p) && t < c.threads && p.workers[t] == Claiming
    ensures var q := Step(c, p, t);
      StoreState(c, q) && Sum(q.tallies) == TotalBits(q.store)
  {
    var q := Step(c, p, t);
    forall w | 0 <= w < |q.store|
      ensures Done(q, w) == Done(p, w)
    {
      if w < |p.claims| {
        assert q.claims[w] == p.claims[w];
      }
    }
  }

  lemma ClaimKeepsCount(c: Config, p: Pool, t: nat)
    requires Inv(c, p) && t < c.threads && p.workers[t] == Claiming
    ensures ExhaustedCount(c, Step(c, p, t))
    ensures Measure(c, Step(c, p, t)) < Measure(c, p)
  {
    var v := p.counter;
    var x := if v < c.workItems then Working(v) else Exhausted;
    CountExhaustedUpdate(p.workers, t, x);
    CountWorkingUpdate(p.workers, t, x);
  }

  lemma WorkKeepsOwnership(c: Config, p: Pool, t: nat)
    requires Inv(c, p) && t < c.threads && p.workers[t].Working?
    ensures var q := Step(c, p, t);
      Shape(c, q) && ClaimsInOrder(q) && Ownership(c, q) && StopsAfterOverflow(c, q)
  {
  }

  lemma WorkKeepsStore(c: Config, p: Pool, t: nat)
    requires Inv(c, p) && t < c.threads && p.workers[t].Working?
    ensures StoreState(c, Step(c, p, t))
  {
    var w := p.workers[t].item;
    var q := Step(c, p, t);
    assert !Done(p, w) && Done(q, w);
    forall w' | 0 <= w' < |q.store| && w' != w
      ensures Done(q, w') == Done(p, w') && q.store[w'] == p.store[w']
    {
    }
  }

  lemma WorkKeepsTally(c: Config, p: Pool, t: nat)
    requires Inv(c, p) && t < c.threads && p.workers[t].Working?
    ensures Sum(Step(c, p, t).tallies) == TotalBits(Step(c, p, t).store)
  {
    var w := p.workers[t].item;
    var bits := ItemBits(c, w);
    assert !Done(p, w);
    assert p.store[w] == Zeros(Half(c));
    PopcountZeros(Half(c));
    SumUpdate(p.tallies, t, p.tallies[t] + Popcount(bits));
    TotalBitsUpdate(p.store, w, bits);
  }

  lemma WorkKeepsCount(c: Config, p: Pool, t: nat)
    requires Inv(c, p) && t < c.threads && p.workers[t].Working?
    ensures ExhaustedCount(c, Step(c, p, t))
    ensures Measure(c, Step(c, p, t)) < Measure(c, p)
  {
    CountExhaustedUpdate(p.workers, t, Claiming);
    CountWorkingUpdate(p.workers, t, Claiming);
  }

  /**
    Every step keeps the invariant, and a step of a thread still in its loop
    strictly decreases the work measure, which stays non-negative: whatever
    the interleaving, the threads finish.
   */
  lemma StepInv(c: Config, p: Pool, t: nat)
    requires Inv(c, p)
    ensures Inv(c, Step(c, p, t))
    ensures Measure(c, p) >= 0
    ensures t < |p.workers| && p.workers[t] != Exhausted ==> Measure(c, Step(c, p, t)) < Measure(c, p)
  {
    CountExhaustedBound(p.workers);
    if t < |p.workers| {
      match p.workers[t]
      case Claiming =>
        ClaimKeepsOwnership(c, p, t);
        ClaimKeepsStore(c, p, t);
        ClaimKeepsCount(c, p, t);
      case Working(w) =>
        WorkKeepsOwnership(c, p, t);
        WorkKeepsStore(c, p, t);
        WorkKeepsTally(c, p, t);
        WorkKeepsCount(c, p, t);
      case Exhausted =>
    }
  }

  lemma {:induction false} RunScheduleInv(c: Config, p: Pool, sched: seq<nat>)
    requires Inv(c, p)
    ensures Inv(c, RunSchedule(c, p, sched))
    decreases |sched|
  {
    if |sched| > 0 {
      StepInv(c, p, sched[0]);
      RunScheduleInv(c, Step(c, p, sched[0]), sched[1..]);
    }
  }

  lemma {:induction false} RunScheduleSnoc(c: Config, p: Pool, sched: seq<nat>, t: nat)
    requires c.workItems > 0
    ensures RunSchedule(c, p, sched + [t]) == Step(c, RunSchedule(c, p, sched), t)
    decreases |sched|
  {
    if |sched| > 0 {
      assert (sched + [t])[1..] == sched[1..] + [t];
      RunScheduleSnoc(c, Step(c, p, sched[0]), sched[1..], t);
    }
  }

  // ---------------------------------------------------------------------
  // After the join

  /**
    Once every thread has stopped: with at least one thread, the counter
    stands at kWorkItems + kThreads, every item number was handed out
    exactly once, every bitset holds its item's primes, and the tallies add
    up to the number of primes in the range. With no thread at all (no
    `static_assert` forbids kThreads = 0) nothing was claimed, every bitset
    is still clear and the tallies add up to 0.
   */
  lemma Finished(c: Config, p: Pool)
    requires Inv(c, p) && AllExhausted(p)
    ensures p.counter == if c.threads == 0 then 0 else c.workItems + c.threads
    ensures forall v: nat :: Occurrences(p.claims, v) == if v < p.counter then 1 else 0
    ensures c.threads > 0 ==> forall w :: 0 <= w < c.workItems ==> Done(p, w)
    ensures p.store == if c.threads == 0 then seq(c.workItems, _ => Zeros(Half(c))) else PrimeSlots(c.start, Half(c), c.workItems)
    ensures Sum(p.tallies) == if c.threads == 0 then 0 else |KeepPrimes(Progression(c.start, c.count / 2))|
  {
    forall v: nat
      ensures Occurrences(p.claims, v) == if v < p.counter then 1 else 0
    {
      OccurrencesInOrder(p.claims, v);
    }
    if c.threads == 0 {
      Idle(c, p);
    } else {
      CountExhaustedBound(p.workers);
      FinishedStore(c, p);
      ReplayProcessedStore(c);
    }
  }

  /** A pool without threads never moves: no claim, clear bitsets, no tally. */
  lemma Idle(c: Config, p: Pool)
    requires Inv(c, p) && c.threads == 0
    ensures p.counter == 0 && p.claims == []
    ensures p.store == seq(c.workItems, _ => Zeros(Half(c)))
    ensures Sum(p.tallies) == 0
  {
    assert p.claims == [];
    forall w | 0 <= w < c.workItems
      ensures p.store[w] == Zeros(Half(c))
    {
      assert !Done(p, w);
    }
  }

  lemma FinishedStore(c: Config, p: Pool)
    requires Inv(c, p) && AllExhausted(p) && p.counter >= c.workItems
    ensures forall w :: 0 <= w < c.workItems ==> Done(p, w)
    ensures p.store == PrimeSlots(c.start, Half(c), c.workItems)
  {
    var slots := PrimeSlots(c.start, Half(c), c.workItems);
    forall w | 0 <= w < c.workItems
      ensures Done(p, w) && p.store[w] == slots[w]
    {
      PrimeSlotsIndex(c.start, Half(c), c.workItems, w);
    }
  }

  /**
    The joined state of any schedule after which every thread has stopped:
    the outcome does not depend on the interleaving.
   */
  lemma AnySchedule(c: Config, sched: seq<nat>)
    requires WellFormed(c)
    requires AllExhausted(RunSchedule(c, Init(c), sched))
    ensures var p := RunSchedule(c, Init(c), sched);
      p.store == (if c.threads == 0 then seq(c.workItems, _ => Zeros(Half(c))) else PrimeSlots(c.start, Half(c), c.workItems))
      && Sum(p.tallies) == (if c.threads == 0 then 0 else |KeepPrimes(Progression(c.start, c.count / 2))|)
      && forall v: nat :: Occurrences(p.claims, v) == if c.threads > 0 && v < c.workItems + c.threads then 1 else 0
  {
    InitInv(c);
    RunScheduleInv(c, Init(c), sched);
    Finished(c, RunSchedule(c, Init(c), sched));
  }

  /** Some thread still in its loop, if there is one. */
  method FindActive(p: Pool) returns (t: nat)
    requires !AllExhausted(p)
    ensures t < |p.workers| && p.workers[t] != Exhausted
  {
    t := 0;
    while p.workers[t] == Exhausted
      invariant t < |p.workers|
      invariant forall u :: 0 <= u < t ==> p.workers[u] == Exhausted
      decreases |p.workers| - t
    {
      t := t + 1;
    }
  }

  /**
    Runs the pool to the join under one particular interleaving (always the
    lowest-numbered thread still in its loop); it terminates because every
    step decreases the work measure.
   */
  method Drive(c: Config) returns (p: Pool, sched: seq<nat>)
    requires WellFormed(c)
    ensures p == RunSchedule(c, Init(c), sched)
    ensures Inv(c, p) && AllExhausted(p)
  {
    p, sched := Init(c), [];
    InitInv(c);
    while !AllExhausted(p)
      invariant Inv(c, p) && p == RunSchedule(c, Init(c), sched)
      decreases Measure(c, p)
    {
      var t := FindActive(p);
      StepInv(c, p, t);
      RunScheduleSnoc(c, Init(c), sched, t);
      p, sched := Step(c, p, t), sched + [t];
    }
  }

  /**
    `main` of the thread-pool variant: run the workers, add up their
    tallies, replay the bitsets. The printed values are the primes of the
    range in ascending order, and the printed count is their number; with
    no thread nothing is printed and the count is 0.
   */
  method Search(c: Config) returns (emitted: seq<nat>, primeCount: nat)
    requires WellFormed(c)
    ensures emitted == if c.threads == 0 then [] else KeepPrimes(Progression(c.start, c.count / 2))
    ensures primeCount == |emitted|
    ensures StrictlyIncreasing(emitted)
    ensures c.start >= 3 ==> forall x: nat :: x in emitted <==> c.threads > 0 && OddPrimeIn(c.start, c.start + c.count, x)
  {
    var p, sched := Drive(c);
    Finished(c, p);
    primeCount := SumTallies(p.tallies);
    emitted := Replay(c, p.store);
    if c.threads == 0 {
      TotalBitsZeros(c.workItems, Half(c));
    } else {
      ReplayProcessedStore(c);
      if c.start >= 3 {
        forall x: nat
          ensures x in emitted <==> OddPrimeIn(c.start, c.start + c.count, x)
        {
          KeepPrimesOddRange(c.start, c.count / 2, x);
          CountIsEven(c);
        }
      }
    }
  }

  lemma CountIsEven(c: Config)
    requires StaticCheck(c)
    ensures c.start + 2 * (c.count / 2) == c.start + c.count
  {
    CountIsItems(c);
    assert ItemSize(c) == 2 * Half(c);
    assert c.workItems * (2 * Half(c)) == 2 * (c.workItems * Half(c));
  }
}
