/**
  The pthread variant: kCount is split into kThreads equal chunks; thread t
  gets `start_value = kStart + t chunk`, scans the odd numbers of
  [start_value | 1, (start_value | 1) + chunk) and reports how many primes
  it saw; `main` adds the reports up. The threads' printing is left out (its
  interleaving is unordered by design); only the counts are modelled.
 */
module Threaded {
  import opened Primality
  import opened OddScan

  datatype Config = Config(start: nat, count: nat, threads: nat)

  /** kStart = 1000000, kCount = 20971520, kThreads = 8. */
  const Configured: Config := Config(1000000, 20971520, 8)

  /**
    The guard as written: `static_assert(kCount % kThreads == 0)` (a zero
    thread count does not compile).
   */
  predicate StaticCheck(c: Config) {
    c.threads > 0 && c.count % c.threads == 0
  }

  /** `kCount / kThreads`. */
  function Chunk(c: Config): nat
    requires c.threads > 0
  {
    c.count / c.threads
  }

  /**
    The guard the chunking needs: besides dividing evenly, every chunk must
    hold an even number of values, so that `start_value | 1` never moves a
    chunk onto its neighbour's first value.
   */
  predicate Admissible(c: Config) {
    StaticCheck(c) && Chunk(c) % 2 == 0
  }

  /** The `start_value` `main` hands to thread t: `kStart` advanced t times by the chunk. */
  function StartValue(c: Config, t: nat): nat
    requires c.threads > 0
  {
    c.start + Span(Chunk(c), t)
  }

  /** The values a thread visits: from `start_value | 1`, below that plus the chunk, in steps of 2. */
  function ChunkRange(startValue: nat, chunk: nat): seq<nat> {
    var s := SetLowBit(startValue);
    Progression(s, StrideCount(s, s + chunk))
  }

  /** The values thread t visits. */
  function ThreadRange(c: Config, t: nat): seq<nat>
    requires c.threads > 0
  {
    ChunkRange(StartValue(c, t), Chunk(c))
  }

  /** Everything threads 0 .. n - 1 visit, thread by thread (a value two threads visit appears twice). */
  function Scanned(c: Config, n: nat): seq<nat>
    requires c.threads > 0
  {
    if n == 0 then [] else Scanned(c, n - 1) + ThreadRange(c, n - 1)
  }

  /** Thread t starts `t` chunks above `kStart`. */
  lemma StartValueFormula(c: Config, t: nat)
    requires c.threads > 0
    ensures StartValue(c, t) == c.start + t * Chunk(c)
  {
    SpanValue(Chunk(c), t);
  }

  /** A `ThreadInfo` once its thread has finished: where it started and what it reported. */
  datatype ThreadInfo = ThreadInfo(startValue: nat, primeCount: nat)

  /**
    The thread body `searchPrimes`: its `prime_count` is the number of primes
    among the odd values of [start_value | 1, (start_value | 1) + chunk).
   */
  method SearchChunk(startValue: nat, chunk: nat) returns (primeCount: nat)
    ensures primeCount == |KeepPrimes(ChunkRange(startValue, chunk))|
  {
    var start := SetLowBit(startValue);
    var emitted;
    emitted, primeCount := ScanRange(start, start + chunk);
  }

  /** Thread t's record is right: it started at `StartValue(c, t)` and counted the primes of its range. */
  ghost predicate Finished(c: Config, infos: seq<ThreadInfo>)
    requires c.threads > 0
  {
    forall t :: 0 <= t < |infos| ==>
      infos[t].startValue == StartValue(c, t) && infos[t].primeCount == |KeepPrimes(ThreadRange(c, t))|
  }

  /**
    The `main` launch loop: `t.start_value = start; start += kCount / kThreads;`
    then the thread is created. Each thread is run to completion here (they
    share nothing but their own record), so afterwards every record holds its
    start value and its thread's count.
   */
  method Launch(c: Config) returns (infos: seq<ThreadInfo>)
    requires c.threads > 0
    ensures |infos| == c.threads
    ensures Finished(c, infos)
  {
    infos := [];
    var start := c.start;
    while |infos| < c.threads
      invariant |infos| <= c.threads
      invariant start == StartValue(c, |infos|)
      invariant Finished(c, infos)
    {
      var primeCount := SearchChunk(start, c.count / c.threads);
      SpanNext(Chunk(c), |infos|);
      infos := infos + [ThreadInfo(start, primeCount)];
      start := start + c.count / c.threads;
    }
  }

  /** The sum of the reported counts. */
  function TotalCount(infos: seq<ThreadInfo>): nat {
    if |infos| == 0 then 0 else TotalCount(infos[..|infos| - 1]) + infos[|infos| - 1].primeCount
  }

  /** The join loop: `prime_count += t.prime_count` over the records in order. */
  method Join(infos: seq<ThreadInfo>) returns (total: nat)
    ensures total == TotalCount(infos)
  {
    total := 0;
    var t := 0;
    while t < |infos|
      invariant t <= |infos|
      invariant total == TotalCount(infos[..t])
    {
      assert infos[..t + 1][..t] == infos[..t];
      total := total + infos[t].primeCount;
      t := t + 1;
    }
    assert infos[..|infos|] == infos;
  }

  /**
    `main`: launch, then join and add up. The total is the number of primes
    in everything the threads visited, counted once per visit; under the
    admissible guard that is the count of the single-threaded scan of
    [kStart | 1, kStart + kCount).
   */
  method Run(c: Config) returns (total: nat)
    requires StaticCheck(c)
    ensures total == |KeepPrimes(Scanned(c, c.threads))|
    ensures Admissible(c) ==>
      total == |KeepPrimes(Progression(SetLowBit(c.start), StrideCount(SetLowBit(c.start), c.start + c.count)))|
  {
    var infos := Launch(c);
    total := Join(infos);
    FinishedTotal(c, infos);
    if Admissible(c) {
      ThreadsMatchSimple(c);
    }
  }

  /** Once every thread has finished, the summed records count the primes of everything visited. */
  lemma FinishedTotal(c: Config, infos: seq<ThreadInfo>)
    requires c.threads > 0 && |infos| == c.threads && Finished(c, infos)
    ensures TotalCount(infos) == |KeepPrimes(Scanned(c, c.threads))|
  {
    var ranges := seq(c.threads, t requires 0 <= t < c.threads => ThreadRange(c, t));
    TotalCountFlatten(infos, ranges, c.threads);
    ScannedFlatten(c, ranges, c.threads);
    assert infos[..c.threads] == infos;
    assert ranges[..c.threads] == ranges;
  }

  /** The values of several ranges, one range after the other. */
  function Flatten(parts: seq<seq<nat>>): seq<nat> {
    if |parts| == 0 then [] else Flatten(parts[..|parts| - 1]) + parts[|parts| - 1]
  }

  /** What the first n threads visit is the first n thread ranges, one after the other. */
  lemma {:induction false} ScannedFlatten(c: Config, ranges: seq<seq<nat>>, n: nat)
    requires c.threads > 0 && n <= |ranges|
    requires forall t :: 0 <= t < |ranges| ==> ranges[t] == ThreadRange(c, t)
    ensures Scanned(c, n) == Flatten(ranges[..n])
  {
    if n > 0 {
      ScannedFlatten(c, ranges, n - 1);
      assert ranges[..n][..n - 1] == ranges[..n - 1];
    }
  }

  /**
    If each record counts the primes of its range, the summed records count
    the primes of the first n ranges together.
   */
  lemma {:induction false} TotalCountFlatten(infos: seq<ThreadInfo>, ranges: seq<seq<nat>>, n: nat)
    requires n <= |infos| == |ranges|
    requires forall t :: 0 <= t < |infos| ==> infos[t].primeCount == |KeepPrimes(ranges[t])|
    ensures TotalCount(infos[..n]) == |KeepPrimes(Flatten(ranges[..n]))|
  {
    if n > 0 {
      calc {
        TotalCount(infos[..n]);
        { assert infos[..n][..n - 1] == infos[..n - 1]; }
        TotalCount(infos[..n - 1]) + infos[n - 1].primeCount;
        { TotalCountFlatten(infos, ranges, n - 1); }
        |KeepPrimes(Flatten(ranges[..n - 1]))| + |KeepPrimes(ranges[n - 1])|;
        { CountAppend(Flatten(ranges[..n - 1]), ranges[n - 1]); }
        |KeepPrimes(Flatten(ranges[..n - 1]) + ranges[n - 1])|;
        { assert ranges[..n][..n - 1] == ranges[..n - 1]; }
        |KeepPrimes(Flatten(ranges[..n]))|;
      }
    }
  }

  /** Counting primes is additive over concatenation. */
  lemma CountAppend(a: seq<nat>, b: seq<nat>)
    ensures |KeepPrimes(a + b)| == |KeepPrimes(a)| + |KeepPrimes(b)|
  {
    KeepPrimesAppend(a, b);
  }

  /** Twice a span is the span of twice the width. */
  lemma {:induction false} SpanDouble(h: nat, n: nat)
    ensures Span(2 * h, n) == 2 * Span(h, n)
    decreases n
  {
    if n > 0 {
      SpanDouble(h, n - 1);
    }
  }

  /** Thread t of an admissible split visits half a chunk of odd values, starting right after thread t - 1. */
  lemma ThreadRangeAdmissible(c: Config, t: nat)
    requires c.threads > 0 && Chunk(c) % 2 == 0
    ensures ThreadRange(c, t) == Progression(SetLowBit(c.start) + 2 * Span(Chunk(c) / 2, t), Chunk(c) / 2)
  {
    var h := Chunk(c) / 2;
    var offset := Span(h, t);
    assert StartValue(c, t) == c.start + 2 * offset by {
      SpanDouble(h, t);
    }
    SetLowBitShift(c.start, offset);
    StrideCountEven(SetLowBit(c.start) + 2 * offset, h);
  }

  lemma {:induction false} ScannedAdmissible(c: Config, n: nat)
    requires c.threads > 0 && Chunk(c) % 2 == 0
    ensures Scanned(c, n) == Progression(SetLowBit(c.start), Span(Chunk(c) / 2, n))
    decreases n
  {
    if n > 0 {
      var h, s := Chunk(c) / 2, SetLowBit(c.start);
      var before := Span(h, n - 1);
      calc {
        Scanned(c, n);
        Scanned(c, n - 1) + ThreadRange(c, n - 1);
        { ScannedAdmissible(c, n - 1); }
        Progression(s, before) + ThreadRange(c, n - 1);
        { ThreadRangeAdmissible(c, n - 1); }
        Progression(s, before) + Progression(s + 2 * before, h);
        { ProgressionSplit(s, before, h); }
        Progression(s, before + h);
        { SpanNext(h, n - 1); }
        Progression(s, Span(h, n));
      }
    }
  }

  /** kThreads chunks of an even chunk size make up kCount: half of them are odd. */
  lemma SpanAdmissible(c: Config)
    requires Admissible(c)
    ensures Span(Chunk(c) / 2, c.threads) == c.count / 2
    ensures c.count % 2 == 0
  {
    var h := Chunk(c) / 2;
    SpanValue(h, c.threads);
    DivModSplit(c.count, c.threads);
    assert c.count == c.threads * (2 * h);
  }

  /**
    Under the admissible guard the chunks tile the range with no gap and no
    overlap: the threads together visit exactly the values the
    single-threaded loop visits, so the summed count is its count.
   */
  lemma ThreadsMatchSimple(c: Config)
    requires Admissible(c)
    ensures Scanned(c, c.threads) == Progression(SetLowBit(c.start), StrideCount(SetLowBit(c.start), c.start + c.count))
  {
    ScannedAdmissible(c, c.threads);
    SpanAdmissible(c);
  }

  /**
    The configured constants pass the stronger guard: the chunk is 2621440.
    Every value a thread computes, up to one odd step past its `end`, stays
    below 2^31 - 1, so the signed `int` arithmetic never overflows.
   */
  lemma ConfiguredAdmissible()
    ensures Admissible(Configured) && Chunk(Configured) == 2621440
    ensures Configured.start + Configured.count + 1 <= 0x7fff_ffff
    ensures forall t :: 0 <= t < Configured.threads ==> SetLowBit(StartValue(Configured, t)) + Chunk(Configured) + 1 <= 0x7fff_ffff
  {
    forall t | 0 <= t < Configured.threads
      ensures SetLowBit(StartValue(Configured, t)) + Chunk(Configured) + 1 <= 0x7fff_ffff
    {
      StartValueFormula(Configured, t);
    }
  }

  /**
    The guard as written admits an odd chunk. With kStart = 2, kCount = 6 and
    kThreads = 2 the chunk is 3: thread 0 scans 3, 5 and thread 1, starting
    at `5 | 1 = 5`, scans 5, 7. The prime 5 is counted twice, so the total is
    4 where the range holds 3 primes.
   */
  lemma OverlapExample()
    ensures StaticCheck(Config(2, 6, 2)) && !Admissible(Config(2, 6, 2))
    ensures Scanned(Config(2, 6, 2), 2) == [3, 5, 5, 7]
    ensures |KeepPrimes(Scanned(Config(2, 6, 2), 2))| == 4
    ensures |KeepPrimes(Progression(SetLowBit(2), StrideCount(SetLowBit(2), 2 + 6)))| == 3
  {
    ExampleScanned();
    ExamplePrimes();
    ExampleSimpleRange();
    assert SetLowBit(2) == 3 && StrideCount(3, 8) == 3;
  }

  lemma ExampleScanned()
    ensures Scanned(Config(2, 6, 2), 2) == [3, 5, 5, 7]
  {
    var c := Config(2, 6, 2);
    ExampleRanges();
    assert Scanned(c, 1) == ThreadRange(c, 0);
  }

  lemma ExampleRanges()
    ensures ThreadRange(Config(2, 6, 2), 0) == [3, 5]
    ensures ThreadRange(Config(2, 6, 2), 1) == [5, 7]
  {
    ExampleChunks();
    ExampleStart(0, 2);
    ExampleStart(1, 5);
  }

  lemma ExampleStart(t: nat, s: nat)
    requires t < 2 && s == 2 + 3 * t
    ensures ThreadRange(Config(2, 6, 2), t) == ChunkRange(s, 3)
  {
    StartValueFormula(Config(2, 6, 2), t);
  }

  lemma ExampleChunks()
    ensures ChunkRange(2, 3) == [3, 5] && ChunkRange(5, 3) == [5, 7]
  {
    assert ChunkRange(2, 3) == Progression(3, 2) by {
      assert SetLowBit(2) == 3 && StrideCount(3, 6) == 2;
    }
    assert ChunkRange(5, 3) == Progression(5, 2) by {
      assert SetLowBit(5) == 5 && StrideCount(5, 8) == 2;
    }
    assert Progression(3, 2) == [3, 5];
    assert Progression(5, 2) == [5, 7];
  }

  lemma SmallPrimes()
    ensures CheckPrime(3) && CheckPrime(5) && CheckPrime(7)
  {
    assert Isqrt(3) == 1 && Isqrt(5) == 2 && Isqrt(7) == 2;
  }

  lemma ExamplePrimes()
    ensures KeepPrimes([3, 5, 5, 7]) == [3, 5, 5, 7]
  {
    SmallPrimes();
    assert [3, 5, 5, 7][..3] == [3, 5, 5];
    assert [3, 5, 5][..2] == [3, 5];
    assert [3, 5][..1] == [3];
    assert [3][..0] == [];
  }

  lemma ExampleSimpleRange()
    ensures KeepPrimes(Progression(3, 3)) == [3, 5, 7]
  {
    SmallPrimes();
    assert Progression(3, 3) == [3, 5, 7];
    assert [3, 5, 7][..2] == [3, 5];
    assert [3, 5][..1] == [3];
    assert [3][..0] == [];
  }
}
