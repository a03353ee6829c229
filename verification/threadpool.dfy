/**
  The thread-pool variant: the range is cut into kWorkItems work items of
  kCountPerWorkItem values each; workers claim item numbers from a shared
  counter, record the primes of an item as bits of its own bitset, and count
  them; `main` adds the counts up and then replays the bitsets in order.
  This module holds the configuration, the items, the item scan and the
  replay; the claim counter is the state machine of module `WorkClaim`.
  `ValType` is `unsigned int`, 32 bits wide.
 */
module ThreadPool {
  import opened Primality
  import opened OddScan

  datatype Config = Config(start: nat, count: nat, threads: nat, workItems: nat)

  /** kStart = 1000001, kCount = 20971520, kThreads = 8, kWorkItems = 128. */
  const Configured: Config := Config(1000001, 20971520, 8, 128)

  /**
    The `static_assert`s as written: kStart is odd, kCount divides into
    kWorkItems items, and an item holds an even number of values.
   */
  predicate StaticCheck(c: Config) {
    c.start % 2 == 1 && c.workItems > 0 && c.count % c.workItems == 0 && (c.count / c.workItems) % 2 == 0
  }

  /** `kCountPerWorkItem`. */
  function ItemSize(c: Config): nat
    requires c.workItems > 0
  {
    c.count / c.workItems
  }

  /** Bits per item bitset, `kCountPerWorkItem / 2`: one per odd value. */
  function Half(c: Config): nat
    requires c.workItems > 0
  {
    ItemSize(c) / 2
  }

  /**
    `kEnd = kStart + kCount` as the program computes it: in `ValType`, where
    a sum past 2^32 wraps around silently instead of failing to compile.
    Nothing reads the constant afterwards, so its wrap changes no output.
   */
  function KEnd(c: Config): nat {
    (c.start + c.count) % U32Modulus
  }

  /**
    The configuration the program needs: the static checks, and the whole
    range below 2^32 so that no `ValType` sum in the worker wraps.
   */
  predicate WellFormed(c: Config) {
    StaticCheck(c) && c.start + c.count < U32Modulus
  }

  /** `kStart + work_item_nr * kCountPerWorkItem`, stepped item by item. */
  function ItemStart(c: Config, w: nat): nat
    requires c.workItems > 0
  {
    SlotBase(c.start, Half(c), w)
  }

  /** `start + kCountPerWorkItem`. */
  function ItemEnd(c: Config, w: nat): nat
    requires c.workItems > 0
  {
    ItemStart(c, w) + ItemSize(c)
  }

  /** The worker's `start` as `ValType` holds it. */
  function WrappedItemStart(c: Config, w: nat): nat
    requires c.workItems > 0
  {
    ItemStart(c, w) % U32Modulus
  }

  /**
    The worker's `end = start + kCountPerWorkItem` as `ValType` holds it:
    this is the sum whose wrap-around changes what the worker does.
   */
  function WrappedItemEnd(c: Config, w: nat): nat
    requires c.workItems > 0
  {
    (WrappedItemStart(c, w) + ItemSize(c)) % U32Modulus
  }

  lemma ItemStartFormula(c: Config, w: nat)
    requires StaticCheck(c)
    ensures ItemStart(c, w) == c.start + w * ItemSize(c)
  {
    SlotBaseValue(c.start, Half(c), w);
    assert ItemSize(c) == 2 * Half(c);
    assert w * (2 * Half(c)) == 2 * (w * Half(c));
  }

  /** The items laid end to end make up kCount. */
  lemma CountIsItems(c: Config)
    requires StaticCheck(c)
    ensures c.count == c.workItems * ItemSize(c)
  {
    DivModSplit(c.count, c.workItems);
  }

  /**
    Item w covers [kStart + w c, kStart + (w + 1) c): a value of the range
    lies in item w exactly when w is its offset divided by the item size.
    So every value of [kStart, kEnd) lies in exactly one item.
   */
  lemma ItemsPartition(c: Config, x: nat, w: nat)
    requires StaticCheck(c) && w < c.workItems
    ensures ItemStart(c, w) <= x < ItemEnd(c, w) <==> c.start <= x < c.start + c.count && (x - c.start) / ItemSize(c) == w
  {
    var s := ItemSize(c);
    ItemStartFormula(c, w);
    CountIsItems(c);
    if s == 0 {
      return;
    }
    if ItemStart(c, w) <= x < ItemEnd(c, w) {
      DivModUnique(x - c.start, s, w, x - c.start - w * s);
      ProductMonotone(w + 1, c.workItems, s);
    }
    if c.start <= x < c.start + c.count && (x - c.start) / s == w {
      DivModSplit(x - c.start, s);
    }
  }

  /** Every value of the range lies in some item: the items leave no gap. */
  lemma ItemsCover(c: Config, x: nat)
    requires StaticCheck(c) && c.start <= x < c.start + c.count
    ensures (x - c.start) / ItemSize(c) < c.workItems
  {
    var s := ItemSize(c);
    CountIsItems(c);
    if (x - c.start) / s >= c.workItems {
      DivModSplit(x - c.start, s);
      ProductMonotone(c.workItems, (x - c.start) / s, s);
    }
  }

  /**
    Under the corrected guard every item's bounds and every `i` the worker
    loop reaches (at most the item's end) stay below 2^32, so the `ValType`
    sums equal the exact ones.
   */
  lemma NoWrap(c: Config, w: nat)
    requires WellFormed(c) && w < c.workItems
    ensures ItemEnd(c, w) <= c.start + c.count < U32Modulus
    ensures KEnd(c) == c.start + c.count
  {
    ItemStartFormula(c, w);
    CountIsItems(c);
    ProductMonotone(w + 1, c.workItems, ItemSize(c));
  }

  /** Under the corrected guard the worker's `ValType` start and end are the exact sums. */
  lemma WorkerNoWrap(c: Config, w: nat)
    requires WellFormed(c) && w < c.workItems
    ensures WrappedItemStart(c, w) == ItemStart(c, w) && WrappedItemEnd(c, w) == ItemEnd(c, w)
  {
    NoWrap(c, w);
  }

  /**
    The `kEnd` line does not check anything: kStart = 2^32 - 5, kCount = 6
    and one item pass every `static_assert`, yet the worker's `end` wraps
    to 1, below its `start`, so the loop `for (i = start; i < end; i += 2)`
    skips all three candidates of the item (2^32 - 5 among them, a prime)
    where the exact bounds hold three.
   */
  lemma EndWrapExample()
    ensures StaticCheck(WrapWitness)
    ensures WrappedItemStart(WrapWitness, 0) == ItemStart(WrapWitness, 0) == 0xffff_fffb
    ensures WrappedItemEnd(WrapWitness, 0) == 1
    ensures StrideCount(WrappedItemStart(WrapWitness, 0), WrappedItemEnd(WrapWitness, 0)) == 0
    ensures StrideCount(ItemStart(WrapWitness, 0), ItemEnd(WrapWitness, 0)) == 3
    ensures KEnd(WrapWitness) < WrapWitness.start
    ensures !WellFormed(WrapWitness)
  {
  }

  /** A configuration the static checks accept whose range ends past 2^32. */
  const WrapWitness: Config := Config(0xffff_fffb, 6, 1, 1)

  /** The configured constants pass the corrected guard; an item holds 163840 values. */
  lemma ConfiguredWellFormed()
    ensures WellFormed(Configured) && ItemSize(Configured) == 163840 && Half(Configured) == 81920
    ensures KEnd(Configured) == 21971521
  {
  }

  /**
    The worker loop over one claimed item (its bitset is still all clear):
    `for (i = start; i < end; i += 2) if (checkPrime(i)) { set((i - start) / 2); ++prime_count; }`.
    Bit j ends up set exactly when `start + 2 j` passes `checkPrime`, the bit
    index stays below `size / 2`, and the count is the number of set bits.
   */
  method ProcessItem(start: nat, size: nat) returns (slot: seq<bool>, found: nat)
    requires size % 2 == 0
    ensures slot == PrimeBits(start, size / 2)
    ensures found == Popcount(slot)
  {
    var end := start + size;
    slot := Zeros(size / 2);
    found := 0;
    PopcountZeros(size / 2);
    var i := start;
    ghost var k := 0;
    while i < end
      invariant k <= size / 2 && i == start + 2 * k
      invariant |slot| == size / 2
      invariant forall m :: 0 <= m < |slot| ==> slot[m] == (m < k && CheckPrime(start + 2 * m))
      invariant found == Popcount(slot)
    {
      if CheckPrime(i) {
        var bit := (i - start) / 2;
        PopcountSet(slot, bit);
        slot := slot[bit := true];
        found := found + 1;
      }
      i, k := i + 2, k + 1;
    }
  }

  /** A processed item records exactly its primes: as many bits as the item holds primes. */
  lemma ItemBitsArePrimes(start: nat, half: nat)
    ensures Popcount(PrimeBits(start, half)) == |KeepPrimes(Progression(start, half))|
  {
    DecodePrimeBits(start, half);
  }

  /** The tally loop in `main`: `prime_count += t.prime_count` over the threads. */
  method SumTallies(tallies: seq<nat>) returns (total: nat)
    ensures total == Sum(tallies)
  {
    total := 0;
    var t := 0;
    while t < |tallies|
      invariant t <= |tallies|
      invariant total + Sum(tallies[t..]) == Sum(tallies)
    {
      assert tallies[t..][1..] == tallies[t + 1..];
      total := total + tallies[t];
      t := t + 1;
    }
  }

  /** Sum of a sequence of counts, first to last. */
  function Sum(s: seq<nat>): nat {
    if |s| == 0 then 0 else s[0] + Sum(s[1..])
  }

  /** Changing one count changes the sum by the difference. */
  lemma {:induction false} SumUpdate(s: seq<nat>, t: nat, v: nat)
    requires t < |s|
    ensures Sum(s[t := v]) + s[t] == Sum(s) + v
    decreases |s|
  {
    if t > 0 {
      assert s[t := v][1..] == s[1..][t - 1 := v];
      SumUpdate(s[1..], t - 1, v);
    } else {
      assert s[t := v][1..] == s[1..];
    }
  }

  /**
    The aggregation loop of `main`: items in order, bits in order, printing
    `kStart + work_item_nr * kCountPerWorkItem + j * 2` for each set bit.
   */
  method Replay(c: Config, store: seq<seq<bool>>) returns (emitted: seq<nat>)
    requires StaticCheck(c) && |store| == c.workItems && Uniform(store, Half(c))
    ensures emitted == ReplayAll(c.start, Half(c), store)
    ensures |emitted| == TotalBits(store)
    ensures StrictlyIncreasing(emitted)
  {
    var count;
    emitted, count := DecodeSlots(c.start, Half(c), store);
  }

  /** Item w, bit j is replayed as `kStart + w c + 2 j` exactly when it is set. */
  lemma ReplayBitValue(c: Config, store: seq<seq<bool>>, w: nat, j: nat)
    requires StaticCheck(c) && |store| == c.workItems && Uniform(store, Half(c))
    requires w < c.workItems && j < Half(c)
    ensures c.start + w * ItemSize(c) + 2 * j in ReplayAll(c.start, Half(c), store) <==> store[w][j]
  {
    ItemStartFormula(c, w);
    ReplayHasBit(c.start, Half(c), store, w, j);
  }

  /** Every replayed value is odd and lies in [kStart, kStart + kCount). */
  lemma ReplayInRange(c: Config, store: seq<seq<bool>>, x: nat)
    requires StaticCheck(c) && |store| == c.workItems && Uniform(store, Half(c))
    requires x in ReplayAll(c.start, Half(c), store)
    ensures c.start <= x < c.start + c.count && x % 2 == 1
  {
    ReplayShape(c.start, Half(c), store);
    ReplayOdd(c.start, Half(c), store, x);
    ItemsSpan(c);
  }

  /** The item windows laid end to end reach exactly kStart + kCount: half of kCount odd values. */
  lemma ItemsSpan(c: Config)
    requires StaticCheck(c)
    ensures SlotBase(c.start, Half(c), c.workItems) == c.start + c.count
    ensures Span(Half(c), c.workItems) == c.count / 2
  {
    var h := Half(c);
    SlotBaseSpan(c.start, h, c.workItems);
    SpanValue(h, c.workItems);
    CountIsItems(c);
    assert ItemSize(c) == 2 * h;
    assert c.workItems * (2 * h) == 2 * (c.workItems * h);
  }

  /** Replay values share the parity of the base. */
  lemma {:induction false} ReplayOdd(base: nat, width: nat, slots: seq<seq<bool>>, x: nat)
    requires Uniform(slots, width) && x in ReplayAll(base, width, slots)
    ensures x >= base && (x - base) % 2 == 0
    decreases |slots|
  {
    var head := DecodeBits(base, slots[0]);
    var rest := ReplayAll(base + 2 * width, width, slots[1..]);
    assert ReplayAll(base, width, slots) == head + rest;
    if x in head {
      DecodeBitsMembers(base, slots[0], x);
    } else {
      ReplayOdd(base + 2 * width, width, slots[1..], x);
    }
  }

  /** With every item processed, the replay is the list of primes of the range. */
  lemma ReplayProcessedStore(c: Config)
    requires StaticCheck(c)
    ensures ReplayAll(c.start, Half(c), PrimeSlots(c.start, Half(c), c.workItems)) == KeepPrimes(Progression(c.start, c.count / 2))
  {
    ReplayPrimeSlots(c.start, Half(c), c.workItems);
    ItemsSpan(c);
  }
}
