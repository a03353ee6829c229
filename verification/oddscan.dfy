/**
  The vocabulary every variant shares: the odd candidates a `i += 2` loop
  visits, the primes among them, and the bit-packed encoding in which bit j
  of a slot (a `bitset` or a 32-bit word) stands for `base + 2 j`. The
  replay that reads the slots back in index order is written once here, as
  `ReplayAll` and the loop `DecodeSlots`; the thread-pool aggregation, the
  DirectCompute read-back and the Vulkan host loop are instances of it.
 */
module OddScan {
  import opened Primality

  /** 2^32: the 32-bit unsigned words of every variant (`ValType`, `UINT`, `u32`) wrap at this value. */
  const U32Modulus: nat := 0x1_0000_0000

  predicate StrictlyIncreasing(s: seq<nat>) {
    forall i, j :: 0 <= i < j < |s| ==> s[i] < s[j]
  }

  /** x is an odd prime of [lo, hi): what every variant is meant to print. */
  ghost predicate OddPrimeIn(lo: nat, hi: nat, x: nat) {
    lo <= x < hi && x % 2 == 1 && IsPrime(x)
  }

  /** `n | 1`: setting bit 0 gives the least odd number that is at least n. */
  function SetLowBit(n: nat): (r: nat)
    ensures r % 2 == 1
    ensures r == n || r == n + 1
    ensures n % 2 == 1 ==> r == n
  {
    2 * (n / 2) + 1
  }

  /** How many rounds `for (i = first; i < end; i += 2)` makes. */
  function StrideCount(first: nat, end: nat): (n: nat)
    ensures first + 2 * n >= end
    ensures n > 0 ==> first + 2 * (n - 1) < end
    ensures first <= end ==> first + 2 * n <= end + 1
  {
    if end <= first then 0 else (end - first + 1) / 2
  }

  /** Moving n by an even amount moves `n | 1` by the same amount. */
  lemma SetLowBitShift(n: nat, k: nat)
    ensures SetLowBit(n + 2 * k) == SetLowBit(n) + 2 * k
  {
    assert (n + 2 * k) / 2 == n / 2 + k;
  }

  /** For an odd x, `n | 1 <= x` exactly when `n <= x`. */
  lemma SetLowBitOdd(n: nat, x: nat)
    requires x % 2 == 1
    ensures SetLowBit(n) <= x <==> n <= x
  {
  }

  /** From an odd start, 2 h further holds exactly h rounds. */
  lemma StrideCountEven(first: nat, h: nat)
    ensures StrideCount(first, first + 2 * h) == h
  {
  }

  /** An odd x at or above an odd `first` is visited before the bound exactly when it lies below `end`. */
  lemma StrideCountOdd(first: nat, end: nat, x: nat)
    requires first % 2 == 1 && x % 2 == 1 && first <= x
    ensures x < first + 2 * StrideCount(first, end) <==> x < end
  {
    var d := (x - first) / 2;
    assert x == first + 2 * d;
  }

  /** The candidates `first, first + 2, ..., first + 2 (n - 1)`. */
  function Progression(first: nat, n: nat): seq<nat>
  {
    seq(n, j requires 0 <= j < n => first + 2 * j)
  }

  /** A value is visited exactly when it lies in the window and has the parity of `first`. */
  lemma ProgressionMembers(first: nat, n: nat, x: nat)
    ensures x in Progression(first, n) <==> first <= x < first + 2 * n && (x - first) % 2 == 0
  {
    if first <= x < first + 2 * n && (x - first) % 2 == 0 {
      var j := (x - first) / 2;
      assert Progression(first, n)[j] == x;
    }
  }

  lemma ProgressionIncreasing(first: nat, n: nat)
    ensures StrictlyIncreasing(Progression(first, n))
  {
  }

  /** Two consecutive runs of the loop are one longer run. */
  lemma ProgressionSplit(first: nat, n: nat, m: nat)
    ensures Progression(first, n + m) == Progression(first, n) + Progression(first + 2 * n, m)
  {
    var whole, left, right := Progression(first, n + m), Progression(first, n), Progression(first + 2 * n, m);
    assert |whole| == |left + right|;
    forall k | 0 <= k < n + m
      ensures whole[k] == (left + right)[k]
    {
      if k >= n {
        assert (left + right)[k] == right[k - n];
      }
    }
  }

  /** The candidates of `xs` that pass `checkPrime`, in their original order. */
  function KeepPrimes(xs: seq<nat>): (r: seq<nat>)
    ensures |r| <= |xs|
  {
    if |xs| == 0 then []
    else
      var last := xs[|xs| - 1];
      KeepPrimes(xs[..|xs| - 1]) + (if CheckPrime(last) then [last] else [])
  }

  /** The filter keeps exactly the candidates that pass the oracle. */
  lemma {:induction false} KeepPrimesMembers(xs: seq<nat>, x: nat)
    ensures x in KeepPrimes(xs) <==> x in xs && CheckPrime(x)
    decreases |xs|
  {
    if |xs| > 0 {
      var init := xs[..|xs| - 1];
      assert xs == init + [xs[|xs| - 1]];
      KeepPrimesMembers(init, x);
    }
  }

  /** Filtering an increasing sequence leaves it increasing. */
  lemma {:induction false} KeepPrimesIncreasing(xs: seq<nat>)
    requires StrictlyIncreasing(xs)
    ensures StrictlyIncreasing(KeepPrimes(xs))
    decreases |xs|
  {
    if |xs| > 0 {
      var init, last := xs[..|xs| - 1], xs[|xs| - 1];
      KeepPrimesIncreasing(init);
      var kept := KeepPrimes(init);
      forall x | x in kept
        ensures x < last
      {
        KeepPrimesMembers(init, x);
        var i :| 0 <= i < |init| && init[i] == x;
        assert xs[i] == x;
      }
      ConcatIncreasing(kept, if CheckPrime(last) then [last] else []);
    }
  }

  lemma {:induction false} KeepPrimesAppend(a: seq<nat>, b: seq<nat>)
    ensures KeepPrimes(a + b) == KeepPrimes(a) + KeepPrimes(b)
    decreases |b|
  {
    if |b| > 0 {
      var b' := b[..|b| - 1];
      assert (a + b)[..|a + b| - 1] == a + b';
      KeepPrimesAppend(a, b');
    } else {
      assert a + b == a;
    }
  }

  /** The primes of two consecutive runs of the loop are the primes of the longer run. */
  lemma KeepPrimesSplit(first: nat, n: nat, m: nat)
    ensures KeepPrimes(Progression(first, n + m)) == KeepPrimes(Progression(first, n)) + KeepPrimes(Progression(first + 2 * n, m))
  {
    ProgressionSplit(first, n, m);
    KeepPrimesAppend(Progression(first, n), Progression(first + 2 * n, m));
  }

  /** Number of set bits. */
  function Popcount(bits: seq<bool>): (r: nat)
    ensures r <= |bits|
  {
    if |bits| == 0 then 0
    else Popcount(bits[..|bits| - 1]) + (if bits[|bits| - 1] then 1 else 0)
  }

  /** Setting one clear bit adds one to the count. */
  lemma {:induction false} PopcountSet(bits: seq<bool>, j: nat)
    requires j < |bits| && !bits[j]
    ensures Popcount(bits[j := true]) == Popcount(bits) + 1
    decreases |bits|
  {
    var n := |bits|;
    var bits' := bits[j := true];
    if j < n - 1 {
      assert bits'[..n - 1] == bits[..n - 1][j := true];
      PopcountSet(bits[..n - 1], j);
    } else {
      assert bits'[..n - 1] == bits[..n - 1];
    }
  }

  /** A slot with every bit clear, as the zero-initialised bitsets start out. */
  function Zeros(n: nat): seq<bool> {
    seq(n, _ => false)
  }

  lemma {:induction false} PopcountZeros(n: nat)
    ensures Popcount(Zeros(n)) == 0
  {
    if n > 0 {
      assert Zeros(n)[..n - 1] == Zeros(n - 1);
      PopcountZeros(n - 1);
    }
  }

  /** The values a slot stands for, bit j meaning `base + 2 j`, read in bit order. */
  function DecodeBits(base: nat, bits: seq<bool>): (r: seq<nat>)
    ensures |r| == Popcount(bits)
  {
    if |bits| == 0 then []
    else
      var n := |bits|;
      DecodeBits(base, bits[..n - 1]) + (if bits[n - 1] then [base + 2 * (n - 1)] else [])
  }

  /** Exactly the in-window values of the right parity whose bit is set are decoded. */
  lemma {:induction false} DecodeBitsMembers(base: nat, bits: seq<bool>, x: nat)
    ensures x in DecodeBits(base, bits) <==>
              base <= x < base + 2 * |bits| && (x - base) % 2 == 0 && bits[(x - base) / 2]
    decreases |bits|
  {
    if |bits| > 0 {
      var n := |bits|;
      DecodeBitsMembers(base, bits[..n - 1], x);
    }
  }

  /** Decoded values are strictly increasing and stay inside the slot's window. */
  lemma {:induction false} DecodeBitsShape(base: nat, bits: seq<bool>)
    ensures StrictlyIncreasing(DecodeBits(base, bits))
    ensures forall x :: x in DecodeBits(base, bits) ==> base <= x < base + 2 * |bits|
    decreases |bits|
  {
    if |bits| > 0 {
      var n := |bits|;
      DecodeBitsShape(base, bits[..n - 1]);
      ConcatIncreasing(DecodeBits(base, bits[..n - 1]), if bits[n - 1] then [base + 2 * (n - 1)] else []);
    }
  }

  /** The encoding of a window: bit j is set exactly when `base + 2 j` passes `checkPrime`. */
  function PrimeBits(base: nat, n: nat): seq<bool> {
    seq(n, j requires 0 <= j < n => CheckPrime(base + 2 * j))
  }

  /** Round trip: decoding the encoding of a window gives the primes of the window, in order. */
  lemma {:induction false} DecodePrimeBits(base: nat, n: nat)
    ensures DecodeBits(base, PrimeBits(base, n)) == KeepPrimes(Progression(base, n))
  {
    if n > 0 {
      assert PrimeBits(base, n)[..n - 1] == PrimeBits(base, n - 1);
      assert Progression(base, n)[..n - 1] == Progression(base, n - 1);
      DecodePrimeBits(base, n - 1);
    }
  }

  /**
    For a progression of odd numbers from 3 on, the filter keeps exactly the
    primes of the window.
   */
  lemma KeepPrimesOddRange(first: nat, n: nat, x: nat)
    requires first % 2 == 1 && first >= 3
    ensures x in KeepPrimes(Progression(first, n)) <==> OddPrimeIn(first, first + 2 * n, x)
  {
    KeepPrimesMembers(Progression(first, n), x);
    ProgressionMembers(first, n, x);
    if first <= x {
      OddDifference(first, x);
      if x % 2 == 1 {
        CheckPrimeCorrect(x);
      }
    }
  }

  lemma OddDifference(a: nat, b: nat)
    requires a <= b && a % 2 == 1
    ensures (b - a) % 2 == 0 <==> b % 2 == 1
  {
  }

  /**
    The loop `for (i = first; i < end; i += 2) if (checkPrime(i)) emit i`:
    it visits `first, first + 2, ...` below `end` and emits the ones that
    pass, in the order visited, counting them.
   */
  method ScanRange(first: nat, end: nat) returns (emitted: seq<nat>, count: nat)
    ensures emitted == KeepPrimes(Progression(first, StrideCount(first, end)))
    ensures count == |emitted|
    ensures StrictlyIncreasing(emitted)
    ensures forall x :: x in emitted <==> first <= x < end && (x - first) % 2 == 0 && CheckPrime(x)
  {
    ghost var n := StrideCount(first, end);
    emitted, count := [], 0;
    var i := first;
    ghost var k := 0;
    while i < end
      invariant k <= n && i == first + 2 * k
      invariant emitted == KeepPrimes(Progression(first, k))
      invariant count == |emitted|
    {
      KeepPrimesNext(first, k);
      if CheckPrime(i) {
        emitted, count := emitted + [i], count + 1;
      }
      i, k := i + 2, k + 1;
    }
    assert k == n;
    ScanOutput(first, end);
  }

  /** One more round of the loop keeps one more candidate exactly when it passes. */
  lemma KeepPrimesNext(first: nat, k: nat)
    ensures KeepPrimes(Progression(first, k + 1)) ==
              KeepPrimes(Progression(first, k)) + (if CheckPrime(first + 2 * k) then [first + 2 * k] else [])
  {
    assert Progression(first, k + 1)[..k] == Progression(first, k);
  }

  /** What the scan emits: increasing, and exactly the visited values that pass the oracle. */
  lemma ScanOutput(first: nat, end: nat)
    ensures StrictlyIncreasing(KeepPrimes(Progression(first, StrideCount(first, end))))
    ensures forall x :: x in KeepPrimes(Progression(first, StrideCount(first, end))) <==>
              first <= x < end && (x - first) % 2 == 0 && CheckPrime(x)
  {
    var n := StrideCount(first, end);
    ProgressionIncreasing(first, n);
    KeepPrimesIncreasing(Progression(first, n));
    forall x: nat
      ensures x in KeepPrimes(Progression(first, n)) <==> first <= x < end && (x - first) % 2 == 0 && CheckPrime(x)
    {
      KeepPrimesMembers(Progression(first, n), x);
      ProgressionMembers(first, n, x);
    }
  }

  predicate Uniform(slots: seq<seq<bool>>, width: nat) {
    forall w :: 0 <= w < |slots| ==> |slots[w]| == width
  }

  /** Set bits over all slots. */
  function TotalBits(slots: seq<seq<bool>>): nat {
    if |slots| == 0 then 0
    else Popcount(slots[0]) + TotalBits(slots[1..])
  }

  /** Replacing one slot changes the total by the difference of the two counts. */
  lemma {:induction false} TotalBitsUpdate(slots: seq<seq<bool>>, w: nat, bits: seq<bool>)
    requires w < |slots|
    ensures TotalBits(slots[w := bits]) + Popcount(slots[w]) == TotalBits(slots) + Popcount(bits)
    decreases |slots|
  {
    var slots' := slots[w := bits];
    if w > 0 {
      assert slots'[1..] == slots[1..][w - 1 := bits];
      TotalBitsUpdate(slots[1..], w - 1, bits);
    } else {
      assert slots'[1..] == slots[1..];
    }
  }

  lemma ConcatIncreasing(a: seq<nat>, b: seq<nat>)
    requires StrictlyIncreasing(a) && StrictlyIncreasing(b)
    requires forall x, y :: x in a && y in b ==> x < y
    ensures StrictlyIncreasing(a + b)
  {
    forall i, j | 0 <= i < j < |a + b|
      ensures (a + b)[i] < (a + b)[j]
    {
      if i < |a| && j >= |a| {
        assert (a + b)[i] in a && (a + b)[j] in b;
      }
    }
  }

  /**
    Where slot w of a store starts when slot 0 starts at `base` and each slot
    covers `width` odd candidates: `base + 2 (w width)` (see `SlotBaseValue`),
    stepped up slot by slot so that proofs about slots stay linear.
   */
  function SlotBase(base: nat, width: nat, w: nat): nat
    decreases w
  {
    if w == 0 then base else SlotBase(base + 2 * width, width, w - 1)
  }

  /**
    n blocks of `width` each, added up block by block: n width (see
    `SpanValue`); the offset of block n from the first.
   */
  function Span(width: nat, n: nat): nat
    decreases n
  {
    if n == 0 then 0 else width + Span(width, n - 1)
  }

  lemma {:induction false} SpanValue(width: nat, n: nat)
    ensures Span(width, n) == n * width
    decreases n
  {
    if n > 0 {
      SpanValue(width, n - 1);
      MulPred(n, width);
    }
  }

  lemma {:induction false} SpanNext(width: nat, n: nat)
    ensures Span(width, n + 1) == Span(width, n) + width
    decreases n
  {
    if n > 0 {
      SpanNext(width, n - 1);
    }
  }

  lemma {:induction false} SlotBaseSpan(base: nat, width: nat, w: nat)
    ensures SlotBase(base, width, w) == base + 2 * Span(width, w)
    decreases w
  {
    if w > 0 {
      SlotBaseSpan(base + 2 * width, width, w - 1);
      SpanNext(width, w - 1);
    }
  }

  /** Slot w of the store starts `2 (w width)` above `base`. */
  lemma SlotBaseValue(base: nat, width: nat, w: nat)
    ensures SlotBase(base, width, w) == base + 2 * (w * width)
  {
    SlotBaseSpan(base, width, w);
    SpanValue(width, w);
  }

  lemma SlotBaseNext(base: nat, width: nat, w: nat)
    ensures SlotBase(base, width, w + 1) == SlotBase(base, width, w) + 2 * width
  {
    SlotBaseSpan(base, width, w);
    SlotBaseSpan(base, width, w + 1);
    SpanNext(width, w);
  }

  /**
    The aggregation replay: slots in index order, bits in index order. Slot 0
    starts at `base` and each further slot `2 width` higher, so slot w bit j
    stands for `SlotBase(base, width, w) + 2 j`; one value per set bit.
   */
  function ReplayAll(base: nat, width: nat, slots: seq<seq<bool>>): (r: seq<nat>)
    requires Uniform(slots, width)
    ensures |r| == TotalBits(slots)
    decreases |slots|
  {
    if |slots| == 0 then []
    else DecodeBits(base, slots[0]) + ReplayAll(base + 2 * width, width, slots[1..])
  }

  /**
    Whatever the bits are, the replay is strictly increasing and stays in
    the store's window: no sort is needed.
   */
  lemma {:induction false} ReplayShape(base: nat, width: nat, slots: seq<seq<bool>>)
    requires Uniform(slots, width)
    ensures StrictlyIncreasing(ReplayAll(base, width, slots))
    ensures forall x :: x in ReplayAll(base, width, slots) ==> base <= x < SlotBase(base, width, |slots|)
    decreases |slots|
  {
    if |slots| > 0 {
      var head := DecodeBits(base, slots[0]);
      var rest := ReplayAll(base + 2 * width, width, slots[1..]);
      DecodeBitsShape(base, slots[0]);
      ReplayShape(base + 2 * width, width, slots[1..]);
      SlotBaseSpan(base + 2 * width, width, |slots| - 1);
      assert |slots[0]| == width;
      assert ReplayAll(base, width, slots) == head + rest;
      assert forall x, y :: x in head && y in rest ==> x < base + 2 * width <= y;
      ConcatIncreasing(head, rest);
    }
  }

  /** Slot w, bit j is emitted, as `SlotBase(base, width, w) + 2 j`, exactly when that bit is set. */
  lemma {:induction false} ReplayHasBit(base: nat, width: nat, slots: seq<seq<bool>>, w: nat, j: nat)
    requires Uniform(slots, width) && w < |slots| && j < width
    ensures SlotBase(base, width, w) + 2 * j in ReplayAll(base, width, slots) <==> slots[w][j]
    decreases w
  {
    if w == 0 {
      ReplayHasBitFirst(base, width, slots, j);
    } else {
      ReplayHasBit(base + 2 * width, width, slots[1..], w - 1, j);
      ReplayHasBitLater(base, width, slots, w, j);
    }
  }

  lemma ReplayHasBitFirst(base: nat, width: nat, slots: seq<seq<bool>>, j: nat)
    requires Uniform(slots, width) && 0 < |slots| && j < width
    ensures base + 2 * j in ReplayAll(base, width, slots) <==> slots[0][j]
  {
    var x := base + 2 * j;
    var head := DecodeBits(base, slots[0]);
    var rest := ReplayAll(base + 2 * width, width, slots[1..]);
    assert ReplayAll(base, width, slots) == head + rest;
    DecodeBitsMembers(base, slots[0], x);
    ReplayShape(base + 2 * width, width, slots[1..]);
    assert x !in rest;
  }

  /** A bit of a later slot is emitted exactly when the replay of the remaining slots emits it. */
  lemma ReplayHasBitLater(base: nat, width: nat, slots: seq<seq<bool>>, w: nat, j: nat)
    requires Uniform(slots, width) && 0 < w < |slots| && j < width
    ensures var x := SlotBase(base, width, w) + 2 * j;
      x in ReplayAll(base, width, slots) <==> x in ReplayAll(base + 2 * width, width, slots[1..])
    ensures slots[1..][w - 1] == slots[w]
  {
    var x := SlotBase(base, width, w) + 2 * j;
    var head := DecodeBits(base, slots[0]);
    var rest := ReplayAll(base + 2 * width, width, slots[1..]);
    assert ReplayAll(base, width, slots) == head + rest;
    SlotBaseSpan(base + 2 * width, width, w - 1);
    DecodeBitsShape(base, slots[0]);
    assert x !in head;
  }

  /** The encoding of n consecutive windows of `width` candidates each. */
  function PrimeSlots(base: nat, width: nat, n: nat): (r: seq<seq<bool>>)
    ensures |r| == n && Uniform(r, width)
    decreases n
  {
    if n == 0 then [] else [PrimeBits(base, width)] + PrimeSlots(base + 2 * width, width, n - 1)
  }

  /** Slot k of the encoded store is the encoding of the k-th window. */
  lemma {:induction false} PrimeSlotsIndex(base: nat, width: nat, n: nat, k: nat)
    requires k < n
    ensures PrimeSlots(base, width, n)[k] == PrimeBits(SlotBase(base, width, k), width)
    decreases k
  {
    if k > 0 {
      PrimeSlotsIndex(base + 2 * width, width, n - 1, k - 1);
    }
  }

  lemma ReplayPrimeSlotsStep(base: nat, width: nat, n: nat)
    requires n > 0
    ensures ReplayAll(base, width, PrimeSlots(base, width, n)) ==
              KeepPrimes(Progression(base, width)) + ReplayAll(base + 2 * width, width, PrimeSlots(base + 2 * width, width, n - 1))
  {
    var slots := PrimeSlots(base, width, n);
    assert slots[0] == PrimeBits(base, width);
    assert slots[1..] == PrimeSlots(base + 2 * width, width, n - 1);
    DecodePrimeBits(base, width);
  }

  /** The range of n windows is the first window followed by the range of the other n - 1. */
  lemma KeepPrimesSpanStep(base: nat, width: nat, n: nat)
    requires n > 0
    ensures KeepPrimes(Progression(base, Span(width, n))) ==
              KeepPrimes(Progression(base, width)) + KeepPrimes(Progression(base + 2 * width, Span(width, n - 1)))
  {
    KeepPrimesSplit(base, width, Span(width, n - 1));
  }

  /** Round trip for a whole store: the replay of the encoded windows lists the primes of the range. */
  lemma {:induction false} ReplayPrimeSlots(base: nat, width: nat, n: nat)
    ensures ReplayAll(base, width, PrimeSlots(base, width, n)) == KeepPrimes(Progression(base, Span(width, n)))
    decreases n
  {
    if n > 0 {
      var next := base + 2 * width;
      calc {
        ReplayAll(base, width, PrimeSlots(base, width, n));
        { ReplayPrimeSlotsStep(base, width, n); }
        KeepPrimes(Progression(base, width)) + ReplayAll(next, width, PrimeSlots(next, width, n - 1));
        { ReplayPrimeSlots(next, width, n - 1); }
        KeepPrimes(Progression(base, width)) + KeepPrimes(Progression(next, Span(width, n - 1)));
        { KeepPrimesSpanStep(base, width, n); }
        KeepPrimes(Progression(base, Span(width, n)));
      }
    }
  }

  /** One slot's inner loop: bits by ascending index, `base + 2 j` for each set bit. */
  method DecodeSlot(base: nat, slot: seq<bool>) returns (vals: seq<nat>)
    ensures vals == DecodeBits(base, slot)
  {
    vals := [];
    var j := 0;
    while j < |slot|
      invariant j <= |slot|
      invariant vals == DecodeBits(base, slot[..j])
    {
      assert slot[..j + 1][..j] == slot[..j];
      if slot[j] {
        vals := vals + [base + 2 * j];
      }
      j := j + 1;
    }
    assert slot[..|slot|] == slot;
  }

  /**
    The replay loop: slots by ascending index, each slot decoded by
    `DecodeSlot`, every emitted value counted.
   */
  method DecodeSlots(base: nat, width: nat, slots: seq<seq<bool>>) returns (out: seq<nat>, count: nat)
    requires Uniform(slots, width)
    ensures out == ReplayAll(base, width, slots)
    ensures count == |out| == TotalBits(slots)
    ensures StrictlyIncreasing(out)
  {
    out, count := [], 0;
    var w, slotBase := 0, base;
    while w < |slots|
      invariant w <= |slots|
      invariant slotBase == SlotBase(base, width, w)
      invariant ReplayAll(base, width, slots) == out + ReplayAll(slotBase, width, slots[w..])
      invariant count == |out|
    {
      var vals := DecodeSlot(slotBase, slots[w]);
      out, count := out + vals, count + |vals|;
      assert slots[w..][1..] == slots[w + 1..];
      SlotBaseNext(base, width, w);
      w, slotBase := w + 1, slotBase + 2 * width;
    }
    ReplayShape(base, width, slots);
  }
}
