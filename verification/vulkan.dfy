/**
  The Vulkan variant: a compute shader fills a buffer of 32-bit words, one
  bit per odd candidate, and the host reads the buffer back bit by bit.
  Invocation `idx` of the grid starts at `1000001 + idx 1280`, packs 20
  words of 32 candidates each and stores them at `idx 20 .. idx 20 + 19`.
  A word is modelled as its 32 bits, bit j being `1 << j`; the shader's
  `uint(sqrt(p) + 1)` is modelled as `Isqrt(p) + 1` (`ShaderCheckPrime`).
  The GPU runs the invocations concurrently; since each writes only its own
  words and reads none, the model runs them one after another and proves
  that the order does not matter.
 */
module Vulkan {
  import opened Primality
  import opened OddScan

  /** The first candidate, `kStart`. */
  const Base: nat := 1000001
  /** The candidates of the whole range, `kCount`. */
  const Count: nat := 20971520
  /** The `dispatch([256, 1, 1], ...)` group count. */
  const Groups: nat := 256
  /** The buffer built from `0u32 .. 327680`. */
  const BufferWords: nat := 327680

  /** The bits the shader's inner loop packs: bit j for `tocheck + 2 j`. */
  function ShaderBits(tocheck: nat, n: nat): seq<bool> {
    seq(n, j requires 0 <= j < n => ShaderCheckPrime(tocheck + 2 * j))
  }

  /** On odd candidates the shader's test agrees with the host's, so its words are the shared encoding. */
  lemma {:induction false} ShaderBitsArePrimeBits(tocheck: nat, n: nat)
    requires tocheck % 2 == 1 && tocheck >= 3
    ensures ShaderBits(tocheck, n) == PrimeBits(tocheck, n)
  {
    forall j | 0 <= j < n
      ensures ShaderBits(tocheck, n)[j] == PrimeBits(tocheck, n)[j]
    {
      ShaderCheckPrimeCorrect(tocheck + 2 * j);
    }
  }

  /**
    The inner loop: `bitset |= 1 << j` when `checkPrime(tocheck)`, then
    `tocheck += 2`, for j = 0 .. 31. Bit j is set exactly when the shader's
    test passes `tocheck + 2 j`, and `tocheck` ends 64 higher.
   */
  method PackWord(tocheck: nat) returns (bitset: seq<bool>, next: nat)
    ensures |bitset| == 32
    ensures forall j :: 0 <= j < 32 ==> bitset[j] == ShaderCheckPrime(tocheck + 2 * j)
    ensures next == tocheck + 64
  {
    bitset := Zeros(32);
    var t := tocheck;
    var j := 0;
    while j < 32
      invariant j <= 32 && t == tocheck + 2 * j
      invariant |bitset| == 32
      invariant forall m :: 0 <= m < 32 ==> bitset[m] == (m < j && ShaderCheckPrime(tocheck + 2 * m))
    {
      if ShaderCheckPrime(t) {
        bitset := bitset[j := true];
      }
      t := t + 2;
      j := j + 1;
    }
    next := t;
  }

  /** Whether word k belongs to invocation idx: `idx 20 <= k < idx 20 + 20`. */
  predicate OwnedBy(k: nat, idx: nat) {
    20 * idx <= k < 20 * idx + 20
  }

  /** The word the shader stores at index k: the 32 candidates from `1000001 + 64 k`. */
  function ShaderWord(k: nat): seq<bool> {
    ShaderBits(Base + 64 * k, 32)
  }

  /**
    What invocation idx does to the buffer: it overwrites its own 20 words
    and leaves every other word alone.
   */
  function Apply(buf: seq<seq<bool>>, idx: nat): (r: seq<seq<bool>>)
    ensures |r| == |buf|
  {
    seq(|buf|, k requires 0 <= k < |buf| => if OwnedBy(k, idx) then ShaderWord(k) else buf[k])
  }

  /**
    The shader's `main` for one `gl_GlobalInvocationID.x`: `tocheck` starts
    at `1000001 + idx 1280`; each of the 20 rounds packs a word and stores it
    at `idx 20 + i`. Its words end up as `ShaderWord`, the rest unchanged.
   */
  method Invocation(buf: seq<seq<bool>>, idx: nat) returns (r: seq<seq<bool>>)
    requires 20 * idx + 20 <= |buf|
    ensures r == Apply(buf, idx)
  {
    r := buf;
    var tocheck := Base + 1280 * idx;
    var i := 0;
    while i < 20
      invariant i <= 20
      invariant tocheck == Base + 64 * (20 * idx + i)
      invariant |r| == |buf|
      invariant forall k :: 0 <= k < |buf| ==>
                  r[k] == if 20 * idx <= k < 20 * idx + i then ShaderWord(k) else buf[k]
    {
      var bitset;
      bitset, tocheck := PackWord(tocheck);
      r := r[20 * idx + i := bitset];
      i := i + 1;
    }
  }

  /** Invocations write disjoint words and read none: two of them commute. */
  lemma ApplyCommutes(buf: seq<seq<bool>>, a: nat, b: nat)
    ensures Apply(Apply(buf, a), b) == Apply(Apply(buf, b), a)
  {
  }

  /** The invocations of `order`, one after another. */
  function ApplyAll(buf: seq<seq<bool>>, order: seq<nat>): (r: seq<seq<bool>>)
    ensures |r| == |buf|
    decreases |order|
  {
    if |order| == 0 then buf else Apply(ApplyAll(buf, order[..|order| - 1]), order[|order| - 1])
  }

  /** Whatever the order, a word is the shader's exactly when some invocation of the order owns it. */
  lemma {:induction false} ApplyAllWord(buf: seq<seq<bool>>, order: seq<nat>, k: nat)
    requires k < |buf|
    ensures ApplyAll(buf, order)[k] == if exists t :: 0 <= t < |order| && OwnedBy(k, order[t]) then ShaderWord(k) else buf[k]
    decreases |order|
  {
    if |order| > 0 {
      var front := order[..|order| - 1];
      ApplyAllWord(buf, front, k);
      if exists t :: 0 <= t < |front| && OwnedBy(k, front[t]) {
        var t :| 0 <= t < |front| && OwnedBy(k, front[t]);
        assert order[t] == front[t];
      }
      if exists t :: 0 <= t < |order| && OwnedBy(k, order[t]) {
        var t :| 0 <= t < |order| && OwnedBy(k, order[t]);
        if t < |front| {
          assert front[t] == order[t];
        }
      }
    }
  }

  /** Two schedules of the same invocations leave the same buffer. */
  lemma AnyOrder(buf: seq<seq<bool>>, o1: seq<nat>, o2: seq<nat>)
    requires forall idx :: idx in o1 <==> idx in o2
    ensures ApplyAll(buf, o1) == ApplyAll(buf, o2)
  {
    forall k | 0 <= k < |buf|
      ensures ApplyAll(buf, o1)[k] == ApplyAll(buf, o2)[k]
    {
      ApplyAllWord(buf, o1, k);
      ApplyAllWord(buf, o2, k);
      if exists t :: 0 <= t < |o1| && OwnedBy(k, o1[t]) {
        var t :| 0 <= t < |o1| && OwnedBy(k, o1[t]);
        assert o1[t] in o2;
      }
      if exists t :: 0 <= t < |o2| && OwnedBy(k, o2[t]) {
        var t :| 0 <= t < |o2| && OwnedBy(k, o2[t]);
        assert o2[t] in o1;
      }
    }
  }

  /**
    `dispatch([groups, 1, 1])` run group by group and lane by lane: global
    id `g 64 + l` for every group g and lane l < 64. Afterwards the words of
    the first `groups 64 20` indices are the shader's and the rest are as
    before.
   */
  method Dispatch(buf: seq<seq<bool>>, groups: nat) returns (r: seq<seq<bool>>)
    requires 20 * (64 * groups) <= |buf|
    ensures |r| == |buf|
    ensures forall k :: 0 <= k < |buf| ==> r[k] == if k < 20 * (64 * groups) then ShaderWord(k) else buf[k]
  {
    r := buf;
    var g := 0;
    while g < groups
      invariant g <= groups && |r| == |buf|
      invariant forall k :: 0 <= k < |buf| ==> r[k] == if k < 20 * (64 * g) then ShaderWord(k) else buf[k]
    {
      var l := 0;
      while l < 64
        invariant l <= 64 && |r| == |buf|
        invariant forall k :: 0 <= k < |buf| ==>
                    r[k] == if k < 20 * (64 * g + l) then ShaderWord(k) else buf[k]
      {
        r := Invocation(r, 64 * g + l);
        l := l + 1;
      }
      g := g + 1;
    }
  }

  /**
    Once every word has been written, the buffer is the shared encoding of
    the range from 1000001: word k holds the 32 odd candidates from
    `1000001 + 64 k`. The initial contents do not survive.
   */
  lemma FilledBuffer(buf: seq<seq<bool>>)
    requires forall k :: 0 <= k < |buf| ==> buf[k] == ShaderWord(k)
    ensures buf == PrimeSlots(Base, 32, |buf|)
  {
    var n := |buf|;
    forall k | 0 <= k < n
      ensures buf[k] == PrimeSlots(Base, 32, n)[k]
    {
      ShaderWordSlot(n, k);
    }
  }

  /** Word k as the shader writes it is slot k of the shared encoding. */
  lemma {:induction false} ShaderWordSlot(n: nat, k: nat)
    requires k < n
    ensures ShaderWord(k) == PrimeSlots(Base, 32, n)[k]
  {
    ShaderSlot(Base, n, k);
  }

  lemma {:induction false} ShaderSlot(base: nat, n: nat, k: nat)
    requires k < n && base % 2 == 1 && base >= 3
    ensures ShaderBits(base + 64 * k, 32) == PrimeSlots(base, 32, n)[k]
  {
    var b := base + 64 * k;
    assert SlotBase(base, 32, k) == b by {
      SlotBaseValue(base, 32, k);
    }
    PrimeSlotsIndex(base, 32, n, k);
    ShaderBitsArePrimeBits(b, 32);
  }

  /**
    The host loop: words by ascending index, bits by ascending index,
    `1000001 + (i * 32 + j) * 2` for each set bit. The host keeps no count;
    one line is printed per set bit.
   */
  method HostRead(content: seq<seq<bool>>) returns (emitted: seq<nat>)
    requires Uniform(content, 32)
    ensures emitted == ReplayAll(Base, 32, content)
    ensures |emitted| == TotalBits(content)
    ensures StrictlyIncreasing(emitted)
  {
    var found;
    emitted, found := DecodeSlots(Base, 32, content);
  }

  /** Word i, bit j of what the host reads is printed as `1000001 + (i * 32 + j) * 2` exactly when it is set. */
  lemma {:induction false} HostReadBit(content: seq<seq<bool>>, i: nat, j: nat)
    requires Uniform(content, 32) && i < |content| && j < 32
    ensures Base + (i * 32 + j) * 2 in ReplayAll(Base, 32, content) <==> content[i][j]
  {
    SlotBaseValue(Base, 32, i);
    ReplayHasBit(Base, 32, content, i, j);
  }

  /**
    Over a buffer the shader has filled, the host prints
    `1000001 + (i * 32 + j) * 2` exactly when the shader's test passed the
    candidate it checked for word i, bit j: the host's address arithmetic
    and the shader's `tocheck` name the same number.
   */
  lemma HostReadShaderBit(content: seq<seq<bool>>, i: nat, j: nat)
    requires Uniform(content, 32) && i < |content| && j < 32
    requires forall k :: 0 <= k < |content| ==> content[k] == ShaderWord(k)
    ensures Base + (i * 32 + j) * 2 in ReplayAll(Base, 32, content) <==> ShaderCheckPrime(Base + 64 * i + 2 * j)
  {
    HostReadBit(content, i, j);
    assert content[i] == ShaderWord(i);
    assert ShaderWord(i)[j] == ShaderCheckPrime(Base + 64 * i + 2 * j);
  }

  /** The grid covers the buffer exactly, and every value either side computes fits 32 bits. */
  lemma ConfiguredSizes()
    ensures Groups * 64 * 20 == BufferWords
    ensures Groups * 64 * 1280 == Count
    ensures BufferWords * 32 == Count / 2
    ensures Base + Count < U32Modulus
  {
  }

  /**
    The program: a buffer of 327680 words (whatever they hold; the program
    fills them with 0 .. 327679), the 256-group dispatch, then the host
    loop. The output lists the primes of [1000001, 21971521) in ascending
    order and nothing else.
   */
  method Run(init: seq<seq<bool>>) returns (emitted: seq<nat>)
    requires |init| == BufferWords
    ensures emitted == KeepPrimes(Progression(Base, Count / 2))
    ensures StrictlyIncreasing(emitted)
    ensures forall x: nat :: x in emitted <==> OddPrimeIn(Base, Base + Count, x)
  {
    var buf := Dispatch(init, Groups);
    FilledBuffer(buf);
    emitted := HostRead(buf);
    RunOutput(Base, |buf|);
  }

  /** The read-back of a completely filled buffer of n words from an odd base. */
  lemma {:induction false} RunOutput(base: nat, n: nat)
    requires base % 2 == 1 && base >= 3
    ensures ReplayAll(base, 32, PrimeSlots(base, 32, n)) == KeepPrimes(Progression(base, 32 * n))
    ensures forall x: nat :: x in KeepPrimes(Progression(base, 32 * n)) <==> OddPrimeIn(base, base + 64 * n, x)
  {
    ReplayPrimeSlots(base, 32, n);
    SpanValue(32, n);
    forall x: nat
      ensures x in KeepPrimes(Progression(base, 32 * n)) <==> OddPrimeIn(base, base + 64 * n, x)
    {
      KeepPrimesOddRange(base, 32 * n, x);
    }
  }
}
