/**
  The DirectCompute variant's host side: the configuration checks, the size
  of the result buffer, and the loop that reads the buffer back. The
  compute shader `prime.hlsl` is not part of this model; what the read-back
  promises is stated for any buffer, and the round trip under the shader's
  documented layout (bit j of word i stands for kStart + (32 i + j) 2).
  A 32-bit word is modelled as its 32 bits, bit j being `1 << j`.
 */
module DirectCompute {
  import opened Primality
  import opened OddScan

  const KStart: nat := 1000001
  const KCount: nat := 20971520
  const KThreads: nat := 64
  const KThreadGroups: nat := 256

  /** `kCountPerThread = kCount / (kThreads * kThreadGroups)`. */
  function CountPerThread(count: nat, threads: nat, groups: nat): nat
    requires threads > 0 && groups > 0
  {
    count / (threads * groups)
  }

  /**
    The `static_assert`s: kStart is odd, kCount divides among the threads of
    a group, and each thread's share is a multiple of 64 values: its 32 odd
    values per 64 fill whole 32-bit words.
   */
  predicate StaticCheck(start: nat, count: nat, threads: nat, groups: nat) {
    threads > 0 && groups > 0 && start % 2 == 1 && count % threads == 0
    && CountPerThread(count, threads, groups) % 64 == 0
  }

  /** The buffer `Init` asks for: `kCount / 64` words. */
  function BufferWords(count: nat): nat {
    count / 64
  }

  /**
    The configured constants pass the checks; the buffer has 327680 words,
    whose 32 bits each give one bit per odd value of the range, and every
    value computed stays below 2^32.
   */
  lemma ConfiguredChecks()
    ensures StaticCheck(KStart, KCount, KThreads, KThreadGroups)
    ensures CountPerThread(KCount, KThreads, KThreadGroups) == 1280
    ensures BufferWords(KCount) == 327680
    ensures BufferWords(KCount) * 32 == KCount / 2
    ensures KStart + KCount < U32Modulus
  {
  }

  /**
    The read-back loop: words by ascending index, bits by ascending index,
    writing `kStart + (i * 32 + j) * 2` to `primes.txt` for each set bit and
    counting it; `emitted` is the lines of that file.
    The values come out in ascending order and the count is the number of
    set bits.
   */
  method ReadResults(out: seq<seq<bool>>) returns (emitted: seq<nat>, primeCount: nat)
    requires |out| == BufferWords(KCount) && Uniform(out, 32)
    ensures emitted == ReplayAll(KStart, 32, out)
    ensures primeCount == |emitted| == TotalBits(out)
    ensures StrictlyIncreasing(emitted)
  {
    emitted, primeCount := DecodeSlots(KStart, 32, out);
  }

  /**
    Word i, bit j is written as `kStart + (i * 32 + j) * 2` exactly when it is
    set; that value is odd and lies in [kStart, kStart + kCount).
   */
  lemma WordBitValue(out: seq<seq<bool>>, i: nat, j: nat)
    requires |out| == BufferWords(KCount) && Uniform(out, 32)
    requires i < BufferWords(KCount) && j < 32
    ensures KStart + (i * 32 + j) * 2 in ReplayAll(KStart, 32, out) <==> out[i][j]
    ensures KStart <= KStart + (i * 32 + j) * 2 < KStart + KCount
    ensures (KStart + (i * 32 + j) * 2) % 2 == 1
  {
    SlotBaseValue(KStart, 32, i);
    ReplayHasBit(KStart, 32, out, i, j);
  }

  /**
    If the shader leaves bit j of word i set exactly when
    `kStart + (i * 32 + j) * 2` passes `checkPrime`, reading back n words
    lists the primes among the first 32 n odd values from kStart, in
    ascending order; for the configured buffer that is the whole range.
   */
  lemma ShaderLayoutRoundTrip(n: nat)
    ensures ReplayAll(KStart, 32, PrimeSlots(KStart, 32, n)) == KeepPrimes(Progression(KStart, n * 32))
  {
    ReplayPrimeSlots(KStart, 32, n);
    SpanValue(32, n);
  }

  /** The layout the read-back assumes, word by word. */
  lemma ShaderLayoutWord(n: nat, i: nat, j: nat)
    requires i < n && j < 32
    ensures PrimeSlots(KStart, 32, n)[i][j] == CheckPrime(KStart + (i * 32 + j) * 2)
  {
    PrimeSlotsIndex(KStart, 32, n, i);
    SlotBaseValue(KStart, 32, i);
  }
}
