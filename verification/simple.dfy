/**
  The single-threaded variant: one loop over the odd numbers of
  [kStart | 1, kStart + kCount), printing every one that passes
  `checkPrime` and returning how many it printed. Standard output is the
  emitted sequence.
 */
module Simple {
  import opened Primality
  import opened OddScan

  const KStart: nat := 1000000
  const KCount: nat := 20971520

  /** The signed 32-bit `int` the variant computes in. */
  const IntMax: nat := 0x7fff_ffff

  /**
    `searchPrimes`: the odd start is `kStart | 1`, the bound `kStart + kCount`;
    the result lists the primes of the range in ascending order and the count
    is its length.
   */
  method SearchPrimes(kStart: nat, kCount: nat) returns (emitted: seq<nat>, primeCount: nat)
    ensures emitted == KeepPrimes(Progression(SetLowBit(kStart), StrideCount(SetLowBit(kStart), kStart + kCount)))
    ensures primeCount == |emitted|
    ensures StrictlyIncreasing(emitted)
    ensures kStart >= 2 ==> forall x: nat :: x in emitted <==> OddPrimeIn(kStart, kStart + kCount, x)
  {
    var start := SetLowBit(kStart);
    emitted, primeCount := ScanRange(start, kStart + kCount);
    if kStart >= 2 {
      EmittedArePrimes(kStart, kStart + kCount);
    }
  }

  /** The primes of the scan are the odd primes of [kStart, end). */
  lemma EmittedArePrimes(kStart: nat, end: nat)
    requires kStart >= 2
    ensures forall x: nat :: x in KeepPrimes(Progression(SetLowBit(kStart), StrideCount(SetLowBit(kStart), end))) <==>
              OddPrimeIn(kStart, end, x)
  {
    forall x: nat
      ensures x in KeepPrimes(Progression(SetLowBit(kStart), StrideCount(SetLowBit(kStart), end))) <==>
                OddPrimeIn(kStart, end, x)
    {
      EmittedIsPrime(kStart, end, x);
    }
  }

  lemma EmittedIsPrime(kStart: nat, end: nat, x: nat)
    requires kStart >= 2
    ensures x in KeepPrimes(Progression(SetLowBit(kStart), StrideCount(SetLowBit(kStart), end))) <==>
              OddPrimeIn(kStart, end, x)
  {
    var start := SetLowBit(kStart);
    var n := StrideCount(start, end);
    KeepPrimesOddRange(start, n, x);
    if x % 2 == 1 {
      SetLowBitOdd(kStart, x);
      if start <= x {
        StrideCountOdd(start, end, x);
      }
    }
  }

  /**
    With the configured constants the loop visits the 10485760 odd numbers
    from 1000001, and every value it computes (the bound, the last `i`
    after `i += 2`) fits the signed 32-bit `int`.
   */
  lemma ConfiguredRange()
    ensures SetLowBit(KStart) == 1000001
    ensures StrideCount(SetLowBit(KStart), KStart + KCount) == 10485760
    ensures KStart + KCount + 1 <= IntMax
  {
  }
}
