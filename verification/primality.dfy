/**
  The primality oracle shared by every variant: trial division by the odd
  numbers 3, 5, 7, ... up to a limit, where the limit is the integer square
  root (the C++ variants) or the integer square root plus one (the Vulkan
  shader). The floating-point `sqrt` of the source is replaced by the exact
  integer square root `Isqrt`.
 */
module Primality {

  /** `d` is a positive divisor of `n`. */
  predicate Divides(d: nat, n: nat) {
    d > 0 && n % d == 0
  }

  /** The textbook definition the oracle is measured against. */
  ghost predicate IsPrime(n: nat) {
    n >= 2 && forall d: nat :: 1 < d < n ==> !Divides(d, n)
  }

  /**
    Integer square root, counted up: r climbs while (r + 1)^2 still fits in
    n, with sq kept equal to r^2 so that each step only adds `2 r + 1`.
   */
  function IsqrtFrom(n: nat, r: nat, sq: nat): nat
    decreases n - sq
  {
    if sq + 2 * r + 1 > n then r else IsqrtFrom(n, r + 1, sq + 2 * r + 1)
  }

  function Isqrt(n: nat): nat
  {
    IsqrtFrom(n, 0, 0)
  }

  lemma {:induction false} IsqrtFromSpec(n: nat, r: nat, sq: nat)
    requires sq == r * r <= n
    ensures IsqrtFrom(n, r, sq) * IsqrtFrom(n, r, sq) <= n < (IsqrtFrom(n, r, sq) + 1) * (IsqrtFrom(n, r, sq) + 1)
    decreases n - sq
  {
    if sq + 2 * r + 1 <= n {
      assert (r + 1) * (r + 1) == sq + 2 * r + 1;
      IsqrtFromSpec(n, r + 1, sq + 2 * r + 1);
    } else {
      assert (r + 1) * (r + 1) == sq + 2 * r + 1;
    }
  }

  /** `Isqrt(n)` is the largest r with r * r <= n. */
  lemma IsqrtSpec(n: nat)
    ensures Isqrt(n) * Isqrt(n) <= n < (Isqrt(n) + 1) * (Isqrt(n) + 1)
  {
    IsqrtFromSpec(n, 0, 0);
  }

  /** No odd number from 3 up to `limit` divides `p`. */
  ghost predicate NoOddFactor(p: nat, limit: nat) {
    forall k: nat :: 3 <= k <= limit && k % 2 == 1 ==> !Divides(k, p)
  }

  /**
    The divisor loop `for (i = ...; i <= max; i += 2) if (p % i == 0) return false;`
    entered with divisor `i`: it answers true exactly when no divisor of the
    same parity as `i`, from `i` up to `limit`, divides `p`.
   */
  function TrialDivision(p: nat, i: nat, limit: nat): (r: bool)
    requires i > 0
    ensures r <==> forall k: nat :: i <= k <= limit && k % 2 == i % 2 ==> !Divides(k, p)
    decreases if i <= limit then limit - i + 1 else 0
  {
    if i > limit then true
    else if p % i == 0 then
      assert Divides(i, p);
      false
    else
      TrialDivision(p, i + 2, limit)
  }

  /** `checkPrime` of the C++ variants: odd divisors from 3 to floor(sqrt p). */
  function CheckPrime(p: nat): bool
  {
    TrialDivision(p, 3, Isqrt(p))
  }

  /** `checkPrime` of the Vulkan shader: the limit is `uint(sqrt(p) + 1)`. */
  function ShaderCheckPrime(p: nat): bool
  {
    TrialDivision(p, 3, Isqrt(p) + 1)
  }

  lemma ProductMonotone(a: nat, b: nat, c: nat)
    requires a <= b
    ensures a * c <= b * c
  {
  }

  lemma MulPred(n: nat, w: nat)
    requires n > 0
    ensures n * w == (n - 1) * w + w
  {
  }

  lemma DivModSplit(k: nat, w: nat)
    requires w > 0
    ensures k == (k / w) * w + k % w && k % w < w
  {
  }

  lemma SquareMonotone(a: nat, b: nat)
    requires a <= b
    ensures a * a <= b * b
  {
    ProductMonotone(a, b, a);
    ProductMonotone(a, b, b);
  }

  /** Euclidean division is unique: a quotient and remainder pair is the one `/` and `%` give. */
  lemma DivModUnique(x: nat, b: nat, q: nat, r: nat)
    requires b > 0 && x == b * q + r && r < b
    ensures x / b == q && x % b == r
  {
    var q', r' := x / b, x % b;
    assert x == b * q' + r';
    if q < q' {
      ProductMonotone(q + 1, q', b);
      assert false;
    } else if q' < q {
      ProductMonotone(q' + 1, q, b);
      assert false;
    }
  }

  /** A divisor `d` of `n` with `1 < d < n` has a cofactor that is also a proper divisor. */
  lemma Cofactor(n: nat, d: nat) returns (m: nat)
    requires 1 < d < n && Divides(d, n)
    ensures d * m == n && 1 < m < n && Divides(m, n)
  {
    m := n / d;
    assert n == d * m + n % d;
    assert d * m == n;
    if m <= 1 {
      ProductMonotone(m, 1, d);
      assert false;
    }
    if m >= n {
      ProductMonotone(2, d, m);
      assert false;
    }
    DivModUnique(n, m, d, 0);
  }

  /** An odd number has only odd divisors. */
  lemma OddFactors(p: nat, q: nat, m: nat)
    requires q * m == p && p % 2 == 1
    ensures q % 2 == 1
  {
    if q % 2 == 0 {
      DivModUnique(p, 2, (q / 2) * m, 0);
    }
  }

  /** For p >= 3 the square-root limit plus one still stays below p. */
  lemma IsqrtSmall(p: nat)
    requires p >= 3
    ensures Isqrt(p) + 1 < p
  {
    var r := Isqrt(p);
    IsqrtSpec(p);
    if r + 1 >= p {
      assert r >= 2;
      ProductMonotone(2, r, r);
      assert false;
    }
  }

  /**
    A composite odd p has an odd divisor no larger than its square root: of a
    divisor pair d * m == p the smaller member is at most sqrt p, and it is
    odd because p is.
   */
  lemma SmallOddDivisor(p: nat, d: nat) returns (q: nat)
    requires p % 2 == 1 && 1 < d < p && Divides(d, p)
    ensures 3 <= q <= Isqrt(p) && q % 2 == 1 && Divides(q, p)
  {
    var m := Cofactor(p, d);
    q := if d <= m then d else m;
    var other := if d <= m then m else d;
    assert q * other == p && q <= other;
    ProductMonotone(q, other, q);
    assert q * q <= p;
    OddFactors(p, q, other);
    var r := Isqrt(p);
    IsqrtSpec(p);
    if q > r {
      SquareMonotone(r + 1, q);
      assert false;
    }
  }

  /**
    The heart of trial division: for an odd p >= 3, looking for odd divisors
    up to any limit between floor(sqrt p) and p - 1 decides primality.
   */
  lemma OddTrialDivisionDecides(p: nat, limit: nat)
    requires p % 2 == 1 && p >= 3
    requires Isqrt(p) <= limit < p
    ensures NoOddFactor(p, limit) <==> IsPrime(p)
  {
    if NoOddFactor(p, limit) && !IsPrime(p) {
      var d: nat :| 1 < d < p && Divides(d, p);
      var q := SmallOddDivisor(p, d);
      assert false;
    }
  }

  /** `checkPrime` is correct on every odd input from 3 on. */
  lemma CheckPrimeCorrect(p: nat)
    requires p % 2 == 1 && p >= 3
    ensures CheckPrime(p) <==> IsPrime(p)
  {
    IsqrtSmall(p);
    OddTrialDivisionDecides(p, Isqrt(p));
  }

  /**
    The shader's looser limit tests one more candidate divisor, which stays
    below p, so it agrees with `checkPrime` and with primality.
   */
  lemma ShaderCheckPrimeCorrect(p: nat)
    requires p % 2 == 1 && p >= 3
    ensures ShaderCheckPrime(p) <==> IsPrime(p)
    ensures ShaderCheckPrime(p) == CheckPrime(p)
  {
    IsqrtSmall(p);
    OddTrialDivisionDecides(p, Isqrt(p));
    OddTrialDivisionDecides(p, Isqrt(p) + 1);
  }

  /** The "only works for odd numbers" caveat: the even number 4 passes the test. */
  lemma EvenInputMisjudged()
    ensures CheckPrime(4) && !IsPrime(4)
  {
    assert Isqrt(4) == 2;
    assert Divides(2, 4);
  }
}
