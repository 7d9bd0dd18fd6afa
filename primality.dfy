/**
  The mathematical meaning of "prime" that the sieve's table is proved against,
  with the divisibility facts the sieve's correctness rests on. Divisibility is
  defined by repeated subtraction, which keeps every proof here linear.
 */
module Primality {

  /** `d` divides `n`: `n` is reached from 0 in steps of `d`. */
  predicate Divides(d: nat, n: nat)
    requires d > 0
    decreases n
  {
    if n < d then n == 0 else Divides(d, n - d)
  }

  /** Some `d` with `lo <= d < hi` divides `n`. */
  predicate HasDivisorIn(n: nat, lo: nat, hi: nat)
    requires lo >= 1
    decreases hi - lo
  {
    lo < hi && (Divides(lo, n) || HasDivisorIn(n, lo + 1, hi))
  }

  /** `n` is prime: at least 2, and no number strictly between 1 and `n` divides it. */
  predicate IsPrime(n: nat)
  {
    n >= 2 && !HasDivisorIn(n, 2, n)
  }

  /** `Divides` is divisibility as multiplication defines it. */
  lemma {:induction false} DividesMeans(d: nat, n: nat)
    requires d > 0
    ensures Divides(d, n) <==> exists k: nat :: n == d * k
    decreases n
  {
    if n < d {
      if n != 0 {
        forall k: nat ensures n != d * k {
          if k >= 1 { MulMonotone(1, k, d); }
        }
      } else {
        assert n == d * 0;
      }
    } else {
      DividesMeans(d, n - d);
      if Divides(d, n) {
        var k: nat :| n - d == d * k;
        assert n == d * (k + 1);
      } else {
        forall k: nat ensures n != d * k {
          if k >= 1 { assert d * k - d == d * (k - 1); }
        }
      }
    }
  }

  /** `a <= b` gives `a * a <= b * b` for naturals. */
  lemma SquareMonotone(a: nat, b: nat)
    requires a <= b
    ensures a * a <= b * b
  {
    MulMonotone(a, b, a);
    MulMonotone(a, b, b);
  }

  /** `a <= b` gives `a * c <= b * c` for naturals. */
  lemma {:induction false} MulMonotone(a: nat, b: nat, c: nat)
    requires a <= b
    ensures a * c <= b * c
  {
    if c > 0 {
      MulMonotone(a, b, c - 1);
      assert a * c == a * (c - 1) + a;
      assert b * c == b * (c - 1) + b;
    }
  }

  lemma {:induction false} HasDivisorInMeans(n: nat, lo: nat, hi: nat)
    requires lo >= 1
    ensures HasDivisorIn(n, lo, hi) <==> exists d: nat :: lo <= d < hi && Divides(d, n)
    decreases hi - lo
  {
    if lo < hi {
      HasDivisorInMeans(n, lo + 1, hi);
      if Divides(lo, n) {
        assert exists d: nat :: lo <= d < hi && Divides(d, n);
      }
    }
  }

  /** A prime has no divisor strictly between 1 and itself. */
  lemma PrimeHasNoProperDivisor(n: nat, d: nat)
    requires IsPrime(n) && 2 <= d < n
    ensures !Divides(d, n)
  {
    HasDivisorInMeans(n, 2, n);
  }

  /** A divisor strictly between 1 and `n` makes `n` not prime. */
  lemma ProperDivisorMeansComposite(n: nat, d: nat)
    requires 2 <= d < n && Divides(d, n)
    ensures !IsPrime(n)
  {
    HasDivisorInMeans(n, 2, n);
    assert exists e: nat :: 2 <= e < n && Divides(e, n);
  }

  /** A product of two factors of at least 2 is not prime. */
  lemma ProductIsComposite(d: nat, k: nat)
    requires d >= 2 && k >= 2
    ensures !IsPrime(d * k)
  {
    DividesMeans(d, d * k);
    MulMonotone(1, k, d);
    assert k * d == d * k;
    ProperDivisorMeansComposite(d * k, d);
  }

  /** A number of at least 2 that is not prime has a divisor `q >= 2` with `q * q <= n`. */
  lemma CompositeHasSmallDivisor(n: nat)
    requires n >= 2 && !IsPrime(n)
    ensures exists q :: 2 <= q && q * q <= n && Divides(q, n)
  {
    HasDivisorInMeans(n, 2, n);
    var d :| 2 <= d < n && Divides(d, n);
    DividesMeans(d, n);
    var m: nat :| n == d * m;
    assert m >= 2;
    DividesMeans(m, n);
    assert n == m * d;
    if d <= m {
      MulMonotone(d, m, d);
      assert 2 <= d && d * d <= n && Divides(d, n);
    } else {
      MulMonotone(m, d, m);
      assert 2 <= m && m * m <= n && Divides(m, n);
    }
  }

  /** Divisibility is closed under addition. */
  lemma {:induction false} DividesSum(d: nat, a: nat, b: nat)
    requires d > 0 && Divides(d, a) && Divides(d, b)
    ensures Divides(d, a + b)
    decreases b
  {
    if b >= d {
      DividesSum(d, a, b - d);
      assert a + b - d == a + (b - d);
    } else {
      assert b == 0;
    }
  }

  /** Divisibility is transitive. */
  lemma {:induction false} DividesTransitive(q: nat, p: nat, n: nat)
    requires q > 0 && p > 0 && Divides(q, p) && Divides(p, n)
    ensures Divides(q, n)
    decreases n
  {
    if n >= p {
      DividesTransitive(q, p, n - p);
      DividesSum(q, n - p, p);
    }
  }

  /** Between two consecutive multiples of `p` there is no multiple of `p`. */
  lemma {:induction false} NoMultipleBetween(p: nat, i: nat, n: nat)
    requires p > 0 && Divides(p, i) && i < n < i + p
    ensures !Divides(p, n)
    decreases i
  {
    if i > 0 {
      NoMultipleBetween(p, i - p, n - p);
    }
  }

  /** Adding a multiple of `d` does not change whether `d` divides a number. */
  lemma {:induction false} DividesAfterMultiple(d: nat, a: nat, k: nat)
    requires d > 0
    ensures Divides(d, a + d * k) == Divides(d, a)
  {
    if k > 0 {
      DividesAfterMultiple(d, a, k - 1);
      assert a + d * k == (a + d * (k - 1)) + d;
    }
  }

  /** `p * p` is a multiple of `p`. */
  lemma SquareIsMultiple(p: nat)
    requires p > 0
    ensures Divides(p, p * p)
  {
    DividesMeans(p, p * p);
  }
}
