/**
  The Sieve of Eratosthenes as `sieve_of_eratosthenes` runs it: validate the
  limit text, build a table of `limit + 1` flags, clear the multiples of every
  candidate still marked up to the square root of the limit, and list the
  indices still marked, in ascending order.
 */
module Sieve {
  import opened Wrappers
  import opened Text
  import opened Primality

  /** Largest value of `usize` on a 64-bit target. */
  const USIZE_MAX: nat := 0xFFFF_FFFF_FFFF_FFFF

  /** What one sieve run reports: the rejection message, or the limit and the primes it lists. */
  datatype SieveOutcome = InvalidLimit | Listed(limit: nat, primes: seq<nat>)

  /**
    The limit check: the trimmed text must parse as a `usize` greater than 1.
    An accepted limit is the number the trimmed text spells.
   */
  function ParseLimit(limitText: string): (r: Option<nat>)
    ensures r.Some? ==> 1 < r.value <= USIZE_MAX && SpellsNumber(Trim(limitText), r.value)
  {
    match ParseUnsigned(Trim(limitText), USIZE_MAX)
    case Some(n) => if n > 1 then Some(n) else None
    case None => None
  }

  /**
    A limit typed as a number, with an optional `+`, leading zeros and any
    whitespace around it, is accepted exactly when it is above 1 and fits a
    `usize`, and is then that number.
   */
  lemma ParseLimitOfNumeral(pre: string, sign: string, z: string, n: nat, post: string)
    requires AllWhitespace(pre) && AllWhitespace(post)
    requires (sign == "" || sign == "+") && AllZeros(z)
    ensures ParseLimit(pre + (sign + z + DecimalText(n)) + post) == (if 1 < n <= USIZE_MAX then Some(n) else None)
  {
    TrimNumeral(pre, sign, z, n, post);
    ParseNumeral(sign, z, n, USIZE_MAX);
  }

  /** A limit is accepted with value `n` exactly when the trimmed text spells `n`, `n` is above 1 and fits a `usize`. */
  lemma ParseLimitMeans(limitText: string, n: nat)
    ensures ParseLimit(limitText) == Some(n) <==> SpellsNumber(Trim(limitText), n) && 1 < n <= USIZE_MAX
  {
    ParseUnsignedMeans(Trim(limitText), USIZE_MAX, n);
  }

  /** A limit text that, once trimmed, is empty or holds anything but digits (after an optional `+`) is rejected. */
  lemma NonNumericLimitIsRejected(limitText: string)
    requires var t := Trim(limitText);
             t == [] || exists i :: 0 <= i < |t| && !IsDigit(t[i]) && !(i == 0 && t[i] == '+')
    ensures ParseLimit(limitText) == None
  {
  }

  /** The integer square root: the largest `r` with `r * r <= n`, which is `(n as f64).sqrt() as usize`. */
  function ISqrt(n: nat): (r: nat)
    ensures r * r <= n < (r + 1) * (r + 1)
  {
    if n == 0 then 0
    else
      var s := ISqrt(n - 1);
      assert (s + 2) * (s + 2) == (s + 1) * (s + 1) + 2 * s + 3;
      if (s + 1) * (s + 1) <= n then s + 1 else s
  }

  /** Every `q` whose square is at most `n` is at most `ISqrt(n)`. */
  lemma ISqrtIsLargest(n: nat, q: nat)
    requires q * q <= n
    ensures q <= ISqrt(n)
  {
    var r := ISqrt(n);
    if q > r {
      SquareMonotone(r + 1, q);
    }
  }

  /** The indices of `s` whose flag is set, in ascending order. */
  function TrueIndices(s: seq<bool>): seq<nat>
  {
    if s == [] then []
    else TrueIndices(s[..|s| - 1]) + (if s[|s| - 1] then [|s| - 1] else [])
  }

  predicate StrictlyAscending(s: seq<nat>)
  {
    forall i, j :: 0 <= i < j < |s| ==> s[i] < s[j]
  }

  /** `TrueIndices(s)` is strictly ascending and holds exactly the indices whose flag is set. */
  lemma {:induction false} TrueIndicesSpec(s: seq<bool>)
    ensures StrictlyAscending(TrueIndices(s))
    ensures forall n: nat :: n in TrueIndices(s) <==> n < |s| && s[n]
  {
    if s != [] {
      var init, last := s[..|s| - 1], |s| - 1;
      TrueIndicesSpec(init);
      var front, back := TrueIndices(init), if s[last] then [last] else [];
      assert TrueIndices(s) == front + back;
      assert forall i :: 0 <= i < |front| ==> front[i] < last by {
        forall i | 0 <= i < |front| ensures front[i] < last {
          assert front[i] in front;
        }
      }
      forall n: nat
        ensures n in TrueIndices(s) <==> n < |s| && s[n]
      {
        assert n in front + back <==> n in front || n in back;
        if n < last {
          assert init[n] == s[n];
        }
      }
    }
  }

  /** The table the sieve must leave behind: entry `n` is set exactly when `n` is prime. */
  function PrimalityTable(limit: nat): (t: seq<bool>)
    ensures |t| == limit + 1
  {
    seq(limit + 1, (n: int) requires 0 <= n => IsPrime(n))
  }

  /** The primes up to `limit`, in ascending order. */
  function PrimesUpTo(limit: nat): seq<nat>
  {
    TrueIndices(PrimalityTable(limit))
  }

  /** `PrimesUpTo(limit)` is strictly ascending and holds exactly the primes not above `limit`. */
  lemma PrimesUpToSpec(limit: nat)
    ensures StrictlyAscending(PrimesUpTo(limit))
    ensures forall n: nat :: n in PrimesUpTo(limit) <==> n <= limit && IsPrime(n)
  {
    TrueIndicesSpec(PrimalityTable(limit));
  }

  /** No prime has been cleared. */
  ghost predicate KeepsPrimes(s: seq<bool>)
  {
    forall n :: 0 <= n < |s| && IsPrime(n) ==> s[n]
  }

  /** Every `n` with a divisor `d`, `2 <= d < p`, `d * d <= n`, has been cleared. */
  ghost predicate CrossedOffBelow(s: seq<bool>, p: nat)
  {
    forall d, n :: 2 <= d < p && d * d <= n < |s| && Divides(d, n) ==> !s[n]
  }

  /** Clearing the multiples of `p` from `p * p` on keeps every prime and extends the crossed-off range past `p`. */
  lemma CrossOffStep(before: seq<bool>, after: seq<bool>, p: nat)
    requires 2 <= p && |after| == |before|
    requires KeepsPrimes(before) && CrossedOffBelow(before, p)
    requires forall n :: 0 <= n < |after| ==> after[n] == (before[n] && !(p * p <= n && Divides(p, n)))
    ensures KeepsPrimes(after) && CrossedOffBelow(after, p + 1)
  {
    forall n | 0 <= n < |after| && IsPrime(n)
      ensures after[n]
    {
      if p * p <= n && Divides(p, n) {
        MulMonotone(1, p, p);
        PrimeHasNoProperDivisor(n, p);
      }
    }
  }

  /** A candidate `p` that is not prime adds nothing: its multiples from `p * p` on are already cleared. */
  lemma SkipComposite(s: seq<bool>, p: nat)
    requires 2 <= p && !IsPrime(p) && CrossedOffBelow(s, p)
    ensures CrossedOffBelow(s, p + 1)
  {
    CompositeHasSmallDivisor(p);
    var q :| 2 <= q && q * q <= p && Divides(q, p);
    MulMonotone(2, q, q);
    MulMonotone(1, p, p);
    forall n | p * p <= n < |s| && Divides(p, n)
      ensures !s[n]
    {
      DividesTransitive(q, p, n);
    }
  }

  /**
    The outer loop's invariant read as a statement about factors: once the
    candidates below `p` are processed, every `n` with a proper divisor below `p`
    has been cleared, whether or not that divisor's square is at most `n`.
   */
  lemma CrossedOffClearsMultiples(s: seq<bool>, p: nat, d: nat, n: nat)
    requires CrossedOffBelow(s, p) && 2 <= d < p && d < n < |s| && Divides(d, n)
    ensures !s[n]
  {
    DividesMeans(d, n);
    var m: nat :| n == d * m;
    assert m >= 2;
    DividesMeans(m, n);
    assert n == m * d;
    if d * d > n {
      if m >= d { MulMonotone(d, m, d); }
      MulMonotone(m, d, m);
      assert 2 <= m < p && m * m <= n && Divides(m, n);
    }
  }

  /** Once every candidate up to `ISqrt(limit)` is processed, the table is exactly the primality table. */
  lemma CrossedOffIsPrimality(s: seq<bool>, limit: nat)
    requires |s| == limit + 1 && limit >= 1 && !s[0] && !s[1]
    requires KeepsPrimes(s) && CrossedOffBelow(s, ISqrt(limit) + 1)
    ensures s == PrimalityTable(limit)
  {
    forall n | 2 <= n <= limit && !IsPrime(n)
      ensures !s[n]
    {
      CompositeHasSmallDivisor(n);
      var q :| 2 <= q && q * q <= n && Divides(q, n);
      ISqrtIsLargest(limit, q);
    }
  }

  /** `vec![true; limit + 1]` with entries 0 and 1 then cleared. */
  method NewTable(limit: nat) returns (isPrime: array<bool>)
    requires limit > 1
    ensures fresh(isPrime) && isPrime.Length == limit + 1
    ensures !isPrime[0] && !isPrime[1]
    ensures forall n :: 2 <= n <= limit ==> isPrime[n]
  {
    isPrime := new bool[limit + 1](_ => true);
    isPrime[0] := false;
    isPrime[1] := false;
  }

  /**
    The inner loop `for i in (p * p..=limit).step_by(p)`: clears exactly the
    entries `p * p, p * p + p, ...` up to `limit`; everything else, `p` among it,
    keeps its value.
   */
  method ClearMultiples(isPrime: array<bool>, p: nat, limit: nat)
    requires isPrime.Length == limit + 1 && 2 <= p && p * p <= limit
    modifies isPrime
    ensures forall n :: 0 <= n <= limit ==>
              isPrime[n] == (old(isPrime[n]) && !(p * p <= n && Divides(p, n)))
    ensures forall n :: 0 <= n <= limit && isPrime[n] ==> old(isPrime[n])
    ensures isPrime[p] == old(isPrime[p])
  {
    var i := p * p;
    SquareIsMultiple(p);
    while i <= limit
      invariant p * p <= i && Divides(p, i)
      invariant forall n :: 0 <= n <= limit ==>
                  isPrime[n] == (old(isPrime[n]) && !(p * p <= n < i && Divides(p, n)))
      decreases limit + 1 - i
    {
      isPrime[i] := false;
      forall n | i < n < i + p
        ensures !Divides(p, n)
      {
        NoMultipleBetween(p, i, n);
      }
      assert Divides(p, p) by { assert Divides(p, 0); }
      DividesSum(p, i, p);
      i := i + p;
    }
    MulMonotone(1, p, p);
  }

  /** The listing loop: the indices whose flag is set, in ascending order. */
  method ListPrimes(isPrime: array<bool>) returns (primes: seq<nat>)
    ensures primes == TrueIndices(isPrime[..])
  {
    primes := [];
    for num := 0 to isPrime.Length
      invariant primes == TrueIndices(isPrime[..num])
    {
      assert isPrime[..num + 1][..num] == isPrime[..num];
      if isPrime[num] {
        primes := primes + [num];
      }
    }
    assert isPrime[..isPrime.Length] == isPrime[..];
  }

  /**
    `sieve_of_eratosthenes` without its console output: a rejected limit
    reports `InvalidLimit` before any table exists; an accepted one lists the
    primes up to it, in ascending order.
   */
  method SieveOfEratosthenes(limitText: string) returns (outcome: SieveOutcome)
    ensures ParseLimit(limitText).None? ==> outcome == InvalidLimit
    ensures ParseLimit(limitText).Some? ==>
              outcome == Listed(ParseLimit(limitText).value, PrimesUpTo(ParseLimit(limitText).value))
    ensures outcome.Listed? ==> StrictlyAscending(outcome.primes)
    ensures outcome.Listed? ==> forall n: nat :: n in outcome.primes <==> n <= outcome.limit && IsPrime(n)
  {
    var parsed := ParseLimit(limitText);
    if parsed.None? {
      return InvalidLimit;
    }
    var limit := parsed.value;

    var isPrime := NewTable(limit);
    ghost var initial := isPrime[..];

    var r := ISqrt(limit);
    MulMonotone(1, r, r);
    var p := 2;
    while p <= r
      invariant 2 <= p <= r + 1
      invariant !isPrime[0] && !isPrime[1]
      invariant KeepsPrimes(isPrime[..]) && CrossedOffBelow(isPrime[..], p)
      invariant forall n :: 0 <= n <= limit && isPrime[n] ==> initial[n]
    {
      if isPrime[p] {
        ghost var before := isPrime[..];
        MulMonotone(p, r, p);
        MulMonotone(p, r, r);
        ClearMultiples(isPrime, p, limit);
        CrossOffStep(before, isPrime[..], p);
      } else {
        SkipComposite(isPrime[..], p);
      }
      p := p + 1;
    }
    CrossedOffIsPrimality(isPrime[..], limit);

    var primes := ListPrimes(isPrime);
    PrimesUpToSpec(limit);
    return Listed(limit, primes);
  }

  /**
    Trial division by `2..r`, where `r` is the integer square root of `n`,
    decides primality: the reason the sieve stops at `ISqrt(limit)`.
   */
  lemma TrialDivision(n: nat, r: nat)
    requires n >= 2 && r * r <= n < (r + 1) * (r + 1)
    ensures IsPrime(n) <==> !HasDivisorIn(n, 2, r + 1)
  {
    HasDivisorInMeans(n, 2, r + 1);
    if !IsPrime(n) {
      CompositeHasDivisorUpTo(n, r);
    } else {
      RootBelow(n, r);
      forall d | 2 <= d < r + 1
        ensures !Divides(d, n)
      {
        PrimeHasNoProperDivisor(n, d);
      }
    }
  }

  lemma CompositeHasDivisorUpTo(n: nat, r: nat)
    requires n >= 2 && !IsPrime(n) && n < (r + 1) * (r + 1)
    ensures exists d :: 2 <= d < r + 1 && Divides(d, n)
  {
    CompositeHasSmallDivisor(n);
    var q :| 2 <= q && q * q <= n && Divides(q, n);
    if q > r {
      SquareMonotone(r + 1, q);
    }
    assert 2 <= q < r + 1 && Divides(q, n);
  }

  lemma RootBelow(n: nat, r: nat)
    requires n >= 2 && r * r <= n
    ensures r < n
  {
    if r >= 2 {
      MulMonotone(2, r, r);
    }
  }

  /** Two strictly ascending sequences with the same elements are equal. */
  lemma {:induction false} AscendingByElements(a: seq<nat>, b: seq<nat>)
    requires StrictlyAscending(a) && StrictlyAscending(b)
    requires forall n :: n in a <==> n in b
    ensures a == b
  {
    assert a != [] ==> a[0] in b;
    assert b != [] ==> b[0] in a;
    if a != [] && b != [] {
      assert a[0] == b[0] by {
        assert a[0] in b && b[0] in a;
      }
      forall n ensures n in a[1..] <==> n in b[1..] {
        if n in a[1..] { TailMember(a, b, n); }
        if n in b[1..] { TailMember(b, a, n); }
      }
      AscendingByElements(a[1..], b[1..]);
      assert a == [a[0]] + a[1..] && b == [b[0]] + b[1..];
    }
  }

  /** An element of the tail of one ascending listing is in the tail of another with the same head and elements. */
  lemma TailMember(a: seq<nat>, b: seq<nat>, n: nat)
    requires StrictlyAscending(a) && StrictlyAscending(b)
    requires forall n :: n in a <==> n in b
    requires a != [] && b != [] && a[0] == b[0] && n in a[1..]
    ensures n in b[1..]
  {
    var i :| 0 <= i < |a[1..]| && a[1..][i] == n;
    assert n > a[0] && n in b;
    var j :| 0 <= j < |b| && b[j] == n;
    assert j > 0 && b[1..][j - 1] == n;
  }

  /** Limit 2 lists only 2. */
  lemma SieveExampleTwo()
    ensures PrimesUpTo(2) == [2]
  {
    PrimesUpToSpec(2);
    AscendingByElements(PrimesUpTo(2), [2]);
  }

  /** Limit 30 lists the ten primes below 30. */
  lemma SieveExampleThirty()
    ensures PrimesUpTo(30) == [2, 3, 5, 7, 11, 13, 17, 19, 23, 29]
  {
    var expected := [2, 3, 5, 7, 11, 13, 17, 19, 23, 29];
    forall n: nat | n <= 30
      ensures IsPrime(n) <==> n in expected
    {
      if n >= 2 { PrimalityUpToThirty(n); }
    }
    PrimesUpToSpec(30);
    AscendingByElements(PrimesUpTo(30), expected);
  }

  lemma PrimalityUpToThirty(n: nat)
    requires 2 <= n <= 30
    ensures IsPrime(n) <==> n in [2, 3, 5, 7, 11, 13, 17, 19, 23, 29]
  {
    if n < 12 {
      PrimalityFromTwo(n);
    } else if n < 22 {
      PrimalityFromTwelve(n);
    } else {
      PrimalityFromTwentyTwo(n);
    }
  }

  lemma PrimalityFromTwo(n: nat)
    requires 2 <= n <= 11
    ensures IsPrime(n) <==> n in [2, 3, 5, 7, 11, 13, 17, 19, 23, 29]
  {
    if n == 2 {
      TrialDivision(2, 1);
    } else if n == 3 {
      TrialDivision(3, 1);
    } else if n == 4 {
      ProductIsComposite(2, 2);
    } else if n == 5 {
      TrialDivision(5, 2);
    } else if n == 6 {
      ProductIsComposite(2, 3);
    } else if n == 7 {
      TrialDivision(7, 2);
    } else if n == 8 {
      ProductIsComposite(2, 4);
    } else if n == 9 {
      ProductIsComposite(3, 3);
    } else if n == 10 {
      ProductIsComposite(2, 5);
    } else {
      TrialDivision(11, 3);
    }
  }

  lemma PrimalityFromTwelve(n: nat)
    requires 12 <= n <= 21
    ensures IsPrime(n) <==> n in [2, 3, 5, 7, 11, 13, 17, 19, 23, 29]
  {
    if n == 12 {
      ProductIsComposite(2, 6);
    } else if n == 13 {
      TrialDivision(13, 3);
    } else if n == 14 {
      ProductIsComposite(2, 7);
    } else if n == 15 {
      ProductIsComposite(3, 5);
    } else if n == 16 {
      ProductIsComposite(2, 8);
    } else if n == 17 {
      TrialDivision(17, 4);
    } else if n == 18 {
      ProductIsComposite(2, 9);
    } else if n == 19 {
      TrialDivision(19, 4);
    } else if n == 20 {
      ProductIsComposite(2, 10);
    } else {
      ProductIsComposite(3, 7);
    }
  }

  lemma PrimalityFromTwentyTwo(n: nat)
    requires 22 <= n <= 30
    ensures IsPrime(n) <==> n in [2, 3, 5, 7, 11, 13, 17, 19, 23, 29]
  {
    if n == 22 {
      ProductIsComposite(2, 11);
    } else if n == 23 {
      TrialDivision(23, 4);
    } else if n == 24 {
      ProductIsComposite(2, 12);
    } else if n == 25 {
      ProductIsComposite(5, 5);
    } else if n == 26 {
      ProductIsComposite(2, 13);
    } else if n == 27 {
      ProductIsComposite(3, 9);
    } else if n == 28 {
      ProductIsComposite(2, 14);
    } else if n == 29 {
      DividesAfterMultiple(2, 1, 14);
      DividesAfterMultiple(3, 2, 9);
      DividesAfterMultiple(4, 1, 7);
      DividesAfterMultiple(5, 4, 5);
      TrialDivision(29, 5);
    } else {
      ProductIsComposite(2, 15);
    }
  }
}
