/** Choosing the table size: dbzsize() and isprime() of innbbsd/dbz.c. */
module DbzSize {
  import opened Arith

  const DEFSIZE: nat := 120011
  /** The primes that isprime() tries first. */
  const QUICK: seq<nat> := [2, 3, 5, 7, 11, 13, 17, 19, 23, 29, 31, 37]

  predicate Prime(x: nat) {
    x > 1 && forall d :: 2 <= d < x ==> !Divides(d, x)
  }

  /** The least divisor of x above 1 is prime, and small unless it is x itself. */
  lemma LeastDivisor(x: nat) returns (d: nat)
    requires x > 1
    ensures 2 <= d <= x && Divides(d, x) && Prime(d)
    ensures forall e :: 2 <= e < d ==> !Divides(e, x)
    ensures d < x ==> d * d <= x
  {
    d := 2;
    while !Divides(d, x)
      invariant 2 <= d <= x
      invariant forall e :: 2 <= e < d ==> !Divides(e, x)
      decreases x - d
    {
      ModUnique(x, 1, 0, x);
      d := d + 1;
    }
    forall e | 2 <= e < d ensures !Divides(e, d) {
      if Divides(e, d) {
        DividesTransitive(e, d, x);
      }
    }
    if d < x {
      var q := x / d;
      assert x == q * d;
      if q < d {
        assert q >= 2 by { if q <= 1 { MulMono(q, 1, d); } }
        Commute(q, d);
        DividesProduct(q, d);
      } else {
        MulMono(d, q, d);
      }
    }
  }

  lemma Commute(a: nat, b: nat)
    ensures a * b == b * a
  {
  }

  function Factorial(n: nat): (f: nat)
    ensures f > 0
  {
    if n == 0 then 1 else n * Factorial(n - 1)
  }

  lemma {:induction false} DividesFactorial(k: nat, n: nat)
    requires 1 <= k <= n
    ensures Divides(k, Factorial(n))
    decreases n
  {
    if k == n {
      Commute(n, Factorial(n - 1));
      DividesProduct(n, Factorial(n - 1));
    } else {
      DividesFactorial(k, n - 1);
      DividesProduct(Factorial(n - 1), n);
      DividesTransitive(k, Factorial(n - 1), Factorial(n));
    }
  }

  /** There is always a larger prime. */
  lemma LargerPrime(n: nat) returns (p: nat)
    ensures p > n && Prime(p)
  {
    var f := Factorial(n);
    p := LeastDivisor(f + 1);
    if p <= n {
      DividesFactorial(p, n);
      var q := f / p;
      ModUnique(f + 1, q, 1, p);
    }
  }

  /** Numbers up to 37 that no quick prime divides: only 1. */
  lemma QuickCovers(d: nat)
    requires 2 <= d <= 37
    ensures exists i :: 0 <= i < |QUICK| && Divides(QUICK[i], d)
  {
    var primes := QUICK;
    assert primes[0] == 2 && primes[1] == 3 && primes[2] == 5 && primes[3] == 7 && primes[4] == 11 && primes[5] == 13;
    assert primes[6] == 17 && primes[7] == 19 && primes[8] == 23 && primes[9] == 29 && primes[10] == 31
      && primes[11] == 37;
    assert d % 2 == 0 || d % 3 == 0 || d % 5 == 0 || d % 7 == 0 || d in {11, 13, 17, 19, 23, 29, 31, 37};
    assert Divides(2, d) || Divides(3, d) || Divides(5, d) || Divides(7, d) || d in {11, 13, 17, 19, 23, 29, 31, 37};
  }

  /** The tests of isprime() that precede the trial divisions. */
  predicate PassesQuick(x: nat) {
    forall i :: 0 <= i < |QUICK| ==> !Divides(QUICK[i], x)
  }

  /** When isprime() has passed the quick primes and tried every odd number from 37 up to
      twice its approximate square root, no divisor can be left: the bound may stop one short
      of the root, but only at an even number. */
  lemma NoDivisorLeft(x: nat, s: nat)
    requires x > 1 && PassesQuick(x)
    requires x < (2 * s + 1) * (2 * s + 1)
    requires NoOddDivisor(x, 37, 2 * s)
    ensures Prime(x) && x > 37
  {
    var d := LeastDivisor(x);
    if d <= 37 {
      QuickCovers(d);
      var i :| 0 <= i < |QUICK| && Divides(QUICK[i], d);
      DividesTransitive(QUICK[i], d, x);
      assert false;
    } else if d < x {
      OddPrimes(d);
      BelowRoot(d, s, x);
      assert false;
    }
  }

  lemma BelowRoot(d: nat, s: nat, x: nat)
    requires d * d <= x < (2 * s + 1) * (2 * s + 1)
    ensures d <= 2 * s
  {
    if d > 2 * s {
      MulMono(2 * s + 1, d, d);
      MulMono(2 * s + 1, d, 2 * s + 1);
    }
  }

  /** The quick part of isprime(). */
  method QuickTest(x: nat) returns (pass: bool)
    requires x >= 1
    ensures pass <==> PassesQuick(x)
  {
    for i := 0 to |QUICK|
      invariant forall j :: 0 <= j < i ==> !Divides(QUICK[j], x)
    {
      if x % QUICK[i] == 0 {
        assert Divides(QUICK[i], x);
        return false;
      }
    }
    return true;
  }

  /** The approximate square root of isprime(), before it is doubled. */
  method ApproximateRoot(x: nat) returns (stop: nat)
    requires x >= 1
    ensures x == 1 ==> stop == 1
    ensures x > 1 ==> 2 * stop <= x < (2 * stop + 1) * (2 * stop + 1)
  {
    stop := x;
    while x / stop < stop
      invariant 1 <= stop <= x
      invariant stop == x || (2 * stop <= x < (2 * stop + 1) * (2 * stop + 1))
      decreases stop
    {
      RootBound(x, stop);
      stop := stop / 2;
    }
    if x > 1 {
      ModUnique(x, 1, 0, x);
    }
  }

  predicate NoOddDivisor(x: nat, lo: nat, hi: nat)
    requires lo > 0
  {
    forall d :: lo <= d < hi && d % 2 == 1 ==> !Divides(d, x)
  }

  /** The trial divisions of isprime(). */
  method TryOdd(x: nat, stop: nat) returns (none: bool)
    ensures none <==> NoOddDivisor(x, 37, stop)
  {
    var div := 37;
    while div < stop
      invariant 37 <= div && div % 2 == 1
      invariant NoOddDivisor(x, 37, div)
      decreases stop - div
    {
      if x % div == 0 {
        assert Divides(div, x);
        return false;
      }
      div := div + 2;
    }
    return true;
  }

  method IsPrime(x: nat) returns (r: bool)
    requires x >= 1
    ensures r <==> x == 1 || Large(x)
  {
    r := QuickTest(x);
    if !r {
      FailedQuick(x);
      return;
    }
    var stop := ApproximateRoot(x);
    r := TryOdd(x, 2 * stop);
    if x > 1 && r {
      NoDivisorLeft(x, stop);
    }
  }

  lemma FailedQuick(x: nat)
    requires x >= 1 && !PassesQuick(x)
    ensures x != 1 && !(Prime(x) && x > 37)
  {
    var i :| 0 <= i < |QUICK| && Divides(QUICK[i], x);
    assert 2 <= QUICK[i] <= 37;
    if x == 1 {
      ModUnique(x, 0, 1, QUICK[i]);
    }
  }

  /** Halving a bound above the square root of x leaves one that is at most doubled. */
  lemma RootBound(x: nat, stop: nat)
    requires 1 <= stop <= x && x / stop < stop
    ensures stop >= 2
    ensures x < (2 * (stop / 2) + 1) * (2 * (stop / 2) + 1)
  {
    var h := 2 * (stop / 2) + 1;
    assert x == (x / stop) * stop + x % stop;
    MulMono(x / stop + 1, stop, stop);
    assert (x / stop + 1) * stop == (x / stop) * stop + stop;
    assert x < stop * stop;
    MulMono(stop, h, stop);
    MulMono(stop, h, h);
    Commute(stop, h);
  }

  predicate Large(x: nat) {
    Prime(x) && x > 37
  }

  lemma NextOdd(start: nat, n: nat)
    requires NoPrimeBetween(start, n) && n % 2 == 1 && !Large(n)
    ensures NoPrimeBetween(start, n + 2)
  {
    OddPrimes(n + 1);
  }

  /** No prime above 37 lies in start .. n. */
  predicate NoPrimeBetween(start: nat, n: nat) {
    forall m :: start <= m < n ==> !Large(m)
  }

  /** dbzsize(): the least prime above 37 that is at least 3 * (contents / 2), so that the
      first table is no more than 2/3 full. */
  method Size(contents: int) returns (n: nat)
    ensures contents <= 0 ==> n == 120011
    ensures contents == 1 ==> n == 1
    ensures contents >= 2 ==> Prime(n) && n > 37 && n >= 3 * (contents / 2) && NoPrimeBetween(3 * (contents / 2), n)
    ensures contents >= 2 ==> 3 * contents <= 2 * n + 1
  {
    if contents <= 0 {
      return DEFSIZE;
    }
    n := contents / 2 * 3;
    Thrice(contents, n);
    n := AtLeast(n);
  }

  /** dbzsize() once the number has been multiplied. */
  method AtLeast(start: nat) returns (n: nat)
    requires start % 3 == 0
    ensures if start == 0 then n == 1 else Large(n) && n > start && NoPrimeBetween(start, n)
  {
    n := start;
    if n % 2 == 0 {
      n := n + 1;
    }
    FirstOdd(start);
    n := NextPrime(n, start);
  }

  /** What is a third of the odd number above it, or half of the contents. */
  lemma Thrice(contents: nat, start: nat)
    requires start == contents / 2 * 3
    ensures start % 3 == 0 && start == 3 * (contents / 2) && (contents == 1 ==> start == 0)
    ensures forall n: nat :: n > start ==> 3 * contents <= 2 * n + 1
  {
    ModUnique(start, contents / 2, 0, 3);
  }

  lemma FirstOdd(start: nat)
    requires start % 3 == 0
    ensures !Large(start) && NoPrimeBetween(start, if start % 2 == 0 then start + 1 else start)
  {
    NotAMultiple(start);
  }

  /** The loop of dbzsize() from the odd number `first`; it ends because there is a larger prime. */
  method NextPrime(first: nat, ghost start: nat) returns (n: nat)
    requires first % 2 == 1 && start <= first && NoPrimeBetween(start, first)
    ensures if first == 1 then n == 1 else Large(n)
    ensures first <= n && NoPrimeBetween(start, n)
  {
    n := first;
    ghost var p := LargerPrime(n + 37);
    assert Large(p);
    OddPrimes(p);
    var found := IsPrime(n);
    while !found
      invariant first <= n <= p && n % 2 == 1
      invariant found <==> n == 1 || Large(n)
      invariant NoPrimeBetween(start, n)
      invariant first == 1 ==> n == 1
      decreases p - n
    {
      NextOdd(start, n);
      n := n + 2;
      found := IsPrime(n);
    }
  }

  lemma NotAMultiple(start: nat)
    requires start % 3 == 0
    ensures !Large(start)
  {
    assert Divides(3, start);
  }

  lemma OddPrimes(m: nat)
    ensures Large(m) ==> m % 2 == 1
  {
    assert m % 2 == 0 ==> Divides(2, m);
  }
}
