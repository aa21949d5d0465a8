/** Residues modulo a prime, up to Fermat's little theorem. */
module NumberTheory {
  import opened Arithmetic

  // ----- Residues -----

  lemma AddMultiple(a: int, k: int, m: nat)
    requires m > 0
    ensures (a + k * m) % m == a % m
  {
    var q, r := a / m, a % m;
    assert a + k * m == (q + k) * m + r;
    DivModUnique(a + k * m, m, q + k, r);
  }

  lemma ResidueOfSum(x: int, y: int, m: nat)
    requires m > 0
    ensures (x % m + y) % m == (x + y) % m
  {
    AddMultiple(x % m + y, x / m, m);
  }

  lemma ResidueOfProduct(x: int, y: int, m: nat)
    requires m > 0
    ensures ((x % m) * y) % m == (x * y) % m
  {
    var q, r := x / m, x % m;
    assert x == q * m + r;
    Distribute(q, m, r, y);
    AddMultiple(r * y, q * y, m);
  }

  lemma Distribute(q: int, m: int, r: int, y: int)
    ensures (q * m + r) * y == r * y + (q * y) * m
  {
  }

  /** two numbers with the same residue differ by a multiple */
  lemma SameResidue(x: int, y: int, m: nat)
    requires m > 0
    ensures x % m == y % m <==> (x - y) % m == 0
  {
    var k := y / m;
    assert y == k * m + y % m;
    if x % m == y % m {
      var j := x / m;
      assert x - y == (j - k) * m;
      AddMultiple(0, j - k, m);
    }
    if (x - y) % m == 0 {
      var d := (x - y) / m;
      assert x - y == d * m;
      AddMultiple(y, d, m);
    }
  }

  // ----- Primes -----

  ghost predicate IsPrime(p: nat) {
    p > 1 && forall d {:trigger p % d} :: 1 < d < p ==> p % d != 0
  }

  /** a prime that divides a product divides a factor */
  lemma {:induction false} PrimeDivides(p: nat, a: nat, b: int)
    requires IsPrime(p) && 0 < a < p && (a * b) % p == 0
    ensures b % p == 0
    decreases a
  {
    if a > 1 {
      var q, r := p / a, p % a;
      assert p == q * a + r && r != 0;
      var k := (a * b) / p;
      assert a * b == k * p;
      Remainder(p, q, a, r, b, k);
      AddMultiple(0, b - q * k, p);
      PrimeDivides(p, r, b);
    }
  }

  lemma Remainder(p: int, q: int, a: int, r: int, b: int, k: int)
    requires p == q * a + r && a * b == k * p
    ensures r * b == 0 + (b - q * k) * p
  {
    calc {
      r * b;
      (p - q * a) * b;
      p * b - q * (a * b);
      p * b - q * (k * p);
      (b - q * k) * p;
    }
  }

  lemma NonzeroProduct(p: nat, a: int, b: int)
    requires IsPrime(p)
    ensures (a * b) % p == 0 <==> a % p == 0 || b % p == 0
  {
    ResidueOfProduct(a, b, p);
    if a % p != 0 && (a * b) % p == 0 {
      PrimeDivides(p, a % p, b);
    }
    if b % p == 0 {
      ResidueOfProduct(b, a, p);
      assert a * b == b * a;
    }
  }

  // ----- Fermat's little theorem -----

  function Power(a: int, n: nat): int {
    if n == 0 then 1 else a * Power(a, n - 1)
  }

  function Factorial(n: nat): int {
    if n == 0 then 1 else n * Factorial(n - 1)
  }

  /** the product of the elements of `s` between 1 and n */
  function SetProduct(s: set<int>, n: nat): int {
    if n == 0 then 1 else (if n in s then n else 1) * SetProduct(s, n - 1)
  }

  lemma {:induction false} SetProductAdd(s: set<int>, e: int, n: nat)
    requires e !in s && e >= 1
    ensures SetProduct(s + {e}, n) == if e <= n then e * SetProduct(s, n) else SetProduct(s, n)
  {
    if n > 0 {
      SetProductAdd(s, e, n - 1);
      SwapFactors(n, e, SetProduct(s, n - 1));
    }
  }

  lemma SwapFactors(a: int, b: int, c: int)
    ensures a * (b * c) == b * (a * c)
  {
  }

  lemma {:induction false} SetProductFull(s: set<int>, n: nat)
    requires forall i :: 1 <= i <= n ==> i in s
    ensures SetProduct(s, n) == Factorial(n)
  {
    if n > 0 {
      SetProductFull(s, n - 1);
    }
  }

  /** the residue of a k */
  function Multiple(a: int, k: nat, p: nat): (r: int)
    requires p > 0
    ensures 0 <= r < p
  {
    (a * k) % p
  }

  /** the residues of a, 2 a, ..., k a */
  function Multiples(a: int, p: nat, k: nat): set<int>
    requires p > 0
  {
    if k == 0 then {} else Multiples(a, p, k - 1) + {Multiple(a, k, p)}
  }

  function MultiplesProduct(a: int, p: nat, k: nat): int
    requires p > 0
  {
    if k == 0 then 1 else Multiple(a, k, p) * MultiplesProduct(a, p, k - 1)
  }

  /** k different numbers below p, with product x */
  ghost predicate DistinctBelow(s: set<int>, p: nat, k: nat, x: int) {
    p > 0 && |s| == k && (forall e :: e in s ==> 1 <= e < p) && SetProduct(s, p - 1) == x
  }

  lemma AddDistinct(s: set<int>, p: nat, k: nat, x: int, e: nat)
    requires DistinctBelow(s, p, k, x) && e !in s && 1 <= e < p
    ensures DistinctBelow(s + {e}, p, k + 1, e * x)
  {
    SetProductAdd(s, e, p - 1);
  }

  lemma {:induction false} MultiplesAre(a: int, p: nat, k: nat, e: int) returns (i: nat)
    requires p > 0 && e in Multiples(a, p, k)
    ensures 1 <= i <= k && e == Multiple(a, i, p)
  {
    i := k;
    if e != Multiple(a, k, p) {
      i := MultiplesAre(a, p, k - 1, e);
    }
  }

  lemma NonzeroMultiple(a: int, p: nat, k: nat)
    requires IsPrime(p) && a % p != 0 && 0 < k < p
    ensures Multiple(a, k, p) != 0
  {
    DivModUnique(k, p, 0, k);
    hide IsPrime;
    NonzeroProduct(p, a, k);
  }

  lemma FreshMultiple(a: int, p: nat, k: nat)
    requires IsPrime(p) && a % p != 0 && 0 < k < p
    ensures Multiple(a, k, p) !in Multiples(a, p, k - 1)
  {
    hide IsPrime, Multiples, Multiple;
    if Multiple(a, k, p) in Multiples(a, p, k - 1) {
      var i := MultiplesAre(a, p, k - 1, Multiple(a, k, p));
      Collision(a, p, k, i);
    }
  }

  lemma Collision(a: int, p: nat, k: nat, i: nat)
    requires IsPrime(p) && a % p != 0 && 0 < i < k < p
    ensures Multiple(a, k, p) != Multiple(a, i, p)
  {
    SameResidue(a * k, a * i, p);
    assert a * k - a * i == a * (k - i);
    NonzeroProduct(p, a, k - i);
  }

  /** the multiples are pairwise different and none of them is zero */
  lemma {:induction false} MultiplesDistinct(a: int, p: nat, k: nat)
    requires IsPrime(p) && a % p != 0 && k < p
    ensures DistinctBelow(Multiples(a, p, k), p, k, MultiplesProduct(a, p, k))
  {
    if k == 0 {
      EmptyProduct(p - 1);
    } else {
      MultiplesDistinct(a, p, k - 1);
      FreshMultiple(a, p, k);
      NonzeroMultiple(a, p, k);
      AddDistinct(Multiples(a, p, k - 1), p, k - 1, MultiplesProduct(a, p, k - 1), Multiple(a, k, p));
    }
  }

  lemma {:induction false} EmptyProduct(n: nat)
    ensures SetProduct({}, n) == 1
  {
    if n > 0 {
      EmptyProduct(n - 1);
    }
  }

  function Range(n: nat): (s: set<int>)
    ensures |s| == n && forall i :: i in s <==> 1 <= i <= n
  {
    if n == 0 then {} else Range(n - 1) + {n}
  }

  lemma SameSize(a: set<int>, b: set<int>)
    requires a <= b && |a| == |b|
    ensures a == b
  {
    assert b == a + (b - a);
  }

  lemma {:induction false} ProductOfMultiples(a: int, p: nat, k: nat)
    requires p > 0
    ensures MultiplesProduct(a, p, k) % p == (Power(a, k) * Factorial(k)) % p
  {
    if k > 0 {
      ProductOfMultiples(a, p, k - 1);
      var g, h := MultiplesProduct(a, p, k - 1), Power(a, k - 1) * Factorial(k - 1);
      ResidueOfProduct(a * k, g, p);
      ResidueOfProduct(g, a * k, p);
      ResidueOfProduct(h, a * k, p);
      assert g * (a * k) == (a * k) * g;
      Interleave(a, k, Power(a, k - 1), Factorial(k - 1));
    }
  }

  lemma Interleave(a: int, k: int, x: int, y: int)
    ensures (x * y) * (a * k) == (a * x) * (k * y)
  {
  }

  lemma {:induction false} FactorialNonzero(p: nat, k: nat)
    requires IsPrime(p) && k < p
    ensures Factorial(k) % p != 0
  {
    if k > 0 {
      FactorialNonzero(p, k - 1);
      NonzeroProduct(p, k, Factorial(k - 1));
    }
  }

  lemma CancelFactor(p: nat, x: int, y: int)
    requires IsPrime(p) && y % p != 0 && (x * y) % p == y % p
    ensures x % p == 1
  {
    assert p > 1;
    hide IsPrime;
    SameResidue(x * y, y, p);
    assert x * y - y == (x - 1) * y;
    NonzeroProduct(p, x - 1, y);
    SameResidue(x, 1, p);
  }

  /** a^(p - 1) is one modulo p unless p divides a */
  lemma Fermat(p: nat, a: int)
    requires IsPrime(p) && a % p != 0
    ensures Power(a, p - 1) % p == 1
  {
    var s, n := Multiples(a, p, p - 1), p - 1;
    MultiplesDistinct(a, p, n);
    SameSize(s, Range(n));
    SetProductFull(s, n);
    ProductOfMultiples(a, p, n);
    FactorialNonzero(p, n);
    CancelFactor(p, Power(a, n), Factorial(n));
  }
}
