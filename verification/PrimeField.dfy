/**
 What a prime modulus adds: no zero divisors, Fermat's little theorem, and therefore that
 `modInverse` of crypto.ts really inverts.
 */
module PrimeField {
  import opened ModularArithmetic
  import opened Sets

  ghost predicate Prime(p: int) {
    p >= 2 && forall a :: 1 < a < p ==> !Zero(p, a)
  }

  lemma OneIsNotZero(p: int)
    requires p > 1
    ensures !Zero(1, p)
  {
    if Zero(1, p) {
      ReducedEqual(1, 0, p);
    }
  }

  /** Some multiple of a is 1: walk down the remainders p % a. */
  lemma {:induction false} InverseExists(a: int, p: int) returns (u: int)
    requires Prime(p) && 0 < a < p
    ensures Zero(u * a - 1, p)
    decreases a
  {
    if a == 1 {
      u := 1;
      MultipleIsZero(0, p, 0);
    } else {
      var q, r := p / a, p % a;
      assert p == a * q + r && r != 0 by { assert !Zero(p, a); }
      var v := InverseExists(r, p);
      u := -v * q;
      assert u * a - 1 == 1 * (v * r - 1) + (-v) * p by {
        assert v * r == v * p - v * (a * q);
        assert v * (a * q) == (v * q) * a;
      }
      MultipleIsZero(p, p, 1);
      Combine(u * a - 1, 1, v * r - 1, -v, p, p);
    }
  }

  /** A prime field has no zero divisors. */
  lemma NoZeroDivisors(a: int, b: int, p: int)
    requires Prime(p) && Zero(a * b, p)
    ensures Zero(a, p) || Zero(b, p)
  {
    EuclidSpec(a, p);
    var r := a % p;
    if r == 0 {
    } else {
      var u := InverseExists(r, p);
      assert b == u * (a * b) + (-u * b) * (a - r) + (-b) * (u * r - 1) by {
        assert u * (a * b) - (u * b) * (a - r) == (u * b) * r;
        assert b * (u * r - 1) == (u * b) * r - b;
      }
      Combine3(b, u, a * b, -u * b, a - r, -b, u * r - 1, p);
    }
  }

  lemma NonZeroProduct(a: int, b: int, p: int)
    requires Prime(p) && !Zero(a, p) && !Zero(b, p)
    ensures !Zero(a * b, p)
  {
    if Zero(a * b, p) {
      NoZeroDivisors(a, b, p);
    }
  }

  /** Cancels a nonzero factor. */
  lemma Cancel(a: int, b: int, p: int)
    requires Prime(p) && !Zero(a, p) && Zero(a * b, p)
    ensures Zero(b, p)
  {
    NoZeroDivisors(a, b, p);
  }

  // ---------- Fermat's little theorem ----------
  // Multiplying 1..p-1 by a permutes the residues, so both products agree.

  /** The members of s among 1..n, multiplied together. */
  ghost function Product(s: set<int>, n: nat): int {
    if n == 0 then 1 else (if n in s then n else 1) * Product(s, n - 1)
  }

  ghost function Range(n: nat): (s: set<int>)
    ensures forall k :: k in s <==> 1 <= k <= n
  {
    if n == 0 then {} else Range(n - 1) + {n}
  }

  ghost function Residues(a: int, n: nat, p: int): set<int>
    requires p > 0
  {
    set k | 1 <= k <= n :: (a * k) % p
  }

  lemma {:induction false} RangeSize(n: nat)
    ensures |Range(n)| == n
  {
    if n > 0 {
      RangeSize(n - 1);
      var r := Range(n - 1);
      assert n !in r && Range(n) == r + {n};
    }
  }

  lemma {:induction false} ProductInsert(s: set<int>, x: int, n: nat)
    requires x !in s && 1 <= x
    ensures Product(s + {x}, n) == if x <= n then x * Product(s, n) else Product(s, n)
  {
    if n > 0 {
      ProductInsert(s, x, n - 1);
      Exchange(n, x, Product(s, n - 1));
    }
  }

  lemma Exchange(n: int, x: int, q: int)
    ensures n * (x * q) == x * (n * q)
  {
  }

  lemma ResidueNonZero(a: int, k: int, p: int)
    requires Prime(p) && !Zero(a, p) && 1 <= k < p
    ensures 1 <= (a * k) % p < p
  {
    EuclidSpec(a * k, p);
    if Zero(k, p) {
      ReducedEqual(k, 0, p);
    }
    NonZeroProduct(a, k, p);
  }

  lemma SameRemainder(x: int, y: int, p: int)
    requires p > 0 && x % p == y % p
    ensures Zero(x - y, p)
  {
    EuclidSpec(x, p);
    EuclidSpec(y, p);
    ZeroAdd(x - x % p, y - y % p, p);
  }

  lemma DifferenceOfProducts(a: int, j: int, k: int)
    ensures a * j - a * k == a * (j - k)
  {
  }

  lemma ResidueInjective(a: int, j: int, k: int, p: int)
    requires Prime(p) && !Zero(a, p) && 1 <= j < p && 1 <= k < p && (a * j) % p == (a * k) % p
    ensures j == k
  {
    SameRemainder(a * j, a * k, p);
    DifferenceOfProducts(a, j, k);
    hide Zero, Prime;
    Cancel(a, j - k, p);
    ReducedEqual(j, k, p);
  }

  /** The residues a*1, ..., a*n are n different nonzero residues with the expected product. */
  ghost predicate ResiduesFit(a: int, n: nat, p: int)
    requires p > 0
  {
    && |Residues(a, n, p)| == n && Residues(a, n, p) <= Range(p - 1)
    && Zero(Pow(a, n) * Product(Range(n), n) - Product(Residues(a, n, p), p - 1), p)
  }

  lemma {:induction false} ResiduesProduct(a: int, n: nat, p: int)
    requires Prime(p) && !Zero(a, p) && n < p
    ensures ResiduesFit(a, n, p)
  {
    if n == 0 {
      assert Residues(a, 0, p) == {} == Range(0);
      ProductOfEmpty(p - 1);
      MultipleIsZero(0, p, 0);
    } else {
      hide ResiduesFit;
      ResiduesProduct(a, n - 1, p);
      AddResidue(a, n, p);
    }
  }

  lemma AddResidue(a: int, n: nat, p: int)
    requires Prime(p) && !Zero(a, p) && 0 < n < p && ResiduesFit(a, n - 1, p)
    ensures ResiduesFit(a, n, p)
  {
    hide Pow, Product, Range, Residues, Zero;
    var r := NewResidue(a, n, p);
    AddFactor(a, n, r, Residues(a, n - 1, p), p);
  }

  lemma AddFactor(a: int, n: nat, r: int, s: set<int>, p: int)
    requires p > 0 && n > 0 && r !in s && 1 <= r < p && Zero(a * n - r, p)
    requires Zero(Pow(a, n - 1) * Product(Range(n - 1), n - 1) - Product(s, p - 1), p)
    ensures Zero(Pow(a, n) * Product(Range(n), n) - Product(s + {r}, p - 1), p)
  {
    FactorialSplit(n);
    PowStep(a, n);
    hide Pow, Product, Range, Zero;
    ProductInsert(s, r, p - 1);
    ResidueStep(a, n, Pow(a, n - 1), Product(Range(n - 1), n - 1), r, Product(s, p - 1), p,
                Pow(a, n), Product(Range(n), n), Product(s + {r}, p - 1));
  }

  lemma PowStep(a: int, n: nat)
    requires n > 0
    ensures Pow(a, n) == a * Pow(a, n - 1)
  {
  }

  lemma ResidueStep(a: int, n: int, u: int, f: int, r: int, g: int, p: int, v: int, w: int, h: int)
    requires p > 0 && Zero(u * f - g, p) && Zero(a * n - r, p)
    requires v == a * u && w == n * f && h == r * g
    ensures Zero(v * w - h, p)
  {
    ProductCongruent(a * n, r, u * f, g, p);
    FactorialStep(a, n, u, f);
  }

  lemma NewResidue(a: int, n: nat, p: int) returns (r: int)
    requires Prime(p) && !Zero(a, p) && 0 < n < p && Residues(a, n - 1, p) <= Range(p - 1)
    ensures var s := Residues(a, n - 1, p);
      r !in s && 1 <= r < p && Residues(a, n, p) == s + {r} && s + {r} <= Range(p - 1)
    ensures Zero(a * n - r, p)
  {
    r := (a * n) % p;
    ResidueNonZero(a, n, p);
    if r in Residues(a, n - 1, p) {
      var j :| 1 <= j <= n - 1 && r == (a * j) % p;
      ResidueInjective(a, j, n, p);
    }
    EuclidSpec(a * n, p);
  }

  lemma FactorialSplit(n: nat)
    requires n > 0
    ensures Product(Range(n), n) == n * Product(Range(n - 1), n - 1)
  {
    ProductInsert(Range(n - 1), n, n);
    ProductOutside(Range(n - 1), n);
  }

  lemma FactorialStep(a: int, n: int, u: int, f: int)
    ensures (a * u) * (n * f) == (a * n) * (u * f)
  {
  }

  lemma {:induction false} ProductOfEmpty(n: nat)
    ensures Product({}, n) == 1
  {
    if n > 0 { ProductOfEmpty(n - 1); }
  }

  lemma ProductOutside(s: set<int>, n: nat)
    requires n > 0 && n !in s
    ensures Product(s, n) == Product(s, n - 1)
  {
  }

  lemma {:induction false} FactorialNonZero(n: nat, p: int)
    requires Prime(p) && n < p
    ensures !Zero(Product(Range(n), n), p)
  {
    if n == 0 {
      OneIsNotZero(p);
    } else {
      FactorialNonZero(n - 1, p);
      FactorialSplit(n);
      if Zero(n, p) {
        ReducedEqual(n, 0, p);
      }
      NonZeroProduct(n, Product(Range(n - 1), n - 1), p);
    }
  }

  lemma FermatLittleTheorem(a: int, p: int)
    requires Prime(p) && !Zero(a, p)
    ensures Zero(Pow(a, p - 1) - 1, p)
  {
    hide Pow, Product, Range, Residues;
    ResiduesProduct(a, p - 1, p);
    RangeSize(p - 1);
    SubsetOfEqualSize(Residues(a, p - 1, p), Range(p - 1));
    FactorialNonZero(p - 1, p);
    CancelFactor(Pow(a, p - 1), Product(Range(p - 1), p - 1), p);
  }

  lemma CancelFactor(w: int, f: int, p: int)
    requires Prime(p) && !Zero(f, p) && Zero(w * f - f, p)
    ensures Zero(w - 1, p)
  {
    assert w * f - f == f * (w - 1);
    Cancel(f, w - 1, p);
  }

  /** modInverse inverts every residue that has an inverse. */
  lemma InverseSpec(a: int, p: int)
    requires Prime(p) && !Zero(a, p)
    ensures 0 <= Inverse(a, p) < p && Zero(Inverse(a, p) * a - 1, p)
  {
    FermatLittleTheorem(a, p);
    var w := Pow(a, p - 2);
    assert Pow(a, p - 1) == a * w;
    ModSpec(w, p);
    var v := Inverse(a, p);
    assert v * a - 1 == (-a) * (w - v) + 1 * (a * w - 1);
    Combine(v * a - 1, -a, w - v, 1, a * w - 1, p);
  }
}
