/** Arithmetic modulo a positive integer, as java.math.BigInteger provides it to the
    reconstruction code: `mod` (never negative for a positive modulus) and
    `modInverse` (an inverse exists exactly when the residue is coprime to the modulus).
    Dafny's `%` with a positive divisor agrees with `BigInteger.mod`. */
module ModArith {
  import opened Wrappers

  /** d is a positive divisor of n. */
  predicate Divides(d: int, n: int)
  {
    d > 0 && n % d == 0
  }

  /** d is a divisor of p strictly between 1 and p. */
  ghost predicate ProperFactor(d: int, p: int)
  {
    1 < d < p && Divides(d, p)
  }

  /** A prime modulus. The reconstruction code never checks this; the theorems require it. */
  ghost predicate IsPrime(p: int)
  {
    p > 1 && forall d :: !ProperFactor(d, p)
  }

  /** The residue of a * b, as `a.multiply(b).mod(m)`. */
  function MulMod(a: int, b: int, m: int): (r: int)
    requires m > 0
    ensures 0 <= r < m
  {
    (a * b) % m
  }

  // ---------------------------------------------------------------------------------
  // Division with remainder

  /** Quotient and remainder are unique: if x = q*m + r with 0 <= r < m then r is x % m. */
  lemma ModUnique(x: int, q: int, r: int, m: int)
    requires m > 0 && 0 <= r < m && x == q * m + r
    ensures x % m == r && x / m == q
  {
    var d := q - x / m;
    assert x == (x / m) * m + x % m;
    assert d * m == x % m - r;
    if d >= 1 {
      MulAtLeast(d, m);
      assert false;
    } else if d <= -1 {
      MulAtMost(d, m);
      assert false;
    }
  }

  lemma MulAtLeast(d: int, m: int)
    requires d >= 1 && m > 0
    ensures d * m >= m && m * d >= m
  {
    assert d * m - m == (d - 1) * m;
  }

  lemma MulAtMost(d: int, m: int)
    requires d <= -1 && m > 0
    ensures d * m <= -m && m * d <= -m
  {
    MulAtLeast(-d, m);
    assert d * m == -((-d) * m);
  }

  /** Adding a multiple of the modulus does not change the residue. */
  lemma ModAddMultiple(x: int, c: int, m: int)
    requires m > 0
    ensures (x + c * m) % m == x % m
  {
    ModUnique(x + c * m, x / m + c, x % m, m);
  }

  lemma ModOfMultiple(c: int, m: int)
    requires m > 0
    ensures (c * m) % m == 0 && (m * c) % m == 0
  {
    ModUnique(c * m, c, 0, m);
  }

  lemma ModIdempotent(x: int, m: int)
    requires m > 0
    ensures (x % m) % m == x % m
  {
    ModUnique(x % m, 0, x % m, m);
  }

  /** Reducing an addend first does not change the residue of a sum. */
  lemma ModAddLeft(a: int, b: int, m: int)
    requires m > 0
    ensures ((a % m) + b) % m == (a + b) % m
  {
    ModAddMultiple((a % m) + b, a / m, m);
    assert (a % m) + b + (a / m) * m == a + b;
  }

  lemma ModAdd(a: int, b: int, m: int)
    requires m > 0
    ensures ((a % m) + (b % m)) % m == (a + b) % m
  {
    ModAddLeft(a, b % m, m);
    ModAddLeft(b, a, m);
    assert a + b % m == b % m + a;
  }

  /** Reducing a factor first does not change the residue of a product. */
  lemma ModMulLeft(a: int, b: int, m: int)
    requires m > 0
    ensures ((a % m) * b) % m == (a * b) % m
  {
    var q := a / m;
    assert a == q * m + a % m;
    assert a * b == (a % m) * b + (q * b) * m;
    ModAddMultiple((a % m) * b, q * b, m);
  }

  lemma ModMulRight(a: int, b: int, m: int)
    requires m > 0
    ensures (a * (b % m)) % m == (a * b) % m
  {
    ModMulLeft(b, a, m);
    assert (b % m) * a == a * (b % m);
  }

  lemma ModMul(a: int, b: int, m: int)
    requires m > 0
    ensures ((a % m) * (b % m)) % m == (a * b) % m
  {
    ModMulLeft(a, b % m, m);
    ModMulRight(a, b, m);
  }

  lemma ModSub(a: int, b: int, m: int)
    requires m > 0
    ensures ((a % m) - (b % m)) % m == (a - b) % m
  {
    var qa, qb := a / m, b / m;
    assert a - b == (a % m) - (b % m) + (qa - qb) * m;
    ModAddMultiple((a % m) - (b % m), qa - qb, m);
  }

  /** Divisibility of a linear combination. */
  lemma DividesCombination(d: int, a: int, b: int, u: int, v: int)
    requires Divides(d, a) && Divides(d, b)
    ensures Divides(d, a * u + b * v)
  {
    var a', b' := a / d, b / d;
    assert a == d * a' && b == d * b';
    assert a * u + b * v == (a' * u + b' * v) * d;
    ModOfMultiple(a' * u + b' * v, d);
  }

  lemma DividesAtMost(d: int, n: int)
    requires Divides(d, n) && n > 0
    ensures d <= n
  {
    var c := n / d;
    assert n == d * c;
    if c <= -1 {
      MulAtMost(c, d);
      assert false;
    } else if c == 0 {
      assert false;
    } else {
      MulAtLeast(c, d);
    }
  }

  // ---------------------------------------------------------------------------------
  // Extended Euclid and the modular inverse

  /** Extended Euclid: the greatest common divisor of a and b with Bezout coefficients. */
  function ExtGcd(a: nat, b: nat): (nat, int, int)
    decreases b
  {
    if b == 0 then (a, 1, 0)
    else
      var t := ExtGcd(b, a % b);
      (t.0, t.2, t.1 - (a / b) * t.2)
  }

  /** The first component g of ExtGcd(a, b) is a*x + b*y for the other two. */
  lemma {:induction false} ExtGcdBezout(a: nat, b: nat)
    ensures var r := ExtGcd(a, b); r.0 == a * r.1 + b * r.2
    decreases b
  {
    if b > 0 {
      ExtGcdBezout(b, a % b);
      var t := ExtGcd(b, a % b);
      BezoutStep(a, b, t.0, t.1, t.2);
    }
  }

  lemma BezoutStep(a: nat, b: nat, g: int, x: int, y: int)
    requires b > 0 && g == b * x + (a % b) * y
    ensures g == a * y + b * (x - (a / b) * y)
  {
    var q := a / b;
    assert a == q * b + a % b;
    assert (a % b) * y == a * y - q * b * y;
    assert b * (x - q * y) == b * x - q * b * y;
  }

  /** The first component of ExtGcd(a, b) is 0 only for a == b == 0, and otherwise divides
      both a and b. */
  lemma {:induction false} ExtGcdDivides(a: nat, b: nat)
    ensures var g := ExtGcd(a, b).0;
      (g == 0 <==> a == 0 && b == 0) && (g > 0 ==> Divides(g, a) && Divides(g, b))
    decreases b
  {
    if b > 0 {
      ExtGcdDivides(b, a % b);
      var g := ExtGcd(b, a % b).0;
      DividesStep(a, b, g);
    }
  }

  lemma DividesStep(a: nat, b: nat, g: int)
    requires b > 0 && g > 0 && Divides(g, b) && Divides(g, a % b)
    ensures Divides(g, a)
  {
    DividesCombination(g, b, a % b, a / b, 1);
    assert b * (a / b) + (a % b) * 1 == a;
  }

  /** `a.modInverse(m)` for a positive modulus m: the residue inv with a * inv == 1 (mod m),
      or None where Java throws "BigInteger not invertible". For m == 1 Java returns 0,
      and so does this definition. */
  function ModInverse(a: int, m: int): (r: Option<int>)
    requires m > 0
    ensures r.Some? ==> 0 <= r.value < m && MulMod(a, r.value, m) == 1 % m
    ensures r.None? ==> forall b :: MulMod(a, b, m) != 1 % m
  {
    var t := ExtGcd(a % m, m);
    ExtGcdBezout(a % m, m);
    ExtGcdDivides(a % m, m);
    if t.0 == 1 then
      InverseFromBezout(a, m, t.1, t.2);
      Some(t.1 % m)
    else
      NoInverse(a, m, t.0);
      None
  }

  /** The inverse depends only on the residue. */
  lemma ModInverseCongruent(a: int, b: int, m: int)
    requires m > 0 && a % m == b % m
    ensures ModInverse(a, m) == ModInverse(b, m)
  {
  }

  lemma InverseFromBezout(a: int, m: int, x: int, y: int)
    requires m > 0 && (a % m) * x + m * y == 1
    ensures MulMod(a, x % m, m) == 1 % m
  {
    calc {
      (a * (x % m)) % m;
      { ModMulRight(a, x, m); }
      (a * x) % m;
      { ModMulLeft(a, x, m); }
      ((a % m) * x) % m;
      { ModAddMultiple((a % m) * x, y, m); assert (a % m) * x + y * m == 1; }
      1 % m;
    }
  }

  lemma NoInverse(a: int, m: int, g: nat)
    requires m > 0 && g != 1 && g > 0 && Divides(g, a % m) && Divides(g, m)
    ensures forall b :: MulMod(a, b, m) != 1 % m
  {
    DividesAtMost(g, m);
    ModUnique(1, 0, 1, m);
    DividesCombination(g, m, a % m, a / m, 1);
    assert m * (a / m) + (a % m) * 1 == a;
    forall b ensures MulMod(a, b, m) != 1 {
      NotUnit(g, a, b, m);
    }
  }

  /** A common divisor g > 1 of a and m rules out a * b == 1 (mod m). */
  lemma NotUnit(g: int, a: int, b: int, m: int)
    requires m > 1 && g > 1 && Divides(g, a) && Divides(g, m)
    ensures (a * b) % m != 1
  {
    var q, r := (a * b) / m, (a * b) % m;
    assert a * b + m * (-q) == r;
    DividesCombination(g, a, m, b, -q);
    if r == 1 {
      DividesAtMost(g, 1);
      assert false;
    }
  }

  /** Modulo a prime, exactly the non-zero residues are invertible. */
  lemma InvertibleModPrime(a: int, p: int)
    requires IsPrime(p)
    ensures ModInverse(a, p).Some? <==> a % p != 0
  {
    var g := ExtGcd(a % p, p).0;
    if a % p == 0 {
      assert g == p by {
        assert ExtGcd(0, p).0 == ExtGcd(p, 0).0;
      }
    } else {
      assert g > 0 && Divides(g, a % p) && Divides(g, p) by {
        ExtGcdDivides(a % p, p);
      }
      DividesAtMost(g, a % p);
      assert !ProperFactor(g, p);
    }
  }

  /** A product of two residues that are non-zero modulo a prime is non-zero. */
  lemma NonZeroProduct(a: int, b: int, p: int)
    requires IsPrime(p) && a % p != 0 && b % p != 0
    ensures (a * b) % p != 0
  {
    InvertibleModPrime(a, p);
    InvertibleModPrime(b, p);
    var ia, ib := ModInverse(a, p).value, ModInverse(b, p).value;
    assert (a * ia) % p == 1 && (b * ib) % p == 1 by {
      ModUnique(1, 0, 1, p);
    }
    ProductOfUnits(a, ia, b, ib, p);
    ModMulLeft(a * b, ia * ib, p);
  }

  /** Modulo a prime, a product is 0 exactly when one of its factors is. */
  lemma ProductModZero(a: int, b: int, p: int)
    requires IsPrime(p)
    ensures (a * b) % p == 0 <==> a % p == 0 || b % p == 0
  {
    if a % p != 0 && b % p != 0 {
      NonZeroProduct(a, b, p);
    } else if a % p == 0 {
      ModMulZero(b, a, p);
    } else {
      ModMulZero(a, b, p);
    }
  }

  /** A multiple of something that is 0 modulo p is 0 modulo p. */
  lemma ModMulZero(a: int, f: int, p: int)
    requires p > 0 && f % p == 0
    ensures (a * f) % p == 0 && (f * a) % p == 0
  {
    ModMulRight(a, f, p);
    assert a * (f % p) == 0;
    assert f * a == a * f;
  }

  lemma ProductOfUnits(a: int, ia: int, b: int, ib: int, p: int)
    requires p > 1 && (a * ia) % p == 1 && (b * ib) % p == 1
    ensures ((a * b) * (ia * ib)) % p == 1
  {
    ModMul(a * ia, b * ib, p);
    ModUnique(1, 0, 1, p);
    assert (a * ia) * (b * ib) == (a * b) * (ia * ib);
  }

  /** Two inverses of the same residue agree modulo m. */
  lemma InverseUnique(a: int, w: int, v: int, m: int)
    requires m > 0 && (a * w) % m == 1 % m && (a * v) % m == 1 % m
    ensures w % m == v % m
  {
    ModMulRight(w, a * v, m);
    ModMulRight(w, 1, m);
    ModMulLeft(a * w, v, m);
    ModMulLeft(1, v, m);
    assert w * (a * v) == (a * w) * v;
  }

  /** If a * d has an inverse u modulo m, then a has one, u * d reduced. */
  lemma InverseOfProduct(a: int, d: int, m: int)
    requires m > 0 && ModInverse(a * d, m).Some?
    ensures ModInverse(a, m).Some? && ModInverse(a, m).value == (ModInverse(a * d, m).value * d) % m
  {
    var u := ModInverse(a * d, m).value;
    var v := (u * d) % m;
    assert (a * v) % m == 1 % m by {
      ModMulRight(a, u * d, m);
      assert a * (u * d) == (a * d) * u;
    }
    var w := ModInverse(a, m);
    assert w.Some? by {
      assert MulMod(a, v, m) == 1 % m;
    }
    InverseUnique(a, w.value, v, m);
    ModIdempotent(u * d, m);
    ModUnique(w.value, 0, w.value, m);
  }
}
