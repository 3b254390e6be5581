/** Why `lagrangeInterpolation` recovers the secret: for shares lying on a polynomial f with
    no more coefficients than there are shares, at points distinct modulo a prime p, the
    interpolation at 0 returns f(0) = c[0] reduced modulo p.

    The proof goes through divided differences: the sum over the points x_i of
    f(x_i) / prod_{j != i} (x_i - x_j) is 0 modulo p whenever f has fewer coefficients than
    there are points. Adding the point 0 to the shares turns that identity into the
    interpolation formula. */
module Reconstruction {
  import opened Wrappers
  import opened ModArith
  import opened Lagrange
  import opened LagrangeFacts
  import opened Polynomial

  // ---------------------------------------------------------------------------------
  // Sums of integer sequences

  function Sum(xs: seq<int>): int
  {
    if xs == [] then 0 else Sum(xs[..|xs| - 1]) + xs[|xs| - 1]
  }

  /** Element k of xs without its r-th element. */
  lemma RemoveAt(xs: seq<int>, r: nat, k: nat)
    requires r < |xs| && k < |xs| - 1
    ensures Others(xs, r)[k] == xs[if k < r then k else k + 1]
  {
  }

  /** A sum is its r-th element plus the sum of the others. */
  lemma {:induction false} SumRemove(xs: seq<int>, r: nat)
    requires r < |xs|
    ensures Sum(xs) == xs[r] + Sum(Others(xs, r))
  {
    var front := xs[..|xs| - 1];
    if r == |xs| - 1 {
      assert Others(xs, r) == front;
    } else {
      SumRemove(front, r);
      var ys := Others(xs, r);
      assert ys[..|ys| - 1] == Others(front, r);
    }
  }

  lemma {:induction false} SumCongruent(xs: seq<int>, ys: seq<int>, p: int)
    requires p > 0 && |xs| == |ys|
    requires forall i :: 0 <= i < |xs| ==> xs[i] % p == ys[i] % p
    ensures Sum(xs) % p == Sum(ys) % p
  {
    if xs != [] {
      var n := |xs|;
      SumCongruent(xs[..n - 1], ys[..n - 1], p);
      CongruentSum(Sum(xs[..n - 1]), xs[n - 1], Sum(ys[..n - 1]), ys[n - 1], p);
    }
  }

  lemma {:induction false} SumLinear(xs: seq<int>, ys: seq<int>, zs: seq<int>, a: int)
    requires |xs| == |ys| == |zs|
    requires forall i :: 0 <= i < |xs| ==> xs[i] == a * ys[i] + zs[i]
    ensures Sum(xs) == a * Sum(ys) + Sum(zs)
  {
    if xs != [] {
      var n := |xs|;
      SumLinear(xs[..n - 1], ys[..n - 1], zs[..n - 1], a);
      assert a * Sum(ys) == a * Sum(ys[..n - 1]) + a * ys[n - 1];
    }
  }

  lemma CongruentSum(a: int, x: int, b: int, y: int, p: int)
    requires p > 0 && a % p == b % p && x % p == y % p
    ensures (a + x) % p == (b + y) % p
  {
    ModAdd(a, x, p);
    ModAdd(b, y, p);
  }

  // ---------------------------------------------------------------------------------
  // Divided differences modulo p

  /** The functions divided differences are taken of here: a polynomial, or a polynomial
      times (x - b). */
  datatype Values = Poly(c: seq<int>) | Linear(b: int, c: seq<int>)

  function Value(v: Values, x: int): int
  {
    match v
    case Poly(c) => Eval(c, x)
    case Linear(b, c) => (x - b) * Eval(c, x)
  }

  /** The inverse modulo p of prod_{j != i} (x_i - x_j), or 0 when there is none. */
  function Weight(s: seq<Share>, p: int, i: nat): int
    requires p > 0 && i < |s|
  {
    match ModInverse(DiffProduct(s[i].x, Others(s, i)), p)
    case Some(w) => w
    case None => 0
  }

  function Term(s: seq<Share>, v: Values, p: int, i: nat): int
    requires p > 0 && i < |s|
  {
    Value(v, s[i].x) * Weight(s, p, i)
  }

  /** The terms v(x_i) / prod_{j != i} (x_i - x_j) of the first n points of s. */
  function Terms(s: seq<Share>, v: Values, p: int, n: nat): (r: seq<int>)
    requires p > 0 && n <= |s|
    ensures |r| == n
  {
    if n == 0 then [] else Terms(s, v, p, n - 1) + [Term(s, v, p, n - 1)]
  }

  lemma {:induction false} TermsAt(s: seq<Share>, v: Values, p: int, n: nat, i: nat)
    requires p > 0 && i < n <= |s|
    ensures Terms(s, v, p, n)[i] == Term(s, v, p, i)
  {
    if i < n - 1 {
      TermsAt(s, v, p, n - 1, i);
    }
  }

  /** The divided difference of v over the points x of s, before reduction modulo p:
      the sum over i of v(x_i) / prod_{j != i} (x_i - x_j). */
  function DD(s: seq<Share>, v: Values, p: int): int
    requires p > 0
  {
    Sum(Terms(s, v, p, |s|))
  }

  /** The divided difference is linear in the function. */
  lemma DDLinear(s: seq<Share>, f: Values, g: Values, h: Values, a: int, p: int)
    requires p > 0
    requires forall x :: Value(f, x) == a * Value(g, x) + Value(h, x)
    ensures DD(s, f, p) == a * DD(s, g, p) + DD(s, h, p)
  {
    var n := |s|;
    var xs, ys, zs := Terms(s, f, p, n), Terms(s, g, p, n), Terms(s, h, p, n);
    forall i | 0 <= i < n ensures xs[i] == a * ys[i] + zs[i] {
      TermsAt(s, f, p, n, i);
      TermsAt(s, g, p, n, i);
      TermsAt(s, h, p, n, i);
      var x, w := s[i].x, Weight(s, p, i);
      assert Value(f, x) == a * Value(g, x) + Value(h, x);
      Distribute(a, Value(g, x), Value(h, x), w);
    }
    SumLinear(xs, ys, zs, a);
  }

  lemma Distribute(a: int, gx: int, hx: int, w: int)
    ensures (a * gx + hx) * w == a * (gx * w) + hx * w
  {
  }

  /** Taking out the points i and r in either order leaves the same sequence. */
  lemma OthersTwice(s: seq<Share>, r: nat, i: nat)
    requires r < |s| && i < |s| && r != i
    ensures Others(s, i)[if r < i then r else r - 1] == s[r]
    ensures Others(s, r)[if i < r then i else i - 1] == s[i]
    ensures Others(Others(s, i), if r < i then r else r - 1) == Others(Others(s, r), if i < r then i else i - 1)
  {
    if r < i {
      assert Others(Others(s, i), r) == s[..r] + s[r + 1..i] + s[i + 1..];
      assert Others(Others(s, r), i - 1) == s[..r] + s[r + 1..i] + s[i + 1..];
    } else {
      assert Others(Others(s, i), r - 1) == s[..i] + s[i + 1..r] + s[r + 1..];
      assert Others(Others(s, r), i) == s[..i] + s[i + 1..r] + s[r + 1..];
    }
  }

  /** Points distinct modulo p stay distinct when one is taken out. */
  lemma DistinctOthers(s: seq<Share>, p: int, r: nat)
    requires p > 0 && r < |s| && DistinctModulo(s, p)
    ensures DistinctModulo(Others(s, r), p)
  {
    var t := Others(s, r);
    assert forall k :: 0 <= k < |t| ==> t[k] == if k < r then s[k] else s[k + 1];
  }

  /** Point i of s carries the weight of its products against every other point. */
  lemma WeightDefined(s: seq<Share>, p: int, i: nat)
    requires IsPrime(p) && DistinctModulo(s, p) && i < |s|
    ensures ModInverse(DiffProduct(s[i].x, Others(s, i)), p).Some?
  {
    BasisSomeIff(s, p, i);
    forall j | 0 <= j < |s| && j != i ensures s[i].x % p != s[j].x % p {
      if i < j {
        assert s[i].x % p != s[j].x % p;
      } else {
        assert s[j].x % p != s[i].x % p;
      }
    }
  }

  /** Every point of s has a denominator prod_{j != i} (x_i - x_j) invertible modulo p. */
  ghost predicate WeightsDefined(s: seq<Share>, p: int)
    requires p > 0
  {
    forall i {:trigger Weight(s, p, i)} :: 0 <= i < |s| ==> ModInverse(DiffProduct(s[i].x, Others(s, i)), p).Some?
  }

  lemma AllWeightsDefined(s: seq<Share>, p: int)
    requires IsPrime(p) && DistinctModulo(s, p)
    ensures WeightsDefined(s, p)
  {
    forall i | 0 <= i < |s| ensures ModInverse(DiffProduct(s[i].x, Others(s, i)), p).Some? {
      WeightDefined(s, p, i);
    }
    assert forall i {:trigger Weight(s, p, i)} :: 0 <= i < |s| ==> ModInverse(DiffProduct(s[i].x, Others(s, i)), p).Some?;
  }

  /** A term of the divided difference of (x - x_r) q over s, at a point i other than r, is
      congruent to the term of q at the same point of s without r. */
  lemma CancelTerm(s: seq<Share>, c: seq<int>, p: int, r: nat, k: nat)
    requires IsPrime(p) && DistinctModulo(s, p) && r < |s| && k < |s| - 1
    ensures Term(s, Linear(s[r].x, c), p, if k < r then k else k + 1) % p == Term(Others(s, r), Poly(c), p, k) % p
  {
    var i := if k < r then k else k + 1;
    var t := Others(s, r);
    var r' := if r < i then r else r - 1;
    OthersTwice(s, r, i);
    var xi, d := s[i].x, s[i].x - s[r].x;
    var rest := Others(t, k);
    DiffProductRemove(xi, Others(s, i), r');
    assert DiffProduct(xi, Others(s, i)) == DiffProduct(xi, rest) * d;
    WeightDefined(s, p, i);
    InverseOfProduct(DiffProduct(xi, rest), d, p);
    var u, w := Weight(s, p, i), Weight(t, p, k);
    assert w == (u * d) % p;
    var y := Eval(c, xi);
    assert Term(s, Linear(s[r].x, c), p, i) == (d * y) * u;
    assert Term(t, Poly(c), p, k) == y * w;
    Reassociate(d, y, u);
    ModMulRight(y, u * d, p);
  }

  /** The same, stated on the sequences of terms. */
  lemma CancelAt(s: seq<Share>, c: seq<int>, p: int, r: nat, k: nat)
    requires IsPrime(p) && DistinctModulo(s, p) && r < |s| && k < |s| - 1
    ensures Others(Terms(s, Linear(s[r].x, c), p, |s|), r)[k] % p == Terms(Others(s, r), Poly(c), p, |s| - 1)[k] % p
  {
    TermsAround(s, c, p, r, k);
    CancelTerm(s, c, p, r, k);
  }

  lemma TermsAround(s: seq<Share>, c: seq<int>, p: int, r: nat, k: nat)
    requires p > 0 && r < |s| && k < |s| - 1
    ensures Others(Terms(s, Linear(s[r].x, c), p, |s|), r)[k] == Term(s, Linear(s[r].x, c), p, if k < r then k else k + 1)
    ensures Terms(Others(s, r), Poly(c), p, |s| - 1)[k] == Term(Others(s, r), Poly(c), p, k)
  {
    RemoveAt(Terms(s, Linear(s[r].x, c), p, |s|), r, k);
    TermsAt(s, Linear(s[r].x, c), p, |s|, if k < r then k else k + 1);
    OthersTermsAt(s, c, p, r, k);
  }

  lemma OthersTermsAt(s: seq<Share>, c: seq<int>, p: int, r: nat, k: nat)
    requires p > 0 && r < |s| && k < |s| - 1
    ensures Terms(Others(s, r), Poly(c), p, |s| - 1)[k] == Term(Others(s, r), Poly(c), p, k)
  {
    TermsAt(Others(s, r), Poly(c), p, |s| - 1, k);
  }

  lemma Reassociate(d: int, y: int, u: int)
    ensures (d * y) * u == y * (u * d)
  {
  }

  /** Cancelling the factor (x - x_r) drops the point r from the divided difference. */
  lemma DDCancel(s: seq<Share>, c: seq<int>, p: int, r: nat)
    requires IsPrime(p) && DistinctModulo(s, p) && r < |s|
    ensures DD(s, Linear(s[r].x, c), p) % p == DD(Others(s, r), Poly(c), p) % p
  {
    VanishingTerm(s, c, p, r);
    RemainingTerms(s, c, p, r);
  }

  /** The term of (x - x_r) q at the point r itself is 0. */
  lemma VanishingTerm(s: seq<Share>, c: seq<int>, p: int, r: nat)
    requires p > 0 && r < |s|
    ensures Sum(Terms(s, Linear(s[r].x, c), p, |s|)) == Sum(Others(Terms(s, Linear(s[r].x, c), p, |s|), r))
  {
    assert Terms(s, Linear(s[r].x, c), p, |s|)[r] == 0 by {
      TermsAt(s, Linear(s[r].x, c), p, |s|, r);
      assert Value(Linear(s[r].x, c), s[r].x) == 0;
    }
    SumRemove(Terms(s, Linear(s[r].x, c), p, |s|), r);
  }

  /** The terms of (x - x_r) q other than the r-th are congruent, one by one, to those of q
      over the points without r. */
  lemma RemainingTerms(s: seq<Share>, c: seq<int>, p: int, r: nat)
    requires IsPrime(p) && DistinctModulo(s, p) && r < |s|
    ensures Sum(Others(Terms(s, Linear(s[r].x, c), p, |s|), r)) % p == Sum(Terms(Others(s, r), Poly(c), p, |s| - 1)) % p
  {
    var rest := Others(Terms(s, Linear(s[r].x, c), p, |s|), r);
    var ys := Terms(Others(s, r), Poly(c), p, |s| - 1);
    forall k | 0 <= k < |s| - 1 ensures rest[k] % p == ys[k] % p {
      CancelAt(s, c, p, r, k);
    }
    SumCongruent(rest, ys, p);
  }

  /** Over a single point the divided difference is the value there. */
  lemma DDSingle(e: Share, v: Values, p: int)
    requires p > 0
    ensures DD([e], v, p) % p == Value(v, e.x) % p
  {
    assert Others([e], 0) == [];
    assert DiffProduct(e.x, []) == 1;
    InverseOfOne(p);
    assert Weight([e], p, 0) == 1 % p;
    var xs := Terms([e], v, p, 1);
    TermsAt([e], v, p, 1, 0);
    assert Sum(xs) == Sum(xs[..0]) + xs[0];
    ModMulRight(Value(v, e.x), 1, p);
  }

  lemma EvalOne(x: int)
    ensures Eval([1], x) == 1
  {
    assert [1][1..] == [];
  }

  /** The divided difference of the constant 1 over two or more points is 0. */
  lemma {:induction false} DDOne(s: seq<Share>, p: int)
    requires IsPrime(p) && DistinctModulo(s, p) && |s| >= 2
    ensures DD(s, Poly([1]), p) % p == 0
    decreases |s|, 0
  {
    var m := |s|;
    var a, b := s[0].x, s[m - 1].x;
    forall x ensures Value(Linear(b, [1]), x) == (a - b) * Value(Poly([1]), x) + Value(Linear(a, [1]), x) {
      EvalOne(x);
    }
    DDLinear(s, Linear(b, [1]), Poly([1]), Linear(a, [1]), a - b, p);
    DDCancel(s, [1], p, m - 1);
    DDCancel(s, [1], p, 0);
    var first, last := Others(s, m - 1), Others(s, 0);
    var u, v := DD(first, Poly([1]), p), DD(last, Poly([1]), p);
    assert u % p == v % p by {
      if m == 2 {
        assert first == [s[0]] && last == [s[1]];
        DDSingle(s[0], Poly([1]), p);
        DDSingle(s[1], Poly([1]), p);
        EvalOne(s[0].x);
        EvalOne(s[1].x);
      } else {
        DistinctOthers(s, p, m - 1);
        DistinctOthers(s, p, 0);
        DDZero(first, [1], p);
        DDZero(last, [1], p);
      }
    }
    var dd := DD(s, Poly([1]), p);
    assert ((a - b) * dd) % p == 0 by {
      ModSub(DD(s, Linear(b, [1]), p), DD(s, Linear(a, [1]), p), p);
      ModSub(u, v, p);
    }
    assert (a - b) % p != 0 by {
      DifferenceModZero(a, b, p);
    }
    ProductModZero(a - b, dd, p);
  }

  /** The divided difference over m >= 1 points distinct modulo p of a polynomial with fewer
      than m coefficients is 0 modulo p. */
  lemma {:induction false} DDZero(s: seq<Share>, c: seq<int>, p: int)
    requires IsPrime(p) && DistinctModulo(s, p) && |s| >= 1 && |c| < |s|
    ensures DD(s, Poly(c), p) % p == 0
    decreases |s|, 1
  {
    var m := |s|;
    if m == 1 {
      DDOfZero(s, c, p);
    } else {
      var b := s[m - 1].x;
      var q := Quotient(c, b);
      DDFactor(s, c, b, p);
      assert DD(s, Poly([1]), p) % p == 0 by {
        DDOne(s, p);
      }
      DDQuotientZero(s, c, p);
      DDFactorZero(s, c, b, p);
    }
  }

  /** The quotient part (x - b) q of the split, with b the last point: cancelling (x - b)
      leaves q, of fewer coefficients than the remaining points. */
  lemma {:induction false} DDQuotientZero(s: seq<Share>, c: seq<int>, p: int)
    requires IsPrime(p) && DistinctModulo(s, p) && |s| >= 2 && |c| < |s|
    ensures DD(s, Linear(s[|s| - 1].x, Quotient(c, s[|s| - 1].x)), p) % p == 0
    decreases |s|, 0
  {
    var r := |s| - 1;
    var q := Quotient(c, s[r].x);
    DDCancel(s, q, p, r);
    DistinctOthers(s, p, r);
    DDZero(Others(s, r), q, p);
  }

  /** By the factor theorem f = f(b) * 1 + (x - b) q, and so for the divided differences. */
  lemma DDFactor(s: seq<Share>, c: seq<int>, b: int, p: int)
    requires p > 0
    ensures DD(s, Poly(c), p) == Eval(c, b) * DD(s, Poly([1]), p) + DD(s, Linear(b, Quotient(c, b)), p)
  {
    FactorValues(c, b);
    DDLinear(s, Poly(c), Poly([1]), Linear(b, Quotient(c, b)), Eval(c, b), p);
  }

  lemma FactorValues(c: seq<int>, b: int)
    ensures forall x :: Value(Poly(c), x) == Eval(c, b) * Value(Poly([1]), x) + Value(Linear(b, Quotient(c, b)), x)
  {
    forall x ensures Value(Poly(c), x) == Eval(c, b) * Value(Poly([1]), x) + Value(Linear(b, Quotient(c, b)), x) {
      FactorValue(c, b, x);
    }
  }

  lemma FactorValue(c: seq<int>, b: int, x: int)
    ensures Value(Poly(c), x) == Eval(c, b) * Value(Poly([1]), x) + Value(Linear(b, Quotient(c, b)), x)
  {
    var one := Value(Poly([1]), x);
    assert one == 1 by {
      EvalOne(x);
    }
    MulOne(Eval(c, b), one);
    FactorTheorem(c, b, x);
  }

  lemma MulOne(e: int, one: int)
    requires one == 1
    ensures e * one == e
  {
  }

  /** Both parts of the factor-theorem split vanishing modulo p, so does the whole. */
  lemma DDFactorZero(s: seq<Share>, c: seq<int>, b: int, p: int)
    requires p > 0
    requires DD(s, Poly(c), p) == Eval(c, b) * DD(s, Poly([1]), p) + DD(s, Linear(b, Quotient(c, b)), p)
    requires DD(s, Poly([1]), p) % p == 0 && DD(s, Linear(b, Quotient(c, b)), p) % p == 0
    ensures DD(s, Poly(c), p) % p == 0
  {
    CombineZeros(DD(s, Poly(c), p), Eval(c, b), DD(s, Poly([1]), p), DD(s, Linear(b, Quotient(c, b)), p), p);
  }

  lemma CombineZeros(d: int, e: int, one: int, rest: int, p: int)
    requires p > 0 && d == e * one + rest && one % p == 0 && rest % p == 0
    ensures d % p == 0
  {
    ModMulRight(e, one, p);
    ModAdd(e * one, rest, p);
    ModUnique(0, 0, 0, p);
  }

  /** The divided difference of the zero polynomial over a single point is 0. */
  lemma DDOfZero(s: seq<Share>, c: seq<int>, p: int)
    requires p > 0 && |s| == 1 && c == []
    ensures DD(s, Poly(c), p) % p == 0
  {
    var xs := Terms(s, Poly([]), p, 1);
    TermsAt(s, Poly([]), p, 1, 0);
    assert xs[0] == 0 * Weight(s, p, 0);
    assert Sum(xs) == Sum(xs[..0]) + xs[0];
    ModUnique(0, 0, 0, p);
  }

  // ---------------------------------------------------------------------------------
  // The interpolation returns the constant term

  /** The shares with the point 0 put in front. */
  function WithZero(s: seq<Share>): (r: seq<Share>)
    ensures |r| == |s| + 1 && r[0].x == 0
  {
    [Share(0, 0)] + s
  }

  lemma DistinctWithZero(s: seq<Share>, p: int)
    requires p > 0 && DistinctModulo(s, p)
    requires forall i :: 0 <= i < |s| ==> s[i].x % p != 0
    ensures DistinctModulo(WithZero(s), p)
  {
    var s0 := WithZero(s);
    forall i, j | 0 <= i < j < |s0| ensures s0[i].x % p != s0[j].x % p {
      assert s0[j] == s[j - 1];
      if i > 0 {
        assert s0[i] == s[i - 1];
      }
    }
  }

  /** Multiplied by prod_j (-x_j), the term of the point 0 is f(0). */
  lemma ZeroTerm(s: seq<Share>, c: seq<int>, p: int)
    requires p > 0 && WeightsDefined(WithZero(s), p)
    ensures (DiffProduct(0, s) * Term(WithZero(s), Poly(c), p, 0)) % p == Eval(c, 0) % p
  {
    var s0 := WithZero(s);
    assert Others(s0, 0) == s;
    assert ModInverse(DiffProduct(s0[0].x, Others(s0, 0)), p).Some? by {
      var w := Weight(s0, p, 0);
    }
    var n, w, e := DiffProduct(0, s), Weight(s0, p, 0), Eval(c, 0);
    assert (n * w) % p == 1 % p;
    ZeroTermAlgebra(n, w, e, p);
  }

  lemma ZeroTermAlgebra(n: int, w: int, e: int, p: int)
    requires p > 0 && (n * w) % p == 1 % p
    ensures (n * (e * w)) % p == e % p
  {
    assert n * (e * w) == e * (n * w);
    ModMulRight(e, n * w, p);
    ModMulRight(e, 1, p);
  }

  /** Multiplied by prod_j (-x_j), the term of share i is -y_i times its Lagrange basis. */
  lemma ShareTerm(s: seq<Share>, c: seq<int>, p: int, i: nat)
    requires p > 0 && WeightsDefined(WithZero(s), p) && i < |s|
    requires s[i].y % p == Eval(c, s[i].x) % p
    ensures (DiffProduct(0, s) * Term(WithZero(s), Poly(c), p, i + 1)) % p
         == (-(s[i].y * BasisValue(s, p, s[i]))) % p
  {
    assert DiffProduct(0, s) == DiffProduct(0, Others(s, i)) * (0 - s[i].x) by {
      DiffProductRemove(0, s, i);
    }
    assert ModInverse(DiffProduct(s[i].x, Others(s, i)), p).Some? &&
           ModInverse(DiffProduct(s[i].x, Others(s, i)), p).value == (Weight(WithZero(s), p, i + 1) * s[i].x) % p by {
      ShiftedWeight(s, p, i);
    }
    assert BasisValue(s, p, s[i]) == (DiffProduct(0, Others(s, i)) * ModInverse(DiffProduct(s[i].x, Others(s, i)), p).value) % p by {
      BasisValueOfInverse(s, p, i);
    }
    assert Term(WithZero(s), Poly(c), p, i + 1) == Eval(c, s[i].x) * Weight(WithZero(s), p, i + 1) by {
      ShiftedTerm(s, c, p, i);
    }
    ShareTermGlue(s, c, p, i);
  }

  lemma ShareTermGlue(s: seq<Share>, c: seq<int>, p: int, i: nat)
    requires p > 0 && i < |s|
    requires s[i].y % p == Eval(c, s[i].x) % p
    requires DiffProduct(0, s) == DiffProduct(0, Others(s, i)) * (0 - s[i].x)
    requires ModInverse(DiffProduct(s[i].x, Others(s, i)), p).Some? &&
             ModInverse(DiffProduct(s[i].x, Others(s, i)), p).value == (Weight(WithZero(s), p, i + 1) * s[i].x) % p
    requires BasisValue(s, p, s[i]) == (DiffProduct(0, Others(s, i)) * ModInverse(DiffProduct(s[i].x, Others(s, i)), p).value) % p
    requires Term(WithZero(s), Poly(c), p, i + 1) == Eval(c, s[i].x) * Weight(WithZero(s), p, i + 1)
    ensures (DiffProduct(0, s) * Term(WithZero(s), Poly(c), p, i + 1)) % p
         == (-(s[i].y * BasisValue(s, p, s[i]))) % p
  {
    ShareTermAlgebra(DiffProduct(0, Others(s, i)), s[i].x, Eval(c, s[i].x), Weight(WithZero(s), p, i + 1),
      ModInverse(DiffProduct(s[i].x, Others(s, i)), p).value, s[i].y, p,
      DiffProduct(0, s), Term(WithZero(s), Poly(c), p, i + 1), BasisValue(s, p, s[i]));
  }

  /** The weight of share i among 0 and the shares, times x_i, is the weight of share i
      among the shares alone. */
  lemma ShiftedWeight(s: seq<Share>, p: int, i: nat)
    requires p > 0 && WeightsDefined(WithZero(s), p) && i < |s|
    ensures ModInverse(DiffProduct(s[i].x, Others(s, i)), p).Some?
    ensures ModInverse(DiffProduct(s[i].x, Others(s, i)), p).value == (Weight(WithZero(s), p, i + 1) * s[i].x) % p
  {
    var s0, o, xi := WithZero(s), Others(s, i), s[i].x;
    assert s0[i + 1] == s[i];
    assert DiffProduct(xi, Others(s0, i + 1)) == DiffProduct(xi, o) * xi by {
      assert Others(s0, i + 1) == [Share(0, 0)] + o;
      assert Others([Share(0, 0)] + o, 0) == o;
      DiffProductRemove(xi, [Share(0, 0)] + o, 0);
    }
    assert ModInverse(DiffProduct(s0[i + 1].x, Others(s0, i + 1)), p).Some? by {
      var w := Weight(s0, p, i + 1);
    }
    assert ModInverse(DiffProduct(xi, o) * xi, p).Some? && Weight(s0, p, i + 1) == ModInverse(DiffProduct(xi, o) * xi, p).value;
    InverseOfProduct(DiffProduct(xi, o), xi, p);
  }

  /** With an inverse of its denominator, the basis of share i is numerator times inverse. */
  lemma BasisValueOfInverse(s: seq<Share>, p: int, i: nat)
    requires p > 0 && i < |s| && ModInverse(DiffProduct(s[i].x, Others(s, i)), p).Some?
    ensures BasisValue(s, p, s[i]) == (DiffProduct(0, Others(s, i)) * ModInverse(DiffProduct(s[i].x, Others(s, i)), p).value) % p
  {
    BasisValueAt(s, p, i);
  }

  lemma ShiftedTerm(s: seq<Share>, c: seq<int>, p: int, i: nat)
    requires p > 0 && i < |s|
    ensures Term(WithZero(s), Poly(c), p, i + 1) == Eval(c, s[i].x) * Weight(WithZero(s), p, i + 1)
  {
    assert WithZero(s)[i + 1] == s[i];
  }

  lemma ShareTermAlgebra(ni: int, xi: int, e: int, u: int, w: int, y: int, p: int, n: int, t: int, b: int)
    requires p > 0 && w == (u * xi) % p && y % p == e % p
    requires n == ni * (0 - xi) && t == e * u && b == (ni * w) % p
    ensures (n * t) % p == (-(y * b)) % p
  {
    var a := -(e * ni);
    calc {
      (n * t) % p;
      { Rearrange(ni, xi, e, u); }
      (a * (u * xi)) % p;
      { ModMulRight(a, u * xi, p); }
      (a * w) % p;
      { RearrangeNeg(e, ni, w); }
      ((-e) * (ni * w)) % p;
      { ModMulRight(-e, ni * w, p); }
      ((-e) * b) % p;
      { NegCongruent(e, y, b, p); }
      (-(y * b)) % p;
    }
  }

  lemma Rearrange(ni: int, xi: int, e: int, u: int)
    ensures (ni * (0 - xi)) * (e * u) == (-(e * ni)) * (u * xi)
  {
  }

  lemma RearrangeNeg(e: int, ni: int, w: int)
    ensures (-(e * ni)) * w == (-e) * (ni * w)
  {
  }

  lemma NegCongruent(e: int, y: int, b: int, p: int)
    requires p > 0 && e % p == y % p
    ensures ((-e) * b) % p == (-(y * b)) % p
  {
    ModSub(0, e, p);
    ModSub(0, y, p);
    ModMulLeft(-e, b, p);
    ModMulLeft(-y, b, p);
    assert (-y) * b == -(y * b);
  }

  /** The summands y_i * basis_i of the interpolation sum over the first n shares. */
  ghost function Contributions(s: seq<Share>, p: int, n: nat): (r: seq<int>)
    requires p > 0 && n <= |s|
    ensures |r| == n
  {
    if n == 0 then [] else Contributions(s, p, n - 1) + [s[n - 1].y * BasisValue(s, p, s[n - 1])]
  }

  lemma {:induction false} ContributionsAt(s: seq<Share>, p: int, n: nat, i: nat)
    requires p > 0 && i < n <= |s|
    ensures Contributions(s, p, n)[i] == s[i].y * BasisValue(s, p, s[i])
  {
    if i < n - 1 {
      ContributionsAt(s, p, n - 1, i);
    }
  }

  lemma {:induction false} TermSumIsSum(s: seq<Share>, p: int, n: nat)
    requires p > 0 && n <= |s|
    ensures TermSum(s, p, n) == Sum(Contributions(s, p, n))
  {
    if n > 0 {
      TermSumIsSum(s, p, n - 1);
      var r := Contributions(s, p, n);
      assert r[..n - 1] == Contributions(s, p, n - 1);
    }
  }

  /** Scaled by nn, a sum whose first summand is e and whose later summands are the negated
      ys (all modulo p) is e minus the sum of the ys, prefix by prefix. */
  lemma {:induction false} ScaledSumPrefix(xs: seq<int>, ys: seq<int>, nn: int, e: int, p: int, n: nat)
    requires p > 0 && |xs| == |ys| + 1 && n <= |ys|
    requires (nn * xs[0]) % p == e % p
    requires forall i :: 1 <= i < |xs| ==> (nn * xs[i]) % p == (-ys[i - 1]) % p
    ensures (nn * Sum(xs[..n + 1])) % p == (e - Sum(ys[..n])) % p
  {
    if n == 0 {
      assert xs[..1][..0] == [];
      assert Sum(ys[..0]) == 0;
    } else {
      ScaledSumPrefix(xs, ys, nn, e, p, n - 1);
      assert xs[..n + 1][..n] == xs[..n];
      assert ys[..n][..n - 1] == ys[..n - 1];
      ReconstructStep(nn, Sum(xs[..n]), xs[n], Sum(xs[..n + 1]),
                      e, Sum(ys[..n - 1]), ys[n - 1], Sum(ys[..n]), p);
    }
  }

  /** The arithmetic of one step of ScaledSumPrefix. */
  lemma ReconstructStep(nn: int, prev: int, t: int, total: int, e: int, ts: int, bv: int, ts': int, p: int)
    requires p > 0 && total == prev + t && ts' == ts + bv
    requires (nn * prev) % p == (e - ts) % p && (nn * t) % p == (-bv) % p
    ensures (nn * total) % p == (e - ts') % p
  {
    assert nn * total == nn * prev + nn * t;
    CongruentSum(nn * prev, nn * t, e - ts, -bv, p);
  }

  /** Summand i of the divided difference over 0 and the shares is share i - 1's, scaled. */
  lemma ShareSummand(s: seq<Share>, c: seq<int>, p: int, i: nat)
    requires p > 0 && WeightsDefined(WithZero(s), p) && 1 <= i <= |s|
    requires s[i - 1].y % p == Eval(c, s[i - 1].x) % p
    ensures (DiffProduct(0, s) * Terms(WithZero(s), Poly(c), p, |s| + 1)[i]) % p
         == (-Contributions(s, p, |s|)[i - 1]) % p
  {
    var j := i - 1;
    assert Terms(WithZero(s), Poly(c), p, |s| + 1)[i] == Term(WithZero(s), Poly(c), p, j + 1) by {
      TermsAt(WithZero(s), Poly(c), p, |s| + 1, i);
    }
    assert Contributions(s, p, |s|)[j] == s[j].y * BasisValue(s, p, s[j]) by {
      ContributionsAt(s, p, |s|, j);
    }
    ShareTerm(s, c, p, j);
  }

  /** The summands of the divided difference of f over 0 and the shares, multiplied by
      prod_j (-x_j): f(0) for the point 0, and minus y_i * basis_i for share i. */
  lemma ZeroSummand(s: seq<Share>, c: seq<int>, p: int)
    requires p > 0 && WeightsDefined(WithZero(s), p)
    ensures (DiffProduct(0, s) * Terms(WithZero(s), Poly(c), p, |s| + 1)[0]) % p == Eval(c, 0) % p
  {
    TermsAt(WithZero(s), Poly(c), p, |s| + 1, 0);
    ZeroTerm(s, c, p);
  }

  lemma ScaledSummands(s: seq<Share>, c: seq<int>, p: int, xs: seq<int>, ys: seq<int>)
    requires p > 0 && WeightsDefined(WithZero(s), p)
    requires forall i {:trigger Eval(c, s[i].x)} :: 0 <= i < |s| ==> s[i].y % p == Eval(c, s[i].x) % p
    requires xs == Terms(WithZero(s), Poly(c), p, |s| + 1) && ys == Contributions(s, p, |s|)
    ensures |xs| == |ys| + 1
    ensures (DiffProduct(0, s) * xs[0]) % p == Eval(c, 0) % p
    ensures forall i :: 1 <= i < |xs| ==> (DiffProduct(0, s) * xs[i]) % p == (-ys[i - 1]) % p
  {
    assert (DiffProduct(0, s) * xs[0]) % p == Eval(c, 0) % p by {
      ZeroSummand(s, c, p);
    }
    forall i | 1 <= i < |xs| ensures (DiffProduct(0, s) * xs[i]) % p == (-ys[i - 1]) % p {
      assert s[i - 1].y % p == Eval(c, s[i - 1].x) % p;
      ShareSummand(s, c, p, i);
    }
  }

  /** Multiplied by prod_j (-x_j), the divided difference of f over 0 and all the shares is
      f(0) minus the interpolation sum. */
  lemma ScaledDD(s: seq<Share>, c: seq<int>, p: int)
    requires p > 0 && WeightsDefined(WithZero(s), p)
    requires forall i {:trigger Eval(c, s[i].x)} :: 0 <= i < |s| ==> s[i].y % p == Eval(c, s[i].x) % p
    ensures (DiffProduct(0, s) * DD(WithZero(s), Poly(c), p)) % p == (Eval(c, 0) - TermSum(s, p, |s|)) % p
  {
    var k, nn := |s|, DiffProduct(0, s);
    var xs, ys := Terms(WithZero(s), Poly(c), p, k + 1), Contributions(s, p, k);
    ScaledSummands(s, c, p, xs, ys);
    ScaledSumPrefix(xs, ys, nn, Eval(c, 0), p, k);
    assert xs[..k + 1] == xs && ys[..k] == ys;
    TermSumIsSum(s, p, k);
  }

  /** Reconstruction: shares on a polynomial with at most as many coefficients as there are
      shares, at points distinct modulo a prime p, interpolate to the constant term c[0]
      modulo p. */
  lemma InterpolateRecoversSecret(s: seq<Share>, c: seq<int>, p: int)
    requires IsPrime(p) && DistinctModulo(s, p) && |c| <= |s|
    requires forall i {:trigger Eval(c, s[i].x)} :: 0 <= i < |s| ==> s[i].y % p == Eval(c, s[i].x) % p
    ensures Interpolate(s, p) == Ok((if c == [] then 0 else c[0]) % p)
  {
    assert Eval(c, 0) == if c == [] then 0 else c[0];
    if s == [] {
      assert c == [];
    } else if m :| 0 <= m < |s| && s[m].x % p == 0 {
      assert s[m].y % p == Eval(c, s[m].x) % p;
      ShareAtZero(s, c, p, m);
    } else {
      ReconstructAwayFromZero(s, c, p);
    }
  }

  /** Reconstruction when no share sits at 0 modulo p: 0 joins the points, and the divided
      difference of f over all of them vanishes. */
  lemma ReconstructAwayFromZero(s: seq<Share>, c: seq<int>, p: int)
    requires IsPrime(p) && DistinctModulo(s, p) && |c| <= |s|
    requires forall i :: 0 <= i < |s| ==> s[i].x % p != 0
    requires forall i {:trigger Eval(c, s[i].x)} :: 0 <= i < |s| ==> s[i].y % p == Eval(c, s[i].x) % p
    ensures Interpolate(s, p) == Ok(Eval(c, 0) % p)
  {
    InterpolateOkIffDistinct(s, p);
    AccumulateValue(s, p, |s|);
    SecretCongruent(s, c, p);
  }

  /** The interpolation sum is f(0) modulo p. */
  lemma SecretCongruent(s: seq<Share>, c: seq<int>, p: int)
    requires IsPrime(p) && DistinctModulo(s, p) && |c| <= |s|
    requires forall i :: 0 <= i < |s| ==> s[i].x % p != 0
    requires forall i {:trigger Eval(c, s[i].x)} :: 0 <= i < |s| ==> s[i].y % p == Eval(c, s[i].x) % p
    ensures TermSum(s, p, |s|) % p == Eval(c, 0) % p
  {
    var scaled := ScaledDDBoth(s, c, p);
    Conclude(s, c, p, scaled);
  }

  /** f(0) - TermSum vanishes modulo p, so the two agree. */
  lemma Conclude(s: seq<Share>, c: seq<int>, p: int, scaled: int)
    requires p > 0 && scaled % p == (Eval(c, 0) - TermSum(s, p, |s|)) % p && scaled % p == 0
    ensures TermSum(s, p, |s|) % p == Eval(c, 0) % p
  {
    ZeroDifference(scaled, Eval(c, 0), TermSum(s, p, |s|), p);
  }

  /** The point 0 joins shares that avoid it without breaking distinctness, and every
      weight over the joined points is defined. */
  lemma ZeroJoins(s: seq<Share>, p: int)
    requires IsPrime(p) && DistinctModulo(s, p)
    requires forall i :: 0 <= i < |s| ==> s[i].x % p != 0
    ensures DistinctModulo(WithZero(s), p) && WeightsDefined(WithZero(s), p)
  {
    DistinctWithZero(s, p);
    AllWeightsDefined(WithZero(s), p);
  }

  lemma ZeroDifference(scaled: int, e: int, t: int, p: int)
    requires p > 0 && scaled % p == (e - t) % p && scaled % p == 0
    ensures t % p == e % p
  {
    DifferenceModZero(e, t, p);
  }

  /** The scaled divided difference over 0 and the shares, computed two ways. */
  lemma ScaledDDBoth(s: seq<Share>, c: seq<int>, p: int) returns (scaled: int)
    requires IsPrime(p) && DistinctModulo(s, p) && |c| <= |s|
    requires forall i :: 0 <= i < |s| ==> s[i].x % p != 0
    requires forall i {:trigger Eval(c, s[i].x)} :: 0 <= i < |s| ==> s[i].y % p == Eval(c, s[i].x) % p
    ensures scaled % p == (Eval(c, 0) - TermSum(s, p, |s|)) % p && scaled % p == 0
  {
    ZeroJoins(s, p);
    var dd := DD(WithZero(s), Poly(c), p);
    scaled := DiffProduct(0, s) * dd;
    ScaledDD(s, c, p);
    assert dd % p == 0 by {
      DDZero(WithZero(s), c, p);
    }
    ModMulZero(DiffProduct(0, s), dd, p);
  }

  /** The products against the same shares at congruent points are congruent. */
  lemma {:induction false} DiffProductCongruent(z1: int, z2: int, rest: seq<Share>, p: int)
    requires p > 0 && z1 % p == z2 % p
    ensures DiffProduct(z1, rest) % p == DiffProduct(z2, rest) % p
  {
    if rest != [] {
      var front, x := rest[..|rest| - 1], rest[|rest| - 1].x;
      DiffProductCongruent(z1, z2, front, p);
      ModSub(z1, x, p);
      ModSub(z2, x, p);
      ModMul(DiffProduct(z1, front), z1 - x, p);
      ModMul(DiffProduct(z2, front), z2 - x, p);
    }
  }

  /** When share m sits at 0 modulo p, its basis is 1 and every other basis is 0. */
  lemma BasisAtZero(s: seq<Share>, p: int, m: nat, i: nat)
    requires IsPrime(p) && DistinctModulo(s, p) && m < |s| && i < |s| && s[m].x % p == 0
    ensures Basis(s, p, i) == Some(if i == m then 1 else 0)
  {
    var o := Others(s, i);
    assert ModInverse(DiffProduct(s[i].x, o), p).Some? by {
      WeightDefined(s, p, i);
    }
    if i == m {
      BasisAtOne(s[i].x, o, p);
    } else {
      var k := if m < i then m else m - 1;
      assert o[k] == s[m];
      DiffProductHasZero(o, k, p);
      BasisAtNone(s[i].x, o, p);
    }
  }

  /** A point at 0 modulo p has basis 1. */
  lemma BasisAtOne(xi: int, o: seq<Share>, p: int)
    requires p > 1 && xi % p == 0 && ModInverse(DiffProduct(xi, o), p).Some?
    ensures BasisAt(xi, o, p) == Some(1)
  {
    var n, d := DiffProduct(0, o), DiffProduct(xi, o);
    assert d % p == n % p by {
      DiffProductCongruent(xi, 0, o, p);
    }
    InverseOfCongruent(d, n, ModInverse(d, p).value, p);
  }

  /** An inverse of d is an inverse of every residue congruent to d. */
  lemma InverseOfCongruent(d: int, n: int, w: int, p: int)
    requires p > 1 && (d * w) % p == 1 % p && d % p == n % p
    ensures (n * w) % p == 1
  {
    ModMulLeft(d, w, p);
    ModMulLeft(n, w, p);
  }

  /** A point whose numerator prod (-x_j) is 0 modulo p has basis 0. */
  lemma BasisAtNone(xi: int, o: seq<Share>, p: int)
    requires p > 0 && DiffProduct(0, o) % p == 0 && ModInverse(DiffProduct(xi, o), p).Some?
    ensures BasisAt(xi, o, p) == Some(0)
  {
    ModMulLeft(DiffProduct(0, o), ModInverse(DiffProduct(xi, o), p).value, p);
  }

  /** The numerator prod (-x_j) is 0 modulo p when one of the x_j is. */
  lemma DiffProductHasZero(o: seq<Share>, k: nat, p: int)
    requires p > 0 && k < |o| && o[k].x % p == 0
    ensures DiffProduct(0, o) % p == 0
  {
    var a, f := DiffProduct(0, Others(o, k)), 0 - o[k].x;
    assert DiffProduct(0, o) == a * f by {
      DiffProductRemove(0, o, k);
    }
    assert f % p == 0 by {
      DifferenceModZero(0, o[k].x, p);
    }
    ModMulZero(a, f, p);
  }


  /** With share m at 0 modulo p the interpolation sum is y_m. */
  lemma {:induction false} TermSumAtZero(s: seq<Share>, p: int, m: nat, n: nat)
    requires IsPrime(p) && DistinctModulo(s, p) && m < |s| && n <= |s| && s[m].x % p == 0
    ensures TermSum(s, p, n) == if m < n then s[m].y else 0
  {
    if n > 0 {
      TermSumAtZero(s, p, m, n - 1);
      assert BasisValue(s, p, s[n - 1]) == if n - 1 == m then 1 else 0 by {
        BasisValueAt(s, p, n - 1);
        BasisAtZero(s, p, m, n - 1);
      }
    }
  }

  /** A share at a point that is 0 modulo p carries the secret itself, and the interpolation
      returns it. */
  lemma ShareAtZero(s: seq<Share>, c: seq<int>, p: int, m: nat)
    requires IsPrime(p) && DistinctModulo(s, p) && m < |s| && s[m].x % p == 0
    requires s[m].y % p == Eval(c, s[m].x) % p
    ensures Interpolate(s, p) == Ok(Eval(c, 0) % p)
  {
    InterpolateOkIffDistinct(s, p);
    AccumulateValue(s, p, |s|);
    TermSumAtZero(s, p, m, |s|);
    EvalCongruent(c, s[m].x, 0, p);
  }
}
