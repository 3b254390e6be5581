/** What `lagrangeInterpolation` promises: a single share gives back its y, a prime modulus
    fails exactly on a repeated x, and the order of the shares does not matter. */
module LagrangeFacts {
  import opened Wrappers
  import opened ModArith
  import opened Lagrange

  /** No two shares have the same x modulo p. */
  predicate DistinctModulo(s: seq<Share>, p: int)
    requires p > 0
  {
    forall i, j :: 0 <= i < j < |s| ==> s[i].x % p != s[j].x % p
  }

  // ---------------------------------------------------------------------------------
  // One share

  /** With exactly one share both products are empty (1), so the result is y mod p. */
  lemma SingleShare(sh: Share, p: int)
    ensures Interpolate([sh], p) == if p > 0 then Ok(sh.y % p) else Err(ModulusNotPositive)
  {
    if p > 0 {
      var s := [sh];
      assert Basis(s, p, 0) == Some(1 % p) by {
        assert Others(s, 0) == [];
        InverseOfOne(p);
        ModIdempotent(1, p);
      }
      assert Accumulate(s, p, 1) == Ok((0 + sh.y * (1 % p)) % p);
      ModMulRight(sh.y, 1, p);
    }
  }

  lemma InverseOfOne(p: int)
    requires p > 0
    ensures ModInverse(1, p) == Some(1 % p)
  {
    var r := ModInverse(1, p);
    assert r.Some? by {
      assert MulMod(1, 1, p) == 1 % p;
    }
    var inv := r.value;
    assert MulMod(1, inv, p) == inv by {
      assert 1 * inv == inv;
      ModUnique(inv, 0, inv, p);
    }
  }

  // ---------------------------------------------------------------------------------
  // Failure exactly on a repeated x (modulo a prime)

  /** The accumulation succeeds exactly when every basis among the first n has an inverse. */
  lemma {:induction false} AccumulateOk(s: seq<Share>, p: int, n: nat)
    requires p > 0 && n <= |s|
    ensures Accumulate(s, p, n).Ok? <==> forall i :: 0 <= i < n ==> Basis(s, p, i).Some?
  {
    if n > 0 {
      AccumulateOk(s, p, n - 1);
    }
  }

  /** A difference is 0 modulo p exactly when the two residues agree. */
  lemma DifferenceModZero(z: int, x: int, p: int)
    requires p > 0
    ensures (z - x) % p == 0 <==> z % p == x % p
  {
    ModSub(z, x, p);
    var d := z % p - x % p;
    if d >= 0 {
      ModUnique(d, 0, d, p);
    } else {
      ModUnique(d, -1, d + p, p);
    }
  }

  /** Modulo a prime, prod (z - o.x) is non-zero exactly when no o.x agrees with z. */
  lemma {:induction false} DiffProductNonZero(z: int, rest: seq<Share>, p: int)
    requires IsPrime(p)
    ensures DiffProduct(z, rest) % p != 0 <==> forall k :: 0 <= k < |rest| ==> z % p != rest[k].x % p
  {
    if rest != [] {
      var front, last := rest[..|rest| - 1], rest[|rest| - 1];
      DiffProductNonZero(z, front, p);
      DifferenceModZero(z, last.x, p);
      var a, b := DiffProduct(z, front), z - last.x;
      assert DiffProduct(z, rest) == a * b;
      ProductModZero(a, b, p);
      assert forall k :: 0 <= k < |front| ==> front[k] == rest[k];
    }
  }

  /** Modulo a prime, share i has a basis exactly when no other share shares its x. */
  lemma BasisSomeIff(s: seq<Share>, p: int, i: nat)
    requires IsPrime(p) && i < |s|
    ensures Basis(s, p, i).Some? <==> forall j :: 0 <= j < |s| && j != i ==> s[i].x % p != s[j].x % p
  {
    var rest := Others(s, i);
    InvertibleModPrime(DiffProduct(s[i].x, rest), p);
    DiffProductNonZero(s[i].x, rest, p);
    forall j | 0 <= j < |s| && j != i
      ensures s[j] == rest[if j < i then j else j - 1]
    {
    }
    forall k | 0 <= k < |rest|
      ensures rest[k] == s[if k < i then k else k + 1]
    {
    }
  }

  /** Modulo a prime, interpolation fails exactly when two shares have the same x modulo p
      (the zero denominator of `modInverse`). */
  lemma InterpolateOkIffDistinct(s: seq<Share>, p: int)
    requires IsPrime(p)
    ensures Interpolate(s, p).Ok? <==> DistinctModulo(s, p)
  {
    if s != [] {
      AccumulateOk(s, p, |s|);
      forall i | 0 <= i < |s| ensures Basis(s, p, i).Some? <==> forall j :: 0 <= j < |s| && j != i ==> s[i].x % p != s[j].x % p {
        BasisSomeIff(s, p, i);
      }
      if DistinctModulo(s, p) {
        forall i, j | 0 <= i < |s| && 0 <= j < |s| && j != i ensures s[i].x % p != s[j].x % p {
          if i > j {
            assert s[j].x % p != s[i].x % p;
          }
        }
      }
    }
  }

  // ---------------------------------------------------------------------------------
  // Order independence

  lemma OthersMultiset(s: seq<Share>, i: nat)
    requires i < |s|
    ensures multiset(Others(s, i)) == multiset(s) - multiset{s[i]}
  {
    assert s == s[..i] + [s[i]] + s[i + 1..];
  }

  /** Taking one factor out of the product. */
  lemma {:induction false} DiffProductRemove(z: int, b: seq<Share>, j: nat)
    requires j < |b|
    ensures DiffProduct(z, b) == DiffProduct(z, Others(b, j)) * (z - b[j].x)
  {
    var front, last := b[..|b| - 1], b[|b| - 1];
    if j < |b| - 1 {
      var rest := Others(front, j);
      DiffProductRemove(z, front, j);
      assert Others(b, j) == rest + [last];
      assert (rest + [last])[..|rest|] == rest;
      var c, f, g := DiffProduct(z, rest), z - b[j].x, z - last.x;
      assert DiffProduct(z, b) == DiffProduct(z, front) * g;
      assert DiffProduct(z, front) == c * f;
      assert DiffProduct(z, Others(b, j)) == c * g;
      MulRotate(c, f, g);
    } else {
      assert Others(b, j) == front;
    }
  }

  lemma MulRotate(c: int, f: int, g: int)
    ensures (c * f) * g == (c * g) * f
  {
  }

  /** The last share of a sits at some position j of any permutation b of a, and the rest of
      a is a permutation of b without position j. */
  lemma MatchLast(a: seq<Share>, b: seq<Share>) returns (j: nat)
    requires multiset(a) == multiset(b) && a != []
    ensures j < |b| && b[j] == a[|a| - 1]
    ensures multiset(a[..|a| - 1]) == multiset(Others(b, j))
  {
    var front, last := a[..|a| - 1], a[|a| - 1];
    assert a == front + [last];
    assert last in multiset(b);
    j :| 0 <= j < |b| && b[j] == last;
    OthersMultiset(b, j);
    assert multiset(a) == multiset(front) + multiset{last};
  }

  /** The product does not depend on the order of the shares. */
  lemma {:induction false} DiffProductPermutation(z: int, a: seq<Share>, b: seq<Share>)
    requires multiset(a) == multiset(b)
    ensures DiffProduct(z, a) == DiffProduct(z, b)
    decreases |a|
  {
    assert |a| == |multiset(a)| == |b|;
    if a != [] {
      var j := MatchLast(a, b);
      DiffProductPermutation(z, a[..|a| - 1], Others(b, j));
      DiffProductRemove(z, b, j);
    }
  }

  /** The basis of a share depends only on the share and the multiset of all shares. */
  lemma BasisPermutation(s: seq<Share>, t: seq<Share>, p: int, i: nat, j: nat)
    requires p > 0 && multiset(s) == multiset(t) && i < |s| && j < |t| && s[i] == t[j]
    ensures Basis(s, p, i) == Basis(t, p, j)
  {
    OthersMultiset(s, i);
    OthersMultiset(t, j);
    DiffProductPermutation(0, Others(s, i), Others(t, j));
    DiffProductPermutation(s[i].x, Others(s, i), Others(t, j));
  }

  /** The sum of f over the shares, from the end. */
  ghost function SumMap(f: Share -> int, s: seq<Share>): int
  {
    if s == [] then 0 else SumMap(f, s[..|s| - 1]) + f(s[|s| - 1])
  }

  lemma {:induction false} SumMapRemove(f: Share -> int, b: seq<Share>, j: nat)
    requires j < |b|
    ensures SumMap(f, b) == SumMap(f, Others(b, j)) + f(b[j])
  {
    var front, last := b[..|b| - 1], b[|b| - 1];
    if j < |b| - 1 {
      SumMapRemove(f, front, j);
      assert Others(b, j) == Others(front, j) + [last];
      assert (Others(front, j) + [last])[..|b| - 2] == Others(front, j);
    } else {
      assert Others(b, j) == front;
    }
  }

  lemma {:induction false} SumMapPermutation(f: Share -> int, a: seq<Share>, b: seq<Share>)
    requires multiset(a) == multiset(b)
    ensures SumMap(f, a) == SumMap(f, b)
    decreases |a|
  {
    assert |a| == |multiset(a)| == |b|;
    if a != [] {
      var j := MatchLast(a, b);
      SumMapPermutation(f, a[..|a| - 1], Others(b, j));
      SumMapRemove(f, b, j);
    }
  }

  lemma {:induction false} SumMapAgree(f: Share -> int, g: Share -> int, s: seq<Share>)
    requires forall k :: 0 <= k < |s| ==> f(s[k]) == g(s[k])
    ensures SumMap(f, s) == SumMap(g, s)
  {
    if s != [] {
      SumMapAgree(f, g, s[..|s| - 1]);
    }
  }

  /** The value of the basis of share e inside s (0 if e is not in s or has no basis). */
  ghost function BasisValue(s: seq<Share>, p: int, e: Share): int
    requires p > 0
  {
    if e in s then
      var i :| 0 <= i < |s| && s[i] == e;
      match Basis(s, p, i)
      case Some(l) => l
      case None => 0
    else 0
  }

  /** The integer sum of the first n terms y_i * basis_i, without the reductions. */
  ghost function TermSum(s: seq<Share>, p: int, n: nat): int
    requires p > 0 && n <= |s|
  {
    if n == 0 then 0 else TermSum(s, p, n - 1) + s[n - 1].y * BasisValue(s, p, s[n - 1])
  }

  /** BasisValue picks the basis of any position holding the share. */
  lemma BasisValueAt(s: seq<Share>, p: int, i: nat)
    requires p > 0 && i < |s|
    ensures BasisValue(s, p, s[i]) == match Basis(s, p, i) case Some(l) => l case None => 0
  {
    var e := s[i];
    var k :| 0 <= k < |s| && s[k] == e && BasisValue(s, p, e) == match Basis(s, p, k) case Some(l) => l case None => 0;
    BasisPermutation(s, s, p, k, i);
  }

  /** When it succeeds, the accumulation is the term sum reduced once. */
  lemma {:induction false} AccumulateValue(s: seq<Share>, p: int, n: nat)
    requires p > 0 && n <= |s| && Accumulate(s, p, n).Ok?
    ensures Accumulate(s, p, n).value == TermSum(s, p, n) % p
  {
    if n > 0 {
      var acc, l := Accumulate(s, p, n - 1), Basis(s, p, n - 1);
      assert acc.Ok? && l.Some? && Accumulate(s, p, n).value == (acc.value + s[n - 1].y * l.value) % p;
      assert acc.value == TermSum(s, p, n - 1) % p by {
        AccumulateValue(s, p, n - 1);
      }
      assert BasisValue(s, p, s[n - 1]) == l.value by {
        BasisValueAt(s, p, n - 1);
      }
      ModAddLeft(TermSum(s, p, n - 1), s[n - 1].y * l.value, p);
    }
  }

  lemma {:induction false} TermSumIsSumMap(s: seq<Share>, p: int, n: nat)
    requires p > 0 && n <= |s|
    ensures TermSum(s, p, n) == SumMap((e: Share) => e.y * BasisValue(s, p, e), s[..n])
  {
    if n > 0 {
      TermSumIsSumMap(s, p, n - 1);
      assert s[..n][..n - 1] == s[..n - 1];
    }
  }

  /** Every share has a basis in s exactly when every share has one in t. */
  lemma AllBasesPermutation(s: seq<Share>, t: seq<Share>, p: int)
    requires p > 0 && multiset(s) == multiset(t)
    ensures (forall i :: 0 <= i < |s| ==> Basis(s, p, i).Some?) <==> (forall j :: 0 <= j < |t| ==> Basis(t, p, j).Some?)
  {
    forall i | 0 <= i < |s| ensures exists j :: 0 <= j < |t| && Basis(s, p, i) == Basis(t, p, j) {
      assert s[i] in multiset(t);
      var j :| 0 <= j < |t| && t[j] == s[i];
      BasisPermutation(s, t, p, i, j);
    }
    forall j | 0 <= j < |t| ensures exists i :: 0 <= i < |s| && Basis(s, p, i) == Basis(t, p, j) {
      assert t[j] in multiset(s);
      var i :| 0 <= i < |s| && s[i] == t[j];
      BasisPermutation(s, t, p, i, j);
    }
  }

  /** The unreduced sum of the terms does not depend on the order of the shares. */
  lemma TermSumPermutation(s: seq<Share>, t: seq<Share>, p: int)
    requires p > 0 && multiset(s) == multiset(t) && |s| == |t|
    ensures TermSum(s, p, |s|) == TermSum(t, p, |t|)
  {
    var fs := (e: Share) => e.y * BasisValue(s, p, e);
    var ft := (e: Share) => e.y * BasisValue(t, p, e);
    TermSumIsSumMap(s, p, |s|);
    TermSumIsSumMap(t, p, |t|);
    assert s[..|s|] == s && t[..|t|] == t;
    SumMapPermutation(fs, s, t);
    forall k | 0 <= k < |t| ensures fs(t[k]) == ft(t[k]) {
      assert t[k] in multiset(s);
      var i :| 0 <= i < |s| && s[i] == t[k];
      BasisValueAt(s, p, i);
      BasisValueAt(t, p, k);
      BasisPermutation(s, t, p, i, k);
    }
    SumMapAgree(fs, ft, t);
  }

  /** Interpolation does not depend on the order of the shares. */
  lemma InterpolatePermutation(s: seq<Share>, t: seq<Share>, p: int)
    requires multiset(s) == multiset(t)
    ensures Interpolate(s, p) == Interpolate(t, p)
  {
    assert |s| == |multiset(s)| == |t|;
    if s != [] && p > 0 {
      AccumulateOk(s, p, |s|);
      AccumulateOk(t, p, |t|);
      AllBasesPermutation(s, t, p);
      if Accumulate(s, p, |s|).Ok? {
        AccumulateValue(s, p, |s|);
        AccumulateValue(t, p, |t|);
        TermSumPermutation(s, t, p);
      }
    }
  }
}
