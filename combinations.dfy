/** The backtracking enumeration of `ShamirSecretReconstruction.generateCombinations`: every
    k-element selection of the shares, taken at strictly increasing positions, appended to a
    result list while a scratch list holds the current partial selection. */
module Combinations {
  import opened Lagrange

  // ---------------------------------------------------------------------------------
  // Index lists

  /** Positions strictly increasing from left to right. */
  predicate Increasing(ix: seq<nat>)
  {
    forall a, b :: 0 <= a < b < |ix| ==> ix[a] < ix[b]
  }

  /** Every position lies in [lo, hi). */
  predicate InRange(ix: seq<nat>, lo: nat, hi: nat)
  {
    forall a :: 0 <= a < |ix| ==> lo <= ix[a] < hi
  }

  /** All positions of every list in `cs` are below `n`. */
  predicate Below(cs: seq<seq<nat>>, n: nat)
  {
    forall c :: c in cs ==> InRange(c, 0, n)
  }

  /** Every list of `cs` with position j put in front. */
  function Prefix(j: nat, cs: seq<seq<nat>>): seq<seq<nat>>
  {
    seq(|cs|, t requires 0 <= t < |cs| => [j] + cs[t])
  }

  /** The index lists of the r-element selections from positions start..n-1, in the order in
      which the backtracking reaches them: first those that take `start`, then the others.
      When r is negative (the scratch list is already longer than k) nothing is produced. */
  function Combos(n: nat, r: int, start: nat): (cs: seq<seq<nat>>)
    requires start <= n
    ensures Below(cs, n)
    decreases n - start
  {
    if r == 0 then [[]]
    else if r < 0 || start == n then []
    else
      var taken, skipped := Combos(n, r - 1, start + 1), Combos(n, r, start + 1);
      PrefixBelow(start, taken, n);
      AppendBelow(Prefix(start, taken), skipped, n);
      Prefix(start, taken) + skipped
  }

  lemma PrefixBelow(j: nat, cs: seq<seq<nat>>, n: nat)
    requires j < n && Below(cs, n)
    ensures Below(Prefix(j, cs), n)
  {
    forall c | c in Prefix(j, cs) ensures InRange(c, 0, n) {
      var t :| 0 <= t < |cs| && Prefix(j, cs)[t] == c;
      assert cs[t] in cs;
    }
  }

  lemma AppendBelow(a: seq<seq<nat>>, b: seq<seq<nat>>, n: nat)
    requires Below(a, n) && Below(b, n)
    ensures Below(a + b, n)
  {
    assert forall c :: c in a + b ==> c in a || c in b;
  }

  /** Every list produced is a strictly increasing list of r positions from start..n-1. */
  lemma {:induction false} CombosShape(n: nat, r: int, start: nat, c: seq<nat>)
    requires start <= n && c in Combos(n, r, start)
    ensures |c| == r && Increasing(c) && InRange(c, start, n)
    decreases n - start, 1
  {
    if r == 0 {
      assert c == [];
    } else {
      CombosCases(n, r, start, c);
      if c in Combos(n, r, start + 1) {
        CombosShape(n, r, start + 1, c);
        Widen(c, start, n);
      } else {
        ShapeTaken(n, r, start, c);
      }
    }
  }

  lemma CombosCases(n: nat, r: int, start: nat, c: seq<nat>)
    requires r != 0 && start <= n && c in Combos(n, r, start)
    ensures c in Prefix(start, Combos(n, r - 1, start + 1)) || c in Combos(n, r, start + 1)
  {
  }

  lemma {:induction false} ShapeTaken(n: nat, r: int, start: nat, c: seq<nat>)
    requires start < n && r > 0 && c in Prefix(start, Combos(n, r - 1, start + 1))
    ensures |c| == r && Increasing(c) && InRange(c, start, n)
    decreases n - start, 0
  {
    var taken := Combos(n, r - 1, start + 1);
    var t :| 0 <= t < |taken| && Prefix(start, taken)[t] == c;
    CombosShape(n, r - 1, start + 1, taken[t]);
    Cons(start, taken[t], n);
  }

  lemma Cons(j: nat, d: seq<nat>, n: nat)
    requires Increasing(d) && InRange(d, j + 1, n) && j < n
    ensures Increasing([j] + d) && InRange([j] + d, j, n)
  {
    var c := [j] + d;
    assert forall a :: 0 < a < |c| ==> c[a] == d[a - 1];
  }

  lemma Widen(c: seq<nat>, start: nat, n: nat)
    requires InRange(c, start + 1, n)
    ensures InRange(c, start, n)
  {
  }

  /** Every r-element selection of positions from start..n-1 is produced. */
  lemma {:induction false} CombosComplete(n: nat, r: int, start: nat, c: seq<nat>)
    requires start <= n && |c| == r && Increasing(c) && InRange(c, start, n)
    ensures c in Combos(n, r, start)
    decreases n - start
  {
    if r > 0 {
      assert start <= c[0] < n;
      var taken := Combos(n, r - 1, start + 1);
      if c[0] == start {
        var d := c[1..];
        assert Increasing(d) && InRange(d, start + 1, n) by {
          forall a | 0 <= a < |d| ensures start + 1 <= d[a] < n {
            assert d[a] == c[a + 1] && c[0] < c[a + 1];
          }
        }
        CombosComplete(n, r - 1, start + 1, d);
        var t :| 0 <= t < |taken| && taken[t] == d;
        assert Prefix(start, taken)[t] == c;
      } else {
        assert InRange(c, start + 1, n) by {
          forall a | 0 <= a < |c| ensures start + 1 <= c[a] < n {
            assert c[0] <= c[a];
          }
        }
        CombosComplete(n, r, start + 1, c);
      }
    }
  }

  /** No selection is produced twice. */
  lemma {:induction false} CombosDistinct(n: nat, r: int, start: nat)
    requires start <= n
    ensures forall a, b :: 0 <= a < b < |Combos(n, r, start)| ==> Combos(n, r, start)[a] != Combos(n, r, start)[b]
    decreases n - start
  {
    if r > 0 && start < n {
      var taken, skipped := Combos(n, r - 1, start + 1), Combos(n, r, start + 1);
      var front := Prefix(start, taken);
      var cs := front + skipped;
      CombosDistinct(n, r - 1, start + 1);
      CombosDistinct(n, r, start + 1);
      forall a, b | 0 <= a < b < |cs| ensures cs[a] != cs[b] {
        if b < |front| {
          assert cs[a][1..] == taken[a] && cs[b][1..] == taken[b];
        } else if a < |front| {
          assert cs[b] == skipped[b - |front|];
          CombosShape(n, r, start + 1, cs[b]);
          assert cs[a][0] == start < cs[b][0];
        } else {
          assert cs[a] == skipped[a - |front|] && cs[b] == skipped[b - |front|];
        }
      }
    }
  }

  /** The binomial coefficient by Pascal's rule; zero for r < 0 and for r > m. */
  function Binomial(m: nat, r: int): nat
  {
    if r == 0 then 1
    else if r < 0 || m == 0 then 0
    else Binomial(m - 1, r - 1) + Binomial(m - 1, r)
  }

  /** Exactly C(n - start, r) selections are produced. */
  lemma {:induction false} CombosCount(n: nat, r: int, start: nat)
    requires start <= n
    ensures |Combos(n, r, start)| == Binomial(n - start, r)
    decreases n - start
  {
    if r != 0 && r > 0 && start < n {
      CombosCount(n, r - 1, start + 1);
      CombosCount(n, r, start + 1);
    }
  }

  /** There is no way to choose more elements than there are. */
  lemma {:induction false} BinomialTooMany(m: nat, r: int)
    requires r > m
    ensures Binomial(m, r) == 0
  {
    if m > 0 {
      BinomialTooMany(m - 1, r - 1);
      BinomialTooMany(m - 1, r);
    }
  }

  function Factorial(m: nat): (f: nat)
    ensures f >= 1
  {
    if m == 0 then 1 else m * Factorial(m - 1)
  }

  /** Pascal's rule gives the closed form m! / (r! (m - r)!). */
  lemma {:induction false} BinomialFactorial(m: nat, r: nat)
    requires r <= m
    ensures Binomial(m, r) * (Factorial(r) * Factorial(m - r)) == Factorial(m)
  {
    if r == 0 {
    } else if r == m {
      BinomialTooMany(m - 1, r);
      BinomialFactorial(m - 1, r - 1);
      assert m - 1 - (r - 1) == 0;
    } else {
      BinomialFactorial(m - 1, r - 1);
      BinomialFactorial(m - 1, r);
      PascalStep(m, r, Binomial(m - 1, r - 1), Binomial(m - 1, r),
        Factorial(r - 1), Factorial(m - r - 1), Factorial(m - 1));
    }
  }

  /** The arithmetic of one Pascal step: with a = C(m-1, r-1), b = C(m-1, r),
      (a + b) r! (m-r)! == m (m-1)!. */
  lemma PascalStep(m: nat, r: nat, a: nat, b: nat, f1: nat, f2: nat, g: nat)
    requires 0 < r < m
    requires a * (f1 * (f2 * (m - r))) == g
    requires b * ((r * f1) * f2) == g
    ensures (a + b) * ((r * f1) * ((m - r) * f2)) == m * g
  {
    var x, d := f1 * f2, m - r;
    calc {
      (a + b) * ((r * f1) * (d * f2));
      { Regroup(r, f1, d, f2); }
      (a + b) * (x * (r * d));
      { Distribute(a, b, x, r, d); }
      (a * (x * d)) * r + (b * (x * r)) * d;
      { assert a * (x * d) == g; assert b * (x * r) == g; }
      g * r + g * d;
    }
  }

  lemma Regroup(r: int, f1: int, d: int, f2: int)
    ensures (r * f1) * (d * f2) == (f1 * f2) * (r * d)
  {
  }

  lemma Distribute(a: int, b: int, x: int, r: int, d: int)
    ensures (a + b) * (x * (r * d)) == (a * (x * d)) * r + (b * (x * r)) * d
  {
  }

  /** The positions start..n-1 in order. */
  function Range(start: nat, n: nat): (ix: seq<nat>)
    requires start <= n
  {
    seq(n - start, a requires 0 <= a < n - start => start + a)
  }

  /** Choosing all of start..n-1 can be done one way only. */
  lemma {:induction false} CombosAll(n: nat, start: nat)
    requires start <= n
    ensures Combos(n, n - start, start) == [Range(start, n)]
    decreases n - start
  {
    if start < n {
      var rest := Range(start + 1, n);
      CombosAll(n, start + 1);
      assert Combos(n, n - start - 1, start + 1) == [rest];
      CombosCount(n, n - start, start + 1);
      BinomialTooMany(n - start - 1, n - start);
      assert Combos(n, n - start, start + 1) == [];
      assert Prefix(start, [rest]) == [[start] + rest];
      assert [start] + rest == Range(start, n);
      assert Combos(n, n - start, start) == Prefix(start, [rest]) + [];
      assert Prefix(start, [rest]) + [] == [Range(start, n)];
    } else {
      assert Range(start, n) == [];
    }
  }

  // ---------------------------------------------------------------------------------
  // Share lists

  /** The shares at the positions of ix. */
  function Pick(shares: seq<Share>, ix: seq<nat>): (r: seq<Share>)
    requires InRange(ix, 0, |shares|)
  {
    seq(|ix|, a requires 0 <= a < |ix| => shares[ix[a]])
  }

  /** The lists appended to `result`: the scratch list followed by the shares of each selection. */
  function Extend(temp: seq<Share>, shares: seq<Share>, cs: seq<seq<nat>>): (r: seq<seq<Share>>)
    requires Below(cs, |shares|)
  {
    seq(|cs|, t requires 0 <= t < |cs| => assert cs[t] in cs; temp + Pick(shares, cs[t]))
  }

  lemma ExtendAppend(temp: seq<Share>, shares: seq<Share>, a: seq<seq<nat>>, b: seq<seq<nat>>)
    requires Below(a, |shares|) && Below(b, |shares|)
    ensures Below(a + b, |shares|)
    ensures Extend(temp, shares, a + b) == Extend(temp, shares, a) + Extend(temp, shares, b)
  {
    assert forall c :: c in a + b ==> c in a || c in b;
    var l, r := Extend(temp, shares, a + b), Extend(temp, shares, a) + Extend(temp, shares, b);
    forall t | 0 <= t < |l| ensures l[t] == r[t] {
      if t < |a| {
        assert (a + b)[t] == a[t];
      } else {
        assert (a + b)[t] == b[t - |a|];
      }
    }
  }

  /** Choosing position j first is the same as extending the scratch list by share j. */
  lemma ExtendPrefix(temp: seq<Share>, shares: seq<Share>, j: nat, cs: seq<seq<nat>>)
    requires j < |shares| && Below(cs, |shares|)
    ensures Below(Prefix(j, cs), |shares|)
    ensures Extend(temp + [shares[j]], shares, cs) == Extend(temp, shares, Prefix(j, cs))
  {
    var pcs := Prefix(j, cs);
    forall c | c in pcs ensures InRange(c, 0, |shares|) {
      var t :| 0 <= t < |pcs| && pcs[t] == c;
      assert cs[t] in cs;
    }
    var l, r := Extend(temp + [shares[j]], shares, cs), Extend(temp, shares, pcs);
    forall t | 0 <= t < |l| ensures l[t] == r[t] {
      assert cs[t] in cs && pcs[t] in pcs;
      assert Pick(shares, pcs[t]) == [shares[j]] + Pick(shares, cs[t]);
    }
  }

  // ---------------------------------------------------------------------------------
  // The loop of the source

  /** What the loop over i = start, start+1, ... has produced before reaching index i. */
  function Leading(n: nat, r: int, start: nat, i: nat): (cs: seq<seq<nat>>)
    requires start <= i <= n
    ensures Below(cs, n)
    decreases i - start
  {
    if i == start then []
    else
      var earlier, taken := Leading(n, r, start, i - 1), Combos(n, r - 1, i);
      assert Below(Prefix(i - 1, taken), n) by {
        forall c | c in Prefix(i - 1, taken) ensures InRange(c, 0, n) {
          assert c[1..] in taken;
        }
      }
      assert forall c :: c in earlier + Prefix(i - 1, taken) ==> c in earlier || c in Prefix(i - 1, taken);
      earlier + Prefix(i - 1, taken)
  }

  /** The selections from `start` on are those the loop has produced before i, followed by
      the selections from i on. */
  lemma {:induction false} LeadingSplit(n: nat, r: int, start: nat, i: nat)
    requires r != 0 && start <= i <= n
    ensures Combos(n, r, start) == Leading(n, r, start, i) + Combos(n, r, i)
    decreases i - start
  {
    if i > start {
      LeadingSplit(n, r, start, i - 1);
      if r < 0 {
        assert Combos(n, r - 1, i) == [];
      }
    }
  }

  /** The scratch list `temp` and the output list `result` of generateCombinations, held as
      fields that the recursion updates in place. */
  class Backtracker {
    var temp: seq<Share>
    var result: seq<seq<Share>>

    constructor ()
      ensures temp == [] && result == []
    {
      temp := [];
      result := [];
    }

    /** `generateCombinations(shares, k, start, temp, result)`: appends every completion of
        the scratch list to k shares by shares at positions >= start, in backtracking order,
        and leaves the scratch list as it found it. */
    method Generate(shares: seq<Share>, k: int, start: nat)
      requires start <= |shares|
      modifies this
      ensures temp == old(temp)
      ensures result == old(result) + Extend(old(temp), shares, Combos(|shares|, k - |old(temp)|, start))
      decreases |shares| - start
    {
      if |temp| == k {
        assert Extend(temp, shares, Combos(|shares|, 0, start)) == [temp] by {
          assert Combos(|shares|, 0, start) == [[]];
          var e := Extend(temp, shares, [[]]);
          assert |e| == 1 && e[0] == temp + Pick(shares, []);
          assert Pick(shares, []) == [] && temp + [] == temp;
        }
        result := result + [temp];
        return;
      }
      var n := |shares|;
      var r := k - |temp|;
      for i := start to n
        invariant temp == old(temp)
        invariant result == old(result) + Extend(temp, shares, Leading(n, r, start, i))
      {
        ghost var before := result;
        temp := temp + [shares[i]];
        Generate(shares, k, i + 1);
        temp := temp[..|temp| - 1];
        LoopStep(old(result), before, result, temp, shares, r, start, i);
      }
      LeadingSplit(n, r, start, n);
    }
  }

  /** One round of the loop of generateCombinations: the completions by share i join those
      by the shares before it. */
  lemma LoopStep(initial: seq<seq<Share>>, before: seq<seq<Share>>, after: seq<seq<Share>>,
                 temp: seq<Share>, shares: seq<Share>, r: int, start: nat, i: nat)
    requires start <= i < |shares|
    requires before == initial + Extend(temp, shares, Leading(|shares|, r, start, i))
    requires after == before + Extend(temp + [shares[i]], shares, Combos(|shares|, r - 1, i + 1))
    ensures after == initial + Extend(temp, shares, Leading(|shares|, r, start, i + 1))
  {
    var taken := Combos(|shares|, r - 1, i + 1);
    ExtendPrefix(temp, shares, i, taken);
    ExtendAppend(temp, shares, Leading(|shares|, r, start, i), Prefix(i, taken));
  }

  /** The combinations `main` collects: from an empty scratch list and position 0. */
  function Generated(shares: seq<Share>, k: int): seq<seq<Share>>
  {
    Extend([], shares, Combos(|shares|, k, 0))
  }

  /** There are C(n, k) combinations, each of k shares taken at strictly increasing
      positions, and no two taken at the same positions. */
  lemma GeneratedShape(shares: seq<Share>, k: int)
    ensures |Generated(shares, k)| == Binomial(|shares|, k)
    ensures forall t :: 0 <= t < |Generated(shares, k)| ==>
      var ix := Combos(|shares|, k, 0)[t];
      |ix| == k && Increasing(ix) && Generated(shares, k)[t] == Pick(shares, ix)
    ensures forall a, b :: 0 <= a < b < |Generated(shares, k)| ==> Combos(|shares|, k, 0)[a] != Combos(|shares|, k, 0)[b]
  {
    var cs := Combos(|shares|, k, 0);
    CombosCount(|shares|, k, 0);
    forall t | 0 <= t < |cs| ensures |cs[t]| == k && Increasing(cs[t]) {
      CombosShape(|shares|, k, 0, cs[t]);
    }
    CombosDistinct(|shares|, k, 0);
  }

  /** Every selection of k positions shows up among the combinations. */
  lemma GeneratedComplete(shares: seq<Share>, k: int, ix: seq<nat>)
    requires |ix| == k && Increasing(ix) && InRange(ix, 0, |shares|)
    ensures Pick(shares, ix) in Generated(shares, k)
  {
    CombosComplete(|shares|, k, 0, ix);
    var cs := Combos(|shares|, k, 0);
    var t :| 0 <= t < |cs| && cs[t] == ix;
    assert Generated(shares, k)[t] == Pick(shares, ix);
  }

  /** With k larger than the number of shares (or negative) there is no combination. */
  lemma GeneratedNone(shares: seq<Share>, k: int)
    requires k > |shares| || k < 0
    ensures Generated(shares, k) == []
  {
    CombosCount(|shares|, k, 0);
    if k > |shares| {
      BinomialTooMany(|shares|, k);
    }
  }

  /** With k equal to the number of shares the only combination is all of them, in order. */
  lemma GeneratedAll(shares: seq<Share>)
    ensures Generated(shares, |shares|) == [shares]
  {
    CombosAll(|shares|, 0);
    var all := Range(0, |shares|);
    assert Pick(shares, all) == shares;
    var g := Generated(shares, |shares|);
    assert |g| == 1 && g[0] == [] + Pick(shares, all);
    assert [] + shares == shares;
  }

  /** The call `generateCombinations(allShares, k, 0, new ArrayList<>(), combinations)`. */
  method GenerateCombinations(shares: seq<Share>, k: int) returns (combos: seq<seq<Share>>)
    ensures combos == Generated(shares, k)
  {
    var b := new Backtracker();
    b.Generate(shares, k, 0);
    combos := b.result;
  }
}
