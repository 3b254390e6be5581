/** The majority vote of `ShamirSecretReconstruction.main`: interpolate every k-combination of
    the shares, tally the secrets they give, take a most frequent one, and sort the shares
    into those of the first combination giving it (valid) and the rest (possibly corrupt). */
module Detection {
  import opened Wrappers
  import opened ModArith
  import opened Lagrange
  import opened LagrangeFacts
  import opened Polynomial
  import opened Reconstruction
  import opened Combinations

  datatype DetectError =
    | Interp(e: InterpolationError)   // an exception out of lagrangeInterpolation
    | NoCombinations                  // no combination: correctSecret stays null and
                                      // secretToCombos.get(null).get(0) throws

  /** What `main` computes: `frequencyMap`, `secretToCombos`, `correctSecret`, the valid share
      set and the possibly corrupt shares in the order they are printed. */
  datatype Detection = Detection(
    frequency: map<int, nat>,
    combosBySecret: map<int, seq<seq<Share>>>,
    secret: int,
    valid: set<Share>,
    corrupt: seq<Share>)

  // ---------------------------------------------------------------------------------
  // Specification

  /** The secrets of the first n combinations, or the first exception. */
  function SecretsUpTo(combos: seq<seq<Share>>, p: int, n: nat): (r: Result<seq<int>, InterpolationError>)
    requires n <= |combos|
    ensures r.Ok? ==> |r.value| == n
  {
    if n == 0 then Ok([])
    else
      match SecretsUpTo(combos, p, n - 1)
      case Err(e) => Err(e)
      case Ok(secs) =>
        match Interpolate(combos[n - 1], p)
        case Err(e) => Err(e)
        case Ok(v) => Ok(secs + [v])
  }

  function Secrets(combos: seq<seq<Share>>, p: int): Result<seq<int>, InterpolationError>
  {
    SecretsUpTo(combos, p, |combos|)
  }

  /** The secrets are the interpolations of the combinations, one for one. */
  lemma {:induction false} SecretsOk(combos: seq<seq<Share>>, p: int, n: nat)
    requires n <= |combos| && SecretsUpTo(combos, p, n).Ok?
    ensures forall j :: 0 <= j < n ==> Interpolate(combos[j], p) == Ok(SecretsUpTo(combos, p, n).value[j])
  {
    if n > 0 {
      SecretsOk(combos, p, n - 1);
    }
  }

  /** An exception is the first one met in the order of the combinations. */
  lemma {:induction false} SecretsErr(combos: seq<seq<Share>>, p: int, n: nat)
    requires n <= |combos| && SecretsUpTo(combos, p, n).Err?
    ensures exists j :: (0 <= j < n && Interpolate(combos[j], p) == Err(SecretsUpTo(combos, p, n).error) &&
                         forall j' :: 0 <= j' < j ==> Interpolate(combos[j'], p).Ok?)
  {
    var r := SecretsUpTo(combos, p, n - 1);
    if r.Err? {
      SecretsErr(combos, p, n - 1);
    } else {
      SecretsOk(combos, p, n - 1);
      assert Interpolate(combos[n - 1], p) == Err(SecretsUpTo(combos, p, n).error);
    }
  }

  /** A failure stays a failure. */
  lemma {:induction false} SecretsErrPersists(combos: seq<seq<Share>>, p: int, n: nat, m: nat)
    requires n <= m <= |combos| && SecretsUpTo(combos, p, n).Err?
    ensures SecretsUpTo(combos, p, m) == SecretsUpTo(combos, p, n)
    decreases m - n
  {
    if n < m {
      SecretsErrPersists(combos, p, n + 1, m);
    }
  }

  /** `frequencyMap`: how often each secret occurs. */
  function Tally(secs: seq<int>): map<int, nat>
  {
    map v | v in secs :: multiset(secs)[v]
  }

  /** `secretToCombos[v]`: the combinations giving v, in the order they were tried. */
  function Group(combos: seq<seq<Share>>, secs: seq<int>, v: int): seq<seq<Share>>
    requires |secs| <= |combos|
  {
    if secs == [] then []
    else
      var n := |secs|;
      Group(combos, secs[..n - 1], v) + (if secs[n - 1] == v then [combos[n - 1]] else [])
  }

  function Groups(combos: seq<seq<Share>>, secs: seq<int>): map<int, seq<seq<Share>>>
    requires |secs| <= |combos|
  {
    map v | v in secs :: Group(combos, secs, v)
  }

  /** The position of the first occurrence of v. */
  function First(secs: seq<int>, v: int): (j: nat)
    requires v in secs
    ensures j < |secs| && secs[j] == v && forall j' :: 0 <= j' < j ==> secs[j'] != v
  {
    if secs[0] == v then 0 else 1 + First(secs[1..], v)
  }

  /** The shares of `allShares` not in the valid set, in order. */
  function Unmatched(shares: seq<Share>, valid: set<Share>): seq<Share>
  {
    if shares == [] then []
    else
      var n := |shares|;
      Unmatched(shares[..n - 1], valid) + (if shares[n - 1] in valid then [] else [shares[n - 1]])
  }

  /** The sum of the values of a map. */
  ghost function MapSum(m: map<int, nat>): nat
    decreases |m.Keys|
  {
    if m.Keys == {} then 0
    else
      Inhabited(m.Keys);
      var k :| k in m.Keys;
      Shrinks(m, k);
      m[k] + MapSum(m - {k})
  }

  /** What a run of `main` that gets past the tally establishes: the tally and groups of the
      secrets, a secret of largest count, the shares of the first combination giving it as
      the valid set, and all other shares as possibly corrupt. */
  ghost predicate IsOutcome(shares: seq<Share>, combos: seq<seq<Share>>, secs: seq<int>, d: Detection)
    requires |secs| == |combos|
  {
    && d.frequency == Tally(secs)
    && d.combosBySecret == Groups(combos, secs)
    && d.secret in secs
    && (forall v :: v in d.frequency ==> d.frequency[v] <= d.frequency[d.secret])
    && d.valid == (set x | x in combos[First(secs, d.secret)])
    && d.corrupt == Unmatched(shares, d.valid)
  }

  // ---------------------------------------------------------------------------------
  // Properties

  /** The tally adds up to the number of combinations. */
  lemma {:induction false} TallySum(secs: seq<int>)
    ensures MapSum(Tally(secs)) == |secs|
  {
    if secs != [] {
      var n := |secs|;
      assert secs == secs[..n - 1] + [secs[n - 1]];
      TallySum(secs[..n - 1]);
      TallyStep(secs[..n - 1], secs[n - 1]);
      MapSumIncrement(Tally(secs[..n - 1]), secs[n - 1]);
    }
  }

  /** One more secret raises its count by one and leaves the others alone. */
  lemma TallyStep(secs: seq<int>, v: int)
    ensures Tally(secs + [v]) == Tally(secs)[v := if v in Tally(secs) then Tally(secs)[v] + 1 else 1]
  {
    var l, r := Tally(secs + [v]), Tally(secs)[v := if v in Tally(secs) then Tally(secs)[v] + 1 else 1];
    assert multiset(secs + [v]) == multiset(secs) + multiset{v};
    assert forall u :: u in secs + [v] <==> u in secs || u == v;
    assert l.Keys == r.Keys;
  }

  /** Counting one more occurrence of a key adds one to the sum. */
  lemma MapSumIncrement(m: map<int, nat>, v: int)
    ensures MapSum(m[v := if v in m then m[v] + 1 else 1]) == MapSum(m) + 1
  {
    var m' := m[v := if v in m then m[v] + 1 else 1];
    MapSumRemove(m', v);
    if v in m {
      MapSumRemove(m, v);
      assert m' - {v} == m - {v};
    } else {
      assert m' - {v} == m;
    }
  }

  lemma TallyPositive(secs: seq<int>)
    ensures forall v :: v in Tally(secs) ==> Tally(secs)[v] > 0
  {
  }

  lemma TallyEmpty(secs: seq<int>)
    ensures Tally(secs).Keys == {} ==> secs == []
  {
    if secs != [] {
      assert secs[0] in Tally(secs);
    }
  }

  lemma Empty(s: set<int>)
    requires forall k :: k !in s
    ensures s == {}
  {
    var e: set<int> := {};
    assert forall k :: k in s <==> k in e;
  }

  lemma Inhabited(s: set<int>)
    requires s != {}
    ensures exists k :: k in s
  {
    if forall k :: k !in s {
      Empty(s);
    }
  }

  /** Removing one key of the sum. */
  lemma {:induction false} MapSumRemove(m: map<int, nat>, k: int)
    requires k in m
    ensures MapSum(m) == m[k] + MapSum(m - {k})
    decreases |m.Keys|, 1
  {
    var k' :| k' in m && MapSum(m) == m[k'] + MapSum(m - {k'});
    if k' != k {
      MapSumSwap(m, k, k');
    }
  }

  /** Removing two keys in either order, on the sum. */
  lemma {:induction false} MapSumSwap(m: map<int, nat>, k: int, k': int)
    requires k in m && k' in m && k != k'
    ensures m[k'] + MapSum(m - {k'}) == m[k] + MapSum(m - {k})
    decreases |m.Keys|, 0
  {
    Shrinks(m, k);
    Shrinks(m, k');
    MapSumRemove(m - {k'}, k);
    MapSumRemove(m - {k}, k');
    RemoveCommutes(m, k, k');
  }

  lemma Shrinks(m: map<int, nat>, k: int)
    requires k in m
    ensures (m - {k}).Keys < m.Keys
  {
  }

  lemma RemoveCommutes(m: map<int, nat>, k: int, k': int)
    ensures m - {k'} - {k} == m - {k} - {k'}
  {
  }

  /** Every secret's group holds as many combinations as its count, and each has that secret. */
  lemma {:induction false} GroupSize(combos: seq<seq<Share>>, secs: seq<int>, v: int)
    requires |secs| <= |combos|
    ensures |Group(combos, secs, v)| == multiset(secs)[v]
  {
    if secs != [] {
      var n := |secs|;
      assert secs == secs[..n - 1] + [secs[n - 1]];
      GroupSize(combos, secs[..n - 1], v);
    }
  }

  /** The first combination of a secret's group is the first combination giving it. */
  lemma {:induction false} GroupFirst(combos: seq<seq<Share>>, secs: seq<int>, v: int)
    requires |secs| <= |combos| && v in secs
    ensures Group(combos, secs, v) != [] && Group(combos, secs, v)[0] == combos[First(secs, v)]
  {
    var n := |secs|;
    var front := secs[..n - 1];
    if v in front {
      GroupFirst(combos, front, v);
      FirstOfPrefix(secs, n - 1, v);
    } else {
      GroupSize(combos, front, v);
      assert multiset(front)[v] == 0;
      assert First(secs, v) == n - 1;
    }
  }

  lemma FirstOfPrefix(secs: seq<int>, n: nat, v: int)
    requires n <= |secs| && v in secs[..n]
    ensures v in secs && First(secs, v) == First(secs[..n], v)
  {
    var j, j' := First(secs, v), First(secs[..n], v);
    assert secs[..n][j'] == secs[j'];
    assert secs[..n][j] == secs[j];
  }

  /** Every share is either valid or possibly corrupt, never both. */
  lemma {:induction false} UnmatchedPartition(shares: seq<Share>, valid: set<Share>)
    ensures forall s :: s in Unmatched(shares, valid) <==> s in shares && s !in valid
  {
    if shares != [] {
      var n := |shares|;
      UnmatchedPartition(shares[..n - 1], valid);
      assert shares == shares[..n - 1] + [shares[n - 1]];
    }
  }

  /** When k is the number of shares, the one combination is all of them: every share is
      valid and none is reported as corrupt. */
  lemma AllSharesValid(shares: seq<Share>, p: int, d: Detection)
    requires Secrets(Generated(shares, |shares|), p).Ok?
    requires IsOutcome(shares, Generated(shares, |shares|), Secrets(Generated(shares, |shares|), p).value, d)
    ensures d.corrupt == [] && forall x :: x in d.valid <==> x in shares
  {
    GeneratedAll(shares);
    assert First(Secrets(Generated(shares, |shares|), p).value, d.secret) == 0;
    UnmatchedNone(shares, d.valid);
  }

  /** The tally is consistent: the counts add up to the number of combinations, and each
      secret's list of combinations is as long as its count. */
  lemma OutcomeTally(shares: seq<Share>, combos: seq<seq<Share>>, secs: seq<int>, d: Detection)
    requires |secs| == |combos| && IsOutcome(shares, combos, secs, d)
    ensures MapSum(d.frequency) == |combos|
    ensures d.combosBySecret.Keys == d.frequency.Keys
    ensures forall v :: v in d.frequency ==> |d.combosBySecret[v]| == d.frequency[v] > 0
  {
    TallySum(secs);
    forall v | v in d.frequency
      ensures |d.combosBySecret[v]| == d.frequency[v] > 0
    {
      GroupSize(combos, secs, v);
    }
  }

  /** Every input share is exactly one of valid and possibly corrupt, and the valid shares
      are those of a combination whose interpolation is the chosen secret. */
  lemma OutcomePartition(shares: seq<Share>, combos: seq<seq<Share>>, p: int, d: Detection)
    requires Secrets(combos, p).Ok? && IsOutcome(shares, combos, Secrets(combos, p).value, d)
    ensures forall x :: x in d.corrupt <==> x in shares && x !in d.valid
    ensures exists j :: 0 <= j < |combos| && Interpolate(combos[j], p) == Ok(d.secret) &&
                        forall x :: x in d.valid <==> x in combos[j]
  {
    UnmatchedPartition(shares, d.valid);
    var secs := Secrets(combos, p).value;
    var j := First(secs, d.secret);
    SecretsOk(combos, p, |combos|);
    assert Interpolate(combos[j], p) == Ok(d.secret);
  }

  lemma {:induction false} UnmatchedNone(shares: seq<Share>, valid: set<Share>)
    requires forall s :: s in shares ==> s in valid
    ensures Unmatched(shares, valid) == []
  {
    if shares != [] {
      UnmatchedNone(shares[..|shares| - 1], valid);
    }
  }

  // ---------------------------------------------------------------------------------
  // The detection block of `main`

  /** Step 3 of `main`: interpolate every combination in order, counting each secret in
      `frequencyMap` and appending the combination to its list in `secretToCombos`. */
  method CountSecrets(combos: seq<seq<Share>>, p: int)
    returns (r: Result<(map<int, nat>, map<int, seq<seq<Share>>>), InterpolationError>)
    ensures Secrets(combos, p).Err? ==> r == Err(Secrets(combos, p).error)
    ensures Secrets(combos, p).Ok? ==>
      r == Ok((Tally(Secrets(combos, p).value), Groups(combos, Secrets(combos, p).value)))
  {
    var frequency: map<int, nat> := map[];
    var bySecret: map<int, seq<seq<Share>>> := map[];
    ghost var secs: seq<int> := [];
    for i := 0 to |combos|
      invariant SecretsUpTo(combos, p, i) == Ok(secs)
      invariant frequency == Tally(secs)
      invariant bySecret == Groups(combos, secs)
    {
      var s := LagrangeInterpolation(combos[i], p);
      if s.Err? {
        SecretsErrPersists(combos, p, i + 1, |combos|);
        return Err(s.error);
      }
      var v := s.value;
      TallyStep(secs, v);
      GroupsStep(combos, secs, v);
      frequency := frequency[v := if v in frequency then frequency[v] + 1 else 1];
      bySecret := bySecret[v := (if v in bySecret then bySecret[v] else []) + [combos[i]]];
      secs := secs + [v];
    }
    return Ok((frequency, bySecret));
  }

  /** Step 4 of `main`: a key of largest count, or none for an empty map. The key order of a
      Java `HashMap` is not specified; the loop takes the keys in an arbitrary order and keeps
      the first one strictly above the running maximum, so the key found is any of largest count. */
  method MostFrequent(frequency: map<int, nat>) returns (correct: Option<int>)
    requires forall v :: v in frequency ==> frequency[v] > 0
    ensures correct.None? <==> frequency.Keys == {}
    ensures correct.Some? ==>
      correct.value in frequency && forall v :: v in frequency ==> frequency[v] <= frequency[correct.value]
  {
    var remaining := frequency.Keys;
    ghost var visited: set<int> := {};
    correct := None;
    var maxFreq := 0;
    while remaining != {}
      invariant remaining !! visited && remaining + visited == frequency.Keys
      invariant correct.None? ==> visited == {} && maxFreq == 0
      invariant correct.Some? ==> correct.value in visited && frequency[correct.value] == maxFreq
      invariant forall v :: v in visited ==> frequency[v] <= maxFreq
      decreases |remaining|
    {
      Inhabited(remaining);
      var key :| key in remaining;
      if frequency[key] > maxFreq {
        maxFreq := frequency[key];
        correct := Some(key);
      }
      remaining := remaining - {key};
      visited := visited + {key};
    }
  }

  /** The set of the shares of one combination. */
  method ShareSet(combo: seq<Share>) returns (valid: set<Share>)
    ensures forall x :: x in valid <==> x in combo
  {
    valid := {};
    for j := 0 to |combo|
      invariant forall x :: x in valid <==> x in combo[..j]
    {
      assert combo[..j + 1] == combo[..j] + [combo[j]];
      valid := valid + {combo[j]};
    }
    assert combo[..|combo|] == combo;
  }

  /** The shares outside the valid set, in input order. */
  method CollectUnmatched(shares: seq<Share>, valid: set<Share>) returns (corrupt: seq<Share>)
    ensures corrupt == Unmatched(shares, valid)
  {
    corrupt := [];
    for j := 0 to |shares|
      invariant corrupt == Unmatched(shares[..j], valid)
    {
      UnmatchedStep(shares, j, valid);
      if shares[j] !in valid {
        corrupt := corrupt + [shares[j]];
      }
    }
    assert shares[..|shares|] == shares;
  }

  lemma UnmatchedStep(shares: seq<Share>, j: nat, valid: set<Share>)
    requires j < |shares|
    ensures Unmatched(shares[..j + 1], valid) ==
      Unmatched(shares[..j], valid) + (if shares[j] in valid then [] else [shares[j]])
  {
    assert shares[..j + 1][..j] == shares[..j];
  }

  /** Steps 2 to 4 of `main` and the valid/corrupt split, on the shares, k and p read from the
      input. */
  method Detect(shares: seq<Share>, k: int, p: int) returns (r: Result<Detection, DetectError>)
    ensures Secrets(Generated(shares, k), p).Err? ==> r == Err(Interp(Secrets(Generated(shares, k), p).error))
    ensures Secrets(Generated(shares, k), p).Ok? && Generated(shares, k) == [] ==> r == Err(NoCombinations)
    ensures Secrets(Generated(shares, k), p).Ok? && Generated(shares, k) != [] ==>
      r.Ok? && IsOutcome(shares, Generated(shares, k), Secrets(Generated(shares, k), p).value, r.value)
  {
    var combos := GenerateCombinations(shares, k);
    var tally := CountSecrets(combos, p);
    if tally.Err? {
      return Err(Interp(tally.error));
    }
    var (frequency, bySecret) := tally.value;
    ghost var secs := Secrets(combos, p).value;
    TallyPositive(secs);
    var correct := MostFrequent(frequency);
    if correct.None? {
      TallyEmpty(secs);
      return Err(NoCombinations);
    }
    var secret := correct.value;
    GroupFirst(combos, secs, secret);
    var valid := ShareSet(bySecret[secret][0]);
    var corrupt := CollectUnmatched(shares, valid);
    return Ok(Detection(frequency, bySecret, secret, valid, corrupt));
  }

  /** One more combination joins the group of its secret and no other. */
  lemma GroupsStep(combos: seq<seq<Share>>, secs: seq<int>, v: int)
    requires |secs| < |combos|
    ensures Groups(combos, secs + [v]) ==
      Groups(combos, secs)[v := (if v in secs then Group(combos, secs, v) else []) + [combos[|secs|]]]
  {
    var secs' := secs + [v];
    assert secs'[..|secs|] == secs;
    var l, r := Groups(combos, secs'), Groups(combos, secs)[v := (if v in secs then Group(combos, secs, v) else []) + [combos[|secs|]]];
    assert forall u :: u in secs' <==> u in secs || u == v;
    forall u | u in secs' ensures l[u] == r[u] {
      if u != v {
        assert Group(combos, secs', u) == Group(combos, secs, u) + [];
      } else if v !in secs {
        GroupSize(combos, secs, v);
        assert multiset(secs)[v] == 0;
      }
    }
    assert l.Keys == r.Keys;
  }

  // ---------------------------------------------------------------------------------
  // Untampered shares

  /** Shares at increasing positions of a list distinct modulo p are distinct modulo p, and
      lie on every polynomial the list lies on. */
  lemma PickClean(shares: seq<Share>, c: seq<int>, p: int, ix: seq<nat>)
    requires IsPrime(p) && DistinctModulo(shares, p) && Increasing(ix) && InRange(ix, 0, |shares|)
    requires forall i {:trigger Eval(c, shares[i].x)} :: 0 <= i < |shares| ==> shares[i].y % p == Eval(c, shares[i].x) % p
    ensures DistinctModulo(Pick(shares, ix), p)
    ensures forall i {:trigger Eval(c, Pick(shares, ix)[i].x)} :: 0 <= i < |ix| ==>
      Pick(shares, ix)[i].y % p == Eval(c, Pick(shares, ix)[i].x) % p
  {
    PickDistinct(shares, p, ix);
    var q := Pick(shares, ix);
    forall a | 0 <= a < |q| ensures q[a].y % p == Eval(c, q[a].x) % p {
      assert q[a] == shares[ix[a]];
    }
  }

  /** When the combinations all interpolate to v, so do the secrets. */
  lemma {:induction false} SecretsAllSame(combos: seq<seq<Share>>, p: int, n: nat, v: int)
    requires n <= |combos| && forall j :: 0 <= j < n ==> Interpolate(combos[j], p) == Ok(v)
    ensures SecretsUpTo(combos, p, n).Ok? && forall u :: u in SecretsUpTo(combos, p, n).value ==> u == v
  {
    if n > 0 {
      SecretsAllSame(combos, p, n - 1, v);
    }
  }

  /** Untampered shares (on one polynomial with at most k coefficients, at points distinct
      modulo a prime p) make every k-combination give the constant term modulo p. */
  lemma CleanSecrets(shares: seq<Share>, c: seq<int>, k: int, p: int)
    requires IsPrime(p) && DistinctModulo(shares, p) && |c| <= k
    requires forall i {:trigger Eval(c, shares[i].x)} :: 0 <= i < |shares| ==> shares[i].y % p == Eval(c, shares[i].x) % p
    ensures Secrets(Generated(shares, k), p).Ok?
    ensures forall v :: v in Secrets(Generated(shares, k), p).value ==> v == (if c == [] then 0 else c[0]) % p
  {
    var g := Generated(shares, k);
    GeneratedShape(shares, k);
    forall t | 0 <= t < |g| ensures Interpolate(g[t], p) == Ok((if c == [] then 0 else c[0]) % p) {
      var ix := Combos(|shares|, k, 0)[t];
      PickClean(shares, c, p, ix);
      InterpolateRecoversSecret(g[t], c, p);
    }
    SecretsAllSame(g, p, |g|, (if c == [] then 0 else c[0]) % p);
  }

  /** With untampered shares the vote is unanimous: the detected secret is the constant term
      modulo p, given by every combination. */
  lemma CleanDetect(shares: seq<Share>, c: seq<int>, k: int, p: int, d: Detection)
    requires IsPrime(p) && DistinctModulo(shares, p) && |c| <= k
    requires forall i {:trigger Eval(c, shares[i].x)} :: 0 <= i < |shares| ==> shares[i].y % p == Eval(c, shares[i].x) % p
    requires Secrets(Generated(shares, k), p).Ok?
    requires IsOutcome(shares, Generated(shares, k), Secrets(Generated(shares, k), p).value, d)
    ensures d.secret == (if c == [] then 0 else c[0]) % p
    ensures d.frequency[d.secret] == |Generated(shares, k)|
  {
    CleanSecrets(shares, c, k, p);
    Unanimous(Secrets(Generated(shares, k), p).value, d.secret);
  }

  lemma {:induction false} Unanimous(secs: seq<int>, v: int)
    requires forall u :: u in secs ==> u == v
    ensures multiset(secs)[v] == |secs|
  {
    if secs != [] {
      var n := |secs|;
      var front := secs[..n - 1];
      assert secs[n - 1] in secs;
      assert secs[n - 1] == v;
      assert secs == front + [v];
      forall u | u in front ensures u == v {
        var j :| 0 <= j < |front| && front[j] == u;
        assert secs[j] == u && secs[j] in secs;
      }
      Unanimous(front, v);
      assert multiset(front + [v]) == multiset(front) + multiset{v};
    }
  }

  // ---------------------------------------------------------------------------------
  // Tampered shares

  /** Every share of the combination lies on the polynomial c modulo p. */
  predicate OnPolynomial(combo: seq<Share>, c: seq<int>, p: int)
    requires p > 0
  {
    forall i {:trigger Eval(c, combo[i].x)} :: 0 <= i < |combo| ==> combo[i].y % p == Eval(c, combo[i].x) % p
  }

  /** How many of the first n combinations consist of shares on c only. */
  function CleanCount(combos: seq<seq<Share>>, c: seq<int>, p: int, n: nat): (r: nat)
    requires p > 0 && n <= |combos|
    ensures r <= n
  {
    if n == 0 then 0
    else CleanCount(combos, c, p, n - 1) + (if OnPolynomial(combos[n - 1], c, p) then 1 else 0)
  }

  /** Every combination made only of shares on c votes for the constant term of c. */
  lemma {:induction false} CleanVotes(combos: seq<seq<Share>>, c: seq<int>, p: int, n: nat)
    requires IsPrime(p) && n <= |combos| && SecretsUpTo(combos, p, n).Ok?
    requires forall j :: 0 <= j < n ==> DistinctModulo(combos[j], p) && |c| <= |combos[j]|
    ensures CleanCount(combos, c, p, n) <= multiset(SecretsUpTo(combos, p, n).value)[(if c == [] then 0 else c[0]) % p]
  {
    if n > 0 {
      var v := (if c == [] then 0 else c[0]) % p;
      var front := SecretsUpTo(combos, p, n - 1).value;
      CleanVotes(combos, c, p, n - 1);
      var u := Interpolate(combos[n - 1], p).value;
      assert SecretsUpTo(combos, p, n).value == front + [u];
      assert multiset(front + [u]) == multiset(front) + multiset{u};
      if OnPolynomial(combos[n - 1], c, p) {
        InterpolateRecoversSecret(combos[n - 1], c, p);
      }
    }
  }

  /** Two different secrets never occur more often together than there are secrets. */
  lemma {:induction false} TwoCounts(secs: seq<int>, u: int, v: int)
    requires u != v
    ensures multiset(secs)[u] + multiset(secs)[v] <= |secs|
  {
    if secs != [] {
      var n := |secs|;
      assert secs == secs[..n - 1] + [secs[n - 1]];
      TwoCounts(secs[..n - 1], u, v);
    }
  }

  /** A secret given by more than half of the combinations is the one chosen. */
  lemma MajorityWins(shares: seq<Share>, combos: seq<seq<Share>>, secs: seq<int>, d: Detection, v: int)
    requires |secs| == |combos| && IsOutcome(shares, combos, secs, d)
    requires 2 * multiset(secs)[v] > |secs|
    ensures d.secret == v
  {
    assert v in secs;
    assert d.frequency[v] <= d.frequency[d.secret];
    if d.secret != v {
      TwoCounts(secs, d.secret, v);
    }
  }

  /** Shares at increasing positions of a list distinct modulo p are distinct modulo p. */
  lemma PickDistinct(shares: seq<Share>, p: int, ix: seq<nat>)
    requires p > 0 && DistinctModulo(shares, p) && Increasing(ix) && InRange(ix, 0, |shares|)
    ensures DistinctModulo(Pick(shares, ix), p)
  {
    var q := Pick(shares, ix);
    forall a, b | 0 <= a < b < |q| ensures q[a].x % p != q[b].x % p {
      assert q[a] == shares[ix[a]] && q[b] == shares[ix[b]] && ix[a] < ix[b];
    }
  }

  /** For a prime p, shares (tampered ones included) at x distinct modulo p, and c with at
      most k coefficients: whatever the y of the shares off c, when the combinations made
      only of shares on c are a strict majority of all combinations, the detected secret is
      the constant term of c modulo p. */
  lemma MajorityDetect(shares: seq<Share>, c: seq<int>, k: int, p: int, d: Detection)
    requires IsPrime(p) && DistinctModulo(shares, p) && |c| <= k
    requires Secrets(Generated(shares, k), p).Ok?
    requires IsOutcome(shares, Generated(shares, k), Secrets(Generated(shares, k), p).value, d)
    requires 2 * CleanCount(Generated(shares, k), c, p, |Generated(shares, k)|) > |Generated(shares, k)|
    ensures d.secret == (if c == [] then 0 else c[0]) % p
  {
    var g := Generated(shares, k);
    GeneratedShape(shares, k);
    forall j | 0 <= j < |g| ensures DistinctModulo(g[j], p) && |c| <= |g[j]| {
      PickDistinct(shares, p, Combos(|shares|, k, 0)[j]);
    }
    CleanVotes(g, c, p, |g|);
    MajorityWins(shares, g, Secrets(g, p).value, d, (if c == [] then 0 else c[0]) % p);
  }

  // ---------------------------------------------------------------------------------
  // One tampered share out of three, k = 2

  /** 7 is prime. */
  lemma SevenIsPrime()
    ensures IsPrime(7)
  {
    forall d ensures !ProperFactor(d, 7) {
      if 1 < d < 7 {
        assert d == 2 || d == 3 || d == 4 || d == 5 || d == 6;
      }
    }
  }

  /** The selections of two of three positions, in backtracking order. */
  lemma TwoOfThree()
    ensures Combos(3, 2, 0) == [[0, 1], [0, 2], [1, 2]]
  {
    assert Combos(3, 0, 3) == [[]] && Combos(3, 1, 3) == [] && Combos(3, 2, 3) == [];
    assert Combos(3, 0, 2) == [[]];
    assert Combos(3, 1, 2) == [[2]] by {
      var e: seq<nat> := [];
      assert [2] + e == [2];
      assert |Prefix(2, [e])| == 1 && Prefix(2, [e])[0] == [2];
    }
    assert Combos(3, 2, 2) == [];
    assert Combos(3, 1, 1) == [[1], [2]] by {
      var e: seq<nat> := [];
      assert [1] + e == [1];
      assert |Prefix(1, [e])| == 1 && Prefix(1, [e])[0] == [1];
    }
    assert Combos(3, 2, 1) == [[1, 2]] by {
      assert Prefix(1, [[2]])[0] == [1, 2];
    }
    assert Prefix(0, [[1], [2]])[0] == [0, 1] && Prefix(0, [[1], [2]])[1] == [0, 2];
  }

  /** The three combinations of two of three shares. */
  lemma TieCombinations(a: Share, b: Share, e: Share)
    ensures Generated([a, b, e], 2) == [[a, b], [a, e], [b, e]]
  {
    var shares := [a, b, e];
    var cs: seq<seq<nat>> := [[0, 1], [0, 2], [1, 2]];
    TwoOfThree();
    var g := Generated(shares, 2);
    assert g == Extend([], shares, cs);
    assert |g| == 3;
    assert g[0] == [] + Pick(shares, cs[0]) == [shares[0], shares[1]];
    assert g[1] == [] + Pick(shares, cs[1]) == [shares[0], shares[2]];
    assert g[2] == [] + Pick(shares, cs[2]) == [shares[1], shares[2]];
  }

  lemma EvalLine(c0: int, c1: int, x: int)
    ensures Eval([c0, c1], x) == c0 + x * c1
  {
    assert [c0, c1][1..] == [c1] && [c1][1..] == [];
    assert Eval([c1], x) == c1 + x * Eval([], x);
  }

  /** Two shares on the line c0 + c1 x modulo a prime, at different x, give c0 modulo p. */
  lemma LineSecret(a: Share, b: Share, c0: int, c1: int, p: int)
    requires IsPrime(p) && a.x % p != b.x % p
    requires a.y % p == (c0 + a.x * c1) % p && b.y % p == (c0 + b.x * c1) % p
    ensures Interpolate([a, b], p) == Ok(c0 % p)
  {
    var s, c := [a, b], [c0, c1];
    EvalLine(c0, c1, a.x);
    EvalLine(c0, c1, b.x);
    assert s[0] == a && s[1] == b;
    InterpolateRecoversSecret(s, c, p);
  }

  /** The secrets of three combinations, from the secret of each. */
  lemma SecretsOfThree(g0: seq<Share>, g1: seq<Share>, g2: seq<Share>, p: int, u0: int, u1: int, u2: int)
    requires Interpolate(g0, p) == Ok(u0) && Interpolate(g1, p) == Ok(u1) && Interpolate(g2, p) == Ok(u2)
    ensures Secrets([g0, g1, g2], p) == Ok([u0, u1, u2])
  {
    var g := [g0, g1, g2];
    assert g[0] == g0 && g[1] == g1 && g[2] == g2;
    var e: seq<int> := [];
    assert SecretsUpTo(g, p, 0) == Ok(e);
    assert e + [u0] == [u0] && [u0] + [u1] == [u0, u1] && [u0, u1] + [u2] == [u0, u1, u2];
    assert SecretsUpTo(g, p, 1) == Ok([u0]);
    assert SecretsUpTo(g, p, 2) == Ok([u0, u1]);
  }

  /** The secrets of the three combinations modulo 7: each combination lies on a line, whose
      constant term it gives. */
  lemma TieSecrets(a: Share, b: Share, e: Share, p: int)
    requires a == Share(1, 5) && b == Share(2, 0) && e == Share(3, 3) && p == 7
    ensures Secrets([[a, b], [a, e], [b, e]], p) == Ok([3, 6, 1])
  {
    SevenIsPrime();
    assert a.x % p != b.x % p && a.y % p == (3 + a.x * 2) % p && b.y % p == (3 + b.x * 2) % p;
    assert a.x % p != e.x % p && a.y % p == (6 + a.x * 6) % p && e.y % p == (6 + e.x * 6) % p;
    assert b.x % p != e.x % p && b.y % p == (1 + b.x * 3) % p && e.y % p == (1 + e.x * 3) % p;
    LineSecret(a, b, 3, 2, p);
    LineSecret(a, e, 6, 6, p);
    LineSecret(b, e, 1, 3, p);
    SecretsOfThree([a, b], [a, e], [b, e], p, 3, 6, 1);
  }

  /** Three different secrets are counted once each. */
  lemma TallyOfThree(u0: int, u1: int, u2: int)
    requires u0 != u1 && u0 != u2 && u1 != u2
    ensures Tally([u0, u1, u2]) == map[u0 := 1, u1 := 1, u2 := 1]
  {
    var secs := [u0, u1, u2];
    assert multiset(secs) == multiset{u0, u1, u2};
    assert forall v :: v in secs <==> v == u0 || v == u1 || v == u2;
  }

  /** Of three shares, only the first lies outside the valid set. */
  lemma UnmatchedOfThree(a: Share, b: Share, e: Share, valid: set<Share>)
    requires a !in valid && b in valid && e in valid
    ensures Unmatched([a, b, e], valid) == [a]
  {
    var shares := [a, b, e];
    assert shares[..2] == [a, b] && shares[..2][..1] == [a] && shares[..1][..0] == [];
    assert Unmatched([a], valid) == [a];
    assert Unmatched([a, b], valid) == [a];
  }

  /** The shares (1, 5), (2, 0) lie on f(x) = 3 + 2x modulo 7 and (3, 3) does not; the
      secret is f(0) = 3. */
  lemma TieOneTampered(a: Share, b: Share, e: Share, p: int)
    requires a == Share(1, 5) && b == Share(2, 0) && e == Share(3, 3) && p == 7
    ensures a.y % p == Eval([3, 2], a.x) % p && b.y % p == Eval([3, 2], b.x) % p && e.y % p != Eval([3, 2], e.x) % p
    ensures Eval([3, 2], 0) % p == 3
  {
    EvalLine(3, 2, 0);
    EvalLine(3, 2, a.x);
    EvalLine(3, 2, b.x);
    EvalLine(3, 2, e.x);
  }

  /** The outcome that chooses the secret 1 of the third combination. */
  lemma TieOutcome(a: Share, b: Share, e: Share, p: int)
    requires a == Share(1, 5) && b == Share(2, 0) && e == Share(3, 3) && p == 7
    ensures IsOutcome([a, b, e], Generated([a, b, e], 2), [3, 6, 1],
      Detection(Tally([3, 6, 1]), Groups(Generated([a, b, e], 2), [3, 6, 1]), 1, {b, e}, [a]))
  {
    TieCombinations(a, b, e);
    var g := Generated([a, b, e], 2);
    assert g[2] == [b, e];
    TallyOfThree(3, 6, 1);
    assert First([3, 6, 1], 1) == 2;
    assert (set x | x in g[2]) == {b, e};
    UnmatchedOfThree(a, b, e, {b, e});
  }

  /** Only one share of the three is tampered, yet the three combinations give three
      different secrets, each once. The vote is a tie, and an outcome of `main` chooses the
      wrong secret 1 instead of f(0) = 3: it keeps the tampered share (3, 3) as valid and
      reports the untampered share (1, 5) as possibly corrupt. */
  lemma TamperedTie(a: Share, b: Share, e: Share, p: int)
    requires a == Share(1, 5) && b == Share(2, 0) && e == Share(3, 3) && p == 7
    ensures a.y % p == Eval([3, 2], a.x) % p && b.y % p == Eval([3, 2], b.x) % p && e.y % p != Eval([3, 2], e.x) % p
    ensures Secrets(Generated([a, b, e], 2), p) == Ok([3, 6, 1])
    ensures IsOutcome([a, b, e], Generated([a, b, e], 2), [3, 6, 1],
      Detection(Tally([3, 6, 1]), Groups(Generated([a, b, e], 2), [3, 6, 1]), 1, {b, e}, [a]))
    ensures Eval([3, 2], 0) % p == 3
  {
    TieOneTampered(a, b, e, p);
    TieCombinations(a, b, e);
    TieSecrets(a, b, e, p);
    TieOutcome(a, b, e, p);
  }
}
