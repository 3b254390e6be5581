/** Lagrange interpolation at x = 0 over the integers modulo p, as
    `ShamirSecretReconstruction.lagrangeInterpolation` computes it: for every share i the
    basis value  prod_{j != i} (-x_j) * inverse(prod_{j != i} (x_i - x_j))  reduced modulo p,
    accumulated as  secret := (secret + y_i * basis_i) mod p. */
module Lagrange {
  import opened Wrappers
  import opened ModArith

  /** One share of the secret. In the source x is a Java `int` and y a `BigInteger`; all the
      arithmetic on x happens after `BigInteger.valueOf`, so its width never matters here. */
  datatype Share = Share(x: int, y: int)

  /** The exceptions `BigInteger.mod` / `BigInteger.modInverse` throw inside the interpolation. */
  datatype InterpolationError =
    | ModulusNotPositive   // "BigInteger: modulus not positive"
    | NotInvertible        // "BigInteger not invertible": a denominator is 0 modulo p

  // ---------------------------------------------------------------------------------
  // Specification

  /** prod over the shares o in `rest` of (z - o.x). With z == 0 it is the numerator
      prod (-x_j), with z == x_i the denominator prod (x_i - x_j). */
  function DiffProduct(z: int, rest: seq<Share>): int
  {
    if rest == [] then 1
    else DiffProduct(z, rest[..|rest| - 1]) * (z - rest[|rest| - 1].x)
  }

  /** The elements other than the i-th, in their order. */
  function Others<T>(s: seq<T>, i: nat): (r: seq<T>)
    requires i < |s|
    ensures |r| == |s| - 1
  {
    s[..i] + s[i + 1..]
  }

  /** The Lagrange basis value at 0 of a share at xi against the other shares `rest`,
      reduced modulo p; None when the denominator has no inverse modulo p. */
  function BasisAt(xi: int, rest: seq<Share>, p: int): (r: Option<int>)
    requires p > 0
    ensures r.Some? ==> 0 <= r.value < p
  {
    match ModInverse(DiffProduct(xi, rest), p)
    case None => None
    case Some(inv) => Some((DiffProduct(0, rest) * inv) % p)
  }

  function Basis(s: seq<Share>, p: int, i: nat): Option<int>
    requires p > 0 && i < |s|
  {
    BasisAt(s[i].x, Others(s, i), p)
  }

  /** The running secret after the first n shares: the first share whose basis has no
      inverse ends the computation with NotInvertible. */
  function Accumulate(s: seq<Share>, p: int, n: nat): (r: Result<int, InterpolationError>)
    requires p > 0 && n <= |s|
    ensures r.Ok? ==> 0 <= r.value < p
    ensures r.Err? ==> r.error == NotInvertible
  {
    if n == 0 then Ok(0)
    else
      var acc := Accumulate(s, p, n - 1);
      if acc.Err? then acc
      else
        match Basis(s, p, n - 1)
        case None => Err(NotInvertible)
        case Some(l) => Ok((acc.value + s[n - 1].y * l) % p)
  }

  /** The value `lagrangeInterpolation(shares, p)` returns, or the exception it throws. With
      no shares the loop does not run and 0 is returned without any call to `mod`. */
  function Interpolate(s: seq<Share>, p: int): (r: Result<int, InterpolationError>)
    ensures r.Ok? && p > 0 ==> 0 <= r.value < p
    ensures s == [] ==> r == Ok(0)
    ensures s != [] && p <= 0 ==> r == Err(ModulusNotPositive)
    ensures s != [] && p > 0 && r.Err? ==> r.error == NotInvertible
  {
    if s == [] then Ok(0)
    else if p <= 0 then Err(ModulusNotPositive)
    else Accumulate(s, p, |s|)
  }

  // ---------------------------------------------------------------------------------
  // The loop of the source

  /** The shares with index below j other than the i-th: what the inner loop has multiplied in. */
  function OthersBelow(s: seq<Share>, i: nat, j: nat): seq<Share>
    requires i < |s| && j <= |s|
  {
    if j <= i then s[..j] else s[..i] + s[i + 1..j]
  }

  /** `lagrangeInterpolation`: nested loops keeping numerator, denominator and secret reduced
      modulo p after every step. */
  method LagrangeInterpolation(shares: seq<Share>, p: int) returns (r: Result<int, InterpolationError>)
    ensures r == Interpolate(shares, p)
  {
    var k := |shares|;
    if k > 0 && p <= 0 {
      // the first iteration calls mod (k > 1) or modInverse (k == 1), which throw
      return Err(ModulusNotPositive);
    }
    var secret := 0;
    for i := 0 to k
      invariant p > 0 || k == 0
      invariant k > 0 ==> Accumulate(shares, p, i) == Ok(secret)
      invariant k == 0 ==> secret == 0
    {
      var yi := shares[i].y;
      var numerator, denominator := BasisProducts(shares, i, p);
      var inverse := ModInverse(denominator, p);
      BasisFromLoop(shares, p, i, numerator, denominator);
      AccumulateNext(shares, p, i, secret);
      if inverse.None? {
        AccumulateErrPersists(shares, p, i + 1, k);
        return Err(NotInvertible);
      }
      var lagrange := MulMod(numerator, inverse.value, p);
      assert Basis(shares, p, i) == Some(lagrange);
      assert Accumulate(shares, p, i + 1) == Ok((secret + yi * lagrange) % p);
      secret := (secret + yi * lagrange) % p;
    }
    return Ok(secret);
  }

  /** The inner loop of `lagrangeInterpolation` for share i: numerator prod (-x_j) and
      denominator prod (x_i - x_j) over j != i, each reduced modulo p after every factor. */
  method BasisProducts(shares: seq<Share>, i: nat, p: int) returns (numerator: int, denominator: int)
    requires p > 0 && i < |shares|
    ensures numerator % p == DiffProduct(0, Others(shares, i)) % p
    ensures denominator % p == DiffProduct(shares[i].x, Others(shares, i)) % p
  {
    var k := |shares|;
    var xi := shares[i].x;
    numerator, denominator := 1, 1;
    for j := 0 to k
      invariant numerator % p == DiffProduct(0, OthersBelow(shares, i, j)) % p
      invariant denominator % p == DiffProduct(xi, OthersBelow(shares, i, j)) % p
    {
      if i == j {
        assert OthersBelow(shares, i, j + 1) == OthersBelow(shares, i, j);
        continue;
      }
      var xj := shares[j].x;
      MultiplyStep(numerator, -xj, 0, shares, i, j, p);
      MultiplyStep(denominator, xi - xj, xi, shares, i, j, p);
      numerator := MulMod(numerator, -xj, p);
      denominator := MulMod(denominator, xi - xj, p);
    }
    assert OthersBelow(shares, i, k) == Others(shares, i);
  }

  /** One step of the inner loop keeps the running products congruent to DiffProduct. */
  lemma MultiplyStep(acc: int, factor: int, z: int, s: seq<Share>, i: nat, j: nat, p: int)
    requires p > 0 && i < |s| && j < |s| && i != j && factor == z - s[j].x
    requires acc % p == DiffProduct(z, OthersBelow(s, i, j)) % p
    ensures MulMod(acc, factor, p) % p == DiffProduct(z, OthersBelow(s, i, j + 1)) % p
  {
    var rest := OthersBelow(s, i, j);
    assert OthersBelow(s, i, j + 1) == rest + [s[j]];
    assert (rest + [s[j]])[..|rest|] == rest;
    ModIdempotent(acc * factor, p);
    ModMulLeft(acc, factor, p);
    ModMulLeft(DiffProduct(z, rest), factor, p);
  }

  /** A failed accumulation stays failed. */
  lemma {:induction false} AccumulateErrPersists(s: seq<Share>, p: int, n: nat, m: nat)
    requires p > 0 && n <= m <= |s| && Accumulate(s, p, n).Err?
    ensures Accumulate(s, p, m) == Err(NotInvertible)
    decreases m - n
  {
    if n < m {
      AccumulateErrPersists(s, p, n + 1, m);
    }
  }

  /** One more share in the accumulation. */
  lemma AccumulateNext(s: seq<Share>, p: int, i: nat, secret: int)
    requires p > 0 && i < |s| && Accumulate(s, p, i) == Ok(secret)
    ensures Basis(s, p, i).None? ==> Accumulate(s, p, i + 1) == Err(NotInvertible)
    ensures Basis(s, p, i).Some? ==> Accumulate(s, p, i + 1) == Ok((secret + s[i].y * Basis(s, p, i).value) % p)
  {
  }

  /** The end of the inner loop: the reduced numerator and denominator give the basis of share i. */
  lemma BasisFromLoop(s: seq<Share>, p: int, i: nat, numerator: int, denominator: int)
    requires p > 0 && i < |s|
    requires numerator % p == DiffProduct(0, Others(s, i)) % p
    requires denominator % p == DiffProduct(s[i].x, Others(s, i)) % p
    ensures ModInverse(denominator, p).None? <==> Basis(s, p, i).None?
    ensures ModInverse(denominator, p).Some? ==>
      Basis(s, p, i).value == MulMod(numerator, ModInverse(denominator, p).value, p)
  {
    var rest := Others(s, i);
    var inv := ModInverse(denominator, p);
    ModInverseCongruent(denominator, DiffProduct(s[i].x, rest), p);
    if inv.Some? {
      ModMulLeft(numerator, inv.value, p);
      ModMulLeft(DiffProduct(0, rest), inv.value, p);
    }
  }
}
