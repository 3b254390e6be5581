/** Polynomials with integer coefficients, lowest degree first: the secret polynomial of the
    sharing scheme, f(x) = c[0] + c[1] x + ... with the secret as c[0]. */
module Polynomial {
  import opened ModArith

  function Eval(c: seq<int>, x: int): int
  {
    if c == [] then 0 else c[0] + x * Eval(c[1..], x)
  }

  /** Coefficient-wise u + b * v, the shorter one padded with zeros. */
  function AddScaled(u: seq<int>, b: int, v: seq<int>): (r: seq<int>)
    ensures |r| == if |u| < |v| then |v| else |u|
  {
    if u == [] && v == [] then []
    else
      var u0, u' := if u == [] then 0 else u[0], if u == [] then [] else u[1..];
      var v0, v' := if v == [] then 0 else v[0], if v == [] then [] else v[1..];
      [u0 + b * v0] + AddScaled(u', b, v')
  }

  /** AddScaled adds the polynomials as functions: (u + b v)(x) == u(x) + b v(x). */
  lemma {:induction false} EvalAddScaled(u: seq<int>, b: int, v: seq<int>, x: int)
    ensures Eval(AddScaled(u, b, v), x) == Eval(u, x) + b * Eval(v, x)
  {
    if u != [] || v != [] {
      var u0, u' := if u == [] then 0 else u[0], if u == [] then [] else u[1..];
      var v0, v' := if v == [] then 0 else v[0], if v == [] then [] else v[1..];
      var r', r := AddScaled(u', b, v'), AddScaled(u, b, v);
      EvalAddScaled(u', b, v', x);
      assert r[1..] == r';
      assert Eval(u, x) == u0 + x * Eval(u', x);
      assert Eval(v, x) == v0 + x * Eval(v', x);
      AddScaledStep(u0, v0, b, x, Eval(u', x), Eval(v', x), Eval(r', x));
    }
  }

  lemma AddScaledStep(u0: int, v0: int, b: int, x: int, eu: int, ev: int, er: int)
    requires er == eu + b * ev
    ensures u0 + b * v0 + x * er == (u0 + x * eu) + b * (v0 + x * ev)
  {
    assert x * (eu + b * ev) == x * eu + b * (x * ev);
  }

  /** The quotient of c by (x - b), by synthetic division. */
  function Quotient(c: seq<int>, b: int): (q: seq<int>)
    ensures |q| == if c == [] then 0 else |c| - 1
  {
    if |c| <= 1 then [] else AddScaled(c[1..], b, Quotient(c[1..], b))
  }

  /** Factor theorem: f(x) = f(b) + (x - b) * q(x) for q the quotient of f by (x - b). */
  lemma {:induction false} FactorTheorem(c: seq<int>, b: int, x: int)
    ensures Eval(c, x) == Eval(c, b) + (x - b) * Eval(Quotient(c, b), x)
  {
    if |c| == 1 {
      assert c[1..] == [];
    } else if |c| > 1 {
      var c', q' := c[1..], Quotient(c[1..], b);
      FactorTheorem(c', b, x);
      EvalAddScaled(c', b, q', x);
      var ex, eb, qx := Eval(c', x), Eval(c', b), Eval(q', x);
      assert Eval(Quotient(c, b), x) == ex + b * qx;
      assert Eval(c, x) == c[0] + x * ex;
      assert Eval(c, b) == c[0] + b * eb;
      FactorStep(x, b, ex, eb, qx);
    }
  }

  lemma FactorStep(x: int, b: int, ex: int, eb: int, qx: int)
    requires eb == ex - (x - b) * qx
    ensures x * ex - b * eb == (x - b) * (ex + b * qx)
  {
    assert b * eb == b * ex - b * ((x - b) * qx);
    assert b * ((x - b) * qx) == (x - b) * (b * qx);
    assert (x - b) * (ex + b * qx) == (x - b) * ex + (x - b) * (b * qx);
  }

  /** Evaluation at congruent points gives congruent values. */
  lemma {:induction false} EvalCongruent(c: seq<int>, x: int, z: int, p: int)
    requires p > 0 && x % p == z % p
    ensures Eval(c, x) % p == Eval(c, z) % p
  {
    if c != [] {
      EvalCongruent(c[1..], x, z, p);
      var ex, ez := Eval(c[1..], x), Eval(c[1..], z);
      calc {
        Eval(c, x) % p;
        (c[0] + x * ex) % p;
        { ModAdd(c[0], x * ex, p); }
        (c[0] % p + (x * ex) % p) % p;
        { ModMul(x, ex, p); ModMul(z, ez, p); }
        (c[0] % p + (z * ez) % p) % p;
        { ModAdd(c[0], z * ez, p); }
        (c[0] + z * ez) % p;
      }
    }
  }
}
