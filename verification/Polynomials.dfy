/** Polynomials over the integers modulo p, as coefficient sequences with the
    constant term first. Roots, interpolation, and the value at zero. */
module Polynomials {
  import opened PrimeField

  /** The value at x, reduced after every step of Horner's rule. */
  function Eval(p: Positive, f: seq<int>, x: int): int {
    if f == [] then 0 else (f[0] + x * Eval(p, f[1..], x)) % p
  }

  lemma {:induction false} EvalStep(p: Positive, f: seq<int>, x: int)
    requires f != []
    ensures Cong(p, Eval(p, f, x), f[0] + x * Eval(p, f[1..], x))
  {
    CongMod(p, f[0] + x * Eval(p, f[1..], x));
  }

  lemma EvalReduced(p: Positive, f: seq<int>, x: int)
    ensures 0 <= Eval(p, f, x) < p
  {
  }

  lemma EvalAtZero(p: Positive, f: seq<int>)
    requires f != []
    ensures Eval(p, f, 0) == f[0] % p
  {
    assert 0 * Eval(p, f[1..], 0) == 0;
  }

  // ---- Dividing by X - c ----

  /** The quotient of f by X - c, by synthetic division. */
  function Deflate(p: Positive, f: seq<int>, c: int): (q: seq<int>)
    ensures |q| == if f == [] then 0 else |f| - 1
  {
    if |f| <= 1 then [] else [Eval(p, f[1..], c)] + Deflate(p, f[1..], c)
  }

  /** f(x) == f(c) + (x - c) * q(x): the remainder theorem. */
  lemma {:induction false} Remainder(p: Positive, f: seq<int>, c: int, x: int)
    ensures Cong(p, Eval(p, f, x), Eval(p, f, c) + (x - c) * Eval(p, Deflate(p, f, c), x))
  {
    if |f| <= 1 {
      assert f == [] || f[1..] == [];
      assert x * 0 == 0 && c * 0 == 0 && (x - c) * 0 == 0;
      FromMultiple(p, Eval(p, f, x), Eval(p, f, c), 0);
    } else {
      var rest, q := f[1..], Deflate(p, f, c);
      var qRest := Deflate(p, rest, c);
      Remainder(p, rest, c, x);
      EvalStep(p, f, x);
      EvalStep(p, f, c);
      EvalStep(p, q, x);
      assert q[1..] == qRest;
      var rx, rc, qx := Eval(p, rest, x), Eval(p, rest, c), Eval(p, qRest, x);
      RemainderAlgebra(f[0], x, c, rx, rc, qx);
      var ex, ec, eq := Eval(p, f, x), Eval(p, f, c), Eval(p, q, x);
      assert ex - (ec + (x - c) * eq)
          == 1 * (ex - (f[0] + x * rx)) + (-1) * (ec - (f[0] + c * rc))
           + (-(x - c)) * (eq - (rc + x * qx)) + x * (rx - (rc + (x - c) * qx));
      Combine4(p, ex, ec + (x - c) * eq, 1, ex, f[0] + x * rx, -1, ec, f[0] + c * rc,
               -(x - c), eq, rc + x * qx, x, rx, rc + (x - c) * qx);
    }
  }

  lemma RemainderAlgebra(a: int, x: int, c: int, rx: int, rc: int, qx: int)
    ensures (a + x * rx) - (a + c * rc) - (x - c) * (rc + x * qx) == x * (rx - (rc + (x - c) * qx))
  {
    assert (x - c) * (rc + x * qx) == x * rc - c * rc + x * ((x - c) * qx);
  }

  // ---- Distinct points and roots ----

  ghost predicate DistinctMod(p: Positive, xs: seq<int>) {
    forall i, j :: 0 <= i < j < |xs| ==> !Cong(p, xs[i], xs[j])
  }

  lemma DistinctInvertible(p: int, xs: seq<int>, i: nat, j: nat)
    requires Prime(p) && DistinctMod(p, xs) && i < |xs| && j < |xs| && i != j
    ensures Invertible(p, xs[i] - xs[j])
  {
    if Cong(p, xs[i], xs[j]) {
      CongSym(p, xs[i], xs[j]);
    }
    PrimeInvertible(p, xs[i] - xs[j]);
  }

  ghost predicate VanishesOn(p: Positive, f: seq<int>, xs: seq<int>) {
    forall i :: 0 <= i < |xs| ==> Eval(p, f, xs[i]) == 0
  }

  /** Modulo a prime, a polynomial with as many distinct roots as coefficients has
      only zero coefficients. */
  lemma {:induction false} RootBound(p: int, f: seq<int>, xs: seq<int>)
    requires Prime(p) && |f| <= |xs| && DistinctMod(p, xs) && VanishesOn(p, f, xs)
    ensures forall i :: 0 <= i < |f| ==> f[i] % p == 0
    decreases |f|
  {
    if f != [] {
      var c, q := xs[0], Deflate(p, f, xs[0]);
      forall i | 0 <= i < |xs[1..]| ensures Eval(p, q, xs[1..][i]) == 0 {
        QuotientVanishes(p, f, xs, i + 1);
      }
      assert DistinctMod(p, xs[1..]);
      RootBound(p, q, xs[1..]);
      ZeroQuotient(p, f, c);
    }
  }

  lemma QuotientVanishes(p: int, f: seq<int>, xs: seq<int>, i: nat)
    requires Prime(p) && 1 <= i < |xs| && DistinctMod(p, xs) && VanishesOn(p, f, xs)
    ensures Eval(p, Deflate(p, f, xs[0]), xs[i]) == 0
  {
    var c, x := xs[0], xs[i];
    var e := Eval(p, Deflate(p, f, c), x);
    Remainder(p, f, c, x);
    assert (x - c) * 0 == 0;
    CongSym(p, 0, (x - c) * e);
    DistinctInvertible(p, xs, i, 0);
    Cancel(p, x - c, e, 0);
    CongReduced(p, e, 0);
    EvalReduced(p, Deflate(p, f, c), x);
    SmallReduced(p, e);
    SmallReduced(p, 0);
  }

  /** A polynomial that vanishes at c and whose quotient by X - c is zero is zero. */
  lemma {:induction false} ZeroQuotient(p: Positive, f: seq<int>, c: int)
    requires f != [] && Eval(p, f, c) == 0
    requires forall i :: 0 <= i < |f| - 1 ==> Deflate(p, f, c)[i] % p == 0
    ensures forall i :: 0 <= i < |f| ==> f[i] % p == 0
    decreases |f|
  {
    if |f| == 1 {
      assert c * 0 == 0;
    } else {
      var q := Deflate(p, f, c);
      assert q[0] % p == 0;
      EvalReduced(p, f[1..], c);
      SmallReduced(p, q[0]);
      assert c * 0 == 0;
      forall i | 0 <= i < |f[1..]| - 1 ensures Deflate(p, f[1..], c)[i] % p == 0 {
        assert Deflate(p, f[1..], c)[i] == q[i + 1];
      }
      ZeroQuotient(p, f[1..], c);
      forall i | 0 <= i < |f| ensures f[i] % p == 0 {
        assert i > 0 ==> f[i] == f[1..][i - 1];
      }
    }
  }

  // ---- Interpolation ----

  ghost predicate Through(p: Positive, f: seq<int>, xs: seq<int>, ys: seq<int>)
    requires |xs| == |ys|
  {
    forall i :: 0 <= i < |xs| ==> Eval(p, f, xs[i]) == ys[i] % p
  }

  /** y + (X - c) * q. */
  function Inflate(p: Positive, q: seq<int>, c: int, y: int): (f: seq<int>)
    ensures |f| == |q| + 1 && Reduced(p, f)
  {
    if q == [] then [y % p] else [(y - c * q[0]) % p] + Inflate(p, q[1..], c, q[0])
  }

  predicate Reduced(p: Positive, f: seq<int>) {
    forall i :: 0 <= i < |f| ==> 0 <= f[i] < p
  }

  lemma {:induction false} InflateValue(p: Positive, q: seq<int>, c: int, y: int, x: int)
    ensures Cong(p, Eval(p, Inflate(p, q, c, y), x), y + (x - c) * Eval(p, q, x))
  {
    var f := Inflate(p, q, c, y);
    EvalStep(p, f, x);
    if q == [] {
      assert f[1..] == [];
      assert x * 0 == 0 && (x - c) * 0 == 0;
      CongMod(p, y);
      CongTrans(p, Eval(p, f, x), y % p, y);
    } else {
      var rest := Inflate(p, q[1..], c, q[0]);
      assert f[1..] == rest;
      InflateValue(p, q[1..], c, q[0], x);
      EvalStep(p, q, x);
      CongMod(p, y - c * q[0]);
      var ef, er, eq, et := Eval(p, f, x), Eval(p, rest, x), Eval(p, q, x), Eval(p, q[1..], x);
      InflateAlgebra(x, c, y, q[0], f[0], ef, er, eq, et);
      Combine4(p, ef, y + (x - c) * eq, 1, ef, f[0] + x * er, 1, f[0], y - c * q[0],
               x, er, q[0] + (x - c) * et, -(x - c), eq, q[0] + x * et);
    }
  }

  lemma InflateAlgebra(x: int, c: int, y: int, q: int, f: int, ef: int, er: int, eq: int, et: int)
    ensures ef - (y + (x - c) * eq)
         == 1 * (ef - (f + x * er)) + 1 * (f - (y - c * q))
          + x * (er - (q + (x - c) * et)) + (-(x - c)) * (eq - (q + x * et))
  {
    assert x * (er - (q + (x - c) * et)) == x * er - x * q - x * ((x - c) * et);
    assert (x - c) * (eq - (q + x * et)) == (x - c) * eq - x * q + c * q - (x - c) * (x * et);
    assert x * ((x - c) * et) == (x - c) * (x * et);
  }

  /** Some polynomial with |xs| coefficients takes the given values at distinct points. */
  lemma {:induction false} Interpolate(p: int, xs: seq<int>, ys: seq<int>) returns (f: seq<int>)
    requires Prime(p) && |xs| == |ys| && DistinctMod(p, xs)
    ensures |f| == |xs| && Reduced(p, f) && Through(p, f, xs, ys)
  {
    if xs == [] {
      f := [];
    } else {
      var c, y := xs[0], ys[0];
      var zs := DividedDifferences(p, xs, ys);
      assert DistinctMod(p, xs[1..]);
      var q := Interpolate(p, xs[1..], zs);
      f := Inflate(p, q, c, y);
      forall i | 0 <= i < |xs| ensures Eval(p, f, xs[i]) == ys[i] % p {
        InflateValue(p, q, c, y, xs[i]);
        var e := Eval(p, q, xs[i]);
        if i == 0 {
          assert (xs[0] - c) * e == 0;
        } else {
          assert xs[i] == xs[1..][i - 1];
          CongMod(p, zs[i - 1]);
          assert y + (xs[i] - c) * e - ys[i]
              == (xs[i] - c) * (e - zs[i - 1]) + 1 * ((xs[i] - c) * zs[i - 1] - (ys[i] - y));
          Combine(p, y + (xs[i] - c) * e, ys[i], xs[i] - c, e, zs[i - 1],
                  1, (xs[i] - c) * zs[i - 1], ys[i] - y);
          CongTrans(p, Eval(p, f, xs[i]), y + (xs[i] - c) * e, ys[i]);
        }
        CongReduced(p, Eval(p, f, xs[i]), ys[i]);
        EvalReduced(p, f, xs[i]);
        SmallReduced(p, Eval(p, f, xs[i]));
      }
    }
  }

  /** The values (y_i - y_0) / (x_i - x_0). */
  lemma DividedDifferences(p: int, xs: seq<int>, ys: seq<int>) returns (zs: seq<int>)
    requires Prime(p) && |xs| == |ys| > 0 && DistinctMod(p, xs)
    ensures |zs| == |xs| - 1
    ensures forall i :: 0 <= i < |zs| ==> Cong(p, (xs[i + 1] - xs[0]) * zs[i], ys[i + 1] - ys[0])
  {
    zs := [];
    while |zs| < |xs| - 1
      invariant |zs| <= |xs| - 1
      invariant forall i :: 0 <= i < |zs| ==> Cong(p, (xs[i + 1] - xs[0]) * zs[i], ys[i + 1] - ys[0])
    {
      var z := Quotient(p, xs, |zs| + 1, ys[|zs| + 1] - ys[0]);
      zs := zs + [z];
    }
  }

  lemma Quotient(p: int, xs: seq<int>, i: nat, d: int) returns (z: int)
    requires Prime(p) && 0 < i < |xs| && DistinctMod(p, xs)
    ensures Cong(p, (xs[i] - xs[0]) * z, d)
  {
    DistinctInvertible(p, xs, i, 0);
    z := Divide(p, xs[i] - xs[0], d);
  }

  lemma Divide(p: Positive, k: int, d: int) returns (z: int)
    requires Invertible(p, k)
    ensures Cong(p, k * z, d)
  {
    var r :| IsInverse(p, k, r);
    z := r * d;
    assert k * (r * d) - d == d * (k * r - 1);
    Combine(p, k * z, d, d, k * r, 1, 0, 1, 1) by { FromMultiple(p, 1, 1, 0); }
  }

  /** Reduced polynomials of one length that agree on as many distinct points are equal. */
  lemma InterpolantUnique(p: int, f: seq<int>, g: seq<int>, xs: seq<int>, ys: seq<int>)
    requires Prime(p) && |f| == |g| <= |xs| == |ys| && DistinctMod(p, xs)
    requires Reduced(p, f) && Reduced(p, g) && Through(p, f, xs, ys) && Through(p, g, xs, ys)
    ensures f == g
  {
    var h := seq(|f|, i requires 0 <= i < |f| => f[i] - g[i]);
    forall i | 0 <= i < |xs| ensures Eval(p, h, xs[i]) == 0 {
      EvalDifference(p, f, g, h, xs[i]);
      EvalReduced(p, h, xs[i]);
      CongReduced(p, Eval(p, h, xs[i]), 0);
      SmallReduced(p, Eval(p, h, xs[i]));
      SmallReduced(p, 0);
    }
    RootBound(p, h, xs);
    forall i | 0 <= i < |f| ensures f[i] == g[i] {
      assert h[i] % p == 0;
      CongReduced(p, f[i], g[i]);
      SmallReduced(p, f[i]);
      SmallReduced(p, g[i]);
    }
  }

  lemma {:induction false} EvalDifference(p: Positive, f: seq<int>, g: seq<int>, h: seq<int>, x: int)
    requires |f| == |g| == |h| && forall i :: 0 <= i < |f| ==> h[i] == f[i] - g[i]
    ensures Cong(p, Eval(p, h, x), Eval(p, f, x) - Eval(p, g, x))
  {
    if f == [] {
      FromMultiple(p, 0, 0, 0);
    } else {
      EvalDifference(p, f[1..], g[1..], h[1..], x);
      EvalStep(p, f, x);
      EvalStep(p, g, x);
      EvalStep(p, h, x);
      var ef, eg, eh := Eval(p, f, x), Eval(p, g, x), Eval(p, h, x);
      var rf, rg, rh := Eval(p, f[1..], x), Eval(p, g[1..], x), Eval(p, h[1..], x);
      DifferenceAlgebra(x, f[0], g[0], rf, rg, rh);
      Combine4(p, eh, ef - eg, 1, eh, h[0] + x * rh, -1, ef, f[0] + x * rf,
               1, eg, g[0] + x * rg, x, rh, rf - rg);
    }
  }

  lemma DifferenceAlgebra(x: int, f: int, g: int, rf: int, rg: int, rh: int)
    ensures (f - g + x * rh) - (f + x * rf) + (g + x * rg) == x * (rh - (rf - rg))
  {
    assert x * (rh - (rf - rg)) == x * rh - x * (rf - rg);
    assert x * (rf - rg) == x * rf - x * rg;
  }
}
