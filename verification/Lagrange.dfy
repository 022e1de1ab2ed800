/** Lagrange's weights at zero: the weighted sum of a polynomial's values at distinct
    points is its value at zero, whenever there are at least as many points as coefficients. */
module Lagrange {
  import opened PrimeField
  import opened Polynomials

  /** The product of -y over ys. */
  ghost function NumOf(ys: seq<int>): int {
    if ys == [] then 1 else -ys[0] * NumOf(ys[1..])
  }

  /** The product of x - y over ys. */
  ghost function DenOf(x: int, ys: seq<int>): int {
    if ys == [] then 1 else (x - ys[0]) * DenOf(x, ys[1..])
  }

  ghost function Without(xs: seq<int>, i: nat): seq<int>
    requires i < |xs|
  {
    xs[..i] + xs[i + 1..]
  }

  /** w * prod (x_i - x_j) == prod (-x_j), over the j other than i. */
  ghost predicate IsWeight(p: Positive, xs: seq<int>, i: nat, w: int)
    requires i < |xs|
  {
    Cong(p, w * DenOf(xs[i], Without(xs, i)), NumOf(Without(xs, i)))
  }

  ghost predicate IsWeights(p: Positive, xs: seq<int>, ws: seq<int>) {
    |ws| == |xs| && forall i :: 0 <= i < |xs| ==> IsWeight(p, xs, i, ws[i])
  }

  ghost function Dot(ws: seq<int>, vs: seq<int>): int
    requires |ws| == |vs|
  {
    if ws == [] then 0 else ws[0] * vs[0] + Dot(ws[1..], vs[1..])
  }

  ghost function Ones(n: nat): seq<int> { seq(n, _ => 1) }

  ghost function Sum(ws: seq<int>): int { Dot(ws, Ones(|ws|)) }

  ghost function Values(p: Positive, f: seq<int>, xs: seq<int>): seq<int> {
    seq(|xs|, i requires 0 <= i < |xs| => Eval(p, f, xs[i]))
  }

  // ---- Weighted sums ----

  lemma {:induction false} DotScaled(p: Positive, ws: seq<int>, vs: seq<int>, k: int, us: seq<int>, qs: seq<int>)
    requires |ws| == |vs| == |us| == |qs|
    requires forall i :: 0 <= i < |ws| ==> Cong(p, ws[i] * vs[i], k * (us[i] * qs[i]))
    ensures Cong(p, Dot(ws, vs), k * Dot(us, qs))
  {
    if ws == [] {
      assert k * 0 == 0;
      FromMultiple(p, 0, 0, 0);
    } else {
      DotScaled(p, ws[1..], vs[1..], k, us[1..], qs[1..]);
      AddScaled(p, ws[0] * vs[0], us[0] * qs[0], Dot(ws[1..], vs[1..]), Dot(us[1..], qs[1..]), k);
    }
  }

  lemma {:induction false} AddScaled(p: Positive, a: int, b: int, c: int, d: int, k: int)
    requires Cong(p, a, k * b) && Cong(p, c, k * d)
    ensures Cong(p, a + c, k * (b + d))
  {
    assert k * (b + d) == k * b + k * d;
    CongAdd(p, a, k * b, c, k * d);
  }

  lemma {:induction false} DotAffine(p: Positive, ws: seq<int>, vs: seq<int>, k: int, bs: seq<int>)
    requires |ws| == |vs| == |bs|
    requires forall i :: 0 <= i < |ws| ==> Cong(p, vs[i], k + bs[i])
    ensures Cong(p, Dot(ws, vs), k * Sum(ws) + Dot(ws, bs))
  {
    if ws == [] {
      assert k * 0 == 0;
      FromMultiple(p, 0, 0, 0);
    } else {
      DotAffine(p, ws[1..], vs[1..], k, bs[1..]);
      assert Ones(|ws|)[1..] == Ones(|ws[1..]|);
      assert Sum(ws) == ws[0] + Sum(ws[1..]);
      AddAffine(p, ws[0], vs[0], bs[0], k, Dot(ws[1..], vs[1..]), Sum(ws[1..]), Dot(ws[1..], bs[1..]));
    }
  }

  lemma {:induction false} AddAffine(p: Positive, w: int, v: int, b: int, k: int, dv: int, s: int, db: int)
    requires Cong(p, v, k + b) && Cong(p, dv, k * s + db)
    ensures Cong(p, w * v + dv, k * (w + s) + (w * b + db))
  {
    assert k * (w + s) == k * w + k * s;
    assert w * (v - (k + b)) == w * v - w * k - w * b;
    Combine(p, w * v + dv, k * (w + s) + (w * b + db), w, v, k + b, 1, dv, k * s + db);
  }

  // ---- Removing the first point ----

  lemma DenInvertible(p: int, xs: seq<int>, i: nat)
    requires Prime(p) && i < |xs| && DistinctMod(p, xs)
    ensures Invertible(p, DenOf(xs[i], Without(xs, i)))
  {
    var ys := Without(xs, i);
    forall j | 0 <= j < |ys| ensures Invertible(p, xs[i] - ys[j]) {
      DistinctInvertible(p, xs, i, if j < i then j else j + 1);
    }
    ProductInvertible(p, xs[i], ys);
  }

  lemma {:induction false} ProductInvertible(p: int, x: int, ys: seq<int>)
    requires Prime(p) && forall j :: 0 <= j < |ys| ==> Invertible(p, x - ys[j])
    ensures Invertible(p, DenOf(x, ys))
  {
    if ys == [] {
      SmallReduced(p, 1);
      PrimeInvertible(p, 1);
    } else {
      ProductInvertible(p, x, ys[1..]);
      InvertibleProduct(p, x - ys[0], DenOf(x, ys[1..]));
    }
  }

  lemma WithoutTail(xs: seq<int>, i: nat)
    requires 1 <= i < |xs|
    ensures Without(xs, i) == [xs[0]] + Without(xs[1..], i - 1)
  {
  }

  /** (x_i - c) * w_i == -c * u_i, where u are the weights once the first point c is gone. */
  lemma WeightHead(p: int, xs: seq<int>, ws: seq<int>, us: seq<int>, i: nat)
    requires Prime(p) && DistinctMod(p, xs) && 1 <= i < |xs|
    requires IsWeights(p, xs, ws) && IsWeights(p, xs[1..], us)
    ensures Cong(p, (xs[i] - xs[0]) * ws[i], -xs[0] * us[i - 1])
  {
    var c, x, w, u := xs[0], xs[i], ws[i], us[i - 1];
    var rest := Without(xs[1..], i - 1);
    var num, den := NumOf(rest), DenOf(x, rest);
    WithoutTail(xs, i);
    assert Without(xs, i)[1..] == rest;
    assert IsWeight(p, xs, i, w) && IsWeight(p, xs[1..], i - 1, u);
    assert xs[1..][i - 1] == x;
    assert DistinctMod(p, xs[1..]);
    DenInvertible(p, xs[1..], i - 1);
    WeightAlgebra(p, c, x, w, u, num, den);
    Cancel(p, den, (x - c) * w, -c * u);
  }

  lemma {:induction false} WeightAlgebra(p: Positive, c: int, x: int, w: int, u: int, num: int, den: int)
    requires Cong(p, w * ((x - c) * den), -c * num) && Cong(p, u * den, num)
    ensures Cong(p, den * ((x - c) * w), den * (-c * u))
  {
    assert den * ((x - c) * w) == w * ((x - c) * den);
    assert -c * (u * den - num) == den * (-c * u) - -c * num;
    Combine(p, den * ((x - c) * w), den * (-c * u), 1, w * ((x - c) * den), -c * num, c, u * den, num);
  }

  lemma {:induction false} HeadTerm(p: int, xs: seq<int>, ws: seq<int>, us: seq<int>, i: nat, q: int)
    requires Prime(p) && DistinctMod(p, xs) && 1 <= i < |xs|
    requires IsWeights(p, xs, ws) && IsWeights(p, xs[1..], us)
    ensures Cong(p, ws[i] * ((xs[i] - xs[0]) * q), -xs[0] * (us[i - 1] * q))
  {
    WeightHead(p, xs, ws, us, i);
    HeadAlgebra(p, ws[i], xs[i] - xs[0], q, -xs[0], us[i - 1]);
  }

  lemma {:induction false} HeadAlgebra(p: Positive, w: int, a: int, q: int, c: int, u: int)
    requires Cong(p, a * w, c * u)
    ensures Cong(p, w * (a * q), c * (u * q))
  {
    assert w * (a * q) - c * (u * q) == q * (a * w - c * u);
    Combine(p, w * (a * q), c * (u * q), q, a * w, c * u, 0, a * w, c * u);
  }

  lemma DotFirstZero(ws: seq<int>, vs: seq<int>)
    requires |ws| == |vs| > 0 && vs[0] == 0
    ensures Dot(ws, vs) == Dot(ws[1..], vs[1..])
  {
    assert ws[0] * 0 == 0;
  }

  /** The weighted sum of (x_i - c) * q_i is -c times the smaller weighted sum of q. */
  lemma DotHead(p: int, xs: seq<int>, ws: seq<int>, us: seq<int>, qs: seq<int>, bs: seq<int>)
    requires Prime(p) && xs != [] && DistinctMod(p, xs) && |qs| == |bs| == |xs|
    requires IsWeights(p, xs, ws) && IsWeights(p, xs[1..], us)
    requires forall i :: 0 <= i < |xs| ==> bs[i] == (xs[i] - xs[0]) * qs[i]
    ensures Cong(p, Dot(ws, bs), -xs[0] * Dot(us, qs[1..]))
  {
    forall i | 0 <= i < |us| ensures Cong(p, ws[1..][i] * bs[1..][i], -xs[0] * (us[i] * qs[1..][i])) {
      HeadTerm(p, xs, ws, us, i + 1, qs[i + 1]);
    }
    DotScaled(p, ws[1..], bs[1..], -xs[0], us, qs[1..]);
    assert bs[0] == 0 by { assert 0 * qs[0] == 0; }
    DotFirstZero(ws, bs);
  }

  lemma WeightsExist(p: int, xs: seq<int>) returns (ws: seq<int>)
    requires Prime(p) && DistinctMod(p, xs)
    ensures IsWeights(p, xs, ws)
  {
    ws := [];
    while |ws| < |xs|
      invariant |ws| <= |xs|
      invariant forall i :: 0 <= i < |ws| ==> IsWeight(p, xs, i, ws[i])
    {
      DenInvertible(p, xs, |ws|);
      var den := DenOf(xs[|ws|], Without(xs, |ws|));
      var w := Divide(p, den, NumOf(Without(xs, |ws|)));
      assert w * den == den * w;
      ws := ws + [w];
    }
  }

  // ---- The weights sum to one ----

  ghost function Swap(s: seq<int>): seq<int>
    requires |s| >= 2
  {
    [s[1], s[0]] + s[2..]
  }

  lemma {:induction false} SwapDistinct(p: Positive, xs: seq<int>)
    requires |xs| >= 2 && DistinctMod(p, xs)
    ensures DistinctMod(p, Swap(xs))
  {
    if Cong(p, xs[1], xs[0]) {
      CongSym(p, xs[1], xs[0]);
    }
  }

  lemma SwapWeights(p: Positive, xs: seq<int>, ws: seq<int>)
    requires |xs| >= 2 && IsWeights(p, xs, ws)
    ensures IsWeights(p, Swap(xs), Swap(ws))
  {
    var ys, vs := Swap(xs), Swap(ws);
    forall i | 0 <= i < |xs| ensures IsWeight(p, ys, i, vs[i]) {
      if i < 2 {
        assert IsWeight(p, xs, 1 - i, ws[1 - i]);
        assert Without(ys, i) == Without(xs, 1 - i);
      } else {
        assert IsWeight(p, xs, i, ws[i]);
        SwapProducts(xs, i);
      }
    }
  }

  lemma SwapProducts(xs: seq<int>, i: nat)
    requires 2 <= i < |xs|
    ensures NumOf(Without(Swap(xs), i)) == NumOf(Without(xs, i))
    ensures DenOf(xs[i], Without(Swap(xs), i)) == DenOf(xs[i], Without(xs, i))
  {
    var rest := xs[2..i] + xs[i + 1..];
    assert Without(xs, i) == [xs[0], xs[1]] + rest;
    assert Without(Swap(xs), i) == [xs[1], xs[0]] + rest;
    TwoFactors(xs[0], xs[1], xs[i], rest);
    TwoFactors(xs[1], xs[0], xs[i], rest);
    assert (-xs[0]) * (-xs[1]) == (-xs[1]) * (-xs[0]);
    assert (xs[i] - xs[0]) * (xs[i] - xs[1]) == (xs[i] - xs[1]) * (xs[i] - xs[0]);
  }

  lemma TwoFactors(a: int, b: int, x: int, rest: seq<int>)
    ensures NumOf([a, b] + rest) == (-a) * (-b) * NumOf(rest)
    ensures DenOf(x, [a, b] + rest) == (x - a) * (x - b) * DenOf(x, rest)
  {
    assert ([a, b] + rest)[1..] == [b] + rest;
    assert ([b] + rest)[1..] == rest;
    Associate(-a, -b, NumOf(rest));
    Associate(x - a, x - b, DenOf(x, rest));
  }

  lemma Associate(a: int, b: int, n: int)
    ensures a * (b * n) == a * b * n
  {
  }

  lemma SwapDot(ws: seq<int>, vs: seq<int>)
    requires |ws| == |vs| >= 2
    ensures Dot(Swap(ws), Swap(vs)) == Dot(ws, vs)
  {
    assert Swap(ws)[1..][1..] == ws[1..][1..];
    assert Swap(vs)[1..][1..] == vs[1..][1..];
  }

  lemma {:induction false} CenteredSum(p: int, xs: seq<int>, ws: seq<int>, us: seq<int>, bs: seq<int>)
    requires Prime(p) && xs != [] && DistinctMod(p, xs) && |bs| == |xs|
    requires IsWeights(p, xs, ws) && IsWeights(p, xs[1..], us)
    requires forall i :: 0 <= i < |xs| ==> bs[i] == xs[i] - xs[0]
    ensures Cong(p, Dot(ws, bs), -xs[0] * Sum(us))
  {
    assert Ones(|xs|)[1..] == Ones(|us|);
    DotHead(p, xs, ws, us, Ones(|xs|), bs);
  }

  /** The weighted sum of the points, from the sum of the weights, when the first point
      is removed from a set whose smaller weights sum to one. */
  lemma {:induction false} FirstMoment(p: int, xs: seq<int>, ws: seq<int>, us: seq<int>)
    requires Prime(p) && xs != [] && DistinctMod(p, xs)
    requires IsWeights(p, xs, ws) && IsWeights(p, xs[1..], us) && Cong(p, Sum(us), 1)
    ensures Cong(p, Dot(ws, xs), xs[0] * Sum(ws) - xs[0])
  {
    hide Cong;
    var c := xs[0];
    var bs := seq(|xs|, i requires 0 <= i < |xs| => xs[i] - c);
    CenteredSum(p, xs, ws, us, bs);
    DotShifted(p, ws, xs, c, bs);
    FirstMomentAlgebra(p, c, Dot(ws, xs), Sum(ws), Dot(ws, bs), Sum(us));
  }

  lemma {:induction false} DotShifted(p: Positive, ws: seq<int>, vs: seq<int>, k: int, bs: seq<int>)
    requires |ws| == |vs| == |bs|
    requires forall i :: 0 <= i < |ws| ==> vs[i] == k + bs[i]
    ensures Cong(p, Dot(ws, vs), k * Sum(ws) + Dot(ws, bs))
  {
    forall i | 0 <= i < |ws| ensures Cong(p, vs[i], k + bs[i]) {
      FromMultiple(p, vs[i], k + bs[i], 0);
    }
    DotAffine(p, ws, vs, k, bs);
  }

  lemma FirstMomentAlgebra(p: Positive, c: int, d: int, s: int, b: int, u: int)
    requires Cong(p, d, c * s + b) && Cong(p, b, -c * u) && Cong(p, u, 1)
    ensures Cong(p, d, c * s - c)
  {
    assert -c * (u - 1) == -c * u + c;
    Combine4(p, d, c * s - c, 1, d, c * s + b, 1, b, -c * u, -c, u, 1, 0, u, 1);
  }

  lemma {:induction false} WeightsSumToOne(p: int, xs: seq<int>, ws: seq<int>)
    requires Prime(p) && xs != [] && DistinctMod(p, xs) && IsWeights(p, xs, ws)
    ensures Cong(p, Sum(ws), 1)
    decreases |xs|
  {
    hide Cong;
    if |xs| == 1 {
      assert IsWeight(p, xs, 0, ws[0]);
      assert Without(xs, 0) == [];
      SingleDot(ws, Ones(1));
    } else {
      var ys, vs := Swap(xs), Swap(ws);
      SwapDistinct(p, xs);
      SwapWeights(p, xs, ws);
      assert DistinctMod(p, xs[1..]) && DistinctMod(p, ys[1..]);
      var us := WeightsExist(p, xs[1..]);
      WeightsSumToOne(p, xs[1..], us);
      FirstMoment(p, xs, ws, us);
      var ts := WeightsExist(p, ys[1..]);
      WeightsSumToOne(p, ys[1..], ts);
      FirstMoment(p, ys, vs, ts);
      SwapDot(ws, xs);
      SwapDot(ws, Ones(|ws|));
      assert Swap(Ones(|ws|)) == Ones(|vs|);
      var a, c, s, d := xs[1], xs[0], Sum(ws), Dot(ws, xs);
      assert (a - c) * s - (a - c) * 1 == 1 * (d - (c * s - c)) + (-1) * (d - (a * s - a)) by {
        assert (a - c) * s == a * s - c * s;
      }
      Combine(p, (a - c) * s, (a - c) * 1, 1, d, c * s - c, -1, d, a * s - a);
      DistinctInvertible(p, xs, 1, 0);
      Cancel(p, a - c, s, 1);
    }
  }

  // ---- The theorem ----

  /** If the smaller weights evaluate the quotient of f by X - c at zero, then the
      weights evaluate f at zero. */
  lemma AddPoint(p: int, xs: seq<int>, ws: seq<int>, us: seq<int>, f: seq<int>)
    requires Prime(p) && xs != [] && DistinctMod(p, xs)
    requires IsWeights(p, xs, ws) && IsWeights(p, xs[1..], us) && Cong(p, Sum(ws), 1)
    requires Cong(p, Dot(us, Values(p, Deflate(p, f, xs[0]), xs[1..])), Eval(p, Deflate(p, f, xs[0]), 0))
    ensures Cong(p, Dot(ws, Values(p, f, xs)), Eval(p, f, 0))
  {
    var c, q, vs := xs[0], Deflate(p, f, xs[0]), Values(p, f, xs);
    var qs := Values(p, q, xs);
    assert qs[1..] == Values(p, q, xs[1..]);
    var bs := seq(|xs|, i requires 0 <= i < |xs| => (xs[i] - c) * qs[i]);
    DotHead(p, xs, ws, us, qs, bs);
    forall i | 0 <= i < |xs| ensures Cong(p, vs[i], Eval(p, f, c) + bs[i]) {
      Remainder(p, f, c, xs[i]);
    }
    DotAffine(p, ws, vs, Eval(p, f, c), bs);
    Remainder(p, f, c, 0);
    Collect(p, c, Eval(p, f, c), Eval(p, f, 0), Eval(p, q, 0), Dot(ws, vs), Sum(ws), Dot(ws, bs), Dot(us, qs[1..]));
  }

  /** For every polynomial with at most |xs| coefficients. */
  lemma {:induction false} InterpolatesAtZero(p: int, xs: seq<int>, ws: seq<int>, f: seq<int>)
    requires Prime(p) && xs != [] && DistinctMod(p, xs) && IsWeights(p, xs, ws)
    requires |f| <= |xs|
    ensures Cong(p, Dot(ws, Values(p, f, xs)), Eval(p, f, 0))
    decreases |xs|
  {
    WeightsSumToOne(p, xs, ws);
    if |xs| == 1 {
      var v := Eval(p, f, xs[0]);
      ConstantValue(p, f, xs[0]);
      SingleDot(ws, Values(p, f, xs));
      SingleDot(ws, Ones(1));
      assert ws[0] * v - v == v * (ws[0] - 1);
      Combine(p, ws[0] * v, v, v, ws[0], 1, 0, ws[0], 1);
    } else {
      assert DistinctMod(p, xs[1..]);
      var us := WeightsExist(p, xs[1..]);
      InterpolatesAtZero(p, xs[1..], us, Deflate(p, f, xs[0]));
      AddPoint(p, xs, ws, us, f);
    }
  }

  lemma SingleDot(ws: seq<int>, vs: seq<int>)
    requires |ws| == |vs| == 1
    ensures Dot(ws, vs) == ws[0] * vs[0]
  {
    assert Dot(ws[1..], vs[1..]) == 0;
  }

  lemma ConstantValue(p: Positive, f: seq<int>, x: int)
    requires |f| <= 1
    ensures Eval(p, f, x) == Eval(p, f, 0)
  {
    assert f == [] || f[1..] == [];
    assert x * 0 == 0;
  }

  lemma {:induction false} Collect(p: Positive, c: int, fc: int, f0: int, q0: int, d: int, s: int, b: int, dq: int)
    requires Cong(p, d, fc * s + b) && Cong(p, s, 1) && Cong(p, b, -c * dq) && Cong(p, dq, q0)
    requires Cong(p, f0, fc + (0 - c) * q0)
    ensures Cong(p, d, f0)
  {
    CongSym(p, f0, fc + (0 - c) * q0);
    assert d - (fc - c * q0) == 1 * (d - (fc * s + b)) + fc * (s - 1) + 1 * (b - -c * dq) + (-c) * (dq - q0) by {
      assert fc * (s - 1) == fc * s - fc;
      assert -c * (dq - q0) == -c * dq + c * q0;
    }
    Combine4(p, d, fc - c * q0, 1, d, fc * s + b, fc, s, 1, 1, b, -c * dq, -c, dq, q0);
    CongTrans(p, d, fc + (0 - c) * q0, f0);
  }
}
