/** Congruence modulo p, and the one fact about primes that the escrow arithmetic
    rests on: modulo a prime, every number that is not a multiple has an inverse. */
module PrimeField {

  type Positive = x: int | 1 <= x witness 1

  ghost predicate Prime(p: int) {
    2 <= p && forall d :: 2 <= d < p ==> p % d != 0
  }

  /** d divides a; zero divides only zero. */
  ghost predicate Divides(d: int, a: int) {
    exists k :: Times(k, d) == a
  }

  ghost function Times(k: int, d: int): int { k * d }

  ghost predicate Cong(p: Positive, a: int, b: int) {
    (a - b) % p == 0
  }

  // ---- Euclidean division ----

  lemma {:induction false} DivModUnique(p: Positive, a: int, q: int, r: int)
    requires a == q * p + r && 0 <= r < p
    ensures a / p == q && a % p == r
  {
    var t := a / p - q;
    assert p * t == r - a % p by {
      assert a == p * (a / p) + a % p;
      assert p * t == p * (a / p) - p * q;
    }
    assert t >= 1 ==> p * t >= p;
    assert t <= -1 ==> p * t + p <= 0;
  }

  lemma {:induction false} FromMultiple(p: Positive, a: int, b: int, k: int)
    requires a - b == k * p
    ensures Cong(p, a, b)
  {
    DivModUnique(p, a - b, k, 0);
  }

  lemma ToMultiple(p: Positive, a: int, b: int) returns (k: int)
    requires Cong(p, a, b)
    ensures a - b == k * p
  {
    k := (a - b) / p;
  }

  /** Anything that is an integer combination of two congruences is a congruence. */
  lemma {:induction false} Combine(p: Positive, x: int, y: int, s: int, a: int, b: int, t: int, c: int, d: int)
    requires Cong(p, a, b) && Cong(p, c, d)
    requires x - y == s * (a - b) + t * (c - d)
    ensures Cong(p, x, y)
  {
    var k := ToMultiple(p, a, b);
    var l := ToMultiple(p, c, d);
    assert s * (k * p) + t * (l * p) == (s * k + t * l) * p;
    FromMultiple(p, x, y, s * k + t * l);
  }

  lemma {:induction false} Combine4(p: Positive, x: int, y: int, s: int, a: int, b: int, t: int, c: int, d: int,
                 u: int, e: int, f: int, v: int, g: int, h: int)
    requires Cong(p, a, b) && Cong(p, c, d) && Cong(p, e, f) && Cong(p, g, h)
    requires x - y == s * (a - b) + t * (c - d) + u * (e - f) + v * (g - h)
    ensures Cong(p, x, y)
  {
    Combine(p, s * (a - b) + t * (c - d), 0, s, a, b, t, c, d);
    Combine(p, u * (e - f) + v * (g - h), 0, u, e, f, v, g, h);
    Combine(p, x, y, 1, s * (a - b) + t * (c - d), 0, 1, u * (e - f) + v * (g - h), 0);
  }

  lemma {:induction false} CongSym(p: Positive, a: int, b: int)
    requires Cong(p, a, b)
    ensures Cong(p, b, a)
  {
    Combine(p, b, a, -1, a, b, 0, a, b);
  }

  lemma {:induction false} CongTrans(p: Positive, a: int, b: int, c: int)
    requires Cong(p, a, b) && Cong(p, b, c)
    ensures Cong(p, a, c)
  {
    Combine(p, a, c, 1, a, b, 1, b, c);
  }

  lemma {:induction false} CongAdd(p: Positive, a: int, b: int, c: int, d: int)
    requires Cong(p, a, b) && Cong(p, c, d)
    ensures Cong(p, a + c, b + d)
  {
    Combine(p, a + c, b + d, 1, a, b, 1, c, d);
  }

  lemma {:induction false} CongMul(p: Positive, a: int, b: int, c: int, d: int)
    requires Cong(p, a, b) && Cong(p, c, d)
    ensures Cong(p, a * c, b * d)
  {
    assert a * c - b * d == c * (a - b) + b * (c - d);
    Combine(p, a * c, b * d, c, a, b, b, c, d);
  }

  lemma CongMod(p: Positive, a: int)
    ensures Cong(p, a % p, a) && Cong(p, a, a % p)
  {
    assert a == p * (a / p) + a % p;
    FromMultiple(p, a, a % p, a / p);
    CongSym(p, a, a % p);
  }

  lemma {:induction false} CongReduced(p: Positive, a: int, b: int)
    requires Cong(p, a, b)
    ensures a % p == b % p
  {
    var k := ToMultiple(p, a, b);
    assert a == (k + b / p) * p + b % p by {
      assert b == p * (b / p) + b % p;
      assert (k + b / p) * p == k * p + (b / p) * p;
    }
    DivModUnique(p, a, k + b / p, b % p);
  }

  lemma {:induction false} CongFromReduced(p: Positive, a: int, b: int)
    requires a % p == b % p
    ensures Cong(p, a, b)
  {
    CongMod(p, a);
    CongMod(p, b);
    CongTrans(p, a, a % p, b);
  }

  lemma SmallReduced(p: Positive, a: int)
    requires 0 <= a < p
    ensures a % p == a
  {
    DivModUnique(p, a, 0, a);
  }

  // ---- Divisibility ----

  lemma DividesCombination(d: int, a: int, b: int, s: int, t: int)
    requires Divides(d, a) && Divides(d, b)
    ensures Divides(d, s * a + t * b)
  {
    var k :| Times(k, d) == a;
    var l :| Times(l, d) == b;
    assert Times(s * k + t * l, d) == s * a + t * b by {
      assert s * (k * d) + t * (l * d) == (s * k + t * l) * d;
    }
  }

  lemma {:induction false} DividesMod(d: Positive, a: int)
    ensures Divides(d, a) <==> a % d == 0
  {
    if a % d == 0 {
      assert Times(a / d, d) == a;
    }
    if Divides(d, a) {
      var k :| Times(k, d) == a;
      DivModUnique(d, a, k, 0);
    }
  }

  /** The greatest common divisor, up to sign: a common divisor that every other
      common divisor divides. */
  ghost predicate IsGcd(g: int, a: int, b: int) {
    && Divides(g, a)
    && Divides(g, b)
    && forall d :: Divides(d, a) && Divides(d, b) ==> Divides(d, g)
  }

  /** A positive common divisor of k and a prime p is 1 or a multiple of p. */
  lemma PrimeCommonDivisor(p: int, k: int, g: int)
    requires Prime(p) && 0 <= g && Divides(g, k) && Divides(g, p)
    ensures g == 1 || (g == p && k % p == 0)
  {
    var q :| Times(q, g) == p;
    assert g != 0;
    assert 1 <= g <= p by {
      assert q >= 1 ==> q * g >= g;
      assert q <= 0 ==> q * g <= 0;
    }
    DividesMod(g, p);
    DividesMod(g, k);
  }

  // ---- The field ----

  ghost predicate IsInverse(p: Positive, k: int, r: int) {
    0 <= r < p && Cong(p, k * r, 1)
  }

  ghost predicate Invertible(p: Positive, k: int) {
    exists r :: IsInverse(p, k, r)
  }

  lemma {:induction false} InverseUnique(p: Positive, k: int, r: int, s: int)
    requires IsInverse(p, k, r) && IsInverse(p, k, s)
    ensures r == s
  {
    // s == s * (k * r) == r * (k * s) == r
    Combine(p, r, s, -r, k * s, 1, s, k * r, 1) by {
      assert -r * (k * s - 1) + s * (k * r - 1) == r - s;
    }
    CongReduced(p, r, s);
    SmallReduced(p, r);
    SmallReduced(p, s);
  }

  /** Multiplication by something invertible can be cancelled. */
  lemma {:induction false} Cancel(p: Positive, k: int, a: int, b: int)
    requires Invertible(p, k) && Cong(p, k * a, k * b)
    ensures Cong(p, a, b)
  {
    var r :| IsInverse(p, k, r);
    assert a - b == -(a - b) * (k * r - 1) + r * (k * a - k * b) by {
      assert r * (k * a - k * b) == (a - b) * (k * r);
    }
    Combine(p, a, b, -(a - b), k * r, 1, r, k * a, k * b);
  }

  lemma InvertibleProduct(p: Positive, a: int, b: int)
    requires Invertible(p, a) && Invertible(p, b)
    ensures Invertible(p, a * b)
  {
    var r :| IsInverse(p, a, r);
    var s :| IsInverse(p, b, s);
    CongMul(p, a * r, 1, b * s, 1);
    CongMod(p, r * s);
    CongMul(p, a * b, a * b, (r * s) % p, r * s);
    assert (a * b) * (r * s) == (a * r) * (b * s);
    CongTrans(p, (a * b) * ((r * s) % p), (a * b) * (r * s), 1);
    assert IsInverse(p, a * b, (r * s) % p);
  }

  /** A Bezout identity k*x + p*y == 1 makes x, reduced, the inverse of k. */
  lemma {:induction false} BezoutInverse(p: Positive, k: int, x: int, y: int)
    requires k * x + p * y == 1
    ensures IsInverse(p, k, x % p)
  {
    FromMultiple(p, k * x, 1, -y);
    CongMod(p, x);
    CongMul(p, k, k, x % p, x);
    CongTrans(p, k * (x % p), k * x, 1);
  }

  /** Whatever has an inverse modulo p > 1 is not a multiple of p. */
  lemma {:induction false} InvertibleNonzero(p: int, k: int)
    requires p > 1 && Invertible(p, k)
    ensures k % p != 0
  {
    if k % p == 0 {
      var r :| IsInverse(p, k, r);
      CongFromReduced(p, k, 0) by { SmallReduced(p, 0); }
      CongMul(p, k, 0, r, r);
      CongSym(p, k * r, 0);
      CongTrans(p, 0, k * r, 1);
      CongReduced(p, 0, 1);
      SmallReduced(p, 0);
      SmallReduced(p, 1);
    }
  }

  /** Bezout coefficients of a and b, computed as the extended Euclid recursion does. */
  lemma Bezout(a: nat, b: nat) returns (g: nat, x: int, y: int)
    ensures IsGcd(g, a, b) && a * x + b * y == g
    decreases b
  {
    if b == 0 {
      g, x, y := a, 1, 0;
      assert Times(1, a) == a && Times(0, a) == 0;
    } else {
      var g', x', y' := Bezout(b, a % b);
      g, x, y := g', y', x' - (a / b) * y';
      assert a * x + b * y == g by {
        assert a == b * (a / b) + a % b;
        assert a * y' == (b * (a / b)) * y' + (a % b) * y';
        assert b * ((a / b) * y') == (b * (a / b)) * y';
      }
      GcdStep(g, a, b, a / b, a % b);
    }
  }

  lemma GcdStep(g: int, a: int, b: int, q: int, r: int)
    requires a == q * b + r
    ensures IsGcd(g, b, r) <==> IsGcd(g, a, b)
  {
    forall d ensures Divides(d, b) && Divides(d, r) <==> Divides(d, a) && Divides(d, b) {
      if Divides(d, b) && Divides(d, r) {
        DividesCombination(d, b, r, q, 1);
      }
      if Divides(d, a) && Divides(d, b) {
        DividesCombination(d, a, b, 1, -q);
      }
    }
  }

  /** Modulo a prime, exactly the non-multiples are invertible. */
  lemma PrimeInvertible(p: int, k: int)
    requires Prime(p)
    ensures Invertible(p, k) <==> k % p != 0
  {
    if Invertible(p, k) {
      InvertibleNonzero(p, k);
    }
    if k % p != 0 {
      var g, x, y := Bezout(k % p, p);
      PrimeCommonDivisor(p, k % p, g);
      SmallReduced(p, k % p);
      BezoutInverse(p, k % p, x, y);
      CongMod(p, k);
      CongMul(p, k, k % p, x % p, x % p);
      CongTrans(p, k * (x % p), (k % p) * (x % p), 1);
      assert IsInverse(p, k, x % p);
    }
  }
}
