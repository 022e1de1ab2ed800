/** koot/plugins/shamir_escrow.py: splitting a key into shares and rebuilding it,
    over the integers modulo a prime p. */
module ShamirEscrow {
  import opened Bytes
  import opened PrimeField
  import opened Polynomials
  import opened Lagrange

  datatype Share = Share(x: int, y: Bytes)

  datatype SplitError = ThresholdTooLarge | SecretTooLarge

  datatype InverseError = DivisionByZero | NotInvertible

  datatype ReconstructError = NoShares | NoInverse | NegativeLength | ExceedsLength

  const SHARE_LENGTH: nat := 66

  /** 2^521 - 1, the field the plugin fixes. Its primality is not proved here: every
      result below is about any prime p that fits a share, and PRIME does. */
  ghost const PRIME: int := 2 * Pow256(65) - 1

  /** The field is that of 2^521 - 1, its elements fit a share, and every key of up to 65 bytes is one. */
  lemma FieldSize(secret: Bytes)
    ensures PRIME == Pow2(521) - 1
    ensures PRIME <= Pow256(SHARE_LENGTH)
    ensures |secret| <= 65 ==> FromBytes(secret) < PRIME
  {
    FromBytesBound(secret);
    EightBits(65);
    assert Pow2(521) == 2 * Pow2(520);
    if |secret| <= 65 {
      Pow256Monotone(|secret|, 65);
    }
  }

  // ---- Python's floor division ----

  function FloorDiv(a: int, b: int): int
    requires b != 0
  {
    if b > 0 then a / b else (-a) / (-b)
  }

  function FloorMod(a: int, b: int): (r: int)
    requires b != 0
    ensures b > 0 ==> 0 <= r < b && r == a % b
    ensures b < 0 ==> b < r <= 0
    ensures a == b * FloorDiv(a, b) + r
  {
    if b > 0 then a % b else -((-a) % (-b))
  }

  function Abs(a: int): nat { if a < 0 then -a else a }

  // ---- Evaluation and inverse ----

  method EvalAt(p: Positive, poly: seq<int>, x: int) returns (result: int)
    ensures result == Eval(p, poly, x)
  {
    result := 0;
    var i := |poly|;
    while i > 0
      invariant 0 <= i <= |poly|
      invariant result == Eval(p, poly[i..], x)
    {
      i := i - 1;
      assert poly[i..][1..] == poly[i + 1..];
      assert x * result == result * x;
      result := (result * x + poly[i]) % p;
    }
    assert poly[0..] == poly;
  }

  method ExtendedGcd(a: int, b: int) returns (g: int, x: int, y: int)
    ensures IsGcd(g, a, b) && a * x + b * y == g
    ensures a >= 0 && b >= 0 ==> g >= 0
    ensures b < 0 ==> g < 0
  {
    var c, d := a, b;
    var x0, x1, y0, y1 := 1, 0, 0, 1;
    while d != 0
      invariant a * x0 + b * y0 == c && a * x1 + b * y1 == d
      invariant forall e :: IsGcd(e, c, d) <==> IsGcd(e, a, b)
      invariant a >= 0 && b >= 0 ==> c >= 0 && d >= 0
      invariant b < 0 ==> d < 0 || (c < 0 && d == 0)
      decreases Abs(d)
    {
      var q := FloorDiv(c, d);
      var r := FloorMod(c, d);
      BezoutStep(a, b, q, c, d, x0, y0, x1, y1);
      forall e ensures IsGcd(e, d, r) <==> IsGcd(e, a, b) {
        GcdStep(e, c, d, q, r) by { assert d * q == q * d; }
      }
      c, d := d, r;
      x0, x1 := x1, x0 - q * x1;
      y0, y1 := y1, y0 - q * y1;
    }
    g, x, y := c, x0, y0;
    assert Times(1, c) == c && Times(0, c) == 0;
  }

  lemma BezoutStep(a: int, b: int, q: int, c: int, d: int, x0: int, y0: int, x1: int, y1: int)
    requires a * x0 + b * y0 == c && a * x1 + b * y1 == d
    ensures a * (x0 - q * x1) + b * (y0 - q * y1) == c - d * q
  {
    assert a * (x0 - q * x1) == a * x0 - q * (a * x1);
    assert b * (y0 - q * y1) == b * y0 - q * (b * y1);
    assert q * (a * x1) + q * (b * y1) == q * (a * x1 + b * y1);
  }

  /** For a positive modulus the inverse exactly when there is one. A negative modulus is always
      refused, since the divisor found is then negative. */
  method ModInverse(k: int, p: int) returns (r: Result<int, InverseError>)
    ensures r == Err(DivisionByZero) <==> p == 0
    ensures r.Ok? <==> p > 0 && Invertible(p, k)
    ensures r.Ok? ==> IsInverse(p, k, r.value) && forall s :: IsInverse(p, k, s) ==> s == r.value
  {
    hide Cong, IsGcd;
    if p == 0 {
      return Err(DivisionByZero);
    }
    var k' := FloorMod(k, p);
    if k' < 0 {
      k' := k' + p;
    }
    var gcd, x, y := ExtendedGcd(k', p);
    if p > 0 {
      CongMod(p, k);
    }
    if gcd != 1 {
      if p > 0 && Invertible(p, k) {
        InvertibleGcd(p, k, k', gcd);
      }
      return Err(NotInvertible);
    }
    var inverse := FloorMod(FloorMod(x, p) + p, p);
    InverseFromBezout(p, k, k', x, y);
    assert Invertible(p, k);
    forall s | IsInverse(p, k, s) ensures s == inverse {
      InverseUnique(p, k, s, inverse);
    }
    return Ok(inverse);
  }

  lemma {:induction false} InverseFromBezout(p: Positive, k: int, k': int, x: int, y: int)
    requires Cong(p, k, k') && k' * x + p * y == 1
    ensures IsInverse(p, k, (x % p + p) % p)
  {
    hide Cong;
    BezoutInverse(p, k', x, y);
    DivModUnique(p, x % p + p, 1, x % p);
    var r := x % p;
    FromMultiple(p, r, r, 0);
    CongMul(p, k, k', r, r);
    CongTrans(p, k * r, k' * r, 1);
  }

  /** What is invertible has no common divisor with the modulus. */
  lemma {:induction false} InvertibleGcd(p: Positive, k: int, k': int, g: nat)
    requires Invertible(p, k) && Cong(p, k, k') && IsGcd(g, k', p)
    ensures g == 1
  {
    var r :| IsInverse(p, k, r);
    var s := ToMultiple(p, k * r, 1);
    var t := ToMultiple(p, k, k');
    assert r * k' + (t * r - s) * p == 1 by {
      assert k * r == k' * r + (t * p) * r;
      assert (t * p) * r - s * p == (t * r - s) * p;
    }
    DividesCombination(g, k', p, r, t * r - s);
    var q :| Times(q, g) == 1;
    assert q >= 1 ==> q * g >= g;
    assert q <= 0 ==> q * g <= 0;
    assert g == 0 ==> q * g == 0;
  }

  // ---- Splitting ----

  /** The polynomial whose constant term is the secret. */
  function SecretPoly(secret: Bytes, coeffs: seq<int>): seq<int> {
    [FromBytes(secret)] + coeffs
  }

  function ShareAt(p: Positive, poly: seq<int>, x: int): Share {
    Share(x, ToBytes(Eval(p, poly, x), SHARE_LENGTH))
  }

  /** How many random coefficients range(m - 1) draws. */
  function CoeffCount(m: int): nat { if m <= 1 then 0 else m - 1 }

  method SplitKey(p: Positive, secret: Bytes, n: int, m: int, coeffs: seq<int>)
      returns (r: Result<seq<Share>, SplitError>)
    requires p <= Pow256(SHARE_LENGTH)
    requires |coeffs| == CoeffCount(m) && Reduced(p, coeffs)
    ensures m > n <==> r == Err(ThresholdTooLarge)
    ensures m <= n && FromBytes(secret) >= p <==> r == Err(SecretTooLarge)
    ensures r.Ok? <==> m <= n && FromBytes(secret) < p
    ensures r.Ok? ==> |r.value| == if n < 0 then 0 else n
    ensures r.Ok? ==> forall i :: 0 <= i < n ==> r.value[i] == ShareAt(p, SecretPoly(secret, coeffs), i + 1)
    ensures r.Ok? ==> forall i :: 0 <= i < n ==>
              && r.value[i].x == i + 1 && |r.value[i].y| == 66
              && FromBytes(r.value[i].y) == Eval(p, [FromBytes(secret)] + coeffs, i + 1)
  {
    hide Eval, FromBytes, ToBytes, Pow256;
    if m > n {
      return Err(ThresholdTooLarge);
    }
    var secretInt := FromBytes(secret);
    if secretInt >= p {
      return Err(SecretTooLarge);
    }
    var poly := [secretInt] + coeffs;
    assert poly == SecretPoly(secret, coeffs);
    var shares: seq<Share> := [];
    var i := 1;
    while i < n + 1
      invariant 1 <= i && (i <= n + 1 || n < 0) && (n < 0 ==> i == 1)
      invariant |shares| == i - 1
      invariant forall j :: 0 <= j < i - 1 ==> shares[j] == ShareAt(p, poly, j + 1)
      invariant forall j :: 0 <= j < i - 1 ==> FromBytes(shares[j].y) == Eval(p, poly, j + 1)
    {
      var y := EvalAt(p, poly, i);
      EvalReduced(p, poly, i);
      FromToBytes(y, SHARE_LENGTH);
      shares := shares + [Share(i, ToBytes(y, SHARE_LENGTH))];
      i := i + 1;
    }
    return Ok(shares);
  }

  // ---- Rebuilding ----

  ghost function Xs(shares: seq<Share>): seq<int> {
    seq(|shares|, i requires 0 <= i < |shares| => shares[i].x)
  }

  ghost function Ys(shares: seq<Share>): seq<int> {
    seq(|shares|, i requires 0 <= i < |shares| => FromBytes(shares[i].y))
  }

  /** v is the value at zero of some polynomial through the shares with no more
      coefficients than there are shares. For distinct x there is exactly one such v:
      see ValueExists and ValueUnique. */
  ghost predicate IsValueAtZero(p: Positive, shares: seq<Share>, v: int) {
    exists f :: InterpolatingPoly(p, shares, f) && v == Eval(p, f, 0)
  }

  ghost predicate InterpolatingPoly(p: Positive, shares: seq<Share>, f: seq<int>) {
    |f| <= |shares| && Through(p, f, Xs(shares), Ys(shares))
  }

  /** The byte string denotes the value at zero. */
  ghost predicate Denotes(p: Positive, shares: seq<Share>, key: Bytes) {
    IsValueAtZero(p, shares, FromBytes(key))
  }

  /** A key that is returned has the expected length and denotes the value at zero, and there is none
      exactly when no string of that length does. */
  method ReconstructKey(p: int, shares: seq<Share>, expectedLength: int)
      returns (r: Result<Bytes, ReconstructError>)
    requires Prime(p)
    ensures r == Err(NoShares) <==> shares == []
    ensures r == Err(NoInverse) <==> shares != [] && !DistinctMod(p, Xs(shares))
    ensures shares != [] && DistinctMod(p, Xs(shares)) ==>
              && (r == Err(NegativeLength) <==> expectedLength < 0)
              && (r == Err(ExceedsLength) <==>
                    expectedLength >= 0 && forall key: Bytes :: |key| == expectedLength ==> !Denotes(p, shares, key))
    ensures r.Ok? ==> |r.value| == expectedLength && Denotes(p, shares, r.value)
  {
    if shares == [] {
      return Err(NoShares);
    }
    ghost var ws: seq<int> := [];
    var secretInt := 0;
    var i := 0;
    FromMultiple(p, 0, 0, 0);
    while i < |shares|
      invariant PartialSum(p, shares, i, ws, secretInt)
    {
      var yi := FromBytes(shares[i].y);
      var numerator, denominator := BasisTerms(p, shares, i);
      var inverse := ModInverse(denominator, p);
      DenominatorInvertible(p, Xs(shares), i, denominator);
      if inverse.Err? {
        NotAlone(p, Xs(shares), i);
        return Err(NoInverse);
      }
      var lagrangePoly := (numerator * inverse.value) % p;
      PartialSumStep(p, shares, i, ws, secretInt, numerator, denominator, inverse.value);
      secretInt := (p + secretInt + yi * lagrangePoly) % p;
      ws := ws + [lagrangePoly];
      i := i + 1;
    }
    PartialSumDone(p, shares, ws, secretInt);
    if expectedLength < 0 {
      return Err(NegativeLength);
    }
    if secretInt >= Pow256(expectedLength) {
      TooLarge(p, shares, secretInt, expectedLength);
      return Err(ExceedsLength);
    }
    FromToBytes(secretInt, expectedLength);
    assert Denotes(p, shares, ToBytes(secretInt, expectedLength));
    return Ok(ToBytes(secretInt, expectedLength));
  }

  lemma {:induction false} TooLarge(p: int, shares: seq<Share>, v: nat, length: nat)
    requires Prime(p) && shares != [] && DistinctMod(p, Xs(shares)) && IsValueAtZero(p, shares, v)
    requires v >= Pow256(length)
    ensures forall key: Bytes :: |key| == length ==> !Denotes(p, shares, key)
  {
    forall key: Bytes | |key| == length ensures !Denotes(p, shares, key) {
      FromBytesBound(key);
      if Denotes(p, shares, key) {
        OneValue(p, shares, v, FromBytes(key));
      }
    }
  }

  lemma {:induction false} OneValue(p: int, shares: seq<Share>, v: int, w: int)
    requires Prime(p) && shares != [] && DistinctMod(p, Xs(shares))
    requires IsValueAtZero(p, shares, v) && IsValueAtZero(p, shares, w)
    ensures v == w
  {
    var f :| InterpolatingPoly(p, shares, f) && v == Eval(p, f, 0);
    var g :| InterpolatingPoly(p, shares, g) && w == Eval(p, g, 0);
    ValueUnique(p, shares, f, g);
  }

  ghost predicate Alone(p: Positive, xs: seq<int>, i: nat)
    requires i < |xs|
  {
    forall l :: 0 <= l < |xs| && l != i ==> !Cong(p, xs[i], xs[l])
  }

  /** After i shares, s is the sum of the first i weighted values. */
  ghost predicate PartialSum(p: Positive, shares: seq<Share>, i: nat, ws: seq<int>, s: int) {
    && |ws| == i <= |shares|
    && (forall k :: 0 <= k < i ==> IsWeight(p, Xs(shares), k, ws[k]))
    && (forall k :: 0 <= k < i ==> Alone(p, Xs(shares), k))
    && 0 <= s < p
    && Cong(p, s, Dot(ws, Ys(shares)[..i]))
  }

  lemma {:induction false} PartialSumStep(p: int, shares: seq<Share>, i: nat, ws: seq<int>, s: int,
                                          num: int, den: int, inv: int)
    requires Prime(p) && i < |shares| && PartialSum(p, shares, i, ws, s)
    requires IsInverse(p, den, inv) && Alone(p, Xs(shares), i)
    requires Cong(p, num, NumOf(Without(Xs(shares), i)))
    requires Cong(p, den, DenOf(shares[i].x, Without(Xs(shares), i)))
    ensures var w := (num * inv) % p;
            PartialSum(p, shares, i + 1, ws + [w], (p + s + FromBytes(shares[i].y) * w) % p)
  {
    LagrangeWeight(p, Xs(shares), i, num, den, inv);
    NextSum(p, ws, (num * inv) % p, Ys(shares), i, s);
  }

  lemma PartialSumDone(p: int, shares: seq<Share>, ws: seq<int>, s: int)
    requires Prime(p) && shares != [] && PartialSum(p, shares, |shares|, ws, s)
    ensures DistinctMod(p, Xs(shares)) && IsValueAtZero(p, shares, s)
  {
    var xs := Xs(shares);
    forall i, j | 0 <= i < j < |xs| ensures !Cong(p, xs[i], xs[j]) {
      assert Alone(p, xs, i);
    }
    assert Ys(shares)[..|shares|] == Ys(shares);
    SumIsValueAtZero(p, shares, ws, s);
  }

  lemma {:induction false} NotAlone(p: Positive, xs: seq<int>, i: nat)
    requires i < |xs| && !Alone(p, xs, i)
    ensures !DistinctMod(p, xs)
  {
    var l :| 0 <= l < |xs| && l != i && Cong(p, xs[i], xs[l]);
    CongSym(p, xs[i], xs[l]);
  }

  /** The inner loop: the products over the other shares. */
  method BasisTerms(p: int, shares: seq<Share>, i: nat) returns (numerator: int, denominator: int)
    requires Prime(p) && i < |shares|
    ensures Cong(p, numerator, NumOf(Without(Xs(shares), i)))
    ensures Cong(p, denominator, DenOf(shares[i].x, Without(Xs(shares), i)))
  {
    hide Cong, NumOf, DenOf, Without, Seen;
    ghost var xs := Xs(shares);
    var xi := shares[i].x;
    NothingSeen(xs, xi, i);
    numerator, denominator := 1, 1;
    ghost var seen: seq<int> := [];
    var j := 0;
    FromMultiple(p, 1, 1, 0);
    while j < |shares|
      invariant 0 <= j <= |shares|
      invariant seen == Seen(xs, i, j)
      invariant Cong(p, numerator, NumOf(seen)) && Cong(p, denominator, DenOf(xi, seen))
    {
      SeenStep(xs, i, j);
      if i != j {
        var xj := shares[j].x;
        NumAppend(seen, xj);
        DenAppend(xi, seen, xj);
        NextProduct(p, numerator, NumOf(seen), -xj);
        NextProduct(p, denominator, DenOf(xi, seen), xi - xj);
        numerator := (numerator * -xj) % p;
        denominator := (denominator * (xi - xj)) % p;
        seen := seen + [xj];
      }
      j := j + 1;
    }
  }

  /** The others among the first j. */
  ghost function Seen(xs: seq<int>, i: nat, j: nat): seq<int>
    requires i < |xs| && j <= |xs|
  {
    if j <= i then xs[..j] else xs[..i] + xs[i + 1..j]
  }

  lemma NothingSeen(xs: seq<int>, x: int, i: nat)
    requires i < |xs|
    ensures Seen(xs, i, 0) == [] && NumOf([]) == 1 && DenOf(x, []) == 1
    ensures Seen(xs, i, |xs|) == Without(xs, i)
  {
  }

  lemma SeenStep(xs: seq<int>, i: nat, j: nat)
    requires i < |xs| && j < |xs|
    ensures Seen(xs, i, j + 1) == if i == j then Seen(xs, i, j) else Seen(xs, i, j) + [xs[j]]
  {
  }

  lemma {:induction false} NumAppend(ys: seq<int>, y: int)
    ensures NumOf(ys + [y]) == NumOf(ys) * -y
  {
    if ys == [] {
      assert (ys + [y])[1..] == [];
    } else {
      NumAppend(ys[1..], y);
      assert (ys + [y])[1..] == ys[1..] + [y];
      Associate(-ys[0], NumOf(ys[1..]), -y);
    }
  }

  lemma {:induction false} DenAppend(x: int, ys: seq<int>, y: int)
    ensures DenOf(x, ys + [y]) == DenOf(x, ys) * (x - y)
  {
    if ys == [] {
      assert (ys + [y])[1..] == [];
    } else {
      DenAppend(x, ys[1..], y);
      assert (ys + [y])[1..] == ys[1..] + [y];
      Associate(x - ys[0], DenOf(x, ys[1..]), x - y);
    }
  }

  lemma {:induction false} NextProduct(p: Positive, a: int, b: int, k: int)
    requires Cong(p, a, b)
    ensures Cong(p, (a * k) % p, b * k)
  {
    FromMultiple(p, k, k, 0);
    CongMul(p, a, b, k, k);
    CongMod(p, a * k);
    CongTrans(p, (a * k) % p, a * k, b * k);
  }

  /** The denominator of share i is invertible exactly when no other x is congruent to x_i. */
  lemma DenominatorInvertible(p: int, xs: seq<int>, i: nat, d: int)
    requires Prime(p) && i < |xs| && Cong(p, d, DenOf(xs[i], Without(xs, i)))
    ensures Invertible(p, d) <==> Alone(p, xs, i)
  {
    var ys := Without(xs, i);
    CongReduced(p, d, DenOf(xs[i], ys));
    DenNonzero(p, xs[i], ys);
    PrimeInvertible(p, DenOf(xs[i], ys));
    PrimeInvertible(p, d);
    if l :| 0 <= l < |xs| && l != i && Cong(p, xs[i], xs[l]) {
      assert ys[if l < i then l else l - 1] == xs[l];
    }
    if l :| 0 <= l < |ys| && Cong(p, xs[i], ys[l]) {
      assert xs[if l < i then l else l + 1] == ys[l];
    }
  }

  lemma {:induction false} DenNonzero(p: int, x: int, ys: seq<int>)
    requires Prime(p)
    ensures Invertible(p, DenOf(x, ys)) <==> forall l :: 0 <= l < |ys| ==> !Cong(p, x, ys[l])
  {
    if l :| 0 <= l < |ys| && Cong(p, x, ys[l]) {
      DenZero(p, x, ys, l);
      PrimeInvertible(p, DenOf(x, ys));
    } else {
      forall l | 0 <= l < |ys| ensures Invertible(p, x - ys[l]) {
        PrimeInvertible(p, x - ys[l]);
      }
      ProductInvertible(p, x, ys);
    }
  }

  lemma {:induction false} DenZero(p: int, x: int, ys: seq<int>, l: nat)
    requires Prime(p) && l < |ys| && Cong(p, x, ys[l])
    ensures DenOf(x, ys) % p == 0
  {
    var rest := DenOf(x, ys[1..]);
    if l == 0 {
      CongMul(p, x - ys[0], 0, rest, rest) by { FromMultiple(p, rest, rest, 0); }
    } else {
      DenZero(p, x, ys[1..], l - 1);
      CongMul(p, x - ys[0], x - ys[0], rest, 0) by { FromMultiple(p, x - ys[0], x - ys[0], 0); }
    }
  }

  lemma {:induction false} LagrangeWeight(p: int, xs: seq<int>, i: nat, num: int, den: int, inv: int)
    requires Prime(p) && i < |xs| && IsInverse(p, den, inv)
    requires Cong(p, num, NumOf(Without(xs, i))) && Cong(p, den, DenOf(xs[i], Without(xs, i)))
    ensures IsWeight(p, xs, i, (num * inv) % p)
  {
    var n, d := NumOf(Without(xs, i)), DenOf(xs[i], Without(xs, i));
    var w := (num * inv) % p;
    CongMod(p, num * inv);
    WeightFromInverse(p, w, num, inv, den, n, d);
  }

  lemma {:induction false} WeightFromInverse(p: Positive, w: int, num: int, inv: int, den: int, n: int, d: int)
    requires Cong(p, w, num * inv) && Cong(p, den * inv, 1) && Cong(p, num, n) && Cong(p, den, d)
    ensures Cong(p, w * d, n)
  {
    assert w * d - n == d * (w - num * inv) + (-num * inv) * (den - d) + num * (den * inv - 1) + 1 * (num - n) by {
      assert num * (den * inv) == (num * inv) * den;
    }
    Combine4(p, w * d, n, d, w, num * inv, -num * inv, den, d, num, den * inv, 1, 1, num, n);
  }

  lemma NextSum(p: Positive, ws: seq<int>, w: int, ys: seq<int>, i: nat, s: int)
    requires |ws| == i < |ys| && Cong(p, s, Dot(ws, ys[..i]))
    ensures Cong(p, (p + s + ys[i] * w) % p, Dot(ws + [w], ys[..i + 1]))
  {
    DotAppend(ws, w, ys[..i], ys[i]);
    assert ys[..i] + [ys[i]] == ys[..i + 1];
    var t := p + s + ys[i] * w;
    CongMod(p, t);
    FromMultiple(p, p, 0, 1);
    Combine(p, t, Dot(ws, ys[..i]) + w * ys[i], 1, s, Dot(ws, ys[..i]), 1, p, 0);
    CongTrans(p, t % p, t, Dot(ws + [w], ys[..i + 1]));
  }

  lemma {:induction false} DotAppend(ws: seq<int>, w: int, vs: seq<int>, v: int)
    requires |ws| == |vs|
    ensures Dot(ws + [w], vs + [v]) == Dot(ws, vs) + w * v
  {
    if ws == [] {
      assert (ws + [w])[1..] == [] && (vs + [v])[1..] == [];
    } else {
      DotAppend(ws[1..], w, vs[1..], v);
      assert (ws + [w])[1..] == ws[1..] + [w] && (vs + [v])[1..] == vs[1..] + [v];
    }
  }

  /** The weighted sum of the shares' values is the value at zero of any polynomial
      through the shares that is short enough. */
  lemma {:induction false} SumIsPolyAtZero(p: int, shares: seq<Share>, ws: seq<int>, s: int, f: seq<int>)
    requires Prime(p) && shares != [] && DistinctMod(p, Xs(shares)) && IsWeights(p, Xs(shares), ws)
    requires 0 <= s < p && Cong(p, s, Dot(ws, Ys(shares))) && InterpolatingPoly(p, shares, f)
    ensures s == Eval(p, f, 0)
  {
    var xs, ys := Xs(shares), Ys(shares);
    InterpolatesAtZero(p, xs, ws, f);
    DotSameValues(p, ws, ys, Values(p, f, xs));
    CongTrans(p, s, Dot(ws, ys), Dot(ws, Values(p, f, xs)));
    CongTrans(p, s, Dot(ws, Values(p, f, xs)), Eval(p, f, 0));
    EvalReduced(p, f, 0);
    CongReduced(p, s, Eval(p, f, 0));
    SmallReduced(p, s);
    SmallReduced(p, Eval(p, f, 0));
  }

  lemma {:induction false} DotSameValues(p: Positive, ws: seq<int>, ys: seq<int>, vs: seq<int>)
    requires |ws| == |ys| == |vs| && forall i :: 0 <= i < |ws| ==> vs[i] == ys[i] % p
    ensures Cong(p, Dot(ws, ys), Dot(ws, vs))
  {
    if ws == [] {
      FromMultiple(p, 0, 0, 0);
    } else {
      DotSameValues(p, ws[1..], ys[1..], vs[1..]);
      CongMod(p, ys[0]);
      CongMul(p, ws[0], ws[0], ys[0], vs[0]) by { FromMultiple(p, ws[0], ws[0], 0); }
      CongAdd(p, ws[0] * ys[0], ws[0] * vs[0], Dot(ws[1..], ys[1..]), Dot(ws[1..], vs[1..]));
    }
  }

  lemma SumIsValueAtZero(p: int, shares: seq<Share>, ws: seq<int>, s: int)
    requires Prime(p) && shares != [] && DistinctMod(p, Xs(shares)) && IsWeights(p, Xs(shares), ws)
    requires 0 <= s < p && Cong(p, s, Dot(ws, Ys(shares)))
    ensures IsValueAtZero(p, shares, s)
  {
    var f := Interpolate(p, Xs(shares), Ys(shares));
    SumIsPolyAtZero(p, shares, ws, s, f);
    assert InterpolatingPoly(p, shares, f);
  }

  /** So the shares determine the value at zero. */
  lemma {:induction false} ValueUnique(p: int, shares: seq<Share>, f: seq<int>, g: seq<int>)
    requires Prime(p) && shares != [] && DistinctMod(p, Xs(shares))
    requires InterpolatingPoly(p, shares, f) && InterpolatingPoly(p, shares, g)
    ensures Eval(p, f, 0) == Eval(p, g, 0)
  {
    var ws := WeightsExist(p, Xs(shares));
    var d := Dot(ws, Ys(shares));
    var s := d % p;
    CongMod(p, d);
    SumIsPolyAtZero(p, shares, ws, s, f);
    SumIsPolyAtZero(p, shares, ws, s, g);
  }

  // ---- The round trip ----

  /** Any choice, in any order, of shares that SplitKey hands out. */
  ghost predicate PickedFrom(p: Positive, picked: seq<Share>, poly: seq<int>, n: int) {
    forall i :: 0 <= i < |picked| ==> 1 <= picked[i].x <= n && picked[i] == ShareAt(p, poly, picked[i].x)
  }

  /** m or more shares with distinct x determine the secret: it is the one string of its length that
      denotes their value at zero. */
  lemma {:induction false} RoundTrip(p: int, secret: Bytes, coeffs: seq<int>, n: int, m: int, picked: seq<Share>)
    requires Prime(p) && p <= Pow256(SHARE_LENGTH) && FromBytes(secret) < p
    requires |coeffs| == CoeffCount(m) && Reduced(p, coeffs) && m <= n
    requires PickedFrom(p, picked, SecretPoly(secret, coeffs), n) && |picked| >= m && picked != []
    requires DistinctMod(p, Xs(picked))
    ensures forall key: Bytes :: |key| == |secret| ==> (Denotes(p, picked, key) <==> key == secret)
  {
    var poly := SecretPoly(secret, coeffs);
    forall i | 0 <= i < |picked| ensures Eval(p, poly, Xs(picked)[i]) == Ys(picked)[i] % p {
      EvalReduced(p, poly, picked[i].x);
      FromToBytes(Eval(p, poly, picked[i].x), SHARE_LENGTH);
      SmallReduced(p, Eval(p, poly, picked[i].x));
    }
    EvalAtZero(p, poly);
    SmallReduced(p, FromBytes(secret));
    assert InterpolatingPoly(p, picked, poly);
    assert Denotes(p, picked, secret);
    forall key: Bytes | |key| == |secret| && Denotes(p, picked, key) ensures key == secret {
      OneValue(p, picked, FromBytes(key), FromBytes(secret));
      ToFromBytes(key);
      ToFromBytes(secret);
    }
  }

  /** When n < p, different x are different modulo p, so distinct shares always do. */
  lemma {:induction false} PickedDistinct(p: int, picked: seq<Share>, poly: seq<int>, n: int)
    requires 1 <= p && n < p && PickedFrom(p, picked, poly, n)
    requires forall i, j :: 0 <= i < j < |picked| ==> picked[i].x != picked[j].x
    ensures DistinctMod(p, Xs(picked))
  {
    var xs := Xs(picked);
    forall i, j | 0 <= i < j < |xs| ensures !Cong(p, xs[i], xs[j]) {
      assert picked[i].x != picked[j].x;
      if Cong(p, xs[i], xs[j]) {
        CongReduced(p, xs[i], xs[j]);
        SmallReduced(p, xs[i]);
        SmallReduced(p, xs[j]);
      }
    }
  }

  /** Split, hand over any chosen positions, rebuild. */
  method SplitThenReconstruct(p: int, secret: Bytes, n: int, m: int, coeffs: seq<int>, chosen: seq<nat>)
      returns (r: Result<Bytes, ReconstructError>)
    requires Prime(p) && p <= Pow256(SHARE_LENGTH) && FromBytes(secret) < p
    requires m <= n < p && |coeffs| == CoeffCount(m) && Reduced(p, coeffs)
    requires chosen != [] && |chosen| >= m && forall i :: 0 <= i < |chosen| ==> chosen[i] < n
    requires forall i, j :: 0 <= i < j < |chosen| ==> chosen[i] != chosen[j]
    ensures r == Ok(secret)
  {
    hide *;
    var shares := SplitKey(p, secret, n, m, coeffs);
    var picked := seq(|chosen|, i requires 0 <= i < |chosen| => shares.value[chosen[i]]);
    assert chosen[0] < n;
    AllPicked(p, shares.value, SecretPoly(secret, coeffs), n, chosen, picked);
    r := ReconstructKey(p, picked, |secret|);
    Outcomes(r);
    PickedDistinct(p, picked, SecretPoly(secret, coeffs), n);
    RoundTrip(p, secret, coeffs, n, m, picked);
    assert Denotes(p, picked, secret);
  }

  lemma Outcomes(r: Result<Bytes, ReconstructError>)
    ensures r.Ok? || r == Err(NoShares) || r == Err(NoInverse) || r == Err(NegativeLength) || r == Err(ExceedsLength)
  {
    if r.Err? {
      var e := r.error;
      assert e.NoShares? || e.NoInverse? || e.NegativeLength? || e.ExceedsLength?;
    }
  }

  lemma AllPicked(p: Positive, shares: seq<Share>, poly: seq<int>, n: int, chosen: seq<nat>, picked: seq<Share>)
    requires |shares| == n && forall i :: 0 <= i < n ==> shares[i] == ShareAt(p, poly, i + 1)
    requires |picked| == |chosen|
    requires forall i :: 0 <= i < |chosen| ==> chosen[i] < n && picked[i] == shares[chosen[i]]
    ensures PickedFrom(p, picked, poly, n)
    ensures forall i :: 0 <= i < |chosen| ==> picked[i].x == chosen[i] + 1
  {
  }

  // ---- Secrecy below the threshold ----

  /** The coefficient vectors SplitKey may draw that put the given values at the given points. */
  ghost predicate Explains(p: Positive, secret: int, coeffs: seq<int>, xs: seq<int>, ys: seq<int>)
    requires |xs| == |ys|
  {
    && |coeffs| == |xs|
    && Reduced(p, coeffs)
    && forall i :: 0 <= i < |xs| ==> Eval(p, [secret] + coeffs, xs[i]) == ys[i]
  }

  /** With m - 1 shares at distinct nonzero points, every candidate secret is explained by
      exactly one of the coefficient vectors. */
  lemma SharesLeaveSecretOpen(p: int, xs: seq<int>, ys: seq<int>, candidate: int)
    requires Prime(p) && |xs| == |ys| && DistinctMod(p, xs) && Reduced(p, ys) && 0 <= candidate < p
    requires forall i :: 0 <= i < |xs| ==> xs[i] % p != 0
    ensures exists coeffs :: Explains(p, candidate, coeffs, xs, ys)
              && forall other :: Explains(p, candidate, other, xs, ys) ==> other == coeffs
  {
    var xs0, ys0 := [0] + xs, [candidate] + ys;
    ZeroAndPointsDistinct(p, xs);
    var f := Interpolate(p, xs0, ys0);
    SmallReduced(p, candidate);
    assert Eval(p, f, xs0[0]) == candidate;
    EvalAtZero(p, f);
    SmallReduced(p, f[0]);
    var coeffs := f[1..];
    assert [candidate] + coeffs == f;
    forall i | 0 <= i < |xs| ensures Eval(p, f, xs[i]) == ys[i] {
      assert xs0[i + 1] == xs[i] && ys0[i + 1] == ys[i];
      SmallReduced(p, ys[i]);
    }
    forall other | Explains(p, candidate, other, xs, ys) ensures other == coeffs {
      var g := [candidate] + other;
      ExplanationGoesThrough(p, candidate, other, xs, ys);
      InterpolantUnique(p, f, g, xs0, ys0);
      assert g[1..] == other;
    }
    assert Explains(p, candidate, coeffs, xs, ys);
  }

  lemma {:induction false} ZeroAndPointsDistinct(p: Positive, xs: seq<int>)
    requires DistinctMod(p, xs) && forall i :: 0 <= i < |xs| ==> xs[i] % p != 0
    ensures DistinctMod(p, [0] + xs)
  {
    var xs0 := [0] + xs;
    forall i, j | 0 <= i < j < |xs0| ensures !Cong(p, xs0[i], xs0[j]) {
      if i == 0 && Cong(p, 0, xs[j - 1]) {
        CongReduced(p, 0, xs[j - 1]);
        SmallReduced(p, 0);
      }
    }
  }

  lemma {:induction false} ExplanationGoesThrough(p: Positive, secret: int, coeffs: seq<int>,
                                                  xs: seq<int>, ys: seq<int>)
    requires |xs| == |ys| && Reduced(p, ys) && 0 <= secret < p && Explains(p, secret, coeffs, xs, ys)
    ensures Reduced(p, [secret] + coeffs) && Through(p, [secret] + coeffs, [0] + xs, [secret] + ys)
  {
    var g := [secret] + coeffs;
    forall i | 0 <= i < |xs| + 1 ensures Eval(p, g, ([0] + xs)[i]) == ([secret] + ys)[i] % p {
      if i == 0 {
        EvalAtZero(p, g);
      } else {
        SmallReduced(p, ys[i - 1]);
      }
    }
  }

  /** So too few shares say nothing: whatever m - 1 of the shares that a split with threshold m may hand
      out, and whatever the candidate, exactly one draw of coefficients splits the candidate into them. */
  lemma {:induction false} TooFewShares(p: int, m: int, n: int, picked: seq<Share>, candidate: Bytes)
      returns (coeffs: seq<int>)
    requires Prime(p) && p <= Pow256(SHARE_LENGTH) && 1 <= m <= n && FromBytes(candidate) < p
    requires |picked| == m - 1 && DistinctMod(p, Xs(picked))
    requires forall i :: 0 <= i < |picked| ==>
               && 1 <= picked[i].x <= n && picked[i].x % p != 0
               && |picked[i].y| == 66 && FromBytes(picked[i].y) < p
    ensures forall other :: IsDraw(p, m, n, picked, candidate, other) <==> other == coeffs
  {
    var xs, ys := Xs(picked), Ys(picked);
    SharesLeaveSecretOpen(p, xs, ys, FromBytes(candidate));
    coeffs :| Explains(p, FromBytes(candidate), coeffs, xs, ys)
              && forall other :: Explains(p, FromBytes(candidate), other, xs, ys) ==> other == coeffs;
    forall other ensures IsDraw(p, m, n, picked, candidate, other) <==> other == coeffs {
      DrawExplains(p, m, n, picked, candidate, other);
    }
  }

  /** Coefficients that SplitKey may be given for the threshold, and that make it hand out the shares. */
  ghost predicate IsDraw(p: Positive, m: int, n: int, picked: seq<Share>, secret: Bytes, coeffs: seq<int>) {
    |coeffs| == CoeffCount(m) && Reduced(p, coeffs) && PickedFrom(p, picked, SecretPoly(secret, coeffs), n)
  }

  lemma {:induction false} DrawExplains(p: int, m: int, n: int, picked: seq<Share>, candidate: Bytes, coeffs: seq<int>)
    requires Prime(p) && p <= Pow256(SHARE_LENGTH) && 1 <= m && |picked| == m - 1
    requires forall i :: 0 <= i < |picked| ==> 1 <= picked[i].x <= n && |picked[i].y| == 66
    ensures IsDraw(p, m, n, picked, candidate, coeffs) <==>
              Explains(p, FromBytes(candidate), coeffs, Xs(picked), Ys(picked))
  {
    hide Eval, FromBytes, ToBytes, Pow256, Reduced;
    var poly := SecretPoly(candidate, coeffs);
    forall i | 0 <= i < |picked|
      ensures picked[i] == ShareAt(p, poly, picked[i].x) <==> Eval(p, poly, Xs(picked)[i]) == Ys(picked)[i]
    {
      EvalReduced(p, poly, picked[i].x);
      FromToBytes(Eval(p, poly, picked[i].x), SHARE_LENGTH);
      ToFromBytes(picked[i].y);
    }
  }
}
