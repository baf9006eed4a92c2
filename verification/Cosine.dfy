/** Cosine similarity over the reals, with any square root. */
module Cosine {
  type Vector = seq<real>

  /** Multiplication under a name, so that proofs about sums need not look into products. */
  function Times(x: real, y: real): real {
    x * y
  }

  function Dot(a: Vector, b: Vector): real
    requires |a| == |b|
  {
    if a == [] then 0.0
    else Dot(a[..|a| - 1], b[..|b| - 1]) + Times(a[|a| - 1], b[|b| - 1])
  }

  function NormSquared(a: Vector): real {
    Dot(a, a)
  }

  ghost predicate IsRoot(sqrt: real -> real) {
    forall x :: x >= 0.0 ==> sqrt(x) >= 0.0 && Times(sqrt(x), sqrt(x)) == x
  }

  function Cosine(a: Vector, b: Vector, sqrt: real -> real): real
    requires IsRoot(sqrt)
  {
    if |a| != |b| then 0.0
    else if NormSquared(a) == 0.0 || NormSquared(b) == 0.0 then 0.0
    else
      var p := Denominator(a, b, sqrt);
      Dot(a, b) / p
  }

  function Denominator(a: Vector, b: Vector, sqrt: real -> real): (p: real)
    requires IsRoot(sqrt) && NormSquared(a) != 0.0 && NormSquared(b) != 0.0
    ensures p > 0.0
  {
    NormNonNegative(a);
    NormNonNegative(b);
    RootPositive(NormSquared(a), sqrt);
    RootPositive(NormSquared(b), sqrt);
    ProductPositive(sqrt(NormSquared(a)), sqrt(NormSquared(b)));
    Times(sqrt(NormSquared(a)), sqrt(NormSquared(b)))
  }

  method CosineSimilarity(a: Vector, b: Vector, sqrt: real -> real) returns (r: real)
    requires IsRoot(sqrt)
    ensures r == Cosine(a, b, sqrt)
  {
    if |a| != |b| { return 0.0; }
    var dot, normA, normB := 0.0, 0.0, 0.0;
    for i := 0 to |a|
      invariant dot == Dot(a[..i], b[..i])
      invariant normA == NormSquared(a[..i]) && normB == NormSquared(b[..i])
    {
      assert a[..i + 1][..i] == a[..i] && b[..i + 1][..i] == b[..i];
      dot := dot + a[i] * b[i];
      normA := normA + a[i] * a[i];
      normB := normB + b[i] * b[i];
    }
    assert a[..|a|] == a && b[..|b|] == b;
    if normA == 0.0 || normB == 0.0 { return 0.0; }
    ghost var p := Denominator(a, b, sqrt);
    return dot / (sqrt(normA) * sqrt(normB));
  }

  // ---------- products ----------

  lemma ProductPositive(x: real, y: real)
    requires x > 0.0 && y > 0.0
    ensures Times(x, y) > 0.0
  {
  }

  lemma SquareFacts(x: real)
    ensures Times(x, x) >= 0.0
    ensures x != 0.0 ==> Times(x, x) > 0.0
  {
    if x > 0.0 {
      ProductPositive(x, x);
    } else if x < 0.0 {
      ProductPositive(-x, -x);
    }
  }

  lemma Commute(x: real, y: real)
    ensures Times(x, y) == Times(y, x)
  {
  }

  lemma Associate(x: real, y: real, z: real)
    ensures Times(x, Times(y, z)) == Times(Times(x, y), z)
  {
  }

  lemma Distribute(x: real, y: real, z: real)
    ensures Times(x, y + z) == Times(x, y) + Times(x, z)
  {
  }

  /** Non-negative numbers are ordered as their squares are. */
  lemma SquaresOrdered(x: real, y: real)
    requires x >= 0.0 && y >= 0.0
    ensures x < y ==> Times(x, x) < Times(y, y)
  {
    if x < y {
      ProductPositive(y - x, y);
      assert x * (y - x) >= 0.0;
      assert y * y - x * x == (y - x) * y + x * (y - x);
    }
  }

  lemma RootUnique(x: real, y: real)
    requires x >= 0.0 && y >= 0.0 && Times(x, x) == Times(y, y)
    ensures x == y
  {
    SquaresOrdered(x, y);
    SquaresOrdered(y, x);
  }

  lemma RootPositive(x: real, sqrt: real -> real)
    requires IsRoot(sqrt) && x > 0.0
    ensures sqrt(x) > 0.0
  {
    assert Times(sqrt(x), sqrt(x)) == x;
    assert Times(0.0, 0.0) == 0.0;
  }

  // ---------- norms ----------

  lemma {:induction false} NormNonNegative(a: Vector)
    ensures NormSquared(a) >= 0.0
  {
    if a == [] {
    } else {
      NormNonNegative(a[..|a| - 1]);
      SquareFacts(a[|a| - 1]);
    }
  }

  predicate IsZero(a: Vector) {
    forall i :: 0 <= i < |a| ==> a[i] == 0.0
  }

  lemma {:induction false} NormZero(a: Vector)
    ensures NormSquared(a) == 0.0 <==> IsZero(a)
  {
    if a == [] {
    } else {
      var front, last := a[..|a| - 1], a[|a| - 1];
      NormZero(front);
      NormNonNegative(front);
      SquareFacts(last);
      assert Times(0.0, 0.0) == 0.0;
      hide Times;
      if IsZero(front) && last == 0.0 {
        assert forall i :: 0 <= i < |front| ==> a[i] == front[i];
      }
    }
  }

  lemma {:induction false} DotSymmetric(a: Vector, b: Vector)
    requires |a| == |b|
    ensures Dot(a, b) == Dot(b, a)
  {
    if a == [] {
    } else {
      DotSymmetric(a[..|a| - 1], b[..|b| - 1]);
      Commute(a[|a| - 1], b[|b| - 1]);
    }
  }

  // ---------- Cauchy-Schwarz ----------

  function SquaredGap(x: real, y: real, t: real): real {
    Times(Times(t, x) - y, Times(t, x) - y)
  }

  /** The squared distance of b from the multiple t of a. */
  function Residual(a: Vector, b: Vector, t: real): real
    requires |a| == |b|
  {
    if a == [] then 0.0
    else Residual(a[..|a| - 1], b[..|b| - 1], t) + SquaredGap(a[|a| - 1], b[|b| - 1], t)
  }

  function Quadratic(p: real, q: real, r: real, t: real): real {
    Times(Times(t, t), p) - 2.0 * Times(t, q) + r
  }

  lemma GapIsQuadratic(x: real, y: real, t: real)
    ensures SquaredGap(x, y, t) == Quadratic(Times(x, x), Times(x, y), Times(y, y), t)
  {
  }

  lemma QuadraticsAdd(p: real, q: real, r: real, x: real, y: real, z: real, t: real)
    ensures Quadratic(p, q, r, t) + Quadratic(x, y, z, t) == Quadratic(p + x, q + y, r + z, t)
  {
    Distribute(Times(t, t), p, x);
    Distribute(t, q, y);
  }

  lemma {:induction false} ResidualIsQuadratic(a: Vector, b: Vector, t: real)
    requires |a| == |b|
    ensures Residual(a, b, t) == Quadratic(NormSquared(a), Dot(a, b), NormSquared(b), t)
  {
    if a != [] {
      var x, y := a[|a| - 1], b[|b| - 1];
      var a', b' := a[..|a| - 1], b[..|b| - 1];
      ResidualIsQuadratic(a', b', t);
      GapIsQuadratic(x, y, t);
      QuadraticsAdd(NormSquared(a'), Dot(a', b'), NormSquared(b'), Times(x, x), Times(x, y), Times(y, y), t);
      hide Quadratic, SquaredGap, Times;
    } else {
      assert Times(Times(t, t), 0.0) == 0.0 && Times(t, 0.0) == 0.0;
    }
  }

  lemma GapFacts(x: real, y: real, t: real)
    ensures SquaredGap(x, y, t) >= 0.0
    ensures SquaredGap(x, y, t) == 0.0 ==> y == Times(t, x)
  {
    SquareFacts(Times(t, x) - y);
    hide Times;
  }

  lemma {:induction false} ResidualNonNegative(a: Vector, b: Vector, t: real)
    requires |a| == |b|
    ensures Residual(a, b, t) >= 0.0
    ensures Residual(a, b, t) == 0.0 ==> b == Scaled(t, a)
  {
    if a == [] {
    } else {
      var a', b' := a[..|a| - 1], b[..|b| - 1];
      ResidualNonNegative(a', b', t);
      GapFacts(a[|a| - 1], b[|b| - 1], t);
      hide SquaredGap, Times;
      if b' == Scaled(t, a') && b[|b| - 1] == Times(t, a[|a| - 1]) {
        ScaledFront(t, a);
        assert b == b' + [b[|b| - 1]];
        assert Scaled(t, a) == Scaled(t, a)[..|a| - 1] + [Scaled(t, a)[|a| - 1]];
      }
    }
  }

  function Scaled(k: real, a: Vector): Vector {
    seq(|a|, i requires 0 <= i < |a| => Times(k, a[i]))
  }

  lemma ScaledFront(k: real, a: Vector)
    requires a != []
    ensures Scaled(k, a)[..|a| - 1] == Scaled(k, a[..|a| - 1])
  {
    hide Times;
  }

  /** The quadratic is non-negative at its minimum, t = d / A; that is the inequality. */
  lemma MinimumGivesBound(A: real, d: real, B: real, t: real)
    requires A > 0.0 && t == d / A && Quadratic(A, d, B, t) >= 0.0
    ensures Times(d, d) <= Times(A, B)
    ensures Times(d, d) == Times(A, B) ==> Quadratic(A, d, B, t) == 0.0
  {
    var r := Quadratic(A, d, B, t);
    assert t * A == d;
    assert (t * t) * A == t * (t * A);
    assert r == B - t * d;
    assert (t * d) * A == (t * A) * d;
    assert r * A == B * A - (t * d) * A;
    assert r * A >= 0.0;
    if r > 0.0 { ProductPositive(r, A); }
  }

  /** The Cauchy-Schwarz inequality, and the one case of equality. */
  lemma CauchySchwarz(a: Vector, b: Vector)
    requires |a| == |b|
    ensures Times(Dot(a, b), Dot(a, b)) <= Times(NormSquared(a), NormSquared(b))
    ensures NormSquared(a) > 0.0 && Times(Dot(a, b), Dot(a, b)) == Times(NormSquared(a), NormSquared(b)) ==>
              b == Scaled(Dot(a, b) / NormSquared(a), a)
  {
    NormNonNegative(a);
    if NormSquared(a) > 0.0 {
      PositiveCauchySchwarz(a, b);
    } else {
      ZeroDot(a, b);
      assert Times(0.0, 0.0) == Times(0.0, NormSquared(b)) == 0.0;
    }
  }

  lemma {:induction false} ZeroDot(a: Vector, b: Vector)
    requires |a| == |b| && NormSquared(a) == 0.0
    ensures Dot(a, b) == 0.0
  {
    if a == [] {
    } else {
      var x, y := a[|a| - 1], b[|a| - 1];
      NormNonNegative(a[..|a| - 1]);
      SquareFacts(x);
      ZeroDot(a[..|a| - 1], b[..|a| - 1]);
      assert Times(0.0, y) == 0.0;
    }
  }

  lemma PositiveCauchySchwarz(a: Vector, b: Vector)
    requires |a| == |b| && NormSquared(a) > 0.0
    ensures Times(Dot(a, b), Dot(a, b)) <= Times(NormSquared(a), NormSquared(b))
    ensures Times(Dot(a, b), Dot(a, b)) == Times(NormSquared(a), NormSquared(b)) ==>
              b == Scaled(Dot(a, b) / NormSquared(a), a)
  {
    var t := Dot(a, b) / NormSquared(a);
    ResidualIsQuadratic(a, b, t);
    ResidualNonNegative(a, b, t);
    hide Times, Quadratic, Residual, Dot, Scaled;
    MinimumGivesBound(NormSquared(a), Dot(a, b), NormSquared(b), t);
  }

  // ---------- the similarity ----------

  lemma DenominatorSquared(a: Vector, b: Vector, sqrt: real -> real)
    requires IsRoot(sqrt) && NormSquared(a) != 0.0 && NormSquared(b) != 0.0
    ensures NormSquared(a) > 0.0 && NormSquared(b) > 0.0
    ensures Times(Denominator(a, b, sqrt), Denominator(a, b, sqrt)) == Times(NormSquared(a), NormSquared(b))
  {
    NormNonNegative(a);
    NormNonNegative(b);
    ProductOfSquares(sqrt(NormSquared(a)), sqrt(NormSquared(b)));
    hide Times;
  }

  lemma ProductOfSquares(x: real, y: real)
    ensures Times(Times(x, y), Times(x, y)) == Times(Times(x, x), Times(y, y))
  {
  }

  lemma QuotientInUnitRange(d: real, p: real)
    requires p > 0.0 && Times(d, d) <= Times(p, p)
    ensures -1.0 <= d / p <= 1.0
  {
    SquaresOrdered(p, if d < 0.0 then -d else d);
    assert Times(-d, -d) == Times(d, d);
    assert d <= p && -p <= d;
    assert (d / p) * p == d;
  }

  lemma CosineInRange(a: Vector, b: Vector, sqrt: real -> real)
    requires IsRoot(sqrt)
    ensures -1.0 <= Cosine(a, b, sqrt) <= 1.0
  {
    if |a| == |b| && NormSquared(a) != 0.0 && NormSquared(b) != 0.0 {
      DenominatorSquared(a, b, sqrt);
      CauchySchwarz(a, b);
      QuotientInUnitRange(Dot(a, b), Denominator(a, b, sqrt));
    }
  }

  lemma CosineSymmetric(a: Vector, b: Vector, sqrt: real -> real)
    requires IsRoot(sqrt)
    ensures Cosine(a, b, sqrt) == Cosine(b, a, sqrt)
  {
    if |a| == |b| {
      DotSymmetric(a, b);
      if NormSquared(a) != 0.0 && NormSquared(b) != 0.0 {
        Commute(sqrt(NormSquared(a)), sqrt(NormSquared(b)));
        hide Times;
        assert Denominator(a, b, sqrt) == Denominator(b, a, sqrt);
      }
    }
  }

  lemma {:induction false} DotScaled(k: real, a: Vector, b: Vector)
    requires |a| == |b|
    ensures Dot(Scaled(k, a), b) == Times(k, Dot(a, b))
    ensures NormSquared(Scaled(k, a)) == Times(k, Times(k, NormSquared(a)))
  {
    if a != [] {
      var a', b', x, y := a[..|a| - 1], b[..|b| - 1], a[|a| - 1], b[|b| - 1];
      ScaledFront(k, a);
      DotScaled(k, a', b');
      Associate(k, x, y);
      Distribute(k, Dot(a', b'), Times(x, y));
      Distribute(k, NormSquared(a'), Times(x, x));
      Distribute(k, Times(k, NormSquared(a')), Times(k, Times(x, x)));
      SquareOfProduct(k, x);
      hide Times;
    } else {
      assert Times(k, 0.0) == 0.0;
    }
  }

  lemma SquareOfProduct(k: real, x: real)
    ensures Times(Times(k, x), Times(k, x)) == Times(k, Times(k, Times(x, x)))
  {
  }

  lemma RootScaled(k: real, A: real, sqrt: real -> real)
    requires IsRoot(sqrt) && k > 0.0 && A > 0.0
    ensures Times(k, Times(k, A)) > 0.0 && sqrt(Times(k, Times(k, A))) == Times(k, sqrt(A))
  {
    ProductPositive(k, A);
    ProductPositive(k, Times(k, A));
    RootPositive(A, sqrt);
    ProductPositive(k, sqrt(A));
    SquareOfProduct(k, sqrt(A));
    hide Times;
    RootUnique(sqrt(Times(k, Times(k, A))), Times(k, sqrt(A)));
  }

  /** Only the direction counts: scaling an argument by a positive factor changes nothing. */
  lemma CosineScaled(k: real, a: Vector, b: Vector, sqrt: real -> real)
    requires IsRoot(sqrt) && k > 0.0
    ensures Cosine(Scaled(k, a), b, sqrt) == Cosine(a, b, sqrt)
    ensures Cosine(b, Scaled(k, a), sqrt) == Cosine(b, a, sqrt)
  {
    CosineSymmetric(b, a, sqrt);
    CosineSymmetric(b, Scaled(k, a), sqrt);
    if |a| == |b| {
      DotScaled(k, a, b);
      NormNonNegative(a);
      NormNonNegative(b);
      var A, B := NormSquared(a), NormSquared(b);
      assert Times(k, Times(k, 0.0)) == 0.0;
      if A > 0.0 && B > 0.0 {
        RootScaled(k, A, sqrt);
        Associate(k, sqrt(A), sqrt(B));
        var p := Denominator(a, b, sqrt);
        CancelFactor(k, Dot(a, b), p);
        hide Times, Dot;
        assert Denominator(Scaled(k, a), b, sqrt) == Times(k, p);
      }
    }
  }

  lemma CancelFactor(k: real, d: real, p: real)
    requires k > 0.0 && p > 0.0
    ensures Times(k, p) > 0.0
    ensures Times(k, d) / Times(k, p) == d / p
  {
    ProductPositive(k, p);
    var r := d / p;
    assert r * p == d;
    assert r * (k * p) == k * (r * p);
  }

  /** Both vectors are non-zero, and the second is a positive multiple of the first. */
  ghost predicate SameDirection(a: Vector, b: Vector) {
    !IsZero(a) && exists k :: k > 0.0 && b == Scaled(k, a)
  }

  lemma SelfQuotient(p: real)
    requires p > 0.0
    ensures p / p == 1.0
  {
  }

  lemma SelfSimilarity(a: Vector, sqrt: real -> real)
    requires IsRoot(sqrt) && !IsZero(a)
    ensures Cosine(a, a, sqrt) == 1.0
  {
    NormZero(a);
    NormNonNegative(a);
    hide Times, Dot;
    SelfQuotient(NormSquared(a));
    assert Denominator(a, a, sqrt) == NormSquared(a);
  }

  lemma FullQuotient(d: real, p: real)
    requires p > 0.0 && d / p == 1.0
    ensures d == p
  {
  }

  lemma PositiveQuotient(d: real, p: real)
    requires d > 0.0 && p > 0.0
    ensures d / p > 0.0
  {
  }

  /** Similarity 1 means exactly: the same direction. */
  lemma CosineIsOne(a: Vector, b: Vector, sqrt: real -> real)
    requires IsRoot(sqrt)
    ensures Cosine(a, b, sqrt) == 1.0 <==> SameDirection(a, b)
  {
    hide Times, Dot;
    if Cosine(a, b, sqrt) == 1.0 {
      DenominatorSquared(a, b, sqrt);
      FullQuotient(Dot(a, b), Denominator(a, b, sqrt));
      CauchySchwarz(a, b);
      NormZero(a);
      PositiveQuotient(Dot(a, b), NormSquared(a));
    }
    if SameDirection(a, b) {
      var k :| k > 0.0 && b == Scaled(k, a);
      CosineScaled(k, a, a, sqrt);
      SelfSimilarity(a, sqrt);
    }
  }

  /** Similarity is 0 for vectors of different lengths, and whenever one of them is zero. */
  lemma CosineIsZeroWhenUndefined(a: Vector, b: Vector, sqrt: real -> real)
    requires IsRoot(sqrt) && (|a| != |b| || IsZero(a) || IsZero(b))
    ensures Cosine(a, b, sqrt) == 0.0
  {
    NormZero(a);
    NormZero(b);
  }

  // ---------- the value ----------

  /** The sums, one pair of components at a time. */
  lemma SumsExactly(a: Vector, b: Vector, x: real, y: real)
    requires |a| == |b|
    ensures Dot([], []) == 0.0 && Dot(a + [x], b + [y]) == Dot(a, b) + x * y
    ensures NormSquared([]) == 0.0 && NormSquared(a + [x]) == NormSquared(a) + x * x
  {
    assert (a + [x])[..|a|] == a && (b + [y])[..|b|] == b;
  }

  lemma QuotientTimes(q: real, d: real, x: real, y: real)
    requires Times(x, y) > 0.0 && q == d / Times(x, y)
    ensures q * x * y == d
  {
    Associate(q, x, y);
    assert q * Times(x, y) == d;
  }

  lemma CosineIsQuotient(a: Vector, b: Vector, sqrt: real -> real)
    requires IsRoot(sqrt) && |a| == |b| && !IsZero(a) && !IsZero(b)
    ensures Times(sqrt(NormSquared(a)), sqrt(NormSquared(b))) > 0.0
    ensures Cosine(a, b, sqrt) == Dot(a, b) / Times(sqrt(NormSquared(a)), sqrt(NormSquared(b)))
  {
    NormZero(a);
    NormZero(b);
    hide Times, Dot;
    var p := Denominator(a, b, sqrt);
  }

  /** The cosine is the dot product over the two norms: multiplied by them it gives the dot product back. */
  lemma CosineTimesNorms(a: Vector, b: Vector, sqrt: real -> real)
    requires IsRoot(sqrt) && |a| == |b| && !IsZero(a) && !IsZero(b)
    ensures Cosine(a, b, sqrt) * sqrt(NormSquared(a)) * sqrt(NormSquared(b)) == Dot(a, b)
  {
    hide Cosine, NormSquared, Dot, IsRoot, IsZero, Times;
    CosineIsQuotient(a, b, sqrt);
    QuotientTimes(Cosine(a, b, sqrt), Dot(a, b), sqrt(NormSquared(a)), sqrt(NormSquared(b)));
  }

  function Plus(a: Vector, b: Vector): (r: Vector)
    requires |a| == |b|
    ensures |r| == |a|
  {
    seq(|a|, i requires 0 <= i < |a| => a[i] + b[i])
  }

  lemma {:induction false} DotAdditive(a: Vector, b: Vector, d: Vector)
    requires |a| == |b| == |d|
    ensures Dot(a, Plus(b, d)) == Dot(a, b) + Dot(a, d)
  {
    if a == [] {
    } else {
      var n := |a| - 1;
      DotAdditive(a[..n], b[..n], d[..n]);
      assert Plus(b, d)[..n] == Plus(b[..n], d[..n]);
      Distribute(a[n], b[n], d[n]);
      hide Times;
    }
  }

  lemma WeighedSum(x: real, y: real, z: real, n: real, u: real, v: real, w: real)
    requires n > 0.0 && x * n * u == y * n * v + z * n * w
    ensures x * u == y * v + z * w
  {
    var gap := x * u - y * v - z * w;
    assert n * gap == 0.0 by {
      assert n * (x * u) == x * n * u;
      assert n * (y * v) == y * n * v;
      assert n * (z * w) == z * n * w;
    }
    if gap > 0.0 { ProductPositive(n, gap); }
    if gap < 0.0 { ProductPositive(n, -gap); }
  }

  /** Weighed with their lengths, similarities to one vector add up as the vectors do. */
  lemma CosineAdditive(a: Vector, b: Vector, d: Vector, sqrt: real -> real)
    requires IsRoot(sqrt) && |a| == |b| == |d| && !IsZero(a) && !IsZero(b) && !IsZero(d) && !IsZero(Plus(b, d))
    ensures Cosine(a, Plus(b, d), sqrt) * sqrt(NormSquared(Plus(b, d)))
         == Cosine(a, b, sqrt) * sqrt(NormSquared(b)) + Cosine(a, d, sqrt) * sqrt(NormSquared(d))
  {
    hide Cosine, NormSquared, Dot, Plus, IsRoot, IsZero, Times;
    DotAdditive(a, b, d);
    CosineTimesNorms(a, b, sqrt);
    CosineTimesNorms(a, d, sqrt);
    CosineTimesNorms(a, Plus(b, d), sqrt);
    RootOfNorm(a, sqrt);
    WeighedSum(Cosine(a, Plus(b, d), sqrt), Cosine(a, b, sqrt), Cosine(a, d, sqrt), sqrt(NormSquared(a)),
               sqrt(NormSquared(Plus(b, d))), sqrt(NormSquared(b)), sqrt(NormSquared(d)));
  }

  lemma RootOfNorm(a: Vector, sqrt: real -> real)
    requires IsRoot(sqrt) && !IsZero(a)
    ensures sqrt(NormSquared(a)) > 0.0
  {
    NormZero(a);
    NormNonNegative(a);
    RootPositive(NormSquared(a), sqrt);
  }

  /** Opposite vectors have similarity -1. */
  lemma OppositeVectors(a: Vector, sqrt: real -> real)
    requires IsRoot(sqrt) && !IsZero(a)
    ensures Cosine(a, Scaled(-1.0, a), sqrt) == -1.0
  {
    var b := Scaled(-1.0, a);
    NormZero(a);
    NormNonNegative(a);
    DotScaled(-1.0, a, a);
    DotSymmetric(a, b);
    assert Times(-1.0, NormSquared(a)) == -NormSquared(a);
    assert Times(-1.0, -NormSquared(a)) == NormSquared(a);
    hide Dot, Scaled;
    assert Denominator(a, b, sqrt) == NormSquared(a);
    MinusOne(NormSquared(a));
  }

  lemma MinusOne(p: real)
    requires p > 0.0
    ensures -p / p == -1.0
  {
  }
}
