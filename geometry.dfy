/** Integer grid geometry used by the candidate search: grid points, the
    bounding box of three points, C++ integer division, and the affine edge
    functions of a triangle together with the facts the rasterizer relies on. */
module Geometry {

  /** A grid coordinate (`ivec2`). */
  datatype IVec2 = IVec2(x: int, y: int)

  /** `std::min` on two ints. */
  function Min(a: int, b: int): int { if b < a then b else a }

  /** `std::max` on two ints. */
  function Max(a: int, b: int): int { if a < b then b else a }

  /** Componentwise minimum of three points: the lower corner of their bounding box. */
  function Min2(a: IVec2, b: IVec2, c: IVec2): (m: IVec2)
    ensures m.x <= a.x && m.x <= b.x && m.x <= c.x
    ensures m.y <= a.y && m.y <= b.y && m.y <= c.y
    ensures m.x == a.x || m.x == b.x || m.x == c.x
    ensures m.y == a.y || m.y == b.y || m.y == c.y
  {
    IVec2(Min(Min(a.x, b.x), c.x), Min(Min(a.y, b.y), c.y))
  }

  /** Componentwise maximum of three points: the upper corner of their bounding box. */
  function Max2(a: IVec2, b: IVec2, c: IVec2): (m: IVec2)
    ensures a.x <= m.x && b.x <= m.x && c.x <= m.x
    ensures a.y <= m.y && b.y <= m.y && c.y <= m.y
    ensures m.x == a.x || m.x == b.x || m.x == c.x
    ensures m.y == a.y || m.y == b.y || m.y == c.y
  {
    IVec2(Max(Max(a.x, b.x), c.x), Max(Max(a.y, b.y), c.y))
  }

  /** Componentwise equality of two points. */
  function Equals(a: IVec2, b: IVec2): (r: bool)
    ensures r <==> a == b
  {
    a.x == b.x && a.y == b.y
  }

  function Abs(n: int): int { if n < 0 then -n else n }

  /** C++ `/` on `int`: the quotient truncated toward zero (Dafny's own `/`
      is Euclidean). The remainder has the sign of the dividend and is
      smaller than the divisor in magnitude. */
  function Quot(n: int, d: int): (q: int)
    requires d != 0
    ensures n >= 0 ==> 0 <= n - q * d < Abs(d)
    ensures n <= 0 ==> -Abs(d) < n - q * d <= 0
  {
    var u := Abs(n) / Abs(d);
    var q := if (n < 0) == (d < 0) then u else -u;
    TruncatedRemainder(n, d, u, q);
    q
  }

  /** The truncated quotient leaves the Euclidean remainder of the
      magnitudes, carrying the sign of the dividend. */
  lemma TruncatedRemainder(n: int, d: int, u: int, q: int)
    requires d != 0 && u == Abs(n) / Abs(d)
    requires q == if (n < 0) == (d < 0) then u else -u
    ensures n >= 0 ==> 0 <= n - q * d < Abs(d)
    ensures n <= 0 ==> -Abs(d) < n - q * d <= 0
  {
    SignedProduct(n, d, u, q);
    DivisionIdentity(Abs(n), Abs(d));
    MulMonotone(0, u, Abs(d));
    SignedDifference(n, Abs(n), Abs(d), u * Abs(d), q * d, Abs(n) % Abs(d));
  }

  lemma SignedProduct(n: int, d: int, u: int, q: int)
    requires d != 0
    requires q == if (n < 0) == (d < 0) then u else -u
    ensures q * d == if n < 0 then -(u * Abs(d)) else u * Abs(d)
  {
    NegatedFactor(u, d);
  }

  lemma DivisionIdentity(a: int, b: int)
    requires a >= 0 && b > 0
    ensures a == (a / b) * b + a % b && 0 <= a % b < b && a / b >= 0
  {
  }

  lemma SignedDifference(n: int, an: int, ad: int, m: int, qd: int, r: int)
    requires an == Abs(n) && an == m + r && 0 <= m && 0 <= r < ad
    requires qd == if n < 0 then -m else m
    ensures n >= 0 ==> 0 <= n - qd < ad
    ensures n <= 0 ==> -ad < n - qd <= 0
  {
  }

  lemma NegatedFactor(u: int, d: int)
    ensures (-u) * d == -(u * d) == u * (-d)
  {
  }

  /** Multiplying by a non-negative factor keeps an inequality. */
  lemma {:induction false} MulMonotone(a: int, b: int, c: int)
    ensures a <= b && c >= 0 ==> a * c <= b * c
    decreases if c < 0 then 0 else c
  {
    if c > 0 {
      MulMonotone(a, b, c - 1);
      assert a * c == a * (c - 1) + a && b * c == b * (c - 1) + b;
    }
  }

  /** The edge function of the source's `edge` lambda: twice the signed area
      spanned by `a`, `b` and `c`. It vanishes when `c` lies on the line `ab`. */
  function Edge(a: IVec2, b: IVec2, c: IVec2): (r: int)
    ensures c == a || c == b ==> r == 0
    ensures a == b ==> r == 0
  {
    (b.x - c.x) * (a.y - c.y) - (b.y - c.y) * (a.x - c.x)
  }

  /** Moving `c` by `k` columns changes the edge function by `k` times
      `b.y - a.y`: the per-column forward difference. */
  lemma EdgeShiftX(a: IVec2, b: IVec2, c: IVec2, k: int)
    ensures Edge(a, b, IVec2(c.x + k, c.y)) == Edge(a, b, c) + (b.y - a.y) * k
  {
    calc {
      Edge(a, b, IVec2(c.x + k, c.y));
      (b.x - c.x - k) * (a.y - c.y) - (b.y - c.y) * (a.x - c.x - k);
      (b.x - c.x) * (a.y - c.y) - k * (a.y - c.y) - (b.y - c.y) * (a.x - c.x) + (b.y - c.y) * k;
      Edge(a, b, c) + (b.y - a.y) * k;
    }
  }

  /** Moving `c` by `k` rows changes the edge function by `k` times
      `a.x - b.x`: the per-row forward difference. */
  lemma EdgeShiftY(a: IVec2, b: IVec2, c: IVec2, k: int)
    ensures Edge(a, b, IVec2(c.x, c.y + k)) == Edge(a, b, c) + (a.x - b.x) * k
  {
    calc {
      Edge(a, b, IVec2(c.x, c.y + k));
      (b.x - c.x) * (a.y - c.y - k) - (b.y - c.y - k) * (a.x - c.x);
      (b.x - c.x) * (a.y - c.y) - (b.x - c.x) * k - (b.y - c.y) * (a.x - c.x) + k * (a.x - c.x);
      Edge(a, b, c) + (a.x - b.x) * k;
    }
  }

  /** A triangle given by its three corners, in the order the caller passes them. */
  datatype Triangle = Triangle(p0: IVec2, p1: IVec2, p2: IVec2) {

    /** Twice the signed area (`a` in the source); positive for the winding
        the rasterizer accepts. */
    function Area2(): (r: int)
      ensures p0 == p1 || p1 == p2 || p2 == p0 ==> r == 0
    {
      Edge(p0, p1, p2)
    }

    /** The three edge values at `q` (`w0`, `w1`, `w2` in the source): the
        barycentric weights of `q` scaled by `Area2()`. Each vanishes at
        the two corners of the edge it measures. */
    function W0(q: IVec2): (r: int)
      ensures q == p1 || q == p2 ==> r == 0
    {
      Edge(p1, p2, q)
    }

    function W1(q: IVec2): (r: int)
      ensures q == p2 || q == p0 ==> r == 0
    {
      Edge(p2, p0, q)
    }

    function W2(q: IVec2): (r: int)
      ensures q == p0 || q == p1 ==> r == 0
    {
      Edge(p0, p1, q)
    }

    /** `q` is inside or on the triangle: all three edge values are
        non-negative. Only a triangle of non-negative area covers anything. */
    function Covers(q: IVec2): (r: bool)
      ensures r ==> Area2() >= 0
    {
      WeightsSumToArea(this, q);
      W0(q) >= 0 && W1(q) >= 0 && W2(q) >= 0
    }

    function BoxMin(): IVec2 { Min2(p0, p1, p2) }
    function BoxMax(): IVec2 { Max2(p0, p1, p2) }

    /** `q` lies in the triangle's bounding box. */
    predicate InBox(q: IVec2)
    {
      BoxMin().x <= q.x <= BoxMax().x && BoxMin().y <= q.y <= BoxMax().y
    }

    /** `q` coincides with one of the corners (the source's three `equals` tests). */
    function IsVertex(q: IVec2): (r: bool)
      ensures r <==> q == p0 || q == p1 || q == p2
    {
      Equals(q, p0) || Equals(q, p1) || Equals(q, p2)
    }
  }

  /** Forward differences of the three edge values: one column to the right
      adds `a12`, `a20`, `a01`; `k` columns add `k` times those. */
  lemma WeightsShiftX(t: Triangle, q: IVec2, k: int)
    ensures t.W0(IVec2(q.x + k, q.y)) == t.W0(q) + (t.p2.y - t.p1.y) * k
    ensures t.W1(IVec2(q.x + k, q.y)) == t.W1(q) + (t.p0.y - t.p2.y) * k
    ensures t.W2(IVec2(q.x + k, q.y)) == t.W2(q) + (t.p1.y - t.p0.y) * k
  {
    EdgeShiftX(t.p1, t.p2, q, k);
    EdgeShiftX(t.p2, t.p0, q, k);
    EdgeShiftX(t.p0, t.p1, q, k);
  }

  /** One row down adds `b12`, `b20`, `b01` to the three edge values. */
  lemma WeightsStepY(t: Triangle, q: IVec2)
    ensures t.W0(IVec2(q.x, q.y + 1)) == t.W0(q) + (t.p1.x - t.p2.x)
    ensures t.W1(IVec2(q.x, q.y + 1)) == t.W1(q) + (t.p2.x - t.p0.x)
    ensures t.W2(IVec2(q.x, q.y + 1)) == t.W2(q) + (t.p0.x - t.p1.x)
  {
    EdgeShiftY(t.p1, t.p2, q, 1);
    EdgeShiftY(t.p2, t.p0, q, 1);
    EdgeShiftY(t.p0, t.p1, q, 1);
  }

  /** The three edge values at any point add up to twice the signed area. */
  lemma WeightsSumToArea(t: Triangle, q: IVec2)
    ensures t.W0(q) + t.W1(q) + t.W2(q) == t.Area2()
  {
    var p0, p1, p2 := t.p0, t.p1, t.p2;
    calc {
      t.W0(q) + t.W1(q) + t.W2(q);
      (p2.x - q.x) * (p1.y - q.y) - (p2.y - q.y) * (p1.x - q.x)
      + (p0.x - q.x) * (p2.y - q.y) - (p0.y - q.y) * (p2.x - q.x)
      + (p1.x - q.x) * (p0.y - q.y) - (p1.y - q.y) * (p0.x - q.x);
      p2.x * p1.y - p2.y * p1.x + p0.x * p2.y - p0.y * p2.x + p1.x * p0.y - p1.y * p0.x;
      (p1.x - p2.x) * (p0.y - p2.y) - (p1.y - p2.y) * (p0.x - p2.x);
      t.Area2();
    }
  }

  /** A triangle of the wrong winding (negative area) covers no point at all. */
  lemma NegativeAreaCoversNothing(t: Triangle, q: IVec2)
    requires t.Area2() < 0
    ensures !t.Covers(q)
  {
    WeightsSumToArea(t, q);
  }

  /** At a corner, the opposite edge value is the whole area and the other two vanish. */
  lemma VertexWeights(t: Triangle)
    ensures t.W0(t.p0) == t.Area2() && t.W1(t.p0) == 0 && t.W2(t.p0) == 0
    ensures t.W0(t.p1) == 0 && t.W1(t.p1) == t.Area2() && t.W2(t.p1) == 0
    ensures t.W0(t.p2) == 0 && t.W1(t.p2) == 0 && t.W2(t.p2) == t.Area2()
  {
    WeightsSumToArea(t, t.p0);
    WeightsSumToArea(t, t.p1);
    WeightsSumToArea(t, t.p2);
  }

  /** The edge values are barycentric weights: their weighted sum of the
      corners is `Area2()` times the point. */
  lemma Barycentric(t: Triangle, q: IVec2)
    ensures t.W0(q) * t.p0.x + t.W1(q) * t.p1.x + t.W2(q) * t.p2.x == t.Area2() * q.x
    ensures t.W0(q) * t.p0.y + t.W1(q) * t.p1.y + t.W2(q) * t.p2.y == t.Area2() * q.y
  {
    BarycentricX(t, q);
    BarycentricX(Triangle(IVec2(t.p0.y, t.p0.x), IVec2(t.p2.y, t.p2.x), IVec2(t.p1.y, t.p1.x)), IVec2(q.y, q.x));
  }

  /** The first coordinate of `Barycentric`; the second follows by swapping the axes. */
  lemma BarycentricX(t: Triangle, q: IVec2)
    ensures t.W0(q) * t.p0.x + t.W1(q) * t.p1.x + t.W2(q) * t.p2.x == t.Area2() * q.x
  {
    WeightsSumToArea(t, q);
  }

  lemma WeightedBounds(w0: int, w1: int, w2: int, u0: int, u1: int, u2: int, lo: int, hi: int)
    requires w0 >= 0 && w1 >= 0 && w2 >= 0
    requires lo <= u0 <= hi && lo <= u1 <= hi && lo <= u2 <= hi
    ensures (w0 + w1 + w2) * lo <= w0 * u0 + w1 * u1 + w2 * u2 <= (w0 + w1 + w2) * hi
  {
    assert w0 * lo <= w0 * u0 <= w0 * hi;
    assert w1 * lo <= w1 * u1 <= w1 * hi;
    assert w2 * lo <= w2 * u2 <= w2 * hi;
  }

  lemma CancelPositive(a: int, u: int, v: int)
    requires a > 0 && a * u <= a * v
    ensures u <= v
  {
    assert a * u - a * v == a * (u - v);
    assert u - v > 0 ==> a * (u - v) > 0;
  }

  /** Every point a positively wound triangle covers lies in its bounding box,
      so scanning the box misses no covered grid point. */
  lemma {:induction false} CoveredInBox(t: Triangle, q: IVec2)
    requires t.Area2() > 0 && t.Covers(q)
    ensures t.InBox(q)
  {
    var a := t.Area2();
    var lo, hi := t.BoxMin(), t.BoxMax();
    WeightsSumToArea(t, q);
    Barycentric(t, q);
    WeightedBounds(t.W0(q), t.W1(q), t.W2(q), t.p0.x, t.p1.x, t.p2.x, lo.x, hi.x);
    WeightedBounds(t.W0(q), t.W1(q), t.W2(q), t.p0.y, t.p1.y, t.p2.y, lo.y, hi.y);
    CancelPositive(a, lo.x, q.x);
    CancelPositive(a, q.x, hi.x);
    CancelPositive(a, lo.y, q.y);
    CancelPositive(a, q.y, hi.y);
  }

  lemma AffineStaysNegative(c: int, s: int, d2: int, d3: int)
    requires c >= 0 && c + s * d2 < 0 && 0 < d2 <= d3
    ensures c + s * d3 < 0
  {
    assert s >= 0 ==> s * d2 >= 0;
    assert s * d3 <= s * d2 by {
      assert s * d3 - s * d2 == s * (d3 - d2);
      assert s * (d3 - d2) <= 0;
    }
  }

  /** Along a row the covered pixels form one contiguous run: once a covered
      pixel has been followed by an uncovered one, every later pixel of the
      row is uncovered. This is why the scan may leave a row early. */
  lemma {:induction false} CoveredRunIsContiguous(t: Triangle, y: int, x1: int, x2: int, x3: int)
    requires x1 < x2 <= x3
    requires t.Covers(IVec2(x1, y)) && !t.Covers(IVec2(x2, y))
    ensures !t.Covers(IVec2(x3, y))
  {
    var c := IVec2(x1, y);
    EdgeShiftX(t.p1, t.p2, c, x2 - x1);
    EdgeShiftX(t.p1, t.p2, c, x3 - x1);
    EdgeShiftX(t.p2, t.p0, c, x2 - x1);
    EdgeShiftX(t.p2, t.p0, c, x3 - x1);
    EdgeShiftX(t.p0, t.p1, c, x2 - x1);
    EdgeShiftX(t.p0, t.p1, c, x3 - x1);
    var q2, q3 := IVec2(x2, y), IVec2(x3, y);
    if t.W0(q2) < 0 {
      AffineStaysNegative(t.W0(c), t.p2.y - t.p1.y, x2 - x1, x3 - x1);
    } else if t.W1(q2) < 0 {
      AffineStaysNegative(t.W1(c), t.p0.y - t.p2.y, x2 - x1, x3 - x1);
    } else {
      AffineStaysNegative(t.W2(c), t.p1.y - t.p0.y, x2 - x1, x3 - x1);
    }
  }

  /** The row-start skip: when an edge value `w` is negative at the row start
      and grows by `s` per column, every column before `Quot(-w, s)` still
      has a negative value, so none of them is covered. */
  lemma SkipStaysNegative(w: int, s: int, k: int)
    requires w < 0 && s != 0 && 0 <= k < Quot(-w, s)
    ensures w + s * k < 0
  {
    var q := Quot(-w, s);
    // a negative step would make the quotient non-positive
    MulMonotone(1, q, -s);
    assert q * -s == -(q * s);
    assert s > 0;
    MulMonotone(k + 1, q, s);
    assert (k + 1) * s == k * s + s;
  }

}
