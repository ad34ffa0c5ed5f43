/** The heightmap oracle and its per-triangle candidate search.

    Elevations are modelled as `real`. The search is specified twice: by a
    naive reference scan (`RowScan`, `BoxScan`, `CandidateOf`) that visits
    every pixel of the bounding box in row-major order and recomputes the
    edge values from scratch, and by `FindCandidate`, the source's
    rasterizer with forward differences, a row-start skip and an early
    row exit, which is proved to return exactly what the reference scan does. */
module Heightmaps {
  import opened Geometry

  /** The result of the candidate search (`std::pair<ivec2, float>`). */
  datatype Candidate = Candidate(point: IVec2, error: real)

  function RealAbs(r: real): real { if r < 0.0 then -r else r }

  /** Row-major scan order: `q` is visited before `p`. */
  predicate Precedes(q: IVec2, p: IVec2)
  {
    q.y < p.y || (q.y == p.y && q.x < p.x)
  }

  /** A `width` x `height` grid of elevation samples stored row by row.
      Every field is fixed by the constructor. */
  class Heightmap {
    const width: int
    const height: int
    const data: seq<real>

    /** Stores the dimensions and the samples as given; nothing is checked. */
    constructor (width: int, height: int, mat: seq<real>)
      ensures Width() == width && Height() == height && data == mat
    {
      this.width := width;
      this.height := height;
      this.data := mat;
    }

    function Width(): (w: int)
      ensures Valid() ==> w >= 0 && w * height == |data|
    {
      width
    }

    function Height(): (h: int)
      ensures Valid() ==> h >= 0 && width * h == |data|
    {
      height
    }

    /** The samples fill the grid exactly. */
    predicate Valid()
    {
      0 <= width && 0 <= height && |data| == width * height
    }

    predicate InGrid(p: IVec2)
    {
      0 <= p.x < width && 0 <= p.y < height
    }

    /** `At(x, y)`: sample `y * width + x`; reading outside the stored
        samples is undefined in the source, hence the precondition. */
    function At(x: int, y: int): (h: real)
      requires 0 <= y * width + x < |data|
      ensures h in data
    {
      data[y * width + x]
    }

    /** `At(p)`, the point overload, computes its own index expression;
        it agrees with `At(p.x, p.y)`. */
    function AtPoint(p: IVec2): (h: real)
      requires 0 <= p.y * width + p.x < |data|
      ensures h == At(p.x, p.y)
    {
      data[p.y * width + p.x]
    }

    /** Every grid coordinate addresses a stored sample. */
    lemma IndexInRange(p: IVec2)
      requires Valid() && InGrid(p)
      ensures 0 <= p.y * width + p.x < width * height
    {
      MulMonotone(0, p.y, width);
      MulMonotone(p.y + 1, height, width);
      assert (p.y + 1) * width == p.y * width + width;
    }

    /** Distinct grid coordinates address distinct samples. */
    lemma IndexInjective(p: IVec2, q: IVec2)
      requires Valid() && InGrid(p) && InGrid(q)
      requires p.y * width + p.x == q.y * width + q.x
      ensures p == q
    {
      assert (p.y - q.y) * width == q.x - p.x;
      ScaledNonzero(p.y - q.y, width);
    }

    lemma {:induction false} ScaledNonzero(d: int, w: int)
      requires w > 0
      ensures d > 0 ==> d * w >= w
      ensures d < 0 ==> d * w <= -w
      decreases if d < 0 then -d else d
    {
      if d > 1 {
        ScaledNonzero(d - 1, w);
        assert d * w == (d - 1) * w + w;
      } else if d < -1 {
        ScaledNonzero(d + 1, w);
        assert d * w == (d + 1) * w - w;
      }
    }

    /** Every stored sample is addressed by some grid coordinate, so the
        row-major addressing is a bijection between the grid and the samples. */
    lemma IndexOnto(i: int)
      requires Valid() && 0 <= i < |data|
      ensures width > 0
      ensures InGrid(IVec2(i % width, i / width))
      ensures (i / width) * width + i % width == i
    {
      assert width != 0;
      var y := i / width;
      assert y * width + i % width == i;
      assert y < height by {
        assert y >= height ==> y * width >= height * width;
      }
    }

    /** All three corners lie on the grid (the caller's obligation). */
    predicate TriangleInGrid(t: Triangle)
    {
      InGrid(t.p0) && InGrid(t.p1) && InGrid(t.p2)
    }

    /** A corner's elevation divided by twice the signed area (`z0`, `z1`, `z2`). */
    function PreDivided(p: IVec2, a: int): real
      requires Valid() && InGrid(p) && a != 0
    {
      IndexInRange(p);
      AtPoint(p) / (a as real)
    }

    /** The plane through the corner elevations `h0`, `h1`, `h2`, evaluated from
        the edge weights of a pixel; each elevation is divided by twice the
        signed area before it is weighted, as the rasterizer does. */
    function PlaneValue(h0: real, h1: real, h2: real, a: int, w0: int, w1: int, w2: int): real
      requires a != 0
    {
      (h0 / (a as real)) * (w0 as real) + (h1 / (a as real)) * (w1 as real) + (h2 / (a as real)) * (w2 as real)
    }

    /** The interpolation error at `q`: the pre-divided corner elevations
        weighted by the edge values at `q`, compared with the sample at `q`. */
    function Deviation(t: Triangle, q: IVec2): real
      requires Valid() && TriangleInGrid(t) && InGrid(q) && t.Area2() != 0
    {
      IndexInRange(q);
      IndexInRange(t.p0);
      IndexInRange(t.p1);
      IndexInRange(t.p2);
      var z := PlaneValue(AtPoint(t.p0), AtPoint(t.p1), AtPoint(t.p2), t.Area2(), t.W0(q), t.W1(q), t.W2(q));
      RealAbs(z - At(q.x, q.y))
    }

    /** A pixel that can become the candidate: on the grid, in the bounding
        box, covered, and of a non-degenerate triangle. */
    predicate Contender(t: Triangle, q: IVec2)
    {
      InGrid(q) && t.InBox(q) && t.Covers(q) && t.Area2() != 0
    }

    /** Visiting one pixel: a covered pixel whose error strictly exceeds the
        best so far replaces it. For a degenerate triangle (`Area2() == 0`)
        the source divides by zero and every covered pixel's error is NaN,
        which never compares greater, so nothing is replaced. */
    function Step(t: Triangle, best: Candidate, q: IVec2): Candidate
      requires Valid() && TriangleInGrid(t) && InGrid(q)
    {
      if t.Covers(q) && t.Area2() != 0 && Deviation(t, q) > best.error then
        Candidate(q, Deviation(t, q))
      else
        best
    }

    /** Reference scan of columns `lo .. hi - 1` of row `y`, starting from `best`. */
    function RowScan(t: Triangle, y: int, lo: int, hi: int, best: Candidate): Candidate
      requires Valid() && TriangleInGrid(t) && 0 <= y < height && 0 <= lo <= hi <= width
      decreases hi - lo
    {
      if hi == lo then best else Step(t, RowScan(t, y, lo, hi - 1, best), IVec2(hi - 1, y))
    }

    /** Reference scan of the bounding-box rows above `y`, starting from
        the source's initial `((0, 0), 0)`. */
    function BoxScan(t: Triangle, y: int): Candidate
      requires Valid() && TriangleInGrid(t) && t.BoxMin().y <= y <= t.BoxMax().y + 1
      decreases y - t.BoxMin().y
    {
      if y == t.BoxMin().y then
        Candidate(IVec2(0, 0), 0.0)
      else
        RowScan(t, y - 1, t.BoxMin().x, t.BoxMax().x + 1, BoxScan(t, y - 1))
    }

    /** The specified result of the candidate search: the scan of the whole
        box, with the error forced to zero when the point is a corner. */
    function CandidateOf(t: Triangle): Candidate
      requires Valid() && TriangleInGrid(t)
    {
      var r := BoxScan(t, t.BoxMax().y + 1);
      if t.IsVertex(r.point) then Candidate(r.point, 0.0) else r
    }

    /** The source's `FindCandidate`: rasterizes the triangle over its
        bounding box, row by row, with incrementally updated edge values, and
        returns the covered pixel of largest interpolation error. */
    method FindCandidate(p0: IVec2, p1: IVec2, p2: IVec2) returns (r: Candidate)
      requires Valid()
      requires InGrid(p0) && InGrid(p1) && InGrid(p2)
      ensures r == CandidateOf(Triangle(p0, p1, p2))
      ensures r.error >= 0.0
      ensures r.error > 0.0 ==>
                (Contender(Triangle(p0, p1, p2), r.point) && Deviation(Triangle(p0, p1, p2), r.point) == r.error)
      ensures forall q :: Contender(Triangle(p0, p1, p2), q) ==> Deviation(Triangle(p0, p1, p2), q) <= r.error
    {
      ghost var t := Triangle(p0, p1, p2);

      // triangle bounding box
      var min := Min2(p0, p1, p2);
      var max := Max2(p0, p1, p2);
      assert min == t.BoxMin() && max == t.BoxMax();

      // forward differencing variables
      var w00 := Edge(p1, p2, min);
      var w01 := Edge(p2, p0, min);
      var w02 := Edge(p0, p1, min);
      var b01 := p0.x - p1.x;
      var b12 := p1.x - p2.x;
      var b20 := p2.x - p0.x;

      // corner elevations pre-divided by the area (infinite or NaN when it is 0)
      var a := Edge(p0, p1, p2);
      IndexInRange(p0);
      IndexInRange(p1);
      IndexInRange(p2);
      var h0, h1, h2 := AtPoint(p0), AtPoint(p1), AtPoint(p2);
      var z0, z1, z2 := 0.0, 0.0, 0.0;
      if a != 0 {
        z0, z1, z2 := h0 / (a as real), h1 / (a as real), h2 / (a as real);
      }

      var maxError := 0.0;
      var maxPoint := IVec2(0, 0);
      var y := min.y;
      while y <= max.y
        invariant min.y <= y <= max.y + 1
        invariant w00 == Edge(p1, p2, IVec2(min.x, y))
        invariant w01 == Edge(p2, p0, IVec2(min.x, y))
        invariant w02 == Edge(p0, p1, IVec2(min.x, y))
        invariant Candidate(maxPoint, maxError) == BoxScan(t, y)
      {
        var best := ScanRow(p0, p1, p2, min.x, max.x, y, w00, w01, w02, a, z0, z1, z2, Candidate(maxPoint, maxError));
        maxPoint, maxError := best.point, best.error;

        RowStep(t, min.x, y, w00, w01, w02, b12, b20, b01);
        w00 := w00 + b12;
        w01 := w01 + b20;
        w02 := w02 + b01;
        y := y + 1;
      }

      if Equals(maxPoint, p0) || Equals(maxPoint, p1) || Equals(maxPoint, p2) {
        maxError := 0.0;
      }
      r := Candidate(maxPoint, maxError);
      CandidateIsWorstPixel(t);
    }

    /** One row of the scan (the body of the source's loop over `y`): skip
        the columns that cannot be covered, then walk the row with forward
        differences, leaving it as soon as the covered run has ended. */
    method ScanRow(p0: IVec2, p1: IVec2, p2: IVec2, minX: int, maxX: int, y: int,
                   w00: int, w01: int, w02: int, a: int, z0: real, z1: real, z2: real,
                   best: Candidate)
      returns (r: Candidate)
      requires Valid() && InGrid(p0) && InGrid(p1) && InGrid(p2) && 0 <= y < height
      requires minX == Min2(p0, p1, p2).x && maxX == Max2(p0, p1, p2).x
      requires w00 == Edge(p1, p2, IVec2(minX, y))
      requires w01 == Edge(p2, p0, IVec2(minX, y))
      requires w02 == Edge(p0, p1, IVec2(minX, y))
      requires a == Edge(p0, p1, p2)
      requires a != 0 ==> z0 == PreDivided(p0, a) && z1 == PreDivided(p1, a) && z2 == PreDivided(p2, a)
      ensures r == RowScan(Triangle(p0, p1, p2), y, minX, maxX + 1, best)
    {
      ghost var t := Triangle(p0, p1, p2);
      var a01 := p1.y - p0.y;
      var a12 := p2.y - p1.y;
      var a20 := p0.y - p2.y;
      var maxPoint, maxError := best.point, best.error;

      var x, w0, w1, w2 := RowStart(p0, p1, p2, minX, maxX, y, w00, w01, w02, best);
      var wasInside := false;
      ghost var lastInside := minX;

      while x <= maxX
        invariant minX <= x
        invariant w0 == t.W0(IVec2(x, y))
        invariant w1 == t.W1(IVec2(x, y))
        invariant w2 == t.W2(IVec2(x, y))
        invariant Candidate(maxPoint, maxError) == RowScan(t, y, minX, Min(x, maxX + 1), best)
        invariant wasInside ==> minX <= lastInside < x && t.Covers(IVec2(lastInside, y))
        decreases maxX + 1 - x
      {
        ghost var before := Candidate(maxPoint, maxError);
        assert Min(x, maxX + 1) == x && Min(x + 1, maxX + 1) == x + 1;
        // check if inside triangle
        if w0 >= 0 && w1 >= 0 && w2 >= 0 {
          wasInside := true;
          lastInside := x;
          maxPoint, maxError := VisitCovered(p0, p1, p2, x, y, a, z0, z1, z2, w0, w1, w2, maxPoint, maxError);
        } else if wasInside {
          RunEndsRow(t, y, minX, lastInside, x, maxX + 1, best);
          break;
        }
        assert Candidate(maxPoint, maxError) == Step(t, before, IVec2(x, y));

        NextColumn(t, x, y, w0, w1, w2, a12, a20, a01);
        w0 := w0 + a12;
        w1 := w1 + a20;
        w2 := w2 + a01;
        x := x + 1;
      }
      r := Candidate(maxPoint, maxError);
    }

    /** The work at a covered pixel: interpolate its elevation from the
        corners, and keep the pixel if its error exceeds the largest so far. */
    method VisitCovered(p0: IVec2, p1: IVec2, p2: IVec2, x: int, y: int, a: int,
                        z0: real, z1: real, z2: real, w0: int, w1: int, w2: int,
                        maxPoint: IVec2, maxError: real)
      returns (point: IVec2, error: real)
      requires Valid() && InGrid(p0) && InGrid(p1) && InGrid(p2) && InGrid(IVec2(x, y))
      requires a == Edge(p0, p1, p2)
      requires a != 0 ==> z0 == PreDivided(p0, a) && z1 == PreDivided(p1, a) && z2 == PreDivided(p2, a)
      requires w0 == Edge(p1, p2, IVec2(x, y)) && w1 == Edge(p2, p0, IVec2(x, y)) && w2 == Edge(p0, p1, IVec2(x, y))
      requires w0 >= 0 && w1 >= 0 && w2 >= 0
      ensures Candidate(point, error) == Step(Triangle(p0, p1, p2), Candidate(maxPoint, maxError), IVec2(x, y))
    {
      point, error := maxPoint, maxError;
      if a != 0 {
        // compute z using barycentric coordinates
        PixelDeviation(Triangle(p0, p1, p2), IVec2(x, y), a, z0, z1, z2, w0, w1, w2);
        var z := z0 * (w0 as real) + z1 * (w1 as real) + z2 * (w2 as real);
        var dz := RealAbs(z - At(x, y));
        if dz > error {
          error := dz;
          point := IVec2(x, y);
        }
      }
    }

    /** The start of a row: skip the leading columns `StartOffset` proves
        uncovered and move the edge values there. Returns the first column
        to visit and its three edge values. */
    method RowStart(p0: IVec2, p1: IVec2, p2: IVec2, minX: int, maxX: int, y: int,
                    w00: int, w01: int, w02: int, best: Candidate)
      returns (x: int, w0: int, w1: int, w2: int)
      requires Valid() && InGrid(p0) && InGrid(p1) && InGrid(p2) && 0 <= y < height
      requires minX == Min2(p0, p1, p2).x && maxX == Max2(p0, p1, p2).x
      requires w00 == Edge(p1, p2, IVec2(minX, y))
      requires w01 == Edge(p2, p0, IVec2(minX, y))
      requires w02 == Edge(p0, p1, IVec2(minX, y))
      ensures minX <= x
      ensures w0 == Edge(p1, p2, IVec2(x, y)) && w1 == Edge(p2, p0, IVec2(x, y)) && w2 == Edge(p0, p1, IVec2(x, y))
      ensures RowScan(Triangle(p0, p1, p2), y, minX, Min(x, maxX + 1), best) == best
    {
      ghost var t := Triangle(p0, p1, p2);
      assert 0 <= minX <= maxX < width;
      var a01 := p1.y - p0.y;
      var a12 := p2.y - p1.y;
      var a20 := p0.y - p2.y;

      var dx := StartOffset(p0, p1, p2, y, w00, w01, w02);

      w0 := w00 + a12 * dx;
      w1 := w01 + a20 * dx;
      w2 := w02 + a01 * dx;
      ColumnShift(t, IVec2(minX, y), dx, w00, w01, w02, a12, a20, a01);
      x := minX + dx;
      RowScanOutside(t, y, minX, minX, Min(x, maxX + 1), best);
    }

    /** The starting offset of a row: the largest number of leading columns
        that one edge function, still negative at the box's left edge and
        growing along the row, proves uncovered. */
    method StartOffset(p0: IVec2, p1: IVec2, p2: IVec2, y: int, w00: int, w01: int, w02: int)
      returns (dx: int)
      requires w00 == Edge(p1, p2, IVec2(Min2(p0, p1, p2).x, y))
      requires w01 == Edge(p2, p0, IVec2(Min2(p0, p1, p2).x, y))
      requires w02 == Edge(p0, p1, IVec2(Min2(p0, p1, p2).x, y))
      ensures dx >= 0
      ensures forall x :: Min2(p0, p1, p2).x <= x < Min2(p0, p1, p2).x + dx ==> !Triangle(p0, p1, p2).Covers(IVec2(x, y))
    {
      ghost var t := Triangle(p0, p1, p2);
      var a01 := p1.y - p0.y;
      var a12 := p2.y - p1.y;
      var a20 := p0.y - p2.y;
      dx := 0;
      if w00 < 0 && a12 != 0 {
        dx := Max(dx, Quot(-w00, a12));
      }
      if w01 < 0 && a20 != 0 {
        dx := Max(dx, Quot(-w01, a20));
      }
      if w02 < 0 && a01 != 0 {
        dx := Max(dx, Quot(-w02, a01));
      }
      SkippedColumnsUncovered(t, y, w00, w01, w02, dx);
    }

    /** The rasterizer's per-pixel arithmetic on its own variables is the
        deviation at that pixel. */
    lemma PixelDeviation(t: Triangle, q: IVec2, a: int, z0: real, z1: real, z2: real, w0: int, w1: int, w2: int)
      requires Valid() && TriangleInGrid(t) && InGrid(q) && a == t.Area2() && a != 0
      requires z0 == PreDivided(t.p0, a) && z1 == PreDivided(t.p1, a) && z2 == PreDivided(t.p2, a)
      requires w0 == t.W0(q) && w1 == t.W1(q) && w2 == t.W2(q)
      ensures 0 <= q.y * width + q.x < |data|
      ensures RealAbs(z0 * (w0 as real) + z1 * (w1 as real) + z2 * (w2 as real) - At(q.x, q.y)) == Deviation(t, q)
    {
      IndexInRange(q);
      IndexInRange(t.p0);
      IndexInRange(t.p1);
      IndexInRange(t.p2);
      PlaneOfPreDivided(AtPoint(t.p0), AtPoint(t.p1), AtPoint(t.p2), a, z0, z1, z2, w0, w1, w2);
    }

    lemma PlaneOfPreDivided(h0: real, h1: real, h2: real, a: int, z0: real, z1: real, z2: real, w0: int, w1: int, w2: int)
      requires a != 0 && z0 == h0 / (a as real) && z1 == h1 / (a as real) && z2 == h2 / (a as real)
      ensures z0 * (w0 as real) + z1 * (w1 as real) + z2 * (w2 as real) == PlaneValue(h0, h1, h2, a, w0, w1, w2)
    {
    }

    /** Forward differences along a row, over the rasterizer's own variables. */
    lemma ColumnShift(t: Triangle, q: IVec2, k: int, w0: int, w1: int, w2: int, a12: int, a20: int, a01: int)
      requires w0 == t.W0(q) && w1 == t.W1(q) && w2 == t.W2(q)
      requires a12 == t.p2.y - t.p1.y && a20 == t.p0.y - t.p2.y && a01 == t.p1.y - t.p0.y
      ensures t.W0(IVec2(q.x + k, q.y)) == w0 + a12 * k
      ensures t.W1(IVec2(q.x + k, q.y)) == w1 + a20 * k
      ensures t.W2(IVec2(q.x + k, q.y)) == w2 + a01 * k
    {
      WeightsShiftX(t, q, k);
    }

    /** Forward differences from one pixel to the next in its row. */
    lemma NextColumn(t: Triangle, x: int, y: int, w0: int, w1: int, w2: int, a12: int, a20: int, a01: int)
      requires w0 == t.W0(IVec2(x, y)) && w1 == t.W1(IVec2(x, y)) && w2 == t.W2(IVec2(x, y))
      requires a12 == t.p2.y - t.p1.y && a20 == t.p0.y - t.p2.y && a01 == t.p1.y - t.p0.y
      ensures w0 + a12 == t.W0(IVec2(x + 1, y))
      ensures w1 + a20 == t.W1(IVec2(x + 1, y))
      ensures w2 + a01 == t.W2(IVec2(x + 1, y))
    {
      WeightsShiftX(t, IVec2(x, y), 1);
    }

    /** Forward differences from one row start to the next. */
    lemma RowStep(t: Triangle, x: int, y: int, w0: int, w1: int, w2: int, b12: int, b20: int, b01: int)
      requires w0 == Edge(t.p1, t.p2, IVec2(x, y)) && w1 == Edge(t.p2, t.p0, IVec2(x, y)) && w2 == Edge(t.p0, t.p1, IVec2(x, y))
      requires b12 == t.p1.x - t.p2.x && b20 == t.p2.x - t.p0.x && b01 == t.p0.x - t.p1.x
      ensures w0 + b12 == Edge(t.p1, t.p2, IVec2(x, y + 1))
      ensures w1 + b20 == Edge(t.p2, t.p0, IVec2(x, y + 1))
      ensures w2 + b01 == Edge(t.p0, t.p1, IVec2(x, y + 1))
    {
      WeightsStepY(t, IVec2(x, y));
    }

    /** The columns the row-start offset `dx` skips are all uncovered: for
        each of them some edge value is still negative. */
    lemma SkippedColumnsUncovered(t: Triangle, y: int, w00: int, w01: int, w02: int, dx: int)
      requires w00 == t.W0(IVec2(t.BoxMin().x, y))
      requires w01 == t.W1(IVec2(t.BoxMin().x, y))
      requires w02 == t.W2(IVec2(t.BoxMin().x, y))
      requires dx == 0
            || (w00 < 0 && t.p2.y - t.p1.y != 0 && dx == Quot(-w00, t.p2.y - t.p1.y))
            || (w01 < 0 && t.p0.y - t.p2.y != 0 && dx == Quot(-w01, t.p0.y - t.p2.y))
            || (w02 < 0 && t.p1.y - t.p0.y != 0 && dx == Quot(-w02, t.p1.y - t.p0.y))
      ensures forall x :: t.BoxMin().x <= x < t.BoxMin().x + dx ==> !t.Covers(IVec2(x, y))
    {
      var c := IVec2(t.BoxMin().x, y);
      forall x | c.x <= x < c.x + dx
        ensures !t.Covers(IVec2(x, y))
      {
        var k := x - c.x;
        if w00 < 0 && t.p2.y - t.p1.y != 0 && dx == Quot(-w00, t.p2.y - t.p1.y) {
          SkipStaysNegative(w00, t.p2.y - t.p1.y, k);
          EdgeShiftX(t.p1, t.p2, c, k);
        } else if w01 < 0 && t.p0.y - t.p2.y != 0 && dx == Quot(-w01, t.p0.y - t.p2.y) {
          SkipStaysNegative(w01, t.p0.y - t.p2.y, k);
          EdgeShiftX(t.p2, t.p0, c, k);
        } else {
          SkipStaysNegative(w02, t.p1.y - t.p0.y, k);
          EdgeShiftX(t.p0, t.p1, c, k);
        }
      }
    }

    /** Uncovered pixels at the end of a row do not change the reference scan. */
    lemma {:induction false} RowScanOutside(t: Triangle, y: int, lo: int, mid: int, hi: int, best: Candidate)
      requires Valid() && TriangleInGrid(t) && 0 <= y < height && 0 <= lo <= mid <= hi <= width
      requires forall x :: mid <= x < hi ==> !t.Covers(IVec2(x, y))
      ensures RowScan(t, y, lo, hi, best) == RowScan(t, y, lo, mid, best)
      decreases hi - mid
    {
      if mid < hi {
        RowScanOutside(t, y, lo, mid, hi - 1, best);
      }
    }

    /** Once the covered run of a row has ended at `x`, the rest of the row
        leaves the reference scan unchanged: the early exit is sound. */
    lemma RunEndsRow(t: Triangle, y: int, lo: int, last: int, x: int, hi: int, best: Candidate)
      requires Valid() && TriangleInGrid(t) && 0 <= y < height && 0 <= lo <= last < x <= hi <= width
      requires t.Covers(IVec2(last, y)) && !t.Covers(IVec2(x, y))
      ensures RowScan(t, y, lo, hi, best) == RowScan(t, y, lo, x, best)
    {
      forall x' | x <= x' < hi
        ensures !t.Covers(IVec2(x', y))
      {
        CoveredRunIsContiguous(t, y, last, x, x');
      }
      RowScanOutside(t, y, lo, x, hi, best);
    }

    /** What the reference scan has established once every box pixel
        before `(x, y)` in row-major order has been visited: the error is
        non-negative; it is zero only at the initial point `(0, 0)`;
        a positive error belongs to a visited contender, and is strictly
        larger than that of every contender visited before it; and no
        visited contender has a larger error. */
    ghost predicate ScanSummary(t: Triangle, r: Candidate, y: int, x: int)
      requires Valid() && TriangleInGrid(t)
    {
      && r.error >= 0.0
      && (r.error == 0.0 ==> r.point == IVec2(0, 0))
      && (r.error > 0.0 ==>
            && Contender(t, r.point)
            && Precedes(r.point, IVec2(x, y))
            && Deviation(t, r.point) == r.error
            && (forall q :: Contender(t, q) && Precedes(q, r.point) ==> Deviation(t, q) < r.error))
      && (forall q :: Contender(t, q) && Precedes(q, IVec2(x, y)) ==> Deviation(t, q) <= r.error)
    }

    /** Visiting one box pixel keeps the summary, one pixel further on. */
    lemma StepKeepsSummary(t: Triangle, r: Candidate, p: IVec2)
      requires Valid() && TriangleInGrid(t) && InGrid(p) && t.InBox(p)
      requires ScanSummary(t, r, p.y, p.x)
      ensures ScanSummary(t, Step(t, r, p), p.y, p.x + 1)
    {
      var s := Step(t, r, p);
      var next := IVec2(p.x + 1, p.y);
      forall q | Contender(t, q) && Precedes(q, next)
        ensures Deviation(t, q) <= s.error
      {
        if q != p {
          assert Precedes(q, IVec2(p.x, p.y));
        }
      }
      if s != r {
        forall q | Contender(t, q) && Precedes(q, s.point)
          ensures Deviation(t, q) < s.error
        {
          assert Precedes(q, IVec2(p.x, p.y));
        }
      }
    }

    /** Scanning a row of the box from its left edge extends the summary to the end of that stretch. */
    lemma {:induction false} RowScanSummary(t: Triangle, y: int, x: int, b: Candidate)
      requires Valid() && TriangleInGrid(t)
      requires t.BoxMin().y <= y <= t.BoxMax().y && t.BoxMin().x <= x <= t.BoxMax().x + 1
      requires ScanSummary(t, b, y, t.BoxMin().x)
      ensures ScanSummary(t, RowScan(t, y, t.BoxMin().x, x, b), y, x)
      decreases x - t.BoxMin().x
    {
      if x > t.BoxMin().x {
        RowScanSummary(t, y, x - 1, b);
        StepKeepsSummary(t, RowScan(t, y, t.BoxMin().x, x - 1, b), IVec2(x - 1, y));
      }
    }

    /** Past the right edge of the box, row `y` is done: the summary holds
        at the left edge of row `y + 1`. */
    lemma RowEndSummary(t: Triangle, r: Candidate, y: int)
      requires Valid() && TriangleInGrid(t)
      requires ScanSummary(t, r, y, t.BoxMax().x + 1)
      ensures ScanSummary(t, r, y + 1, t.BoxMin().x)
    {
      forall q | Contender(t, q) && Precedes(q, IVec2(t.BoxMin().x, y + 1))
        ensures Precedes(q, IVec2(t.BoxMax().x + 1, y))
      {
      }
    }

    /** The reference scan of the rows above `y` summarizes exactly those rows. */
    lemma {:induction false} BoxScanSummary(t: Triangle, y: int)
      requires Valid() && TriangleInGrid(t) && t.BoxMin().y <= y <= t.BoxMax().y + 1
      ensures ScanSummary(t, BoxScan(t, y), y, t.BoxMin().x)
      decreases y - t.BoxMin().y
    {
      if y > t.BoxMin().y {
        BoxScanSummary(t, y - 1);
        RowScanSummary(t, y - 1, t.BoxMax().x + 1, BoxScan(t, y - 1));
        RowEndSummary(t, BoxScan(t, y), y - 1);
      }
    }

    /** In exact arithmetic the interpolating plane passes through the three
        corner elevations: the error at each corner is zero. */
    lemma VertexDeviationZero(t: Triangle)
      requires Valid() && TriangleInGrid(t) && t.Area2() != 0
      ensures Deviation(t, t.p0) == 0.0 && Deviation(t, t.p1) == 0.0 && Deviation(t, t.p2) == 0.0
    {
      VertexWeights(t);
      IndexInRange(t.p0);
      IndexInRange(t.p1);
      IndexInRange(t.p2);
      PlaneThroughCorners(AtPoint(t.p0), AtPoint(t.p1), AtPoint(t.p2), t.Area2());
    }

    lemma PlaneThroughCorners(h0: real, h1: real, h2: real, a: int)
      requires a != 0
      ensures PlaneValue(h0, h1, h2, a, a, 0, 0) == h0
      ensures PlaneValue(h0, h1, h2, a, 0, a, 0) == h1
      ensures PlaneValue(h0, h1, h2, a, 0, 0, a) == h2
    {
    }

    /** The candidate is the worst covered pixel of the box: its error is
        non-negative and bounds the error of every contender; a positive
        error is the error of a contender that is not a corner, and every
        contender before it in row-major order has a strictly smaller error;
        a zero error comes with the point `(0, 0)`. In exact arithmetic the
        maximum is never at a corner, so the coincident-vertex rule leaves
        the scan's result unchanged. */
    lemma CandidateIsWorstPixel(t: Triangle)
      requires Valid() && TriangleInGrid(t)
      ensures CandidateOf(t) == BoxScan(t, t.BoxMax().y + 1)
      ensures CandidateOf(t).error >= 0.0
      ensures CandidateOf(t).error == 0.0 ==> CandidateOf(t).point == IVec2(0, 0)
      ensures CandidateOf(t).error > 0.0 ==>
                (Contender(t, CandidateOf(t).point) && !t.IsVertex(CandidateOf(t).point)
                 && Deviation(t, CandidateOf(t).point) == CandidateOf(t).error)
      ensures CandidateOf(t).error > 0.0 ==>
                forall q :: Contender(t, q) && Precedes(q, CandidateOf(t).point) ==> Deviation(t, q) < CandidateOf(t).error
      ensures forall q :: Contender(t, q) ==> Deviation(t, q) <= CandidateOf(t).error
    {
      var y := t.BoxMax().y + 1;
      var r := BoxScan(t, y);
      BoxScanSummary(t, y);
      if r.error > 0.0 {
        VertexDeviationZero(t);
      }
      forall q | Contender(t, q)
        ensures Precedes(q, IVec2(t.BoxMin().x, y))
      {
      }
    }

    /** A triangle of non-positive area yields `((0, 0), 0)`: with the wrong
        winding no pixel is covered, and a degenerate triangle's errors are
        never compared as greater. */
    lemma NonPositiveAreaFindsNothing(t: Triangle)
      requires Valid() && TriangleInGrid(t) && t.Area2() <= 0
      ensures CandidateOf(t) == Candidate(IVec2(0, 0), 0.0)
    {
      CandidateIsWorstPixel(t);
      if CandidateOf(t).error > 0.0 {
        NegativeAreaCoversNothing(t, CandidateOf(t).point);
      }
    }

    /** Restricting the scan to the bounding box loses nothing: the error
        bounds that of every covered grid point, in the box or not. */
    lemma CandidateBoundsEveryCoveredPoint(t: Triangle, q: IVec2)
      requires Valid() && TriangleInGrid(t) && InGrid(q) && t.Covers(q) && t.Area2() != 0
      ensures Deviation(t, q) <= CandidateOf(t).error
    {
      if t.Area2() < 0 {
        NegativeAreaCoversNothing(t, q);
      } else {
        CoveredInBox(t, q);
      }
      CandidateIsWorstPixel(t);
    }
  }
}
