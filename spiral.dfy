/** An Euler-spiral road segment: the constructor's derived parameters and
    `get_point`, which places the segment on a canonical spiral through the
    affine change of arclength `s |-> s - s0 + curvStart / cDot`. */
module SpiralGeometry {
  import opened Wrappers
  import opened Numerics
  import opened Geometry

  datatype Spiral = Spiral(
    s0: real, x0: real, y0: real, hdg0: real, length: real,
    curvStart: real, curvEnd: real,
    cDot: real,    // curvature rate
    sStart: real,  // canonical-spiral arclength whose curvature is curvStart
    sEnd: real)    // canonical-spiral arclength whose curvature is curvEnd

  /** The derived fields are those the constructor computes. */
  ghost predicate WellFormed(sp: Spiral) {
    && sp.length != 0.0
    && sp.cDot != 0.0
    && sp.cDot == (sp.curvEnd - sp.curvStart) / sp.length
    && sp.sStart == sp.curvStart / sp.cDot
    && sp.sEnd == sp.curvEnd / sp.cDot
  }

  /** `Spiral::Spiral`. Where the source divides by zero (a zero length, or equal
      boundary curvatures and so a zero curvature rate) the result is `None`. */
  function NewSpiral(s0: real, x0: real, y0: real, hdg0: real, length: real,
                     curvStart: real, curvEnd: real): (r: Option<Spiral>)
    ensures r.Some? <==> length != 0.0 && curvStart != curvEnd
    ensures r.Some? ==> WellFormed(r.value)
    ensures r.Some? ==>
              && r.value.s0 == s0 && r.value.x0 == x0 && r.value.y0 == y0
              && r.value.hdg0 == hdg0 && r.value.length == length
              && r.value.curvStart == curvStart && r.value.curvEnd == curvEnd
  {
    if length == 0.0 || curvStart == curvEnd then None
    else
      var cDot := (curvEnd - curvStart) / length;
      Some(Spiral(s0, x0, y0, hdg0, length, curvStart, curvEnd,
                  cDot, curvStart / cDot, curvEnd / cDot))
  }

  /** The canonical-spiral arclength that road arclength `s` is evaluated at. */
  function SpiralParam(sp: Spiral, s: real): real
    requires sp.cDot != 0.0
  {
    s - sp.s0 + sp.curvStart / sp.cDot
  }

  /** The canonical spiral of rate `cDot` has curvature `cDot * p` at `p`. */
  function CanonicalCurvature(cDot: real, p: real): real {
    cDot * p
  }

  /** The affine reparametrisation reproduces both boundary curvatures, the
      curvature in between is linear in `s`, and `sStart`/`sEnd` are the
      canonical arclengths of the two ends, `length` apart. */
  lemma AlignmentReproducesCurvature(sp: Spiral, s: real)
    requires WellFormed(sp)
    ensures CanonicalCurvature(sp.cDot, SpiralParam(sp, sp.s0)) == sp.curvStart
    ensures CanonicalCurvature(sp.cDot, SpiralParam(sp, sp.s0 + sp.length)) == sp.curvEnd
    ensures CanonicalCurvature(sp.cDot, SpiralParam(sp, s))
            == sp.curvStart + (sp.curvEnd - sp.curvStart) * (s - sp.s0) / sp.length
    ensures sp.sStart == SpiralParam(sp, sp.s0) && sp.sEnd == SpiralParam(sp, sp.s0 + sp.length)
    ensures sp.sEnd - sp.sStart == sp.length
  {
    var c, l, k, e := sp.cDot, sp.length, sp.curvStart, sp.curvEnd;
    var q := k / c;
    MulDiv(k, c);
    MulDiv(e - k, l);
    assert c * l == e - k;
    LinearInS(c, q, k, s - sp.s0, l, e);
    assert SpiralParam(sp, s) == (s - sp.s0) + q;
    assert SpiralParam(sp, sp.s0 + l) == l + q;
    LinearInS(c, q, k, l, l, e);
    assert c * (l + q) == e;
    assert sp.sEnd == e / c;
    MulDiv(l + q, c);
    assert e / c == (c * (l + q)) / c == l + q;
  }

  lemma LinearInS(c: real, q: real, k: real, u: real, l: real, e: real)
    requires c * q == k && l != 0.0 && c * l == e - k
    ensures c * (u + q) == k + (e - k) * u / l
  {
    assert c * (u + q) == c * u + k;
    assert (e - k) * u / l == (c * l) * u / l == c * u;
  }

  /** `Spiral::get_point`: both evaluator calls use the same curvature rate and
      only differences of their positions reach the result, so the segment
      starts at its origin whatever the evaluator, `cos` and `sin` return. */
  function GetPoint(sp: Spiral, num: Primitives, s: real, t: real): (p: Point2D)
    requires sp.cDot != 0.0
    ensures s == sp.s0 && t == 0.0 ==> p == Point2D(sp.x0, sp.y0)
  {
    var s0Spiral := sp.curvStart / sp.cDot;
    var start := num.odrSpiral(s0Spiral, sp.cDot);
    var here := num.odrSpiral(s - sp.s0 + s0Spiral, sp.cDot);
    var tx := t * num.cos(here.a + num.pi / 2.0);
    var ty := t * num.sin(here.a + num.pi / 2.0);
    var hdg := sp.hdg0 - start.a;
    RotateTranslate(num.cos, num.sin, hdg, here.x - start.x + tx, here.y - start.y + ty, sp.x0, sp.y0)
  }

  /** `(px, py)` turned by `hdg` and moved by `(ox, oy)`. */
  function RotateTranslate(cos: real -> real, sin: real -> real, hdg: real, px: real, py: real, ox: real, oy: real): (r: Point2D)
    ensures px == 0.0 && py == 0.0 ==> r == Point2D(ox, oy)
  {
    Point2D(cos(hdg) * px - sin(hdg) * py + ox, sin(hdg) * px + cos(hdg) * py + oy)
  }

  /** `get_point` as the rotation of the canonical displacement from the start.
      Proof step only: it unfolds `GetPoint` so that proofs about two evaluators
      can match terms. */
  lemma GetPointFrame(sp: Spiral, num: Primitives, s: real, t: real)
    requires sp.cDot != 0.0
    ensures var start := num.odrSpiral(sp.curvStart / sp.cDot, sp.cDot);
            var here := num.odrSpiral(s - sp.s0 + sp.curvStart / sp.cDot, sp.cDot);
            GetPoint(sp, num, s, t)
            == RotateTranslate(num.cos, num.sin, sp.hdg0 - start.a, here.x - start.x + t * num.cos(here.a + num.pi / 2.0),
                               here.y - start.y + t * num.sin(here.a + num.pi / 2.0), sp.x0, sp.y0)
  {
  }

  /** The evaluator with every position moved by `(dx, dy)`. */
  function ShiftEvaluator(num: Primitives, dx: real, dy: real): Primitives {
    num.(odrSpiral := (p: real, k: real) =>
      SpiralState(num.odrSpiral(p, k).x + dx, num.odrSpiral(p, k).y + dy, num.odrSpiral(p, k).a))
  }

  /** A constant error in the evaluator's positions cancels out of every point. */
  lemma PointUsesOnlyDifferences(sp: Spiral, num: Primitives, dx: real, dy: real, s: real, t: real)
    requires sp.cDot != 0.0
    ensures GetPoint(sp, ShiftEvaluator(num, dx, dy), s, t) == GetPoint(sp, num, s, t)
  {
    var s0Spiral := sp.curvStart / sp.cDot;
    var m := ShiftEvaluator(num, dx, dy);
    var p0, p1 := s0Spiral, s - sp.s0 + s0Spiral;
    var a0, a1 := num.odrSpiral(p0, sp.cDot), num.odrSpiral(p1, sp.cDot);
    assert m.odrSpiral(p0, sp.cDot) == SpiralState(a0.x + dx, a0.y + dy, a0.a);
    assert m.odrSpiral(p1, sp.cDot) == SpiralState(a1.x + dx, a1.y + dy, a1.a);
    assert (a1.x + dx) - (a0.x + dx) == a1.x - a0.x;
    assert (a1.y + dy) - (a0.y + dy) == a1.y - a0.y;
    assert m.cos == num.cos && m.sin == num.sin && m.pi == num.pi;
    GetPointFrame(sp, num, s, t);
    GetPointFrame(sp, m, s, t);
  }

  /** The heading of the frame `get_point` uses at `s`: the canonical heading at
      `s`, turned by the rotation `hdg0 - a0` that aligns the canonical start
      heading with `hdg0`. The lateral offset is taken at this heading plus pi/2. */
  function PointHeading(sp: Spiral, num: Primitives, s: real): (h: real)
    requires sp.cDot != 0.0
    ensures s == sp.s0 ==> h == sp.hdg0
  {
    var s0Spiral := sp.curvStart / sp.cDot;
    (sp.hdg0 - num.odrSpiral(s0Spiral, sp.cDot).a) + num.odrSpiral(s - sp.s0 + s0Spiral, sp.cDot).a
  }

  /** The lateral offset of `get_point`: the point at `(s, t)` is the centerline
      point at `s` plus the offset `t` along the canonical normal direction
      `a(s) + pi/2`, turned by the same rotation `hdg0 - a0` as the centerline.
      The turned direction is `PointHeading(s) + pi/2`. */
  lemma OffsetAlongFrameNormal(sp: Spiral, num: Primitives, s: real, t: real)
    requires sp.cDot != 0.0
    ensures var start := num.odrSpiral(sp.curvStart / sp.cDot, sp.cDot);
            var here := num.odrSpiral(s - sp.s0 + sp.curvStart / sp.cDot, sp.cDot);
            var hdg, dir := sp.hdg0 - start.a, here.a + num.pi / 2.0;
            var tx, ty := t * num.cos(dir), t * num.sin(dir);
            && GetPoint(sp, num, s, t).x - GetPoint(sp, num, s, 0.0).x == num.cos(hdg) * tx - num.sin(hdg) * ty
            && GetPoint(sp, num, s, t).y - GetPoint(sp, num, s, 0.0).y == num.sin(hdg) * tx + num.cos(hdg) * ty
            && hdg + dir == PointHeading(sp, num, s) + num.pi / 2.0
  {
    var start := num.odrSpiral(sp.curvStart / sp.cDot, sp.cDot);
    var here := num.odrSpiral(s - sp.s0 + sp.curvStart / sp.cDot, sp.cDot);
    var hdg, dir := sp.hdg0 - start.a, here.a + num.pi / 2.0;
    var tx, ty := t * num.cos(dir), t * num.sin(dir);
    GetPointFrame(sp, num, s, t);
    GetPointFrame(sp, num, s, 0.0);
    RotationIsLinear(num.cos, num.sin, hdg, here.x - start.x, here.y - start.y, tx, ty,
                     0.0 * num.cos(dir), 0.0 * num.sin(dir), sp.x0, sp.y0);
  }

  /** Moving the displacement by `(a, b)` moves the rotated point by `(a, b)` rotated.
      Proof step only: `a0` and `b0` are zero and stand for the code's `0 * cos(...)`
      offset terms, so that the point at `t = 0` matches syntactically. */
  lemma RotationIsLinear(cos: real -> real, sin: real -> real, hdg: real, px: real, py: real,
                         a: real, b: real, a0: real, b0: real, ox: real, oy: real)
    requires a0 == 0.0 && b0 == 0.0
    ensures RotateTranslate(cos, sin, hdg, px + a, py + b, ox, oy).x - RotateTranslate(cos, sin, hdg, px + a0, py + b0, ox, oy).x
            == cos(hdg) * a - sin(hdg) * b
    ensures RotateTranslate(cos, sin, hdg, px + a, py + b, ox, oy).y - RotateTranslate(cos, sin, hdg, px + a0, py + b0, ox, oy).y
            == sin(hdg) * a + cos(hdg) * b
  {
  }

  /** The heading polynomial in `u = s - s0` that the bounding-box formulas solve. */
  function Heading(sp: Spiral, u: real): real {
    sp.hdg0 + sp.curvStart * u + sp.cDot * u * u / 2.0
  }

  /** With an evaluator whose heading is the canonical `cDot * p^2 / 2`, the
      heading of `get_point` is the polynomial the bounding box solves. */
  lemma PointHeadingIsPolynomial(sp: Spiral, num: Primitives, s: real)
    requires WellFormed(sp)
    requires forall p :: num.odrSpiral(p, sp.cDot).a == sp.cDot * p * p / 2.0
    ensures PointHeading(sp, num, s) == Heading(sp, s - sp.s0)
  {
    var c, q, u := sp.cDot, sp.curvStart / sp.cDot, s - sp.s0;
    assert c * q == sp.curvStart;
    assert num.odrSpiral(q, c).a == c * q * q / 2.0;
    assert num.odrSpiral(u + q, c).a == c * (u + q) * (u + q) / 2.0;
    calc {
      c * (u + q) * (u + q) / 2.0 - c * q * q / 2.0;
      c * u * u / 2.0 + (c * q) * u;
      c * u * u / 2.0 + sp.curvStart * u;
    }
  }
}
