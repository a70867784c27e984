/** `Spiral::get_bbox`: closed-form arclengths where the x or y coordinate of the
    centerline has a critical point, collected with the two segment ends and
    reduced to an axis-aligned box. */
module SpiralBBox {
  import opened Wrappers
  import opened Numerics
  import opened Geometry
  import opened SpiralGeometry

  /** The four extremum formulas, selected by tag. */
  datatype Formula = XExtrema1 | XExtrema2 | YExtrema1 | YExtrema2 {
    predicate IsX() {
      XExtrema1? || XExtrema2?
    }
  }

  /** The formulas tried in the x pass and in the y pass, in source order. */
  function PassFormulas(isX: bool): (fs: seq<Formula>)
    ensures |fs| == 2 && fs[0] != fs[1]
    ensures forall k :: 0 <= k < |fs| ==> fs[k].IsX() == isX
  {
    if isX then [XExtrema1, XExtrema2] else [YExtrema1, YExtrema2]
  }

  /** Headings at which `cos` (x pass: pi/2 - n pi) or `sin` (y pass: -n pi) vanishes. */
  function Target(pi: real, isX: bool, n: int): real {
    if isX then pi / 2.0 - (n as real) * pi else -(n as real) * pi
  }

  /** Arclength `s` is a critical point of x (`isX`) or y, with index `n`. */
  predicate IsExtremum(sp: Spiral, pi: real, isX: bool, s: real, n: int) {
    Heading(sp, s - sp.s0) == Target(pi, isX, n)
  }

  /** The quantity under `std::sqrt` in each formula. */
  function Discriminant(sp: Spiral, pi: real, f: Formula, n: int): real {
    if f.IsX() then
      sp.curvStart * sp.curvStart + sp.cDot * (-2.0 * sp.hdg0 - 2.0 * pi * (n as real) + pi)
    else
      sp.curvStart * sp.curvStart + 2.0 * sp.cDot * (-sp.hdg0 - pi * (n as real))
  }

  /** One formula at one `n`; `None` where the source's `sqrt` yields NaN. */
  function Root(sp: Spiral, num: Primitives, f: Formula, n: int): (r: Option<real>)
    requires sp.cDot != 0.0
    ensures r.Some? <==> Discriminant(sp, num.pi, f, n) >= 0.0
  {
    var d := Discriminant(sp, num.pi, f, n);
    if d < 0.0 then None
    else
      var q := num.sqrt(d);
      match f
      case XExtrema1 => Some((q - sp.curvStart) / sp.cDot + sp.s0)
      case XExtrema2 => Some(-(q + sp.curvStart) / sp.cDot + sp.s0)
      case YExtrema1 => Some(-(q + sp.curvStart) / sp.cDot + sp.s0)
      case YExtrema2 => Some((q - sp.curvStart) / sp.cDot + sp.s0)
  }

  // ---------------------------------------------------------------------------
  // The formulas solve the heading equation, and nothing else does

  /** `curvStart^2 + 2 cDot (t - hdg0)`: the discriminant of heading == t. */
  function Shifted(sp: Spiral, t: real): real {
    sp.curvStart * sp.curvStart + 2.0 * sp.cDot * (t - sp.hdg0)
  }

  /** Completing the square of the heading polynomial. */
  lemma HeadingSquare(sp: Spiral, u: real)
    ensures (sp.cDot * u + sp.curvStart) * (sp.cDot * u + sp.curvStart) == Shifted(sp, Heading(sp, u))
  {
  }

  lemma DiscriminantIsShifted(sp: Spiral, pi: real, f: Formula, n: int)
    ensures Discriminant(sp, pi, f, n) == Shifted(sp, Target(pi, f.IsX(), n))
  {
  }

  /** A root of the completed square solves the heading equation. */
  lemma QuadraticRoot(sp: Spiral, t: real, q: real, u: real)
    requires sp.cDot != 0.0
    requires q * q == Shifted(sp, t)
    requires sp.cDot * u + sp.curvStart == q || sp.cDot * u + sp.curvStart == -q
    ensures Heading(sp, u) == t
  {
    var c, k, h0 := sp.cDot, sp.curvStart, sp.hdg0;
    HeadingSquare(sp, u);
    assert (c * u + k) * (c * u + k) == q * q;
    assert Shifted(sp, Heading(sp, u)) == Shifted(sp, t);
    assert (2.0 * c) * (Heading(sp, u) - t) == Shifted(sp, Heading(sp, u)) - Shifted(sp, t);
    ProductZero(2.0 * c, Heading(sp, u) - t);
  }

  /** Each formula's value, when defined, is a root of heading == target; when it
      is undefined (negative discriminant) the heading never meets the target. */
  lemma RootSolvesHeading(sp: Spiral, num: Primitives, f: Formula, n: int)
    requires sp.cDot != 0.0 && num.Valid()
    ensures Root(sp, num, f, n).Some? <==> Discriminant(sp, num.pi, f, n) >= 0.0
    ensures Root(sp, num, f, n).Some? ==> IsExtremum(sp, num.pi, f.IsX(), Root(sp, num, f, n).value, n)
    ensures Root(sp, num, f, n).None? ==> forall u :: Heading(sp, u) != Target(num.pi, f.IsX(), n)
  {
    var d, t := Discriminant(sp, num.pi, f, n), Target(num.pi, f.IsX(), n);
    DiscriminantIsShifted(sp, num.pi, f, n);
    if d >= 0.0 {
      DefinedRootSolves(sp, num, f, n);
    } else {
      NoSolutionBelowZero(sp, t);
    }
  }

  lemma DefinedRootSolves(sp: Spiral, num: Primitives, f: Formula, n: int)
    requires sp.cDot != 0.0 && num.Valid()
    requires Discriminant(sp, num.pi, f, n) >= 0.0
    ensures Root(sp, num, f, n).Some?
    ensures Heading(sp, Root(sp, num, f, n).value - sp.s0) == Target(num.pi, f.IsX(), n)
  {
    var c, k := sp.cDot, sp.curvStart;
    var d, t := Discriminant(sp, num.pi, f, n), Target(num.pi, f.IsX(), n);
    DiscriminantIsShifted(sp, num.pi, f, n);
    var q := num.sqrt(d);
    assert q * q == Shifted(sp, t);
    match f
    case XExtrema1 =>
      assert Root(sp, num, f, n).value - sp.s0 == (q - k) / c;
      PlusBranch(sp, t, q);
    case YExtrema2 =>
      assert Root(sp, num, f, n).value - sp.s0 == (q - k) / c;
      PlusBranch(sp, t, q);
    case XExtrema2 =>
      assert Root(sp, num, f, n).value - sp.s0 == -(q + k) / c;
      MinusBranch(sp, t, q);
    case YExtrema1 =>
      assert Root(sp, num, f, n).value - sp.s0 == -(q + k) / c;
      MinusBranch(sp, t, q);
  }

  /** The `+sqrt` branch of the quadratic formula solves heading == t. */
  lemma PlusBranch(sp: Spiral, t: real, q: real)
    requires sp.cDot != 0.0 && q * q == Shifted(sp, t)
    ensures Heading(sp, (q - sp.curvStart) / sp.cDot) == t
  {
    var u := (q - sp.curvStart) / sp.cDot;
    MulDiv(q - sp.curvStart, sp.cDot);
    QuadraticRoot(sp, t, q, u);
  }

  /** The `-sqrt` branch of the quadratic formula solves heading == t. */
  lemma MinusBranch(sp: Spiral, t: real, q: real)
    requires sp.cDot != 0.0 && q * q == Shifted(sp, t)
    ensures Heading(sp, -(q + sp.curvStart) / sp.cDot) == t
  {
    var u := -(q + sp.curvStart) / sp.cDot;
    MulDiv(-(q + sp.curvStart), sp.cDot);
    QuadraticRoot(sp, t, q, u);
  }

  /** A negative discriminant leaves the heading equation without a real root. */
  lemma NoSolutionBelowZero(sp: Spiral, t: real)
    requires Shifted(sp, t) < 0.0
    ensures forall u :: Heading(sp, u) != t
  {
    forall u ensures Heading(sp, u) != t {
      HeadingSquare(sp, u);
      SquareNonNegative(sp.cDot * u + sp.curvStart);
    }
  }

  lemma SquareNonNegative(x: real)
    ensures 0.0 <= x * x
  {
    if x < 0.0 {
      assert x * x == (-x) * (-x);
    }
  }

  /** Undoing the two branches of the quadratic formula. */
  lemma QuadraticBranches(c: real, k: real, u: real)
    requires c != 0.0
    ensures c * u + k >= 0.0 ==> (Abs(c * u + k) - k) / c == u
    ensures c * u + k < 0.0 ==> -(Abs(c * u + k) + k) / c == u
  {
    assert (c * u) / c == u;
  }

  /** Every root of heading == target is the value of one of its pass's two formulas. */
  lemma SolutionIsRoot(sp: Spiral, num: Primitives, isX: bool, n: int, u: real)
    requires sp.cDot != 0.0 && num.Valid()
    requires Heading(sp, u) == Target(num.pi, isX, n)
    ensures Root(sp, num, PassFormulas(isX)[0], n) == Some(sp.s0 + u)
         || Root(sp, num, PassFormulas(isX)[1], n) == Some(sp.s0 + u)
  {
    var c, k := sp.cDot, sp.curvStart;
    var w := c * u + k;
    var t := Target(num.pi, isX, n);
    var f0, f1 := PassFormulas(isX)[0], PassFormulas(isX)[1];
    HeadingSquare(sp, u);
    assert w * w == Shifted(sp, t);
    DiscriminantIsShifted(sp, num.pi, f0, n);
    DiscriminantIsShifted(sp, num.pi, f1, n);
    assert Discriminant(sp, num.pi, f0, n) == w * w == Discriminant(sp, num.pi, f1, n);
    SqrtOfSquare(num, w);
    SquareNonNegative(w);
    QuadraticBranches(c, k, u);
    var q := num.sqrt(w * w);
    assert q == Abs(w);
    if w >= 0.0 {
      assert (q - k) / c + sp.s0 == sp.s0 + u;
      if isX {
        assert Root(sp, num, XExtrema1, n) == Some(sp.s0 + u);
      } else {
        assert Root(sp, num, YExtrema2, n) == Some(sp.s0 + u);
      }
    } else {
      assert -(q + k) / c + sp.s0 == sp.s0 + u;
      if isX {
        assert Root(sp, num, XExtrema2, n) == Some(sp.s0 + u);
      } else {
        assert Root(sp, num, YExtrema1, n) == Some(sp.s0 + u);
      }
    }
  }

  /** Distinct (pass, n) pairs aim at distinct headings. */
  lemma TargetsDistinct(pi: real, a: bool, n: int, b: bool, m: int)
    requires pi > 0.0
    ensures (a != b || n != m) ==> Target(pi, a, n) != Target(pi, b, m)
  {
    if a == b && n != m {
      assert Target(pi, a, n) - Target(pi, b, m) == ((m - n) as real) * pi;
      ProductNonZero((m - n) as real, pi);
    } else if a && !b {
      assert Target(pi, a, n) - Target(pi, b, m) == (0.5 + ((m - n) as real)) * pi;
      ProductNonZero(0.5 + ((m - n) as real), pi);
    } else if !a && b {
      assert Target(pi, a, n) - Target(pi, b, m) == (((m - n) as real) - 0.5) * pi;
      ProductNonZero(((m - n) as real) - 0.5, pi);
    }
  }

  lemma ProductNonZero(x: real, y: real)
    requires x != 0.0 && y != 0.0
    ensures x * y != 0.0
  {
    if x * y == 0.0 {
      ProductZero(x, y);
    }
  }

  // ---------------------------------------------------------------------------
  // Candidate collection

  /** An integer range `lo <= n < hi` of formula indices. */
  datatype NRange = NRange(lo: int, hi: int) {
    function Size(): nat {
      if hi <= lo then 0 else hi - lo
    }
    predicate Contains(n: int) {
      lo <= n < hi
    }
  }

  predicate InSegment(sp: Spiral, s: real) {
    sp.s0 <= s <= sp.s0 + sp.length
  }

  /** What one trial appends: the value, unless it is NaN or outside the segment. */
  function Kept(sp: Spiral, num: Primitives, f: Formula, n: int): (r: seq<real>)
    requires sp.cDot != 0.0
    ensures |r| <= 1
    ensures forall v :: v in r <==> Root(sp, num, f, n) == Some(v) && InSegment(sp, v)
  {
    var v := Root(sp, num, f, n);
    if v.None? || v.value < sp.s0 || v.value > sp.s0 + sp.length then [] else [v.value]
  }

  /** What trying `f` for `n = lo, ..., hi - 1` appends, in order. */
  function TryRange(sp: Spiral, num: Primitives, f: Formula, lo: int, hi: int): (r: seq<real>)
    requires sp.cDot != 0.0
    ensures |r| <= NRange(lo, hi).Size()
    ensures forall k :: 0 <= k < |r| ==> InSegment(sp, r[k])
    decreases hi - lo
  {
    if hi <= lo then [] else TryRange(sp, num, f, lo, hi - 1) + Kept(sp, num, f, hi - 1)
  }

  /** What one pass appends: its first formula over the range, then its second. */
  function Pass(sp: Spiral, num: Primitives, isX: bool, r: NRange): (c: seq<real>)
    requires sp.cDot != 0.0
    ensures |c| <= 2 * r.Size()
    ensures forall k :: 0 <= k < |c| ==> InSegment(sp, c[k])
  {
    TryRange(sp, num, PassFormulas(isX)[0], r.lo, r.hi)
      + TryRange(sp, num, PassFormulas(isX)[1], r.lo, r.hi)
  }

  /** The whole candidate list: both ends, then the x pass, then the y pass. */
  function Candidates(sp: Spiral, num: Primitives, xr: NRange, yr: NRange): (c: seq<real>)
    requires sp.cDot != 0.0
    ensures 2 <= |c| <= 2 + 2 * xr.Size() + 2 * yr.Size()
    ensures c[0] == sp.s0 && c[1] == sp.s0 + sp.length
    ensures forall k :: 2 <= k < |c| ==> InSegment(sp, c[k])
  {
    [sp.s0, sp.s0 + sp.length] + Pass(sp, num, true, xr) + Pass(sp, num, false, yr)
  }

  function RangeFor(f: Formula, xr: NRange, yr: NRange): NRange {
    if f.IsX() then xr else yr
  }

  /** `s` is a defined, in-segment value of some formula at an `n` of its pass's range. */
  ghost predicate ExtremumCandidate(sp: Spiral, num: Primitives, xr: NRange, yr: NRange, s: real)
    requires sp.cDot != 0.0
  {
    exists f: Formula, n: int ::
      RangeFor(f, xr, yr).Contains(n) && Root(sp, num, f, n) == Some(s) && InSegment(sp, s)
  }

  lemma {:induction false} TryRangeMembers(sp: Spiral, num: Primitives, f: Formula, lo: int, hi: int, s: real)
    requires sp.cDot != 0.0
    ensures s in TryRange(sp, num, f, lo, hi)
            <==> exists n :: lo <= n < hi && Root(sp, num, f, n) == Some(s) && InSegment(sp, s)
    decreases hi - lo
  {
    if hi > lo {
      TryRangeMembers(sp, num, f, lo, hi - 1, s);
      assert s in Kept(sp, num, f, hi - 1)
             <==> Root(sp, num, f, hi - 1) == Some(s) && InSegment(sp, s);
      if exists n :: lo <= n < hi && Root(sp, num, f, n) == Some(s) && InSegment(sp, s) {
        var n :| lo <= n < hi && Root(sp, num, f, n) == Some(s) && InSegment(sp, s);
        if n < hi - 1 {
          assert s in TryRange(sp, num, f, lo, hi - 1);
        }
      }
    }
  }

  /** A witness of `ExtremumCandidate` is kept by its formula's pass. */
  lemma CandidateInSomeFormula(sp: Spiral, num: Primitives, xr: NRange, yr: NRange, s: real)
    requires sp.cDot != 0.0
    requires ExtremumCandidate(sp, num, xr, yr, s)
    ensures || s in TryRange(sp, num, XExtrema1, xr.lo, xr.hi)
            || s in TryRange(sp, num, XExtrema2, xr.lo, xr.hi)
            || s in TryRange(sp, num, YExtrema1, yr.lo, yr.hi)
            || s in TryRange(sp, num, YExtrema2, yr.lo, yr.hi)
  {
    var f: Formula, n: int :|
      RangeFor(f, xr, yr).Contains(n) && Root(sp, num, f, n) == Some(s) && InSegment(sp, s);
    match f
    case XExtrema1 => TryRangeMembers(sp, num, f, xr.lo, xr.hi, s);
    case XExtrema2 => TryRangeMembers(sp, num, f, xr.lo, xr.hi, s);
    case YExtrema1 => TryRangeMembers(sp, num, f, yr.lo, yr.hi, s);
    case YExtrema2 => TryRangeMembers(sp, num, f, yr.lo, yr.hi, s);
  }

  /** The existential of `ExtremumCandidate`, formula by formula. */
  lemma ExtremumCandidateByFormula(sp: Spiral, num: Primitives, xr: NRange, yr: NRange, s: real)
    requires sp.cDot != 0.0
    ensures ExtremumCandidate(sp, num, xr, yr, s)
            <==> || s in TryRange(sp, num, XExtrema1, xr.lo, xr.hi)
                 || s in TryRange(sp, num, XExtrema2, xr.lo, xr.hi)
                 || s in TryRange(sp, num, YExtrema1, yr.lo, yr.hi)
                 || s in TryRange(sp, num, YExtrema2, yr.lo, yr.hi)
  {
    if ExtremumCandidate(sp, num, xr, yr, s) {
      CandidateInSomeFormula(sp, num, xr, yr, s);
    }
    if s in TryRange(sp, num, XExtrema1, xr.lo, xr.hi) {
      FormulaWitness(sp, num, xr, yr, XExtrema1, s);
    }
    if s in TryRange(sp, num, XExtrema2, xr.lo, xr.hi) {
      FormulaWitness(sp, num, xr, yr, XExtrema2, s);
    }
    if s in TryRange(sp, num, YExtrema1, yr.lo, yr.hi) {
      FormulaWitness(sp, num, xr, yr, YExtrema1, s);
    }
    if s in TryRange(sp, num, YExtrema2, yr.lo, yr.hi) {
      FormulaWitness(sp, num, xr, yr, YExtrema2, s);
    }
  }

  lemma FormulaWitness(sp: Spiral, num: Primitives, xr: NRange, yr: NRange, f: Formula, s: real)
    requires sp.cDot != 0.0
    requires s in TryRange(sp, num, f, RangeFor(f, xr, yr).lo, RangeFor(f, xr, yr).hi)
    ensures ExtremumCandidate(sp, num, xr, yr, s)
  {
    var r := RangeFor(f, xr, yr);
    TryRangeMembers(sp, num, f, r.lo, r.hi, s);
    var n :| r.lo <= n < r.hi && Root(sp, num, f, n) == Some(s) && InSegment(sp, s);
    assert r.Contains(n);
  }

  /** A value is a candidate exactly when it is an end of the segment or a
      defined, in-segment value of a formula at an `n` its pass tries. */
  lemma CandidatesCharacterized(sp: Spiral, num: Primitives, xr: NRange, yr: NRange, s: real)
    requires sp.cDot != 0.0
    ensures s in Candidates(sp, num, xr, yr)
            <==> s == sp.s0 || s == sp.s0 + sp.length || ExtremumCandidate(sp, num, xr, yr, s)
  {
    ExtremumCandidateByFormula(sp, num, xr, yr, s);
    var c := Candidates(sp, num, xr, yr);
    assert s in c <==>
      || s == sp.s0 || s == sp.s0 + sp.length
      || s in TryRange(sp, num, XExtrema1, xr.lo, xr.hi)
      || s in TryRange(sp, num, XExtrema2, xr.lo, xr.hi)
      || s in TryRange(sp, num, YExtrema1, yr.lo, yr.hi)
      || s in TryRange(sp, num, YExtrema2, yr.lo, yr.hi);
  }

  ghost function PassesUpTo(sp: Spiral, num: Primitives, xr: NRange, yr: NRange, i: int): seq<real>
    requires sp.cDot != 0.0
  {
    if i <= 0 then [] else if i == 1 then Pass(sp, num, true, xr)
    else Pass(sp, num, true, xr) + Pass(sp, num, false, yr)
  }

  ghost function FormulasUpTo(sp: Spiral, num: Primitives, isX: bool, r: NRange, j: int): seq<real>
    requires sp.cDot != 0.0
  {
    if j <= 0 then [] else if j == 1 then TryRange(sp, num, PassFormulas(isX)[0], r.lo, r.hi)
    else Pass(sp, num, isX, r)
  }

  lemma TryRangeStep(sp: Spiral, num: Primitives, f: Formula, lo: int, n: int, v: Option<real>)
    requires sp.cDot != 0.0 && lo <= n && v == Root(sp, num, f, n)
    ensures TryRange(sp, num, f, lo, n + 1)
            == TryRange(sp, num, f, lo, n)
               + (if v.None? || v.value < sp.s0 || v.value > sp.s0 + sp.length then [] else [v.value])
  {
  }

  lemma FormulasStep(sp: Spiral, num: Primitives, isX: bool, r: NRange, j: int)
    requires sp.cDot != 0.0 && 0 <= j < 2
    ensures FormulasUpTo(sp, num, isX, r, j + 1)
            == FormulasUpTo(sp, num, isX, r, j) + TryRange(sp, num, PassFormulas(isX)[j], r.lo, r.hi)
  {
  }

  lemma PassesStep(sp: Spiral, num: Primitives, xr: NRange, yr: NRange, i: int)
    requires sp.cDot != 0.0 && 0 <= i < 2
    ensures PassesUpTo(sp, num, xr, yr, i + 1)
            == PassesUpTo(sp, num, xr, yr, i) + FormulasUpTo(sp, num, i == 0, if i == 0 then xr else yr, 2)
    ensures [sp.s0, sp.s0 + sp.length] + PassesUpTo(sp, num, xr, yr, 2) == Candidates(sp, num, xr, yr)
  {
  }

  /** The innermost loop of `get_bbox`: formula `f` at every `n` in `[lo, hi)`,
      each defined in-segment value pushed onto `sExtremas`. */
  method AppendRoots(sp: Spiral, num: Primitives, f: Formula, lo: int, hi: int, sExtremas: seq<real>)
    returns (r: seq<real>)
    requires sp.cDot != 0.0
    ensures r == sExtremas + TryRange(sp, num, f, lo, hi)
  {
    r := sExtremas;
    var n := lo;
    while n < hi
      invariant lo <= n && (n <= hi || n == lo)
      invariant r == sExtremas + TryRange(sp, num, f, lo, n)
    {
      var v := Root(sp, num, f, n);
      TryRangeStep(sp, num, f, lo, n, v);
      if !(v.None? || v.value < sp.s0 || v.value > sp.s0 + sp.length) {
        r := r + [v.value];
      }
      n := n + 1;
    }
    assert TryRange(sp, num, f, lo, n) == TryRange(sp, num, f, lo, hi);
  }

  /** One pass of `get_bbox`: both formulas of the pass over its range of `n`. */
  method CollectPass(sp: Spiral, num: Primitives, isX: bool, range: NRange, sExtremas: seq<real>)
    returns (r: seq<real>)
    requires sp.cDot != 0.0
    ensures r == sExtremas + FormulasUpTo(sp, num, isX, range, 2)
  {
    r := sExtremas;
    var fSExtremas := PassFormulas(isX);
    for j := 0 to |fSExtremas|
      invariant r == sExtremas + FormulasUpTo(sp, num, isX, range, j)
    {
      r := AppendRoots(sp, num, fSExtremas[j], range.lo, range.hi, r);
      FormulasStep(sp, num, isX, range, j);
    }
  }

  /** The first half of `get_bbox`: the candidate vector, filled by `push_back`
      over the passes, their two formulas and the range of `n`. */
  method CollectCandidates(sp: Spiral, num: Primitives, xr: NRange, yr: NRange)
    returns (sExtremas: seq<real>)
    requires sp.cDot != 0.0
    ensures sExtremas == Candidates(sp, num, xr, yr)
    ensures 2 <= |sExtremas| <= 2 + 2 * xr.Size() + 2 * yr.Size()
    ensures sExtremas[0] == sp.s0 && sExtremas[1] == sp.s0 + sp.length
    ensures forall k :: 2 <= k < |sExtremas| ==> InSegment(sp, sExtremas[k])
  {
    sExtremas := [sp.s0, sp.s0 + sp.length];
    var passes := [true, false];
    for i := 0 to |passes|
      invariant sExtremas == [sp.s0, sp.s0 + sp.length] + PassesUpTo(sp, num, xr, yr, i)
    {
      var isX := passes[i];
      sExtremas := CollectPass(sp, num, isX, if isX then xr else yr, sExtremas);
      PassesStep(sp, num, xr, yr, i);
    }
    PassesStep(sp, num, xr, yr, 0);
  }

  // ---------------------------------------------------------------------------
  // Reduction to a box

  /** `b` is the smallest box around the centerline points at `ss`: ordered
      corners, every point inside, every corner coordinate attained. */
  ghost predicate BoundsCenterline(sp: Spiral, num: Primitives, b: Box2D, ss: seq<real>)
    requires sp.cDot != 0.0
  {
    && b.min.x <= b.max.x && b.min.y <= b.max.y
    && (forall k :: 0 <= k < |ss| ==> Encloses(b, GetPoint(sp, num, ss[k], 0.0)))
    && (exists k :: 0 <= k < |ss| && GetPoint(sp, num, ss[k], 0.0).x == b.min.x)
    && (exists k :: 0 <= k < |ss| && GetPoint(sp, num, ss[k], 0.0).y == b.min.y)
    && (exists k :: 0 <= k < |ss| && GetPoint(sp, num, ss[k], 0.0).x == b.max.x)
    && (exists k :: 0 <= k < |ss| && GetPoint(sp, num, ss[k], 0.0).y == b.max.y)
  }

  /** The second half of `get_bbox`: both corners start at the first candidate's
      point and are widened by every candidate's point. `None` is the exception
      `std::vector::at(0)` throws on an empty list. */
  method Reduce(sp: Spiral, num: Primitives, sExtremas: seq<real>) returns (r: Option<Box2D>)
    requires sp.cDot != 0.0
    ensures r.None? <==> |sExtremas| == 0
    ensures r.Some? ==> BoundsCenterline(sp, num, r.value, sExtremas)
  {
    if |sExtremas| == 0 {
      return None;
    }
    var first := GetPoint(sp, num, sExtremas[0], 0.0);
    var bbox := Box2D(first, first);
    // Indices of the candidates whose points attain each corner coordinate.
    ghost var iMinX, iMinY, iMaxX, iMaxY := 0, 0, 0, 0;
    for i := 0 to |sExtremas|
      invariant bbox.min.x <= bbox.max.x && bbox.min.y <= bbox.max.y
      invariant forall k :: 0 <= k < i ==> Encloses(bbox, GetPoint(sp, num, sExtremas[k], 0.0))
      invariant 0 <= iMinX < |sExtremas| && GetPoint(sp, num, sExtremas[iMinX], 0.0).x == bbox.min.x
      invariant 0 <= iMinY < |sExtremas| && GetPoint(sp, num, sExtremas[iMinY], 0.0).y == bbox.min.y
      invariant 0 <= iMaxX < |sExtremas| && GetPoint(sp, num, sExtremas[iMaxX], 0.0).x == bbox.max.x
      invariant 0 <= iMaxY < |sExtremas| && GetPoint(sp, num, sExtremas[iMaxY], 0.0).y == bbox.max.y
    {
      var pt2d := GetPoint(sp, num, sExtremas[i], 0.0);
      if pt2d.x < bbox.min.x { iMinX := i; }
      if pt2d.y < bbox.min.y { iMinY := i; }
      if bbox.max.x < pt2d.x { iMaxX := i; }
      if bbox.max.y < pt2d.y { iMaxY := i; }
      bbox := bbox.(min := bbox.min.(x := Min(bbox.min.x, pt2d.x)));
      bbox := bbox.(min := bbox.min.(y := Min(bbox.min.y, pt2d.y)));
      bbox := bbox.(max := bbox.max.(x := Max(bbox.max.x, pt2d.x)));
      bbox := bbox.(max := bbox.max.(y := Max(bbox.max.y, pt2d.y)));
    }
    return Some(bbox);
  }

  // ---------------------------------------------------------------------------
  // The range of n, as the source computes it

  /** `n_end` of each pass. */
  function NEnd(sp: Spiral, pi: real, isX: bool): (r: real)
    requires pi > 0.0
    ensures r * pi == Heading(sp, sp.length) - sp.hdg0 - (if isX then pi / 2.0 else 0.0)
  {
    var w := 2.0 * sp.curvStart * sp.length + sp.cDot * sp.length * sp.length - (if isX then pi else 0.0);
    MulDiv(w, 2.0 * pi);
    if isX then (2.0 * sp.curvStart * sp.length + sp.cDot * sp.length * sp.length - pi) / (2.0 * pi)
    else (2.0 * sp.curvStart * sp.length + sp.cDot * sp.length * sp.length) / (2.0 * pi)
  }

  /** `std::ceil`. */
  function Ceil(x: real): (r: int)
    ensures (r as real) - 1.0 < x <= r as real
  {
    -((-x).Floor)
  }

  /** The source's loop bounds `floor(-|n_end|) - 1 <= n < ceil(|n_end|) + 1`:
      a range symmetric about zero that always contains -1 and 0. */
  function SourceRange(sp: Spiral, pi: real, isX: bool): (r: NRange)
    requires pi > 0.0
    ensures r.lo == -r.hi && 1 <= r.hi
    ensures (r.hi as real) - 2.0 < Abs(NEnd(sp, pi, isX)) <= (r.hi as real) - 1.0
  {
    var a := Abs(NEnd(sp, pi, isX));
    NRange((-a).Floor - 1, Ceil(a) + 1)
  }

  /** `Spiral::get_bbox` as written. */
  method GetBBox(sp: Spiral, num: Primitives) returns (bbox: Box2D)
    requires sp.cDot != 0.0 && num.pi > 0.0
    ensures BoundsCenterline(sp, num, bbox,
              Candidates(sp, num, SourceRange(sp, num.pi, true), SourceRange(sp, num.pi, false)))
    ensures Encloses(bbox, Point2D(sp.x0, sp.y0))
    ensures Encloses(bbox, GetPoint(sp, num, sp.s0 + sp.length, 0.0))
  {
    var xr, yr := SourceRange(sp, num.pi, true), SourceRange(sp, num.pi, false);
    var sExtremas := CollectCandidates(sp, num, xr, yr);
    var r := Reduce(sp, num, sExtremas);
    bbox := r.value;
    EndsEnclosed(sp, num, bbox, sExtremas);
  }

  /** A box bounding a list that opens with both segment ends encloses them. */
  lemma EndsEnclosed(sp: Spiral, num: Primitives, b: Box2D, ss: seq<real>)
    requires sp.cDot != 0.0 && BoundsCenterline(sp, num, b, ss)
    requires 2 <= |ss| && ss[0] == sp.s0 && ss[1] == sp.s0 + sp.length
    ensures Encloses(b, Point2D(sp.x0, sp.y0))
    ensures Encloses(b, GetPoint(sp, num, sp.s0 + sp.length, 0.0))
  {
    assert Encloses(b, GetPoint(sp, num, ss[0], 0.0));
    assert Encloses(b, GetPoint(sp, num, ss[1], 0.0));
  }

  /** An S-shaped segment: curvature -5/2 to 5/2 over length 5 pi, starting at
      the origin with heading 0; its heading dips to -25 pi / 8 and returns to 0. */
  function SCurve(pi: real): (sp: Spiral)
    requires pi > 0.0
    ensures WellFormed(sp) && sp.cDot * pi == 1.0
    ensures sp.s0 == 0.0 && sp.hdg0 == 0.0 && sp.length == 5.0 * pi
    ensures sp.curvStart == -2.5 && sp.curvEnd == 2.5
  {
    var sp := NewSpiral(0.0, 0.0, 0.0, 0.0, 5.0 * pi, -2.5, 2.5).value;
    assert sp.cDot == 5.0 / (5.0 * pi);
    MulDiv(5.0, 5.0 * pi);
    sp
  }

  /** On the S-curve the source's x pass tries n in [-2, 2) and its y pass n in [-1, 1). */
  lemma SCurveSourceRanges(pi: real)
    requires pi > 0.0
    ensures SourceRange(SCurve(pi), pi, true) == NRange(-2, 2)
    ensures SourceRange(SCurve(pi), pi, false) == NRange(-1, 1)
  {
    var sp := SCurve(pi);
    var c, l := sp.cDot, sp.length;
    assert c * l * l == 25.0 * ((c * pi) * pi);
    assert 2.0 * sp.curvStart * l + c * l * l == 0.0;
    assert NEnd(sp, pi, true) == (-pi) / (2.0 * pi) == -0.5;
    assert NEnd(sp, pi, false) == 0.0;
  }

  /** On the S-curve, s = pi is a y critical point (heading -2 pi, n = 2) that
      the first y formula finds. */
  lemma SCurveExtremum(num: Primitives)
    requires num.Valid()
    ensures InSegment(SCurve(num.pi), num.pi)
    ensures Heading(SCurve(num.pi), num.pi) == -2.0 * num.pi
    ensures IsExtremum(SCurve(num.pi), num.pi, false, num.pi, 2)
    ensures Root(SCurve(num.pi), num, YExtrema1, 2) == Some(num.pi)
  {
    var pi := num.pi;
    var sp := SCurve(pi);
    var c := sp.cDot;
    assert c * pi == 1.0;
    assert (c * pi) * pi == 1.0 * pi;
    assert Heading(sp, pi) == -2.5 * pi + (c * pi * pi) / 2.0;
    assert Discriminant(sp, pi, YExtrema1, 2) == 6.25 - 4.0 * (c * pi);
    assert Discriminant(sp, pi, YExtrema1, 2) == 1.5 * 1.5;
    SqrtOfSquare(num, 1.5);
    assert 1.0 / c == pi;
  }

  /** The source's ranges miss that critical point: on the S-curve, s = pi,
      where the heading reaches -2 pi (n = 2) and the first y formula is
      defined and inside the segment, is not among the candidates. */
  lemma SourceRangeMissesExtremum(num: Primitives)
    requires num.Valid()
    ensures var sp := SCurve(num.pi);
            && InSegment(sp, num.pi) && IsExtremum(sp, num.pi, false, num.pi, 2)
            && Root(sp, num, YExtrema1, 2) == Some(num.pi)
            && num.pi !in Candidates(sp, num, SourceRange(sp, num.pi, true), SourceRange(sp, num.pi, false))
  {
    var pi := num.pi;
    var sp := SCurve(pi);
    SCurveExtremum(num);
    SCurveSourceRanges(pi);
    var xr, yr := SourceRange(sp, pi, true), SourceRange(sp, pi, false);
    forall f: Formula, n: int | RangeFor(f, xr, yr).Contains(n)
      ensures Root(sp, num, f, n) != Some(pi)
    {
      RootSolvesHeading(sp, num, f, n);
      TargetsDistinct(pi, f.IsX(), n, false, 2);
    }
    CandidatesCharacterized(sp, num, xr, yr, pi);
  }

  // ---------------------------------------------------------------------------
  // A range of n that covers the heading actually swept

  /** A bound on |heading - hdg0| over the segment. */
  function HeadingSpread(sp: Spiral): (b: real)
    ensures 0.0 <= b
  {
    Abs(sp.curvStart) * Abs(sp.length) + Abs(sp.cDot) * sp.length * sp.length / 2.0
  }

  /** Every `n` whose target lies within `hdg0 +- HeadingSpread`. */
  function SweptRange(sp: Spiral, pi: real, isX: bool): NRange
    requires pi > 0.0
  {
    var top, bottom := sp.hdg0 + HeadingSpread(sp), sp.hdg0 - HeadingSpread(sp);
    if isX then NRange(((pi / 2.0 - top) / pi).Floor, ((pi / 2.0 - bottom) / pi).Floor + 1)
    else NRange((-top / pi).Floor, (-bottom / pi).Floor + 1)
  }

  lemma HeadingWithinSpread(sp: Spiral, u: real)
    requires 0.0 <= u <= sp.length
    ensures sp.hdg0 - HeadingSpread(sp) <= Heading(sp, u) <= sp.hdg0 + HeadingSpread(sp)
  {
    LinearTermBound(sp, u);
    QuadraticTermBound(sp, u);
    SpreadBound(sp.hdg0, sp.curvStart * u, sp.cDot * u * u,
                Abs(sp.curvStart) * Abs(sp.length), Abs(sp.cDot) * sp.length * sp.length);
  }

  lemma LinearTermBound(sp: Spiral, u: real)
    requires 0.0 <= u <= sp.length
    ensures -(Abs(sp.curvStart) * Abs(sp.length)) <= sp.curvStart * u <= Abs(sp.curvStart) * Abs(sp.length)
  {
    assert Abs(sp.length) == sp.length;
    MulBound(sp.curvStart, u, sp.length);
  }

  lemma QuadraticTermBound(sp: Spiral, u: real)
    requires 0.0 <= u <= sp.length
    ensures -(Abs(sp.cDot) * sp.length * sp.length) <= sp.cDot * u * u <= Abs(sp.cDot) * sp.length * sp.length
  {
    var c, l := sp.cDot, sp.length;
    assert u * u <= l * l by { MulBound(u, u, l); }
    MulBound(c, u * u, l * l);
    Regroup(c, u, u);
    Regroup(Abs(c), l, l);
  }

  lemma Regroup(a: real, b: real, c: real)
    ensures a * b * c == a * (b * c)
  {
  }

  lemma SpreadBound(h: real, a: real, b: real, ma: real, mb: real)
    requires -ma <= a <= ma && -mb <= b <= mb
    ensures h - (ma + mb / 2.0) <= h + a + b / 2.0 <= h + (ma + mb / 2.0)
  {
  }

  /** |a * x| <= |a| * m when 0 <= x <= m. */
  lemma MulBound(a: real, x: real, m: real)
    requires 0.0 <= x <= m
    ensures -(Abs(a) * m) <= a * x <= Abs(a) * m
  {
    assert Abs(a) * x <= Abs(a) * m;
  }

  lemma DivBounds(lo: real, hi: real, pi: real, n: int)
    requires pi > 0.0 && lo <= (n as real) * pi <= hi
    ensures lo / pi <= n as real <= hi / pi
  {
    var m := (n as real) * pi;
    assert m / pi == n as real;
    DivMono(lo, m, pi);
    DivMono(m, hi, pi);
  }

  lemma DivMono(a: real, b: real, p: real)
    requires p > 0.0 && a <= b
    ensures a / p <= b / p
  {
    assert b / p - a / p == (b - a) / p;
  }

  /** Any `n` the heading meets inside the segment lies in `SweptRange`. */
  lemma SweptRangeContains(sp: Spiral, pi: real, isX: bool, n: int, u: real)
    requires pi > 0.0 && 0.0 <= u <= sp.length
    requires Heading(sp, u) == Target(pi, isX, n)
    ensures SweptRange(sp, pi, isX).Contains(n)
  {
    HeadingWithinSpread(sp, u);
    var top, bottom := sp.hdg0 + HeadingSpread(sp), sp.hdg0 - HeadingSpread(sp);
    if isX {
      DivBounds(pi / 2.0 - top, pi / 2.0 - bottom, pi, n);
    } else {
      DivBounds(-top, -bottom, pi, n);
    }
  }

  /** With `SweptRange`, every critical point of x or y inside the segment is a candidate. */
  lemma SweptRangeFindsEveryExtremum(sp: Spiral, num: Primitives, isX: bool, s: real, n: int)
    requires sp.cDot != 0.0 && num.Valid()
    requires InSegment(sp, s) && IsExtremum(sp, num.pi, isX, s, n)
    ensures s in Candidates(sp, num, SweptRange(sp, num.pi, true), SweptRange(sp, num.pi, false))
  {
    var u := s - sp.s0;
    var xr, yr := SweptRange(sp, num.pi, true), SweptRange(sp, num.pi, false);
    SweptRangeContains(sp, num.pi, isX, n, u);
    SolutionIsRoot(sp, num, isX, n, u);
    var fs := PassFormulas(isX);
    if Root(sp, num, fs[0], n) == Some(s) {
      assert RangeFor(fs[0], xr, yr).Contains(n);
    } else {
      assert RangeFor(fs[1], xr, yr).Contains(n);
    }
    CandidatesCharacterized(sp, num, xr, yr, s);
  }

  /** `get_bbox` with the `n` range corrected to cover the swept heading: the box
      also contains the centerline at every critical point of x and y. */
  method GetBBoxSwept(sp: Spiral, num: Primitives) returns (bbox: Box2D)
    requires sp.cDot != 0.0 && num.Valid()
    ensures BoundsCenterline(sp, num, bbox,
              Candidates(sp, num, SweptRange(sp, num.pi, true), SweptRange(sp, num.pi, false)))
    ensures Encloses(bbox, Point2D(sp.x0, sp.y0))
    ensures Encloses(bbox, GetPoint(sp, num, sp.s0 + sp.length, 0.0))
    ensures forall isX, s, n :: InSegment(sp, s) && IsExtremum(sp, num.pi, isX, s, n)
              ==> Encloses(bbox, GetPoint(sp, num, s, 0.0))
  {
    var xr, yr := SweptRange(sp, num.pi, true), SweptRange(sp, num.pi, false);
    var sExtremas := CollectCandidates(sp, num, xr, yr);
    var r := Reduce(sp, num, sExtremas);
    bbox := r.value;
    EndsEnclosed(sp, num, bbox, sExtremas);
    forall isX, s, n | InSegment(sp, s) && IsExtremum(sp, num.pi, isX, s, n)
      ensures Encloses(bbox, GetPoint(sp, num, s, 0.0))
    {
      SweptRangeFindsEveryExtremum(sp, num, isX, s, n);
    }
  }
}
