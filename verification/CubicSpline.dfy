/** The natural cubic spline through a calibration table, on real numbers. */
module CubicSpline {
  import opened Bytes

  datatype Point = Point(voltage: real, value: real)

  /** a + b*t + c*t^2 + d*t^3 */
  datatype Cubic = Cubic(a: real, b: real, c: real, d: real) {

    function At(t: real): real
    {
      a + b * t + c * t * t + d * t * t * t
    }

    function Slope(t: real): real
    {
      b + 2.0 * c * t + 3.0 * d * t * t
    }

    function Curvature(t: real): real
    {
      2.0 * c + 6.0 * d * t
    }
  }

  ghost predicate Increasing(table: seq<Point>)
  {
    forall i, j :: 0 <= i < j < |table| ==> table[i].voltage < table[j].voltage
  }

  function Step(table: seq<Point>, i: int): real
    requires 0 <= i < |table| - 1
  {
    table[i + 1].voltage - table[i].voltage
  }

  /** Piece `i` goes through both of its knots. */
  ghost predicate Connects(table: seq<Point>, pieces: seq<Cubic>, i: int)
    requires |pieces| == |table| && 0 <= i < |table| - 1
  {
    pieces[i].At(0.0) == table[i].value && pieces[i].At(Step(table, i)) == table[i + 1].value
  }

  /** Slope and curvature of piece `i` go over into those of the next piece. */
  ghost predicate JoinsSmoothly(table: seq<Point>, pieces: seq<Cubic>, i: int)
    requires |pieces| == |table| && 0 <= i < |table| - 2
  {
    && pieces[i].Slope(Step(table, i)) == pieces[i + 1].Slope(0.0)
    && pieces[i].Curvature(Step(table, i)) == pieces[i + 1].Curvature(0.0)
  }

  /** The natural spline: through every knot, twice continuously differentiable, without curvature at both ends. */
  ghost predicate IsNaturalSpline(table: seq<Point>, pieces: seq<Cubic>)
    requires 2 <= |table|
  {
    var n := |table|;
    && |pieces| == n
    && (forall i :: 0 <= i < n - 1 ==> Connects(table, pieces, i))
    && (forall i :: 0 <= i < n - 2 ==> JoinsSmoothly(table, pieces, i))
    && pieces[0].Curvature(0.0) == 0.0 && pieces[n - 2].Curvature(Step(table, n - 2)) == 0.0
  }

  // ---- The tridiagonal system -------------------------------------------------------------------

  /** Rise of the table over segment `i`. */
  function Rise(table: seq<Point>, i: int): real
    requires 0 <= i < |table| - 1
  {
    table[i + 1].value - table[i].value
  }

  function Alpha(table: seq<Point>, i: int): real
    requires Increasing(table) && 0 < i < |table| - 1
  {
    (3.0 / Step(table, i)) * Rise(table, i) - (3.0 / Step(table, i - 1)) * Rise(table, i - 1)
  }

  /** Equation `i` for the quadratic coefficients. */
  ghost predicate Equation(h0: real, h1: real, c0: real, c1: real, c2: real, alpha: real)
  {
    h0 * c0 + 2.0 * (h0 + h1) * c1 + h1 * c2 == alpha
  }

  /** The ratio that eliminates row `i`: between 0 and 1, so no pivot is ever 0. */
  function Mu(table: seq<Point>, i: nat): (mu: real)
    requires Increasing(table) && i < |table| - 1
    ensures 0.0 <= mu < 1.0
  {
    if i == 0 then 0.0 else
      PivotIsPositive(Step(table, i - 1), Step(table, i), Mu(table, i - 1));
      Step(table, i) / Pivot(Step(table, i - 1), Step(table, i), Mu(table, i - 1))
  }

  function Pivot(h0: real, h1: real, mu: real): real
  {
    2.0 * (h0 + h1) - h0 * mu
  }

  lemma PivotIsPositive(h0: real, h1: real, mu: real)
    requires 0.0 < h0 && 0.0 < h1 && 0.0 <= mu < 1.0
    ensures Pivot(h0, h1, mu) > h0 + h1
    ensures 0.0 < h1 / Pivot(h0, h1, mu) < 1.0
  {
    assert h0 * mu < h0;
    QuotientBelowOne(h1, Pivot(h0, h1, mu));
  }

  lemma QuotientBelowOne(x: real, y: real)
    requires 0.0 < x < y
    ensures 0.0 < x / y < 1.0
  {
    var q := x / y;
    assert q * y == x;
    if q >= 1.0 {
      ProductOrder(1.0, q, y);
    }
  }

  lemma ProductOrder(a: real, b: real, y: real)
    requires a <= b && 0.0 <= y
    ensures a * y <= b * y
  {
    assert (b - a) * y >= 0.0;
  }

  /** The quadratic coefficient at knot `i`: 0 at the last one. */
  function Quadratic(table: seq<Point>, pieces: seq<Cubic>, i: int): real
    requires |pieces| == |table| && 0 <= i < |table|
  {
    if i == |table| - 1 then 0.0 else pieces[i].c
  }

  /** The piece of width `h` from value `a0` to `a1` with quadratic coefficients `c0` and `c1` at its ends. */
  function Piece(h: real, a0: real, a1: real, c0: real, c1: real): Cubic
    requires h > 0.0
  {
    Cubic(a0, (a1 - a0) / h - h * (c1 + 2.0 * c0) / 3.0, c0, (c1 - c0) / (3.0 * h))
  }

  ghost predicate IsPiece(table: seq<Point>, pieces: seq<Cubic>, i: int)
    requires Increasing(table) && |pieces| == |table| && 0 <= i < |table| - 1
  {
    pieces[i] == Piece(Step(table, i), table[i].value, table[i + 1].value,
                       Quadratic(table, pieces, i), Quadratic(table, pieces, i + 1))
  }

  ghost predicate IsBalanced(table: seq<Point>, pieces: seq<Cubic>, i: int)
    requires Increasing(table) && |pieces| == |table| && 0 < i < |table| - 1
  {
    Equation(Step(table, i - 1), Step(table, i), Quadratic(table, pieces, i - 1),
             Quadratic(table, pieces, i), Quadratic(table, pieces, i + 1), Alpha(table, i))
  }

  /** The pieces are made of a solution of the tridiagonal system. */
  ghost predicate IsSolution(table: seq<Point>, pieces: seq<Cubic>)
    requires Increasing(table) && 2 <= |table|
  {
    && |pieces| == |table|
    && (forall i :: 0 <= i < |table| - 1 ==> IsPiece(table, pieces, i))
    && (forall i :: 0 < i < |table| - 1 ==> IsBalanced(table, pieces, i))
    && Quadratic(table, pieces, 0) == 0.0
  }

  lemma Cancel(x: real, h: real)
    requires h != 0.0
    ensures x / h * h == x && x * h / h == x
  {
  }

  lemma PieceEnds(h: real, a0: real, a1: real, c0: real, c1: real)
    requires h > 0.0
    ensures var p := Piece(h, a0, a1, c0, c1);
      p.At(h) == a1 && p.Curvature(h) == 2.0 * c1 && p.Slope(h) == (a1 - a0) / h + h * (2.0 * c1 + c0) / 3.0
  {
    var p := Piece(h, a0, a1, c0, c1);
    Cancel(a1 - a0, h);
    Cancel(c1 - c0, 3.0 * h);
    assert p.d * h == (c1 - c0) / 3.0;
    assert p.b * h == a1 - a0 - h * h * (c1 + 2.0 * c0) / 3.0;
    assert p.d * h * h * h == (c1 - c0) / 3.0 * h * h;
  }

  /** A cubic with these ends is that piece. */
  lemma PieceIsDetermined(p: Cubic, h: real, a1: real, c1: real)
    requires h > 0.0 && p.At(h) == a1 && p.Curvature(h) == 2.0 * c1
    ensures p == Piece(h, p.a, a1, p.c, c1)
  {
    var rise := h * (c1 + 2.0 * p.c) / 3.0;
    assert p.d * (3.0 * h) == c1 - p.c;
    Cancel(p.d, 3.0 * h);
    assert p.d * h == (c1 - p.c) / 3.0;
    assert p.d * h * h * h == (c1 - p.c) / 3.0 * h * h;
    LinearPart(p.b, rise, h, a1 - p.a);
  }

  lemma LinearPart(b: real, rise: real, h: real, x: real)
    requires h != 0.0 && b * h == x - rise * h
    ensures b == x / h - rise
  {
    assert (b + rise) * h == x;
    Cancel(b + rise, h);
  }

  /** Two pieces have the same slope where they meet exactly when the equation of that knot holds. */
  lemma SlopesMeetIff(h0: real, h1: real, a0: real, a1: real, a2: real, c0: real, c1: real, c2: real, alpha: real)
    requires h0 > 0.0 && h1 > 0.0 && alpha == (3.0 / h1) * (a2 - a1) - (3.0 / h0) * (a1 - a0)
    ensures Piece(h0, a0, a1, c0, c1).Slope(h0) == Piece(h1, a1, a2, c1, c2).Slope(0.0) <==>
      Equation(h0, h1, c0, c1, c2, alpha)
  {
    PieceEnds(h0, a0, a1, c0, c1);
    assert (3.0 / h1) * (a2 - a1) == 3.0 * ((a2 - a1) / h1);
    assert (3.0 / h0) * (a1 - a0) == 3.0 * ((a1 - a0) / h0);
  }

  /** A solution of the tridiagonal system is the natural spline, and the other way round. */
  lemma SolutionIffNaturalSpline(table: seq<Point>, pieces: seq<Cubic>)
    requires Increasing(table) && 2 <= |table|
    ensures IsSolution(table, pieces) <==> IsNaturalSpline(table, pieces)
  {
    hide Cubic.At, Cubic.Slope, Cubic.Curvature, Piece, Equation;
    if IsSolution(table, pieces) {
      SolutionIsNaturalSpline(table, pieces);
    }
    if IsNaturalSpline(table, pieces) {
      NaturalSplineIsSolution(table, pieces);
    }
  }

  lemma PieceStarts(p: Cubic)
    ensures p.At(0.0) == p.a && p.Slope(0.0) == p.b && p.Curvature(0.0) == 2.0 * p.c
  {
  }

  lemma PieceIs(table: seq<Point>, pieces: seq<Cubic>, i: int)
    requires Increasing(table) && |pieces| == |table| && 0 <= i < |table| - 1 && IsPiece(table, pieces, i)
    ensures Connects(table, pieces, i)
    ensures pieces[i].Curvature(Step(table, i)) == 2.0 * Quadratic(table, pieces, i + 1)
  {
    hide Cubic.At, Cubic.Slope, Cubic.Curvature;
    PieceStarts(pieces[i]);
    PieceEnds(Step(table, i), table[i].value, table[i + 1].value, Quadratic(table, pieces, i), Quadratic(table, pieces, i + 1));
  }

  lemma JoinIffBalanced(table: seq<Point>, pieces: seq<Cubic>, i: int, j: int)
    requires Increasing(table) && |pieces| == |table| && 0 <= i < |table| - 2 && j == i + 1
    requires IsPiece(table, pieces, i) && IsPiece(table, pieces, j)
    ensures JoinsSmoothly(table, pieces, i) <==> IsBalanced(table, pieces, j)
  {
    hide Cubic.At, Cubic.Slope, Cubic.Curvature, Equation, Piece;
    PieceIs(table, pieces, i);
    PieceStarts(pieces[j]);
    SlopesMeetIff(Step(table, i), Step(table, j), table[i].value, table[j].value, table[j + 1].value,
                  Quadratic(table, pieces, i), Quadratic(table, pieces, j), Quadratic(table, pieces, j + 1), Alpha(table, j));
  }

  lemma SolutionIsNaturalSpline(table: seq<Point>, pieces: seq<Cubic>)
    requires Increasing(table) && 2 <= |table| && IsSolution(table, pieces)
    ensures IsNaturalSpline(table, pieces)
  {
    hide Cubic.At, Cubic.Slope, Cubic.Curvature, Piece, Equation, IsPiece, IsBalanced, Connects, JoinsSmoothly, Alpha;
    var n := |table|;
    PieceStarts(pieces[0]);
    forall i | 0 <= i < n - 1 ensures Connects(table, pieces, i) {
      PieceIs(table, pieces, i);
    }
    forall i | 0 <= i < n - 2 ensures JoinsSmoothly(table, pieces, i) {
      JoinIffBalanced(table, pieces, i, i + 1);
    }
    PieceIs(table, pieces, n - 2);
  }

  lemma NaturalPieceIs(table: seq<Point>, pieces: seq<Cubic>, i: int)
    requires Increasing(table) && 2 <= |table| && IsNaturalSpline(table, pieces) && 0 <= i < |table| - 1
    ensures IsPiece(table, pieces, i)
  {
    hide Cubic.At, Cubic.Slope, Cubic.Curvature, Piece;
    PieceStarts(pieces[i]);
    if i < |table| - 2 {
      assert JoinsSmoothly(table, pieces, i);
      PieceStarts(pieces[i + 1]);
    }
    assert Connects(table, pieces, i);
    PieceIsDetermined(pieces[i], Step(table, i), table[i + 1].value, Quadratic(table, pieces, i + 1));
  }

  lemma NaturalSplineIsSolution(table: seq<Point>, pieces: seq<Cubic>)
    requires Increasing(table) && 2 <= |table| && IsNaturalSpline(table, pieces)
    ensures IsSolution(table, pieces)
  {
    hide Cubic.At, Cubic.Slope, Cubic.Curvature, Piece, Equation, IsPiece, IsBalanced, Connects, JoinsSmoothly, Alpha;
    PieceStarts(pieces[0]);
    forall i | 0 <= i < |table| - 1 ensures IsPiece(table, pieces, i) {
      NaturalPieceIs(table, pieces, i);
    }
    forall i | 0 < i < |table| - 1 ensures IsBalanced(table, pieces, i) {
      NaturalPieceIs(table, pieces, i - 1);
      NaturalPieceIs(table, pieces, i);
      JoinIffBalanced(table, pieces, i - 1, i);
    }
  }

  // ---- Uniqueness -------------------------------------------------------------------------------

  /** Eliminating the row above: the difference of two solutions shrinks from right to left. */
  lemma EliminateRow(h0: real, h1: real, mu0: real, mu1: real, e0: real, e1: real, e2: real)
    requires 0.0 < h0 && 0.0 < h1 && 0.0 <= mu0 < 1.0
    requires Pivot(h0, h1, mu0) > 0.0 ==> mu1 == h1 / Pivot(h0, h1, mu0)
    requires Equation(h0, h1, e0, e1, e2, 0.0) && e0 == -(mu0 * e1)
    ensures e1 == -(mu1 * e2)
  {
    PivotIsPositive(h0, h1, mu0);
    var l := Pivot(h0, h1, mu0);
    assert h0 * e0 == -(h0 * mu0 * e1);
    assert l * e1 == -(h1 * e2);
    Cancel(e1, l);
    assert h1 * e2 / l == h1 / l * e2;
  }

  lemma EquationsDiffer(h0: real, h1: real, c0: real, c1: real, c2: real, d0: real, d1: real, d2: real, alpha: real)
    requires Equation(h0, h1, c0, c1, c2, alpha) && Equation(h0, h1, d0, d1, d2, alpha)
    ensures Equation(h0, h1, c0 - d0, c1 - d1, c2 - d2, 0.0)
  {
  }

  function Gap(table: seq<Point>, p: seq<Cubic>, q: seq<Cubic>, i: int): real
    requires |p| == |q| == |table| && 0 <= i < |table|
  {
    Quadratic(table, p, i) - Quadratic(table, q, i)
  }

  lemma GapBalances(table: seq<Point>, p: seq<Cubic>, q: seq<Cubic>, i: int)
    requires Increasing(table) && |p| == |q| == |table| && 0 < i < |table| - 1
    requires IsBalanced(table, p, i) && IsBalanced(table, q, i)
    ensures Equation(Step(table, i - 1), Step(table, i), Gap(table, p, q, i - 1), Gap(table, p, q, i), Gap(table, p, q, i + 1), 0.0)
  {
    hide Equation, Alpha, Quadratic;
    EquationsDiffer(Step(table, i - 1), Step(table, i),
                    Quadratic(table, p, i - 1), Quadratic(table, p, i), Quadratic(table, p, i + 1),
                    Quadratic(table, q, i - 1), Quadratic(table, q, i), Quadratic(table, q, i + 1), Alpha(table, i));
  }

  lemma {:induction false} GapShrinks(table: seq<Point>, p: seq<Cubic>, q: seq<Cubic>, i: nat)
    requires Increasing(table) && 2 <= |table| && IsSolution(table, p) && IsSolution(table, q) && i < |table| - 1
    ensures Gap(table, p, q, i) == -(Mu(table, i) * Gap(table, p, q, i + 1))
  {
    hide Equation, Pivot, IsPiece, IsBalanced;
    if i > 0 {
      GapShrinks(table, p, q, i - 1);
      GapBalances(table, p, q, i);
      EliminateRow(Step(table, i - 1), Step(table, i), Mu(table, i - 1), Mu(table, i),
                   Gap(table, p, q, i - 1), Gap(table, p, q, i), Gap(table, p, q, i + 1));
    }
  }

  lemma {:induction false} NoDifference(table: seq<Point>, p: seq<Cubic>, q: seq<Cubic>, i: nat)
    requires Increasing(table) && 2 <= |table| && IsSolution(table, p) && IsSolution(table, q) && i < |table|
    ensures Quadratic(table, p, i) == Quadratic(table, q, i)
    decreases |table| - i
  {
    hide IsPiece, IsBalanced, Mu;
    if i < |table| - 1 {
      NoDifference(table, p, q, i + 1);
      GapShrinks(table, p, q, i);
      assert Mu(table, i) * 0.0 == 0.0;
    }
  }

  /** There is only one natural spline through a table. */
  lemma NaturalSplineIsUnique(table: seq<Point>, p: seq<Cubic>, q: seq<Cubic>)
    requires Increasing(table) && 2 <= |table| && IsNaturalSpline(table, p) && IsNaturalSpline(table, q)
    ensures p[..|table| - 1] == q[..|table| - 1]
  {
    hide Cubic.At, Cubic.Slope, Cubic.Curvature, Piece, Quadratic, IsBalanced, Connects, JoinsSmoothly;
    NaturalSplineIsSolution(table, p);
    NaturalSplineIsSolution(table, q);
    forall i | 0 <= i < |table| - 1 ensures p[i] == q[i] {
      NoDifference(table, p, q, i);
      NoDifference(table, p, q, i + 1);
      assert IsPiece(table, p, i) && IsPiece(table, q, i);
    }
  }

  lemma LinePiece(h: real, a0: real, a1: real, slope: real)
    requires a1 - a0 == slope * h
    ensures var p := Cubic(a0, slope, 0.0, 0.0);
      p.At(0.0) == a0 && p.At(h) == a1 && p.Slope(0.0) == p.Slope(h) == slope && p.Curvature(0.0) == p.Curvature(h) == 0.0
  {
  }

  lemma LineIsNaturalSpline(table: seq<Point>, slope: real, line: seq<Cubic>)
    requires Increasing(table) && 2 <= |table| == |line|
    requires forall i :: 0 <= i < |table| - 1 ==> table[i + 1].value - table[i].value == slope * Step(table, i)
    requires forall i :: 0 <= i < |table| ==> line[i] == Cubic(table[i].value, slope, 0.0, 0.0)
    ensures IsNaturalSpline(table, line)
  {
    hide Cubic.At, Cubic.Slope, Cubic.Curvature, Step;
    forall i | 0 <= i < |table| - 1
      ensures Connects(table, line, i) && line[i].Curvature(0.0) == line[i].Curvature(Step(table, i)) == 0.0
      ensures line[i].Slope(0.0) == line[i].Slope(Step(table, i)) == slope
    {
      LinePiece(Step(table, i), table[i].value, table[i + 1].value, slope);
    }
  }

  lemma LineRise(offset: real, slope: real, x: real, y: real)
    ensures (offset + slope * y) - (offset + slope * x) == slope * (y - x)
  {
  }

  /** A table of points on a line gives that line. */
  lemma StraightLineIsKept(table: seq<Point>, pieces: seq<Cubic>, offset: real, slope: real)
    requires Increasing(table) && 2 <= |table| && IsNaturalSpline(table, pieces)
    requires forall p :: p in table ==> p.value == offset + slope * p.voltage
    ensures forall i :: 0 <= i < |table| - 1 ==> pieces[i] == Cubic(table[i].value, slope, 0.0, 0.0)
  {
    hide Cubic.At, Cubic.Slope, Cubic.Curvature, Connects, JoinsSmoothly;
    var line := seq(|table|, i requires 0 <= i < |table| => Cubic(table[i].value, slope, 0.0, 0.0));
    forall i | 0 <= i < |table| - 1 ensures table[i + 1].value - table[i].value == slope * Step(table, i) {
      assert table[i] in table && table[i + 1] in table;
      LineRise(offset, slope, table[i].voltage, table[i + 1].voltage);
    }
    LineIsNaturalSpline(table, slope, line);
    NaturalSplineIsUnique(table, pieces, line);
    assert forall i :: 0 <= i < |table| - 1 ==> pieces[i] == pieces[..|table| - 1][i] && line[i] == line[..|table| - 1][i];
  }

  // ---- Evaluation -------------------------------------------------------------------------------

  /** Segment `i` is the one for `voltage`: the nearest one when the voltage is outside the table. */
  ghost predicate IsSegment(table: seq<Point>, voltage: real, i: int)
  {
    && 0 <= i < |table| - 1
    && (0 < i ==> table[i].voltage <= voltage)
    && (i < |table| - 2 ==> voltage < table[i + 1].voltage)
  }

  /** The spline at `voltage`, or the nearest end value when clamped and not inside the table. */
  ghost predicate IsValueAt(table: seq<Point>, pieces: seq<Cubic>, voltage: real, clamped: bool, r: real)
    requires 2 <= |table| == |pieces|
  {
    if clamped && voltage <= table[0].voltage then r == table[0].value
    else if clamped && voltage >= table[|table| - 1].voltage then r == table[|table| - 1].value
    else exists i :: IsSegment(table, voltage, i) && r == pieces[i].At(voltage - table[i].voltage)
  }

  lemma SegmentIsUnique(table: seq<Point>, voltage: real, i: int, j: int)
    requires Increasing(table) && IsSegment(table, voltage, i) && IsSegment(table, voltage, j)
    ensures i == j
  {
    if i < j {
      LaterIsNoSegment(table, voltage, i, j);
    } else if j < i {
      LaterIsNoSegment(table, voltage, j, i);
    }
  }

  lemma LaterIsNoSegment(table: seq<Point>, voltage: real, i: int, j: int)
    requires Increasing(table) && IsSegment(table, voltage, i) && i < j < |table| - 1
    ensures !IsSegment(table, voltage, j)
  {
    assert table[i + 1].voltage <= table[j].voltage;
  }

  /** The value is determined. */
  lemma ValueIsUnique(table: seq<Point>, pieces: seq<Cubic>, voltage: real, clamped: bool, r: real, s: real)
    requires Increasing(table) && 2 <= |table| == |pieces|
    requires IsValueAt(table, pieces, voltage, clamped, r) && IsValueAt(table, pieces, voltage, clamped, s)
    ensures r == s
  {
    hide Cubic.At;
    if !(clamped && (voltage <= table[0].voltage || voltage >= table[|table| - 1].voltage)) {
      var i :| IsSegment(table, voltage, i) && r == pieces[i].At(voltage - table[i].voltage);
      var j :| IsSegment(table, voltage, j) && s == pieces[j].At(voltage - table[j].voltage);
      SegmentIsUnique(table, voltage, i, j);
    }
  }

  /** The segment of a knot: the one it starts, or the last one for the last knot. */
  lemma KnotSegment(table: seq<Point>, k: nat)
    requires Increasing(table) && 2 <= |table| && k < |table|
    ensures IsSegment(table, table[k].voltage, if k == |table| - 1 then k - 1 else k)
  {
  }

  /** The natural spline takes the table's value at every knot, the last one included, clamped or not. */
  lemma TakesKnotValues(table: seq<Point>, pieces: seq<Cubic>, k: nat, clamped: bool, r: real)
    requires Increasing(table) && 2 <= |table| && IsNaturalSpline(table, pieces) && k < |table|
    requires IsValueAt(table, pieces, table[k].voltage, clamped, r)
    ensures r == table[k].value
  {
    hide Cubic.At, JoinsSmoothly;
    var i := if k == |table| - 1 then k - 1 else k;
    KnotSegment(table, k);
    assert Connects(table, pieces, i);
    assert pieces[i].At(table[k].voltage - table[i].voltage) == table[k].value;
    EndKnots(table, k);
    if !(clamped && (table[k].voltage <= table[0].voltage || table[k].voltage >= table[|table| - 1].voltage)) {
      assert IsValueAt(table, pieces, table[k].voltage, clamped, table[k].value);
      ValueIsUnique(table, pieces, table[k].voltage, clamped, r, table[k].value);
    }
  }

  lemma EndKnots(table: seq<Point>, k: nat)
    requires Increasing(table) && k < |table|
    ensures table[k].voltage <= table[0].voltage ==> k == 0
    ensures table[k].voltage >= table[|table| - 1].voltage ==> k == |table| - 1
  {
  }

  /** Clamping changes no value inside the table, its ends included. */
  lemma ClampingKeepsInside(table: seq<Point>, pieces: seq<Cubic>, voltage: real, r: real)
    requires Increasing(table) && 2 <= |table| && IsNaturalSpline(table, pieces)
    requires table[0].voltage <= voltage <= table[|table| - 1].voltage
    ensures IsValueAt(table, pieces, voltage, false, r) <==> IsValueAt(table, pieces, voltage, true, r)
  {
    hide Cubic.At, Connects, JoinsSmoothly, IsSegment;
    var n := |table|;
    if voltage == table[0].voltage {
      KnotIsTaken(table, pieces, 0, r);
    } else if voltage == table[n - 1].voltage {
      KnotIsTaken(table, pieces, n - 1, r);
    }
  }

  lemma KnotIsTaken(table: seq<Point>, pieces: seq<Cubic>, k: nat, r: real)
    requires Increasing(table) && 2 <= |table| && IsNaturalSpline(table, pieces) && k < |table|
    ensures IsValueAt(table, pieces, table[k].voltage, false, r) <==> r == table[k].value
  {
    hide Cubic.At, JoinsSmoothly;
    var i := if k == |table| - 1 then k - 1 else k;
    KnotSegment(table, k);
    assert Connects(table, pieces, i);
    assert pieces[i].At(table[k].voltage - table[i].voltage) == table[k].value;
    if IsValueAt(table, pieces, table[k].voltage, false, r) {
      TakesKnotValues(table, pieces, k, false, r);
    }
  }

  // ---- Solving ----------------------------------------------------------------------------------

  /** Eliminated rows, solved from the last one back, satisfy the equation. */
  lemma RowsSolve(h0: real, h1: real, mu0: real, l: real, mu1: real, alpha: real, z0: real, z1: real,
      c0: real, c1: real, c2: real)
    requires l > 0.0 && l == Pivot(h0, h1, mu0) && mu1 == h1 / l && z1 == (alpha - h0 * z0) / l
    requires c0 == z0 - mu0 * c1 && c1 == z1 - mu1 * c2
    ensures Equation(h0, h1, c0, c1, c2, alpha)
  {
    Cancel(alpha - h0 * z0, l);
    Cancel(h1, l);
    assert l * c1 == l * z1 - l * mu1 * c2;
    assert h0 * c0 == h0 * z0 - h0 * mu0 * c1;
    assert l * c1 == 2.0 * (h0 + h1) * c1 - h0 * mu0 * c1;
  }

  ghost predicate IsWidth(table: seq<Point>, k: int, h: real)
    requires 0 <= k < |table| - 1
  {
    h == Step(table, k)
  }

  /** Row `k` of the table, eliminated: its pivot is positive and the ratio to the next row below 1. */
  ghost predicate IsRowOf(table: seq<Point>, k: int, mu0: real, z0: real, l: real, mu1: real, z1: real)
    requires Increasing(table) && 0 < k < |table| - 1
  {
    && l > 0.0 && l == Pivot(Step(table, k - 1), Step(table, k), mu0)
    && 0.0 <= mu1 < 1.0 && mu1 == Step(table, k) / l
    && z1 == (Alpha(table, k) - Step(table, k - 1) * z0) / l
  }

  /** One row of the forward sweep, from the one above it. */
  method EliminateNext(table: seq<Point>, k: int, h0: real, h1: real, alpha: real, mu0: real, z0: real)
    returns (l: real, mu: real, z: real)
    requires Increasing(table) && 0 < k < |table| - 1 && 0.0 <= mu0 < 1.0
    requires IsWidth(table, k - 1, h0) && IsWidth(table, k, h1) && alpha == Alpha(table, k)
    ensures IsRowOf(table, k, mu0, z0, l, mu, z) && 0.0 <= mu < 1.0
  {
    hide Alpha;
    PivotIsPositive(h0, h1, mu0);
    l := 2.0 * (table[k + 1].voltage - table[k - 1].voltage) - h0 * mu0;
    mu := h1 / l;
    z := (alpha - h0 * z0) / l;
  }

  /** Piece `k` solved back from the piece after it. */
  ghost predicate IsSolvedBack(table: seq<Point>, k: int, mu: real, z: real, p: Cubic, c1: real)
    requires Increasing(table) && 0 <= k < |table| - 1
  {
    p == Piece(Step(table, k), table[k].value, table[k + 1].value, p.c, c1) && p.c == z - mu * c1
  }

  lemma BalancedRow(table: seq<Point>, k: int, mu0: real, z0: real, l: real, mu1: real, z1: real, c0: real, c1: real, c2: real)
    requires Increasing(table) && 0 < k < |table| - 1 && IsRowOf(table, k, mu0, z0, l, mu1, z1)
    requires c0 == z0 - mu0 * c1 && c1 == z1 - mu1 * c2
    ensures Equation(Step(table, k - 1), Step(table, k), c0, c1, c2, Alpha(table, k))
  {
    hide Alpha, Equation, Pivot;
    RowsSolve(Step(table, k - 1), Step(table, k), mu0, l, mu1, Alpha(table, k), z0, z1, c0, c1, c2);
  }

  lemma SolvedBackIsNaturalSpline(table: seq<Point>, l: seq<real>, mu: seq<real>, z: seq<real>, pieces: seq<Cubic>)
    requires 2 <= |table| && Increasing(table) && |l| == |mu| == |z| == |pieces| == |table|
    requires mu[0] == 0.0 && z[0] == 0.0 && pieces[|table| - 1].c == 0.0
    requires forall k :: 0 < k < |table| - 1 ==> IsRowOf(table, k, mu[k - 1], z[k - 1], l[k], mu[k], z[k])
    requires forall k :: 0 <= k < |table| - 1 ==> IsSolvedBack(table, k, mu[k], z[k], pieces[k], pieces[k + 1].c)
    ensures IsNaturalSpline(table, pieces)
  {
    hide Piece, Equation, IsRowOf, Alpha;
    assert forall k :: 0 <= k < |table| ==> Quadratic(table, pieces, k) == pieces[k].c;
    assert IsSolvedBack(table, 0, mu[0], z[0], pieces[0], pieces[1].c);
    forall k | 0 <= k < |table| - 1 ensures IsPiece(table, pieces, k) {
      assert IsSolvedBack(table, k, mu[k], z[k], pieces[k], pieces[k + 1].c);
    }
    forall k | 0 < k < |table| - 1 ensures IsBalanced(table, pieces, k) {
      var i := k - 1;
      assert IsSolvedBack(table, i, mu[i], z[i], pieces[i], pieces[i + 1].c);
      assert IsSolvedBack(table, k, mu[k], z[k], pieces[k], pieces[k + 1].c);
      assert IsRowOf(table, k, mu[k - 1], z[k - 1], l[k], mu[k], z[k]);
      BalancedRow(table, k, mu[i], z[i], l[k], mu[k], z[k], pieces[i].c, pieces[k].c, pieces[k + 1].c);
    }
    SolutionIsNaturalSpline(table, pieces);
  }

  /** The forward sweep of the Thomas algorithm: no pivot is 0. */
  method Eliminate(table: seq<Point>, h: array<real>, alpha: array<real>) returns (l: array<real>, mu: array<real>, z: array<real>)
    requires 2 <= |table| && Increasing(table) && h.Length == alpha.Length == |table| - 1
    requires forall k :: 0 <= k < |table| - 1 ==> IsWidth(table, k, h[k])
    requires forall k :: 0 < k < |table| - 1 ==> alpha[k] == Alpha(table, k)
    ensures l.Length == mu.Length == z.Length == |table| && mu[0] == 0.0 && z[0] == 0.0
    ensures forall k :: 0 < k < |table| - 1 ==> IsRowOf(table, k, mu[k - 1], z[k - 1], l[k], mu[k], z[k])
  {
    hide IsRowOf, Alpha, IsWidth;
    var n := |table|;
    l := new real[n](i => 0.0);
    mu := new real[n](i => 0.0);
    z := new real[n](i => 0.0);
    l[0] := 1.0;
    for i := 1 to n - 1
      invariant mu[0] == 0.0 && z[0] == 0.0
      invariant forall k :: 0 <= k < i ==> 0.0 <= mu[k] < 1.0
      invariant forall k :: 0 < k < i ==> IsRowOf(table, k, mu[k - 1], z[k - 1], l[k], mu[k], z[k])
    {
      l[i], mu[i], z[i] := EliminateNext(table, i, h[i - 1], h[i], alpha[i], mu[i - 1], z[i - 1]);
    }
    l[n - 1] := 1.0;
    z[n - 1] := 0.0;
  }

  class CubicSplineVoltageInterpolator {
    const table: seq<Point>
    const pieces: array<Cubic>

    ghost predicate Valid()
      reads pieces
    {
      2 <= |table| && Increasing(table) && IsNaturalSpline(table, pieces[..])
    }

    constructor (table: seq<Point>)
      requires 2 <= |table| && Increasing(table)
      ensures Valid() && this.table == table && fresh(pieces)
    {
      this.table := table;
      pieces := new Cubic[|table|](i => Cubic(0.0, 0.0, 0.0, 0.0));
      new;
      for i := 0 to |table|
        invariant forall k :: 0 <= k < i ==> pieces[k].a == table[k].value
        invariant forall k :: 0 <= k < |table| ==> pieces[k].c == 0.0
      {
        pieces[i] := pieces[i].(a := table[i].value);
      }
      var h, alpha := Differences();
      var l, mu, z := Eliminate(table, h, alpha);
      SolveBack(h, mu, z);
      SolvedBackIsNaturalSpline(table, l[..], mu[..], z[..], pieces[..]);
    }

    /** The constructor's check: no interpolator without a table of at least two points. */
    static method Create(table: Option<seq<Point>>) returns (r: Option<CubicSplineVoltageInterpolator>)
      requires table.Some? ==> Increasing(table.value)
      ensures r.None? <==> table.None? || |table.value| < 2
      ensures r.Some? ==> r.value.Valid() && r.value.table == table.value && fresh(r.value)
    {
      if table.None? || |table.value| < 2 {
        return None;
      }
      var interpolator := new CubicSplineVoltageInterpolator(table.value);
      return Some(interpolator);
    }

    /** The index of the first point above `voltage`, or the number of points. */
    method UpperBound(voltage: real) returns (index: nat)
      requires Increasing(table)
      ensures index <= |table|
      ensures forall k :: 0 <= k < index ==> table[k].voltage <= voltage
      ensures forall k :: index <= k < |table| ==> voltage < table[k].voltage
    {
      index := 0;
      var length := |table|;
      while 0 < length
        invariant 0 <= length && index + length <= |table|
        invariant forall k :: 0 <= k < index ==> table[k].voltage <= voltage
        invariant forall k :: index + length <= k < |table| ==> voltage < table[k].voltage
      {
        var half := length / 2;
        if voltage < table[index + half].voltage {
          length := half;
        } else {
          index := index + half + 1;
          length := length - half - 1;
        }
      }
    }

    /** The value at `voltage`, which outside the table continues the nearest segment unless clamped. */
    method Interpolate(voltage: real, clampToEnds: bool) returns (r: real)
      requires Valid()
      ensures IsValueAt(table, pieces[..], voltage, clampToEnds, r)
      ensures forall k :: 0 <= k < |table| && voltage == table[k].voltage ==> r == table[k].value
    {
      hide Cubic.At, Connects, JoinsSmoothly;
      r := Evaluate(voltage, clampToEnds);
      forall k | 0 <= k < |table| && voltage == table[k].voltage ensures r == table[k].value {
        TakesKnotValues(table, pieces[..], k, clampToEnds, r);
      }
    }

    method Evaluate(voltage: real, clampToEnds: bool) returns (r: real)
      requires 2 <= |table| == pieces.Length && Increasing(table)
      ensures IsValueAt(table, pieces[..], voltage, clampToEnds, r)
    {
      hide Cubic.At;
      if clampToEnds {
        if voltage <= table[0].voltage { return table[0].value; }
        if voltage >= table[|table| - 1].voltage { return table[|table| - 1].value; }
      }
      var upper := UpperBound(voltage);
      var lastSegment := |table| - 2;
      var i := if upper == 0 then 0 else if upper - 1 < lastSegment then upper - 1 else lastSegment;
      assert IsSegment(table, voltage, i);
      r := pieces[i].At(voltage - table[i].voltage);
      assert pieces[..][i] == pieces[i];
    }

    /** The widths of the segments and the right-hand sides of the equations. */
    method Differences() returns (h: array<real>, alpha: array<real>)
      requires 2 <= |table| == pieces.Length && Increasing(table)
      requires forall k :: 0 <= k < |table| ==> pieces[k].a == table[k].value
      ensures h.Length == alpha.Length == |table| - 1
      ensures forall k :: 0 <= k < |table| - 1 ==> IsWidth(table, k, h[k])
      ensures forall k :: 0 < k < |table| - 1 ==> alpha[k] == Alpha(table, k)
    {
      hide Alpha;
      var n := |table|;
      h := new real[n - 1](i => 0.0);
      alpha := new real[n - 1](i => 0.0);
      for i := 0 to n - 1
        invariant forall k :: 0 <= k < i ==> IsWidth(table, k, h[k])
      {
        h[i] := table[i + 1].voltage - table[i].voltage;
      }
      for i := 1 to n - 1
        invariant forall k :: 0 <= k < n - 1 ==> IsWidth(table, k, h[k])
        invariant forall k :: 0 < k < i ==> alpha[k] == Alpha(table, k)
      {
        assert IsWidth(table, i, h[i]) && IsWidth(table, i - 1, h[i - 1]);
        alpha[i] := (3.0 / h[i]) * (pieces[i + 1].a - pieces[i].a) - (3.0 / h[i - 1]) * (pieces[i].a - pieces[i - 1].a);
        AlphaIs(table, i);
      }
    }

    /** The backward sweep, from the last segment to the first. */
    method SolveBack(h: array<real>, mu: array<real>, z: array<real>)
      requires 2 <= |table| == pieces.Length && Increasing(table) && h.Length == |table| - 1
      requires forall k :: 0 <= k < |table| - 1 ==> IsWidth(table, k, h[k])
      requires mu.Length == z.Length == |table|
      requires forall k :: 0 <= k < |table| ==> pieces[k].a == table[k].value && pieces[k].c == 0.0
      modifies pieces
      ensures pieces[|table| - 1].c == 0.0
      ensures forall k :: 0 <= k < |table| - 1 ==> IsSolvedBack(table, k, mu[k], z[k], pieces[k], pieces[k + 1].c)
    {
      hide IsSolvedBack;
      var n := |table|;
      var j := n - 2;
      while j >= 0
        invariant -1 <= j <= n - 2
        invariant pieces[n - 1].c == 0.0
        invariant forall k :: 0 <= k < n ==> pieces[k].a == table[k].value
        invariant forall k :: j < k < n - 1 ==> IsSolvedBack(table, k, mu[k], z[k], pieces[k], pieces[k + 1].c)
      {
        assert IsWidth(table, j, h[j]);
        var c := z[j] - mu[j] * pieces[j + 1].c;
        var b := (pieces[j + 1].a - pieces[j].a) / h[j] - h[j] * (pieces[j + 1].c + 2.0 * c) / 3.0;
        var d := (pieces[j + 1].c - c) / (3.0 * h[j]);
        pieces[j] := Cubic(pieces[j].a, b, c, d);
        SolvedBack(table, j, mu[j], z[j], pieces[j], pieces[j + 1].c);
        j := j - 1;
      }
    }
  }

  lemma AlphaIs(table: seq<Point>, i: int)
    requires Increasing(table) && 0 < i < |table| - 1
    ensures Alpha(table, i) == (3.0 / Step(table, i)) * (table[i + 1].value - table[i].value)
                               - (3.0 / Step(table, i - 1)) * (table[i].value - table[i - 1].value)
  {
  }

  lemma SolvedBack(table: seq<Point>, k: int, mu: real, z: real, p: Cubic, c1: real)
    requires Increasing(table) && 0 <= k < |table| - 1 && p.c == z - mu * c1
    requires p == Piece(Step(table, k), table[k].value, table[k + 1].value, p.c, c1)
    ensures IsSolvedBack(table, k, mu, z, p, c1)
  {
  }
}
