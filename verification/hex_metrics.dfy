/** The static metrics of a hexagon cell: edge classification, terrace
    stepping and the corner table. */
module HexMetrics {
  import opened Int32Arith
  import opened Geometry
  import opened HexDirections

  /** How two neighbouring cells meet. */
  datatype HexEdgeType = Flat | Slope | Cliff

  function Abs(n: int): nat {
    if n < 0 then -n else n
  }

  // ---------------------------------------------------------------------------
  // Edge classification

  /** Classifies the edge between two elevations from their mathematical
      difference: equal is flat, one level apart is a slope, anything else a cliff. */
  function GetEdgeType(elevation1: int, elevation2: int): (t: HexEdgeType)
    ensures t == Flat <==> elevation1 == elevation2
    ensures t == Slope <==> Abs(elevation2 - elevation1) == 1
    ensures t == Cliff <==> Abs(elevation2 - elevation1) >= 2
  {
    if elevation1 == elevation2 then Flat
    else
      var delta := elevation2 - elevation1;
      if delta == 1 || delta == -1 then Slope else Cliff
  }

  /** The classification does not depend on the order of the two cells. */
  lemma EdgeTypeSymmetric(e1: int, e2: int)
    ensures GetEdgeType(e1, e2) == GetEdgeType(e2, e1)
  {
  }

  /** The classification depends only on the difference of the elevations. */
  lemma EdgeTypeShiftInvariant(e1: int, e2: int, k: int)
    ensures GetEdgeType(e1 + k, e2 + k) == GetEdgeType(e1, e2)
  {
  }

  /** The classification as the source computes it: the difference is taken
      in unchecked 32-bit arithmetic, so it can wrap round. */
  function GetEdgeTypeAsWritten(elevation1: Int32, elevation2: Int32): (t: HexEdgeType)
    ensures t == Flat <==> elevation1 == elevation2
  {
    if elevation1 == elevation2 then Flat
    else
      var delta := WrapSum(elevation2 - elevation1);
      if delta == 1 || delta == -1 then Slope else Cliff
  }

  /** Whenever the 32-bit difference does not overflow, the source's
      classification is the intended one. */
  lemma AsWrittenAgreesWithoutOverflow(e1: Int32, e2: Int32)
    requires MIN <= e2 - e1 <= MAX
    ensures GetEdgeTypeAsWritten(e1, e2) == GetEdgeType(e1, e2)
  {
  }

  /** The lowest and highest 32-bit elevations differ by 2^32 - 1, which wraps
      to -1: the source classifies this edge as a slope, not a cliff. */
  lemma AsWrittenExtremesAreSlope()
    ensures GetEdgeTypeAsWritten(MIN, MAX) == Slope
    ensures GetEdgeTypeAsWritten(MAX, MIN) == Slope
    ensures GetEdgeType(MIN, MAX) == Cliff
  {
  }

  /** The extreme pair is the only place where the two classifications differ. */
  lemma AsWrittenDiffersOnlyAtExtremes(e1: Int32, e2: Int32)
    ensures GetEdgeTypeAsWritten(e1, e2) != GetEdgeType(e1, e2)
        <==> (e1 == MIN && e2 == MAX) || (e1 == MAX && e2 == MIN)
  {
  }

  // ---------------------------------------------------------------------------
  // Terraces

  const TerracesPerSlope: int := 2

  /** A slope is drawn as `TerracesPerSlope` flat treads joined by risers. */
  const TerraceSteps: int := TerracesPerSlope * 2 + 1

  const HorizontalTerraceStepSize: real := 1.0 / (TerraceSteps as real)

  const VerticalTerraceStepSize: real := 1.0 / ((TerracesPerSlope + 1) as real)

  /** The terrace constants: five interpolation steps, and three equal rises. */
  lemma TerraceConstants()
    ensures TerraceSteps == 5
    ensures HorizontalTerraceStepSize * (TerraceSteps as real) == 1.0
    ensures VerticalTerraceStepSize * ((TerracesPerSlope + 1) as real) == 1.0
  {
  }

  /** How many rises have been climbed at interpolation step `step`: the
      source's `(step + 1) / 2`, with 32-bit addition and C# division. */
  function VerticalIndex(step: Int32): (k: int)
    ensures 0 <= step < MAX ==> 0 <= step + 1 - 2 * k <= 1
  {
    TruncDiv(WrapSum(step + 1), 2)
  }

  /** No rise has been climbed at step 0, all of them at the last step. */
  lemma VerticalIndexEndpoints()
    ensures VerticalIndex(0) == 0
    ensures VerticalIndex(TerraceSteps) == TerracesPerSlope + 1
  {
  }

  /** From an even step to the next the index rises by one (a riser); from an
      odd step it stays (a tread). */
  lemma VerticalIndexStep(step: Int32)
    requires 0 <= step && step + 2 <= MAX
    ensures VerticalIndex(step + 1) == VerticalIndex(step) + (if step % 2 == 0 then 1 else 0)
  {
  }

  /** The index never decreases along non-negative steps. */
  lemma VerticalIndexMonotone(s: Int32, t: Int32)
    requires 0 <= s <= t < MAX
    ensures VerticalIndex(s) <= VerticalIndex(t)
  {
  }

  /** The share of the horizontal distance covered at interpolation step `step`. */
  function HorizontalFraction(step: Int32): real {
    (step as real) * HorizontalTerraceStepSize
  }

  /** The share of the height difference covered at interpolation step `step`. */
  function VerticalFraction(step: Int32): real {
    (VerticalIndex(step) as real) * VerticalTerraceStepSize
  }

  /** The coordinate a fraction `t` of the way from `p` to `q`. */
  function LerpCoord(p: real, q: real, t: real): real {
    p + (q - p) * t
  }

  /** Terrace interpolation of a position: horizontal coordinates move an equal
      fraction at every step, the height only through `VerticalIndex`. */
  function TerraceLerp(a: Vec3, b: Vec3, step: Int32): (r: Vec3)
    ensures step == 0 ==> r == a
    ensures step == TerraceSteps ==> r == b
  {
    var h := HorizontalFraction(step);
    var v := VerticalFraction(step);
    Vec3(LerpCoord(a.x, b.x, h), LerpCoord(a.y, b.y, v), LerpCoord(a.z, b.z, h))
  }

  /** Multiplying by a non-negative factor keeps the order. */
  lemma MulMonotone(c: real, x: real, y: real)
    requires 0.0 <= c && x <= y
    ensures c * x <= c * y
  {
    assert c * y - c * x == c * (y - x);
  }

  /** Moving further from `p` toward `q` never goes backwards: the coordinate
      grows toward a larger `q` and shrinks toward a smaller one. */
  lemma LerpMonotone(p: real, q: real, hs: real, ht: real)
    requires hs <= ht
    ensures p <= q ==> LerpCoord(p, q, hs) <= LerpCoord(p, q, ht)
    ensures q <= p ==> LerpCoord(p, q, ht) <= LerpCoord(p, q, hs)
  {
    if p <= q {
      MulMonotone(q - p, hs, ht);
    } else {
      MulMonotone(p - q, hs, ht);
      assert (q - p) * hs == -((p - q) * hs) && (q - p) * ht == -((p - q) * ht);
    }
  }

  /** The horizontal fraction grows with the step. */
  lemma HorizontalFractionMonotone(s: Int32, t: Int32)
    requires s <= t
    ensures HorizontalFraction(s) <= HorizontalFraction(t)
  {
    MulMonotone(HorizontalTerraceStepSize, s as real, t as real);
  }

  /** Along the x axis, progress never goes backwards as the step grows:
      toward a larger end the coordinate rises, toward a smaller end it falls. */
  lemma TerraceLerpXMonotone(a: Vec3, b: Vec3, s: Int32, t: Int32)
    requires s <= t
    ensures a.x <= b.x ==> TerraceLerp(a, b, s).x <= TerraceLerp(a, b, t).x
    ensures b.x <= a.x ==> TerraceLerp(a, b, t).x <= TerraceLerp(a, b, s).x
  {
    HorizontalFractionMonotone(s, t);
    LerpMonotone(a.x, b.x, HorizontalFraction(s), HorizontalFraction(t));
  }

  /** Along the z axis, progress never goes backwards as the step grows:
      toward a larger end the coordinate rises, toward a smaller end it falls. */
  lemma TerraceLerpZMonotone(a: Vec3, b: Vec3, s: Int32, t: Int32)
    requires s <= t
    ensures a.z <= b.z ==> TerraceLerp(a, b, s).z <= TerraceLerp(a, b, t).z
    ensures b.z <= a.z ==> TerraceLerp(a, b, t).z <= TerraceLerp(a, b, s).z
  {
    HorizontalFractionMonotone(s, t);
    LerpMonotone(a.z, b.z, HorizontalFraction(s), HorizontalFraction(t));
  }

  /** An odd step and the step after it lie at the same height: a tread. */
  lemma TerraceLerpTread(a: Vec3, b: Vec3, step: Int32)
    requires 0 <= step && step + 2 <= MAX && step % 2 == 1
    ensures TerraceLerp(a, b, step).y == TerraceLerp(a, b, step + 1).y
  {
    VerticalIndexStep(step);
  }

  /** From an even step to the next the height climbs one equal share of the
      total rise: a riser. */
  lemma TerraceLerpRiser(a: Vec3, b: Vec3, step: Int32)
    requires 0 <= step && step + 2 <= MAX && step % 2 == 0
    ensures TerraceLerp(a, b, step + 1).y - TerraceLerp(a, b, step).y
         == (b.y - a.y) * VerticalTerraceStepSize
  {
    VerticalIndexStep(step);
    assert VerticalFraction(step + 1) == VerticalFraction(step) + VerticalTerraceStepSize;
    LerpStep(a.y, b.y, VerticalFraction(step), VerticalTerraceStepSize);
  }

  /** Advancing the fraction by `dt` moves the coordinate by `dt` of the distance. */
  lemma LerpStep(p: real, q: real, t: real, dt: real)
    ensures LerpCoord(p, q, t + dt) - LerpCoord(p, q, t) == (q - p) * dt
  {
    assert (q - p) * (t + dt) == (q - p) * t + (q - p) * dt;
  }

  /** Terrace interpolation of a colour: the horizontal fraction only, clamped
      by the colour interpolation to the two end colours. */
  function TerraceColorLerp(a: Color, b: Color, step: Int32): (c: Color)
    ensures step <= 0 ==> c == a
    ensures step >= TerraceSteps ==> c == b
  {
    ColorLerp(a, b, (step as real) * HorizontalTerraceStepSize)
  }

  // ---------------------------------------------------------------------------
  // Corners

  const OuterRadius: real := 10.0

  /** The source's decimal approximation of the outer radius times sqrt(3)/2. */
  const InnerRadius: real := OuterRadius * 0.866025404

  const SolidFactor: real := 0.75

  const BlendFactor: real := 1.0 - SolidFactor

  /** The hexagon's corners clockwise from the top; the first is repeated at
      the end so that corner `d + 1` exists for every direction `d`. */
  const Corners: seq<Vec3> := [
    Vec3(0.0, 0.0, OuterRadius),
    Vec3(InnerRadius, 0.0, 0.5 * OuterRadius),
    Vec3(InnerRadius, 0.0, -0.5 * OuterRadius),
    Vec3(0.0, 0.0, -OuterRadius),
    Vec3(-InnerRadius, 0.0, -0.5 * OuterRadius),
    Vec3(-InnerRadius, 0.0, 0.5 * OuterRadius),
    Vec3(0.0, 0.0, OuterRadius)
  ]

  /** The table has seven entries, its last repeats its first, and the corner
      three places on is the mirror image through the centre. */
  lemma CornerTableShape()
    ensures |Corners| == 7
    ensures Corners[6] == Corners[0]
    ensures forall i :: 0 <= i <= 3 ==> Corners[i + 3] == Neg(Corners[i])
  {
  }

  /** The corner where the edge toward `d` starts. Every corner lies in the
      horizontal plane on the circle of radius `OuterRadius`, up to the
      rounding of sqrt(3)/2 in `InnerRadius`. */
  function GetFirstCorner(d: HexDirection): (c: Vec3)
    ensures c.y == 0.0
    ensures OuterRadius * OuterRadius <= c.x * c.x + c.z * c.z <= OuterRadius * OuterRadius + 0.000001
  {
    Corners[Ordinal(d)]
  }

  /** The corner where the edge toward `d` ends, which is where the edge
      toward the next direction starts. */
  function GetSecondCorner(d: HexDirection): (c: Vec3)
    ensures c == GetFirstCorner(Next(d))
  {
    Corners[Ordinal(d) + 1]
  }

  /** The first corner pulled in to the solid inner hexagon: the blend share
      of the corner makes up the rest of the way out, and the solid corners
      of opposite edges are mirror images through the centre. */
  function GetFirstSolidCorner(d: HexDirection): (c: Vec3)
    ensures Add(c, Scale(GetFirstCorner(d), BlendFactor)) == GetFirstCorner(d)
    ensures c == Neg(Scale(GetFirstCorner(Opposite(d)), SolidFactor))
  {
    SolidCornerOpposite(d);
    ScaleSplit(GetFirstCorner(d), SolidFactor, BlendFactor);
    Scale(GetFirstCorner(d), SolidFactor)
  }

  /** The scaled first corners of opposite edges mirror each other. */
  lemma SolidCornerOpposite(d: HexDirection)
    ensures Scale(GetFirstCorner(d), SolidFactor) == Neg(Scale(GetFirstCorner(Opposite(d)), SolidFactor))
  {
    var f := GetFirstCorner(d);
    var o := GetFirstCorner(Opposite(d));
    OppositeFirstCorners(d);
    assert o == Neg(f);
    ScaleNeg(f, SolidFactor);
    assert Scale(o, SolidFactor) == Neg(Scale(f, SolidFactor));
    NegNeg(Scale(f, SolidFactor));
  }

  /** The second corner of the solid inner hexagon, again the next
      direction's first. */
  function GetSecondSolidCorner(d: HexDirection): (c: Vec3)
    ensures c == GetFirstSolidCorner(Next(d))
  {
    Scale(Corners[Ordinal(d) + 1], SolidFactor)
  }

  /** The offset spanning the blend region from one solid edge to the
      neighbour's solid edge. The neighbour toward `d` is centred at the sum of
      the edge's two corners, and from either solid corner of the edge the
      bridge lands on the neighbour's facing solid corner. */
  function GetBridge(d: HexDirection): (r: Vec3)
    ensures Add(GetFirstSolidCorner(d), r)
         == Add(Add(GetFirstCorner(d), GetSecondCorner(d)), GetSecondSolidCorner(Opposite(d)))
    ensures Add(GetSecondSolidCorner(d), r)
         == Add(Add(GetFirstCorner(d), GetSecondCorner(d)), GetFirstSolidCorner(Opposite(d)))
  {
    BridgeLandsFirst(d);
    BridgeLandsSecond(d);
    Scale(Add(GetFirstCorner(d), GetSecondCorner(d)), BlendFactor)
  }

  /** The solid corners of the opposite edge, in terms of this edge's corners. */
  lemma OppositeSolidCorners(d: HexDirection)
    ensures GetFirstSolidCorner(Opposite(d)) == Scale(Neg(GetFirstCorner(d)), SolidFactor)
    ensures GetSecondSolidCorner(Opposite(d)) == Scale(Neg(GetSecondCorner(d)), SolidFactor)
  {
    OppositeCorners(d);
  }

  /** From the first solid corner the bridge lands on the neighbour's second solid corner. */
  lemma BridgeLandsFirst(d: HexDirection)
    ensures Add(GetFirstSolidCorner(d), Scale(Add(GetFirstCorner(d), GetSecondCorner(d)), BlendFactor))
         == Add(Add(GetFirstCorner(d), GetSecondCorner(d)), GetSecondSolidCorner(Opposite(d)))
  {
    OppositeSolidCorners(d);
    BridgeAlgebra(GetFirstCorner(d), GetSecondCorner(d), SolidFactor, BlendFactor);
  }

  /** From the second solid corner the bridge lands on the neighbour's first solid corner. */
  lemma BridgeLandsSecond(d: HexDirection)
    ensures Add(GetSecondSolidCorner(d), Scale(Add(GetFirstCorner(d), GetSecondCorner(d)), BlendFactor))
         == Add(Add(GetFirstCorner(d), GetSecondCorner(d)), GetFirstSolidCorner(Opposite(d)))
  {
    SecondSolidCorner(d);
    OppositeSolidCorners(d);
    BridgeAlgebra(GetFirstCorner(d), GetSecondCorner(d), SolidFactor, BlendFactor);
  }

  /** The second solid corner is the second corner scaled by the solid factor. */
  lemma SecondSolidCorner(d: HexDirection)
    ensures GetSecondSolidCorner(d) == Scale(GetSecondCorner(d), SolidFactor)
  {
  }

  /** The first corners of opposite edges are mirror images through the centre. */
  lemma OppositeFirstCorners(d: HexDirection)
    ensures GetFirstCorner(Opposite(d)) == Neg(GetFirstCorner(d))
  {
    CornerTableShape();
    var i := Ordinal(d);
    if i < 3 {
      assert GetFirstCorner(Opposite(d)) == Corners[i + 3];
    } else {
      assert GetFirstCorner(Opposite(d)) == Corners[i - 3];
      NegNeg(Corners[i - 3]);
    }
  }

  /** Both corners of opposite edges are mirror images through the centre. */
  lemma OppositeCorners(d: HexDirection)
    ensures GetFirstCorner(Opposite(d)) == Neg(GetFirstCorner(d))
    ensures GetSecondCorner(Opposite(d)) == Neg(GetSecondCorner(d))
  {
    OppositeFirstCorners(d);
    OppositeFirstCorners(Next(d));
    OppositeCommutesWithNext(d);
  }

  /** The bridge toward `d` and the bridge back from the neighbour cancel, so
      the two cells' bridges meet. */
  lemma BridgeOpposite(d: HexDirection)
    ensures GetBridge(Opposite(d)) == Neg(GetBridge(d))
  {
    OppositeCorners(d);
    var f, s := GetFirstCorner(d), GetSecondCorner(d);
    assert GetBridge(Opposite(d)) == Scale(Add(Neg(f), Neg(s)), BlendFactor);
    ScaleAddNeg(f, s, BlendFactor);
  }
}
