# HexMap core in Dafny

A Dafny model of the discrete core of a hexagon-grid terrain generator. The
grid is a row-major array of hexagonal cells. Each cell has an integer
elevation, a colour, cube coordinates and a six-slot neighbour table. The model
covers these parts of the core:

- **Direction algebra.** `HexDirection` (NE, E, SE, SW, W, NW) with
  `Opposite`, `Next` and `Previous`. Each is computed as the source does, on
  the enum's underlying integer.
- **Edge classification.** Two elevations meet as Flat, Slope or Cliff.
- **Terrace stepping.** A slope is interpolated in `TerraceSteps` = 5 steps.
  Horizontal position advances at every step. Height advances only through
  the integer index `(step + 1) / 2`, which gives flat treads and risers.
- **Corner table.** Seven entries, the first repeated at the end. Also the
  solid corners and the bridge offsets derived from it.
- **Neighbour links.** Cells refer to each other by array index (`CellId`).
  A `None` slot is a null reference. `SetNeighbor` writes two slots: one in
  each cell.
- **Grid construction.** A nested loop fills the `width * height` array, one
  slot per column and row.
- **The paint edit.** `ColorCell` recomputes an array index from cube
  coordinates and recolours that one cell.

C# semantics are written out explicitly:

- `int` is `Int32Arith.Int32`.
- Unchecked wrap-around is `Int32Arith.Wrap` / `Int32Arith.WrapSum`.
- C#'s truncating `/` is `Int32Arith.TruncDiv`.
- A thrown exception is an `Err` result.
- Geometry uses exact reals (`Geometry.Vec3`, `Geometry.Color`) instead of
  single-precision floats.

Modules follow the source files:

| Dafny file | module |
|---|---|
| `hex_directions.dfy` | `HexDirections` (the enum in `HexMetrics.cs`, the extensions in `HexCell.cs`) |
| `hex_metrics.dfy` | `HexMetrics` |
| `hex_cell.dfy` | `HexCells` |
| `hex_grid.dfy` | `HexGrid` |
| `hex_coordinates.dfy` | `Coordinates` (the offset conversion the grid relies on) |

`int32.dfy`, `geometry.dfy` and `wrappers.dfy` hold the shared value types.

## Model

| member | source | states |
|---|---|---|
| HexDirections.OrdinalInjective | Assets/Scripts/HexMetrics.cs:3-5 | two directions are equal exactly when their underlying integers are |
| HexDirections.Opposite | Assets/Scripts/HexCell.cs:4-6 | the opposite direction's integer is (d + 3) mod 6, and it is never d itself |
| HexDirections.Previous | Assets/Scripts/HexCell.cs:7-9 | the previous direction's integer is (d + 5) mod 6, so NE wraps round to NW |
| HexDirections.Next | Assets/Scripts/HexCell.cs:11-13 | the next direction's integer is (d + 1) mod 6, so NW wraps round to NE |
| HexDirections.OppositeInvolution | Assets/Scripts/HexCell.cs:4-6 | Opposite is an involution: applying it twice gives back the direction |
| HexDirections.NextPreviousInverse | Assets/Scripts/HexCell.cs:7-13 | Next(Previous(d)) == d and Previous(Next(d)) == d |
| HexDirections.NextPreviousMove | Assets/Scripts/HexCell.cs:7-13 | neither Next nor Previous returns its argument |
| HexDirections.NextIterateIsRotate | Assets/Scripts/HexCell.cs:11-13 | applying Next k times is rotation by k sixths, as an independent reference definition gives it |
| HexDirections.NextSixTimesIsIdentity | Assets/Scripts/HexCell.cs:11-13 | six applications of Next return to the start |
| HexDirections.OppositeIsThreeSteps | Assets/Scripts/HexCell.cs:4-13 | Opposite(d) is three Next steps and also three Previous steps |
| HexDirections.PreviousIsFiveSteps | Assets/Scripts/HexCell.cs:7-13 | Previous is five Next steps |
| HexDirections.OppositeCommutesWithNext | Assets/Scripts/HexCell.cs:4-13 | Opposite commutes with both Next and Previous |
| HexMetrics.GetEdgeType | Assets/Scripts/HexMetrics.cs:68-77 | Flat exactly when the elevations are equal; Slope exactly when they differ by 1; Cliff exactly when they differ by 2 or more |
| HexMetrics.EdgeTypeSymmetric | Assets/Scripts/HexMetrics.cs:68-77 | swapping the two elevations gives the same edge type |
| HexMetrics.EdgeTypeShiftInvariant | Assets/Scripts/HexMetrics.cs:68-77 | the edge type depends only on the difference of the elevations |
| HexMetrics.GetEdgeTypeAsWritten | Assets/Scripts/HexMetrics.cs:68-77 | the source's classification with the difference wrapped to 32 bits is Flat exactly when the elevations are equal |
| HexMetrics.AsWrittenAgreesWithoutOverflow | Assets/Scripts/HexMetrics.cs:72-76 | when the 32-bit difference does not overflow, the source's classification is the intended one |
| HexMetrics.AsWrittenExtremesAreSlope | Assets/Scripts/HexMetrics.cs:72-75 | elevations int.MinValue and int.MaxValue are classified Slope in either order, although they are a Cliff apart |
| HexMetrics.AsWrittenDiffersOnlyAtExtremes | Assets/Scripts/HexMetrics.cs:72-76 | the source's and the intended classification differ exactly on the pair {int.MinValue, int.MaxValue} |
| HexMetrics.TerraceConstants | Assets/Scripts/HexMetrics.cs:55-61 | five terrace steps; the horizontal step is 1/5 and the vertical step is 1/(terracesPerSlope + 1) |
| HexMetrics.VerticalIndex | Assets/Scripts/HexMetrics.cs:82 | for a non-negative step below int.MaxValue the index is (step + 1) / 2 rounded down |
| HexMetrics.VerticalIndexEndpoints | Assets/Scripts/HexMetrics.cs:78-83 | the index is 0 at step 0 and terracesPerSlope + 1 at step terraceSteps |
| HexMetrics.VerticalIndexStep | Assets/Scripts/HexMetrics.cs:82 | from an even step to the next the index rises by one; from an odd step it stays the same |
| HexMetrics.VerticalIndexMonotone | Assets/Scripts/HexMetrics.cs:82 | the index never decreases along non-negative steps |
| HexMetrics.TerraceLerp | Assets/Scripts/HexMetrics.cs:78-85 | step 0 gives the start point and step terraceSteps gives the end point exactly |
| HexMetrics.TerraceLerpXMonotone | Assets/Scripts/HexMetrics.cs:78-81 | as the step grows, x moves monotonically toward the end point: it never decreases when b.x >= a.x and never increases when b.x <= a.x |
| HexMetrics.TerraceLerpZMonotone | Assets/Scripts/HexMetrics.cs:78-81 | as the step grows, z moves monotonically toward the end point: it never decreases when b.z >= a.z and never increases when b.z <= a.z |
| HexMetrics.TerraceLerpTread | Assets/Scripts/HexMetrics.cs:82-83 | an odd step and the step after it have the same height (a tread) |
| HexMetrics.TerraceLerpRiser | Assets/Scripts/HexMetrics.cs:82-83 | from an even step to the next the height climbs by one equal share of the total rise (a riser) |
| HexMetrics.TerraceColorLerp | Assets/Scripts/HexMetrics.cs:86-89 | the colour is the start colour at or below step 0 and the end colour at or beyond terraceSteps |
| Geometry.ColorLerp | Assets/Scripts/HexMetrics.cs:88 | the interpolation parameter is clamped, so it gives the first colour at or below 0 and the second at or above 1 |
| HexMetrics.CornerTableShape | Assets/Scripts/HexMetrics.cs:32-41 | the table has seven entries, entry 6 equals entry 0, and entry i + 3 is the negation of entry i |
| HexMetrics.GetFirstCorner | Assets/Scripts/HexMetrics.cs:90-93 | every corner lies in the horizontal plane, at distance outerRadius from the centre up to the rounding of sqrt(3)/2 in innerRadius (squared distance within 10^-6 of outerRadius^2) |
| HexMetrics.GetSecondCorner | Assets/Scripts/HexMetrics.cs:94-97 | the second corner of d is the first corner of Next(d) |
| HexMetrics.GetFirstSolidCorner | Assets/Scripts/HexMetrics.cs:98-101 | the solid corners of opposite edges are mirror images through the centre; the solid corner plus the blend share (blendFactor) of the outer corner makes up the outer corner |
| HexMetrics.GetSecondSolidCorner | Assets/Scripts/HexMetrics.cs:102-105 | the second solid corner of d is the first solid corner of Next(d) |
| HexMetrics.GetBridge | Assets/Scripts/HexMetrics.cs:98-108 | the neighbour toward d is centred at first corner + second corner; from the first solid corner the bridge lands on the neighbour's second solid corner toward Opposite(d), and from the second solid corner on its first |
| HexMetrics.BridgeLandsFirst | Assets/Scripts/HexMetrics.cs:98-108 | first solid corner + bridge = neighbour centre + the neighbour's second solid corner toward Opposite(d) |
| HexMetrics.BridgeLandsSecond | Assets/Scripts/HexMetrics.cs:102-108 | second solid corner + bridge = neighbour centre + the neighbour's first solid corner toward Opposite(d) |
| HexMetrics.OppositeFirstCorners | Assets/Scripts/HexMetrics.cs:90-93 | the first corners of opposite directions are mirror images through the centre |
| HexMetrics.OppositeCorners | Assets/Scripts/HexMetrics.cs:90-97 | both corners of opposite edges are mirror images through the centre |
| HexMetrics.BridgeOpposite | Assets/Scripts/HexMetrics.cs:106-108 | the bridge toward Opposite(d) is the negation of the bridge toward d, so the bridges of two neighbours meet |
| Coordinates.FromOffsetCoordinates | Assets/Scripts/HexGrid.cs:47 | the row is kept as Z, and whenever X does not wrap the offset column is recovered as X + Z / 2 (the zero sum of the three cube axes holds by the definition of Y) |
| Coordinates.OffsetRoundTrip | Assets/Scripts/HexGrid.cs:58 | for non-negative column and row, X + Z / 2 of the converted coordinates gives back the column, and Z gives back the row |
| Coordinates.CubeRoundTrip | Assets/Scripts/HexGrid.cs:58 | converting a coordinate's own column and row back gives that coordinate |
| Coordinates.FromOffsetInjective | Assets/Scripts/HexGrid.cs:47 | different non-negative offsets give different coordinates |
| HexCells.NeighborsEqual | Assets/Scripts/HexCell.cs:42-44 | the six reads GetNeighbor(d) determine the neighbour table: two cells are equal exactly when their data agree and GetNeighbor agrees in every direction |
| HexCells.SetNeighbor | Assets/Scripts/HexCell.cs:45-48 | afterwards a's slot d holds c and c's slot Opposite(d) holds a; every other slot, every cell's elevation, coordinates and colour, and every other cell are unchanged |
| HexCells.SetNeighborPreservesSymmetry | Assets/Scripts/HexCell.cs:45-48 | linking two cells whose facing slots are both empty keeps every link matched by its back-link |
| HexCells.SetNeighborOverwriteBreaksSymmetry | Assets/Scripts/HexCell.cs:45-48 | overwriting a slot that held another neighbour leaves that neighbour's back-link stale, so the links are no longer symmetric |
| HexCells.SetNeighborIdempotent | Assets/Scripts/HexCell.cs:45-48 | linking the same pair twice equals linking it once |
| HexCells.GetEdgeTypeWithCell | Assets/Scripts/HexCell.cs:55-59 | Flat, Slope or Cliff exactly as the two cells' elevations are equal, one apart, or further apart |
| HexCells.GetEdgeTypeInDirection | Assets/Scripts/HexCell.cs:50-54 | an error exactly when slot d is unset; otherwise the edge type with the neighbour in that slot |
| HexCells.EdgeTypeWithCellAgainstSource | Assets/Scripts/HexCell.cs:55-59 | the cell-level classification agrees with the source's wrapping subtraction exactly when the elevations are not the pair int.MinValue, int.MaxValue |
| HexCells.EdgeTypeAcrossLink | Assets/Scripts/HexCell.cs:50-54 | across a symmetric link, both cells see the same edge type |
| HexCells.SetElevation | Assets/Scripts/HexCell.cs:18-34 | the getter returns the value last set; coordinates, colour and neighbours are unchanged |
| HexCells.SetElevationLastWins | Assets/Scripts/HexCell.cs:18-23 | of two assignments only the last counts, and setting the current value changes nothing |
| HexCells.SetCellElevation | Assets/Scripts/HexCell.cs:22-23 | only cell i changes; no neighbour link changes, so well-formedness and symmetry are kept |
| HexGrid.Slot | Assets/Scripts/HexGrid.cs:27-31 | the slot of column x in row z lies inside the width * height array |
| HexGrid.SlotDecompose | Assets/Scripts/HexGrid.cs:27-31 | every array slot is the slot of the column k % width in row k / width, both in range |
| HexGrid.SlotInjective | Assets/Scripts/HexGrid.cs:27-31 | different columns or rows get different slots |
| HexGrid.FilledBelowStep | Assets/Scripts/HexGrid.cs:28-30 | one inner iteration extends the filled prefix of the array by exactly the next slot |
| HexGrid.Awake | Assets/Scripts/HexGrid.cs:22-32 | the array has width * height cells; the slot of column x in row z holds the cell created for (x, z), with those offset coordinates, the default colour and no neighbours; the calls CreateCell(x, z, i) use i = z * width + x; and there are exactly width * height calls, the k-th with i = k |
| HexGrid.CreateCell | Assets/Scripts/HexGrid.cs:38-54 | the created cell has the default colour, elevation 0 and six empty neighbour slots; its Z is the row, and for a non-negative column and row its offset column X + Z / 2 is the column |
| HexGrid.UnlinkedGridHasNoEdges | Assets/Scripts/HexGrid.cs:38-54 | a freshly built grid is trivially symmetric, and every direction-based edge-type query on it fails on a null neighbour |
| HexGrid.CellAtSlot | Assets/Scripts/HexGrid.cs:44-48 | in a built grid, slot k holds the cell created for column k % width in row k / width |
| HexGrid.ColorIndex | Assets/Scripts/HexGrid.cs:58 | computing X + Z * width + Z / 2 with a 32-bit wrap after each operation equals a single wrap of the mathematical sum |
| HexGrid.ColorCell | Assets/Scripts/HexGrid.cs:55-60 | an error exactly when the computed index is outside the array; otherwise only that cell's colour changes |
| HexGrid.ColorIndexInGrid | Assets/Scripts/HexGrid.cs:58 | for a row and offset column inside the grid, no 32-bit operation wraps and the index is the construction slot of that column and row |
| HexGrid.ColorIndexFindsCreatedCell | Assets/Scripts/HexGrid.cs:58 | the index computed from the coordinates the construction gave to (x, z) is the slot it stored that cell in |
| HexGrid.CoordinatesLocateSlot | Assets/Scripts/HexGrid.cs:58-59 | in a built grid, slot k holds coordinates c exactly when c is inside the grid and k is the slot the lookup computes |
| HexGrid.ColorCellOnBuiltGrid | Assets/Scripts/HexGrid.cs:55-60 | on a built grid, painting the coordinates of (x, z) succeeds and recolours that cell |
| HexGrid.ColumnOverflowPaintsNextRow | Assets/Scripts/HexGrid.cs:58-59 | coordinates one column past the end of row 0 address the first cell of row 1, and the edit recolours that cell although its coordinates differ |
| HexGrid.ColorCellChecked | Assets/Scripts/HexGrid.cs:55-60 | an error exactly when the row or offset column lies outside the grid; otherwise the index is the construction slot of that column and row |
| HexGrid.ColorCellCheckedPaintsExactlyThatCell | Assets/Scripts/HexGrid.cs:55-60 | on a built grid, the checked edit fails exactly when no cell has the coordinates; otherwise it recolours exactly the cells with those coordinates and leaves every other cell unchanged |
| Int32Arith.Wrap | Assets/Scripts/HexGrid.cs:58 | the stored value lies in int range, is congruent to the mathematical result modulo 2^32, and equals it when it fits |
| Int32Arith.WrapUnique | Assets/Scripts/HexGrid.cs:58 | the stored value is the only int-range value congruent to the mathematical result modulo 2^32 |
| Int32Arith.WrapAddWrap | Assets/Scripts/HexGrid.cs:58 | wrapping an intermediate sum does not change the wrapped final sum |
| Int32Arith.WrapSum | Assets/Scripts/HexMetrics.cs:72 | a sum or difference of two ints is stored as itself or shifted by one full turn of 2^32 |
| Int32Arith.WrapSumIsWrap | Assets/Scripts/HexMetrics.cs:72 | both wrapping definitions agree where both apply |
| Int32Arith.TruncDiv | Assets/Scripts/HexGrid.cs:58 | C# division by a positive divisor: the remainder is less than the divisor in size and has the sign of the dividend |

## Left out

- Engine plumbing is not modelled: component lookup, `Instantiate`, transform parenting, the canvas and the coordinate labels (Assets/Scripts/HexGrid.cs:23-24, 44-53). The elevation setter's updates to the cell transform and the label transform are also left out (Assets/Scripts/HexCell.cs:24-30). None of these hold logic that can be stated.
- Floating point is not modelled. Corners, terrace interpolation and colours use exact reals. `innerRadius` is the exact decimal 10 × 0.866025404. The results are the ideal values, not the single-precision ones.
- World positions of cells (Assets/Scripts/HexGrid.cs:39-42) are left out, because they are float geometry.
- `EdgeVertices` (Assets/Scripts/HexMetrics.cs:10-29) is left out: it splits an edge into thirds in float geometry.
- `SampleNoise` and the noise texture (Assets/Scripts/HexMetrics.cs:43, 109-111) are left out: noise sampling is a foreign engine call. The perturbation constants are also left out (Assets/Scripts/HexMetrics.cs:63-67).
- The mesh triangulator is not part of this model. Its source is not available, so the calls to `Triangulate` (Assets/Scripts/HexGrid.cs:36, 61) are left out.
- HexCoordinates.cs is not part of this model. `Coordinates.FromOffsetCoordinates` assumes X = column − row / 2 with C#'s truncating division, and Z = row. Truncating and floor division differ only for negative rows, which the construction never passes. `FromPosition` and the label text are left out. `ColorCell` therefore receives cube coordinates, not a world position. `InverseTransformPoint` is left out for the same reason.
- The six-slot length of every neighbour array is an assumption (`HexCells.WellFormed`). The length comes from the cell template's serialized data, not from code (Assets/Scripts/HexCell.cs:36-37).
- Freshly created cells are assumed to have six empty neighbour slots and elevation 0 (`HexGrid.CreateCell`). Elevation 0 is the default of an unserialized field.
- HexCells.GetEdgeTypeWithCell: classifies with the corrected `HexMetrics.GetEdgeType` (see Findings), so for elevations int.MinValue and int.MaxValue it gives Cliff where the source's wrapping subtraction gives Slope. `HexCells.EdgeTypeWithCellAgainstSource` states that this pair is the only difference. It also takes a cell value, not a reference, so the null-argument case, where the source throws a null reference exception on reading `otherCell.elevation`, is not modelled.
- HexCells.GetEdgeTypeInDirection: its Ok value uses the same corrected classification, with the same single difference from the source.
- HexCells.SetNeighbor: takes a cell index, so the null-argument case is not modelled. In that case the source writes the first slot and then throws a null reference exception.
- HexGrid.Awake: requires non-negative extents whose product fits in an `int`. Otherwise the source throws on allocation, fails on an out-of-range store, or leaves null slots.
- `touchedColor` (Assets/Scripts/HexGrid.cs:21) is left out, because no shown code reads it.
- `Geometry.ColorLerp` models the engine's colour interpolation as clamp-then-interpolate. The engine's own source is not part of this model.

## Findings

| source | as written | input that shows it | evidently intended | confidence | as-written member | corrected member |
|---|---|---|---|---|---|---|
| Assets/Scripts/HexMetrics.cs:72-76 | `elevation2 - elevation1` is computed in unchecked 32-bit arithmetic | elevations int.MinValue and int.MaxValue: the difference 2^32 − 1 wraps to −1, so the edge is classified Slope | classification by the mathematical difference, which makes this edge a Cliff | low: not executed, and elevations this far apart do not occur in normal editing | HexMetrics.GetEdgeTypeAsWritten, HexMetrics.AsWrittenExtremesAreSlope | HexMetrics.GetEdgeType |
| Assets/Scripts/HexGrid.cs:58-59 | the array index is computed without checking the row or the offset column | width 6, height 6, coordinates X = 6, Z = 0: the index is 6, and the cell at column 0, row 1 is recoloured | coordinates outside the grid are refused | medium: not executed | HexGrid.ColorCell, HexGrid.ColumnOverflowPaintsNextRow | HexGrid.ColorCellChecked |
