/** The grid: construction of the row-major cell array and the paint-a-cell
    edit. Cells are built unlinked; the lookup recomputes an array index from
    cube coordinates. */
module HexGrid {
  import opened Wrappers
  import opened Int32Arith
  import opened Geometry
  import opened Coordinates
  import opened HexCells

  /** `a * w` grows with `a` when `w` is not negative. */
  lemma MulMonotoneInt(a: int, b: int, w: int)
    requires a <= b && 0 <= w
    ensures a * w <= b * w
  {
    assert b * w - a * w == (b - a) * w;
  }

  /** The array slot of the cell in column `x` of row `z`: rows of `width`
      cells are stored one after another. */
  function Slot(width: int, height: int, x: int, z: int): (k: nat)
    requires 0 <= x < width && 0 <= z < height
    ensures k < width * height
  {
    MulMonotoneInt(z, height - 1, width);
    z * width + x
  }

  /** Every slot of the array is the slot of exactly one column and row. */
  lemma SlotDecompose(width: int, height: int, k: int)
    requires 0 <= width && 0 <= k < width * height
    ensures 0 < width
    ensures 0 <= k % width < width && 0 <= k / width < height
    ensures Slot(width, height, k % width, k / width) == k
  {
    if k / width >= height {
      MulMonotoneInt(height, k / width, width);
      assert false;
    }
  }

  /** Different columns or rows have different slots. */
  lemma SlotInjective(width: int, height: int, x1: int, z1: int, x2: int, z2: int)
    requires 0 <= x1 < width && 0 <= z1 < height
    requires 0 <= x2 < width && 0 <= z2 < height
    requires Slot(width, height, x1, z1) == Slot(width, height, x2, z2)
    ensures x1 == x2 && z1 == z2
  {
    var k := Slot(width, height, x1, z1);
    assert (z1 * width + x1) / width == z1 && (z1 * width + x1) % width == x1 by {
      SlotDivMod(width, x1, z1);
    }
    SlotDivMod(width, x2, z2);
  }

  /** Dividing a slot by the row length gives back the row and the column. */
  lemma SlotDivMod(width: int, x: int, z: int)
    requires 0 <= x < width && 0 <= z
    ensures (z * width + x) / width == z && (z * width + x) % width == x
  {
    var k := z * width + x;
    var q, r := k / width, k % width;
    assert q * width + r == k && 0 <= r < width;
    if q > z {
      MulMonotoneInt(z + 1, q, width);
      assert false;
    } else if q < z {
      MulMonotoneInt(q + 1, z, width);
      assert false;
    }
  }

  /** The neighbour table of a freshly instantiated cell: six unset slots. */
  const EmptyNeighbors: seq<Option<CellId>> := [None, None, None, None, None, None]

  /** The cell `CreateCell(x, z, i)` stores: coordinates from the offset,
      the default colour, the template's zero elevation and no neighbours. */
  function CreateCell(x: Int32, z: Int32, defaultColor: Color): (r: HexCell)
    ensures r.elevation == 0 && r.color == defaultColor
    ensures |r.neighbors| == 6 && forall e :: GetNeighbor(r, e) == None
    ensures r.coordinates.Z == z
    ensures 0 <= x && 0 <= z ==> OffsetColumn(r.coordinates) == x
  {
    HexCell(0, FromOffsetCoordinates(x, z), defaultColor, EmptyNeighbors)
  }

  /** No cell has any neighbour set. */
  predicate Unlinked(cells: seq<HexCell>) {
    forall i :: 0 <= i < |cells| ==> cells[i].neighbors == EmptyNeighbors
  }

  /** The array holds, in the slot of each column and row, the cell created for them. */
  predicate LaidOut(cells: seq<HexCell>, width: int, height: int, defaultColor: Color) {
    && 0 <= width && 0 <= height && width * height <= MAX
    && |cells| == width * height
    && forall x: Int32, z: Int32 :: 0 <= x < width && 0 <= z < height ==>
         cells[Slot(width, height, x, z)] == CreateCell(x, z, defaultColor)
  }

  /** One call `CreateCell(x, z, i)` made by the construction loop. */
  datatype CreateCall = CreateCall(x: int, z: int, i: int)

  /** Every column and row whose slot lies below `i` has had its cell created
      and stored in that slot. */
  predicate FilledBelow(slots: seq<Option<HexCell>>, calls: seq<CreateCall>, width: int, height: int,
                        i: int, defaultColor: Color)
    requires |slots| == width * height && |calls| == i <= width * height
  {
    forall x: Int32, z: Int32 :: 0 <= x < width && 0 <= z < height && Slot(width, height, x, z) < i ==>
      && slots[Slot(width, height, x, z)] == Some(CreateCell(x, z, defaultColor))
      && calls[Slot(width, height, x, z)] == CreateCall(x, z, Slot(width, height, x, z))
  }

  /** One iteration of the inner loop extends `FilledBelow` by the next slot. */
  lemma FilledBelowStep(slots: seq<Option<HexCell>>, calls: seq<CreateCall>, width: Int32, height: Int32,
                        x: Int32, z: Int32, defaultColor: Color)
    requires 0 <= x < width && 0 <= z < height
    requires |slots| == width * height && |calls| == Slot(width, height, x, z)
    requires FilledBelow(slots, calls, width, height, Slot(width, height, x, z), defaultColor)
    ensures
      var i := Slot(width, height, x, z);
      FilledBelow(slots[i := Some(CreateCell(x, z, defaultColor))], calls + [CreateCall(x, z, i)],
                  width, height, i + 1, defaultColor)
  {
    var i := Slot(width, height, x, z);
    var slots', calls' := slots[i := Some(CreateCell(x, z, defaultColor))], calls + [CreateCall(x, z, i)];
    forall x': Int32, z': Int32 | 0 <= x' < width && 0 <= z' < height && Slot(width, height, x', z') < i + 1
      ensures slots'[Slot(width, height, x', z')] == Some(CreateCell(x', z', defaultColor))
      ensures calls'[Slot(width, height, x', z')] == CreateCall(x', z', Slot(width, height, x', z'))
    {
      if Slot(width, height, x', z') == i {
        SlotInjective(width, height, x', z', x, z);
      }
    }
  }

  /** The construction loop: rows outer, columns inner, a running counter `i`
      as the slot. Returns the cell array and the calls made, in order. */
  method Awake(width: Int32, height: Int32, defaultColor: Color) returns (cells: seq<HexCell>, calls: seq<CreateCall>)
    requires 0 <= width && 0 <= height && width * height <= MAX
    ensures LaidOut(cells, width, height, defaultColor)
    ensures WellFormed(cells) && Unlinked(cells)
    ensures |calls| == width * height
    ensures forall k :: 0 <= k < |calls| ==> calls[k].i == k
    ensures forall x: Int32, z: Int32 :: 0 <= x < width && 0 <= z < height ==>
      calls[Slot(width, height, x, z)] == CreateCall(x, z, Slot(width, height, x, z))
  {
    var slots: seq<Option<HexCell>> := seq(height * width, _ => None);
    calls := [];
    var z: Int32 := 0;
    var i: Int32 := 0;
    while z < height
      invariant 0 <= z <= height
      invariant i == z * width
      invariant |slots| == width * height && |calls| == i <= width * height
      invariant forall k :: 0 <= k < |slots| ==> (slots[k].Some? <==> k < i)
      invariant forall k :: 0 <= k < |slots| && slots[k].Some? ==> slots[k].value.neighbors == EmptyNeighbors
      invariant forall k :: 0 <= k < i ==> calls[k].i == k
      invariant FilledBelow(slots, calls, width, height, i, defaultColor)
    {
      MulMonotoneInt(z + 1, height, width);
      var x: Int32 := 0;
      while x < width
        invariant 0 <= x <= width
        invariant i == z * width + x <= width * height
        invariant |slots| == width * height && |calls| == i
        invariant forall k :: 0 <= k < |slots| ==> (slots[k].Some? <==> k < i)
        invariant forall k :: 0 <= k < |slots| && slots[k].Some? ==> slots[k].value.neighbors == EmptyNeighbors
        invariant forall k :: 0 <= k < i ==> calls[k].i == k
        invariant FilledBelow(slots, calls, width, height, i, defaultColor)
      {
        FilledBelowStep(slots, calls, width, height, x, z, defaultColor);
        // Each slot is written once: the counter only ever reaches empty slots.
        assert slots[i].None?;
        slots := slots[i := Some(CreateCell(x, z, defaultColor))];
        calls := calls + [CreateCall(x, z, i)];
        i := i + 1;
        x := x + 1;
      }
      z := z + 1;
    }
    cells := Filled(slots);
  }

  /** The cells of an array whose every slot has been filled. */
  function Filled(slots: seq<Option<HexCell>>): (cells: seq<HexCell>)
    requires forall k :: 0 <= k < |slots| ==> slots[k].Some?
    ensures |cells| == |slots|
    ensures forall k :: 0 <= k < |slots| ==> slots[k] == Some(cells[k])
  {
    seq(|slots|, k requires 0 <= k < |slots| => slots[k].value)
  }

  /** A grid just built has no links: every link is trivially matched, and
      asking any cell for the edge type toward a direction dereferences null. */
  lemma UnlinkedGridHasNoEdges(cells: seq<HexCell>)
    requires WellFormed(cells) && Unlinked(cells)
    ensures Symmetric(cells)
    ensures forall a: CellId, d :: a < |cells| ==> GetEdgeTypeInDirection(cells, a, d) == Err(NullNeighbor)
  {
    forall a: CellId, d | a < |cells| ensures GetNeighbor(cells[a], d) == None {
      assert cells[a].neighbors == EmptyNeighbors;
    }
  }

  // ---------------------------------------------------------------------------
  // Painting a cell

  /** The ways a grid edit can fail. */
  datatype GridError = IndexOutOfRange | OutsideGrid

  /** The array index the edit computes from cube coordinates,
      `X + Z * width + Z / 2`, in unchecked 32-bit arithmetic with C# division. */
  function ColorIndex(width: Int32, c: HexCoordinates): (r: Int32)
    ensures r == Wrap(c.X + c.Z * width + TruncDiv(c.Z, 2))
  {
    ColorIndexWrapsOnce(width, c);
    WrapSum(WrapSum(c.X + Wrap(c.Z * width)) + TruncDiv(c.Z, 2))
  }

  /** Wrapping after each of the three operations gives the wrap of the
      mathematical sum. */
  lemma ColorIndexWrapsOnce(width: Int32, c: HexCoordinates)
    ensures WrapSum(WrapSum(c.X + Wrap(c.Z * width)) + TruncDiv(c.Z, 2))
         == Wrap(c.X + c.Z * width + TruncDiv(c.Z, 2))
  {
    var inner := WrapSum(c.X + Wrap(c.Z * width));
    WrapSumIsWrap(c.X + Wrap(c.Z * width));
    WrapAddWrap(c.Z * width, c.X);
    assert inner == Wrap(c.X + c.Z * width);
    WrapSumIsWrap(inner + TruncDiv(c.Z, 2));
    WrapAddWrap(c.X + c.Z * width, TruncDiv(c.Z, 2));
  }

  /** `after` is `before` with the colour of cell `k` set to `color`: that
      cell keeps its elevation, coordinates and neighbours, and every other
      cell is unchanged. */
  predicate RecoloursOnly(before: seq<HexCell>, after: seq<HexCell>, k: int, color: Color) {
    && |after| == |before| && 0 <= k < |before|
    && after[k].color == color
    && after[k].elevation == before[k].elevation
    && after[k].coordinates == before[k].coordinates
    && after[k].neighbors == before[k].neighbors
    && forall j :: 0 <= j < |before| && j != k ==> after[j] == before[j]
  }

  /** Recolours the cell at the computed index; an index outside the array is
      the out-of-range error the array access throws, and nothing is changed. */
  function ColorCell(cells: seq<HexCell>, width: Int32, c: HexCoordinates, color: Color): (r: Result<seq<HexCell>, GridError>)
    ensures r.Err? <==> !(0 <= ColorIndex(width, c) < |cells|)
    ensures r.Ok? ==> RecoloursOnly(cells, r.value, ColorIndex(width, c), color)
  {
    var index := ColorIndex(width, c);
    if 0 <= index < |cells| then
      Ok(cells[index := cells[index].(color := color)])
    else
      Err(IndexOutOfRange)
  }

  /** Inside the grid's rows and columns the computed index is the slot the
      construction used for the coordinate's offset column and row; no 32-bit
      operation wraps on the way. */
  lemma ColorIndexInGrid(width: Int32, height: Int32, c: HexCoordinates)
    requires 0 <= width && 0 <= height && width * height <= MAX
    requires 0 <= c.Z < height && 0 <= OffsetColumn(c) < width
    ensures ColorIndex(width, c) == Slot(width, height, OffsetColumn(c), c.Z)
  {
    MulMonotoneInt(c.Z, height - 1, width);
    assert Wrap(c.Z * width) == c.Z * width;
  }

  /** Looking up the coordinates that the construction gave to column `x`,
      row `z` finds the slot the construction stored that cell in. */
  lemma ColorIndexFindsCreatedCell(width: Int32, height: Int32, x: Int32, z: Int32)
    requires 0 <= width && 0 <= height && width * height <= MAX
    requires 0 <= x < width && 0 <= z < height
    ensures ColorIndex(width, FromOffsetCoordinates(x, z)) == Slot(width, height, x, z)
  {
    OffsetRoundTrip(x, z);
    ColorIndexInGrid(width, height, FromOffsetCoordinates(x, z));
  }

  /** In a constructed grid the cell in slot `k` is the one created for the
      column and row of that slot. */
  lemma CellAtSlot(cells: seq<HexCell>, width: int, height: int, defaultColor: Color, k: int)
    requires LaidOut(cells, width, height, defaultColor) && 0 <= k < |cells|
    ensures 0 <= k % width < width && 0 <= k / width < height
    ensures cells[k] == CreateCell(k % width, k / width, defaultColor)
  {
    SlotDecompose(width, height, k);
  }

  /** In a constructed grid, the only slot holding coordinates `c` is the one
      the lookup computes, and it exists exactly when `c` lies in the grid. */
  lemma CoordinatesLocateSlot(cells: seq<HexCell>, width: Int32, height: Int32, defaultColor: Color,
                              c: HexCoordinates, k: int)
    requires LaidOut(cells, width, height, defaultColor) && 0 <= k < |cells|
    ensures cells[k].coordinates == c <==>
      && 0 <= c.Z < height && 0 <= OffsetColumn(c) < width
      && k == Slot(width, height, OffsetColumn(c), c.Z)
  {
    CellAtSlot(cells, width, height, defaultColor, k);
    var x, z := k % width, k / width;
    SlotDecompose(width, height, k);
    OffsetRoundTrip(x, z);
    if 0 <= c.Z < height && 0 <= OffsetColumn(c) < width && k == Slot(width, height, OffsetColumn(c), c.Z) {
      SlotInjective(width, height, x, z, OffsetColumn(c), c.Z);
      CubeRoundTrip(c);
    }
  }

  /** On a constructed grid, painting the coordinates of column `x`, row `z`
      succeeds and recolours the cell that carries those coordinates. */
  lemma ColorCellOnBuiltGrid(cells: seq<HexCell>, width: Int32, height: Int32, defaultColor: Color,
                             x: Int32, z: Int32, color: Color)
    requires LaidOut(cells, width, height, defaultColor)
    requires 0 <= x < width && 0 <= z < height
    ensures ColorCell(cells, width, FromOffsetCoordinates(x, z), color).Ok?
    ensures ColorIndex(width, FromOffsetCoordinates(x, z)) == Slot(width, height, x, z)
    ensures ColorCell(cells, width, FromOffsetCoordinates(x, z), color).value[Slot(width, height, x, z)]
         == CreateCell(x, z, color)
  {
    ColorIndexFindsCreatedCell(width, height, x, z);
  }

  /** The edit does not check the column: coordinates one column past the end
      of row 0 give an index inside the array, the slot of the first cell of
      row 1, and the edit recolours that cell although its coordinates differ. */
  lemma ColumnOverflowPaintsNextRow(cells: seq<HexCell>, width: Int32, height: Int32, defaultColor: Color, color: Color)
    requires LaidOut(cells, width, height, defaultColor)
    requires 1 <= width && 2 <= height
    ensures ColorIndex(width, HexCoordinates(width, 0)) == Slot(width, height, 0, 1)
    ensures ColorCell(cells, width, HexCoordinates(width, 0), color).Ok?
    ensures cells[Slot(width, height, 0, 1)].coordinates != HexCoordinates(width, 0)
  {
    var c := HexCoordinates(width, 0);
    assert Wrap(c.Z * width) == 0;
    assert ColorIndex(width, c) == width;
    assert Slot(width, height, 0, 1) == width;
    assert cells[width] == CreateCell(0, 1, defaultColor);
    assert FromOffsetCoordinates(0, 1).Z == 1;
  }

  /** The edit with the bounds check it needs: coordinates outside the grid's
      rows and columns are refused instead of being turned into an index. */
  function ColorCellChecked(cells: seq<HexCell>, width: Int32, height: Int32, c: HexCoordinates, color: Color)
    : (r: Result<seq<HexCell>, GridError>)
    requires 0 <= width && 0 <= height && width * height <= MAX && |cells| == width * height
    ensures r.Err? <==> !(0 <= c.Z < height && 0 <= OffsetColumn(c) < width)
    ensures r.Ok? ==> ColorIndex(width, c) == Slot(width, height, OffsetColumn(c), c.Z)
  {
    if 0 <= c.Z < height && 0 <= OffsetColumn(c) < width then
      ColorIndexInGrid(width, height, c);
      ColorCell(cells, width, c, color)
    else
      Err(OutsideGrid)
  }

  /** On a constructed grid the checked edit recolours exactly the cells that
      carry the requested coordinates: one cell, or none and an error. */
  lemma ColorCellCheckedPaintsExactlyThatCell(cells: seq<HexCell>, width: Int32, height: Int32, defaultColor: Color,
                                              c: HexCoordinates, color: Color)
    requires LaidOut(cells, width, height, defaultColor)
    ensures ColorCellChecked(cells, width, height, c, color).Err?
        <==> forall k :: 0 <= k < |cells| ==> cells[k].coordinates != c
    ensures ColorCellChecked(cells, width, height, c, color).Ok? ==>
      var painted := ColorCellChecked(cells, width, height, c, color).value;
      && |painted| == |cells|
      && forall k :: 0 <= k < |cells| ==>
           painted[k] == (if cells[k].coordinates == c then cells[k].(color := color) else cells[k])
  {
    var r := ColorCellChecked(cells, width, height, c, color);
    forall k | 0 <= k < |cells|
      ensures cells[k].coordinates == c <==>
        0 <= c.Z < height && 0 <= OffsetColumn(c) < width && k == Slot(width, height, OffsetColumn(c), c.Z)
    {
      CoordinatesLocateSlot(cells, width, height, defaultColor, c, k);
    }
    if r.Ok? {
      var idx := Slot(width, height, OffsetColumn(c), c.Z);
      assert cells[idx].coordinates == c;
    }
  }
}
