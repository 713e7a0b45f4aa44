/** A grid cell: its elevation, colour, coordinates and neighbour table.
    Cells refer to each other by their index in the grid's cell array
    (`CellId`), and a neighbour slot holding `None` is a null reference. */
module HexCells {
  import opened Wrappers
  import opened Int32Arith
  import opened Geometry
  import opened HexDirections
  import opened HexMetrics
  import opened Coordinates

  /** The index of a cell in the grid's cell array. */
  type CellId = nat

  datatype HexCell = HexCell(
    elevation: Int32,
    coordinates: HexCoordinates,
    color: Color,
    neighbors: seq<Option<CellId>>)

  /** The ways an operation on cells can fail. */
  datatype CellError = NullNeighbor

  /** Every neighbour table has one slot per direction (the length comes from
      the cell's serialized template, not from code), and every neighbour
      reference names a cell of the array. */
  predicate WellFormed(cells: seq<HexCell>) {
    forall i :: 0 <= i < |cells| ==>
      && |cells[i].neighbors| == 6
      && forall k :: 0 <= k < 6 && cells[i].neighbors[k].Some? ==> cells[i].neighbors[k].value < |cells|
  }

  /** The neighbour in direction `d`, or `None` where the slot is unset. */
  function GetNeighbor(cell: HexCell, d: HexDirection): Option<CellId>
    requires |cell.neighbors| == 6
  {
    cell.neighbors[Ordinal(d)]
  }

  /** Every link is matched by the link back: if `a`'s neighbour toward `d` is
      `b`, then `b`'s neighbour toward the opposite direction is `a`. */
  predicate Symmetric(cells: seq<HexCell>)
    requires WellFormed(cells)
  {
    forall i, d :: 0 <= i < |cells| && GetNeighbor(cells[i], d).Some? ==>
      var j := GetNeighbor(cells[i], d).value;
      j < |cells| && GetNeighbor(cells[j], Opposite(d)) == Some(i)
  }

  /** The cell with slot `d` set to `v`. */
  function WithNeighbor(cell: HexCell, d: HexDirection, v: Option<CellId>): (r: HexCell)
    requires |cell.neighbors| == 6
    ensures |r.neighbors| == 6
    ensures GetNeighbor(r, d) == v
    ensures forall e :: e != d ==> GetNeighbor(r, e) == GetNeighbor(cell, e)
    ensures r.elevation == cell.elevation && r.coordinates == cell.coordinates && r.color == cell.color
  {
    forall e | e != d ensures Ordinal(e) != Ordinal(d) {
      OrdinalInjective(e, d);
    }
    cell.(neighbors := cell.neighbors[Ordinal(d) := v])
  }

  /** Links cell `a` to cell `c` across direction `d`: `a`'s slot `d` is set to
      `c`, then `c`'s opposite slot is set to `a`. Nothing else changes. */
  function SetNeighbor(cells: seq<HexCell>, a: CellId, d: HexDirection, c: CellId): (r: seq<HexCell>)
    requires WellFormed(cells) && a < |cells| && c < |cells|
    ensures |r| == |cells| && WellFormed(r)
    ensures GetNeighbor(r[a], d) == Some(c)
    ensures GetNeighbor(r[c], Opposite(d)) == Some(a)
    ensures forall i, e :: 0 <= i < |r| && !(i == a && e == d) && !(i == c && e == Opposite(d)) ==>
      GetNeighbor(r[i], e) == GetNeighbor(cells[i], e)
    ensures forall i :: 0 <= i < |r| ==>
      r[i].elevation == cells[i].elevation && r[i].coordinates == cells[i].coordinates && r[i].color == cells[i].color
    ensures forall i :: 0 <= i < |r| && i != a && i != c ==> r[i] == cells[i]
  {
    var linked := cells[a := WithNeighbor(cells[a], d, Some(c))];
    linked[c := WithNeighbor(linked[c], Opposite(d), Some(a))]
  }

  /** Linking two cells whose facing slots are both unset keeps every link matched. */
  lemma SetNeighborPreservesSymmetry(cells: seq<HexCell>, a: CellId, d: HexDirection, c: CellId)
    requires WellFormed(cells) && a < |cells| && c < |cells|
    requires Symmetric(cells)
    requires GetNeighbor(cells[a], d) == None
    requires GetNeighbor(cells[c], Opposite(d)) == None
    ensures Symmetric(SetNeighbor(cells, a, d, c))
  {
    var r := SetNeighbor(cells, a, d, c);
    forall i, e | 0 <= i < |r| && GetNeighbor(r[i], e).Some?
      ensures GetNeighbor(r[GetNeighbor(r[i], e).value], Opposite(e)) == Some(i)
    {
      OppositeInvolution(e);
      var j := GetNeighbor(r[i], e).value;
      if i == a && e == d {
      } else if i == c && e == Opposite(d) {
      } else {
        assert GetNeighbor(cells[i], e) == Some(j);
        assert GetNeighbor(cells[j], Opposite(e)) == Some(i);
      }
    }
  }

  /** Re-linking a slot that already holds another neighbour leaves that old
      neighbour pointing back at a cell that no longer points to it. */
  lemma SetNeighborOverwriteBreaksSymmetry(cells: seq<HexCell>, a: CellId, d: HexDirection, b: CellId, c: CellId)
    requires WellFormed(cells) && a < |cells| && c < |cells|
    requires Symmetric(cells)
    requires GetNeighbor(cells[a], d) == Some(b) && b != c
    ensures !Symmetric(SetNeighbor(cells, a, d, c))
  {
    var r := SetNeighbor(cells, a, d, c);
    OppositeInvolution(d);
    assert GetNeighbor(r[b], Opposite(d)) == Some(a);
    assert GetNeighbor(r[a], Opposite(Opposite(d))) != Some(b);
  }

  /** Linking the same pair twice is the same as linking it once. */
  lemma SetNeighborIdempotent(cells: seq<HexCell>, a: CellId, d: HexDirection, c: CellId)
    requires WellFormed(cells) && a < |cells| && c < |cells|
    ensures SetNeighbor(SetNeighbor(cells, a, d, c), a, d, c) == SetNeighbor(cells, a, d, c)
  {
    var once := SetNeighbor(cells, a, d, c);
    var twice := SetNeighbor(once, a, d, c);
    forall i | 0 <= i < |once| ensures twice[i] == once[i] {
      if i == a || i == c {
        forall e ensures GetNeighbor(twice[i], e) == GetNeighbor(once[i], e) {
        }
        NeighborsEqual(twice[i], once[i]);
      }
    }
  }

  /** The six directional reads determine the neighbour table: two cells are
      equal exactly when they hold the same data and the same neighbour in
      every direction. */
  lemma NeighborsEqual(x: HexCell, y: HexCell)
    requires |x.neighbors| == 6 && |y.neighbors| == 6
    ensures x == y <==>
      && x.elevation == y.elevation && x.coordinates == y.coordinates && x.color == y.color
      && forall e :: GetNeighbor(x, e) == GetNeighbor(y, e)
  {
    if && x.elevation == y.elevation && x.coordinates == y.coordinates && x.color == y.color
       && forall e :: GetNeighbor(x, e) == GetNeighbor(y, e)
    {
      forall k | 0 <= k < 6 ensures x.neighbors[k] == y.neighbors[k] {
        assert GetNeighbor(x, FromOrdinal(k)) == GetNeighbor(y, FromOrdinal(k));
      }
    }
  }

  // ---------------------------------------------------------------------------
  // Edge types

  /** The edge type between this cell and any other cell, from their elevations. */
  function GetEdgeTypeWithCell(cell: HexCell, other: HexCell): (t: HexEdgeType)
    ensures t == Flat <==> cell.elevation == other.elevation
    ensures t == Slope <==> Abs(other.elevation - cell.elevation) == 1
    ensures t == Cliff <==> Abs(other.elevation - cell.elevation) >= 2
  {
    GetEdgeType(cell.elevation, other.elevation)
  }

  /** The edge type toward the neighbour in direction `d`; reading an unset slot
      dereferences null, which is the error result. */
  function GetEdgeTypeInDirection(cells: seq<HexCell>, a: CellId, d: HexDirection): (r: Result<HexEdgeType, CellError>)
    requires WellFormed(cells) && a < |cells|
    ensures r.Err? <==> GetNeighbor(cells[a], d).None?
    ensures r.Ok? ==>
      && GetNeighbor(cells[a], d).value < |cells|
      && r.value == GetEdgeTypeWithCell(cells[a], cells[GetNeighbor(cells[a], d).value])
  {
    match GetNeighbor(cells[a], d)
    case None => Err(NullNeighbor)
    case Some(b) => Ok(GetEdgeType(cells[a].elevation, cells[b].elevation))
  }

  /** The cell-level classification uses the intended `GetEdgeType`; it agrees
      with the source's wrapping subtraction except on the pair of elevations
      int.MinValue and int.MaxValue. */
  lemma EdgeTypeWithCellAgainstSource(cell: HexCell, other: HexCell)
    ensures GetEdgeTypeWithCell(cell, other) == GetEdgeTypeAsWritten(cell.elevation, other.elevation)
        <==> !((cell.elevation == MIN && other.elevation == MAX) || (cell.elevation == MAX && other.elevation == MIN))
  {
    AsWrittenDiffersOnlyAtExtremes(cell.elevation, other.elevation);
  }

  /** Across a matched link both cells see the same edge type. */
  lemma EdgeTypeAcrossLink(cells: seq<HexCell>, a: CellId, d: HexDirection)
    requires WellFormed(cells) && Symmetric(cells) && a < |cells|
    requires GetNeighbor(cells[a], d).Some?
    ensures GetNeighbor(cells[a], d).value < |cells|
    ensures GetEdgeTypeInDirection(cells, GetNeighbor(cells[a], d).value, Opposite(d))
         == GetEdgeTypeInDirection(cells, a, d)
  {
    var b := GetNeighbor(cells[a], d).value;
    EdgeTypeSymmetric(cells[a].elevation, cells[b].elevation);
  }

  // ---------------------------------------------------------------------------
  // Elevation

  /** The stored elevation. */
  function GetElevation(cell: HexCell): Int32 {
    cell.elevation
  }

  /** Stores a new elevation and changes nothing else of the cell's data. */
  function SetElevation(cell: HexCell, value: Int32): (r: HexCell)
    ensures GetElevation(r) == value
    ensures r.coordinates == cell.coordinates && r.color == cell.color && r.neighbors == cell.neighbors
  {
    cell.(elevation := value)
  }

  /** Only the last assignment counts, and re-assigning the current value changes nothing. */
  lemma SetElevationLastWins(cell: HexCell, v1: Int32, v2: Int32)
    ensures SetElevation(SetElevation(cell, v1), v2) == SetElevation(cell, v2)
    ensures SetElevation(cell, GetElevation(cell)) == cell
  {
  }

  /** Sets the elevation of cell `i` of the array; neighbour links are untouched. */
  function SetCellElevation(cells: seq<HexCell>, i: CellId, value: Int32): (r: seq<HexCell>)
    requires i < |cells|
    ensures |r| == |cells| && GetElevation(r[i]) == value
    ensures forall j :: 0 <= j < |r| && j != i ==> r[j] == cells[j]
    ensures forall j :: 0 <= j < |r| ==> r[j].neighbors == cells[j].neighbors
    ensures WellFormed(cells) ==> WellFormed(r) && (Symmetric(cells) ==> Symmetric(r))
  {
    SameLinksPreserveShape(cells, cells[i := SetElevation(cells[i], value)]);
    cells[i := SetElevation(cells[i], value)]
  }

  /** Well-formedness and symmetry depend only on the neighbour tables. */
  lemma SameLinksPreserveShape(cells: seq<HexCell>, r: seq<HexCell>)
    requires |r| == |cells|
    requires forall j :: 0 <= j < |r| ==> r[j].neighbors == cells[j].neighbors
    ensures WellFormed(cells) ==> WellFormed(r) && (Symmetric(cells) ==> Symmetric(r))
  {
    if WellFormed(cells) {
      assert WellFormed(r);
      if Symmetric(cells) {
        forall j, d | 0 <= j < |r| && GetNeighbor(r[j], d).Some?
          ensures GetNeighbor(r[j], d).value < |r|
          ensures GetNeighbor(r[GetNeighbor(r[j], d).value], Opposite(d)) == Some(j)
        {
          assert GetNeighbor(r[j], d) == GetNeighbor(cells[j], d);
        }
      }
    }
  }
}
