/** Cube coordinates of a cell. The coordinate type's own source is not part of
    this model; only the offset conversion the grid relies on is written out,
    under an assumption: X = column - row / 2 with C#'s truncating division,
    and Z = row. Truncating and floor division differ only for negative rows,
    which the grid construction never passes. */
module Coordinates {
  import opened Int32Arith

  /** Cube coordinates; the third axis is derived, so X + Y + Z == 0 holds by
      definition. */
  datatype HexCoordinates = HexCoordinates(X: Int32, Z: Int32) {
    function Y(): int {
      -(X as int) - (Z as int)
    }
  }

  /** The cube coordinates of the cell at column `x`, row `z`. */
  function FromOffsetCoordinates(x: Int32, z: Int32): (c: HexCoordinates)
    ensures c.Z == z
    ensures MIN <= x - TruncDiv(z, 2) <= MAX ==> OffsetColumn(c) == x
  {
    HexCoordinates(WrapSum(x - TruncDiv(z, 2)), z)
  }

  /** The offset column a coordinate lies in: `X + Z / 2`. */
  function OffsetColumn(c: HexCoordinates): int {
    c.X + TruncDiv(c.Z, 2)
  }

  /** Converting to cube coordinates and back recovers the column and row. */
  lemma OffsetRoundTrip(x: Int32, z: Int32)
    requires 0 <= x && 0 <= z
    ensures OffsetColumn(FromOffsetCoordinates(x, z)) == x
    ensures FromOffsetCoordinates(x, z).Z == z
  {
  }

  /** Every coordinate whose column fits an int is the image of its own column and row. */
  lemma CubeRoundTrip(c: HexCoordinates)
    requires MIN <= OffsetColumn(c) <= MAX
    ensures FromOffsetCoordinates(OffsetColumn(c), c.Z) == c
  {
  }

  /** Different offsets give different coordinates. */
  lemma FromOffsetInjective(x1: Int32, z1: Int32, x2: Int32, z2: Int32)
    requires 0 <= x1 && 0 <= z1 && 0 <= x2 && 0 <= z2
    requires FromOffsetCoordinates(x1, z1) == FromOffsetCoordinates(x2, z2)
    ensures x1 == x2 && z1 == z2
  {
    OffsetRoundTrip(x1, z1);
    OffsetRoundTrip(x2, z2);
  }
}
