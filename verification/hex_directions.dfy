/** The six hexagon directions and the cyclic arithmetic on them
    (the `HexDirection` enum and its `Opposite`/`Previous`/`Next` extensions). */
module HexDirections {

  /** Declared in clockwise order; the enum's underlying ints are 0..5. */
  datatype HexDirection = NE | E | SE | SW | W | NW

  /** The enum's underlying integer, `(int)direction`. */
  function Ordinal(d: HexDirection): (i: nat)
    ensures i < 6
  {
    match d
    case NE => 0
    case E => 1
    case SE => 2
    case SW => 3
    case W => 4
    case NW => 5
  }

  /** The enum value with underlying integer `i`. */
  function FromOrdinal(i: int): (d: HexDirection)
    requires 0 <= i < 6
    ensures Ordinal(d) == i
  {
    if i == 0 then NE
    else if i == 1 then E
    else if i == 2 then SE
    else if i == 3 then SW
    else if i == 4 then W
    else NW
  }

  /** Directions are identified by their underlying integer. */
  lemma OrdinalInjective(a: HexDirection, b: HexDirection)
    ensures Ordinal(a) == Ordinal(b) <==> a == b
  {
  }

  /** The direction across the hexagon: `direction + 3` below 3, else `direction - 3`. */
  function Opposite(d: HexDirection): (r: HexDirection)
    ensures Ordinal(r) == (Ordinal(d) + 3) % 6
    ensures r != d
  {
    if Ordinal(d) < 3 then FromOrdinal(Ordinal(d) + 3) else FromOrdinal(Ordinal(d) - 3)
  }

  /** The counter-clockwise neighbour direction; `NE` wraps round to `NW`. */
  function Previous(d: HexDirection): (r: HexDirection)
    ensures Ordinal(r) == (Ordinal(d) + 5) % 6
  {
    if d == NE then NW else FromOrdinal(Ordinal(d) - 1)
  }

  /** The clockwise neighbour direction; `NW` wraps round to `NE`. */
  function Next(d: HexDirection): (r: HexDirection)
    ensures Ordinal(r) == (Ordinal(d) + 1) % 6
  {
    if d == NW then NE else FromOrdinal(Ordinal(d) + 1)
  }

  /** Reference definition: turning `k` sixths of a full turn clockwise. */
  function Rotate(d: HexDirection, k: nat): HexDirection {
    FromOrdinal((Ordinal(d) + k) % 6)
  }

  /** `Next` applied `k` times. */
  function NextIterate(d: HexDirection, k: nat): HexDirection {
    if k == 0 then d else Next(NextIterate(d, k - 1))
  }

  /** `Opposite` is an involution without a fixed point. */
  lemma OppositeInvolution(d: HexDirection)
    ensures Opposite(Opposite(d)) == d
  {
    OrdinalInjective(Opposite(Opposite(d)), d);
  }

  /** `Next` and `Previous` undo each other. */
  lemma NextPreviousInverse(d: HexDirection)
    ensures Next(Previous(d)) == d
    ensures Previous(Next(d)) == d
  {
    OrdinalInjective(Next(Previous(d)), d);
    OrdinalInjective(Previous(Next(d)), d);
  }

  /** `Next` and `Previous` never return their argument. */
  lemma NextPreviousMove(d: HexDirection)
    ensures Next(d) != d && Previous(d) != d
  {
  }

  /** Iterating `Next` agrees with the rotation reference definition. */
  lemma {:induction false} NextIterateIsRotate(d: HexDirection, k: nat)
    ensures NextIterate(d, k) == Rotate(d, k)
  {
    if k > 0 {
      NextIterateIsRotate(d, k - 1);
      OrdinalInjective(Next(Rotate(d, k - 1)), Rotate(d, k));
    }
  }

  /** Six steps clockwise come back to the start. */
  lemma NextSixTimesIsIdentity(d: HexDirection)
    ensures NextIterate(d, 6) == d
  {
    NextIterateIsRotate(d, 6);
    OrdinalInjective(Rotate(d, 6), d);
  }

  /** The opposite direction is three steps clockwise, and three steps counter-clockwise. */
  lemma OppositeIsThreeSteps(d: HexDirection)
    ensures Opposite(d) == Next(Next(Next(d)))
    ensures Opposite(d) == Previous(Previous(Previous(d)))
  {
    OrdinalInjective(Opposite(d), Next(Next(Next(d))));
    OrdinalInjective(Opposite(d), Previous(Previous(Previous(d))));
  }

  /** `Previous` is five steps clockwise. */
  lemma PreviousIsFiveSteps(d: HexDirection)
    ensures Previous(d) == NextIterate(d, 5)
  {
    NextIterateIsRotate(d, 5);
    OrdinalInjective(Previous(d), Rotate(d, 5));
  }

  /** `Opposite` commutes with turning. */
  lemma OppositeCommutesWithNext(d: HexDirection)
    ensures Opposite(Next(d)) == Next(Opposite(d))
    ensures Opposite(Previous(d)) == Previous(Opposite(d))
  {
    OrdinalInjective(Opposite(Next(d)), Next(Opposite(d)));
    OrdinalInjective(Opposite(Previous(d)), Previous(Opposite(d)));
  }
}
