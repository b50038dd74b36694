/** The parameter tables of the four landing maneuvers
    (src/tree/shipdeck_landing/atomics/constants.rs). The source's `f32`
    constants are small integers, exact in binary floating point, so they
    are modelled as reals. */
module ManeuverConstants {

  datatype Deg45 = Deg45HeightAboveShip | Deg45DistanceToShip | Deg45AngleToShip | Deg45AboveTouchdown

  datatype Lateral = LateralHeightAboveShip | LateralDistanceToShip | LateralAngleToShip | LateralAboveTouchdown

  datatype Oblique =
    ObliqueHeightAboveShip | ObliqueDistanceToShip | ObliqueAngleToShip | ObliqueAngleOblique | ObliqueAboveTouchdown

  datatype Straight = StraightHeightAboveShip | StraightDistanceToShip | StraightAngleToShip | StraightAboveTouchdown

  function Deg45Value(p: Deg45): real
  {
    match p
    case Deg45HeightAboveShip => 20.0
    case Deg45DistanceToShip => 30.0
    case Deg45AngleToShip => 135.0
    case Deg45AboveTouchdown => 20.0
  }

  function LateralValue(p: Lateral): real
  {
    match p
    case LateralHeightAboveShip => 20.0
    case LateralDistanceToShip => 20.0
    case LateralAngleToShip => 90.0
    case LateralAboveTouchdown => 20.0
  }

  function ObliqueValue(p: Oblique): real
  {
    match p
    case ObliqueHeightAboveShip => 20.0
    case ObliqueDistanceToShip => 30.0
    case ObliqueAngleToShip => 135.0
    case ObliqueAngleOblique => 45.0
    case ObliqueAboveTouchdown => 20.0
  }

  function StraightValue(p: Straight): real
  {
    match p
    case StraightHeightAboveShip => 20.0
    case StraightDistanceToShip => 20.0
    case StraightAngleToShip => 180.0
    case StraightAboveTouchdown => 20.0
  }

  /** Every maneuver approaches 20 m above the ship and touches down from
      20 m above the deck. */
  lemma UniformHeights()
    ensures Deg45Value(Deg45HeightAboveShip) == LateralValue(LateralHeightAboveShip) ==
            ObliqueValue(ObliqueHeightAboveShip) == StraightValue(StraightHeightAboveShip) == 20.0
    ensures Deg45Value(Deg45AboveTouchdown) == LateralValue(LateralAboveTouchdown) ==
            ObliqueValue(ObliqueAboveTouchdown) == StraightValue(StraightAboveTouchdown) == 20.0
  {
  }

  /** The 45-degree and the oblique approach share the holding position
      (135 degrees, 30 m); the oblique one adds a 45-degree heading offset. */
  lemma Deg45LikeOblique()
    ensures Deg45Value(Deg45AngleToShip) == ObliqueValue(ObliqueAngleToShip)
    ensures Deg45Value(Deg45DistanceToShip) == ObliqueValue(ObliqueDistanceToShip)
    ensures ObliqueValue(ObliqueAngleToShip) - ObliqueValue(ObliqueAngleOblique) == 90.0
  {
  }
}
