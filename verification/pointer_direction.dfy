/** The directional hover effect of Portfolio20 and cta37 (the two components carry the
    same `getDirection`, the same `imageVariants` and the same inverse translations).

    `getDirection` takes the angle of the pointer seen from the centre of the hovered
    list, in degrees as `Math.atan2` returns it (within -180..180, y growing downwards),
    moves negative angles into 0..360 and names one of four 90-degree sectors. The
    floating image then plays the variant named by that direction, while the container
    around it is shifted the opposite way so that the image still lands on the cursor. */
module PointerDirection {
  import opened Wrappers

  datatype Direction = Top | Bottom | Left | Right

  /** `adjustedAngle`. */
  function Normalize(deg: real): real {
    if deg < 0.0 then deg + 360.0 else deg
  }

  /** The sector chain of `getDirection` on an adjusted angle. */
  function Classify(a: real): Direction {
    if a >= 315.0 || a < 45.0 then Right
    else if a >= 45.0 && a < 135.0 then Bottom
    else if a >= 135.0 && a < 225.0 then Left
    else Top
  }

  /** `getDirection`, from the pointer angle in degrees. */
  function GetDirection(deg: real): Direction {
    Classify(Normalize(deg))
  }

  /** The four sectors as half-open arcs of [0, 360). */
  predicate InSector(d: Direction, a: real) {
    match d
    case Right => (315.0 <= a < 360.0) || (0.0 <= a < 45.0)
    case Bottom => 45.0 <= a < 135.0
    case Left => 135.0 <= a < 225.0
    case Top => 225.0 <= a < 315.0
  }

  /** An independent description: count quarter turns from -45 degrees. */
  function Quadrant(a: real): Direction {
    var k := ((a + 45.0) / 90.0).Floor % 4;
    if k == 0 then Right else if k == 1 then Bottom else if k == 2 then Left else Top
  }

  /** Every angle `atan2` can produce is moved into [0, 360) by a whole turn at most,
      so it still points the same way. */
  lemma NormalizeRange(deg: real)
    requires -180.0 <= deg <= 180.0
    ensures 0.0 <= Normalize(deg) < 360.0
    ensures Normalize(deg) == deg || Normalize(deg) == deg + 360.0
  {
  }

  /** On [0, 360) the sectors are a partition and `getDirection` names the one the
      angle lies in: an angle lies in a sector exactly when that sector is returned. */
  lemma ClassifyMatchesSectors(a: real)
    requires 0.0 <= a < 360.0
    ensures forall d :: InSector(d, a) <==> d == Classify(a)
  {
  }

  lemma FloorBetween(x: real, k: int)
    requires k as real <= x < k as real + 1.0
    ensures x.Floor == k
  {
  }

  /** The if-chain agrees with counting quarter turns, for every angle `atan2` yields. */
  lemma GetDirectionMatchesQuadrant(deg: real)
    requires -180.0 <= deg <= 180.0
    ensures GetDirection(deg) == Quadrant(Normalize(deg))
  {
    var a := Normalize(deg);
    var x := (a + 45.0) / 90.0;
    if a < 45.0 { FloorBetween(x, 0); }
    else if a < 135.0 { FloorBetween(x, 1); }
    else if a < 225.0 { FloorBetween(x, 2); }
    else if a < 315.0 { FloorBetween(x, 3); }
    else { FloorBetween(x, 4); }
  }

  /** Each boundary belongs to the sector it opens; a pointer exactly on the centre
      (where `atan2(0, 0)` is 0) counts as entering from the right, and the four axis
      points give their own sides. */
  lemma Boundaries()
    ensures Classify(45.0) == Bottom && Classify(135.0) == Left
    ensures Classify(225.0) == Top && Classify(315.0) == Right
    ensures GetDirection(0.0) == Right
    ensures GetDirection(90.0) == Bottom
    ensures GetDirection(180.0) == Left && GetDirection(-180.0) == Left
    ensures GetDirection(-90.0) == Top
  {
  }

  // ---------------------------------------------------------------- offsets

  /** The `direction` state: `"initial"` until the pointer first enters. */
  datatype HoverDirection = Initial | Entered(d: Direction)

  /** `handleMouseEnter`: the angle is absent when the element reference is missing,
      and then nothing changes. */
  function OnContainerEnter(h: HoverDirection, angle: Option<real>): HoverDirection {
    match angle
    case None => h
    case Some(deg) => Entered(GetDirection(deg))
  }

  function TopInverse(h: HoverDirection): int { if h == Entered(Top) then -50 else 0 }

  function BottomInverse(h: HoverDirection): int { if h == Entered(Bottom) then 50 else 0 }

  function LeftInverse(h: HoverDirection): int { if h == Entered(Left) then -50 else 0 }

  function RightInverse(h: HoverDirection): int { if h == Entered(Right) then 50 else 0 }

  /** The extra translation of the floating container, per axis. */
  function InverseX(h: HoverDirection): int { LeftInverse(h) + RightInverse(h) }

  function InverseY(h: HoverDirection): int { TopInverse(h) + BottomInverse(h) }

  /** A variant of `imageVariants`: the axes it animates (an absent axis keeps its value). */
  datatype Variant = Variant(x: Option<int>, y: Option<int>)

  function ImageVariant(h: HoverDirection): Variant {
    match h
    case Initial => Variant(Some(0), Some(0))
    case Entered(Top) => Variant(None, Some(50))
    case Entered(Bottom) => Variant(None, Some(-50))
    case Entered(Left) => Variant(Some(50), None)
    case Entered(Right) => Variant(Some(-50), None)
  }

  /** At most one inverse translation is non-zero, it is 50 in size, it pulls up or left
      for top and left and down or right for bottom and right, and none is set before
      the pointer has entered. */
  lemma AtMostOneInverse(h: HoverDirection)
    ensures var vs := [TopInverse(h), BottomInverse(h), LeftInverse(h), RightInverse(h)];
      forall i, j :: 0 <= i < j < 4 ==> vs[i] == 0 || vs[j] == 0
    ensures h == Initial ==> InverseX(h) == 0 && InverseY(h) == 0
    ensures h.Entered? && (h.d == Top || h.d == Left) ==> InverseX(h) + InverseY(h) == -50
    ensures h.Entered? && (h.d == Bottom || h.d == Right) ==> InverseX(h) + InverseY(h) == 50
  {
  }

  /** For every direction, the container's inverse translation is the exact negation of
      the image variant's offset on the axis the variant animates, and zero on the other
      axis (which the variant leaves alone): image and cursor stay aligned. */
  lemma InverseCancelsVariant(d: Direction, cursorX: int, cursorY: int)
    ensures var h := Entered(d);
      var v := ImageVariant(h);
      && (v.x.Some? <==> v.y.None?)
      && (v.x.Some? ==> v.x.value + InverseX(h) == 0 && InverseY(h) == 0)
      && (v.y.Some? ==> v.y.value + InverseY(h) == 0 && InverseX(h) == 0)
      && (v.x.Some? ==> (cursorX - 300 + InverseX(h)) + v.x.value == cursorX - 300)
      && (v.y.Some? ==> (cursorY - 300 + InverseY(h)) + v.y.value == cursorY - 300)
  {
  }
}
