/** RoadCreator.ClampAngle (Assets/Scripts/RoadCreator.cs): bring an angle in degrees
    into [0, 360) by repeated subtraction or addition of a full turn.
    Angles are exact reals; single-precision rounding is not modelled. */
module Angles {

  const FullTurn: real := 360.0

  /** The closed form of the normalisation: the angle minus the whole number of
      turns below it. */
  function Normalized(angle: real): real {
    angle - FullTurn * ((angle / FullTurn).Floor as real)
  }

  /** Normalized lands in [0, 360). */
  lemma NormalizedInRange(angle: real)
    ensures 0.0 <= Normalized(angle) < FullTurn
  {
    var k := (angle / FullTurn).Floor;
    assert k as real <= angle / FullTurn < k as real + 1.0;
    assert FullTurn * (k as real) <= angle < FullTurn * (k as real) + FullTurn;
  }

  /** d is a whole number of full turns. */
  predicate WholeTurns(d: real) {
    (d / FullTurn).Floor as real == d / FullTurn
  }

  /** Normalized differs from its input by a whole number of turns. */
  lemma NormalizedWholeTurns(angle: real)
    ensures WholeTurns(Normalized(angle) - angle)
  {
    var k := (angle / FullTurn).Floor;
    var d := Normalized(angle) - angle;
    assert d == FullTurn * (-k) as real;
    assert d / FullTurn == (-k) as real;
    assert ((-k) as real).Floor == -k;
  }

  /** Subtracting or adding one full turn does not change the normalised value. */
  lemma NormalizedShift(angle: real, turns: int)
    ensures Normalized(angle + FullTurn * turns as real) == Normalized(angle)
  {
    var k := (angle / FullTurn).Floor;
    var a' := angle + FullTurn * turns as real;
    assert a' / FullTurn == angle / FullTurn + turns as real;
    assert (a' / FullTurn).Floor == k + turns;
  }

  /** Angles already in [0, 360) are their own normal form. */
  lemma NormalizedFixesRange(angle: real)
    requires 0.0 <= angle < FullTurn
    ensures Normalized(angle) == angle
  {
    assert 0.0 <= angle / FullTurn < 1.0;
    assert (angle / FullTurn).Floor == 0;
  }

  /** Normalising twice is normalising once. */
  lemma NormalizedIdempotent(angle: real)
    ensures Normalized(Normalized(angle)) == Normalized(angle)
  {
    NormalizedInRange(angle);
    NormalizedFixesRange(Normalized(angle));
  }

  /** ClampAngle: subtract 360 while the angle is at least 360, then add 360 while it is
      negative. The result is the closed form, so over exact reals it lies in [0, 360),
      differs from the input by whole turns, and leaves an angle already in [0, 360)
      unchanged. In single precision a tiny negative angle plus 360 can round to 360, which
      is why the source's comment allows [0, 360]. */
  method ClampAngle(angle: real) returns (r: real)
    ensures r == Normalized(angle)
    ensures 0.0 <= r < FullTurn
    ensures WholeTurns(r - angle)
    ensures 0.0 <= angle < FullTurn ==> r == angle
  {
    r := angle;
    while r >= FullTurn
      invariant Normalized(r) == Normalized(angle)
      decreases r.Floor
    {
      NormalizedShift(r, -1);
      r := r - FullTurn;
    }
    while r < 0.0
      invariant Normalized(r) == Normalized(angle)
      invariant r < FullTurn
      decreases -r.Floor
    {
      NormalizedShift(r, 1);
      r := r + FullTurn;
    }
    NormalizedFixesRange(r);
    NormalizedWholeTurns(angle);
    if 0.0 <= angle < FullTurn {
      NormalizedFixesRange(angle);
    }
  }
}
