/** The engine's uses of `Math.random()`: every draw is an explicit `Roll`
    argument, so each stochastic choice is a function of its rolls. */
module Chance {
  import opened Types

  lemma RollScaledBelow(r: Roll, n: real)
    requires 0.0 < n
    ensures 0.0 <= r * n < n
  {
    assert n - r * n == (1.0 - r) * n;
    ScaledPositive(1.0 - r, n);
    ScaledNonNegative(r, n);
  }

  lemma ScaledPositive(a: real, b: real)
    requires 0.0 < a && 0.0 < b
    ensures 0.0 < a * b
  {}

  lemma ScaledNonNegative(a: real, b: real)
    requires 0.0 <= a && 0.0 <= b
    ensures 0.0 <= a * b
  {}

  /** `Math.floor(Math.random() * n)`: a uniform index into a list of
      length `n`. */
  function PickIndex(r: Roll, n: nat): (i: nat)
    requires 0 < n
    ensures i < n
  {
    RollScaledBelow(r, n as real);
    (r * n as real).Floor
  }

  /** `getRandomWeapon`: 40% pistol, 30% shotgun, 20% sniper, 10% rocket,
      by the cumulative thresholds 0.4, 0.7 and 0.9. */
  function RandomWeapon(r: Roll): Weapon {
    if r < 0.4 then Pistol
    else if r < 0.7 then Shotgun
    else if r < 0.9 then Sniper
    else Rocket
  }

  /** Each weapon is drawn on exactly one band of the roll, and the four
      bands cover [0, 1). */
  lemma RandomWeaponBands(r: Roll)
    ensures RandomWeapon(r) == Pistol <==> r < 0.4
    ensures RandomWeapon(r) == Shotgun <==> 0.4 <= r < 0.7
    ensures RandomWeapon(r) == Sniper <==> 0.7 <= r < 0.9
    ensures RandomWeapon(r) == Rocket <==> 0.9 <= r
  {}
}
