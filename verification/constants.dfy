/** The tuning constants the engine reads (constants.ts:7-149). Constants
    that describe mechanics the engine does not have (cooldowns, ammunition,
    nets, healing, buildings) are not part of this model. */
module Constants {
  import opened Types

  // Base speeds, in degrees per tick.
  const MAX_SPEED_ZOMBIE: real := 0.000005
  const MAX_SPEED_SOLDIER: real := 0.000004
  const MAX_SPEED_CIVILIAN: real := 0.000003

  // Speed multipliers.
  const MULT_SPRINT: real := 1.5
  const MULT_WANDER: real := 0.6

  // Ranges, in degrees.
  const INFECTION_RANGE: real := 0.00025
  const VISION_RANGE_ZOMBIE: real := 0.0030
  const VISION_RANGE_HUMAN: real := 0.0030

  // Steering weights.
  const FORCE_SEPARATION: real := 3.0
  const FORCE_SEEK: real := 2.5
  const FORCE_FLEE: real := 4.0
  const FORCE_WANDER: real := 0.8

  const SEPARATION_RADIUS: real := 0.00015

  // Areas of effect of the player's tools.
  const AIRSTRIKE_RADIUS: real := 0.0006
  const SUPPLY_RADIUS: real := 0.000375

  /** `Math.PI * 2` as a double, for angles drawn from a roll. */
  const TAU: real := 6.283185307179586

  const INITIAL_POPULATION: nat := 120
  const SPAWN_RADIUS: real := 0.0025

  // Economy.
  const INITIAL_RESOURCES: int := 1000
  const PASSIVE_INCOME: int := 0
  const COST_SUPPLY: int := 50
  const COST_SPEC_OPS: int := 100
  const COST_AIRSTRIKE: int := 200

  /** Weapon range in degrees. */
  function Range(w: Weapon): real {
    match w
    case Pistol => 0.0005
    case Shotgun => 0.0004
    case Sniper => 0.0018
    case Rocket => 0.0008
  }

  /** Damage of one hit. */
  function Damage(w: Weapon): (d: int)
    ensures 0 < d
  {
    match w
    case Pistol => 4
    case Shotgun => 15
    case Sniper => 20
    case Rocket => 25
  }

  /** The rocket's splash radius; it is defined, so the engine's fallback
      of 0.0005 for a missing splash radius never applies. */
  const ROCKET_SPLASH_RADIUS: real := 0.0004
}
