/** Records of the crowd simulation: entity, game-state snapshot and radio
    message (types.ts:2-87), plus the random-draw type every stochastic
    decision of the engine is fed from. */
module Types {

  /** The optional values of the source (`weaponType?`, `subType?`, a
      `null` result or selection). */
  datatype Option<T> = None | Some(value: T)

  function Min(a: nat, b: nat): nat {
    if a <= b then a else b
  }

  datatype Kind = Civilian | Zombie | Soldier

  datatype CivilianType = Man | Woman | Child | Elderly

  /** The player's selected tool; `NoTool` is the source's NONE. */
  datatype Tool = NoTool | SupplyDrop | SpecOps | Airstrike

  datatype Weapon = Pistol | Sniper | Shotgun | Rocket

  /** A point of the map in degrees. */
  datatype Coord = Coord(lat: real, lng: real)

  /** A displacement; `x` is added to `lat` and `y` to `lng`. */
  datatype Vec = Vec(x: real, y: real)

  const Zero: Vec := Vec(0.0, 0.0)

  /** Entity ids are built from two string templates, `civ-<i>` for the
      initial population and `soldier-<clock>-<i>` for reinforcements; the
      constructors stand for those two templates. */
  datatype EntityId = CivId(index: nat) | SoldierId(stamp: int, index: nat)

  /** One simulated agent. Name, age, gender and thought are cosmetic and
      not part of the model. */
  datatype Entity = Entity(
    id: EntityId,
    kind: Kind,
    subType: Option<CivilianType>,
    position: Coord,
    velocity: Vec,
    wanderAngle: real,
    isInfected: bool,
    isArmed: bool,
    weapon: Option<Weapon>,
    health: int)

  datatype Outcome = Victory | Defeat

  /** The aggregate snapshot the engine publishes every tick. */
  datatype GameState = GameState(
    isPlaying: bool,
    isPaused: bool,
    healthyCount: int,
    infectedCount: int,
    soldierCount: int,
    gameResult: Option<Outcome>,
    resources: int,
    selectedEntity: Option<Entity>)

  /** The radio lines the engine emits; each constructor stands for one
      fixed (sender, text) pair of the source:
      InsufficientFunds — system, "insufficient funds";
      StrikeComplete — pilot, "target area covered, strike complete";
      SuppliesDelivered(n) — logistics, "supplies delivered, n civilians armed";
      NoRecipients — system, "no survivors at the drop point";
      SquadArrived — headquarters, "special forces squad has arrived". */
  datatype RadioEvent =
    | InsufficientFunds
    | StrikeComplete
    | SuppliesDelivered(armed: nat)
    | NoRecipients
    | SquadArrived

  /** A log entry; id and timestamp both come from the wall clock and are
      folded into `stamp`. */
  datatype RadioMessage = RadioMessage(stamp: int, event: RadioEvent)

  /** One value of `Math.random()`. */
  type Roll = r: real | 0.0 <= r < 1.0 witness 0.0
}
