/** The player's interventions (components/GameMap.tsx:40-46, 489-556): a
    map click with the selected tool, gated by the game's state and paid
    for from the balance. */
module Interventions {
  import opened Types
  import opened Constants
  import opened VectorMath
  import opened Chance
  import opened Census
  import opened Combat

  /** What a click leaves behind: the entities, the balance, the radio
      lines emitted in order, and whether the selection was cleared. */
  datatype Effect = Effect(entities: seq<Entity>, resources: int, radio: seq<RadioEvent>, deselected: bool)

  /** The rolls of one soldier of a squad: weapon, the two position
      offsets and the wander heading. */
  datatype Recruit = Recruit(weapon: Roll, dLat: Roll, dLng: Roll, heading: Roll)

  /** The rolls a click may use: the supply-drop draw order, the supply
      weapons by entity index, and the squad's soldiers by squad index;
      `clock(i)` is the wall-clock reading in the id of soldier `i`. */
  datatype ClickDice = ClickDice(draw: nat -> Roll, supply: nat -> Roll, recruits: nat -> Recruit, clock: nat -> int)

  function Cost(t: Tool): int {
    match t
    case NoTool => 0
    case SupplyDrop => COST_SUPPLY
    case SpecOps => COST_SPEC_OPS
    case Airstrike => COST_AIRSTRIKE
  }

  /** `useResource`: pays when the balance covers the cost, otherwise
      leaves the balance and reports insufficient funds. */
  function UseResource(balance: int, cost: int): (r: (bool, int, seq<RadioEvent>))
    ensures r.0 <==> cost <= balance
    ensures r.0 ==> r.1 == balance - cost && r.2 == []
    ensures !r.0 ==> r.1 == balance && r.2 == [InsufficientFunds]
  {
    if balance >= cost then (true, balance - cost, []) else (false, balance, [InsufficientFunds])
  }

  /** The airstrike takes out a zombie strictly within AIRSTRIKE_RADIUS of
      the click. */
  predicate Struck(e: Entity, click: Coord) {
    e.kind == Zombie && DistSq(e.position, click) < Square(AIRSTRIKE_RADIUS)
  }

  /** The airstrike's filter, keeping the list order (see `BombardAppend`). */
  function Bombard(es: seq<Entity>, click: Coord): (r: seq<Entity>)
    ensures |r| <= |es|
    ensures forall e :: e in r <==> e in es && !Struck(e, click)
  {
    if es == [] then []
    else
      var last := es[|es| - 1];
      Bombard(es[..|es| - 1], click) + (if Struck(last, click) then [] else [last])
  }

  /** The filter keeps order and multiplicity: it distributes over
      concatenation, so the survivors of each part stay in place. */
  lemma {:induction false} BombardAppend(a: seq<Entity>, b: seq<Entity>, click: Coord)
    ensures Bombard(a + b, click) == Bombard(a, click) + Bombard(b, click)
    decreases |b|
  {
    if b == [] {
      assert a + b == a;
    } else {
      var last := |b| - 1;
      assert (a + b)[..|a + b| - 1] == a + b[..last];
      BombardAppend(a, b[..last], click);
    }
  }

  /** The airstrike spares every civilian and soldier: their counts are
      unchanged. */
  lemma {:induction false} StrikeSparesHumans(es: seq<Entity>, click: Coord)
    ensures CountKind(Bombard(es, click), Civilian) == CountKind(es, Civilian)
    ensures CountKind(Bombard(es, click), Soldier) == CountKind(es, Soldier)
  {
    if es != [] {
      var prefix, last := es[..|es| - 1], es[|es| - 1];
      StrikeSparesHumans(prefix, click);
      var kept := if Struck(last, click) then [] else [last];
      CountAppend(Bombard(prefix, click), kept, Civilian);
      CountAppend(Bombard(prefix, click), kept, Soldier);
      assert kept == [] || kept[..0] == [];
    }
  }

  /** A supply candidate: an uninfected civilian strictly within
      SUPPLY_RADIUS of the click. */
  predicate Candidate(e: Entity, click: Coord) {
    e.kind == Civilian && !e.isInfected && DistSq(e.position, click) < Square(SUPPLY_RADIUS)
  }

  /** The candidates' indices, in list order. */
  function Candidates(es: seq<Entity>, click: Coord): (r: seq<nat>)
    ensures forall k :: 0 <= k < |r| ==> r[k] < |es| && Candidate(es[r[k]], click)
    ensures forall i :: 0 <= i < |es| && Candidate(es[i], click) ==> i in r
    ensures forall k, l :: 0 <= k < l < |r| ==> r[k] < r[l]
  {
    Select(|es|, (i: nat) => i < |es| && Candidate(es[i], click))
  }

  /** No element occurs twice. */
  predicate Unique(s: seq<nat>) {
    forall k, l :: 0 <= k < l < |s| ==> s[k] != s[l]
  }

  /** `pool` without its element at `i`. */
  function Without(pool: seq<nat>, i: nat): (r: seq<nat>)
    requires i < |pool|
    ensures |r| == |pool| - 1
    ensures forall j :: 0 <= j < |r| ==> r[j] == (if j < i then pool[j] else pool[j + 1])
  {
    pool[..i] + pool[i + 1..]
  }

  lemma WithoutKeeps(pool: seq<nat>, i: nat)
    requires i < |pool| && Unique(pool)
    ensures Unique(Without(pool, i))
    ensures forall x :: x in Without(pool, i) ==> x in pool && x != pool[i]
  {
    var rest := Without(pool, i);
    forall x | x in rest
      ensures x in pool && x != pool[i]
    {
      var j :| 0 <= j < |rest| && rest[j] == x;
      if j < i {
        assert x == pool[j];
      } else {
        assert x == pool[j + 1];
      }
    }
    forall a, b | 0 <= a < b < |rest|
      ensures rest[a] != rest[b]
    {
      var pa := if a < i then a else a + 1;
      var pb := if b < i then b else b + 1;
      assert rest[a] == pool[pa] && rest[b] == pool[pb];
    }
  }

  lemma ConsUnique(x: nat, s: seq<nat>)
    requires Unique(s) && x !in s
    ensures Unique([x] + s)
  {
    forall k, l | 0 <= k < l < |[x] + s|
      ensures ([x] + s)[k] != ([x] + s)[l]
    {
      assert ([x] + s)[l] == s[l - 1];
      if k > 0 {
        assert ([x] + s)[k] == s[k - 1];
      }
    }
  }

  /** The shuffle-and-slice `sort(() => 0.5 - Math.random()).slice(0, n)`,
      read as drawing up to `n` members of `pool` without replacement; the
      draw `k` uses the roll `draw(k)`. */
  function Sample(pool: seq<nat>, draw: nat -> Roll, k: nat, n: nat): (r: seq<nat>)
    requires Unique(pool)
    ensures |r| == Min(n, |pool|)
    ensures forall x :: x in r ==> x in pool
    ensures Unique(r)
    decreases n
  {
    if n == 0 || pool == [] then []
    else
      var i := PickIndex(draw(k), |pool|);
      var rest := Without(pool, i);
      WithoutKeeps(pool, i);
      var tail := Sample(rest, draw, k + 1, n - 1);
      ConsUnique(pool[i], tail);
      [pool[i]] + tail
  }

  /** Arms the entities at the indices of `lucky`, each with the weapon its
      own roll draws. */
  function Arm(es: seq<Entity>, lucky: seq<nat>, supply: nat -> Roll): (r: seq<Entity>)
    ensures ArmedExactly(es, r, lucky, supply)
  {
    seq(|es|, (i: nat) requires i < |es| =>
      if i in lucky then es[i].(isArmed := true, weapon := Some(RandomWeapon(supply(i)))) else es[i])
  }

  /** The supply drop: arms exactly `min(4, candidates)` distinct
      candidates, each with a weapon from its own roll's band, changes no
      one else, and reports how many were armed, or that nobody was
      there. */
  function Supply(es: seq<Entity>, click: Coord, dice: ClickDice): (r: (seq<Entity>, RadioEvent))
    ensures |r.0| == |es|
    ensures exists lucky: seq<nat> :: Drawn(es, click, lucky) && ArmedExactly(es, r.0, lucky, dice.supply)
    ensures r.1 == NoRecipients <==> |Candidates(es, click)| == 0
    ensures r.1 != NoRecipients ==> r.1 == SuppliesDelivered(Min(4, |Candidates(es, click)|))
  {
    var candidates := Candidates(es, click);
    var lucky := Sample(candidates, dice.draw, 0, 4);
    LuckyAreCandidates(es, click, lucky);
    assert Drawn(es, click, lucky);
    (Arm(es, lucky, dice.supply), if |lucky| > 0 then SuppliesDelivered(|lucky|) else NoRecipients)
  }

  /** `lucky` holds `min(4, candidates)` distinct candidates' indices. */
  predicate Drawn(es: seq<Entity>, click: Coord, lucky: seq<nat>) {
    && |lucky| == Min(4, |Candidates(es, click)|) && Unique(lucky)
    && (forall k :: 0 <= k < |lucky| ==> lucky[k] < |es| && Candidate(es[lucky[k]], click))
  }

  /** `r` is `es` with the entities at the indices of `lucky` armed, each
      with the weapon its own roll draws, and nobody else changed. */
  predicate ArmedExactly(es: seq<Entity>, r: seq<Entity>, lucky: seq<nat>, supply: nat -> Roll) {
    && |r| == |es|
    && (forall i :: 0 <= i < |es| && i !in lucky ==> r[i] == es[i])
    && (forall i :: 0 <= i < |es| && i in lucky ==>
          r[i] == es[i].(isArmed := true, weapon := Some(RandomWeapon(supply(i)))))
  }

  lemma LuckyAreCandidates(es: seq<Entity>, click: Coord, lucky: seq<nat>)
    requires forall x :: x in lucky ==> x in Candidates(es, click)
    ensures forall k :: 0 <= k < |lucky| ==> lucky[k] < |es| && Candidate(es[lucky[k]], click)
  {
    forall k | 0 <= k < |lucky|
      ensures lucky[k] < |es| && Candidate(es[lucky[k]], click)
    {
      assert lucky[k] in Candidates(es, click);
    }
  }

  /** Soldier `i` of a squad called in at `click`. */
  function Recruited(click: Coord, i: nat, stamp: int, d: Recruit): (e: Entity)
    ensures e.id == SoldierId(stamp, i) && e.kind == Soldier && e.isArmed && !e.isInfected && e.health == 50
    ensures e.weapon == Some(Sniper) || e.weapon == Some(Rocket)
    ensures e.weapon == Some(Rocket) <==> d.weapon > 0.5
  {
    Entity(SoldierId(stamp, i), Soldier, None,
      Coord(click.lat + d.dLat * 0.0001, click.lng + d.dLng * 0.0001),
      Zero, d.heading * TAU, false, true,
      Some(if d.weapon > 0.5 then Rocket else Sniper), 50)
  }

  /** The spec-ops squad of four. */
  function Squad(click: Coord, dice: ClickDice): (r: seq<Entity>)
    ensures |r| == 4
    ensures forall i :: 0 <= i < 4 ==> r[i] == Recruited(click, i, dice.clock(i), dice.recruits(i))
  {
    seq(4, (i: nat) => Recruited(click, i, dice.clock(i), dice.recruits(i)))
  }

  /** The spec-ops call adds exactly four armed soldiers with 50 health, each
      carrying a sniper rifle or a rocket launcher, after the existing
      entities, which are unchanged. */
  lemma SquadJoins(es: seq<Entity>, click: Coord, dice: ClickDice)
    ensures var r := es + Squad(click, dice);
      && r[..|es|] == es
      && CountKind(r, Soldier) == CountKind(es, Soldier) + 4
      && CountKind(r, Civilian) == CountKind(es, Civilian)
      && CountKind(r, Zombie) == CountKind(es, Zombie)
      && (forall i :: |es| <= i < |r| ==>
            r[i].kind == Soldier && r[i].isArmed && r[i].health == 50 && (r[i].weapon == Some(Sniper) || r[i].weapon == Some(Rocket)))
  {
    var squad := Squad(click, dice);
    CountAppend(es, squad, Soldier);
    CountAppend(es, squad, Civilian);
    CountAppend(es, squad, Zombie);
    assert forall i :: 0 <= i < |squad| ==> squad[i].kind == Soldier;
  }

  /** `handleMapClick`. `paused` is the pause flag the engine reads and
      `result` the engine's game result. Once a result is set or while
      paused a click does nothing; otherwise it clears the selection, and
      the selected tool is applied exactly when its cost is paid: the cost
      is taken when the balance covers it, and otherwise the entities and
      the balance stay as they were and the only radio line is the
      insufficient-funds notice. A balance that starts non-negative stays
      non-negative. */
  function HandleMapClick(es: seq<Entity>, balance: int, result: Option<Outcome>, paused: bool,
                          tool: Tool, click: Coord, dice: ClickDice): (r: Effect)
    ensures result.Some? || paused ==> r == Effect(es, balance, [], false)
    ensures result.None? && !paused ==> r.deselected
    ensures tool == NoTool ==> r.entities == es && r.resources == balance && r.radio == []
    ensures result.None? && !paused && Cost(tool) <= balance ==> r.resources == balance - Cost(tool)
    ensures tool != NoTool && balance < Cost(tool) ==> r.entities == es && r.resources == balance
    ensures result.None? && !paused && tool != NoTool && balance < Cost(tool) ==> r.radio == [InsufficientFunds]
    ensures 0 <= balance ==> 0 <= r.resources
    ensures result.None? && !paused && tool != NoTool && Cost(tool) <= balance ==>
      && |r.radio| == 1
      && (tool == Airstrike ==> |r.entities| <= |es| && r.radio == [StrikeComplete])
      && (tool == SupplyDrop ==> |r.entities| == |es|)
      && (tool == SpecOps ==> |r.entities| == |es| + 4 && r.entities[..|es|] == es && r.radio == [SquadArrived])
  {
    if result.Some? || paused then Effect(es, balance, [], false)
    else if tool == NoTool then Effect(es, balance, [], true)
    else
      var pay := UseResource(balance, Cost(tool));
      if !pay.0 then Effect(es, pay.1, pay.2, true)
      else match tool
        case Airstrike => Effect(Bombard(es, click), pay.1, [StrikeComplete], true)
        case SupplyDrop =>
          var s := Supply(es, click, dice);
          Effect(s.0, pay.1, [s.1], true)
        case SpecOps => Effect(es + Squad(click, dice), pay.1, [SquadArrived], true)
  }

  /** After a paid airstrike, the survivors are exactly the entities that
      were not zombies within the blast, no civilian or soldier is lost, and
      the strike is reported. */
  lemma AirstrikeRemovesExactly(es: seq<Entity>, balance: int, click: Coord, dice: ClickDice)
    requires COST_AIRSTRIKE <= balance
    ensures var r := HandleMapClick(es, balance, None, false, Airstrike, click, dice);
      && (forall e :: e in r.entities <==> e in es && !Struck(e, click))
      && CountKind(r.entities, Civilian) == CountKind(es, Civilian)
      && CountKind(r.entities, Soldier) == CountKind(es, Soldier)
      && r.radio == [StrikeComplete]
  {
    StrikeSparesHumans(es, click);
  }

  /** After a paid supply drop, some draw of `min(4, candidates)` distinct
      uninfected civilians within SUPPLY_RADIUS is armed, each with its own
      roll's weapon, nobody else changes, and the one radio line reports
      the count or that nobody was there. */
  lemma SupplyDropArms(es: seq<Entity>, balance: int, click: Coord, dice: ClickDice)
    requires COST_SUPPLY <= balance
    ensures var r := HandleMapClick(es, balance, None, false, SupplyDrop, click, dice);
      && (exists lucky: seq<nat> :: Drawn(es, click, lucky) && ArmedExactly(es, r.entities, lucky, dice.supply))
      && (r.radio == [NoRecipients] <==> |Candidates(es, click)| == 0)
      && (0 < |Candidates(es, click)| ==> r.radio == [SuppliesDelivered(Min(4, |Candidates(es, click)|))])
  {
    var s := Supply(es, click, dice);
    assert HandleMapClick(es, balance, None, false, SupplyDrop, click, dice) == Effect(s.0, balance - COST_SUPPLY, [s.1], true);
  }

  /** After a paid spec-ops call, the list is the old one followed by the
      squad: four armed soldiers with 50 health, each with a sniper rifle
      or a rocket launcher; no civilian or zombie is added, and the arrival
      is reported. */
  lemma SpecOpsAppendsSquad(es: seq<Entity>, balance: int, click: Coord, dice: ClickDice)
    requires COST_SPEC_OPS <= balance
    ensures var r := HandleMapClick(es, balance, None, false, SpecOps, click, dice);
      && r.entities == es + Squad(click, dice)
      && CountKind(r.entities, Soldier) == CountKind(es, Soldier) + 4
      && CountKind(r.entities, Civilian) == CountKind(es, Civilian)
      && CountKind(r.entities, Zombie) == CountKind(es, Zombie)
      && (forall i :: |es| <= i < |r.entities| ==>
            r.entities[i].kind == Soldier && r.entities[i].isArmed && r.entities[i].health == 50
            && (r.entities[i].weapon == Some(Sniper) || r.entities[i].weapon == Some(Rocket)))
      && r.radio == [SquadArrived]
  {
    SquadJoins(es, click, dice);
  }
}
