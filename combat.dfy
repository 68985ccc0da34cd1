/** The integer rules of combat: the unit-type matchup table and the health
    loss a single combat inflicts. The floating-point damage formula itself is
    not modelled; a combat's rounded damage is an input here. */
module Combat {
  import opened GameTypes

  /** The outcome of the matchup table: the attacker either has the type
      advantage (a 1.5 multiplier on its attack) or fights even (1.0). */
  datatype Advantage = Even | Favoured

  /** The multiplier each outcome stands for, as an exact rational. */
  function Multiplier(a: Advantage): (m: real)
    ensures m == 1.0 || m == 1.5
    ensures (m == 1.5) <==> a == Favoured
  {
    match a
    case Even => 1.0
    case Favoured => 1.5
  }

  /** The cycle of the matchup: each of the three named types beats exactly one
      other. Every other type has no prey. */
  function Prey(attacker: UnitType): Option<UnitType> {
    match attacker
    case Cavalry => Some(Infantry)
    case Infantry => Some(Archer)
    case Archer => Some(Cavalry)
    case OtherUnitType => None
  }

  /** The matchup table as the game writes it: three favoured pairs, checked
      one after the other, and an even fight in every other case. */
  function TypeAdvantage(attacker: UnitType, defender: UnitType): (a: Advantage)
    ensures a == Favoured <==> Prey(attacker) == Some(defender)
  {
    if attacker == Cavalry && defender == Infantry then Favoured
    else if attacker == Infantry && defender == Archer then Favoured
    else if attacker == Archer && defender == Cavalry then Favoured
    else Even
  }

  /** No unit type has the advantage over its own type. */
  lemma NoSelfAdvantage(t: UnitType)
    ensures TypeAdvantage(t, t) == Even
  {
  }

  /** Advantage is never mutual: if one type is favoured against another, the
      other fights the first one even. */
  lemma AdvantageNotMutual(a: UnitType, b: UnitType)
    ensures TypeAdvantage(a, b) == Favoured ==> TypeAdvantage(b, a) == Even
  {
  }

  /** The health a defender loses to a combat whose rounded damage is
      `damage`: the damage itself, but never less than one point. */
  function Hit(damage: int): (loss: int)
    ensures loss >= 1 && loss >= damage
    ensures loss == damage || loss == 1
  {
    if damage < 1 then 1 else damage
  }

  /** Whether a unit with this much health is dead. */
  predicate Dead(health: int) {
    health <= 0
  }

  /** The defender's health after one combat: strictly lower than before, by
      exactly `Hit(damage)`. */
  function HealthAfter(health: int, damage: int): (h: int)
    ensures h < health
    ensures h <= health - damage
    ensures health - h == Hit(damage)
  {
    health - Hit(damage)
  }
}
