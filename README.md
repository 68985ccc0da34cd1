# GOWAr game rules in Dafny

A verified model of the integer game rules of GOWAr, a turn-based hex-grid
strategy game prototype:

- **Diplomacy and event log** of the core country class
  (`Scripts/Core/Country.cs`). Each country keeps a relations table, a map
  from other countries to values clamped to [-100, 100], where a country
  with no entry counts as 0. It also keeps an append-only event log and
  takes its traits from its culture.
- **Country registry** (`Country.cs`): a simpler country class, and the
  list of all countries. Initialising the list clears it and fills it with
  Norway, Spain, Japan and Egypt.
- **Combat** (`CombatSystem.cs`): the rock-paper-scissors matchup table
  (Cavalry beats Infantry, Infantry beats Archer, Archer beats Cavalry).
  Each combat costs the defender max(1, damage) health points, and the
  defender dies when its health reaches 0 or less.
- **Hex tiles** (`HexTile.cs`): coordinates, biome, owner, the unit on the
  tile, and the defense bonus, which is 2 on a mountain and 0 elsewhere.
- **Unit movement** (`Unit.cs`): a unit walks a path tile by tile. It skips
  tiles held by its own faction and attacks the first enemy it meets. It
  enters every free tile, freeing the tile it leaves.

Modules:

- `GameTypes` declares the enumerations the core uses but does not define,
  trimmed to the values the core tells apart.
- `Cultures` holds the culture-to-traits table. Both country classes share
  it, because their two copies in the game are identical
  (`Scripts/Core/Country.cs:88-96` and `Country.cs:55-62`).
- `CoreCountries` and `Countries` model the two country classes.
- `Combat` holds the pure combat rules.
- `Board` holds the tiles, the units and combat resolution.

`ResolveCombat` sits in `Board` because the movement loop calls it and
Dafny modules cannot import each other in a cycle.

Movement is specified twice:

- `Board.Walk` is a function on a snapshot of who stands on which of the
  tiles involved.
- `Board.Unit.MoveAlongPath` runs the walk on the heap objects. It is proved
  to end in exactly the state `Walk` gives.

The lemmas about `Walk` state what the game relies on:

- a unit that stands on its tile still stands on its tile afterwards;
- friendly tiles change nothing;
- reaching an enemy-held tile stops the walk there, and a walk that stops has
  stopped at the first enemy;
- reaching a free tile moves the unit; without an enemy, the unit ends on the
  last tile that was free when reached, or where it started if it entered none.

The static list `Country.AllCountries` becomes the field `AllCountries` of a
`Registry` object. Dafny has no mutable static fields.

The fields `type` and `faction` of a unit are never assigned in the modelled
code, so they are constants set by the constructor. Likewise `name`, `culture`
and `traits` of `Countries.Country` are public fields in the game, but no
modelled code writes them after construction, so they are constants too. `type` is a Dafny
keyword, so the field is called `kind`.

## Model

| member | source | states |
|---|---|---|
| Cultures.TraitsByCulture | Scripts/Core/Country.cs:88-96 | Each of Nordic, Latin, Asian and Arab gets exactly two traits, and every other culture gets exactly `["Neutral"]`. "Neutral" is a trait exactly when the culture is unknown. |
| CoreCountries.Clamp | Scripts/Core/Country.cs:103 | The result lies in [lo, hi]. A value already in range is kept. A value below lo becomes lo, and a value above hi becomes hi. |
| CoreCountries.Country.constructor | Scripts/Core/Country.cs:21-32 | Stores the name, culture, government, economy, population and GDP as given. Traits come from the culture table. Relations and the event log start empty, so every stored relation is in range. |
| CoreCountries.Country.AddEvent | Scripts/Core/Country.cs:98-100 | The log grows by exactly one, the new event is last, and the earlier entries are unchanged. |
| CoreCountries.Country.SetRelation | Scripts/Core/Country.cs:102-104 | Afterwards GetRelation(other) is the value clamped to [-100, 100]. The relation towards every other country is unchanged, and the other country's own table is untouched (no mirroring). The in-range invariant is kept. Repeating the same call leaves the table as it is. |
| CoreCountries.Country.GetRelation | Scripts/Core/Country.cs:106-108 | Returns 0 for a country with no entry and the stored value otherwise. While every write goes through SetRelation, the result lies in [-100, 100]. |
| Countries.Country.constructor | Country.cs:14-21 | Stores name and culture unchanged, and takes traits from the culture table. |
| Countries.Registry.constructor | Country.cs:12 | The list of all countries starts empty. |
| Countries.Registry.InitializeCountries | Country.cs:66-73 | Afterwards the list holds exactly four new countries, in order Norway–Nordic, Spain–Latin, Japan–Asian, Egypt–Arab, each with two culture traits. The old contents play no part, so a second call gives four countries again, not eight. |
| Combat.TypeAdvantage | CombatSystem.cs:14-19 | The attacker is favoured exactly when the defender is its prey in the cycle Cavalry→Infantry→Archer→Cavalry. Every other pair fights even. |
| Combat.Multiplier | CombatSystem.cs:15-18 | A favoured matchup is the multiplier 1.5 and an even fight is 1.0. No other value occurs. |
| Combat.NoSelfAdvantage | CombatSystem.cs:14-18 | A unit type never has the advantage over its own type. |
| Combat.AdvantageNotMutual | CombatSystem.cs:15-17 | If A is favoured against B, then B fights A even. |
| Combat.Hit | CombatSystem.cs:7 | The health lost is at least 1, at least the damage, and equal to the damage or to 1. |
| Combat.HealthAfter | CombatSystem.cs:7 | The defender's new health is strictly lower than before, by exactly the hit, and at most its old health minus the damage. |
| Board.ResolveCombat | CombatSystem.cs:2-11 | The defender's health drops by max(1, damage). The death branch is taken exactly when the new health is ≤ 0. The attacker's attack and defense are unchanged, and so is its health unless attacker and defender are the same unit. |
| Board.DefenseBonus | HexTile.cs:12 | The bonus is 2 exactly on a mountain and 0 on every other biome. |
| Board.HexTile.constructor | HexTile.cs:1-6 | A tile before Init: coordinates and bonus are 0, with no owner and no unit. |
| Board.HexTile.Init | HexTile.cs:8-14 | Stores x, y and biome as given and sets the bonus to DefenseBonus(biome), which is 0 or 2. The owner and the unit on the tile are unchanged. Repeating the call with the same arguments changes nothing. |
| Board.Step | Unit.cs:27-29 | Entering a tile moves the walker onto it and the tile then holds the walker. The tile left becomes free. No other tile changes, and the set of tiles tracked stays the same. |
| Board.Walk | Unit.cs:16-32 | The walk keeps the set of tiles tracked and ends on one of them. A walk that meets an enemy stops at a path index at or after where it started. |
| Board.WalkKeepsPlacement | Unit.cs:27-29 | If the unit stands on its tile at the start, it still does at the end. A walk whose final snapshot differs from the start leaves the unit standing on its final tile, whatever held before. |
| Board.WalkSkipsFriends | Unit.cs:18-23 | A path held entirely by the walker's own faction leaves every tile and the walker's position unchanged. |
| Board.WalkEngaged | Unit.cs:19-22 | When an enemy is met, that enemy holds the path tile at the stopping index and belongs to another faction. Everything before that index is walked as a path of its own without a fight. The walker ends on its starting tile or on a tile before the enemy's, never on a later one. |
| Board.WalkFinal | Unit.cs:17-31 | A walk that meets no enemy either changes nothing, or ends with the walker on the last path tile that was free when reached, and nothing after that tile changes anything. |
| Board.WalkPrefix | Unit.cs:17 | The path is taken in order, each tile once: walking it equals walking a fight-free prefix and then the rest from the state the prefix left. |
| Board.WalkMeetsEnemy | Unit.cs:18-22 | If the tiles before index k are walked without a fight and an enemy then holds path tile k, the walk engages exactly that enemy at index k and stops there. |
| Board.WalkEntersFree | Unit.cs:18-29 | If path tile k is free when the walker reaches it and no enemy is met, the walk ends with the walker on the last tile it entered, which is tile k or a later one: the final state is the result of entering path tile j for some j ≥ k. A path that returns to the start tile can end in the starting state. |
| Board.Unit.constructor | Unit.cs:4-10 | Kind, faction and tile are as given. Health starts at 100, attack at 10, defense at 5 and movement range at 3. |
| Board.Unit.Enter | Unit.cs:27-29 | The old tile's unit becomes null and the new tile's unit becomes this unit, which also becomes the current tile. The frame names only these two tiles. |
| Board.Unit.MoveAlongPath | Unit.cs:16-32 | The current tile and every touched tile's unit end as Walk says. When an enemy is met, it alone loses max(1, damage) health; otherwise no unit's health changes. The walker's health is unchanged, and if it stood on its tile at the start it still does. |

## Left out

- The A* pathfinder behind `Unit.MoveTo` is not part of this model. The path is an input to `MoveAlongPath`. `MoveTo` itself only starts the coroutine and is left out with it.
- The `transform.position` updates in `Unit.cs` are presentation only. The coroutine's pauses (`WaitForSeconds`, `yield`) let other coroutines run between steps: other units moving, or a second `MoveTo` of the same unit. The model excludes that interleaving. The walk runs to completion in one call.
- Board.ResolveCombat: the damage is an integer argument. The floating-point formula (terrain bonus × 0.1, type multiplier, `Mathf.RoundToInt`, `CombatSystem.cs:3-5`) is not modelled, so `TypeAdvantage` and `defenseBonus` do not feed into the damage here.
- Board.ResolveCombat: the death branch's engine effects, `Object.Destroy` and the attacker's `MoveTo` back into the pathfinder, are left out. The result flag records that the branch is taken.
- Board.ResolveCombat: does not model 32-bit wrap-around of `health`. Reaching it would take more than two billion points of damage.
- Board.Unit.MoveAlongPath: the path, its entries and the unit's current tile are non-null references. The game would throw a null-reference exception instead. Unity's "destroyed object compares equal to null" rule is not modelled.
- CoreCountries.Country.SetRelation: `other` is a non-null reference. The game's dictionary throws an `ArgumentNullException` for a null key.
- CoreCountries.Country.GetRelation: `other` is a non-null reference. The game's `ContainsKey` throws an `ArgumentNullException` for a null key.
- Cultures.TraitsByCulture: a Dafny string cannot be null. In the game a null culture falls to the default case and gets `["Neutral"]`, the same as any unknown culture.
- Board.Unit.MoveAlongPath: when an enemy is met, the combat uses one damage value supplied by the caller.
- Board.HexTile.constructor: which value is the zero value of `BiomeType` is not in the modelled files. The model takes `Forest`.
- Board.HexTile.constructor: `Faction` is not declared in the modelled files. The model treats `owner` as unset (`None`) before it is first assigned, as a reference type would be. If `Faction` is an enum, the game's default owner is instead its first value.
- Sprite and texture generation, `DrawCircle`, and every colour lookup are Unity rendering and float colour values. This covers both country files, `HexTile.GetBiomeColor` and the `SpriteRenderer` call in `Init`.
- `GetDescription` (`Scripts/Core/Country.cs:110-112`) is only localised string formatting of the country's fields.
- `HexTile.OnMouseDown` is UI input.
- `ProceduralAudio.cs` is float audio synthesis.
- `Gamemanager.cs` is scene spawning through the engine, and the `Unit.Init` it calls is not part of this model.
- CoreCountries.Country.constructor: the float `GDP` is held as an exact real number. It is only stored, so no rounding arises.
- Traits are a sequence value rather than the shared mutable array the game hands out.
