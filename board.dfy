/** The hex tiles of the board, the units standing on them, combat between
    two units, and a unit's walk along a path found for it.

    The walk is specified by Walk, a function on a snapshot of the occupancy
    of the tiles involved; Unit.MoveAlongPath runs the walk on the heap and is
    proved to end in the state Walk describes. The lemmas after Walk state
    what the walk promises: the unit stays placed on its tile, friendly tiles
    are skipped, the walk stops at the first enemy, and the unit ends on the
    last tile it could enter. */
module Board {
  import opened GameTypes
  import Combat

  /** The defense bonus a tile of this biome gives its defender: 2 on a
      mountain, 0 everywhere else. */
  function DefenseBonus(biome: BiomeType): (bonus: int)
    ensures bonus == 0 || bonus == 2
    ensures bonus == 2 <==> biome == Mountain
  {
    if biome == Mountain then 2 else 0
  }

  class HexTile {
    var x: int
    var y: int
    var biome: BiomeType
    var owner: Option<Faction>
    var currentUnit: Unit?
    var defenseBonus: int

    /** A tile component before Init: every field at its default value. */
    constructor ()
      ensures x == 0 && y == 0 && biome == Forest && defenseBonus == 0
      ensures owner == None && currentUnit == null
    {
      x, y, biome, defenseBonus := 0, 0, Forest, 0;
      owner, currentUnit := None, null;
    }

    /** Stores the tile's coordinates and biome and derives its defense bonus.
        The owner and the unit on the tile are left as they were, and a second
        call with the same arguments changes nothing. */
    method Init(x: int, y: int, biome: BiomeType)
      modifies this`x, this`y, this`biome, this`defenseBonus
      ensures this.x == x && this.y == y && this.biome == biome
      ensures defenseBonus == DefenseBonus(biome)
      ensures defenseBonus == 0 || defenseBonus == 2
      ensures owner == old(owner) && currentUnit == old(currentUnit)
      ensures old(this.x == x && this.y == y && this.biome == biome && defenseBonus == DefenseBonus(biome))
              ==> unchanged(this)
    {
      this.x := x;
      this.y := y;
      this.biome := biome;
      defenseBonus := DefenseBonus(biome);
    }
  }

  /** Who stands where, restricted to the tiles a walk can touch: the tile the
      walking unit is on and, for each tile, the unit on it (null when free). */
  datatype Snapshot = Snapshot(at: HexTile, occ: map<HexTile, Unit?>)

  /** How a walk ends: having gone through the whole path, or facing an enemy
      on the path tile at `index`. */
  datatype WalkEnd =
    | Finished(last: Snapshot)
    | Engaged(last: Snapshot, enemy: Unit, index: nat)

  /** The snapshot records the walker's tile and every tile of the path. */
  predicate Covers(s: Snapshot, path: seq<HexTile>) {
    s.at in s.occ && forall t | t in path :: t in s.occ
  }

  /** Unit `me` enters the free tile `t`: the tile it leaves becomes free and
      `t` holds `me`. No other tile changes. */
  function Step(me: Unit, s: Snapshot, t: HexTile): (s': Snapshot)
    requires s.at in s.occ && t in s.occ
    ensures s'.at == t && s'.occ.Keys == s.occ.Keys
    ensures s'.occ[t] == me
    ensures t != s.at ==> s'.occ[s.at] == null
    ensures forall k | k in s.occ && k != s.at && k != t :: s'.occ[k] == s.occ[k]
  {
    Snapshot(t, s.occ[s.at := null][t := me])
  }

  /** Unit `me` walks `path[i..]` from snapshot `s`, one tile after the other:
      it skips a tile held by a unit of its own faction, enters a free tile,
      and stops facing the first unit of another faction. */
  function Walk(me: Unit, s: Snapshot, path: seq<HexTile>, i: nat): (r: WalkEnd)
    requires i <= |path| && Covers(s, path)
    ensures r.last.occ.Keys == s.occ.Keys && r.last.at in s.occ
    ensures r.Engaged? ==> i <= r.index < |path|
    decreases |path| - i
  {
    if i == |path| then Finished(s)
    else
      var o := s.occ[path[i]];
      if o == null then Walk(me, Step(me, s, path[i]), path, i + 1)
      else if o.faction != me.faction then Engaged(s, o, i)
      else Walk(me, s, path, i + 1)
  }

  /** If the walker stands on its own tile at the start, it still does at the
      end; and a walk that changes anything leaves it standing on its tile. */
  lemma {:induction false} WalkKeepsPlacement(me: Unit, s: Snapshot, path: seq<HexTile>, i: nat)
    requires i <= |path| && Covers(s, path)
    ensures var l := Walk(me, s, path, i).last;
            (s.occ[s.at] == me || l != s) ==> l.occ[l.at] == me
    decreases |path| - i
  {
    if i < |path| {
      var o := s.occ[path[i]];
      if o == null {
        WalkKeepsPlacement(me, Step(me, s, path[i]), path, i + 1);
      } else if o.faction == me.faction {
        WalkKeepsPlacement(me, s, path, i + 1);
      }
    }
  }

  /** A path whose every tile is held by a friendly unit changes nothing. */
  lemma {:induction false} WalkSkipsFriends(me: Unit, s: Snapshot, path: seq<HexTile>, i: nat)
    requires i <= |path| && Covers(s, path)
    requires forall k | i <= k < |path| :: s.occ[path[k]] != null && s.occ[path[k]].faction == me.faction
    ensures Walk(me, s, path, i) == Finished(s)
    decreases |path| - i
  {
    if i < |path| {
      WalkSkipsFriends(me, s, path, i + 1);
    }
  }

  /** A walk that meets an enemy stops at the first enemy-held tile: everything
      before it is walked as a path of its own, the enemy holds that tile, and
      the walker is on its starting tile or on a tile before the enemy's. */
  lemma {:induction false} WalkEngaged(me: Unit, s: Snapshot, path: seq<HexTile>, i: nat)
    requires i <= |path| && Covers(s, path)
    requires Walk(me, s, path, i).Engaged?
    ensures var r := Walk(me, s, path, i);
            && r.last.occ[path[r.index]] == r.enemy
            && r.enemy.faction != me.faction
            && Walk(me, s, path[..r.index], i) == Finished(r.last)
            && (r.last.at == s.at || r.last.at in path[i..r.index])
    decreases |path| - i
  {
    var o := s.occ[path[i]];
    if o == null {
      var s1 := Step(me, s, path[i]);
      WalkEngaged(me, s1, path, i + 1);
      var k := Walk(me, s, path, i).index;
      assert path[..k][i] == path[i];
      assert path[i] in path[i..k];
      assert path[i + 1..k] == path[i..k][1..];
    } else if o.faction == me.faction {
      WalkEngaged(me, s, path, i + 1);
      var k := Walk(me, s, path, i).index;
      assert path[..k][i] == path[i];
      assert path[i + 1..k] == path[i..k][1..];
    }
  }

  /** `l` is the outcome of entering the free tile `path[j]` after walking
      `path[i..j]` without meeting an enemy, and nothing after `path[j]`
      changes it. */
  ghost predicate LastEntered(me: Unit, s: Snapshot, path: seq<HexTile>, i: nat, j: nat, l: Snapshot)
    requires Covers(s, path) && i <= j < |path|
  {
    var w := Walk(me, s, path[..j], i);
    && w.Finished?
    && w.last.occ[path[j]] == null
    && l == Step(me, w.last, path[j])
    && Walk(me, l, path, j + 1) == Finished(l)
  }

  /** A walk that meets no enemy ends unchanged, or on the last path tile that
      was free when the walker reached it. */
  lemma {:induction false} WalkFinal(me: Unit, s: Snapshot, path: seq<HexTile>, i: nat)
    requires i <= |path| && Covers(s, path)
    requires Walk(me, s, path, i).Finished?
    ensures var l := Walk(me, s, path, i).last;
            l == s || exists j | i <= j < |path| :: LastEntered(me, s, path, i, j, l)
    decreases |path| - i
  {
    if i < |path| {
      var l := Walk(me, s, path, i).last;
      var o := s.occ[path[i]];
      var s1 := if o == null then Step(me, s, path[i]) else s;
      WalkFinal(me, s1, path, i + 1);
      if o == null && l == s1 {
        assert Walk(me, s, path[..i], i) == Finished(s);
        assert LastEntered(me, s, path, i, i, l);
      } else if l != s {
        var j :| i + 1 <= j < |path| && LastEntered(me, s1, path, i + 1, j, l);
        assert path[..j][i] == path[i];
        assert Walk(me, s, path[..j], i) == Walk(me, s1, path[..j], i + 1);
        assert LastEntered(me, s, path, i, j, l);
      }
    }
  }

  /** Walking a path is walking a prefix of it and then the rest from where
      the prefix left off, as long as the prefix met no enemy: the tiles are
      taken in path order, each once. */
  lemma {:induction false} WalkPrefix(me: Unit, s: Snapshot, path: seq<HexTile>, i: nat, k: nat)
    requires i <= k <= |path| && Covers(s, path)
    requires Walk(me, s, path[..k], i).Finished?
    ensures Walk(me, s, path, i) == Walk(me, Walk(me, s, path[..k], i).last, path, k)
    decreases k - i
  {
    if i < k {
      assert path[..k][i] == path[i];
      var o := s.occ[path[i]];
      if o == null {
        WalkPrefix(me, Step(me, s, path[i]), path, i + 1, k);
      } else if o.faction == me.faction {
        WalkPrefix(me, s, path, i + 1, k);
      }
    }
  }

  /** Reaching a tile held by an enemy stops the walk there: if the tiles
      before `path[k]` are walked without a fight and an enemy then holds
      `path[k]`, the walk engages that enemy at index `k`. */
  lemma WalkMeetsEnemy(me: Unit, s: Snapshot, path: seq<HexTile>, i: nat, k: nat)
    requires i <= k < |path| && Covers(s, path)
    requires Walk(me, s, path[..k], i).Finished?
    requires var l := Walk(me, s, path[..k], i).last;
             l.occ[path[k]] != null && l.occ[path[k]].faction != me.faction
    ensures var l := Walk(me, s, path[..k], i).last;
            Walk(me, s, path, i) == Engaged(l, l.occ[path[k]], k)
  {
    WalkPrefix(me, s, path, i, k);
  }

  /** Reaching a free tile moves the walker: if `path[k]` is free when the
      walker gets there and no enemy is met, the walk ends with the walker on
      the last tile it entered, `path[k]` or a later one. */
  lemma WalkEntersFree(me: Unit, s: Snapshot, path: seq<HexTile>, i: nat, k: nat)
    requires i <= k < |path| && Covers(s, path)
    requires Walk(me, s, path[..k], i).Finished?
    requires Walk(me, s, path[..k], i).last.occ[path[k]] == null
    requires Walk(me, s, path, i).Finished?
    ensures var l := Walk(me, s, path, i).last;
            exists j | k <= j < |path| :: LastEntered(me, s, path, i, j, l)
  {
    var w := Walk(me, s, path[..k], i).last;
    var l := Walk(me, s, path, i).last;
    WalkPrefix(me, s, path, i, k);
    var s1 := Step(me, w, path[k]);
    WalkFinal(me, s1, path, k + 1);
    if l == s1 {
      assert LastEntered(me, s, path, i, k, l);
    } else {
      var j :| k + 1 <= j < |path| && LastEntered(me, s1, path, k + 1, j, l);
      assert path[..j][..k] == path[..k];
      WalkPrefix(me, s, path[..j], i, k);
      assert path[..j][k] == path[k];
      assert Walk(me, s, path[..j], i) == Walk(me, s1, path[..j], k + 1);
      assert LastEntered(me, s, path, i, j, l);
    }
  }

  /** One combat: the defender loses max(1, damage) health points, and the
      result says whether the death branch is taken, that is, whether the
      defender's health is now at most 0. Nothing of the attacker changes. */
  method ResolveCombat(attacker: Unit, defender: Unit, damage: int) returns (killed: bool)
    modifies defender`health
    ensures defender.health == Combat.HealthAfter(old(defender.health), damage)
    ensures killed <==> Combat.Dead(defender.health)
    ensures attacker != defender ==> attacker.health == old(attacker.health)
    ensures attacker.attack == old(attacker.attack) && attacker.defense == old(attacker.defense)
  {
    defender.health := defender.health - Combat.Hit(damage);
    killed := defender.health <= 0;
  }

  class Unit {
    const kind: UnitType
    const faction: Faction
    var currentTile: HexTile
    var health: int
    var attack: int
    var defense: int
    var movementRange: int

    /** A unit of the given kind and faction with the game's default
        statistics, whose current tile is `tile`. */
    constructor (kind: UnitType, faction: Faction, tile: HexTile)
      ensures this.kind == kind && this.faction == faction && currentTile == tile
      ensures health == 100 && attack == 10 && defense == 5 && movementRange == 3
    {
      this.kind := kind;
      this.faction := faction;
      currentTile := tile;
      health, attack, defense, movementRange := 100, 10, 5, 3;
    }

    /** The unit's tile has it as its current unit. */
    ghost predicate Placed()
      reads this, currentTile
    {
      currentTile.currentUnit == this
    }

    /** The tiles a walk along `path` can touch. */
    ghost function Tiles(path: seq<HexTile>): set<HexTile>
      reads this
    {
      (set t | t in path) + {currentTile}
    }

    /** The units standing on the tiles of `path`. */
    ghost function Occupants(path: seq<HexTile>): set<Unit>
      reads set t | t in path
    {
      set t | t in path && t.currentUnit != null :: t.currentUnit
    }

    /** The present occupancy of `tiles` as a snapshot. */
    ghost function View(tiles: set<HexTile>): Snapshot
      reads this, tiles
    {
      Snapshot(currentTile, map t | t in tiles :: t.currentUnit)
    }

    /** How a walk of this unit along `path` from the present state ends. */
    ghost function Plan(path: seq<HexTile>): WalkEnd
      reads this, Tiles(path)
    {
      Walk(this, View(Tiles(path)), path, 0)
    }

    /** Moves the unit from its tile onto the free tile `tile`: the tile it
        leaves becomes free, and `tile` holds the unit, which is what Step
        says of the snapshot of `tiles`. */
    method Enter(tile: HexTile, ghost tiles: set<HexTile>)
      requires currentTile in tiles && tile in tiles && tile.currentUnit == null
      modifies this`currentTile, currentTile`currentUnit, tile`currentUnit
      ensures View(tiles) == Step(this, old(View(tiles)), tile)
      ensures forall t | t in tiles ::
                t.currentUnit == null || t.currentUnit == this || t.currentUnit == old(t.currentUnit)
    {
      ghost var before := View(tiles);
      currentTile.currentUnit := null;
      currentTile := tile;
      tile.currentUnit := this;
      assert View(tiles).occ == before.occ[before.at := null][tile := this];
    }

    /** Walks the path tile by tile, as Walk describes: the tiles end up held
        as Walk's final snapshot says and the unit stands on its final tile;
        if an enemy is met, that enemy is hit once and no other unit's health
        changes. */
    method MoveAlongPath(path: seq<HexTile>, damage: int)
      modifies this`currentTile, Tiles(path)`currentUnit, Occupants(path)`health
      ensures currentTile == old(Plan(path)).last.at
      ensures forall t | t in old(Tiles(path)) :: t.currentUnit == old(Plan(path)).last.occ[t]
      ensures match old(Plan(path))
              case Finished(_) => forall u | u in old(Occupants(path)) :: u.health == old(u.health)
              case Engaged(_, e, _) =>
                && e.health == Combat.HealthAfter(old(e.health), damage)
                && forall u | u in old(Occupants(path)) && u != e :: u.health == old(u.health)
      ensures health == old(health)
      ensures old(Placed()) ==> Placed()
    {
      ghost var tiles := Tiles(path);
      ghost var start := View(tiles);
      ghost var occupants := Occupants(path);
      WalkKeepsPlacement(this, start, path, 0);
      var i := 0;
      while i < |path|
        invariant 0 <= i <= |path|
        invariant currentTile in tiles
        invariant Covers(View(tiles), path)
        invariant Walk(this, start, path, 0) == Walk(this, View(tiles), path, i)
        invariant forall t | t in tiles :: t.currentUnit == null || t.currentUnit == this || t.currentUnit == old(t.currentUnit)
        invariant forall u | u in occupants :: u.health == old(u.health)
        invariant health == old(health)
      {
        var tile := path[i];
        if tile.currentUnit != null {
          if tile.currentUnit.faction != faction {
            var killed := ResolveCombat(this, tile.currentUnit, damage);
            return;
          }
          i := i + 1;
          continue;
        }
        Enter(tile, tiles);
        i := i + 1;
      }
    }
  }
}
