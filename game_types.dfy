/** The enumerations the game's core refers to but does not declare in the
    modelled files, reduced to the values the core distinguishes, and an
    Option type for fields that may not have been set yet. */
module GameTypes {

  /** The kind of a unit: the three kinds in the combat matchup table and one
      value standing for every other kind. */
  datatype UnitType = Cavalry | Infantry | Archer | OtherUnitType

  /** The terrain of a tile: the three biomes the tile code names and one value
      standing for every other biome. */
  datatype BiomeType = Forest | Mountain | Desert | OtherBiome

  /** A side in the game. The core only ever compares two factions for
      equality, so a faction is an identifier and nothing more. */
  datatype Faction = Faction(id: nat)

  datatype Option<+T> = None | Some(value: T)
}
