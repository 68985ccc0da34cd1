/** The culture-to-traits table. Both country classes of the game carry the
    same table, so it is defined here once and imported by both. */
module Cultures {

  /** The cultures the table knows; every other culture string is "neutral". */
  const KnownCultures: set<string> := {"Nordic", "Latin", "Asian", "Arab"}

  /** The traits a country of the given culture starts with: two traits for
      each known culture, the single trait "Neutral" for any other string. */
  function TraitsByCulture(culture: string): (traits: seq<string>)
    ensures culture in KnownCultures ==> |traits| == 2
    ensures culture !in KnownCultures <==> traits == ["Neutral"]
    ensures "Neutral" in traits <==> culture !in KnownCultures
  {
    match culture
    case "Nordic" => ["Resilient", "Explorer"]
    case "Latin" => ["Passionate", "Strategist"]
    case "Asian" => ["Disciplined", "Innovative"]
    case "Arab" => ["Trader", "Adaptable"]
    case _ => ["Neutral"]
  }
}
