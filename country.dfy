/** The simpler country class of the game and its registry of all countries.
    Flag and map-region sprites and the culture colour are not modelled. */
module Countries {
  import opened Cultures

  class Country {
    const name: string
    const culture: string
    const traits: seq<string>

    constructor (name: string, culture: string)
      ensures this.name == name && this.culture == culture
      ensures traits == TraitsByCulture(culture)
    {
      this.name := name;
      this.culture := culture;
      traits := TraitsByCulture(culture);
    }
  }

  /** The countries the game starts with, as (name, culture) pairs, in order. */
  const StartingCountries: seq<(string, string)> :=
    [("Norway", "Nordic"), ("Spain", "Latin"), ("Japan", "Asian"), ("Egypt", "Arab")]

  /** The (name, culture) pair of every country of a list, in list order. */
  function Roster(countries: seq<Country>): (r: seq<(string, string)>)
    ensures |r| == |countries|
    ensures forall i | 0 <= i < |countries| :: r[i] == (countries[i].name, countries[i].culture)
  {
    if countries == [] then []
    else [(countries[0].name, countries[0].culture)] + Roster(countries[1..])
  }

  /** The object that holds the game's list of all countries (a static list
      in the game; here the one field of a registry object). */
  class Registry {
    var AllCountries: seq<Country>

    /** The list is empty before it is first initialised. */
    constructor ()
      ensures AllCountries == []
    {
      AllCountries := [];
    }

    /** Clears the list and fills it with the four starting countries. The
        result does not depend on what the list held before, so calling this
        twice leaves four countries, not eight. */
    method InitializeCountries()
      modifies this`AllCountries
      ensures Roster(AllCountries) == StartingCountries
      ensures |AllCountries| == 4
      ensures forall c | c in AllCountries :: fresh(c) && c.traits == TraitsByCulture(c.culture)
      ensures forall c | c in AllCountries :: |c.traits| == 2
    {
      AllCountries := [];
      var norway := new Country("Norway", "Nordic");
      AllCountries := AllCountries + [norway];
      var spain := new Country("Spain", "Latin");
      AllCountries := AllCountries + [spain];
      var japan := new Country("Japan", "Asian");
      AllCountries := AllCountries + [japan];
      var egypt := new Country("Egypt", "Arab");
      AllCountries := AllCountries + [egypt];
    }
  }
}
