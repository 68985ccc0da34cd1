/** The country of the game's core: its fixed description, its diplomatic
    relations with other countries and its event log. Sprites, colours, the
    GDP description string and other rendering concerns are not modelled. */
module CoreCountries {
  import opened Cultures

  datatype GovernmentType = Democracy | Monarchy | Republic | Dictatorship
  datatype EconomyType = Capitalist | Socialist | Mixed | Tribal

  /** The bounds every stored relation value is clamped to. */
  const MinRelation: int := -100
  const MaxRelation: int := 100

  /** Integer clamping to [lo, hi]: a value below `lo` becomes `lo`, a value
      above `hi` becomes `hi`, every other value is kept. */
  function Clamp(value: int, lo: int, hi: int): (r: int)
    ensures lo <= hi ==> lo <= r <= hi
    ensures lo <= value <= hi ==> r == value
    ensures value < lo ==> r == lo
    ensures lo <= hi && hi < value ==> r == hi
  {
    if value < lo then lo else if value > hi then hi else value
  }

  class Country {
    const Name: string
    const Culture: string
    const Traits: seq<string>
    const Government: GovernmentType
    const Economy: EconomyType
    var Population: int
    /** The gross domestic product, held as an exact real number. */
    var GDP: real
    /** The relation this country has towards each country it has set one for. */
    var Relations: map<Country, int>
    /** Every event recorded for this country, oldest first. */
    var EventLog: seq<string>

    /** Every stored relation lies within the clamping bounds. Only the
        constructor and SetRelation write Relations in the model, and both keep
        this. */
    ghost predicate Valid()
      reads this
    {
      forall c | c in Relations :: MinRelation <= Relations[c] <= MaxRelation
    }

    constructor (name: string, culture: string, gov: GovernmentType, eco: EconomyType,
                 population: int, gdp: real)
      ensures Name == name && Culture == culture
      ensures Government == gov && Economy == eco
      ensures Population == population && GDP == gdp
      ensures Traits == TraitsByCulture(culture)
      ensures Relations == map[] && EventLog == []
      ensures Valid()
    {
      Name := name;
      Culture := culture;
      Government := gov;
      Economy := eco;
      Population := population;
      GDP := gdp;
      Traits := TraitsByCulture(culture);
      Relations := map[];
      EventLog := [];
    }

    /** Appends one event to the log; the earlier entries stay as they were. */
    method AddEvent(evt: string)
      modifies this`EventLog
      ensures EventLog == old(EventLog) + [evt]
      ensures |EventLog| == |old(EventLog)| + 1 && EventLog[|EventLog| - 1] == evt
      ensures EventLog[..|old(EventLog)|] == old(EventLog)
    {
      EventLog := EventLog + [evt];
    }

    /** Sets this country's relation towards `other` to `value` clamped to
        [-100, 100]. Only this country's entry for `other` changes: the other
        country's own table is not touched, so relations are not mirrored. */
    method SetRelation(other: Country, value: int)
      modifies this`Relations
      ensures Relations == old(Relations)[other := Clamp(value, MinRelation, MaxRelation)]
      ensures GetRelation(other) == Clamp(value, MinRelation, MaxRelation)
      ensures forall c | c != other && old(allocated(c)) :: GetRelation(c) == old(GetRelation(c))
      ensures other != this ==> other.Relations == old(other.Relations)
      ensures old(Valid()) ==> Valid()
      // the last write wins: repeating the same call leaves the table as it is
      ensures old(other in Relations && Relations[other] == Clamp(value, MinRelation, MaxRelation))
              ==> Relations == old(Relations)
    {
      Relations := Relations[other := Clamp(value, MinRelation, MaxRelation)];
    }

    /** This country's relation towards `other`: the stored value, or 0 for a
        country it never set a relation for. Under Valid() it lies in
        [-100, 100]. */
    function GetRelation(other: Country): (r: int)
      reads this
      ensures other !in Relations ==> r == 0
      ensures other in Relations ==> r == Relations[other]
      ensures Valid() ==> MinRelation <= r <= MaxRelation
    {
      if other in Relations then Relations[other] else 0
    }
  }
}
