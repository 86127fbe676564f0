/** The raw player record the collectors produce and the analysis reads.
    For `date_of_birth` and `birthplace` a JSON `null` and a missing key are
    both `None`: the analysis reads them with `.get` and then a truth test or
    a dict test, which treat the two alike. The nationalities and the
    birthplace name are plain values: the collectors always write a list
    and a text there. */
module Records {
  import opened Wrappers

  /** The two text tokens of a `Point(longitude latitude)` literal. */
  datatype Coordinates = Coordinates(longitude: string, latitude: string)

  datatype Birthplace = Birthplace(
    name: string,
    wikidataId: Option<string>,
    coordinates: Option<Coordinates>)

  datatype Player = Player(
    wikidataId: Option<string>,
    name: string,
    description: Option<string>,
    dateOfBirth: Option<string>,
    birthplace: Option<Birthplace>,
    nationalities: seq<string>,
    imageUrl: Option<string>,
    department: Option<string>)   // only set by the 93/95 retry collection
}
