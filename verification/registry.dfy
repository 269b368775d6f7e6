/** The static registry from city name to data source. */
module Registry {

  /** The supported cities, in the order the prompt lists them. */
  const Cities: seq<string> := ["chicago", "new york", "washington"]

  /** City name to the name of its CSV file. */
  const CityData: map<string, string> :=
    map["chicago" := "chicago.csv",
        "new york" := "new_york_city.csv",
        "washington" := "washington.csv"]

  /** The city that is recorded without gender and birth year. */
  const Washington: string := "washington"

  /** The registry has exactly the supported cities as keys. */
  lemma CitiesAreKeys(city: string)
    ensures city in Cities <==> city in CityData
  {
  }
}
