/** Worked cases of the selection: one place and one catalog entry for
    Paris, with four different answers from the weather provider. */
module Scenarios {
  import opened Wrappers
  import opened Seqs
  import opened WeatherClient
  import opened CitySelector

  const Paris: PlaceRecord := PlaceRecord("Paris", "FR", 2000000, Point(2.35, 48.86))
  const ParisId: CityIdRecord := CityIdRecord("Paris", "FR", 1)

  lemma ParisIsSelected()
    ensures SelDataset([Paris], [ParisId], 1) == [JoinedCity(Paris, ParisId)]
    ensures IdList(SelDataset([Paris], [ParisId], 1)) == [1]
  {
  }

  /** A clear answer returns the city with its cloud cover. */
  lemma ParisClearSky()
    ensures var responses := [Response(200, "Clear", 5, Some(1700000000))];
      && WeatherOf(responses).Success?
      && WeatherOf(responses).value.respTime == 1700000000
      && FinalDataset(SelDataset([Paris], [ParisId], 1), WeatherOf(responses).value) ==
         [ClearCity("Paris", Num(5))]
  {
  }

  /** A rainy answer returns nothing. */
  lemma ParisRain()
    ensures var responses := [Response(200, "Rain", 80, Some(1700000000))];
      && WeatherOf(responses).Success?
      && FinalDataset(SelDataset([Paris], [ParisId], 1), WeatherOf(responses).value) == []
  {
  }

  /** A failed request whose body still has a `dt` returns nothing and prints
      one diagnostic. */
  lemma ParisServerError()
    ensures var responses := [Response(500, "", 0, Some(1700000000))];
      && WeatherOf(responses).Success?
      && FinalDataset(SelDataset([Paris], [ParisId], 1), WeatherOf(responses).value) == []
      && Diagnostics([1], responses) == [Diagnostic(1, 500)]
  {
  }

  /** A failed request whose body has no `dt` makes the whole call raise,
      although the diagnostic has been printed. */
  lemma ParisErrorWithoutTimestamp()
    ensures var responses := [Response(404, "", 0, None)];
      && WeatherOf(responses) == Failure(MissingTimestamp)
      && Diagnostics([1], responses) == [Diagnostic(1, 404)]
  {
  }
}
