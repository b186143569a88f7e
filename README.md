# Clear-sky city selection, modelled in Dafny

`cities_weather.py` picks the most populated cities of a populated-places
table, looks up each one's ID in a weather provider's city catalog, asks the
provider for the current weather of each city, and returns the cities that
report a clear sky together with their cloud cover. The model covers its two
functions with logic:

- `get_weather` (module `WeatherClient`, file `weather_client.dfy`): a loop
  that sends one request per city ID and appends one entry per answer to
  three parallel lists. It is modelled as the method `GetWeather`, with a
  `while` loop and invariants. The method is proved against the specification
  function `WeatherOf`. The HTTP answers are an input: `responses[i]` is the
  answer to the request for `ids[i]`. An answer holds its status code and the
  body fields the code reads: `weather[0].main`, `clouds.all` and `dt`. The
  `dt` field is optional, because an error body need not carry it.
- `select_cities` (module `CitySelector`, file `city_selector.dfy`): a chain
  of data-frame steps. Each step is a function: `SortByPop`, `Merge`, a
  `Filter` on `CountryMatches`, `DropDuplicates`, `Take`, `WithWeather` and the
  clear-sky `Filter`. The method `SelectCities` composes them and calls
  `GetWeather`. The two tables are inputs.

`Seqs` (`seqs.dfy`) holds the generic row filter, column map and subsequence
relation. `Wrappers` (`wrappers.dfy`) holds `Option` (a NaN cell) and `Result`.
`Scenarios` (`scenarios.dfy`) works through single-city cases.

Behaviour that the model follows from the code:

- The timestamp returned by `get_weather` is the `dt` of the *last body
  processed*, whatever its status. It is not the timestamp of the last
  successful answer.
- If the last answer's body has no `dt`, `resp_j['dt']` raises, and so does
  the whole of `select_cities`. An empty ID list also makes it raise, since
  `resp_j` is never bound. The model returns `Failure(MissingTimestamp)` or
  `Failure(NoResponse)` in these cases. The diagnostics for failed requests
  have been printed before that, so `log` is returned in every case.
- `weath_desc` is filled from `weather[0].main`, not from the description
  field. The model does the same, and `WeatherOf`'s contract states that the
  two columns are equal.
- `clear_dataset[0:selection]` is a Python slice. A negative `selection`
  counts from the end. `SliceStop` models those bounds.
- `fillna('No data')` turns an absent text cell into `"No data"`. An absent
  cloud cover becomes the text cell `Text("No data")`.
- Rows of the inner join follow the left table's order. For one left row,
  they follow the catalog's order. This is the documented order of an inner
  merge.

## Model

| member | source | states |
|---|---|---|
| `WeatherClient.GetWeather` | cities_weather.py:70-109 | the loop returns three columns as long as the ID list; position i holds `weather[0].main` (twice) and `clouds.all` of the i-th answer when its status is 200, and the absent marker in all three otherwise; the timestamp is the `dt` of the last body; the call raises when the list is empty or the last body lacks `dt`; `log` holds one diagnostic per failed request; the result equals `WeatherOf(responses)` |
| `WeatherClient.WeatherOf` | cities_weather.py:88-109 | the call returns exactly when at least one request was made and the last body has `dt`; the timestamp is then that `dt`, whether or not the last request succeeded; an empty list raises `NoResponse`, a last body without `dt` raises `MissingTimestamp`; all three columns have one entry per answer; a non-200 answer leaves the absent marker in all three; a 200 answer puts `weather[0].main` in both text columns and `clouds.all` in the cloud column |
| `WeatherClient.DiagnosticsReportFailures` | cities_weather.py:95-104 | the printed diagnostics are exactly the (city ID, status) pairs of the non-200 answers, in request order (the per-request pairs filtered by status), one per failed request; the loop does not stop at a failure |
| `WeatherClient.Diagnostics` | cities_weather.py:102-104 | the printed lines of the loop; `DiagnosticsReportFailures` states that they are the (city ID, status) pairs of the non-200 answers in request order |
| `WeatherClient.LastTimestamp` | cities_weather.py:109 | `resp_j['dt']` after the loop: the `dt` of the last body, `NoResponse` when no request was made, `MissingTimestamp` when that body has no `dt`; stated through `WeatherOf` |
| `CitySelector.SortByPop` | cities_weather.py:129 | the result is in descending `pop_max` order and is a permutation of the input |
| `CitySelector.InsertByPopSorted` | cities_weather.py:129 | inserting a record into a population-descending sequence keeps it descending |
| `CitySelector.FullDataset` | cities_weather.py:129-133 | `fulldataset`: the population-sorted places joined with the catalog; its rows and order are stated by `Merge`, `MergeKeepsPopOrder` and `CountryCheckedRows` |
| `CitySelector.Matches` | cities_weather.py:132-133 | the join rows for one place are exactly the pairs of that place with a catalog entry whose `name` equals its `nameascii` |
| `CitySelector.Merge` | cities_weather.py:132-133 | joined rows are exactly the (place, catalog entry) pairs with `nameascii == name`, in both directions |
| `CitySelector.MergeKeepsPopOrder` | cities_weather.py:129-133 | joining a population-sorted table keeps the rows in descending population order |
| `CitySelector.CountryCheckedRows` | cities_weather.py:129-137 | a pair survives the join and the country mask exactly when the place and the catalog entry share name and country code |
| `CitySelector.CountryCheckedPopOrder` | cities_weather.py:129-137 | the rows left after the country mask are still in descending population order |
| `CitySelector.CountryChecked` | cities_weather.py:137 | `full_dataset`: the joined rows whose `iso_a2` equals `country`; stated by `CountryCheckedRows` and `CountryCheckedPopOrder` |
| `CitySelector.DedupAfter` | cities_weather.py:139-140 | deduplication keeps only input rows whose names are new, and the names it keeps are pairwise distinct |
| `CitySelector.DedupKeepsFirst` | cities_weather.py:139-140 | a row is kept exactly when its name was not seen before and it is the first row with that name (`keep='first'`) |
| `CitySelector.DedupIsSubsequence` | cities_weather.py:139-140 | deduplication keeps rows in their original order |
| `CitySelector.FirstWithNameHasMaxPop` | cities_weather.py:129-140 | in a population-sorted table, the first row with a name has the largest `pop_max` among the rows with that name |
| `CitySelector.DropDuplicates` | cities_weather.py:139-140 | the result is exactly the input restricted, in order, to the indices that are first with their name (`FirstOccurrences`); so a row is kept exactly when it is the first row with its name, the kept rows keep their order, and their names are pairwise distinct (proved by `DedupKeepsFirst`, `DedupIsSubsequence` and `DedupIsFirstOccurrences`) |
| `CitySelector.FirstOccurrencesFront` | cities_weather.py:139-140 | the index-based reading of `keep='first'` can be unfolded from the front: the first row is kept exactly when its name is new, and its name then counts as seen for the remaining rows |
| `CitySelector.DedupIsFirstOccurrences` | cities_weather.py:139-140 | deduplication from the front yields the same rows, in the same order, as the index-based definition, even when identical rows repeat |
| `CitySelector.ClearDataset` | cities_weather.py:139-140 | `clear_dataset`: `DropDuplicates` of the country-checked rows; stated by `DropDuplicates` and `SelDatasetKeepsMostPopulated` |
| `CitySelector.Take` | cities_weather.py:143 | the selection is a prefix of the deduplicated rows; for `selection >= 0` its length is `min(selection, rows)`; a negative `selection` drops that many rows from the end |
| `CitySelector.SelDataset` | cities_weather.py:143 | `sel_dataset`: `Take` of the deduplicated rows; stated by `SelDatasetRows`, `SelDatasetIsMostPopulated`, `SelDatasetKeepsMostPopulated` and `SelDatasetMissesOnlyWhenFull` |
| `CitySelector.SelDatasetRows` | cities_weather.py:129-143 | every selected row pairs an input place with an input catalog entry of the same name and the same country code; selected names are pairwise distinct; rows are in descending population order |
| `CitySelector.SelDatasetIsMostPopulated` | cities_weather.py:129-143 | the selection holds the most populated qualifying cities, as the module documentation (lines 37-39) says of `selection`: a place that qualifies (its name and country match a catalog entry) but whose name was not selected has a `pop_max` no larger than that of any selected row |
| `CitySelector.SelDatasetKeepsMostPopulated` | cities_weather.py:129-143 | no qualifying place with a selected row's name has a larger `pop_max` than that row |
| `CitySelector.SelDatasetMissesOnlyWhenFull` | cities_weather.py:129-143 | a qualifying name is absent from the selection only when the selection already holds `selection` rows |
| `CitySelector.IdList` | cities_weather.py:146 | the ID list has one entry per selected row, and entry i is the catalog `id` of row i |
| `CitySelector.WithWeather` | cities_weather.py:158-162 | row i keeps the i-th selected row; `fillna` fills only absent cells: an absent cell of any of the three columns holds "No data", and every present cell is kept (any main category and any description as given, a cloud cover as a number); so `weather` is "Clear" exactly when the i-th main category was |
| `CitySelector.FinalDataset` | cities_weather.py:171-177 | the returned rows are a subsequence of the projected selection, so they keep the selection's order and are no more than the selected rows; which rows they are is stated by `FinalDatasetRows` |
| `CitySelector.FinalDatasetRows` | cities_weather.py:158-177 | a (name, clouds) row is returned exactly when some selected row got main category `"Clear"`; it carries that row's name and filled cloud cover; an absent category became `"No data"` and never selects a row |
| `CitySelector.FinalDatasetDistinct` | cities_weather.py:139-177 | if the selected names are distinct, so are the returned names |
| `CitySelector.FinalDatasetFromResponses` | cities_weather.py:95-177 | a selected city is returned exactly when its request got status 200 with main `"Clear"`, and its cloud cover is then that answer's `clouds.all`, never the sentinel |
| `CitySelector.SelectCities` | cities_weather.py:112-177 | the whole selection: prints the diagnostics of its weather call; raises exactly when the weather call raises, with the same error; otherwise returns `FinalDataset` of the selection and the weather columns (so rows in selection order), which is at most `selection` rows with distinct names, namely the selected cities whose answer was a 200 with main `"Clear"`, each with its `clouds.all` |
| `Scenarios.ParisIsSelected` | cities_weather.py:129-146 | one place "Paris"/FR and one catalog entry "Paris"/FR/1 give a one-row selection with ID list `[1]` |
| `Scenarios.ParisClearSky` | cities_weather.py:153-177 | a 200 answer with main "Clear" and `clouds.all` 5 returns exactly the row ("Paris", 5) |
| `Scenarios.ParisRain` | cities_weather.py:153-177 | a 200 answer with main "Rain" returns no row |
| `Scenarios.ParisServerError` | cities_weather.py:95-177 | a 500 answer whose body has `dt` returns no row and prints one diagnostic |
| `Scenarios.ParisErrorWithoutTimestamp` | cities_weather.py:102-109 | a 404 answer whose body lacks `dt` makes the call raise after printing its diagnostic |

## Left out

- `plot_on_map` (cities_weather.py:55-67) and its two calls (cities_weather.py:167, 175): map rendering through plotting libraries. Both calls run before the return, so a failure inside them raises out of `select_cities`, for example a missing base map or `gpd.datasets.get_path`, which newer geopandas releases no longer provide. The model does not capture such a failure. It also does not capture that `plt.show()` blocks until the display is closed.
- Reading the two input files (cities_weather.py:124-125): I/O. The tables are parameters.
- `requests.get` and `response.json()` (cities_weather.py:91-93): network I/O. The answers are a parameter. Transport faults and bodies that are not JSON are not modelled, and both would raise.
- A 200 body without `weather[0]` or `clouds.all` is not modelled; such a body would raise. The model assumes that a successful answer carries both.
- The diagnostic's `response.text` is not modelled. It is console output, and the log keeps only the city ID and the status code.
- Building the URL strings (cities_weather.py:149-150), the `strftime` formatting of the timestamp (cities_weather.py:155-156) and the plot titles: string formatting with no logic of their own.
- NaN float semantics: absence is `Option`. The source's cloud column becomes floating point once it holds NaN; the model keeps whole percentages.
- NaN in the input tables (for example a missing `pop_max` or `iso_a2`) is not modelled. Every input cell is present.
- The point geometry is carried as an opaque field.
- Merge: models the documented order of an inner merge, in which rows follow the left table and, within one left row, the catalog. pandas releases before 2.2 group the result by key instead, in the order of each key's first appearance on the left. Under that order, the joined rows need not be in descending population order, so `MergeKeepsPopOrder`, `CountryCheckedPopOrder`, `SelDatasetIsMostPopulated` and the population-order clause of `SelDatasetRows` hold only for the documented order. Within one name, both orders keep the left table's order, so `SelDatasetKeepsMostPopulated` does not depend on which order applies. Example: with places [X/US 10M, Y/FR 5M, X/FR 1M] and catalog [X/FR, Y/FR], `selection = 1` selects Y in the model but X under the grouped order.
- SortByPop: fixes one order among places of equal population (input order), which the source's sort does not promise; every lemma uses only "descending and a permutation".
- The in-place `.loc` column assignments and `fillna(inplace=True)` (cities_weather.py:158-162) are modelled as a pure map over the rows (`WithWeather`), because no other code observes the frame between those statements.
- The `__main__` invocation (cities_weather.py:180-182).
