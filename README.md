# Movie collection manager: a Dafny model of its query logic and its table

The application keeps a personal movie collection in one SQL table and lets
the user add, delete, re-rate, list, sort, filter, search and summarise it,
and write it out as HTML list items. This project models the two parts of it
that carry logic:

- **the table** (`storage/movies_storage_sql.py`): rows with a unique,
  non-null title; `list_movies` turning the rows into a title-keyed dict;
  `add_movie` inserting the answer of a metadata lookup; `delete_movie` and
  `update_movie`. Module `MoviesStorageSql`, with the class `MovieTable`
  whose `rows` field the three mutating methods change.
- **the computations of the menu commands** (`movies.py`): the rating and
  year listings, the filter and its input loop, the best and worst movies,
  the random pick, the search with its three groups and its ranking, the
  HTML serialisation, the rating prompt loop, and the existence checks
  before add, delete and update. Modules `Movies` (computations on a
  snapshot) and `MovieCommands` (the commands that call the table).

Supporting modules: `Wrappers` (Option), `Text` (ASCII `lower`, the
substring test, Python's string order, decimal text of an `int`, joined
texts), `Sorting` (sorting by a `(number, title)` key in either direction)
and `Snapshots` (the dict a command works on).

A snapshot is what `list_movies()` returns: a dict from title to
`{year, rating, poster}`. A Python dict keeps insertion order, and the
commands print, collect and serialise in that order, so the model keeps a
snapshot as a sequence of entries with distinct titles (`Keyed`) and gives
its dict view with `AsMap`. Table rows come back in the order they were
inserted.

Outside collaborators become parameters: the metadata service is a function
`service: string -> Lookup` whose result is `Found(title, year, rating,
poster)`, `NotFound(message)` (status 200 with `Response` 'False') or
`HttpError(status, errorField)`; the fuzzy scorer `fuzz.token_set_ratio` is a
function `ratio: (string, string) -> int`; the randomness of
`random.choice` is a number `draw`; typed answers are given already parsed
(`Option<real>` for a rating, `Field` = blank / number / unparsable for the
filter prompts), one per round of the prompt loop.

In these places the code does something a reader might not expect, and the model follows the code:

- The filter prompts say "leave blank for no start year" (`movies.py:257`),
  but blank answers become the bounds 0, 1000 and 3000 (`movies.py:260-262`),
  so a movie dated before 1000 or after 3000 is not shown even with all
  prompts left blank (`Movies.BlankAnswersUseDefaults`).
- `add_movie` checks nothing itself; the existence check on the typed title
  is done by the "Add movie" command before the lookup, and a clash on the
  lookup's canonical title is caught by the UNIQUE constraint
  (`MovieCommands.CommandAddMovie`, `MoviesStorageSql.AddKeepsTitlesUnique`).
- `delete_movie` and `update_movie` return nothing and do not report an
  absent title; only the commands do.
- A response with a status other than 200 is not a clean error path: if its
  body has an `Error` field, the insert is still attempted with a title that
  was never assigned, which raises inside the `try` and is reported; if it
  has none, the KeyError escapes `add_movie` and also `command_add_movie`,
  which catches only ValueError (`movies.py:49`), so the application stops.
  Neither writes a row (`AddOutcome.InsertFailed(TitleUnbound)`,
  `AddOutcome.ErrorKeyMissing`); the reply `Attempted(ErrorKeyMissing(_))`
  stands for that crash, not for an error the command reports.
- Search makes one add offer per unmatched title and one more when there
  are similar titles; the model keeps that (the `unmatched` group lists one
  title per offer).

## Model

| member | source | states |
|---|---|---|
| `Text.Lower` | movies.py:183 | lower-casing keeps the length, turns each upper-case ASCII letter into its lower-case letter and keeps every other character |
| `Text.SubstringIff` | movies.py:188 | `q in t` holds exactly when `q` occurs at some position of `t` |
| `Text.DecimalRoundTrip` | movies.py:293 | the year's text in a block is a sign and digits that read back as the year |
| `Text.JoinConcat` | movies.py:285-297 | the accumulated text of two parts is the text of each, concatenated |
| `Text.JoinShowsEach` | movies.py:286-295 | the text of every element stands inside the accumulated text |
| `Text.LexTotal` | movies.py:217 | two different titles are always ordered one way or the other (the title tie-break decides every tie) |
| `Text.LexTransitive` | movies.py:217 | the title order is transitive |
| `Sorting.Sort` | movies.py:217 | sorting returns a rearrangement of its input: same length, same multiset |
| `Sorting.SortSorted` | movies.py:217 | the sorted list is ordered by `(primary, title)` in the requested direction |
| `Sorting.SortedUnique` | movies.py:217 | when no two items share a key there is exactly one sorted rearrangement, so the order depends on the keys alone |
| `Snapshots.AsMapKeys` | storage/movies_storage_sql.py:46 | a title is a dict key exactly when some entry carries it |
| `Snapshots.AsMapValue` | storage/movies_storage_sql.py:46 | in a keyed snapshot each title maps to its own entry's year, rating and poster |
| `Snapshots.AsMapSize` | storage/movies_storage_sql.py:46 | a keyed snapshot has exactly one dict key per entry |
| `Snapshots.WhereMembership` | movies.py:267-270 | a loop that appends the elements passing a test keeps exactly the elements that pass |
| `Snapshots.WhereKeyed` | movies.py:108-112 | a selection from a dict has each title at most once |
| `MoviesStorageSql.ToSnapshot` | storage/movies_storage_sql.py:39-46 | `list_movies` gives one entry per row, in row order, with that row's title |
| `MoviesStorageSql.ListMoviesKeyed` | storage/movies_storage_sql.py:28-46 | with unique titles the listing has no repeated title and one key per row |
| `MoviesStorageSql.ListMoviesKeys` | storage/movies_storage_sql.py:46 | a title is a key of the listing exactly when a row has it |
| `MoviesStorageSql.ListMoviesValue` | storage/movies_storage_sql.py:46 | each row's title maps to that row's year, rating and poster |
| `MoviesStorageSql.AddWritesOnlyOnSuccess` | storage/movies_storage_sql.py:55-78 | a row is inserted exactly when the lookup succeeded with a title not yet stored; it carries the lookup's Title, Year, imdbRating and Poster; every other case leaves the table as it was |
| `MoviesStorageSql.AddKeepsTitlesUnique` | storage/movies_storage_sql.py:28-35 | adding keeps titles unique; an insert of a stored title fails as a duplicate and changes nothing |
| `MoviesStorageSql.AddThenList` | storage/movies_storage_sql.py:59-76 | after a successful add, listing shows the canonical title with the looked-up values, and every other title keeps its value |
| `MoviesStorageSql.DeleteKeepsTitlesUnique` | storage/movies_storage_sql.py:81-90 | deleting keeps titles unique |
| `MoviesStorageSql.DeleteRowsKeepOrder` | storage/movies_storage_sql.py:85-86 | the listing after a delete is the old listing without the entries of that title, in the same order |
| `MoviesStorageSql.DeleteThenList` | storage/movies_storage_sql.py:81-90 | after a delete the title is absent from the listing and every other title keeps its value |
| `MoviesStorageSql.DeleteAbsent` | storage/movies_storage_sql.py:85-90 | deleting an absent title is no error and changes nothing |
| `MoviesStorageSql.DeleteIdempotent` | storage/movies_storage_sql.py:81-90 | deleting a title twice leaves the same table as deleting it once |
| `MoviesStorageSql.UpdateChangesOnlyRating` | storage/movies_storage_sql.py:97-98 | an update keeps titles, years, posters and order, sets the rating of the matching row only, keeps titles unique, and changes nothing for an absent title |
| `MoviesStorageSql.UpdateThenList` | storage/movies_storage_sql.py:93-102 | after an update the listing has the same titles, the new rating for that title with its old year and poster, and every other value unchanged |
| `MoviesStorageSql.MovieTable.Open` | storage/movies_storage_sql.py:26-36 | the table opens with the rows already stored, titles unique |
| `MoviesStorageSql.MovieTable.ListMovies` | storage/movies_storage_sql.py:39-46 | listing returns the snapshot of the rows; it is keyed and its keys are the stored titles |
| `MoviesStorageSql.MovieTable.AddMovie` | storage/movies_storage_sql.py:49-78 | the outcome and the new rows are those of the lookup's answer for the requested title; titles stay unique |
| `MoviesStorageSql.MovieTable.DeleteMovie` | storage/movies_storage_sql.py:81-90 | the new rows are the old ones without that title; titles stay unique |
| `MoviesStorageSql.MovieTable.UpdateMovie` | storage/movies_storage_sql.py:93-102 | the new rows are the old ones with that title's rating replaced; titles stay unique |
| `Movies.SortedByRating` | movies.py:211-217 | the rating listing is a rearrangement of the snapshot ordered by `(rating, title)`, descending |
| `Movies.SortedByYear` | movies.py:231-237 | the year listing is a rearrangement of the snapshot ordered by `(year, title)`, descending exactly when the user asked for newest first |
| `Movies.NewestFirst` | movies.py:231-235 | the order is reversed exactly for the answers 'y' and 'yes' in any mix of cases |
| `Movies.SortedByRatingOrder` | movies.py:211-217 | a higher rating comes first; with equal ratings the alphabetically later title comes first |
| `Movies.SortedByYearOrder` | movies.py:231-237 | newest first: later year, then later title first; otherwise earlier year, then earlier title first |
| `Movies.SortedByRatingUnique` | movies.py:217 | any rearrangement ordered by `(rating, title)` descending is the rating listing: the output is determined by the data |
| `Movies.SortedByYearUnique` | movies.py:237 | any rearrangement ordered by `(year, title)` in the chosen direction is the year listing |
| `Movies.BlankAnswersUseDefaults` | movies.py:260-262 | blank answers give the bounds 0, 1000 and 3000, which admit exactly the ratings from 0 and the years 1000 to 3000 |
| `Movies.ReadFilterBounds` | movies.py:254-265 | the bounds used are those of the first round whose three answers all parse; there are none when no round parses |
| `Movies.FilterMovies` | movies.py:267-270 | the filter keeps, in snapshot order and with unchanged values, the movies passing the bounds |
| `Movies.FilteredMembership` | movies.py:269-270 | a movie is kept exactly when its rating is at least the minimum and its year lies between the bounds, both ends included; no title repeats |
| `Movies.MaxOf` | movies.py:106 | `max` returns a value of the list that no value exceeds |
| `Movies.MinOf` | movies.py:107 | `min` returns a value of the list that no value undercuts |
| `Movies.Statistics` | movies.py:99-112 | an empty collection gives no statistics (the ValueError the command reports); otherwise the best and worst lists are the movies rated at the maximum and at the minimum |
| `Movies.BestIsArgmax` | movies.py:106-110 | the best movies are exactly the movies rated at least as high as every movie |
| `Movies.WorstIsArgmin` | movies.py:107-112 | the worst movies are exactly the movies rated no higher than any movie |
| `Movies.AllEqualRatings` | movies.py:106-112 | when all ratings are equal every movie is both best and worst |
| `Movies.RandomPick` | movies.py:165-172 | an empty collection gives no pick (the IndexError the command reports); otherwise the pick is a movie of the collection |
| `Movies.EveryMovieCanBePicked` | movies.py:167 | every movie of the collection is the pick for some draw |
| `Movies.SearchMovie` | movies.py:181-200 | the search lowers the query, puts every title in its group in snapshot order and ranks the similar group |
| `Movies.GroupCounts` | movies.py:186-197 | every title is visited once: the three groups together have as many members as the snapshot |
| `Movies.GroupMembers` | movies.py:186-197 | exact matches contain the lowered query; similar movies carry their own score, at least 80, and are not exact; each unmatched title is a movie that is neither |
| `Movies.GroupPartition` | movies.py:186-197 | each movie lands in the group its classification names and in no other |
| `Movies.RankSimilar` | movies.py:200 | the ranking is a rearrangement of the similar movies ordered by `(score, title)`, descending |
| `Movies.RankedSimilar` | movies.py:190-200 | every movie of the ranked list is non-exact and scores 80 or more; a higher score comes first, and of two equal scores the alphabetically later title comes first |
| `Movies.SerializeMovie` | movies.py:278-297 | the text returned is the blocks of all movies joined in snapshot order |
| `Movies.HtmlEmpty` | movies.py:285-297 | the text is empty exactly when the collection is |
| `Movies.HtmlConcat` | movies.py:286-295 | serialising two parts of a collection is serialising each and joining the texts |
| `Movies.BlockShowsMovie` | movies.py:289-295 | a movie's block contains its poster, its title and its year |
| `Movies.HtmlShowsEveryMovie` | movies.py:286-297 | the text contains every movie's block, and so its poster, title and year |
| `Movies.ReadRating` | movies.py:76-87 | the rating stored is the first answer that parses and lies in 0..10; there is none when no answer does |
| `MovieCommands.CommandAddMovie` | movies.py:39-48 | a typed title already listed is reported and nothing is asked or written; otherwise the add runs on the service's answer |
| `MovieCommands.CommandDeleteMovie` | movies.py:58-64 | a listed title is deleted; any other is reported and the table is unchanged |
| `MovieCommands.CommandUpdateMovie` | movies.py:72-89 | an unlisted title is reported; for a listed one the first accepted rating is stored, and nothing changes when no answer is accepted |

## Left out

- The menu loop, `input`, `print`, coloured output and `exit` (`movies.py:15-32`, `320-382`): terminal input and output only. A command's result is what it would print.
- The histogram and its PNG file (`movies.py:134-157`): plotting and user interaction.
- Reading the template and writing `index.html` in `command_generate_website` (`movies.py:299-317`): file input and output. Only `serialize_movie` is modelled.
- Average and median in the statistics (`movies.py:115-116`): floating-point rounding of `statistics.mean` and `median`.
- The inside of `fuzz.token_set_ratio`: a foreign library, given as the function parameter `ratio`.
- The add offers made by the search (`movies.py:194-197`, `204-206`): the answers to them and the `add_movie` calls they trigger are not modelled; the `unmatched` group records one offer per title.
- The HTTP request, JSON decoding, `.env` loading and the SQLAlchemy engine, connections and commits (`storage/movies_storage_sql.py:6-37`, `52-54`): network and database plumbing, replaced by the `service` parameter and the `rows` field. A body that is not JSON (a ValueError the add command catches) is not modelled.
- Storage failures (an unreachable or malformed database, the `except Exception` around DELETE and UPDATE): the modelled table operations cannot fail.
- SQLite type affinity: the service's Year and imdbRating are text and may not be numbers ("N/A", a year range); the model receives them as an `int` and a `real`.
- Row order: SELECT has no ORDER BY; the model returns rows in insertion order, which is what SQLite does for this table in practice.
- Ratings are exact reals: float rounding and NaN are not modelled. Ratings are only compared, so nothing else changes.
- The `fuzzy_ratio` written into the snapshot's value dicts during search (`movies.py:191`) is kept as the score of a `Match` instead.
- Python's sort stability: in a keyed snapshot no two items share a key, so every sort here has a single possible result (`Movies.SortedByRatingUnique`).
- Text.Lower: maps only the ASCII letters A-Z; Python's `str.lower` also lower-cases other alphabets.
- Movies.ReadRating: works over a finite list of answers and reports `None` when they run out; the program would keep asking. Parsing the typed text with `float` is not modelled; each answer is given as parsed or not.
- Movies.ReadFilterBounds: works over a finite list of rounds and reports `None` when they run out; the program would keep asking. Parsing with `float` and `int` is not modelled.
- Movies.RandomPick: states which movies can be picked, not that each is equally likely.
