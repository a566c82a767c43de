/** The SQL storage layer: one `movies` table whose rows are read into a
    snapshot by `list_movies` and changed by `add_movie` (INSERT after a
    metadata lookup), `delete_movie` (DELETE by title) and `update_movie`
    (UPDATE of the rating). The database is a sequence of rows; the metadata
    service is a function from the requested title to its answer. */
module MoviesStorageSql {
  import opened Wrappers
  import opened Snapshots

  /** One row of `movies`: the columns title, year, rating and poster_image
      (all NOT NULL). The autoincrement id is never read and is not kept. */
  datatype Row = Row(title: string, year: int, rating: real, poster: string)

  /** The `UNIQUE` constraint on the title column. */
  predicate UniqueTitles(rows: seq<Row>)
  {
    forall i, j :: 0 <= i < j < |rows| ==> rows[i].title != rows[j].title
  }

  predicate HasTitle(rows: seq<Row>, t: string)
  {
    exists i :: 0 <= i < |rows| && rows[i].title == t
  }

  function EntryOf(r: Row): Entry
  {
    Entry(r.title, Info(r.year, r.rating, r.poster))
  }

  /** `list_movies`: the dict `{title: {year, rating, poster}}` built from the
      selected rows, in row order. */
  function ToSnapshot(rows: seq<Row>): (s: Snapshot)
    ensures |s| == |rows|
    ensures forall i :: 0 <= i < |rows| ==> s[i].title == rows[i].title
  {
    seq(|rows|, i requires 0 <= i < |rows| => EntryOf(rows[i]))
  }

  /** The snapshot of a table with unique titles has one key per row. */
  lemma ListMoviesKeyed(rows: seq<Row>)
    requires UniqueTitles(rows)
    ensures Keyed(ToSnapshot(rows))
    ensures |AsMap(ToSnapshot(rows))| == |rows|
  {
    AsMapSize(ToSnapshot(rows));
  }

  /** A title is a key of the snapshot exactly when some row carries it. */
  lemma ListMoviesKeys(rows: seq<Row>, t: string)
    ensures t in AsMap(ToSnapshot(rows)) <==> HasTitle(rows, t)
  {
    var s := ToSnapshot(rows);
    AsMapKeys(s, t);
    if HasTitle(rows, t) {
      var i :| 0 <= i < |rows| && rows[i].title == t;
      assert s[i] in s;
    }
  }

  /** Each row's title maps to that row's year, rating and poster. */
  lemma ListMoviesValue(rows: seq<Row>, i: int)
    requires UniqueTitles(rows) && 0 <= i < |rows|
    ensures rows[i].title in AsMap(ToSnapshot(rows))
    ensures AsMap(ToSnapshot(rows))[rows[i].title] == Info(rows[i].year, rows[i].rating, rows[i].poster)
  {
    var s := ToSnapshot(rows);
    assert s[i] in s;
    AsMapValue(s, s[i]);
  }

  /** The answer of the metadata service to a request for one title: status
      200 with `Response` 'True' (the canonical Title, Year, imdbRating and
      Poster), status 200 with `Response` 'False' (its Error text), or another
      status, whose body may or may not hold an `Error` field. */
  datatype Lookup =
    | Found(title: string, year: int, rating: real, poster: string)
    | NotFound(message: string)
    | HttpError(status: int, errorField: Option<string>)

  /** Why an INSERT raised: the title is already in the table, or the title
      variable was never bound because the lookup did not succeed. */
  datatype InsertFailure = DuplicateTitle | TitleUnbound

  /** What `add_movie` reports. Only `Added` writes to the table.
      `ErrorKeyMissing` is the KeyError that escapes when a failed response
      has no `Error` field; the "Add movie" command does not catch it either,
      so it ends the application. */
  datatype AddOutcome =
    | Added(row: Row)
    | Rejected(message: string)
    | InsertFailed(cause: InsertFailure)
    | ErrorKeyMissing(status: int)

  function AddOutcomeOf(rows: seq<Row>, lookup: Lookup): AddOutcome
  {
    match lookup
    case Found(t, y, r, p) => if HasTitle(rows, t) then InsertFailed(DuplicateTitle) else Added(Row(t, y, r, p))
    case NotFound(m) => Rejected(m)
    case HttpError(status, message) => if message.Some? then InsertFailed(TitleUnbound) else ErrorKeyMissing(status)
  }

  function RowsAfterAdd(rows: seq<Row>, lookup: Lookup): seq<Row>
  {
    var outcome := AddOutcomeOf(rows, lookup);
    if outcome.Added? then rows + [outcome.row] else rows
  }

  /** `DELETE FROM movies WHERE title = :title`. */
  function RowsAfterDelete(rows: seq<Row>, title: string): seq<Row>
  {
    Where(rows, (r: Row) => r.title != title)
  }

  /** `UPDATE movies SET rating = :rating WHERE title = :title`. */
  function RowsAfterUpdate(rows: seq<Row>, title: string, rating: real): seq<Row>
  {
    seq(|rows|, i requires 0 <= i < |rows| => if rows[i].title == title then rows[i].(rating := rating) else rows[i])
  }

  /** An add writes exactly when the lookup succeeded with a title the table
      does not hold yet, and then it writes the lookup's own title, year,
      rating and poster (not the title the user typed). */
  lemma AddWritesOnlyOnSuccess(rows: seq<Row>, lookup: Lookup)
    ensures AddOutcomeOf(rows, lookup).Added? <==> lookup.Found? && !HasTitle(rows, lookup.title)
    ensures AddOutcomeOf(rows, lookup).Added? ==>
      RowsAfterAdd(rows, lookup) == rows + [Row(lookup.title, lookup.year, lookup.rating, lookup.poster)]
    ensures !AddOutcomeOf(rows, lookup).Added? ==> RowsAfterAdd(rows, lookup) == rows
  {
  }

  /** Adding keeps titles unique: a duplicate insert is refused and changes nothing. */
  lemma AddKeepsTitlesUnique(rows: seq<Row>, lookup: Lookup)
    requires UniqueTitles(rows)
    ensures UniqueTitles(RowsAfterAdd(rows, lookup))
    ensures lookup.Found? && HasTitle(rows, lookup.title) ==>
      AddOutcomeOf(rows, lookup) == InsertFailed(DuplicateTitle) && RowsAfterAdd(rows, lookup) == rows
  {
    var after := RowsAfterAdd(rows, lookup);
    if after != rows {
      forall i, j | 0 <= i < j < |after|
        ensures after[i].title != after[j].title
      {
        if j == |rows| {
          assert after[i] == rows[i];
        }
      }
    }
  }

  /** After a successful add, listing shows the looked-up movie under its
      canonical title, and every other title keeps its value. */
  lemma AddThenList(rows: seq<Row>, lookup: Lookup, u: string)
    requires UniqueTitles(rows)
    requires AddOutcomeOf(rows, lookup).Added?
    ensures var m := AsMap(ToSnapshot(RowsAfterAdd(rows, lookup)));
      lookup.title in m && m[lookup.title] == Info(lookup.year, lookup.rating, lookup.poster)
    ensures var before := AsMap(ToSnapshot(rows));
      var m := AsMap(ToSnapshot(RowsAfterAdd(rows, lookup)));
      u != lookup.title ==> (u in m <==> u in before) && (u in before ==> m[u] == before[u])
  {
    var after := RowsAfterAdd(rows, lookup);
    AddKeepsTitlesUnique(rows, lookup);
    ListMoviesValue(after, |rows|);
    ListMoviesKeys(rows, u);
    ListMoviesKeys(after, u);
    if u != lookup.title {
      if HasTitle(after, u) {
        var i :| 0 <= i < |after| && after[i].title == u;
        assert i < |rows|;
      }
      if HasTitle(rows, u) {
        var i :| 0 <= i < |rows| && rows[i].title == u;
        assert after[i] == rows[i];
        ListMoviesValue(rows, i);
        ListMoviesValue(after, i);
      }
    }
  }

  /** Deleting never breaks uniqueness. */
  lemma DeleteKeepsTitlesUnique(rows: seq<Row>, title: string)
    requires UniqueTitles(rows)
    ensures UniqueTitles(RowsAfterDelete(rows, title))
  {
    WhereKeyed(ToSnapshot(rows), (e: Entry) => e.title != title);
    DeleteRowsKeepOrder(rows, title);
  }

  /** The rows left by a delete are those of other titles, each row found
      with its title in the snapshot of the rows before. */
  lemma {:induction false} DeleteRowsKeepOrder(rows: seq<Row>, title: string)
    ensures ToSnapshot(RowsAfterDelete(rows, title)) == Where(ToSnapshot(rows), (e: Entry) => e.title != title)
  {
    if rows != [] {
      var init := rows[..|rows| - 1];
      DeleteRowsKeepOrder(init, title);
      assert ToSnapshot(rows)[..|rows| - 1] == ToSnapshot(init);
    }
  }

  /** Deleting removes the title from the listing and leaves every other
      title's value as it was. */
  lemma DeleteThenList(rows: seq<Row>, title: string, u: string)
    requires UniqueTitles(rows)
    ensures title !in AsMap(ToSnapshot(RowsAfterDelete(rows, title)))
    ensures var before := AsMap(ToSnapshot(rows));
      var m := AsMap(ToSnapshot(RowsAfterDelete(rows, title)));
      u != title ==> (u in m <==> u in before) && (u in before ==> m[u] == before[u])
  {
    var p := (r: Row) => r.title != title;
    var after := RowsAfterDelete(rows, title);
    DeleteKeepsTitlesUnique(rows, title);
    ListMoviesKeys(after, title);
    if HasTitle(after, title) {
      var i :| 0 <= i < |after| && after[i].title == title;
      WhereMembership(rows, p, after[i]);
    }
    ListMoviesKeys(rows, u);
    ListMoviesKeys(after, u);
    if u != title {
      if HasTitle(after, u) {
        var i :| 0 <= i < |after| && after[i].title == u;
        WhereMembership(rows, p, after[i]);
      }
      if HasTitle(rows, u) {
        var i :| 0 <= i < |rows| && rows[i].title == u;
        WhereMembership(rows, p, rows[i]);
        var j :| 0 <= j < |after| && after[j] == rows[i];
        ListMoviesValue(rows, i);
        ListMoviesValue(after, j);
      }
    }
  }

  /** Deleting a title that is not there changes nothing. */
  lemma DeleteAbsent(rows: seq<Row>, title: string)
    requires !HasTitle(rows, title)
    ensures RowsAfterDelete(rows, title) == rows
  {
    WhereAll(rows, (r: Row) => r.title != title);
  }

  /** Deleting twice is deleting once. */
  lemma DeleteIdempotent(rows: seq<Row>, title: string)
    ensures RowsAfterDelete(RowsAfterDelete(rows, title), title) == RowsAfterDelete(rows, title)
  {
    var once := RowsAfterDelete(rows, title);
    if HasTitle(once, title) {
      var i :| 0 <= i < |once| && once[i].title == title;
      WhereMembership(rows, (r: Row) => r.title != title, once[i]);
    }
    DeleteAbsent(once, title);
  }

  /** An update changes the rating of the row with that title and nothing
      else: the same titles in the same order, the same years and posters. */
  lemma UpdateChangesOnlyRating(rows: seq<Row>, title: string, rating: real)
    ensures var after := RowsAfterUpdate(rows, title, rating);
      |after| == |rows| &&
      forall i :: 0 <= i < |rows| ==>
        after[i].title == rows[i].title && after[i].year == rows[i].year && after[i].poster == rows[i].poster
        && after[i].rating == (if rows[i].title == title then rating else rows[i].rating)
    ensures UniqueTitles(rows) ==> UniqueTitles(RowsAfterUpdate(rows, title, rating))
    ensures !HasTitle(rows, title) ==> RowsAfterUpdate(rows, title, rating) == rows
  {
  }

  /** Updating shows the new rating for that title, keeps its year and poster
      and every other title's value, and keeps the set of titles. */
  lemma UpdateThenList(rows: seq<Row>, title: string, rating: real, u: string)
    requires UniqueTitles(rows)
    ensures var before := AsMap(ToSnapshot(rows));
      var m := AsMap(ToSnapshot(RowsAfterUpdate(rows, title, rating)));
      (u in m <==> u in before)
      && (u in before && u != title ==> m[u] == before[u])
      && (u in before && u == title ==> m[u] == before[u].(rating := rating))
  {
    var after := RowsAfterUpdate(rows, title, rating);
    UpdateChangesOnlyRating(rows, title, rating);
    ListMoviesKeys(rows, u);
    ListMoviesKeys(after, u);
    if HasTitle(rows, u) {
      var i :| 0 <= i < |rows| && rows[i].title == u;
      assert after[i].title == u;
      ListMoviesValue(rows, i);
      ListMoviesValue(after, i);
    }
    if HasTitle(after, u) {
      var i :| 0 <= i < |after| && after[i].title == u;
      assert rows[i].title == u;
    }
  }

  /** The `movies` table. Its rows come back from SELECT in the order they
      were inserted. */
  class MovieTable {
    var rows: seq<Row>

    ghost predicate Valid()
      reads this
    {
      UniqueTitles(rows)
    }

    /** `CREATE TABLE IF NOT EXISTS`: opens the table with the rows already
        stored (none for a new database). */
    constructor Open(existing: seq<Row>)
      requires UniqueTitles(existing)
      ensures Valid() && rows == existing
    {
      rows := existing;
    }

    method ListMovies() returns (movies: Snapshot)
      requires Valid()
      ensures movies == ToSnapshot(rows) && Keyed(movies)
      ensures forall t :: t in AsMap(movies) <==> HasTitle(rows, t)
    {
      movies := ToSnapshot(rows);
      ListMoviesKeyed(rows);
      forall t
        ensures t in AsMap(movies) <==> HasTitle(rows, t)
      {
        ListMoviesKeys(rows, t);
      }
    }

    /** `add_movie(title)`: asks the service for `title` and inserts its answer. */
    method AddMovie(title: string, service: string -> Lookup) returns (outcome: AddOutcome)
      requires Valid()
      modifies this
      ensures Valid()
      ensures outcome == AddOutcomeOf(old(rows), service(title))
      ensures rows == RowsAfterAdd(old(rows), service(title))
    {
      var response := service(title);
      var movie: Option<Row> := None;
      match response {
        case NotFound(message) =>
          return Rejected(message);
        case Found(t, y, r, p) =>
          movie := Some(Row(t, y, r, p));
        case HttpError(status, message) =>
          if message.None? {
            return ErrorKeyMissing(status);
          }
      }
      if movie.None? {
        return InsertFailed(TitleUnbound);
      }
      if HasTitle(rows, movie.value.title) {
        return InsertFailed(DuplicateTitle);
      }
      AddKeepsTitlesUnique(rows, response);
      rows := rows + [movie.value];
      outcome := Added(movie.value);
    }

    /** `delete_movie(title)`: succeeds whether or not the title is present. */
    method DeleteMovie(title: string)
      requires Valid()
      modifies this
      ensures Valid()
      ensures rows == RowsAfterDelete(old(rows), title)
    {
      DeleteKeepsTitlesUnique(rows, title);
      rows := RowsAfterDelete(rows, title);
    }

    /** `update_movie(title, rating)`. */
    method UpdateMovie(title: string, rating: real)
      requires Valid()
      modifies this
      ensures Valid()
      ensures rows == RowsAfterUpdate(old(rows), title, rating)
    {
      UpdateChangesOnlyRating(rows, title, rating);
      rows := RowsAfterUpdate(rows, title, rating);
    }
  }
}
