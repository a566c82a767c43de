/** The commands of the movie application that change the table. Each reads
    a fresh snapshot with `list_movies`, checks the typed title against it,
    and only then calls the storage layer. */
module MovieCommands {
  import opened Wrappers
  import opened Snapshots
  import opened MoviesStorageSql
  import Movies

  /** What "Add movie" reports. `Attempted(ErrorKeyMissing(_))` is not a
      report: the command catches only ValueError, so that KeyError ends the
      application. */
  datatype AddReply = AlreadyExists | Attempted(outcome: AddOutcome)

  /** "Add movie": a title already in the collection is reported and the
      service is not asked; otherwise `add_movie` runs. The check uses the
      typed title, the insert the service's canonical title. */
  method CommandAddMovie(db: MovieTable, title: string, service: string -> Lookup) returns (reply: AddReply)
    requires db.Valid()
    modifies db
    ensures db.Valid()
    ensures HasTitle(old(db.rows), title) ==> reply == AlreadyExists && db.rows == old(db.rows)
    ensures !HasTitle(old(db.rows), title) ==>
      reply == Attempted(AddOutcomeOf(old(db.rows), service(title)))
      && db.rows == RowsAfterAdd(old(db.rows), service(title))
  {
    var movies := db.ListMovies();
    if title in AsMap(movies) {
      reply := AlreadyExists;
    } else {
      var outcome := db.AddMovie(title, service);
      reply := Attempted(outcome);
    }
  }

  /** "Delete movie": only a title in the collection is deleted; any other is reported. */
  method CommandDeleteMovie(db: MovieTable, title: string) returns (deleted: bool)
    requires db.Valid()
    modifies db
    ensures db.Valid()
    ensures deleted <==> HasTitle(old(db.rows), title)
    ensures db.rows == RowsAfterDelete(old(db.rows), title)
  {
    var movies := db.ListMovies();
    if title in AsMap(movies) {
      db.DeleteMovie(title);
      deleted := true;
    } else {
      deleted := false;
      DeleteAbsent(db.rows, title);
    }
  }

  /** What "Update movie" reports. `NoRating` is the prompt loop still
      waiting when the typed answers ran out. */
  datatype UpdateReply = NotInCollection | NoRating | Updated(rating: real)

  /** "Update movie": for a title in the collection, ratings are asked for
      until one lies in 0..10, and that one is stored. */
  method CommandUpdateMovie(db: MovieTable, title: string, answers: seq<Option<real>>) returns (reply: UpdateReply)
    requires db.Valid()
    modifies db
    ensures db.Valid()
    ensures !HasTitle(old(db.rows), title) ==> reply == NotInCollection && db.rows == old(db.rows)
    ensures reply.NoRating? ==> (db.rows == old(db.rows)
      && forall i :: 0 <= i < |answers| ==> !Movies.AcceptedRating(answers[i]))
    ensures reply.Updated? ==> (0.0 <= reply.rating <= 10.0
      && (exists i :: (0 <= i < |answers| && answers[i] == Some(reply.rating)
        && forall j :: 0 <= j < i ==> !Movies.AcceptedRating(answers[j])))
      && db.rows == RowsAfterUpdate(old(db.rows), title, reply.rating))
    ensures HasTitle(old(db.rows), title) ==> !reply.NotInCollection?
  {
    var movies := db.ListMovies();
    if title in AsMap(movies) {
      var rating := Movies.ReadRating(answers);
      if rating.Some? {
        db.UpdateMovie(title, rating.value);
        reply := Updated(rating.value);
      } else {
        reply := NoRating;
      }
    } else {
      reply := NotInCollection;
    }
  }
}
