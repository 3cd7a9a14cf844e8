/** The movie catalog: one row per movie, as loaded from movies.csv. */
module Catalog {

  /** A catalog row: `movieId`, `title` and the pipe-separated `genres` text. */
  datatype Movie = Movie(id: int, title: string, genres: string)

  /** No two catalog rows share a movie id. */
  ghost predicate UniqueIds(movies: seq<Movie>) {
    forall i, j :: 0 <= i < j < |movies| ==> movies[i].id != movies[j].id
  }

  /** Dropping the first row keeps the ids unique, and no later row has its id. */
  lemma UniqueIdsTail(movies: seq<Movie>)
    requires movies != [] && UniqueIds(movies)
    ensures UniqueIds(movies[1..])
    ensures forall c :: c in movies[1..] ==> c.id != movies[0].id
  {
    var tail := movies[1..];
    forall i, j | 0 <= i < j < |tail| ensures tail[i].id != tail[j].id {
      assert tail[i] == movies[i + 1] && tail[j] == movies[j + 1];
    }
    forall c | c in tail ensures c.id != movies[0].id {
      var k :| 0 <= k < |tail| && tail[k] == c;
      assert movies[k + 1] == c;
    }
  }
}
