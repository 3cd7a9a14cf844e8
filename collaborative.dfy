/** `collaborative_based_search`: resolve the query to an anchor movie, find the users who
    rated it above 4 ("enthusiasts"), keep the movies whose count of enthusiasts' rating rows
    above 4, per enthusiast, exceeds 10%, score each by that share over its share of rows
    above 4 among everyone with such a row about a kept movie (the lift), and return the ten
    best with their catalog title and genres. Every share is an exact rational. */
module Collaborative {
  import opened Wrappers
  import opened Seqs
  import opened Catalog
  import opened Titles

  /** A row of the rating corpus (`userId`, `movieId`, `rating`). */
  datatype Rating = Rating(user: int, movie: int, rating: real)

  /** A row of the result: the lift score and the movie's catalog title and genres. */
  datatype Recommendation = Recommendation(score: real, title: string, genres: string)

  /** A surviving movie with its lift score, before the catalog join. */
  datatype Scored = Scored(movie: int, score: real)

  /** `.iloc[0]` on an empty selection raises: no catalog title contains the query. */
  datatype SearchError = NoTitleMatch

  /** A rating counts as high when it is strictly above this value. */
  const HighRating: real := 4.0

  /** A movie survives when its high rows from enthusiasts, per enthusiast, exceed this. */
  const MinShare: real := 0.10

  /** How many movies `head` keeps. */
  const TopCount: nat := 10

  predicate High(r: Rating) {
    r.rating > HighRating
  }

  // ---------------------------------------------------------------- anchor (line 25)

  /** The first catalog position from `i` on whose title contains the query. */
  function FindFrom(query: string, movies: seq<Movie>, i: nat): (r: Option<nat>)
    decreases |movies| - i
    ensures r.Some? ==> i <= r.value < |movies| && ContainsIgnoreCase(movies[r.value].title, query)
    ensures r.Some? ==> forall j :: i <= j < r.value ==> !ContainsIgnoreCase(movies[j].title, query)
    ensures r.None? <==> forall j :: i <= j < |movies| ==> !ContainsIgnoreCase(movies[j].title, query)
  {
    if i >= |movies| then None
    else if ContainsIgnoreCase(movies[i].title, query) then Some(i)
    else FindFrom(query, movies, i + 1)
  }

  /** The anchor: the first catalog row, by position, whose title contains the query
      case-insensitively; None when no title does. */
  function FindAnchor(query: string, movies: seq<Movie>): (r: Option<nat>)
    ensures r.Some? ==> r.value < |movies| && ContainsIgnoreCase(movies[r.value].title, query)
    ensures r.Some? ==> forall j :: 0 <= j < r.value ==> !ContainsIgnoreCase(movies[j].title, query)
    ensures r.None? <==> forall j :: 0 <= j < |movies| ==> !ContainsIgnoreCase(movies[j].title, query)
  {
    FindFrom(query, movies, 0)
  }

  // ---------------------------------------------------------------- counting

  /** The movie column of some rating rows. */
  function MovieIds(rows: seq<Rating>): (r: seq<int>)
    ensures |r| == |rows| && forall k :: 0 <= k < |rows| ==> r[k] == rows[k].movie
    ensures forall m :: m in r <==> exists x :: x in rows && x.movie == m
  {
    var r := seq(|rows|, k requires 0 <= k < |rows| => rows[k].movie);
    assert forall x :: x in rows ==> x.movie in r by {
      forall x | x in rows ensures x.movie in r {
        var k :| 0 <= k < |rows| && rows[k] == x;
        assert r[k] == x.movie;
      }
    }
    r
  }

  /** `value_counts` of the movie column: how many rows are about movie `m`, that is, the
      multiplicity of `m` in the movie column. */
  function CountMovie(rows: seq<Rating>, m: int): (n: nat)
    ensures n == multiset(MovieIds(rows))[m]
    ensures n <= |rows|
    ensures n > 0 <==> exists x :: x in rows && x.movie == m
  {
    if rows == [] then 0
    else
      assert forall x :: x in rows <==> x == rows[0] || x in rows[1..];
      assert MovieIds(rows) == [rows[0].movie] + MovieIds(rows[1..]);
      (if rows[0].movie == m then 1 else 0) + CountMovie(rows[1..], m)
  }

  /** The distinct users among some rating rows (`unique()` of the user column). */
  function Users(rows: seq<Rating>): (r: set<int>)
    ensures forall u :: u in r <==> exists x :: x in rows && x.user == u
  {
    set x | x in rows :: x.user
  }

  /** The distinct users with a row about movie `m`. */
  function Raters(rows: seq<Rating>, m: int): (r: set<int>)
    ensures forall u :: u in r <==> exists x :: x in rows && x.movie == m && x.user == u
  {
    if rows == [] then {}
    else
      assert forall x :: x in rows <==> x == rows[0] || x in rows[1..];
      (if rows[0].movie == m then {rows[0].user} else {}) + Raters(rows[1..], m)
  }

  /** A share of a population, as an exact rational. */
  function Share(count: nat, population: nat): (r: real)
    requires population > 0
    ensures 0.0 <= r
    ensures r <= 1.0 <==> count <= population
    ensures r == 1.0 <==> count == population
    ensures r > 0.0 <==> count > 0
  {
    count as real / population as real
  }

  // ---------------------------------------------------------------- lines 27-37

  /** Line 27: the users who rated the anchor above 4. */
  function Enthusiasts(ratings: seq<Rating>, anchor: int): (r: set<int>)
    ensures forall u :: u in r <==> exists x :: x in ratings && x.movie == anchor && High(x) && x.user == u
  {
    set r | r in ratings && r.movie == anchor && High(r) :: r.user
  }

  /** Line 28: the high ratings given by `users`. */
  function SimilarRows(ratings: seq<Rating>, users: set<int>): (r: seq<Rating>)
    ensures |r| <= |ratings|
    ensures forall x :: x in r <==> x in ratings && x.user in users && High(x)
    ensures Users(r) <= users
  {
    Filter(ratings, (r: Rating) => r.user in users && High(r))
  }

  /** Line 29: the share of `users` behind the high ratings of movie `m`. */
  function SimilarShare(ratings: seq<Rating>, users: set<int>, m: int): (r: real)
    requires |users| > 0
    ensures 0.0 <= r
    ensures r > 0.0 <==> exists x :: x in ratings && x.user in users && High(x) && x.movie == m
  {
    Share(CountMovie(SimilarRows(ratings, users), m), |users|)
  }

  /** Line 32: the high ratings of the surviving movies, by anyone. */
  function AllRows(ratings: seq<Rating>, candidates: seq<int>): (r: seq<Rating>)
    ensures |r| <= |ratings|
    ensures forall x :: x in r <==> x in ratings && x.movie in candidates && High(x)
  {
    Filter(ratings, (r: Rating) => r.movie in candidates && High(r))
  }

  /** Line 33: the share of everyone with a high rating of a surviving movie who rated `m` high. */
  function AllShare(ratings: seq<Rating>, candidates: seq<int>, m: int): (r: real)
    requires |Users(AllRows(ratings, candidates))| > 0
    ensures 0.0 <= r
    ensures r > 0.0 <==> m in candidates && exists x :: x in ratings && x.movie == m && High(x)
  {
    var rows := AllRows(ratings, candidates);
    Share(CountMovie(rows, m), |Users(rows)|)
  }

  /** Lines 28-31: the movies whose similar share is above 10%, each once, in order of
      first appearance. Exactly those movies survive. */
  function Candidates(ratings: seq<Rating>, users: set<int>): (r: seq<int>)
    requires |users| > 0
    ensures NoDups(r)
    ensures forall m :: m in r <==> SimilarShare(ratings, users, m) > MinShare
  {
    var rows := SimilarRows(ratings, users);
    assert forall m :: SimilarShare(ratings, users, m) > MinShare ==> m in MovieIds(rows) by {
      forall m | SimilarShare(ratings, users, m) > MinShare ensures m in MovieIds(rows) {
        assert CountMovie(rows, m) > 0;
      }
    }
    Filter(Distinct(MovieIds(rows)), (m: int) => SimilarShare(ratings, users, m) > MinShare)
  }

  /** The share computed on line 33 is defined for every surviving movie: some user rated a
      surviving movie high, and each surviving movie has a high rating. */
  lemma CandidatesRated(ratings: seq<Rating>, users: set<int>, m: int)
    requires |users| > 0 && m in Candidates(ratings, users)
    ensures |Users(AllRows(ratings, Candidates(ratings, users)))| > 0
    ensures CountMovie(AllRows(ratings, Candidates(ratings, users)), m) > 0
  {
    var cs := Candidates(ratings, users);
    var rows := SimilarRows(ratings, users);
    assert CountMovie(rows, m) > 0;
    var x :| x in rows && x.movie == m;
    assert x in AllRows(ratings, cs);
    assert x.user in Users(AllRows(ratings, cs));
  }

  /** Line 37: the lift of a surviving movie, its similar share over its all share. It is
      always defined and positive. */
  function Lift(ratings: seq<Rating>, users: set<int>, m: int): (r: real)
    requires |users| > 0 && m in Candidates(ratings, users)
    ensures r > 0.0
  {
    var cs := Candidates(ratings, users);
    CandidatesRated(ratings, users, m);
    var similar := SimilarShare(ratings, users, m);
    var all := AllShare(ratings, cs, m);
    QuotientPositive(similar, all);
    similar / all
  }

  lemma QuotientPositive(a: real, b: real)
    requires a > 0.0 && b > 0.0
    ensures a / b > 0.0
  {
  }

  /** The movies of `cs`, in order, each with its score under `score`. */
  function ScoreEach(cs: seq<int>, score: int -> real): (r: seq<Scored>)
    ensures |r| == |cs|
    ensures forall k :: 0 <= k < |r| ==> r[k].movie == cs[k]
    ensures forall s :: s in r <==> s.movie in cs && s.score == score(s.movie)
  {
    if cs == [] then []
    else
      assert forall m :: m in cs <==> m == cs[0] || m in cs[1..];
      [Scored(cs[0], score(cs[0]))] + ScoreEach(cs[1..], score)
  }

  /** Lines 35-37: every surviving movie with its lift, each movie once. */
  function Scores(ratings: seq<Rating>, users: set<int>): (r: seq<Scored>)
    requires |users| > 0
    ensures forall s :: s in r <==> s.movie in Candidates(ratings, users) && s.score == Lift(ratings, users, s.movie)
    ensures |r| == |Candidates(ratings, users)|
    ensures forall i, j :: 0 <= i < j < |r| ==> r[i].movie != r[j].movie
  {
    var cs := Candidates(ratings, users);
    var r := ScoreEach(cs, (m: int) => if m in cs then Lift(ratings, users, m) else 0.0);
    DistinctMovies(r, cs);
    r
  }

  /** Entries whose movies are, position by position, a duplicate-free list name each movie once. */
  lemma DistinctMovies(r: seq<Scored>, cs: seq<int>)
    requires |r| == |cs| && NoDups(cs)
    requires forall k :: 0 <= k < |r| ==> r[k].movie == cs[k]
    ensures forall i, j :: 0 <= i < j < |r| ==> r[i].movie != r[j].movie
  {
  }

  // ---------------------------------------------------------------- share bounds

  /** At most one rating per (user, movie) pair. */
  ghost predicate UniquePairs(rows: seq<Rating>) {
    forall i, j :: 0 <= i < j < |rows| ==> rows[i].user != rows[j].user || rows[i].movie != rows[j].movie
  }

  lemma UniquePairsTail(rows: seq<Rating>)
    requires rows != [] && UniquePairs(rows)
    ensures UniquePairs(rows[1..])
    ensures forall x :: x in rows[1..] ==> x.user != rows[0].user || x.movie != rows[0].movie
  {
    var tail := rows[1..];
    forall i, j | 0 <= i < j < |tail| ensures tail[i].user != tail[j].user || tail[i].movie != tail[j].movie {
      assert tail[i] == rows[i + 1] && tail[j] == rows[j + 1];
    }
    forall x | x in tail ensures x.user != rows[0].user || x.movie != rows[0].movie {
      var k :| 0 <= k < |tail| && tail[k] == x;
      assert rows[k + 1] == x;
    }
  }

  /** Selecting rows keeps the pairs unique. */
  lemma {:induction false} FilterUniquePairs(rows: seq<Rating>, keep: Rating -> bool)
    requires UniquePairs(rows)
    ensures UniquePairs(Filter(rows, keep))
  {
    if rows != [] {
      UniquePairsTail(rows);
      var rest := Filter(rows[1..], keep);
      FilterUniquePairs(rows[1..], keep);
      if keep(rows[0]) {
        var r := [rows[0]] + rest;
        assert Filter(rows, keep) == r;
        forall i, j | 0 <= i < j < |r| ensures r[i].user != r[j].user || r[i].movie != r[j].movie {
          assert r[j] == rest[j - 1] && r[j] in rest;
          if i > 0 { assert r[i] == rest[i - 1]; }
        }
      }
    }
  }

  /** Each rater of `m` has at least one row about it. */
  lemma {:induction false} RatersAtMostCount(rows: seq<Rating>, m: int)
    ensures |Raters(rows, m)| <= CountMovie(rows, m)
  {
    if rows != [] {
      RatersAtMostCount(rows[1..], m);
    }
  }

  /** With unique pairs, the row count of `m` is exactly its number of raters. */
  lemma {:induction false} RatersExact(rows: seq<Rating>, m: int)
    requires UniquePairs(rows)
    ensures |Raters(rows, m)| == CountMovie(rows, m)
  {
    if rows != [] {
      UniquePairsTail(rows);
      RatersExact(rows[1..], m);
      if rows[0].movie == m {
        assert rows[0].user !in Raters(rows[1..], m);
      }
    }
  }

  /** The enthusiasts are the raters of the anchor among the high rows, so there are at most
      as many as the anchor has high rows, and exactly as many with one rating per (user,
      movie). */
  lemma EnthusiastsOfHighRows(ratings: seq<Rating>, anchor: int)
    ensures Enthusiasts(ratings, anchor) == Raters(Filter(ratings, High), anchor)
    ensures |Enthusiasts(ratings, anchor)| <= CountMovie(Filter(ratings, High), anchor)
    ensures UniquePairs(ratings) ==> |Enthusiasts(ratings, anchor)| == CountMovie(Filter(ratings, High), anchor)
  {
    var high := Filter(ratings, High);
    RatersAtMostCount(high, anchor);
    if UniquePairs(ratings) {
      FilterUniquePairs(ratings, High);
      RatersExact(high, anchor);
    }
  }

  /** The anchor's own similar share is at least 1 (every enthusiast rated it high), so the
      anchor always survives the 10% filter; with one rating per (user, movie) the share is
      exactly 1. */
  lemma AnchorSurvives(ratings: seq<Rating>, anchor: int)
    requires |Enthusiasts(ratings, anchor)| > 0
    ensures SimilarShare(ratings, Enthusiasts(ratings, anchor), anchor) >= 1.0
    ensures anchor in Candidates(ratings, Enthusiasts(ratings, anchor))
    ensures UniquePairs(ratings) ==> SimilarShare(ratings, Enthusiasts(ratings, anchor), anchor) == 1.0
  {
    var users := Enthusiasts(ratings, anchor);
    var rows := SimilarRows(ratings, users);
    assert Raters(rows, anchor) == users by {
      forall u | u in users ensures u in Raters(rows, anchor) {
        var x :| x in ratings && x.movie == anchor && High(x) && x.user == u;
        assert x in rows;
      }
    }
    RatersAtMostCount(rows, anchor);
    assert CountMovie(rows, anchor) <= |users| ==> CountMovie(rows, anchor) == |users|;
    if UniquePairs(ratings) {
      FilterUniquePairs(ratings, (r: Rating) => r.user in users && High(r));
      RatersExact(rows, anchor);
    }
  }

  lemma SubsetCard(a: set<int>, b: set<int>)
    requires a <= b
    ensures |a| <= |b|
  {
    assert b == a + (b - a);
  }

  /** With one rating per (user, movie), no similar share exceeds 1. */
  lemma SimilarShareAtMostOne(ratings: seq<Rating>, users: set<int>, m: int)
    requires |users| > 0 && UniquePairs(ratings)
    ensures SimilarShare(ratings, users, m) <= 1.0
  {
    var rows := SimilarRows(ratings, users);
    FilterUniquePairs(ratings, (r: Rating) => r.user in users && High(r));
    assert UniquePairs(rows);
    RatersExact(rows, m);
    SubsetCard(Raters(rows, m), users);
    assert CountMovie(rows, m) <= |users|;
  }

  /** The share computed on line 33 of a surviving movie is positive, and with one rating
      per (user, movie) at most 1. */
  lemma AllShareBounds(ratings: seq<Rating>, users: set<int>, m: int)
    requires |users| > 0 && m in Candidates(ratings, users)
    ensures |Users(AllRows(ratings, Candidates(ratings, users)))| > 0
    ensures AllShare(ratings, Candidates(ratings, users), m) > 0.0
    ensures UniquePairs(ratings) ==> AllShare(ratings, Candidates(ratings, users), m) <= 1.0
  {
    var cs := Candidates(ratings, users);
    CandidatesRated(ratings, users, m);
    if UniquePairs(ratings) {
      var rows := AllRows(ratings, cs);
      FilterUniquePairs(ratings, (r: Rating) => r.movie in cs && High(r));
      assert UniquePairs(rows);
      RatersExact(rows, m);
      SubsetCard(Raters(rows, m), Users(rows));
      assert CountMovie(rows, m) <= |Users(rows)|;
    }
  }

  // ---------------------------------------------------------------- lines 38-40

  ghost predicate NonIncreasing(s: seq<Scored>) {
    forall i, j :: 0 <= i < j < |s| ==> s[j].score <= s[i].score
  }

  lemma ConsSorted(h: Scored, t: seq<Scored>)
    requires NonIncreasing(t)
    requires forall y :: y in t ==> y.score <= h.score
    ensures NonIncreasing([h] + t)
  {
    var r := [h] + t;
    forall i, j | 0 <= i < j < |r| ensures r[j].score <= r[i].score {
      assert r[j] == t[j - 1];
      if i > 0 { assert r[i] == t[i - 1]; } else { assert t[j - 1] in t; }
    }
  }

  /** Every entry of a sorted list scores at most its head. */
  lemma HeadIsMax(s: seq<Scored>)
    requires s != [] && NonIncreasing(s)
    ensures forall y :: y in s ==> y.score <= s[0].score
  {
    forall y | y in s ensures y.score <= s[0].score {
      var k :| 0 <= k < |s| && s[k] == y;
    }
  }

  /** Entries drawn from `t` or equal to `x` are bounded by what bounds both. */
  lemma BoundedByMultiset(r: seq<Scored>, t: seq<Scored>, x: Scored, v: real)
    requires multiset(r) == multiset(t) + multiset{x}
    requires x.score <= v && forall y :: y in t ==> y.score <= v
    ensures forall y :: y in r ==> y.score <= v
  {
    forall y | y in r ensures y.score <= v {
      assert y in multiset(r);
      if y != x { assert y in multiset(t); }
    }
  }

  lemma SortedTail(s: seq<Scored>)
    requires s != [] && NonIncreasing(s)
    ensures NonIncreasing(s[1..])
  {
    var t := s[1..];
    forall i, j | 0 <= i < j < |t| ensures t[j].score <= t[i].score {
      assert t[i] == s[i + 1] && t[j] == s[j + 1];
    }
  }

  function Insert(x: Scored, s: seq<Scored>): (r: seq<Scored>)
    requires NonIncreasing(s)
    ensures NonIncreasing(r)
    ensures multiset(r) == multiset(s) + multiset{x}
  {
    if s == [] then [x]
    else
      HeadIsMax(s);
      if s[0].score <= x.score then
        ConsSorted(x, s);
        [x] + s
      else
        var tail := s[1..];
        assert s == [s[0]] + tail;
        SortedTail(s);
        var rest := Insert(x, tail);
        BoundedByMultiset(rest, tail, x, s[0].score);
        ConsSorted(s[0], rest);
        [s[0]] + rest
  }

  /** Line 38, `sort_values("score", ascending=False)`: the same movies, highest score
      first. The order among equal scores is one of those the unstable sort may produce. */
  function SortByScore(s: seq<Scored>): (r: seq<Scored>)
    ensures NonIncreasing(r)
    ensures multiset(r) == multiset(s)
  {
    if s == [] then []
    else
      assert s == [s[0]] + s[1..];
      Insert(s[0], SortByScore(s[1..]))
  }

  /** Each movie appears at most once. */
  ghost predicate MoviesDistinct(s: seq<Scored>) {
    forall i, j :: 0 <= i < j < |s| ==> s[i].movie != s[j].movie
  }

  lemma ConsMoviesDistinct(h: Scored, t: seq<Scored>)
    requires MoviesDistinct(t) && forall y :: y in t ==> y.movie != h.movie
    ensures MoviesDistinct([h] + t)
  {
    var r := [h] + t;
    forall i, j | 0 <= i < j < |r| ensures r[i].movie != r[j].movie {
      assert r[j] == t[j - 1] && r[j] in t;
      if i > 0 { assert r[i] == t[i - 1]; }
    }
  }

  lemma MoviesDistinctTail(s: seq<Scored>)
    requires s != [] && MoviesDistinct(s)
    ensures MoviesDistinct(s[1..])
    ensures forall y :: y in s[1..] ==> y.movie != s[0].movie
  {
    var t := s[1..];
    forall i, j | 0 <= i < j < |t| ensures t[i].movie != t[j].movie {
      assert t[i] == s[i + 1] && t[j] == s[j + 1];
    }
    forall y | y in t ensures y.movie != s[0].movie {
      var k :| 0 <= k < |t| && t[k] == y;
      assert s[k + 1] == y;
    }
  }

  /** Inserting an entry for a new movie keeps the movies distinct. */
  lemma {:induction false} InsertMoviesDistinct(x: Scored, s: seq<Scored>)
    requires NonIncreasing(s) && MoviesDistinct(s)
    requires forall y :: y in s ==> y.movie != x.movie
    ensures MoviesDistinct(Insert(x, s))
  {
    if s != [] && x.score < s[0].score {
      var tail := s[1..];
      assert s[0] in s;
      SortedTail(s);
      MoviesDistinctTail(s);
      InsertMoviesDistinct(x, tail);
      var rest := Insert(x, tail);
      forall y | y in rest ensures y.movie != s[0].movie {
        assert y in multiset(rest);
        if y != x { assert y in multiset(tail); }
      }
      ConsMoviesDistinct(s[0], rest);
    } else if s != [] {
      ConsMoviesDistinct(x, s);
    }
  }

  /** Sorting by score keeps the movies distinct. */
  lemma {:induction false} SortMoviesDistinct(s: seq<Scored>)
    requires MoviesDistinct(s)
    ensures MoviesDistinct(SortByScore(s))
  {
    if s != [] {
      MoviesDistinctTail(s);
      SortMoviesDistinct(s[1..]);
      SortedSameMembers(s[1..]);
      InsertMoviesDistinct(s[0], SortByScore(s[1..]));
    }
  }

  /** Line 40, `head(10)`. */
  function Top(ranked: seq<Scored>): (r: seq<Scored>)
    ensures |r| == if |ranked| <= TopCount then |ranked| else TopCount
    ensures r <= ranked
    ensures |ranked| <= TopCount ==> r == ranked
    ensures NonIncreasing(ranked) ==> NonIncreasing(r)
    ensures NonIncreasing(ranked) ==> forall a, b :: 0 <= a < |r| <= b < |ranked| ==> ranked[b].score <= r[a].score
    ensures multiset(r) <= multiset(ranked)
    ensures MoviesDistinct(ranked) ==> MoviesDistinct(r)
  {
    if |ranked| <= TopCount then ranked
    else
      assert ranked == ranked[..TopCount] + ranked[TopCount..];
      ranked[..TopCount]
  }

  ghost predicate RowsNonIncreasing(rows: seq<Recommendation>) {
    forall i, j :: 0 <= i < j < |rows| ==> rows[j].score <= rows[i].score
  }

  /** Some catalog row has movie id `m`. */
  ghost predicate HasCatalogRow(movies: seq<Movie>, m: int) {
    exists c :: c in movies && c.id == m
  }

  /** The catalog rows with the movie id of `s`, in catalog order, carrying its score. */
  function RowsFor(s: Scored, movies: seq<Movie>): (r: seq<Recommendation>)
    ensures forall row :: row in r <==> exists c :: c in movies && c.id == s.movie && row == Recommendation(s.score, c.title, c.genres)
    ensures forall k :: 0 <= k < |r| ==> r[k].score == s.score
    ensures (forall c :: c in movies ==> c.id != s.movie) ==> r == []
    ensures UniqueIds(movies) ==> |r| <= 1
    ensures UniqueIds(movies) && HasCatalogRow(movies, s.movie) ==> |r| == 1
  {
    if movies == [] then []
    else
      var tail := movies[1..];
      var rest := RowsFor(s, tail);
      assert forall c :: c in movies <==> c == movies[0] || c in tail;
      assert HasCatalogRow(movies, s.movie) && movies[0].id != s.movie ==> HasCatalogRow(tail, s.movie);
      assert UniqueIds(movies) ==> UniqueIds(tail) && forall c :: c in tail ==> c.id != movies[0].id by {
        if UniqueIds(movies) { UniqueIdsTail(movies); }
      }
      if movies[0].id == s.movie then
        [Recommendation(s.score, movies[0].title, movies[0].genres)] + rest
      else
        rest
  }

  /** Some entry of `top` has score `v`. */
  ghost predicate HasScore(top: seq<Scored>, v: real) {
    exists s :: s in top && s.score == v
  }

  /** Putting rows that all score `v` in front of sorted rows whose scores are among
      `bounds`, all at most `v`, keeps the rows sorted. */
  lemma SortedAppend(a: seq<Recommendation>, b: seq<Recommendation>, bounds: seq<Scored>, v: real)
    requires forall k :: 0 <= k < |a| ==> a[k].score == v
    requires forall k :: 0 <= k < |b| ==> HasScore(bounds, b[k].score)
    requires forall s :: s in bounds ==> s.score <= v
    requires RowsNonIncreasing(b)
    ensures RowsNonIncreasing(a + b)
  {
    var t := a + b;
    forall i, j | 0 <= i < j < |t| ensures t[j].score <= t[i].score {
      if j < |a| {
        assert t[i] == a[i] && t[j] == a[j];
      } else if i < |a| {
        assert t[i] == a[i] && t[j] == b[j - |a|];
      } else {
        assert t[i] == b[i - |a|] && t[j] == b[j - |a|];
      }
    }
  }

  /** Line 40, the merge with the catalog on `movieId`: for each top movie in order, its
      catalog rows. Every row comes from a top movie and a catalog row with its id, and
      every such pair gives a row; a score-sorted input gives score-sorted rows; with unique
      catalog ids there is at most one row per top movie, and exactly one when each top movie
      has a catalog row. */
  function Join(top: seq<Scored>, movies: seq<Movie>): (r: seq<Recommendation>)
    ensures forall row :: row in r <==>
      exists s, c :: s in top && c in movies && c.id == s.movie && row == Recommendation(s.score, c.title, c.genres)
    ensures forall k :: 0 <= k < |r| ==> HasScore(top, r[k].score)
    ensures NonIncreasing(top) ==> RowsNonIncreasing(r)
    ensures UniqueIds(movies) ==> |r| <= |top|
    ensures UniqueIds(movies) && (forall s :: s in top ==> HasCatalogRow(movies, s.movie)) ==> |r| == |top|
  {
    if top == [] then []
    else
      var head := RowsFor(top[0], movies);
      var rest := Join(top[1..], movies);
      assert top == [top[0]] + top[1..];
      assert forall s :: s in top[1..] ==> s in top;
      ScoresFromConcat(head, rest, top);
      assert NonIncreasing(top) ==> RowsNonIncreasing(head + rest) by {
        if NonIncreasing(top) {
          SortedTail(top);
          HeadIsMax(top);
          assert forall y :: y in top[1..] ==> y in top;
          SortedAppend(head, rest, top[1..], top[0].score);
        }
      }
      head + rest
  }

  /** The scores of the joined rows for `top` are scores of `top`. */
  lemma ScoresFromConcat(head: seq<Recommendation>, rest: seq<Recommendation>, top: seq<Scored>)
    requires top != []
    requires forall k :: 0 <= k < |head| ==> head[k].score == top[0].score
    requires forall k :: 0 <= k < |rest| ==> HasScore(top[1..], rest[k].score)
    ensures forall k :: 0 <= k < |head + rest| ==> HasScore(top, (head + rest)[k].score)
  {
    assert top == [top[0]] + top[1..];
    forall k | 0 <= k < |head + rest| ensures HasScore(top, (head + rest)[k].score) {
      if k < |head| {
        assert (head + rest)[k] == head[k];
        assert top[0] in top;
      } else {
        assert (head + rest)[k] == rest[k - |head|];
        var s :| s in top[1..] && s.score == rest[k - |head|].score;
        assert s in top;
      }
    }
  }

  /** Lines 35-40 for a non-empty set of enthusiasts: score, rank, keep ten, join. The rows
      come sorted by score; each is a surviving movie with its lift, carrying the title and
      genres of a catalog row with that movie's id; with unique catalog ids there are at
      most ten, and exactly min(10, survivors) when every survivor is in the catalog. Some
      ten best survivors yield exactly these rows (KeepsBest). */
  function Recommend(ratings: seq<Rating>, users: set<int>, movies: seq<Movie>): (r: seq<Recommendation>)
    requires |users| > 0
    ensures RowsNonIncreasing(r)
    ensures UniqueIds(movies) ==> |r| <= TopCount
    ensures forall row :: row in r ==> row.score > 0.0
    ensures forall row :: row in r ==> exists s, c ::
      && s in Scores(ratings, users) && c in movies && c.id == s.movie
      && row == Recommendation(s.score, c.title, c.genres)
    ensures forall s, c ::
      (s in Scores(ratings, users) && c in movies && c.id == s.movie && Recommendation(s.score, c.title, c.genres) !in r)
      ==> forall row :: row in r ==> s.score <= row.score
    ensures |Scores(ratings, users)| <= TopCount ==> forall s, c ::
      s in Scores(ratings, users) && c in movies && c.id == s.movie ==> Recommendation(s.score, c.title, c.genres) in r
    ensures exists top :: KeepsBest(Scores(ratings, users), movies, r, top)
    ensures UniqueIds(movies) && (forall s :: s in Scores(ratings, users) ==> HasCatalogRow(movies, s.movie)) ==>
      |r| == if |Scores(ratings, users)| <= TopCount then |Scores(ratings, users)| else TopCount
  {
    var scored := Scores(ratings, users);
    RankedJoinKeepsBest(scored, movies);
    Join(Top(SortByScore(scored)), movies)
  }

  /** `top` is what ranking `scored` and keeping ten may yield and `r` is its join with the
      catalog: as many entries as `head(10)` keeps, each a scored entry, sorted, naming each
      movie once when the scored entries do, and scoring at least every entry left out; a
      row for each pair of a kept entry and a catalog row with its movie id, and no other. */
  ghost predicate KeepsBest(scored: seq<Scored>, movies: seq<Movie>, r: seq<Recommendation>, top: seq<Scored>) {
    && |top| == (if |scored| <= TopCount then |scored| else TopCount)
    && multiset(top) <= multiset(scored)
    && NonIncreasing(top)
    && (MoviesDistinct(scored) ==> MoviesDistinct(top))
    && (forall s, t :: s in scored && s !in top && t in top ==> s.score <= t.score)
    && (forall row :: row in r <==>
         exists s, c :: s in top && c in movies && c.id == s.movie && row == Recommendation(s.score, c.title, c.genres))
  }

  /** Ranking, keeping ten and joining loses only what scores at most every row kept: a
      movie with a catalog row that is missing from the result scores no higher than any row
      in it, and with at most ten movies nothing is missing. Every kept movie was scored, and
      the kept entries meet KeepsBest. */
  lemma RankedJoinKeepsBest(scored: seq<Scored>, movies: seq<Movie>)
    ensures var r := Join(Top(SortByScore(scored)), movies);
      forall s, c ::
        (s in scored && c in movies && c.id == s.movie && Recommendation(s.score, c.title, c.genres) !in r)
        ==> forall row :: row in r ==> s.score <= row.score
    ensures var r := Join(Top(SortByScore(scored)), movies);
      |scored| <= TopCount ==> forall s, c ::
        s in scored && c in movies && c.id == s.movie ==> Recommendation(s.score, c.title, c.genres) in r
    ensures forall s :: s in Top(SortByScore(scored)) ==> s in scored
    ensures KeepsBest(scored, movies, Join(Top(SortByScore(scored)), movies), Top(SortByScore(scored)))
    ensures UniqueIds(movies) && (forall s :: s in scored ==> HasCatalogRow(movies, s.movie)) ==>
      |Join(Top(SortByScore(scored)), movies)| == |Top(SortByScore(scored))|
  {
    JoinOfTopDominates(scored, movies);
    JoinOfTopKeepsBest(scored, movies);
  }

  /** A scored movie with a catalog row that the join of the ranked top ten misses scores at
      most every row in it; with at most ten scored movies there is no such movie. */
  lemma JoinOfTopDominates(scored: seq<Scored>, movies: seq<Movie>)
    ensures var r := Join(Top(SortByScore(scored)), movies);
      forall s, c ::
        (s in scored && c in movies && c.id == s.movie && Recommendation(s.score, c.title, c.genres) !in r)
        ==> forall row :: row in r ==> s.score <= row.score
    ensures var r := Join(Top(SortByScore(scored)), movies);
      |scored| <= TopCount ==> forall s, c ::
        s in scored && c in movies && c.id == s.movie ==> Recommendation(s.score, c.title, c.genres) in r
    ensures forall s :: s in Top(SortByScore(scored)) ==> s in scored
  {
    var ranked := SortByScore(scored);
    var top := Top(ranked);
    var r := Join(top, movies);
    SortedSameMembers(scored);
    forall s | s in top ensures s in scored {
      var k :| 0 <= k < |top| && top[k] == s;
      assert ranked[k] == s;
    }
    forall s, c | s in scored && c in movies && c.id == s.movie && Recommendation(s.score, c.title, c.genres) !in r
      ensures forall row :: row in r ==> s.score <= row.score
    {
      TopDominatesDropped(ranked, s);
      JoinScoresAtLeast(top, movies, s.score);
    }
    if |scored| <= TopCount {
      assert top == ranked;
    }
  }

  /** The join of what `head(10)` keeps of the ranked entries meets KeepsBest, and has one row
      per kept entry when catalog ids are unique and every scored movie is in the catalog. */
  lemma JoinOfTopKeepsBest(scored: seq<Scored>, movies: seq<Movie>)
    ensures KeepsBest(scored, movies, Join(Top(SortByScore(scored)), movies), Top(SortByScore(scored)))
    ensures UniqueIds(movies) && (forall s :: s in scored ==> HasCatalogRow(movies, s.movie)) ==>
      |Join(Top(SortByScore(scored)), movies)| == |Top(SortByScore(scored))|
  {
    TopOfRanked(scored);
  }

  /** What `head(10)` keeps of the ranked entries: as many as it may, drawn from them, sorted,
      naming each movie once when they do, and scoring at least every entry it leaves. */
  lemma TopOfRanked(scored: seq<Scored>)
    ensures var top := Top(SortByScore(scored));
      && |top| == (if |scored| <= TopCount then |scored| else TopCount)
      && multiset(top) <= multiset(scored)
      && NonIncreasing(top)
      && (forall s :: s in top ==> s in scored)
      && (MoviesDistinct(scored) ==> MoviesDistinct(top))
      && (forall s, t :: s in scored && s !in top && t in top ==> s.score <= t.score)
  {
    var ranked := SortByScore(scored);
    var top := Top(ranked);
    SortedSameMembers(scored);
    forall s | s in top ensures s in scored {
      var k :| 0 <= k < |top| && top[k] == s;
      assert ranked[k] == s;
    }
    forall s, t | s in scored && s !in top && t in top ensures s.score <= t.score {
      TopDominatesDropped(ranked, s);
    }
    if MoviesDistinct(scored) {
      SortMoviesDistinct(scored);
    }
  }

  /** Sorting keeps the members and the length. */
  lemma SortedSameMembers(s: seq<Scored>)
    ensures |SortByScore(s)| == |s|
    ensures forall x :: x in s <==> x in SortByScore(s)
  {
    var r := SortByScore(s);
    assert |multiset(r)| == |multiset(s)|;
    assert forall x :: x in s <==> x in multiset(s);
    assert forall x :: x in r <==> x in multiset(r);
  }

  /** An entry of a sorted list that `head` drops scores at most every entry it keeps. */
  lemma TopDominatesDropped(ranked: seq<Scored>, s: Scored)
    requires NonIncreasing(ranked) && s in ranked && s !in Top(ranked)
    ensures forall t :: t in Top(ranked) ==> s.score <= t.score
  {
    var top := Top(ranked);
    var b :| 0 <= b < |ranked| && ranked[b] == s;
    forall t | t in top ensures s.score <= t.score {
      var a :| 0 <= a < |top| && top[a] == t;
    }
  }

  /** Every joined row carries the score of one of the movies joined, so a bound on those
      scores bounds the rows. */
  lemma JoinScoresAtLeast(top: seq<Scored>, movies: seq<Movie>, v: real)
    requires forall t :: t in top ==> v <= t.score
    ensures forall row :: row in Join(top, movies) ==> v <= row.score
  {
    var r := Join(top, movies);
    forall row | row in r ensures v <= row.score {
      var k :| 0 <= k < |r| && r[k] == row;
      assert HasScore(top, r[k].score);
    }
  }

  /** `collaborative_based_search`: fails exactly when no title contains the query; with no
      enthusiasts every series is empty and so is the result. */
  function CollaborativeSearch(query: string, movies: seq<Movie>, ratings: seq<Rating>): (r: Result<seq<Recommendation>, SearchError>)
    ensures r.Err? <==> FindAnchor(query, movies).None?
    ensures r.Ok? ==> RowsNonIncreasing(r.value)
    ensures r.Ok? && UniqueIds(movies) ==> |r.value| <= TopCount
    ensures r.Ok? ==> var anchor := movies[FindAnchor(query, movies).value].id;
      var users := Enthusiasts(ratings, anchor);
      (|users| > 0 ==> r.value == Recommend(ratings, users, movies)) && (|users| == 0 ==> r.value == [])
  {
    match FindAnchor(query, movies)
    case None => Err(NoTitleMatch)
    case Some(i) =>
      var users := Enthusiasts(ratings, movies[i].id);
      if |users| == 0 then Ok([]) else Ok(Recommend(ratings, users, movies))
  }

  // ---------------------------------------------------------------- equal popularity

  /** When every rating is a high rating by an enthusiast of the anchor and every rated
      movie survives, each surviving movie is exactly as popular with the enthusiasts as with
      everyone: its lift is 1. For example, with two users who both rated movies 1 and 2
      above 4, a query for movie 1 scores movie 2 at 1. */
  lemma UniformLiftIsOne(ratings: seq<Rating>, anchor: int, m: int)
    requires |Enthusiasts(ratings, anchor)| > 0
    requires forall x :: x in ratings ==> x.user in Enthusiasts(ratings, anchor) && High(x)
    requires forall x :: x in ratings ==> x.movie in Candidates(ratings, Enthusiasts(ratings, anchor))
    requires m in Candidates(ratings, Enthusiasts(ratings, anchor))
    ensures Lift(ratings, Enthusiasts(ratings, anchor), m) == 1.0
  {
    var users := Enthusiasts(ratings, anchor);
    EnthusiastsAreRaters(ratings, anchor);
    CandidatesRated(ratings, users, m);
    EqualShares(ratings, users, Candidates(ratings, users), m);
    QuotientSelf(SimilarShare(ratings, users, m));
  }

  /** When only enthusiasts rate, the raters are exactly the enthusiasts. */
  lemma EnthusiastsAreRaters(ratings: seq<Rating>, anchor: int)
    requires forall x :: x in ratings ==> x.user in Enthusiasts(ratings, anchor)
    ensures |Users(ratings)| == |Enthusiasts(ratings, anchor)|
  {
    var users := Enthusiasts(ratings, anchor);
    forall u | u in Users(ratings) ensures u in users {
      var x :| x in ratings && x.user == u;
    }
    forall u | u in users ensures u in Users(ratings) {
      var x :| x in ratings && x.movie == anchor && High(x) && x.user == u;
    }
    assert Users(ratings) == users;
  }

  /** When every rating is a high rating by one of `users`, who are as many as the raters,
      and `cs` covers every rated movie, a movie's all share equals its similar share. */
  lemma EqualShares(ratings: seq<Rating>, users: set<int>, cs: seq<int>, m: int)
    requires |users| > 0 && |Users(ratings)| == |users|
    requires forall x :: x in ratings ==> x.user in users && High(x)
    requires forall x :: x in ratings ==> x.movie in cs
    requires |Users(AllRows(ratings, cs))| > 0
    ensures AllShare(ratings, cs, m) == SimilarShare(ratings, users, m)
  {
    FilterKeepsAll(ratings, (r: Rating) => r.user in users && High(r));
    assert SimilarRows(ratings, users) == ratings;
    FilterKeepsAll(ratings, (r: Rating) => r.movie in cs && High(r));
    assert AllRows(ratings, cs) == ratings;
  }

  lemma QuotientSelf(a: real)
    requires a > 0.0
    ensures a / a == 1.0
  {
  }
}
