# Movie recommender engine — a Dafny model

This project models the recommendation engine of the movie-search app in
`project_22-jan/src/main.py`. The Streamlit page around it is not modelled. The engine has four parts:

- **Title normalisation** (`clean_title`): delete every character outside `[a-zA-Z0-9 ]`.
  The content search applies the same filter to the query.
- **Content-based search** (`content_based_search`): given one similarity score per catalog
  row, pick the positions of the five highest scores
  (`np.argpartition(similarity, -5)[-5:]`), read them back to front, and return those catalog rows.
- **Collaborative search** (`collaborative_based_search`). Steps:
  - Resolve the query to an anchor movie, the first title that contains it, ignoring case.
  - Take the users who rated the anchor above 4 (the *enthusiasts*).
  - Count, for each movie, the enthusiasts' rating rows above 4 about it, divided by the
    number of enthusiasts (its *similar share*). Keep every movie whose similar share is
    above 0.10. With one rating per (user, movie) this is the fraction of enthusiasts who
    rated the movie above 4; with repeated ratings it is a row count and can exceed 1.
  - Take every rating row above 4 about a kept movie, by anyone. A kept movie's *all share*
    is its number of such rows divided by the number of distinct users among them.
  - Score each kept movie by its *lift*: similar share divided by all share.
  - Sort by score and keep ten.
  - Join with the catalog for title and genres.
- **Feedback capture** (`store_rating`, `star_rating`). `store_rating` appends one
  `(method, query, rating)` record to the feedback log. `star_rating` keeps a per-session
  entry for each search method, and it logs a rating only when the rating is positive and differs
  from that method's previous entry.

Files, one module each:
- `wrappers.dfy`: Option and Result.
- `seqs.dfy`: boolean-mask filtering, `unique()`-style de-duplication, reversal.
- `catalog.dfy`: the catalog row.
- `titles.dfy`: normalisation and case-insensitive matching.
- `content_search.dfy`: the top-5 selection.
- `collaborative.dfy`: the collaborative filter.
- `feedback.dfy`: the feedback log, plus the class `RatingSession` for the session state
  that `star_rating` updates in place.

Every share and lift is an exact rational (`real`); the source's float64 arithmetic is not
modelled (see "Left out").

Behaviour of the code that a reader might not expect, which the model follows:
- **Fewer than five catalog rows.** One might expect all rows to come back ranked. The code's
  `argpartition` with kth = -5 raises instead, so `TopPositions` returns `Err(KthOutOfBounds)`.
- **Order of content results.** The five rows are not sorted by score. numpy only fixes the
  k-th element: the lowest of the five is first in the partition tail, and it is last
  after the reversal. The model claims only that, plus the set property (five distinct
  rows, none scored below a row left out).
- **No enthusiasts.** This is not reported as an error. Every series becomes empty
  (an empty series divided by 0 is still empty), so the search returns no rows. The model returns `Ok([])`.
- **Zero all-share.** The code has no guard against an all-share of 0, and none is needed:
  the model proves that the denominator is positive for every movie that survives (`Lift`,
  `AllShareBounds`).
- **When the other method is cleared.** The other method's entry is reset on every
  `star_rating` run, not only when the user switches method, and the model does the same.

## Model

| member | source | states |
|---|---|---|
| `Titles.CleanTitle` | project_22-jan/src/main.py:13-15 | the result is no longer than the title, holds only ASCII letters, digits and spaces, and holds a character exactly when the title holds it and it is one of those |
| `Titles.CleanTitleCounts` | project_22-jan/src/main.py:14 | every kept character occurs exactly as often as in the title; every other character occurs zero times |
| `Titles.CleanTitleConcat` | project_22-jan/src/main.py:14 | cleaning distributes over concatenation, so kept characters keep their original order |
| `Titles.CleanTitleFixpoint` | project_22-jan/src/main.py:13-15 | a title is unchanged by cleaning exactly when all its characters are letters, digits or spaces |
| `Titles.CleanTitleIdempotent` | project_22-jan/src/main.py:13-15 | cleaning twice gives the same as cleaning once |
| `Titles.Lower` | project_22-jan/src/main.py:25 | ASCII lower-casing keeps the length, leaves no upper-case ASCII letter, and changes only upper-case letters, each to its lower-case form |
| `Titles.IsSubstringAt` | project_22-jan/src/main.py:25 | the substring scan holds exactly when the pattern sits at some offset of the text |
| `ContentSearch.Largest` | project_22-jan/src/main.py:20 | k distinct valid positions, ordered by non-increasing score, and no position left out scores above a chosen one |
| `ContentSearch.PartitionTail` | project_22-jan/src/main.py:20 | `argpartition(s, -k)[-k:]`: k distinct valid positions, none beaten by a position left out, the first holding the lowest of the k scores |
| `ContentSearch.TopPositions` | project_22-jan/src/main.py:20-21 | fails exactly when there are fewer than five scores; otherwise five distinct valid positions that dominate the rest, the last the lowest of the five |
| `ContentSearch.ContentBasedSearch` | project_22-jan/src/main.py:17-22 | fails exactly when the catalog has fewer than five rows; otherwise five rows, row a being the catalog row at the a-th selected position |
| `Titles.ContainsIgnoreCaseAt` | project_22-jan/src/main.py:25 | a title contains the query, ignoring ASCII case, exactly when the lower-cased query sits at some offset of the lower-cased title |
| `Collaborative.FindAnchor` | project_22-jan/src/main.py:25 | the first catalog row, by position, whose title contains the query ignoring ASCII case; None exactly when no title does |
| `Collaborative.CountMovie` | project_22-jan/src/main.py:29 | `value_counts`: the count of a movie is its multiplicity in the movie column; it is at most the number of rows, and positive exactly when some row is about it |
| `Collaborative.Raters` | project_22-jan/src/main.py:27 | a user is a rater of a movie exactly when some row pairs that user with that movie |
| `Collaborative.EnthusiastsOfHighRows` | project_22-jan/src/main.py:27 | the enthusiasts are exactly the raters of the anchor among the rows above 4; there are at most as many as the anchor has rows above 4, and exactly as many with one rating per (user, movie) |
| `Collaborative.SimilarRows` | project_22-jan/src/main.py:28 | a row is kept exactly when it is a rating above 4 by one of the given users; no more rows than the ratings, and no user outside the given ones |
| `Collaborative.SimilarShare` | project_22-jan/src/main.py:28-29 | the similar share is non-negative, and positive exactly when one of the users rated the movie above 4 |
| `Collaborative.AllRows` | project_22-jan/src/main.py:32 | a row is kept exactly when it rates a surviving movie above 4; no more rows than the ratings |
| `Collaborative.AllShare` | project_22-jan/src/main.py:32-33 | the all share (the movie's rows above 4 over `Users` of those rows, the `unique()` of line 33) is non-negative, and positive exactly when the movie survives and someone rated it above 4 |
| `Collaborative.Share` | project_22-jan/src/main.py:29 | a share is non-negative, at most 1 exactly when the count is at most the population, 1 exactly when they are equal, positive exactly when the count is |
| `Collaborative.Candidates` | project_22-jan/src/main.py:28-31 | each movie appears once, and a movie appears exactly when its similar share is above 0.10 |
| `Collaborative.CandidatesRated` | project_22-jan/src/main.py:31-33 | for a surviving movie, some user rated a surviving movie high and the movie itself has a high rating, so its all-share has a non-zero numerator and denominator |
| `Collaborative.AnchorSurvives` | project_22-jan/src/main.py:25-31 | given enthusiasts, the anchor's similar share is at least 1 and the anchor survives the filter; with one rating per (user, movie) its share is exactly 1 |
| `Collaborative.SimilarShareAtMostOne` | project_22-jan/src/main.py:27-29 | with one rating per (user, movie), no similar share exceeds 1 |
| `Collaborative.AllShareBounds` | project_22-jan/src/main.py:32-33 | the all-share of a surviving movie is defined and positive, and at most 1 with one rating per (user, movie) |
| `Collaborative.RatersAtMostCount` | project_22-jan/src/main.py:29 | a movie has no more distinct raters than rows |
| `Collaborative.RatersExact` | project_22-jan/src/main.py:29 | with one rating per (user, movie), a movie's row count equals its number of distinct raters |
| `Collaborative.FilterUniquePairs` | project_22-jan/src/main.py:28 | selecting rating rows keeps (user, movie) pairs unique |
| `Collaborative.Lift` | project_22-jan/src/main.py:37 | the lift of a surviving movie is defined and positive |
| `Collaborative.Scores` | project_22-jan/src/main.py:35-37 | a scored entry is present exactly when its movie survives and its score is that movie's lift; one entry per surviving movie, each movie once |
| `Collaborative.UniformLiftIsOne` | project_22-jan/src/main.py:27-37 | when every rating is a high rating by an enthusiast of the anchor and every rated movie survives, every survivor's lift is exactly 1 |
| `Collaborative.Insert` | project_22-jan/src/main.py:38 | inserting into a score-sorted list keeps it sorted and adds exactly that entry |
| `Collaborative.SortByScore` | project_22-jan/src/main.py:38 | the result is sorted by non-increasing score and is a permutation of the input |
| `Collaborative.Top` | project_22-jan/src/main.py:40 | `head(10)`: the prefix of exactly min(10, n) entries, a sub-multiset of the input that names each movie once when the input does; on a sorted list it stays sorted and no dropped entry scores above a kept one |
| `Collaborative.InsertMoviesDistinct` | project_22-jan/src/main.py:38 | inserting an entry for a movie not yet in a sorted list keeps each movie named once |
| `Collaborative.SortMoviesDistinct` | project_22-jan/src/main.py:38 | sorting a list that names each movie once keeps it so |
| `Collaborative.TopOfRanked` | project_22-jan/src/main.py:38-40 | sorting then keeping ten yields min(10, n) entries, a sub-multiset of the scored ones, sorted, each movie once when the input names each once, and each scoring at least every entry left out |
| `Collaborative.RowsFor` | project_22-jan/src/main.py:40 | the catalog rows with a movie's id, each carrying its score; none when no row has that id, at most one with unique ids, and exactly one with unique ids when some row has that id |
| `Collaborative.Join` | project_22-jan/src/main.py:40 | a row is present exactly when a top movie and a catalog row with its id produce it; sorted input gives sorted rows; with unique ids no more rows than top movies, and exactly as many when every top movie has a catalog row |
| `Collaborative.RankedJoinKeepsBest` | project_22-jan/src/main.py:38-40 | after sorting, keeping ten and joining, a scored movie with a catalog row whose result row is missing scores at most every row present; with at most ten movies every movie's catalog rows are present; the kept entries meet `KeepsBest` (min(10, n) of them, drawn from the scored ones, sorted, each movie once when the input names each once, scoring at least every entry left out, and the rows are exactly their catalog join); with unique ids and every scored movie in the catalog, one row per kept entry |
| `Collaborative.JoinOfTopDominates` | project_22-jan/src/main.py:38-40 | a scored movie with a catalog row missing from the joined top ten scores at most every row present; with at most ten scored movies none is missing |
| `Collaborative.JoinOfTopKeepsBest` | project_22-jan/src/main.py:38-40 | the sorted top ten and its join meet `KeepsBest`; with unique ids and every scored movie in the catalog, one row per kept entry |
| `Collaborative.Recommend` | project_22-jan/src/main.py:35-40 | rows are sorted by score, each has a positive score and is a surviving movie's lift with the title and genres of a catalog row with that id; a surviving movie's row that is missing scores at most every row present, and with at most ten survivors none is missing; at most ten with unique catalog ids; some list of kept entries meets `KeepsBest` for the scored survivors and the result, so an empty result with survivors happens only when no kept movie has a catalog row; with unique ids and every survivor in the catalog there are exactly min(10, survivors) rows |
| `Collaborative.CollaborativeSearch` | project_22-jan/src/main.py:24-40 | fails exactly when no title matches the query; otherwise the result is `Recommend` for the first matching movie's enthusiasts, or empty when it has none; the rows are score-sorted, and there are at most ten with unique catalog ids |
| `Feedback.StoreRating` | project_22-jan/src/main.py:42-48 | a missing or non-positive value leaves the log unchanged; any other value appends exactly one record (method, query, value) and leaves the earlier records untouched |
| `Feedback.OtherMethod` | project_22-jan/src/main.py:65 | the method cleared is never the current one, and the two selector methods map to each other |
| `Feedback.RatingStep` | project_22-jan/src/main.py:56-92 | afterwards the other method's entry is (0, "") and this method's entry is (stars, query), with stars 0 on reset, and no other entry changes; the log gains one record, this rating, exactly when stars are positive and differ from the previous entry, and is otherwise unchanged |
| `Feedback.RepeatedRatingLoggedOnce` | project_22-jan/src/main.py:72-92 | a second identical run changes neither the session nor the log, so the rating is logged at most once |
| `Feedback.SwitchingBackLogsAgain` | project_22-jan/src/main.py:64-90 | rating with the other method in between clears this method's entry, so the same positive rating for the same query is logged again |
| `Feedback.RatingSession.StarRating` | project_22-jan/src/main.py:56-92 | the new session entries and the returned log are exactly those of `RatingStep` applied to the old entries |

## Left out

- The Streamlit page: session page flag, navbar HTML and its script, CSS injection, text input, method radio, search button and `display_results` (main.py:9-11, 50-53, 116-180). These are presentation only.
- The star widget and the reset button (main.py:76-83). They are foreign widgets, so their outputs are the inputs `widgetStars` and `resetPressed` of `StarRating`.
- File I/O: reading the catalog, the ratings and the feedback log, and writing the log (main.py:47, 101-114). `StoreRating` returns the log that would be written. The feedback log is passed in as the sequence read from the file.
- TF-IDF vectorising and cosine similarity (main.py:18-19, 105-106). These are floating-point library calls. The similarity vector is an input, one score per catalog row. Cleaning the query (line 18) and the catalog titles (line 103) is `CleanTitle`.
- ContentSearch.PartitionTail: does not model numpy's order among the four highest positions. The model fixes one order, and the contracts claim only where the lowest of the five is.
- Collaborative.SortByScore: does not model the tie order of pandas' unstable sort. The model picks one order, and the contract claims only sortedness and permutation.
- Collaborative.FindAnchor: `str.contains` is a regex match with Unicode case folding in the source. The model uses a literal substring test with ASCII case folding, so a query with regex metacharacters (or one that is not a valid regex, which makes the source raise) is treated as plain text.
- Collaborative.CollaborativeSearch: assumes the merge of line 40 keeps the order of the left keys and lists each key's catalog matches in catalog order. The "at most ten rows" bound is proved only for catalogs with unique movie ids, because a merge with duplicate ids yields one row per match.
- Floating point in the collaborative filter. The source computes the similar share, the all share and the lift in float64 (main.py:29, 33, 37), keeps movies above the float `.10` (line 31), and sorts float scores (line 38). The model uses exact rationals. A share within rounding distance of 0.10 can fall on the other side of the filter, and two lifts closer than the rounding error can come out in the other order, which changes `SortByScore`, `Top` and `Recommend`.
- The session keeps `<method>_stars` and `<method>_query` as two entries. The model keeps one `Entry(stars, query)` per method, because the code always writes the two together.
- Debug output and dead code: the `print` calls (main.py:43, 91), `st.empty()` (main.py:95) and the `data`/`switch_page` block (main.py:183-186).
- `project_22-jan/src/pages/user_stat.py`: it only loads CSV files and draws charts.
