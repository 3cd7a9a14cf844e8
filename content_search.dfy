/** The selection step of `content_based_search`: the positions of the five highest
    similarity scores, `np.argpartition(similarity, -5)[-5:]`, read in reverse and
    mapped to catalog rows. The similarity vector itself (TF-IDF and cosine similarity
    over the cleaned query and titles) is an input: one score per catalog row. */
module ContentSearch {
  import opened Wrappers
  import opened Seqs
  import opened Catalog

  /** How many rows a content search returns. */
  const ResultCount: nat := 5

  /** `argpartition` with kth = -5 raises when the vector has fewer than five entries. */
  datatype SearchError = KthOutOfBounds(length: nat)

  /** `chosen` holds distinct valid row positions, and every chosen row scores at least
      as high as every row left out. */
  ghost predicate TopRows(scores: seq<real>, chosen: seq<nat>) {
    && NoDups(chosen)
    && (forall a :: 0 <= a < |chosen| ==> chosen[a] < |scores|)
    && (forall x, j :: x in chosen && 0 <= j < |scores| && j !in chosen ==> scores[j] <= scores[x])
  }

  /** A position from `i` on, not in `taken`, with the largest score among those; None when
      every position from `i` on is taken. */
  function BestFrom(scores: seq<real>, taken: seq<nat>, i: nat): (r: Option<nat>)
    decreases |scores| - i
    ensures r.None? <==> forall j :: i <= j < |scores| ==> j in taken
    ensures r.Some? ==> i <= r.value < |scores| && r.value !in taken
    ensures r.Some? ==> forall j :: i <= j < |scores| && j !in taken ==> scores[j] <= scores[r.value]
  {
    if i >= |scores| then None
    else
      var rest := BestFrom(scores, taken, i + 1);
      if i in taken then rest
      else if rest.None? || scores[rest.value] <= scores[i] then Some(i)
      else rest
  }

  /** The positions of the `k` highest scores, highest first. */
  function Largest(scores: seq<real>, k: nat): (r: seq<nat>)
    requires k <= |scores|
    ensures |r| == k && TopRows(scores, r)
    ensures forall a, b :: 0 <= a < b < k ==> scores[r[b]] <= scores[r[a]]
  {
    if k == 0 then []
    else
      var prev := Largest(scores, k - 1);
      SomeFree(prev, |scores|);
      var m := BestFrom(scores, prev, 0).value;
      NoDupsSnoc(prev, m);
      prev + [m]
  }

  /** `np.argpartition(scores, -k)[-k:]`: the positions of the `k` highest scores. numpy
      fixes only the place of the k-th element: the first of these positions holds the
      lowest of the `k` scores. The order of the others is left open; the model fixes one
      of the orders numpy may produce. */
  function PartitionTail(scores: seq<real>, k: nat): (r: seq<nat>)
    requires 0 < k <= |scores|
    ensures |r| == k && TopRows(scores, r)
    ensures forall a :: 0 <= a < k ==> scores[r[0]] <= scores[r[a]]
  {
    var l := Largest(scores, k);
    ReverseKeepsElements(l);
    Reverse(l)
  }

  /** Lines 20-21 up to the row lookup: the five positions, read back to front, so that
      the lowest-scored of the five comes last. */
  function TopPositions(scores: seq<real>): (r: Result<seq<nat>, SearchError>)
    ensures r.Err? <==> |scores| < ResultCount
    ensures r.Err? ==> r.error == KthOutOfBounds(|scores|)
    ensures r.Ok? ==> |r.value| == ResultCount && TopRows(scores, r.value)
    ensures r.Ok? ==> forall a :: 0 <= a < ResultCount ==> scores[r.value[ResultCount - 1]] <= scores[r.value[a]]
  {
    if |scores| < ResultCount then Err(KthOutOfBounds(|scores|))
    else
      var tail := PartitionTail(scores, ResultCount);
      ReverseKeepsElements(tail);
      Ok(Reverse(tail))
  }

  /** `content_based_search` given the similarity vector: the catalog rows at the five
      selected positions, in that order. Row i of the similarity vector belongs to
      catalog row i. */
  function ContentBasedSearch(scores: seq<real>, movies: seq<Movie>): (r: Result<seq<Movie>, SearchError>)
    requires |scores| == |movies|
    ensures r.Err? <==> |movies| < ResultCount
    ensures r.Ok? ==> |r.value| == ResultCount && TopPositions(scores).Ok?
    ensures r.Ok? ==> forall a :: 0 <= a < ResultCount ==> r.value[a] == movies[TopPositions(scores).value[a]]
  {
    match TopPositions(scores)
    case Err(e) => Err(e)
    case Ok(p) => Ok(seq(ResultCount, a requires 0 <= a < ResultCount => movies[p[a]]))
  }
}
