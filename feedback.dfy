/** Feedback capture: `store_rating` appends one (method, query, rating) record to the
    feedback log, and `star_rating` keeps per-method session state so that a rating is
    logged only when it differs from the last one given for that method. */
module Feedback {
  import opened Wrappers

  /** The two search methods, named as the method selector names them. */
  const ContentBased: string := "Content-Based"
  const CollaborativeBased: string := "Collaborative-Based"

  /** A row of the feedback log (`method`, `query`, `rating`). */
  datatype FeedbackRecord = FeedbackRecord(searchMethod: string, query: string, rating: int)

  /** What the session remembers for one method: the last star value and the query it was
      given for (the `<method>_stars` and `<method>_query` entries). */
  datatype Entry = Entry(stars: int, query: string)

  /** The state a method is reset to, and the default read for a method never seen. */
  const Cleared: Entry := Entry(0, "")

  /** `store_rating`, without the file write: a missing or non-positive value leaves the
      log as it is; any other value adds exactly one record at the end and leaves the
      earlier records untouched. */
  function StoreRating(value: Option<int>, searchMethod: string, query: string, log: seq<FeedbackRecord>): (r: seq<FeedbackRecord>)
    ensures log <= r
    ensures value.None? || value.value <= 0 ==> r == log
    ensures value.Some? && value.value > 0 ==> |r| == |log| + 1 && r[|log|] == FeedbackRecord(searchMethod, query, value.value)
  {
    if value.Some? && value.value > 0 then log + [FeedbackRecord(searchMethod, query, value.value)] else log
  }

  /** The method whose state `star_rating` clears: Collaborative-Based for Content-Based and
      Content-Based for anything else. It is never the method itself. */
  function OtherMethod(searchMethod: string): (r: string)
    ensures r != searchMethod
    ensures searchMethod == ContentBased ==> r == CollaborativeBased
    ensures searchMethod == CollaborativeBased ==> r == ContentBased
  {
    if searchMethod == ContentBased then CollaborativeBased else ContentBased
  }

  /** `session_state.get(key, default)` for a method's entry. */
  function Previous(session: map<string, Entry>, searchMethod: string): Entry {
    if searchMethod in session then session[searchMethod] else Cleared
  }

  /** The session state and the feedback log after a `star_rating` run. */
  datatype StepOutcome = StepOutcome(session: map<string, Entry>, log: seq<FeedbackRecord>)

  /** The stars `star_rating` works with: 0 when reset was pressed, else the widget's value. */
  function EffectiveStars(widgetStars: int, resetPressed: bool): int {
    if resetPressed then 0 else widgetStars
  }

  /** One `star_rating` run, as a function of the session before it, the query, the widget's
      value, whether reset was pressed, and the log read from the feedback file. Afterwards
      the other method's entry is cleared, this method's entry is the effective stars and the
      query, nothing else in the session changes, and one record is appended exactly when the
      stars are positive and differ, with the query, from this method's previous entry. */
  function RatingStep(session: map<string, Entry>, searchMethod: string, query: string, widgetStars: int,
                      resetPressed: bool, log: seq<FeedbackRecord>): (o: StepOutcome)
    ensures o.session.Keys == session.Keys + {searchMethod, OtherMethod(searchMethod)}
    ensures o.session[OtherMethod(searchMethod)] == Cleared
    ensures o.session[searchMethod] == Entry(EffectiveStars(widgetStars, resetPressed), query)
    ensures forall k :: k in session && k != searchMethod && k != OtherMethod(searchMethod) ==> o.session[k] == session[k]
    ensures log <= o.log
    ensures |o.log| == |log| + 1 <==>
      EffectiveStars(widgetStars, resetPressed) > 0 && Previous(session, searchMethod) != Entry(EffectiveStars(widgetStars, resetPressed), query)
    ensures |o.log| != |log| + 1 ==> o.log == log
    ensures |o.log| > |log| ==> o.log[|log|] == FeedbackRecord(searchMethod, query, EffectiveStars(widgetStars, resetPressed))
  {
    var cleared := session[OtherMethod(searchMethod) := Cleared];
    var prev := Previous(cleared, searchMethod);
    var stars := EffectiveStars(widgetStars, resetPressed);
    var next := cleared[searchMethod := Entry(stars, query)];
    if stars > 0 && (prev.stars != stars || prev.query != query) then
      StepOutcome(next, StoreRating(Some(stars), searchMethod, query, log))
    else
      StepOutcome(next, log)
  }

  /** Giving the same rating for the same query twice in a row logs it once: the second run
      appends nothing and leaves the session as the first run left it. */
  lemma RepeatedRatingLoggedOnce(session: map<string, Entry>, searchMethod: string, query: string, widgetStars: int,
                                 resetPressed: bool, log: seq<FeedbackRecord>)
    ensures var first := RatingStep(session, searchMethod, query, widgetStars, resetPressed, log);
            var second := RatingStep(first.session, searchMethod, query, widgetStars, resetPressed, first.log);
            second == first && |first.log| <= |log| + 1
  {
    var first := RatingStep(session, searchMethod, query, widgetStars, resetPressed, log);
    var second := RatingStep(first.session, searchMethod, query, widgetStars, resetPressed, first.log);
    assert second.session == first.session;
  }

  /** Rating with one method clears the other method's entry, so coming back to a method
      after rating with the other one logs the same rating for the same query again. */
  lemma SwitchingBackLogsAgain(session: map<string, Entry>, searchMethod: string, query: string, stars: int,
                               otherQuery: string, otherStars: int, log: seq<FeedbackRecord>)
    requires searchMethod == ContentBased || searchMethod == CollaborativeBased
    requires stars > 0
    ensures var first := RatingStep(session, searchMethod, query, stars, false, log);
            var away := RatingStep(first.session, OtherMethod(searchMethod), otherQuery, otherStars, false, first.log);
            var back := RatingStep(away.session, searchMethod, query, stars, false, away.log);
            back.log == away.log + [FeedbackRecord(searchMethod, query, stars)]
  {
    var first := RatingStep(session, searchMethod, query, stars, false, log);
    var away := RatingStep(first.session, OtherMethod(searchMethod), otherQuery, otherStars, false, first.log);
    assert OtherMethod(OtherMethod(searchMethod)) == searchMethod;
    assert Previous(away.session, searchMethod) == Cleared;
  }

  /** The per-session state `star_rating` keeps in `st.session_state`. */
  class RatingSession {
    var entries: map<string, Entry>

    constructor ()
      ensures entries == map[]
    {
      entries := map[];
    }

    /** `star_rating`: clear the other method's entry, read this method's previous entry,
        store the new one, and log the rating if it is positive and changed. Returns the log
        `store_rating` writes to the feedback file (the log passed in when nothing is
        logged). */
    method StarRating(searchMethod: string, query: string, widgetStars: int, resetPressed: bool,
                      log: seq<FeedbackRecord>) returns (newLog: seq<FeedbackRecord>)
      modifies this
      ensures StepOutcome(entries, newLog) == RatingStep(old(entries), searchMethod, query, widgetStars, resetPressed, log)
    {
      var other := OtherMethod(searchMethod);
      entries := entries[other := Cleared];
      var prev := Previous(entries, searchMethod);
      var stars := widgetStars;
      if resetPressed {
        stars := 0;
      }
      entries := entries[searchMethod := Entry(stars, query)];
      if stars > 0 && (prev.stars != stars || prev.query != query) {
        newLog := StoreRating(Some(stars), searchMethod, query, log);
      } else {
        newLog := log;
      }
    }
  }
}
