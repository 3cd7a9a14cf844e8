/** Title text handling: the `[^a-zA-Z0-9 ]` filter of `clean_title` and the
    case-insensitive substring test used to resolve a title query. */
module Titles {
  import opened Seqs

  /** The characters the pattern `[^a-zA-Z0-9 ]` does not delete. */
  predicate IsTitleChar(c: char) {
    ('a' <= c <= 'z') || ('A' <= c <= 'Z') || ('0' <= c <= '9') || c == ' '
  }

  /** `clean_title`: delete every character that is not an ASCII letter, digit or space.
      The same filter is applied to a content-search query before vectorising it. */
  function CleanTitle(title: string): (r: string)
    ensures |r| <= |title|
    ensures forall i :: 0 <= i < |r| ==> IsTitleChar(r[i])
    ensures forall c :: c in r <==> c in title && IsTitleChar(c)
  {
    Filter(title, IsTitleChar)
  }

  /** Cleaning works character by character: it distributes over concatenation,
      so the kept characters stay in their original order. */
  lemma CleanTitleConcat(a: string, b: string)
    ensures CleanTitle(a + b) == CleanTitle(a) + CleanTitle(b)
  {
    FilterConcat(a, b, IsTitleChar);
  }

  /** A title made only of kept characters is left unchanged, and only such a title is. */
  lemma CleanTitleFixpoint(title: string)
    ensures CleanTitle(title) == title <==> forall i :: 0 <= i < |title| ==> IsTitleChar(title[i])
  {
    if forall i :: 0 <= i < |title| ==> IsTitleChar(title[i]) {
      FilterKeepsAll(title, IsTitleChar);
    } else {
      var i :| 0 <= i < |title| && !IsTitleChar(title[i]);
      FilterDrops(title, IsTitleChar, title[i]);
    }
  }

  /** `clean_title` is idempotent. */
  lemma CleanTitleIdempotent(title: string)
    ensures CleanTitle(CleanTitle(title)) == CleanTitle(title)
  {
    CleanTitleFixpoint(CleanTitle(title));
  }

  /** Each kept character occurs as often as in the input; every other character is gone. */
  lemma {:induction false} CleanTitleCounts(title: string, c: char)
    ensures multiset(CleanTitle(title))[c] == if IsTitleChar(c) then multiset(title)[c] else 0
  {
    if title != [] {
      assert title == [title[0]] + title[1..];
      CleanTitleCounts(title[1..], c);
    }
  }

  /** ASCII lower-casing of one character. */
  function LowerChar(c: char): char {
    if 'A' <= c <= 'Z' then (c as int + 32) as char else c
  }

  /** ASCII lower-casing of a string: same length, no upper-case ASCII letter left,
      and every other character kept. */
  function Lower(s: string): (r: string)
    ensures |r| == |s|
    ensures forall i :: 0 <= i < |r| ==> !('A' <= r[i] <= 'Z')
    ensures forall i :: 0 <= i < |r| ==> r[i] == s[i] || ('A' <= s[i] <= 'Z' && r[i] as int == s[i] as int + 32)
  {
    seq(|s|, i requires 0 <= i < |s| => LowerChar(s[i]))
  }

  /** Whether `pattern` occurs in `text` as a contiguous block. */
  predicate IsSubstring(pattern: string, text: string)
    decreases |text|
  {
    pattern <= text || (text != [] && IsSubstring(pattern, text[1..]))
  }

  /** `pattern` sits in `text` at offset `i`. */
  predicate OccursAt(pattern: string, text: string, i: int) {
    0 <= i <= |text| && pattern <= text[i..]
  }

  /** Dropping the first character of the text moves every offset down by one. */
  lemma OccursAtShift(pattern: string, text: string, i: int)
    requires text != [] && 0 <= i
    ensures OccursAt(pattern, text[1..], i) <==> OccursAt(pattern, text, i + 1)
  {
    if i <= |text| - 1 {
      assert text[1..][i..] == text[i + 1..];
    }
  }

  /** The scan agrees with the textbook definition: some offset at which the pattern sits. */
  lemma {:induction false} IsSubstringAt(pattern: string, text: string)
    ensures IsSubstring(pattern, text) <==> exists i :: OccursAt(pattern, text, i)
  {
    if pattern <= text {
      assert text[0..] == text;
      assert OccursAt(pattern, text, 0);
    } else if text == [] {
      assert forall i :: !OccursAt(pattern, text, i);
    } else {
      var tail := text[1..];
      IsSubstringAt(pattern, tail);
      assert text[0..] == text;
      forall i | OccursAt(pattern, tail, i) ensures OccursAt(pattern, text, i + 1) {
        OccursAtShift(pattern, text, i);
      }
      forall i | OccursAt(pattern, text, i) ensures OccursAt(pattern, tail, i - 1) {
        OccursAtShift(pattern, text, i - 1);
      }
    }
  }

  /** `title.str.contains(query, case=False)`, read as a literal ASCII case-insensitive
      substring test. */
  predicate ContainsIgnoreCase(title: string, query: string) {
    IsSubstring(Lower(query), Lower(title))
  }

  /** The title contains the query, ignoring case, exactly when the lower-cased query sits at
      some offset of the lower-cased title. */
  lemma ContainsIgnoreCaseAt(title: string, query: string)
    ensures ContainsIgnoreCase(title, query) <==> exists i :: OccursAt(Lower(query), Lower(title), i)
  {
    IsSubstringAt(Lower(query), Lower(title));
  }
}
