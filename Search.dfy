/**
 * `performSearch`: each post of the index gets a score from the query's
 * terms; posts scoring 0 are dropped, the rest are stably sorted by
 * descending score and cut to the first twenty.
 *
 * The index, a module variable of the script, is a parameter here.
 */
module Search {
  import opened Wrappers
  import opened Strings

  /** One entry of the search index. `tags` may be absent from the JSON record. */
  datatype Post = Post(title: string, content: string, tags: Option<seq<string>>, url: string, date: string)

  /** A post with its score attached (`{ ...post, score }`). */
  datatype Scored = Scored(post: Post, score: int)

  /** Queries shorter than this return no results. */
  const MinQueryLength: nat := 2
  /** At most this many results are returned. */
  const MaxResults: nat := 20

  const TitleWeight: nat := 10
  const TagWeight: nat := 5
  const ContentWeight: nat := 1

  /** `post.tags || []`. */
  function Tags(p: Post): seq<string> {
    p.tags.GetOr([])
  }

  /** The text a term is looked up in for the tag weight: tags joined by one space, lower-cased. */
  function TagText(p: Post): string {
    Lower(Join(Tags(p), " "))
  }

  /** `query.toLowerCase().split(/\s+/)`: empty pieces are kept. */
  function Terms(query: string): seq<string> {
    Split(Lower(query))
  }

  /** What one occurrence of `term` in the query adds to the score of `p`. */
  function TermScore(p: Post, term: string): nat {
    (if Contains(Lower(p.title), term) then TitleWeight else 0)
    + (if Contains(TagText(p), term) then TagWeight else 0)
    + (if Contains(Lower(p.content), term) then ContentWeight else 0)
  }

  /** The score of `p`: the sum of `TermScore` over the terms, repeats included. */
  function Score(p: Post, terms: seq<string>): nat {
    if terms == [] then 0
    else Score(p, terms[..|terms| - 1]) + TermScore(p, terms[|terms| - 1])
  }

  /**
   * The `forEach` over the terms: starts at 0 and adds the weight of each
   * field that contains the term.
   */
  method ScorePost(post: Post, terms: seq<string>) returns (score: nat)
    ensures score == Score(post, terms)
  {
    score := 0;
    var titleLower := Lower(post.title);
    var contentLower := Lower(post.content);
    var tagsLower := Lower(Join(Tags(post), " "));
    for i := 0 to |terms|
      invariant score == Score(post, terms[..i])
    {
      var term := terms[i];
      if Contains(titleLower, term) {
        score := score + TitleWeight;
      }
      if Contains(tagsLower, term) {
        score := score + TagWeight;
      }
      if Contains(contentLower, term) {
        score := score + ContentWeight;
      }
      assert terms[..i + 1][..i] == terms[..i];
    }
    assert terms[..|terms|] == terms;
  }

  /** The `map` step: every post paired with its score, in index order. */
  function ScoreAll(index: seq<Post>, terms: seq<string>): (r: seq<Scored>)
    ensures |r| == |index|
    ensures forall j :: 0 <= j < |index| ==> r[j] == Scored(index[j], Score(index[j], terms))
  {
    if index == [] then []
    else ScoreAll(index[..|index| - 1], terms) + [Scored(index[|index| - 1], Score(index[|index| - 1], terms))]
  }

  /** The `filter` step: the entries with a positive score, in order. */
  function Positive(xs: seq<Scored>): seq<Scored> {
    if xs == [] then []
    else if xs[0].score > 0 then [xs[0]] + Positive(xs[1..])
    else Positive(xs[1..])
  }

  /** The entries of `xs` whose score is `v`, in order. */
  function WithScore(xs: seq<Scored>, v: int): seq<Scored> {
    if xs == [] then []
    else if xs[0].score == v then [xs[0]] + WithScore(xs[1..], v)
    else WithScore(xs[1..], v)
  }

  /** Scores never increase from left to right. */
  predicate SortedDesc(xs: seq<Scored>) {
    forall i, j :: 0 <= i < j < |xs| ==> xs[i].score >= xs[j].score
  }

  /** Puts `x` after every entry of `sorted` whose score is at least its own. */
  function Insert(sorted: seq<Scored>, x: Scored): (r: seq<Scored>)
    ensures |r| == |sorted| + 1
  {
    if sorted == [] then [x]
    else if sorted[0].score >= x.score then [sorted[0]] + Insert(sorted[1..], x)
    else [x] + sorted
  }

  /** The `sort((a, b) => b.score - a.score)` step, as a stable insertion sort. */
  function SortByScore(xs: seq<Scored>): (r: seq<Scored>)
    ensures |r| == |xs|
  {
    if xs == [] then []
    else Insert(SortByScore(xs[..|xs| - 1]), xs[|xs| - 1])
  }

  /** The `slice(0, 20)` step. */
  function Top(xs: seq<Scored>): (r: seq<Scored>)
    ensures |r| <= MaxResults
    ensures r <= xs
    ensures |xs| <= MaxResults ==> r == xs
    ensures |xs| > MaxResults ==> r == xs[..MaxResults]
  {
    if |xs| <= MaxResults then xs else xs[..MaxResults]
  }

  /** The ranking before the cut: positive scores, stably sorted by descending score. */
  function Ranking(index: seq<Post>, terms: seq<string>): seq<Scored> {
    SortByScore(Positive(ScoreAll(index, terms)))
  }

  /** What `performSearch(query)` returns for the index `index`. */
  function SearchResults(index: seq<Post>, query: string): seq<Scored> {
    if |query| < MinQueryLength then []
    else Top(Ranking(index, Terms(query)))
  }

  /**
   * `performSearch`: a scoring pass over the index, then filter, sort and
   * cut. Its result is the specification function `SearchResults`, and the
   * properties the page relies on are restated here.
   */
  method PerformSearch(index: seq<Post>, query: string) returns (results: seq<Scored>)
    ensures results == SearchResults(index, query)
    ensures |query| < MinQueryLength ==> results == []
    ensures |results| <= MaxResults
    ensures forall k :: 0 <= k < |results| ==> results[k].score > 0
    ensures SortedDesc(results)
  {
    if |query| < MinQueryLength {
      return [];
    }
    var terms := Terms(query);
    var scored: seq<Scored> := [];
    for j := 0 to |index|
      invariant scored == ScoreAll(index[..j], terms)
    {
      var s := ScorePost(index[j], terms);
      assert index[..j + 1][..j] == index[..j];
      scored := scored + [Scored(index[j], s)];
    }
    assert index[..|index|] == index;
    results := Top(SortByScore(Positive(scored)));
    SearchPositive(index, query);
    SearchSorted(index, query);
  }

  // ---------------------------------------------------------------------
  // Scores

  /** A post's score is additive over the concatenation of term lists. */
  lemma {:induction false} ScoreAppend(p: Post, a: seq<string>, b: seq<string>)
    ensures Score(p, a + b) == Score(p, a) + Score(p, b)
    decreases |b|
  {
    if b == [] {
      assert a + b == a;
    } else {
      var b' := b[..|b| - 1];
      ScoreAppend(p, a, b');
      assert (a + b)[..|a + b| - 1] == a + b';
    }
  }

  /** Repeating the query's terms doubles every score: repeats are never merged. */
  lemma RepeatedTermsDouble(p: Post, terms: seq<string>)
    ensures Score(p, terms + terms) == 2 * Score(p, terms)
  {
    ScoreAppend(p, terms, terms);
  }

  /** The empty term is contained in every field, so it adds all three weights. */
  lemma EmptyTermScoresAll(p: Post)
    ensures TermScore(p, "") == TitleWeight + TagWeight + ContentWeight
  {
    ContainsEmpty(Lower(p.title));
    ContainsEmpty(TagText(p));
    ContainsEmpty(Lower(p.content));
  }

  /** A post scores 0 exactly when no term occurs in its title, tags or content. */
  lemma {:induction false} ScoreZeroIff(p: Post, terms: seq<string>)
    ensures Score(p, terms) == 0 <==> forall k :: 0 <= k < |terms| ==> TermScore(p, terms[k]) == 0
    decreases |terms|
  {
    if terms != [] {
      var init := terms[..|terms| - 1];
      ScoreZeroIff(p, init);
      assert forall k :: 0 <= k < |init| ==> init[k] == terms[k];
    }
  }

  /**
   * A leading or trailing blank in the query yields an empty term, which
   * every post contains: then every post scores at least 16 and survives
   * the filter.
   */
  lemma BlankEdgeMatchesEverything(p: Post, query: string)
    requires query != [] && (IsSpace(query[0]) || IsSpace(query[|query| - 1]))
    ensures Score(p, Terms(query)) >= TitleWeight + TagWeight + ContentWeight
  {
    var terms := Terms(query);
    var lq := Lower(query);
    assert IsSpace(lq[0]) || IsSpace(lq[|lq| - 1]) by {
      assert lq[0] == LowerChar(query[0]);
      assert lq[|lq| - 1] == LowerChar(query[|query| - 1]);
    }
    var k: nat;
    if IsSpace(lq[0]) {
      LeadingSpaceGivesEmptyPiece(lq);
      k := 0;
    } else {
      TrailingSpaceGivesEmptyPiece(lq);
      k := |terms| - 1;
    }
    EmptyTermScoresAll(p);
    ScoreAtLeastTerm(p, terms, k);
  }

  /** Every single term's contribution is part of the score. */
  lemma {:induction false} ScoreAtLeastTerm(p: Post, terms: seq<string>, k: nat)
    requires k < |terms|
    ensures Score(p, terms) >= TermScore(p, terms[k])
    decreases |terms|
  {
    if k < |terms| - 1 {
      ScoreAtLeastTerm(p, terms[..|terms| - 1], k);
    }
  }

  // ---------------------------------------------------------------------
  // Filtering and order

  lemma {:induction false} WithScoreAppend(a: seq<Scored>, b: seq<Scored>, v: int)
    ensures WithScore(a + b, v) == WithScore(a, v) + WithScore(b, v)
    decreases |a|
  {
    if a == [] {
      assert a + b == b;
    } else {
      assert (a + b)[1..] == a[1..] + b;
      WithScoreAppend(a[1..], b, v);
    }
  }

  lemma {:induction false} WithScoreAbsent(xs: seq<Scored>, v: int)
    requires forall k :: 0 <= k < |xs| ==> xs[k].score != v
    ensures WithScore(xs, v) == []
    decreases |xs|
  {
    if xs != [] {
      WithScoreAbsent(xs[1..], v);
    }
  }

  /** The filter works entry by entry: filtering a concatenation concatenates the filtered parts, in order. */
  lemma {:induction false} PositiveAppend(a: seq<Scored>, b: seq<Scored>)
    ensures Positive(a + b) == Positive(a) + Positive(b)
    decreases |a|
  {
    if a == [] {
      assert a + b == b;
    } else {
      assert (a + b)[1..] == a[1..] + b;
      PositiveAppend(a[1..], b);
    }
  }

  /** Filtering on `score > 0` keeps exactly the entries with a positive score, in order. */
  lemma {:induction false} PositiveKeepsPositive(xs: seq<Scored>)
    ensures forall k :: 0 <= k < |Positive(xs)| ==> Positive(xs)[k].score > 0
    ensures multiset(Positive(xs)) <= multiset(xs)
    ensures forall v :: v > 0 ==> WithScore(Positive(xs), v) == WithScore(xs, v)
    ensures forall v :: v <= 0 ==> WithScore(Positive(xs), v) == []
    decreases |xs|
  {
    if xs != [] {
      PositiveKeepsPositive(xs[1..]);
      assert xs == [xs[0]] + xs[1..];
    }
  }

  lemma {:induction false} InsertKeepsElements(sorted: seq<Scored>, x: Scored)
    ensures multiset(Insert(sorted, x)) == multiset(sorted) + multiset{x}
    decreases |sorted|
  {
    if sorted != [] && sorted[0].score >= x.score {
      InsertKeepsElements(sorted[1..], x);
      assert sorted == [sorted[0]] + sorted[1..];
    }
  }

  /** Inserting keeps every score at most `b` when the list and the new entry respect `b`. */
  lemma {:induction false} InsertBelow(sorted: seq<Scored>, x: Scored, b: int)
    requires forall k :: 0 <= k < |sorted| ==> sorted[k].score <= b
    requires x.score <= b
    ensures forall k :: 0 <= k < |Insert(sorted, x)| ==> Insert(sorted, x)[k].score <= b
    decreases |sorted|
  {
    if sorted != [] && sorted[0].score >= x.score {
      InsertBelow(sorted[1..], x, b);
      assert Insert(sorted, x) == [sorted[0]] + Insert(sorted[1..], x);
    }
  }

  lemma {:induction false} InsertKeepsOrder(sorted: seq<Scored>, x: Scored)
    requires SortedDesc(sorted)
    ensures SortedDesc(Insert(sorted, x))
    decreases |sorted|
  {
    if sorted != [] && sorted[0].score >= x.score {
      var tail := sorted[1..];
      InsertKeepsOrder(tail, x);
      InsertBelow(tail, x, sorted[0].score);
      var r := Insert(tail, x);
      var r' := Insert(sorted, x);
      assert r' == [sorted[0]] + r;
      forall i, j | 0 <= i < j < |r'|
        ensures r'[i].score >= r'[j].score
      {
        if i > 0 {
          assert r'[i] == r[i - 1] && r'[j] == r[j - 1];
        } else {
          assert r'[j] == r[j - 1];
        }
      }
    }
  }

  lemma {:induction false} InsertKeepsTies(sorted: seq<Scored>, x: Scored, v: int)
    requires SortedDesc(sorted)
    ensures WithScore(Insert(sorted, x), v) == WithScore(sorted, v) + (if x.score == v then [x] else [])
    decreases |sorted|
  {
    if sorted == [] {
    } else if sorted[0].score >= x.score {
      var tail := sorted[1..];
      InsertKeepsTies(tail, x, v);
      assert Insert(sorted, x) == [sorted[0]] + Insert(tail, x);
    } else {
      assert forall k :: 0 <= k < |sorted| ==> sorted[k].score < x.score;
      WithScoreAbsent(sorted, x.score);
    }
  }

  /**
   * The sort is a stable sort: its output is in non-increasing score
   * order, is a permutation of its input, and lists the entries of each
   * score in their input order.
   */
  lemma {:induction false} SortByScoreIsStableSort(xs: seq<Scored>)
    ensures SortedDesc(SortByScore(xs))
    ensures multiset(SortByScore(xs)) == multiset(xs)
    ensures forall v :: WithScore(SortByScore(xs), v) == WithScore(xs, v)
    decreases |xs|
  {
    if xs != [] {
      var init := xs[..|xs| - 1];
      var x := xs[|xs| - 1];
      SortByScoreIsStableSort(init);
      InsertKeepsOrder(SortByScore(init), x);
      InsertKeepsElements(SortByScore(init), x);
      assert xs == init + [x];
      forall v
        ensures WithScore(SortByScore(xs), v) == WithScore(xs, v)
      {
        InsertKeepsTies(SortByScore(init), x, v);
        WithScoreAppend(init, [x], v);
      }
    }
  }

  // ---------------------------------------------------------------------
  // The search as a whole

  /** A query shorter than two characters finds nothing, whatever the index. */
  lemma ShortQueryFindsNothing(index: seq<Post>, query: string)
    requires |query| < MinQueryLength
    ensures SearchResults(index, query) == []
  {
  }

  /** An empty index (not loaded, or failed to load) finds nothing, whatever the query. */
  lemma EmptyIndexFindsNothing(query: string)
    ensures SearchResults([], query) == []
  {
    if |query| >= MinQueryLength {
      assert Positive(ScoreAll([], Terms(query))) == [];
    }
  }

  /** Every result has a positive score. */
  lemma SearchPositive(index: seq<Post>, query: string)
    ensures forall k :: 0 <= k < |SearchResults(index, query)| ==> SearchResults(index, query)[k].score > 0
  {
    if |query| >= MinQueryLength {
      var pos := Positive(ScoreAll(index, Terms(query)));
      PositiveKeepsPositive(ScoreAll(index, Terms(query)));
      SortByScoreIsStableSort(pos);
      var r := SearchResults(index, query);
      forall k | 0 <= k < |r|
        ensures r[k].score > 0
      {
        assert r[k] in multiset(SortByScore(pos));
        assert r[k] in multiset(pos);
        var m :| 0 <= m < |pos| && pos[m] == r[k];
      }
    }
  }

  /** Results come in non-increasing score order. */
  lemma SearchSorted(index: seq<Post>, query: string)
    ensures SortedDesc(SearchResults(index, query))
  {
    if |query| >= MinQueryLength {
      SortByScoreIsStableSort(Positive(ScoreAll(index, Terms(query))));
    }
  }

  /**
   * Every result is a post of the index, its fields untouched, carrying the
   * score of that post for the query.
   */
  lemma SearchFromIndex(index: seq<Post>, query: string)
    ensures forall k :: 0 <= k < |SearchResults(index, query)| ==>
      exists j :: 0 <= j < |index| && SearchResults(index, query)[k] == Scored(index[j], Score(index[j], Terms(query)))
  {
    if |query| >= MinQueryLength {
      var all := ScoreAll(index, Terms(query));
      var pos := Positive(all);
      PositiveKeepsPositive(all);
      SortByScoreIsStableSort(pos);
      var r := SearchResults(index, query);
      forall k | 0 <= k < |r|
        ensures exists j :: 0 <= j < |index| && r[k] == Scored(index[j], Score(index[j], Terms(query)))
      {
        assert r[k] in multiset(SortByScore(pos));
        assert r[k] in multiset(all);
        var j :| 0 <= j < |all| && all[j] == r[k];
      }
    } else {
      assert SearchResults(index, query) == [];
    }
  }

  /**
   * Ties keep index order: for every score, the results with that score
   * are the first ones, in index order, of the scored posts with that score.
   */
  lemma SearchStable(index: seq<Post>, query: string)
    ensures forall v :: WithScore(SearchResults(index, query), v) <= WithScore(ScoreAll(index, Terms(query)), v)
  {
    if |query| >= MinQueryLength {
      CutStable(ScoreAll(index, Terms(query)));
    }
  }

  /**
   * Filtering, sorting and cutting keep, for every score, a prefix of the
   * entries of `all` with that score, in their order in `all`.
   */
  lemma CutStable(all: seq<Scored>)
    ensures forall v :: WithScore(Top(SortByScore(Positive(all))), v) <= WithScore(all, v)
  {
    var ranked := SortByScore(Positive(all));
    PositiveKeepsPositive(all);
    SortByScoreIsStableSort(Positive(all));
    forall v
      ensures WithScore(Top(ranked), v) <= WithScore(all, v)
    {
      var r := Top(ranked);
      assert ranked == r + ranked[|r|..];
      WithScoreAppend(r, ranked[|r|..], v);
      if v <= 0 {
        assert WithScore(ranked, v) == [];
      }
    }
  }

  /**
   * The cut keeps the best: there are min(20, number of posts with a
   * positive score) results, taken from the posts with a positive score,
   * and no positive-scoring post left out scores above any result.
   */
  lemma SearchKeepsBest(index: seq<Post>, query: string)
    requires |query| >= MinQueryLength
    ensures var pos := Positive(ScoreAll(index, Terms(query)));
      && |SearchResults(index, query)| == (if |pos| < MaxResults then |pos| else MaxResults)
      && multiset(SearchResults(index, query)) <= multiset(pos)
      && forall x: Scored, k :: x in multiset(pos) - multiset(SearchResults(index, query)) && 0 <= k < |SearchResults(index, query)| ==>
           x.score <= SearchResults(index, query)[k].score
  {
    CutKeepsBest(Positive(ScoreAll(index, Terms(query))));
  }

  /**
   * Sorting then cutting keeps min(20, |xs|) entries of `xs`, and none of
   * the entries it drops scores above one it keeps.
   */
  lemma CutKeepsBest(xs: seq<Scored>)
    ensures |Top(SortByScore(xs))| == (if |xs| < MaxResults then |xs| else MaxResults)
    ensures multiset(Top(SortByScore(xs))) <= multiset(xs)
    ensures forall x: Scored, k :: x in multiset(xs) - multiset(Top(SortByScore(xs))) && 0 <= k < |Top(SortByScore(xs))| ==>
      x.score <= Top(SortByScore(xs))[k].score
  {
    var ranked := SortByScore(xs);
    SortByScoreIsStableSort(xs);
    var r := Top(ranked);
    assert r == ranked[..|r|];
    PrefixKeepsBest(ranked, |r|);
  }

  /** A prefix of a list sorted by descending score holds entries that score at least as high as every entry left out. */
  lemma PrefixKeepsBest(ranked: seq<Scored>, n: nat)
    requires n <= |ranked| && SortedDesc(ranked)
    ensures multiset(ranked[..n]) <= multiset(ranked)
    ensures forall x: Scored, k :: x in multiset(ranked) - multiset(ranked[..n]) && 0 <= k < n ==> x.score <= ranked[k].score
  {
    var r := ranked[..n];
    var rest := ranked[n..];
    assert ranked == r + rest;
    assert multiset(ranked) == multiset(r) + multiset(rest);
    forall x: Scored, k | x in multiset(ranked) - multiset(r) && 0 <= k < n
      ensures x.score <= ranked[k].score
    {
      assert x in multiset(rest);
      var m :| 0 <= m < |rest| && rest[m] == x;
      assert ranked[n + m] == x;
    }
  }

  /** No occurrence of `term` when one of its characters matches no character of `s` after lower-casing. */
  lemma MissingCharMisses(s: string, term: string, k: nat)
    requires k < |term|
    requires forall j :: 0 <= j < |s| ==> LowerChar(s[j]) != term[k]
    ensures !Contains(Lower(s), term)
  {
    ContainsIff(Lower(s), term);
    assert forall i :: !OccursAt(Lower(s), term, i);
  }

  /** The post of the worked example below. */
  predicate IsCachingPost(p: Post) {
    p == Post("Intro to Caching", "A cache stores...", Some(["cache", "systems"]), "/p1", "2024-01-01")
  }

  lemma CachingTitleMisses(p: Post)
    requires IsCachingPost(p)
    ensures !Contains(Lower(p.title), "cache")
  {
    var title := p.title;
    assert forall j :: 0 <= j < |title| ==> title[j] != 'e' && title[j] != 'E';
    MissingCharMisses(title, "cache", 4);
  }

  lemma CachingTagsHit(p: Post)
    requires IsCachingPost(p)
    ensures Contains(TagText(p), "cache")
  {
    assert Join(["cache", "systems"], " ") == "cache systems";
    LowerOfLower("cache systems");
    assert "cache" <= TagText(p);
  }

  /** A term without upper-case letters that occurs in `s` occurs in its lower-cased form. */
  lemma PresentTermHits(s: string, term: string, i: nat)
    requires forall k :: 0 <= k < |term| ==> !('A' <= term[k] <= 'Z')
    requires i + |term| <= |s| && s[i..i + |term|] == term
    ensures Contains(Lower(s), term)
  {
    var c := Lower(s);
    forall k | i <= k < i + |term|
      ensures c[k] == s[k]
    {
      assert s[k] == term[k - i];
    }
    assert c[i..i + |term|] == term;
    ContainsIff(c, term);
    assert OccursAt(c, term, i);
  }

  lemma CachingContentHits(p: Post)
    requires IsCachingPost(p)
    ensures Contains(Lower(p.content), "cache")
  {
    var content := p.content;
    assert content[2..7] == "cache";
    PresentTermHits(content, "cache", 2);
  }

  lemma CachingTerms()
    ensures Terms("cache") == ["cache"]
    ensures Terms("cache cache") == ["cache", "cache"]
  {
    OneCacheTerm();
    TwoCacheTerms();
  }

  lemma OneCacheTerm()
    ensures Terms("cache") == ["cache"]
  {
    LowerOfLower("cache");
    assert Join(["cache"], " ") == "cache";
    SplitJoin(["cache"]);
  }

  lemma TwoCacheTerms()
    ensures Terms("cache cache") == ["cache", "cache"]
  {
    LowerOfLower("cache cache");
    assert Join(["cache", "cache"], " ") == "cache cache";
    SplitJoin(["cache", "cache"]);
  }

  /** A one-term query scores what that term adds. */
  lemma ScoreSingle(p: Post, term: string)
    ensures Score(p, [term]) == TermScore(p, term)
  {
    assert [term][..0] == [];
  }

  /** The term "cache" earns the post the tag and content weights only. */
  lemma CachingTermScore(p: Post)
    requires IsCachingPost(p)
    ensures TermScore(p, "cache") == TagWeight + ContentWeight
  {
    CachingTitleMisses(p);
    CachingTagsHit(p);
    CachingContentHits(p);
  }

  /**
   * A post titled "Intro to Caching", tagged "cache" and "systems", with
   * content "A cache stores...": the tags and the content contain "cache"
   * but the lower-cased title "intro to caching" does not (it has no 'e'),
   * so the query "cache" earns only the tag and content weights, 5 + 1 = 6,
   * and the query "cache cache" counts both terms, 12.
   */
  lemma CachingExample(p: Post)
    requires IsCachingPost(p)
    ensures Score(p, Terms("cache")) == 6
    ensures Score(p, Terms("cache cache")) == 12
  {
    CachingTerms();
    CachingTermScore(p);
    ScoreSingle(p, "cache");
    RepeatedTermsDouble(p, ["cache"]);
    assert ["cache"] + ["cache"] == ["cache", "cache"];
  }
}
