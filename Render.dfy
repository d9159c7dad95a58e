/**
 * The markup `renderResults` assigns to the results container, as a
 * string. Titles and excerpts go through `highlightText`; the url, the
 * date and the tag labels are inserted as they are, and nothing is
 * escaped.
 */
module Render {
  import opened Wrappers
  import opened Strings
  import opened Search
  import opened Highlight

  /** The markup shown when there is nothing to list. */
  const NoResults: string := "<p class=\"no-results\">No results found</p>"

  /** The text of the template literal up to the url. */
  const ArticleOpen: string := "\n        <article class=\"search-result\">\n          <a href=\""
  const AfterUrl: string := "\" class=\"search-result-title\">"
  const AfterTitle: string := "</a>\n          <div class=\"search-result-meta\">\n            <time>"
  const AfterDate: string := "</time>\n            "
  const AfterTags: string := "\n          </div>\n          <p class=\"search-result-excerpt\">"
  const ArticleClose: string := "</p>\n        </article>\n      "

  const TagOpen: string := "<span class=\"search-tag\">"
  const TagClose: string := "</span>"

  /** One tag badge. */
  function TagBadge(tag: string): string {
    TagOpen + tag + TagClose
  }

  /** `(post.tags || []).map(tag => ...).join('')`. */
  function TagsHtml(tags: seq<string>): string {
    Concat(seq(|tags|, i requires 0 <= i < |tags| => TagBadge(tags[i])))
  }

  /** The template literal for one result. */
  function Article(p: Post, query: string): string {
    ArticleOpen + p.url + AfterUrl + Highlighted(p.title, query) + AfterTitle
    + p.date + AfterDate + TagsHtml(Tags(p)) + AfterTags
    + Highlighted(p.content, query) + ArticleClose
  }

  /** `results.map(post => ...).join('')`. */
  function Articles(results: seq<Scored>, query: string): string {
    Concat(seq(|results|, i requires 0 <= i < |results| => Article(results[i].post, query)))
  }

  /** The markup `renderResults(results, query)` puts in the page. */
  function RenderResults(results: seq<Scored>, query: string): string {
    if results == [] then NoResults else Articles(results, query)
  }

  /** An empty result list renders exactly the "no results" paragraph. */
  lemma RenderEmpty(query: string)
    ensures RenderResults([], query) == "<p class=\"no-results\">No results found</p>"
  {
  }

  /** Nothing is found in an empty index, so the page says so. */
  lemma RenderEmptyIndex(query: string)
    ensures RenderResults(SearchResults([], query), query) == NoResults
  {
    EmptyIndexFindsNothing(query);
  }

  lemma ArticlesAppend(a: seq<Scored>, b: seq<Scored>, query: string)
    ensures Articles(a + b, query) == Articles(a, query) + Articles(b, query)
  {
    var f := i requires 0 <= i < |a + b| => Article((a + b)[i].post, query);
    var fa := i requires 0 <= i < |a| => Article(a[i].post, query);
    var fb := i requires 0 <= i < |b| => Article(b[i].post, query);
    assert seq(|a + b|, f) == seq(|a|, fa) + seq(|b|, fb);
    ConcatAppend(seq(|a|, fa), seq(|b|, fb));
  }

  /** A single result renders as its article. */
  lemma ArticlesSingle(x: Scored, query: string)
    ensures Articles([x], query) == Article(x.post, query)
  {
    assert seq(1, i requires 0 <= i < 1 => Article([x][i].post, query)) == [Article(x.post, query)];
    ConcatSingle(Article(x.post, query));
  }

  /**
   * One article per result, in result order: the markup of a non-empty
   * list is the markup of its first part followed by that of the rest, and
   * a single result renders as its own article.
   */
  lemma RenderInOrder(a: seq<Scored>, b: seq<Scored>, query: string)
    requires a != [] && b != []
    ensures RenderResults(a + b, query) == RenderResults(a, query) + RenderResults(b, query)
    ensures RenderResults([a[0]], query) == Article(a[0].post, query)
  {
    ArticlesAppend(a, b, query);
    ArticlesSingle(a[0], query);
  }

  lemma TagsHtmlAppend(a: seq<string>, b: seq<string>)
    ensures TagsHtml(a + b) == TagsHtml(a) + TagsHtml(b)
  {
    var f := i requires 0 <= i < |a + b| => TagBadge((a + b)[i]);
    var fa := i requires 0 <= i < |a| => TagBadge(a[i]);
    var fb := i requires 0 <= i < |b| => TagBadge(b[i]);
    assert seq(|a + b|, f) == seq(|a|, fa) + seq(|b|, fb);
    ConcatAppend(seq(|a|, fa), seq(|b|, fb));
  }

  /**
   * One badge per tag, in tag order, each holding the tag's text verbatim:
   * the first clause is `TagsHtmlAppend`, called here, and the second is
   * the badge of a single tag.
   */
  lemma TagsInOrder(a: seq<string>, b: seq<string>, tag: string)
    ensures TagsHtml(a + b) == TagsHtml(a) + TagsHtml(b)
    ensures TagsHtml([tag]) == "<span class=\"search-tag\">" + tag + "</span>"
  {
    TagsHtmlAppend(a, b);
    assert seq(1, i requires 0 <= i < 1 => TagBadge([tag][i])) == [TagBadge(tag)];
    ConcatSingle(TagBadge(tag));
  }

  /** A post without tags gets no badge. */
  lemma NoTagsNoBadges(p: Post)
    requires p.tags == None || p.tags == Some([])
    ensures TagsHtml(Tags(p)) == ""
  {
  }

  /**
   * Where the second and the sixth part of an eleven-part concatenation
   * (the shape of the article template) start and end.
   */
  lemma {:induction false} TemplateSlots(x1: string, x2: string, x3: string, x4: string, x5: string, x6: string,
                                         x7: string, x8: string, x9: string, x10: string, x11: string)
    ensures var a := x1 + x2 + x3 + x4 + x5 + x6 + x7 + x8 + x9 + x10 + x11;
      var d := |x1| + |x2| + |x3| + |x4| + |x5|;
      && d + |x6| <= |a|
      && a[..|x1|] == x1
      && a[|x1|..|x1| + |x2|] == x2
      && a[d..d + |x6|] == x6
  {
    var p2 := x1 + x2;
    var p6 := p2 + x3 + x4 + x5 + x6;
    var a := p6 + x7 + x8 + x9 + x10 + x11;
    var d := |x1| + |x2| + |x3| + |x4| + |x5|;
    assert a[..|p6|] == p6 by {
      assert forall i :: 0 <= i < |p6| ==> a[i] == p6[i];
    }
    assert p6[..|p2|] == p2 by {
      assert forall i :: 0 <= i < |p2| ==> p6[i] == p2[i];
    }
    assert a[d..d + |x6|] == p6[d..];
    assert a[|x1|..|x1| + |x2|] == p2[|x1|..];
  }

  /**
   * The url stands verbatim in the anchor's `href`, right after the
   * fixed opening of the article, and the date verbatim in the `<time>`
   * element, at a fixed distance from the end of the highlighted title.
   */
  lemma ArticleFieldsVerbatim(p: Post, query: string)
    ensures var a := Article(p, query);
      var u := |ArticleOpen|;
      var d := u + |p.url| + |AfterUrl| + |Highlighted(p.title, query)| + |AfterTitle|;
      && d + |p.date| <= |a|
      && a[..u] == ArticleOpen
      && a[u..u + |p.url|] == p.url
      && a[d..d + |p.date|] == p.date
  {
    TemplateSlots(ArticleOpen, p.url, AfterUrl, Highlighted(p.title, query), AfterTitle, p.date,
                  AfterDate, TagsHtml(Tags(p)), AfterTags, Highlighted(p.content, query), ArticleClose);
  }

  /** With no query term of two or more characters, title and excerpt appear verbatim. */
  lemma PlainArticleWithoutLongTerms(p: Post, query: string)
    requires forall k :: 0 <= k < |Split(query)| ==> |Split(query)[k]| < 2
    ensures Article(p, query) == ArticleOpen + p.url + AfterUrl + p.title + AfterTitle
      + p.date + AfterDate + TagsHtml(Tags(p)) + AfterTags + p.content + ArticleClose
  {
    HighlightWithoutLongTerms(p.title, query);
    HighlightWithoutLongTerms(p.content, query);
  }
}
