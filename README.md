# In-page search of a static site, modelled in Dafny

The site's search script (`assets/js/search.js`) loads a JSON index of
posts, scores every post against the typed query, keeps the twenty best
and renders them as HTML with the query terms highlighted. This project
models the pure part of that script and proves what it promises:

- `performSearch` (module `Search`): a query shorter than two characters
  finds nothing. Otherwise the query is lower-cased and split on runs of
  whitespace. Each post earns, per term and counting repeated terms each
  time, 10 if its lower-cased title contains the term, 5 if its lower-cased
  tags, joined by single spaces, contain it, and 1 if its lower-cased
  content contains it.
  Posts scoring 0 are dropped. The rest are sorted by descending score,
  stably, and cut to twenty. The per-term accumulation is a method with a
  loop, proved equal to the score function. The whole pipeline is a method
  proved equal to `SearchResults`, and the lemmas are about that function.
- `highlightText` and `escapeRegex` (module `Highlight`): each whitespace
  separated piece of the raw query that has two or more characters is
  escaped and turned into a global, case-insensitive pattern. Each such
  term wraps every match in `<mark>`/`</mark>`, leftmost first and without
  overlap, keeping the matched text as it was written. Each term works on
  the previous term's output. The replace is modelled as a scan into
  plain characters and hits (`Segment`). A separate definition,
  `LeftmostMatches`, says what a leftmost non-overlapping replace is, and
  the two are proved equal.
- `renderResults` (module `Render`): the markup string that is assigned to
  the results container, with the template literal's whitespace kept as
  written.
- The string primitives (module `Strings`) are ASCII `toLowerCase`,
  `includes`, `join` and `split(/\s+/)`, with the ECMAScript meaning of
  `\s`.

Consequences of the code that a reader of the script might not expect,
modelled as the code behaves:

- Empty terms are not discarded. A leading or trailing whitespace run in
  the query yields an empty term, and every string contains the empty
  string, so every post gains 16 points and survives the filter
  (`Search.BlankEdgeMatchesEverything`). The typed query is trimmed before
  the search, but the `q` URL parameter is not (search.js lines 113 and
  126).
- Nothing is escaped before it goes into the HTML. The url, the date and
  the tag labels are inserted verbatim, and titles and excerpts are
  inserted after highlighting only. No escaping property is stated.
- A title matches only when it contains the term itself, not a word
  derived from it. A post titled "Intro to Caching", tagged "cache" and
  "systems", with content "A cache stores...", earns no title weight for
  the query "cache": "intro to caching" has no 'e'. Lines 27-44 give it
  the tag and content weights only, 5 + 1 = 6, and 12 for "cache cache"
  (`Search.CachingExample`).

## Model

| member | source | states |
|---|---|---|
| Strings.Lower | assets/js/search.js:22 | `toLowerCase` with ASCII folding: same length, no upper-case ASCII letter left, every other character unchanged |
| Strings.Split | assets/js/search.js:22 | `split(/\s+/)`: the pieces between maximal `\s` runs; never an empty list, even for "" |
| Strings.Join | assets/js/search.js:29 | `join(' ')`: the pieces with one separator between neighbours; its split round trip is `Strings.SplitJoin` |
| Strings.Contains | assets/js/search.js:33 | `includes`: whether the term occurs somewhere; characterised by `Strings.ContainsIff` |
| Strings.SplitPiecesHaveNoSpace | assets/js/search.js:22 | no term produced by `split(/\s+/)` contains a whitespace character |
| Strings.SplitKeepsNonSpace | assets/js/search.js:22 | the terms, concatenated, are exactly the query's non-whitespace characters in order |
| Strings.LeadingSpaceGivesEmptyPiece | assets/js/search.js:22 | a query that starts with whitespace yields an empty first term |
| Strings.TrailingSpaceGivesEmptyPiece | assets/js/search.js:22 | a query that ends with whitespace yields an empty last term (and at least two terms) |
| Strings.SplitJoin | assets/js/search.js:22 | splitting words joined by single spaces gives the words back when no word holds whitespace and only the first and last are empty |
| Strings.SplitAtSpaceRun | assets/js/search.js:22 | a word followed by a run of one or more `\s` characters is one piece, with no empty piece between it and the rest: the `+` of `\s+` |
| Strings.ContainsIff | assets/js/search.js:33 | `includes` holds exactly when the term occurs at some index |
| Strings.ContainsEmpty | assets/js/search.js:33 | every string includes the empty term |
| Search.Tags | assets/js/search.js:29 | `post.tags \|\| []`: the tags, or none when the record has no tags |
| Search.TagText | assets/js/search.js:29 | the text the tag weight looks in: the tags joined by single spaces, lower-cased |
| Search.Terms | assets/js/search.js:22 | the search terms: the query lower-cased first, then split on `\s` runs, empty pieces kept |
| Search.TermScore | assets/js/search.js:31-44 | what one term adds: 10 if the lower-cased title includes it, 5 if the joined lower-cased tags do, 1 if the lower-cased content does |
| Search.Score | assets/js/search.js:26-44 | the post's score: the sum of `TermScore` over the terms, repeats included; its properties are the lemmas below |
| Search.ScorePost | assets/js/search.js:26-44 | the loop over the terms returns the post's score: the sum of the per-term weights 10/5/1 |
| Search.ScoreAll | assets/js/search.js:24-47 | the map pairs every post, in index order and with its fields unchanged, with its score |
| Search.Top | assets/js/search.js:50 | `slice(0, 20)`: all entries when there are at most 20, otherwise exactly the first 20 |
| Search.Ranking | assets/js/search.js:48-49 | the positive-score entries, stably sorted by descending score, before the cut |
| Search.SearchResults | assets/js/search.js:17-51 | the value `performSearch` returns: nothing for a query shorter than 2, otherwise the top 20 of the stably sorted positive scores |
| Search.PerformSearch | assets/js/search.js:17-51 | returns `SearchResults`: empty for a query shorter than 2, at most 20 results, all with a positive score, in non-increasing score order |
| Search.ScoreAppend | assets/js/search.js:31-44 | the score is additive over the concatenation of term lists |
| Search.RepeatedTermsDouble | assets/js/search.js:31-44 | repeating the query's terms doubles every post's score, because repeats are counted each time |
| Search.EmptyTermScoresAll | assets/js/search.js:29-44 | an empty term adds 10 + 5 + 1 = 16 to every post |
| Search.ScoreZeroIff | assets/js/search.js:31-48 | a post scores 0 exactly when no term occurs in its title, tags or content |
| Search.ScoreAtLeastTerm | assets/js/search.js:31-44 | each term's contribution is part of the score |
| Search.BlankEdgeMatchesEverything | assets/js/search.js:22-44 | a query with leading or trailing whitespace gives every post a score of at least 16 |
| Search.Positive | assets/js/search.js:48 | the `filter(post => post.score > 0)` step |
| Search.PositiveAppend | assets/js/search.js:48 | the filter works entry by entry: the filtered concatenation is the concatenation of the filtered parts, so input order is kept |
| Search.PositiveKeepsPositive | assets/js/search.js:48 | the filter keeps only positive-score entries, drawn from its input, and for each positive score exactly that score's entries in input order |
| Search.SortByScore | assets/js/search.js:49 | the `sort((a, b) => b.score - a.score)` step as an insertion sort, same length as its input; proved a stable sort by `Search.SortByScoreIsStableSort` |
| Search.InsertKeepsOrder | assets/js/search.js:49 | inserting into a descending list keeps it descending |
| Search.InsertKeepsElements | assets/js/search.js:49 | inserting adds exactly the inserted entry |
| Search.InsertKeepsTies | assets/js/search.js:49 | an inserted entry goes after the entries with its own score |
| Search.SortByScoreIsStableSort | assets/js/search.js:49 | the sort yields a descending permutation of its input in which the entries of each score keep their input order |
| Search.CutKeepsBest | assets/js/search.js:49-50 | sorting then cutting any scored list keeps min(20, its length) of its entries, and no dropped entry scores above a kept one |
| Search.CutStable | assets/js/search.js:48-50 | filtering, sorting and cutting keep, for each score, a prefix of that score's entries in their original order |
| Search.ShortQueryFindsNothing | assets/js/search.js:18-20 | a query shorter than two characters yields no results, whatever the index |
| Search.EmptyIndexFindsNothing | assets/js/search.js:24-25 | an empty index yields no results, whatever the query |
| Search.SearchPositive | assets/js/search.js:48 | every result has a positive score |
| Search.SearchSorted | assets/js/search.js:49 | results are in non-increasing score order |
| Search.SearchFromIndex | assets/js/search.js:24-47 | every result is a post of the index, fields unchanged, carrying that post's score |
| Search.SearchStable | assets/js/search.js:49-50 | for every score, the results with that score are the first of the index's posts with that score, in index order |
| Search.SearchKeepsBest | assets/js/search.js:48-50 | there are min(20, number of positive posts) results, drawn from the positive posts, and no positive post left out scores above a result |
| Search.MissingCharMisses | assets/js/search.js:27-33 | a term with a character absent from the lower-cased text is not contained in it |
| Search.PresentTermHits | assets/js/search.js:28-41 | a lower-case term written in the text is contained in the lower-cased text |
| Search.CachingTitleMisses | assets/js/search.js:27-33 | "intro to caching" does not contain "cache" |
| Search.CachingTagsHit | assets/js/search.js:29-37 | the tags "cache" and "systems", joined, contain "cache" |
| Search.CachingContentHits | assets/js/search.js:28-41 | the content "A cache stores..." contains "cache" |
| Search.CachingTerms | assets/js/search.js:22 | "cache" splits into one term, "cache cache" into two equal terms |
| Search.CachingExample | assets/js/search.js:22-44 | the "Intro to Caching" post scores 6 for "cache" and 12 for "cache cache" |
| Highlight.EscapeRegex | assets/js/search.js:92-94 | `escapeRegex`: a backslash before each of the characters `.*+?^${}()\|[]` and before the backslash; its properties are the escape lemmas below |
| Highlight.ReadLiteral | assets/js/search.js:86 | the literal string a pattern built from plain and backslash-escaped characters matches, or none for any other pattern |
| Highlight.EscapeReadsBack | assets/js/search.js:86 | the pattern built by `escapeRegex` matches exactly the term, as a literal |
| Highlight.ReadLiteralOnlyFromEscape | assets/js/search.js:92-94 | a backslash goes exactly before each special character: the only pattern denoting a string literally is its escape |
| Highlight.EscapeLength | assets/js/search.js:92-94 | the escaped length is the input length plus the number of special characters |
| Highlight.EscapeIdentityIff | assets/js/search.js:92-94 | escaping changes nothing exactly when there is no special character |
| Highlight.Segment | assets/js/search.js:86-87 | the global case-insensitive replace as a scan: a match is taken whole, otherwise one character is kept |
| Highlight.Marked | assets/js/search.js:87 | the `'<mark>$1</mark>'` replacement: each matched piece wrapped in the markers with its original text, other characters copied |
| Highlight.WrapMatches | assets/js/search.js:87 | one term step: every piece the scan matched wrapped in `<mark>` and `</mark>` |
| Highlight.SegmentIsLeftmost | assets/js/search.js:86-87 | the replace keeps the text, wraps only case-insensitive matches, and leaves no match starting at an unwrapped character |
| Highlight.LeftmostIsSegment | assets/js/search.js:86-87 | any leftmost non-overlapping segmentation of the text is the replace's: the two definitions agree |
| Highlight.SegmentSpellsInput | assets/js/search.js:87 | deleting the markers a step inserted gives back that step's input, original case included |
| Highlight.MarkedLength | assets/js/search.js:87 | each wrap adds 13 characters |
| Highlight.WrapMatchesLength | assets/js/search.js:87 | a step grows the text by 13 characters per match |
| Highlight.WrapMatchesUnchangedIff | assets/js/search.js:86-87 | a step leaves the text unchanged exactly when the term has no case-insensitive occurrence |
| Highlight.LongTerms | assets/js/search.js:83 | the `filter(t => t.length >= 2)` step |
| Highlight.LongTermsAppend | assets/js/search.js:83 | the filter works piece by piece: the filtered concatenation is the concatenation of the filtered parts, so query order and repeats are kept |
| Highlight.LongTermsSingle | assets/js/search.js:83 | a single piece is kept exactly when it has two or more characters |
| Highlight.HighlightTerms | assets/js/search.js:83 | the highlight terms: the raw query split on `\s` runs, not lower-cased, keeping pieces of two or more characters |
| Highlight.ApplyTerms | assets/js/search.js:84-88 | the terms applied one after the other, each to the previous step's output |
| Highlight.Highlighted | assets/js/search.js:81-90 | the value `highlightText` returns: the text for an empty query, otherwise the long pieces of the raw query applied in order |
| Highlight.LongTermsAreLong | assets/js/search.js:83 | the filter keeps only pieces of two or more characters, and drops everything exactly when every piece is shorter |
| Highlight.HighlightText | assets/js/search.js:81-90 | the loop returns `Highlighted`; it gives back the text unchanged when no query piece has two or more characters, and never shortens the text |
| Highlight.HighlightWithoutLongTerms | assets/js/search.js:82-83 | an empty query, or one with no piece of length 2 or more, leaves the text unchanged |
| Highlight.ApplyTermsAppend | assets/js/search.js:84-88 | terms are applied in query order, each to the previous step's output |
| Highlight.AbsentTermChangesNothing | assets/js/search.js:85-88 | a term with no occurrence in the running text leaves it unchanged |
| Render.TagBadge | assets/js/search.js:63 | one tag as `<span class="search-tag">` + the tag verbatim + `</span>` |
| Render.Articles | assets/js/search.js:61-76 | `results.map(...).join('')`: one article per result, in order, with nothing between them |
| Render.RenderResults | assets/js/search.js:56-76 | the markup `renderResults` puts in the page: the no-results paragraph for no results, otherwise the articles joined |
| Render.Article | assets/js/search.js:66-75 | the template literal for one result, with the template's whitespace as written |
| Render.TagsHtml | assets/js/search.js:62-64 | the tag badges joined with nothing between them |
| Render.RenderEmpty | assets/js/search.js:56-59 | an empty result list renders exactly `<p class="no-results">No results found</p>` |
| Render.RenderEmptyIndex | assets/js/search.js:56-57 | with an empty index, the page shows the no-results paragraph |
| Render.ArticlesAppend | assets/js/search.js:61-76 | the joined markup of two lists is the markup of the first followed by that of the second |
| Render.RenderInOrder | assets/js/search.js:61-76 | one article per result, in result order |
| Render.TagsHtmlAppend | assets/js/search.js:62-64 | the joined badges of two tag lists are those of the first followed by those of the second |
| Render.TagsInOrder | assets/js/search.js:62-64 | one `<span class="search-tag">` per tag, in tag order, holding the tag verbatim |
| Render.NoTagsNoBadges | assets/js/search.js:62 | a post with missing or empty tags gets no badge |
| Render.ArticleFieldsVerbatim | assets/js/search.js:66-70 | the url stands verbatim in the `href` right after the fixed article opening, and the date verbatim in `<time>` |
| Render.PlainArticleWithoutLongTerms | assets/js/search.js:66-75 | without a query piece of two or more characters, title and excerpt appear verbatim |

## Left out

- `loadSearchIndex` (search.js lines 8-15): a network fetch and a JSON parse. The index is a parameter of the search instead of a module variable, and a failed load is the empty index.
- `debounce` and `init` (search.js lines 96-136): timers, event listeners, `URLSearchParams` and DOM lookups. This includes the `trim()` of the typed query and the 300 ms and 500 ms delays.
- The `innerHTML` assignments and the `if (!searchResults) return` guard of `renderResults` (lines 54, 57, 78). Rendering returns the markup string instead.
- Unicode case folding: `toLowerCase` and the regular expression's `i` flag are modelled with ASCII case folding only.
- String lengths: JavaScript counts UTF-16 code units in `query.length` and `t.length`, and the model counts characters. They differ only for characters outside the Basic Multilingual Plane.
- Search.Post: every record has a string `title` and `content` and, when present, an array of strings as `tags`. A record with a missing or null `title` or `content` makes `toLowerCase` throw a TypeError out of `performSearch` (lines 27-28). Truthy `tags` that are not an array make `join` throw (line 29). A record without `url` or `date` renders the text `undefined` in the `href` or the `<time>` element (lines 68 and 70). The model has no such record and no such error path.
- The `!query` test for a missing query: the model's query is always a string, and the empty string is handled by the length test.
- The regular-expression engine itself: only the patterns `escapeRegex` produces are read (`ReadLiteral`), and matching a literal case-insensitively is modelled directly.
- `Search.SortByScore` is an insertion sort rather than the engine's own algorithm. Any stable sort gives the same output, and `Array.prototype.sort` has been required to be stable since ECMAScript 2019.
- `Search.Scored` does not model a `score` field already present in a JSON record, which `{ ...post, score }` would overwrite.
- `Highlight.Segment` requires a non-empty term. An empty pattern, which matches everywhere, never arises because terms shorter than two characters are filtered out first.
- assets/js/code-copy.js: clipboard and DOM code with no algorithm.
