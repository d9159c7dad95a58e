/**
 * `highlightText` and `escapeRegex`: every case-insensitive occurrence of
 * each query term of two or more characters is wrapped in
 * `<mark>`...`</mark>`, one term after the other.
 *
 * A term reaches the regular-expression engine as the pattern
 * `(` + escapeRegex(term) + `)` with the flags `gi`. The model reads the
 * escaped pattern back to the literal it denotes (`ReadLiteral`) and
 * performs the global replace as an explicit left-to-right scan
 * (`Segment`), with ASCII case folding standing in for the `i` flag.
 */
module Highlight {
  import opened Wrappers
  import opened Strings

  // ---------------------------------------------------------------------
  // escapeRegex

  /** The characters `escapeRegex` escapes: . * + ? ^ $ { } ( ) | [ ] and the backslash. */
  predicate IsRegexSpecial(c: char) {
    c in ".*+?^${}()|[]\\"
  }

  /** `string.replace(/[.*+?^${}()|[\]\\]/g, '\\$&')`: a backslash before every special character. */
  function EscapeRegex(s: string): string {
    if s == [] then []
    else (if IsRegexSpecial(s[0]) then ['\\', s[0]] else [s[0]]) + EscapeRegex(s[1..])
  }

  /** The number of special characters in `s`. */
  function CountSpecial(s: string): nat {
    if s == [] then 0 else (if IsRegexSpecial(s[0]) then 1 else 0) + CountSpecial(s[1..])
  }

  /**
   * The string a pattern made only of ordinary characters and
   * backslash-escaped special characters matches, or `None` for any other
   * pattern (an unescaped special character, or a backslash that is not
   * followed by one).
   */
  function ReadLiteral(p: string): Option<string> {
    if p == [] then Some([])
    else if p[0] == '\\' then
      if |p| >= 2 && IsRegexSpecial(p[1]) then
        match ReadLiteral(p[2..])
        case Some(rest) => Some([p[1]] + rest)
        case None => None
      else None
    else if IsRegexSpecial(p[0]) then None
    else
      match ReadLiteral(p[1..])
      case Some(rest) => Some([p[0]] + rest)
      case None => None
  }

  /** The escaped pattern matches exactly the term it was built from. */
  lemma {:induction false} EscapeReadsBack(s: string)
    ensures ReadLiteral(EscapeRegex(s)) == Some(s)
    decreases |s|
  {
    if s != [] {
      EscapeReadsBack(s[1..]);
      var e := EscapeRegex(s);
      if IsRegexSpecial(s[0]) {
        assert e[0] == '\\' && e[1] == s[0] && e[2..] == EscapeRegex(s[1..]);
        assert [s[0]] + s[1..] == s;
      } else {
        assert e[0] == s[0] && e[1..] == EscapeRegex(s[1..]);
        assert [s[0]] + s[1..] == s;
      }
    }
  }

  /** Escaping is the only way to write a literal: a pattern reading as `s` is `EscapeRegex(s)`. */
  lemma {:induction false} ReadLiteralOnlyFromEscape(p: string, s: string)
    requires ReadLiteral(p) == Some(s)
    ensures p == EscapeRegex(s)
    decreases |p|
  {
    if p != [] {
      if p[0] == '\\' {
        var rest := ReadLiteral(p[2..]).value;
        ReadLiteralOnlyFromEscape(p[2..], rest);
        assert s == [p[1]] + rest;
        assert s[1..] == rest;
        assert p == ['\\', p[1]] + p[2..];
      } else {
        var rest := ReadLiteral(p[1..]).value;
        ReadLiteralOnlyFromEscape(p[1..], rest);
        assert s[1..] == rest;
        assert p == [p[0]] + p[1..];
      }
    }
  }

  /** Escaping adds one character per special character. */
  lemma {:induction false} EscapeLength(s: string)
    ensures |EscapeRegex(s)| == |s| + CountSpecial(s)
    decreases |s|
  {
    if s != [] {
      EscapeLength(s[1..]);
    }
  }

  /** Escaping changes nothing exactly when there is nothing to escape. */
  lemma EscapeIdentityIff(s: string)
    ensures EscapeRegex(s) == s <==> CountSpecial(s) == 0
  {
    EscapeLength(s);
    if CountSpecial(s) == 0 {
      NothingToEscape(s);
    }
  }

  lemma {:induction false} NothingToEscape(s: string)
    requires CountSpecial(s) == 0
    ensures EscapeRegex(s) == s
    decreases |s|
  {
    if s != [] {
      NothingToEscape(s[1..]);
    }
  }

  // ---------------------------------------------------------------------
  // One term: result.replace(/(term)/gi, '<mark>$1</mark>')

  const MarkOpen: string := "<mark>"
  const MarkClose: string := "</mark>"

  /** A case-insensitive occurrence of `t` in `s` at index `i`. */
  predicate MatchAt(s: string, t: string, i: int) {
    0 <= i && i + |t| <= |s| && Lower(s[i..i + |t|]) == Lower(t)
  }

  /** One piece of the text after a replace: a character left alone, or a matched text wrapped in a mark. */
  datatype Piece = Plain(c: char) | Hit(text: string)

  /**
   * The global replace as a scan: at each position, a match of `t` is
   * taken whole and scanning resumes after it; otherwise one character is
   * kept and scanning moves on by one.
   */
  function Segment(s: string, t: string): seq<Piece>
    requires |t| > 0
    decreases |s|
  {
    if s == [] then []
    else if MatchAt(s, t, 0) then [Hit(s[..|t|])] + Segment(s[|t|..], t)
    else [Plain(s[0])] + Segment(s[1..], t)
  }

  /** The text with the markers deleted. */
  function Source(ps: seq<Piece>): string {
    if ps == [] then []
    else (match ps[0] case Plain(c) => [c] case Hit(m) => m) + Source(ps[1..])
  }

  /** The text with each hit wrapped: `<mark>$1</mark>`. */
  function Marked(ps: seq<Piece>): string {
    if ps == [] then []
    else (match ps[0] case Plain(c) => [c] case Hit(m) => MarkOpen + m + MarkClose) + Marked(ps[1..])
  }

  /** The number of hits. */
  function HitCount(ps: seq<Piece>): nat {
    if ps == [] then 0 else (if ps[0].Hit? then 1 else 0) + HitCount(ps[1..])
  }

  /** One term step of `highlightText`. */
  function WrapMatches(s: string, t: string): string
    requires |t| > 0
  {
    Marked(Segment(s, t))
  }

  /** Where piece `k` starts in the unmarked text. */
  function Offset(ps: seq<Piece>, k: nat): nat
    requires k <= |ps|
  {
    |Source(ps[..k])|
  }

  /**
   * Reference definition of a global replace: the pieces spell `s`, every
   * hit is a case-insensitive match of `t` at its position, and no match of
   * `t` starts at a character left alone.
   */
  predicate LeftmostMatches(ps: seq<Piece>, s: string, t: string) {
    && Source(ps) == s
    && (forall k :: 0 <= k < |ps| && ps[k].Hit? ==> |ps[k].text| == |t| && MatchAt(s, t, Offset(ps, k)))
    && (forall k :: 0 <= k < |ps| && ps[k].Plain? ==> !MatchAt(s, t, Offset(ps, k)))
  }

  lemma {:induction false} SourceAppend(a: seq<Piece>, b: seq<Piece>)
    ensures Source(a + b) == Source(a) + Source(b)
    decreases |a|
  {
    if a == [] {
      assert a + b == b;
    } else {
      assert (a + b)[1..] == a[1..] + b;
      SourceAppend(a[1..], b);
    }
  }

  /** Offsets inside the tail are offsets in the whole, shifted by the first piece. */
  lemma OffsetShift(ps: seq<Piece>, k: nat)
    requires 1 <= k <= |ps|
    ensures Offset(ps, k) == |Source([ps[0]])| + Offset(ps[1..], k - 1)
  {
    assert ps[..k] == [ps[0]] + ps[1..][..k - 1];
    SourceAppend([ps[0]], ps[1..][..k - 1]);
  }

  /** A match in a suffix is a match in the whole, shifted. */
  lemma MatchShift(s: string, t: string, d: nat, o: nat)
    requires d <= |s|
    ensures MatchAt(s, t, d + o) <==> MatchAt(s[d..], t, o)
  {
    if d + o + |t| <= |s| {
      assert s[d..][o..o + |t|] == s[d + o..d + o + |t|];
    }
  }

  /** The first piece of a `Source` spells the head of the text. */
  lemma SourceHead(ps: seq<Piece>)
    requires ps != []
    ensures Source(ps) == Source([ps[0]]) + Source(ps[1..])
  {
    assert ps == [ps[0]] + ps[1..];
    SourceAppend([ps[0]], ps[1..]);
  }

  /** Piece `k + 1` of a segmentation sits where piece `k` of its tail does, shifted by the first piece. */
  lemma PieceShift(ps: seq<Piece>, s: string, t: string, k: nat)
    requires k + 1 < |ps| && Source(ps) == s
    ensures |Source([ps[0]])| <= |s|
    ensures MatchAt(s, t, Offset(ps, k + 1)) <==> MatchAt(s[|Source([ps[0]])|..], t, Offset(ps[1..], k))
  {
    SourceHead(ps);
    OffsetShift(ps, k + 1);
    MatchShift(s, t, |Source([ps[0]])|, Offset(ps[1..], k));
  }

  /**
   * A global replace grows at the front: a first piece that spells the head
   * of the text and is a hit exactly where a match starts, followed by a
   * global replace of the rest, is a global replace of the whole.
   */
  lemma LeftmostCons(p: Piece, rest: seq<Piece>, s: string, t: string)
    requires |Source([p])| <= |s| && Source([p]) == s[..|Source([p])|]
    requires p.Hit? ==> |p.text| == |t| && MatchAt(s, t, 0)
    requires p.Plain? ==> !MatchAt(s, t, 0)
    requires LeftmostMatches(rest, s[|Source([p])|..], t)
    ensures LeftmostMatches([p] + rest, s, t)
  {
    var ps := [p] + rest;
    var d := |Source([p])|;
    assert ps[0] == p && ps[1..] == rest;
    SourceHead(ps);
    assert s == s[..d] + s[d..];
    forall k | 0 <= k < |ps|
      ensures ps[k].Hit? ==> |ps[k].text| == |t| && MatchAt(s, t, Offset(ps, k))
      ensures ps[k].Plain? ==> !MatchAt(s, t, Offset(ps, k))
    {
      if k == 0 {
        assert ps[..0] == [];
      } else {
        PieceShift(ps, s, t, k - 1);
        assert ps[k] == rest[k - 1];
      }
    }
  }

  /** The scan meets the reference definition. */
  lemma {:induction false} SegmentIsLeftmost(s: string, t: string)
    requires |t| > 0
    ensures LeftmostMatches(Segment(s, t), s, t)
    decreases |s|
  {
    if s != [] {
      var ps := Segment(s, t);
      var d := if MatchAt(s, t, 0) then |t| else 1;
      SegmentIsLeftmost(s[d..], t);
      assert ps == [ps[0]] + Segment(s[d..], t);
      assert Source([ps[0]]) == s[..d];
      LeftmostCons(ps[0], Segment(s[d..], t), s, t);
    }
  }

  /** Every piece spells at least one character. */
  lemma {:induction false} SourceEmpty(ps: seq<Piece>, t: string)
    requires |t| > 0
    requires forall k :: 0 <= k < |ps| && ps[k].Hit? ==> |ps[k].text| == |t|
    requires Source(ps) == []
    ensures ps == []
  {
    if ps != [] {
      assert false;
    }
  }

  /** The tail of a global replace is the global replace of the rest of the text. */
  lemma LeftmostTail(ps: seq<Piece>, s: string, t: string)
    requires ps != []
    requires LeftmostMatches(ps, s, t)
    ensures |Source([ps[0]])| <= |s|
    ensures LeftmostMatches(ps[1..], s[|Source([ps[0]])|..], t)
  {
    var d := |Source([ps[0]])|;
    SourceHead(ps);
    var rest := ps[1..];
    assert Source(rest) == s[d..];
    forall k | 0 <= k < |rest|
      ensures rest[k].Hit? ==> |rest[k].text| == |t| && MatchAt(s[d..], t, Offset(rest, k))
      ensures rest[k].Plain? ==> !MatchAt(s[d..], t, Offset(rest, k))
    {
      PieceShift(ps, s, t, k);
      assert rest[k] == ps[k + 1];
    }
  }

  /** The first piece of a global replace is the match at the start, or else the first character. */
  lemma LeftmostHead(ps: seq<Piece>, s: string, t: string)
    requires ps != [] && s != []
    requires LeftmostMatches(ps, s, t)
    ensures ps[0] == if MatchAt(s, t, 0) then Hit(s[..|t|]) else Plain(s[0])
    ensures |Source([ps[0]])| == if MatchAt(s, t, 0) then |t| else 1
  {
    assert ps[..0] == [];
    assert Offset(ps, 0) == 0;
    var d := |Source([ps[0]])|;
    SourceHead(ps);
    assert s[..d] == Source([ps[0]]);
    if MatchAt(s, t, 0) {
      assert ps[0].Hit?;
    } else {
      assert ps[0].Plain?;
    }
  }

  /**
   * The reference definition has one solution: any segmentation of `s`
   * into plain characters and leftmost non-overlapping matches of `t` is
   * the scan's.
   */
  lemma {:induction false} LeftmostIsSegment(ps: seq<Piece>, s: string, t: string)
    requires |t| > 0
    requires LeftmostMatches(ps, s, t)
    ensures ps == Segment(s, t)
    decreases |s|
  {
    if s == [] {
      SourceEmpty(ps, t);
    } else {
      if ps == [] {
        assert false;
      }
      var d := if MatchAt(s, t, 0) then |t| else 1;
      LeftmostTail(ps, s, t);
      LeftmostHead(ps, s, t);
      LeftmostIsSegment(ps[1..], s[d..], t);
      assert Segment(s, t) == [ps[0]] + Segment(s[d..], t);
      assert ps == [ps[0]] + ps[1..];
    }
  }

  /** Deleting the markers gives back the text before the step. */
  lemma SegmentSpellsInput(s: string, t: string)
    requires |t| > 0
    ensures Source(Segment(s, t)) == s
  {
    SegmentIsLeftmost(s, t);
  }

  /** Each mark adds `<mark>` and `</mark>`: 13 characters. */
  lemma {:induction false} MarkedLength(ps: seq<Piece>)
    ensures |Marked(ps)| == |Source(ps)| + 13 * HitCount(ps)
    decreases |ps|
  {
    if ps != [] {
      MarkedLength(ps[1..]);
    }
  }

  /** A step grows the text by 13 characters per match. */
  lemma WrapMatchesLength(s: string, t: string)
    requires |t| > 0
    ensures |WrapMatches(s, t)| == |s| + 13 * HitCount(Segment(s, t))
  {
    MarkedLength(Segment(s, t));
    SegmentSpellsInput(s, t);
  }

  lemma {:induction false} NoHitsMarkNothing(ps: seq<Piece>)
    requires HitCount(ps) == 0
    ensures Marked(ps) == Source(ps)
    decreases |ps|
  {
    if ps != [] {
      NoHitsMarkNothing(ps[1..]);
    }
  }

  lemma {:induction false} HitCountZero(ps: seq<Piece>)
    ensures HitCount(ps) == 0 <==> forall k :: 0 <= k < |ps| ==> ps[k].Plain?
    decreases |ps|
  {
    if ps != [] {
      HitCountZero(ps[1..]);
      assert forall k :: 1 <= k < |ps| ==> ps[k] == ps[1..][k - 1];
    }
  }

  /** Plain pieces sit at consecutive offsets. */
  lemma {:induction false} PlainOffsets(ps: seq<Piece>, k: nat)
    requires k <= |ps|
    requires forall j :: 0 <= j < |ps| ==> ps[j].Plain?
    ensures Offset(ps, k) == k
    ensures |Source(ps)| == |ps|
    decreases |ps|
  {
    if ps != [] {
      SourceHead(ps);
      PlainOffsets(ps[1..], if k == 0 then 0 else k - 1);
      if k > 0 {
        OffsetShift(ps, k);
      } else {
        assert ps[..0] == [];
      }
    }
  }

  /**
   * A step leaves the text unchanged exactly when the term has no
   * case-insensitive occurrence in it.
   */
  lemma WrapMatchesUnchangedIff(s: string, t: string)
    requires |t| > 0
    ensures WrapMatches(s, t) == s <==> forall i :: !MatchAt(s, t, i)
  {
    var ps := Segment(s, t);
    SegmentIsLeftmost(s, t);
    WrapMatchesLength(s, t);
    HitCountZero(ps);
    if HitCount(ps) == 0 {
      NoHitsMarkNothing(ps);
      PlainOffsets(ps, 0);
      forall i | MatchAt(s, t, i)
        ensures false
      {
        PlainOffsets(ps, i);
      }
    } else {
      var k :| 0 <= k < |ps| && ps[k].Hit?;
      assert MatchAt(s, t, Offset(ps, k));
    }
  }

  // ---------------------------------------------------------------------
  // All terms

  /** `.filter(t => t.length >= 2)`. */
  function LongTerms(terms: seq<string>): seq<string> {
    if terms == [] then []
    else if |terms[0]| >= 2 then [terms[0]] + LongTerms(terms[1..])
    else LongTerms(terms[1..])
  }

  /** The filter works piece by piece: filtering a concatenation concatenates the filtered parts, in order. */
  lemma {:induction false} LongTermsAppend(a: seq<string>, b: seq<string>)
    ensures LongTerms(a + b) == LongTerms(a) + LongTerms(b)
    decreases |a|
  {
    if a == [] {
      assert a + b == b;
    } else {
      assert (a + b)[1..] == a[1..] + b;
      LongTermsAppend(a[1..], b);
    }
  }

  /** A single piece is kept exactly when it has two or more characters. */
  lemma LongTermsSingle(w: string)
    ensures LongTerms([w]) == if |w| >= 2 then [w] else []
  {
    assert [w][1..] == [];
  }

  /** `query.split(/\s+/).filter(t => t.length >= 2)`: the query is neither trimmed nor lower-cased. */
  function HighlightTerms(query: string): seq<string> {
    LongTerms(Split(query))
  }

  /** Every term is non-empty, as a pattern must be for a step. */
  predicate NonEmptyTerms(terms: seq<string>) {
    forall k :: 0 <= k < |terms| ==> |terms[k]| > 0
  }

  /** The terms applied one after the other, each to the previous step's output. */
  function ApplyTerms(text: string, terms: seq<string>): string
    requires NonEmptyTerms(terms)
  {
    if terms == [] then text
    else WrapMatches(ApplyTerms(text, terms[..|terms| - 1]), terms[|terms| - 1])
  }

  /** What `highlightText(text, query)` returns. */
  function Highlighted(text: string, query: string): string {
    LongTermsAreLong(Split(query));
    if query == [] then text else ApplyTerms(text, HighlightTerms(query))
  }

  /** The filter keeps exactly the pieces of two or more characters. */
  lemma {:induction false} LongTermsAreLong(terms: seq<string>)
    ensures forall k :: 0 <= k < |LongTerms(terms)| ==> |LongTerms(terms)[k]| >= 2
    ensures forall k :: 0 <= k < |LongTerms(terms)| ==> LongTerms(terms)[k] in terms
    ensures (forall k :: 0 <= k < |terms| ==> |terms[k]| < 2) <==> LongTerms(terms) == []
    decreases |terms|
  {
    if terms != [] {
      LongTermsAreLong(terms[1..]);
      assert forall k :: 1 <= k < |terms| ==> terms[k] == terms[1..][k - 1];
    }
  }

  /**
   * `highlightText`: the running result starts as the text and each long
   * term rewrites it, through the pattern built by `escapeRegex`.
   */
  method HighlightText(text: string, query: string) returns (result: string)
    ensures result == Highlighted(text, query)
    ensures (forall k :: 0 <= k < |Split(query)| ==> |Split(query)[k]| < 2) ==> result == text
    ensures |result| >= |text|
  {
    LongTermsAreLong(Split(query));
    if query == [] {
      return text;
    }
    var terms := HighlightTerms(query);
    result := text;
    for i := 0 to |terms|
      invariant result == ApplyTerms(text, terms[..i])
      invariant |result| >= |text|
    {
      var term := terms[i];
      var pattern := EscapeRegex(term);
      EscapeReadsBack(term);
      var literal := ReadLiteral(pattern).value;
      WrapMatchesLength(result, literal);
      result := WrapMatches(result, literal);
      assert terms[..i + 1][..i] == terms[..i];
    }
    assert terms[..|terms|] == terms;
  }

  /** Without a term of two or more characters, the text comes back unchanged. */
  lemma HighlightWithoutLongTerms(text: string, query: string)
    requires forall k :: 0 <= k < |Split(query)| ==> |Split(query)[k]| < 2
    ensures Highlighted(text, query) == text
  {
    LongTermsAreLong(Split(query));
  }

  /** Applying a list of terms is applying its first part, then its second part to that output. */
  lemma {:induction false} ApplyTermsAppend(text: string, a: seq<string>, b: seq<string>)
    requires NonEmptyTerms(a) && NonEmptyTerms(b)
    ensures NonEmptyTerms(a + b)
    ensures ApplyTerms(text, a + b) == ApplyTerms(ApplyTerms(text, a), b)
    decreases |b|
  {
    if b == [] {
      assert a + b == a;
    } else {
      var b' := b[..|b| - 1];
      var last := b[|b| - 1];
      ApplyTermsAppend(text, a, b');
      assert (a + b)[..|a + b| - 1] == a + b';
      assert (a + b)[|a + b| - 1] == last;
      assert ApplyTerms(text, a + b) == WrapMatches(ApplyTerms(text, a + b'), last);
      assert ApplyTerms(ApplyTerms(text, a), b) == WrapMatches(ApplyTerms(ApplyTerms(text, a), b'), last);
    }
  }

  /** A term with no occurrence in the running text leaves it as it is. */
  lemma AbsentTermChangesNothing(text: string, terms: seq<string>, t: string)
    requires NonEmptyTerms(terms)
    requires |t| > 0
    requires forall i :: !MatchAt(ApplyTerms(text, terms), t, i)
    ensures ApplyTerms(text, terms + [t]) == ApplyTerms(text, terms)
  {
    assert (terms + [t])[..|terms|] == terms;
    WrapMatchesUnchangedIff(ApplyTerms(text, terms), t);
  }
}
