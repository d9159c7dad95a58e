/**
 * The string primitives the search script relies on: lower-casing,
 * `String.prototype.includes`, `Array.prototype.join` and
 * `String.prototype.split(/\s+/)`.
 *
 * Case folding is ASCII only: `toLowerCase` maps 'A'..'Z' to 'a'..'z' and
 * leaves every other character alone.
 */
module Strings {

  /** ASCII lower-casing of one character. */
  function LowerChar(c: char): char {
    if 'A' <= c <= 'Z' then (c as int - 'A' as int + 'a' as int) as char else c
  }

  /** `s.toLowerCase()`, with ASCII case folding. */
  function Lower(s: string): (r: string)
    ensures |r| == |s|
    ensures forall i :: 0 <= i < |r| ==> !('A' <= r[i] <= 'Z')
    ensures forall i :: 0 <= i < |s| && !('A' <= s[i] <= 'Z') ==> r[i] == s[i]
    ensures forall i :: 0 <= i < |s| && 'A' <= s[i] <= 'Z' ==> r[i] as int == s[i] as int - 'A' as int + 'a' as int
  {
    seq(|s|, i requires 0 <= i < |s| => LowerChar(s[i]))
  }

  /** Lower-casing changes nothing in a string without an upper-case ASCII letter. */
  lemma LowerOfLower(s: string)
    requires forall i :: 0 <= i < |s| ==> !('A' <= s[i] <= 'Z')
    ensures Lower(s) == s
  {
  }

  /**
   * The characters the regular-expression class `\s` matches: the
   * ECMAScript WhiteSpace and LineTerminator code points.
   */
  predicate IsSpace(c: char) {
    var n := c as int;
    n == 0x09 || n == 0x0A || n == 0x0B || n == 0x0C || n == 0x0D || n == 0x20
    || n == 0xA0 || n == 0x1680 || (0x2000 <= n <= 0x200A)
    || n == 0x2028 || n == 0x2029 || n == 0x202F || n == 0x205F
    || n == 0x3000 || n == 0xFEFF
  }

  /** True when `s` holds no `\s` character. */
  predicate NoSpace(s: string) {
    forall i :: 0 <= i < |s| ==> !IsSpace(s[i])
  }

  /** Length of the longest prefix of `s` made of `\s` characters (the greedy `\s+`). */
  function SpaceLength(s: string): (n: nat)
    ensures n <= |s|
    ensures forall i :: 0 <= i < n ==> IsSpace(s[i])
    ensures n < |s| ==> !IsSpace(s[n])
    ensures s != [] && IsSpace(s[0]) ==> n > 0
  {
    if s == [] || !IsSpace(s[0]) then 0 else 1 + SpaceLength(s[1..])
  }

  /**
   * `s.split(/\s+/)`: the pieces between maximal runs of `\s`. A leading
   * run yields an empty first piece, a trailing run an empty last piece, and
   * the empty string splits into one empty piece.
   */
  function Split(s: string): (r: seq<string>)
    ensures |r| >= 1
    decreases |s|
  {
    if s == [] then [""]
    else if IsSpace(s[0]) then [""] + Split(s[SpaceLength(s)..])
    else
      var r := Split(s[1..]);
      [[s[0]] + r[0]] + r[1..]
  }

  /** The characters of `s` that are not `\s`, in order. */
  function NonSpace(s: string): string {
    if s == [] then []
    else if IsSpace(s[0]) then NonSpace(s[1..])
    else [s[0]] + NonSpace(s[1..])
  }

  /** Concatenation of a sequence of strings. */
  function Concat(parts: seq<string>): string {
    if parts == [] then [] else parts[0] + Concat(parts[1..])
  }

  /** Concatenation distributes over appending lists of pieces. */
  lemma {:induction false} ConcatAppend(a: seq<string>, b: seq<string>)
    ensures Concat(a + b) == Concat(a) + Concat(b)
    decreases |a|
  {
    if a == [] {
      assert a + b == b;
    } else {
      assert (a + b)[1..] == a[1..] + b;
      ConcatAppend(a[1..], b);
    }
  }

  /** A single piece concatenates to itself. */
  lemma ConcatSingle(x: string)
    ensures Concat([x]) == x
  {
    assert [x][1..] == [];
    assert x + [] == x;
  }

  /** `parts.join(sep)`: the pieces with `sep` between neighbours. */
  function Join(parts: seq<string>, sep: string): string {
    if parts == [] then []
    else if |parts| == 1 then parts[0]
    else parts[0] + sep + Join(parts[1..], sep)
  }

  /** Dropping a prefix of `\s` characters does not change the non-`\s` characters. */
  lemma {:induction false} NonSpaceAfterSpaces(s: string, k: nat)
    requires k <= |s|
    requires forall i :: 0 <= i < k ==> IsSpace(s[i])
    ensures NonSpace(s[k..]) == NonSpace(s)
    decreases k
  {
    if k > 0 {
      NonSpaceAfterSpaces(s[1..], k - 1);
      assert s[1..][k - 1..] == s[k..];
    }
  }

  /** No piece of a split holds a `\s` character. */
  lemma {:induction false} SplitPiecesHaveNoSpace(s: string)
    ensures forall k :: 0 <= k < |Split(s)| ==> NoSpace(Split(s)[k])
    decreases |s|
  {
    if s == [] {
    } else if IsSpace(s[0]) {
      SplitPiecesHaveNoSpace(s[SpaceLength(s)..]);
    } else {
      var r := Split(s[1..]);
      SplitPiecesHaveNoSpace(s[1..]);
      assert NoSpace([s[0]] + r[0]);
    }
  }

  /** Splitting loses exactly the `\s` characters: the pieces concatenate to the rest of `s`. */
  lemma {:induction false} SplitKeepsNonSpace(s: string)
    ensures Concat(Split(s)) == NonSpace(s)
    decreases |s|
  {
    if s == [] {
    } else if IsSpace(s[0]) {
      var tail := s[SpaceLength(s)..];
      SplitKeepsNonSpace(tail);
      NonSpaceAfterSpaces(s, SpaceLength(s));
      assert ([""] + Split(tail))[1..] == Split(tail);
    } else {
      var r := Split(s[1..]);
      SplitKeepsNonSpace(s[1..]);
      var r' := [[s[0]] + r[0]] + r[1..];
      assert r'[1..] == r[1..];
      assert Concat(r) == r[0] + Concat(r[1..]);
    }
  }

  /** A leading `\s` run makes the first piece empty. */
  lemma LeadingSpaceGivesEmptyPiece(s: string)
    requires s != [] && IsSpace(s[0])
    ensures Split(s)[0] == ""
  {
  }

  /** A trailing `\s` run makes the last piece empty. */
  lemma {:induction false} TrailingSpaceGivesEmptyPiece(s: string)
    requires s != [] && IsSpace(s[|s| - 1])
    ensures |Split(s)| >= 2
    ensures Split(s)[|Split(s)| - 1] == ""
    decreases |s|
  {
    if IsSpace(s[0]) {
      var tail := s[SpaceLength(s)..];
      assert Split(s) == [""] + Split(tail);
      if tail != [] {
        assert tail[|tail| - 1] == s[|s| - 1];
        TrailingSpaceGivesEmptyPiece(tail);
      }
    } else {
      var r := Split(s[1..]);
      assert s[1..][|s| - 2] == s[|s| - 1];
      TrailingSpaceGivesEmptyPiece(s[1..]);
      assert Split(s) == [[s[0]] + r[0]] + r[1..];
      assert Split(s)[|Split(s)| - 1] == r[|r| - 1];
    }
  }

  /** A word in front of a `\s` character or the end joins the first piece. */
  lemma {:induction false} SplitAfterWord(w: string, t: string)
    requires NoSpace(w)
    requires t == [] || IsSpace(t[0])
    ensures Split(w + t) == [w + Split(t)[0]] + Split(t)[1..]
    decreases |w|
  {
    if w != [] {
      assert (w + t)[1..] == w[1..] + t;
      SplitAfterWord(w[1..], t);
      assert [w[0]] + (w[1..] + Split(t)[0]) == w + Split(t)[0];
    } else {
      assert w + t == t;
    }
  }

  /** A run of `\s` characters in front of a non-`\s` character or the end is matched whole. */
  lemma {:induction false} SpaceRunLength(sp: string, t: string)
    requires forall i :: 0 <= i < |sp| ==> IsSpace(sp[i])
    requires t == [] || !IsSpace(t[0])
    ensures SpaceLength(sp + t) == |sp|
    decreases |sp|
  {
    if sp == [] {
      assert sp + t == t;
    } else {
      assert (sp + t)[1..] == sp[1..] + t;
      SpaceRunLength(sp[1..], t);
    }
  }

  /**
   * A word followed by a run of one or more `\s` characters is one piece:
   * the whole run separates it from the rest, leaving no empty piece
   * between them.
   */
  lemma SplitAtSpaceRun(w: string, sp: string, t: string)
    requires NoSpace(w)
    requires sp != [] && forall i :: 0 <= i < |sp| ==> IsSpace(sp[i])
    requires t == [] || !IsSpace(t[0])
    ensures Split(w + sp + t) == [w] + Split(t)
  {
    var u := sp + t;
    SpaceRunLength(sp, t);
    assert u[|sp|..] == t;
    assert Split(u) == [""] + Split(t);
    SplitAfterWord(w, u);
    assert w + sp + t == w + u;
    assert w + "" == w;
  }

  /** Pieces that a split gives back from their single-space join. */
  predicate Splittable(words: seq<string>) {
    && |words| >= 1
    && (forall k :: 0 <= k < |words| ==> NoSpace(words[k]))
    && (forall k :: 0 < k < |words| - 1 ==> words[k] != [])
  }

  /**
   * Round trip: splitting the space-joined words gives the words back,
   * provided no word holds `\s` and only the first and the last may be empty.
   */
  lemma {:induction false} SplitJoin(words: seq<string>)
    requires Splittable(words)
    ensures Split(Join(words, " ")) == words
    decreases |words|
  {
    var w := words[0];
    if |words| == 1 {
      SplitAfterWord(w, []);
      assert w + [] == w;
    } else {
      var rest := Join(words[1..], " ");
      assert Join(words, " ") == w + (" " + rest);
      assert Splittable(words[1..]);
      SplitJoin(words[1..]);
      assert rest == [] || !IsSpace(rest[0]) by {
        if rest != [] && |words| > 2 {
          assert words[1] != [];
          assert rest[0] == words[1][0];
        }
      }
      var t := " " + rest;
      assert SpaceLength(t) == 1 by {
        if rest != [] {
          assert t[1] == rest[0];
        }
      }
      assert t[1..] == rest;
      SplitAfterWord(w, t);
      assert w + "" == w;
    }
  }

  /** `s.includes(t)`, computed by sliding along `s`. */
  function Contains(s: string, t: string): bool
    decreases |s|
  {
    t <= s || (s != [] && Contains(s[1..], t))
  }

  /** `t` occurs in `s` starting at index `i`. */
  predicate OccursAt(s: string, t: string, i: int) {
    0 <= i && i + |t| <= |s| && s[i..i + |t|] == t
  }

  /** `Contains` agrees with occurrence at some index. */
  lemma {:induction false} ContainsIff(s: string, t: string)
    ensures Contains(s, t) <==> exists i :: OccursAt(s, t, i)
    decreases |s|
  {
    if t <= s {
      assert OccursAt(s, t, 0);
    } else if s != [] {
      ContainsIff(s[1..], t);
      if Contains(s[1..], t) {
        var i :| OccursAt(s[1..], t, i);
        assert s[1..][i..i + |t|] == s[i + 1..i + 1 + |t|];
        assert OccursAt(s, t, i + 1);
      }
      if exists i :: OccursAt(s, t, i) {
        var i :| OccursAt(s, t, i);
        assert i != 0;
        assert s[1..][i - 1..i - 1 + |t|] == s[i..i + |t|];
        assert OccursAt(s[1..], t, i - 1);
      }
    } else {
      assert forall i :: !OccursAt(s, t, i);
    }
  }

  /** Every string includes the empty string. */
  lemma ContainsEmpty(s: string)
    ensures Contains(s, "")
  {
  }
}
