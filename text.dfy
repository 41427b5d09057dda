/** String operations the scripts take from Python's `str`: whitespace
    splitting and stripping, single-character replacement, ASCII lowering,
    substring search, prefix test, joining and splitting on a separator. */
module Text {

  /** The code-point ranges of Python's `str.isspace()` character set:
      tab to carriage return, the four information separators and the
      space, next line, no-break space, ogham space mark, the typographic
      spaces, line and paragraph separators, narrow no-break space, medium
      mathematical space and ideographic space. */
  const SpaceRanges: seq<(char, char)> := [
    ('\t', '\r'), ('\U{001C}', ' '), ('\U{0085}', '\U{0085}'), ('\U{00A0}', '\U{00A0}'),
    ('\U{1680}', '\U{1680}'), ('\U{2000}', '\U{200A}'), ('\U{2028}', '\U{2029}'),
    ('\U{202F}', '\U{202F}'), ('\U{205F}', '\U{205F}'), ('\U{3000}', '\U{3000}')]

  predicate InRanges(c: char, ranges: seq<(char, char)>) {
    ranges != [] && ((ranges[0].0 <= c <= ranges[0].1) || InRanges(c, ranges[1..]))
  }

  /** `c.isspace()` */
  predicate IsSpace(c: char) {
    InRanges(c, SpaceRanges)
  }

  /** `s.startswith(p)` */
  predicate StartsWith(s: string, p: string) {
    |p| <= |s| && s[..|p|] == p
  }

  /** The non-whitespace characters of `s`, in order: a reference for
      what splitting and stripping keep. */
  function NonSpace(s: string): string {
    if s == [] then []
    else if IsSpace(s[0]) then NonSpace(s[1..])
    else [s[0]] + NonSpace(s[1..])
  }

  lemma {:induction false} NonSpaceAppend(a: string, b: string)
    ensures NonSpace(a + b) == NonSpace(a) + NonSpace(b)
  {
    if a == [] {
      assert a + b == b;
    } else {
      assert (a + b)[1..] == a[1..] + b;
      NonSpaceAppend(a[1..], b);
    }
  }

  lemma {:induction false} NonSpaceOfSpaces(s: string)
    requires forall k :: 0 <= k < |s| ==> IsSpace(s[k])
    ensures NonSpace(s) == []
  {
    if s != [] {
      NonSpaceOfSpaces(s[1..]);
    }
  }

  /** Concatenation of a sequence of strings. */
  function Concat(xs: seq<string>): string {
    if xs == [] then [] else xs[0] + Concat(xs[1..])
  }

  // ---------------------------------------------------------------- split()

  /** Length of the run of non-whitespace characters that starts `s`. */
  function TokenEnd(s: string): (k: nat)
    ensures k <= |s|
  {
    if s == [] || IsSpace(s[0]) then 0 else 1 + TokenEnd(s[1..])
  }

  /** The run ends at the first whitespace character. */
  lemma {:induction false} TokenEndSpec(s: string)
    ensures forall j :: 0 <= j < TokenEnd(s) ==> !IsSpace(s[j])
    ensures TokenEnd(s) < |s| ==> IsSpace(s[TokenEnd(s)])
  {
    if s != [] && !IsSpace(s[0]) {
      TokenEndSpec(s[1..]);
    }
  }

  /** `s.split()` with no argument: the maximal runs of non-whitespace
      characters, in order; leading, trailing and repeated whitespace
      produce no empty tokens. */
  function Split(s: string): seq<string>
    decreases |s|
  {
    if s == [] then []
    else if IsSpace(s[0]) then Split(s[1..])
    else
      var k := TokenEnd(s);
      [s[..k]] + Split(s[k..])
  }

  /** Every token is non-empty and free of whitespace. */
  lemma {:induction false} SplitTokens(s: string)
    ensures forall t :: t in Split(s) ==> t != [] && forall j :: 0 <= j < |t| ==> !IsSpace(t[j])
    decreases |s|
  {
    if s == [] {
    } else if IsSpace(s[0]) {
      SplitTokens(s[1..]);
    } else {
      var k := TokenEnd(s);
      TokenEndSpec(s);
      SplitTokens(s[k..]);
    }
  }

  /** Splitting loses exactly the whitespace: the tokens, glued back
      together, are the non-whitespace characters of the input. */
  lemma {:induction false} SplitKeepsNonSpace(s: string)
    ensures Concat(Split(s)) == NonSpace(s)
    decreases |s|
  {
    if s == [] {
    } else if IsSpace(s[0]) {
      SplitKeepsNonSpace(s[1..]);
    } else {
      var k := TokenEnd(s);
      TokenEndSpec(s);
      SplitKeepsNonSpace(s[k..]);
      assert s == s[..k] + s[k..];
      NonSpaceAppend(s[..k], s[k..]);
      NoSpaceIsFixed(s[..k]);
    }
  }

  lemma {:induction false} NoSpaceIsFixed(t: string)
    requires forall j :: 0 <= j < |t| ==> !IsSpace(t[j])
    ensures NonSpace(t) == t
  {
    if t != [] {
      NoSpaceIsFixed(t[1..]);
      assert t == [t[0]] + t[1..];
    }
  }

  /** A string of whitespace only (the empty string included) has no tokens. */
  lemma {:induction false} SplitBlank(s: string)
    requires forall k :: 0 <= k < |s| ==> IsSpace(s[k])
    ensures Split(s) == []
  {
    if s != [] {
      SplitBlank(s[1..]);
    }
  }

  /** A run of non-whitespace characters is a single token. */
  lemma {:induction false} SplitWord(t: string)
    requires t != [] && forall j :: 0 <= j < |t| ==> !IsSpace(t[j])
    ensures Split(t) == [t]
  {
    TokenEndOfWord(t);
    assert t[..|t|] == t;
  }

  lemma {:induction false} TokenEndOfWord(t: string)
    requires forall j :: 0 <= j < |t| ==> !IsSpace(t[j])
    ensures TokenEnd(t) == |t|
  {
    if t != [] {
      TokenEndOfWord(t[1..]);
    }
  }

  /** A token that ends inside `a`, or at its end followed by whitespace,
      is not extended by what follows. */
  lemma {:induction false} TokenEndPrefix(a: string, rest: string)
    requires TokenEnd(a) < |a| || (rest != [] && IsSpace(rest[0]))
    ensures TokenEnd(a + rest) == TokenEnd(a)
  {
    if a == [] {
      assert a + rest == rest;
    } else if !IsSpace(a[0]) {
      assert (a + rest)[1..] == a[1..] + rest;
      TokenEndPrefix(a[1..], rest);
    }
  }

  /** A whitespace character separates: what lies on either side of it is
      split on its own. With `SplitWord` this fixes `split()` as the
      maximal whitespace-free runs. */
  lemma {:induction false} SplitAtSpace(a: string, c: char, b: string)
    requires IsSpace(c)
    ensures Split(a + [c] + b) == Split(a) + Split(b)
    decreases |a|
  {
    var s := a + [c] + b;
    if a == [] {
      assert s[1..] == b;
    } else if IsSpace(a[0]) {
      assert s[1..] == a[1..] + [c] + b;
      SplitAtSpace(a[1..], c, b);
    } else {
      var k := TokenEnd(a);
      TokenEndPrefix(a, [c] + b);
      assert a + [c] + b == a + ([c] + b);
      assert s[..k] == a[..k];
      assert s[k..] == a[k..] + [c] + b;
      SplitAtSpace(a[k..], c, b);
    }
  }

  // ---------------------------------------------------------------- strip()

  /** `s` is whitespace only (or empty). */
  predicate Blank(s: string) {
    forall k :: 0 <= k < |s| ==> IsSpace(s[k])
  }

  /** `s.strip()`: whitespace removed from both ends. */
  function Strip(s: string): string
    decreases |s|
  {
    if s != [] && IsSpace(s[0]) then Strip(s[1..])
    else if s != [] && IsSpace(s[|s| - 1]) then Strip(s[..|s| - 1])
    else s
  }

  /** `r` sits in `s` at offset `i` with only whitespace around it. */
  predicate Framed(s: string, r: string, i: int) {
    0 <= i <= |s| - |r| && s[i..i + |r|] == r && Blank(s[..i]) && Blank(s[i + |r|..])
  }

  /** The stripped text neither starts nor ends with whitespace. */
  lemma {:induction false} StripEnds(s: string)
    ensures Strip(s) == [] || (!IsSpace(Strip(s)[0]) && !IsSpace(Strip(s)[|Strip(s)| - 1]))
    decreases |s|
  {
    if s != [] && IsSpace(s[0]) {
      StripEnds(s[1..]);
    } else if s != [] && IsSpace(s[|s| - 1]) {
      StripEnds(s[..|s| - 1]);
    }
  }

  lemma FramedAfterSpace(s: string, r: string, i: int)
    requires s != [] && IsSpace(s[0]) && Framed(s[1..], r, i)
    ensures Framed(s, r, i + 1)
  {
    assert s[i + 1..i + 1 + |r|] == s[1..][i..i + |r|];
    assert s[..i + 1] == [s[0]] + s[1..][..i];
    assert s[i + 1 + |r|..] == s[1..][i + |r|..];
  }

  lemma FramedBeforeSpace(s: string, r: string, i: int)
    requires s != [] && IsSpace(s[|s| - 1]) && Framed(s[..|s| - 1], r, i)
    ensures Framed(s, r, i)
  {
    var t := s[..|s| - 1];
    assert s[i..i + |r|] == t[i..i + |r|];
    assert s[..i] == t[..i];
    assert s[i + |r|..] == t[i + |r|..] + [s[|s| - 1]];
  }

  /** The stripped text is the infix of `s` left once whitespace-only
      ends are cut away. */
  lemma {:induction false} StripFramed(s: string)
    ensures exists i :: Framed(s, Strip(s), i)
    decreases |s|
  {
    if s != [] && IsSpace(s[0]) {
      StripFramed(s[1..]);
      var i :| Framed(s[1..], Strip(s), i);
      FramedAfterSpace(s, Strip(s), i);
    } else if s != [] && IsSpace(s[|s| - 1]) {
      StripFramed(s[..|s| - 1]);
      var i :| Framed(s[..|s| - 1], Strip(s), i);
      FramedBeforeSpace(s, Strip(s), i);
    } else {
      assert s[0..|s|] == s && s[..0] == [] && s[|s|..] == [];
      assert Framed(s, Strip(s), 0);
    }
  }

  /** Strip only drops characters: whatever it returns occurs in `s`. */
  lemma {:induction false} StripKeepsCharacters(s: string)
    ensures forall c :: c in Strip(s) ==> c in s
    decreases |s|
  {
    if s != [] && IsSpace(s[0]) {
      StripKeepsCharacters(s[1..]);
    } else if s != [] && IsSpace(s[|s| - 1]) {
      StripKeepsCharacters(s[..|s| - 1]);
    }
  }

  /** Strip keeps every non-whitespace character, in order. */
  lemma {:induction false} StripKeepsNonSpace(s: string)
    ensures NonSpace(Strip(s)) == NonSpace(s)
    decreases |s|
  {
    if s != [] && IsSpace(s[0]) {
      StripKeepsNonSpace(s[1..]);
    } else if s != [] && IsSpace(s[|s| - 1]) {
      var t := s[..|s| - 1];
      StripKeepsNonSpace(t);
      assert s == t + [s[|s| - 1]];
      NonSpaceAppend(t, [s[|s| - 1]]);
    }
  }

  // ------------------------------------------------------------- replace()

  /** `s.replace(a, b)` for single characters `a` and `b`. */
  function ReplaceChar(s: string, a: char, b: char): (r: string)
    ensures |r| == |s|
  {
    if s == [] then [] else [if s[0] == a then b else s[0]] + ReplaceChar(s[1..], a, b)
  }

  /** Every `a` becomes `b`; every other character stays. */
  lemma {:induction false} ReplaceCharAt(s: string, a: char, b: char)
    ensures forall k :: 0 <= k < |s| ==> ReplaceChar(s, a, b)[k] == (if s[k] == a then b else s[k])
  {
    if s != [] {
      ReplaceCharAt(s[1..], a, b);
    }
  }

  // --------------------------------------------------------------- lower()

  /** Lowering of one character; only ASCII letters change. */
  function LowerChar(c: char): char {
    if 'A' <= c <= 'Z' then (c as int + 32) as char else c
  }

  /** `s.lower()`, character by character. */
  function Lower(s: string): (r: string)
    ensures |r| == |s|
  {
    if s == [] then [] else [LowerChar(s[0])] + Lower(s[1..])
  }

  /** Lowering works character by character. */
  lemma {:induction false} LowerAt(s: string)
    ensures forall k :: 0 <= k < |s| ==> Lower(s)[k] == LowerChar(s[k])
  {
    if s != [] {
      LowerAt(s[1..]);
    }
  }

  // ------------------------------------------------------------ `x in s`

  /** `needle` occurs in `s` at position `i`. */
  predicate OccursAt(s: string, needle: string, i: int) {
    0 <= i <= |s| - |needle| && s[i..i + |needle|] == needle
  }

  /** Python's substring test `needle in s`. */
  function Contains(s: string, needle: string): bool
    decreases |s|
  {
    StartsWith(s, needle) || (s != [] && Contains(s[1..], needle))
  }

  /** The substring test holds exactly when the needle occurs at some
      position of `s`. */
  lemma {:induction false} ContainsAt(s: string, needle: string)
    ensures Contains(s, needle) <==> exists i :: OccursAt(s, needle, i)
    decreases |s|
  {
    if s == [] {
      if StartsWith(s, needle) {
        assert OccursAt(s, needle, 0);
      }
      if exists i :: OccursAt(s, needle, i) {
        var i :| OccursAt(s, needle, i);
        assert StartsWith(s, needle);
      }
    } else {
      ContainsAt(s[1..], needle);
      if Contains(s[1..], needle) {
        var i :| OccursAt(s[1..], needle, i);
        assert s[i + 1..i + 1 + |needle|] == s[1..][i..i + |needle|];
        assert OccursAt(s, needle, i + 1);
      }
      if StartsWith(s, needle) {
        assert OccursAt(s, needle, 0);
      }
      if exists i :: OccursAt(s, needle, i) {
        var i :| OccursAt(s, needle, i);
        if i > 0 {
          assert s[1..][i - 1..i - 1 + |needle|] == s[i..i + |needle|];
          assert OccursAt(s[1..], needle, i - 1);
        }
      }
    }
  }

  /** Lowering keeps every occurrence, lowered: a needle found in `s`
      is found, lowered, at the same place in `s.lower()`. */
  lemma LowerKeepsOccurrence(s: string, needle: string, i: int)
    requires OccursAt(s, needle, i)
    ensures OccursAt(Lower(s), Lower(needle), i)
  {
    LowerAt(s);
    LowerAt(needle);
    assert forall k :: 0 <= k < |needle| ==> needle[k] == s[i + k];
    assert Lower(s)[i..i + |needle|] == Lower(needle);
  }

  // --------------------------------------------------------------- join()

  /** `sep.join(xs)` */
  function Join(xs: seq<string>, sep: string): (r: string)
    ensures xs == [] ==> r == []
  {
    if xs == [] then []
    else if |xs| == 1 then xs[0]
    else xs[0] + sep + Join(xs[1..], sep)
  }

  /** `s.split(c)` for a single-character separator: the pieces between
      separators, so that there is always one more piece than separators. */
  function SplitOn(s: string, c: char): (r: seq<string>)
    ensures |r| >= 1
  {
    if s == [] then [[]]
    else
      var rest := SplitOn(s[1..], c);
      if s[0] == c then [[]] + rest else [[s[0]] + rest[0]] + rest[1..]
  }

  lemma {:induction false} SplitOnNoSeparator(a: string, c: char)
    requires c !in a
    ensures SplitOn(a, c) == [a]
  {
    if a != [] {
      SplitOnNoSeparator(a[1..], c);
      assert [a[0]] + a[1..] == a;
    }
  }

  lemma {:induction false} SplitOnAfterPiece(a: string, c: char, b: string)
    requires c !in a
    ensures SplitOn(a + [c] + b, c) == [a] + SplitOn(b, c)
  {
    if a == [] {
      assert a + [c] + b == [c] + b;
      assert ([c] + b)[1..] == b;
    } else {
      assert (a + [c] + b)[1..] == a[1..] + [c] + b;
      SplitOnAfterPiece(a[1..], c, b);
      assert [a[0]] + a[1..] == a;
    }
  }

  /** Splitting undoes joining when no piece contains the separator and
      there is at least one piece. */
  lemma {:induction false} SplitOnJoin(xs: seq<string>, c: char)
    requires xs != []
    requires forall k :: 0 <= k < |xs| ==> c !in xs[k]
    ensures SplitOn(Join(xs, [c]), c) == xs
  {
    if |xs| == 1 {
      SplitOnNoSeparator(xs[0], c);
    } else {
      SplitOnJoin(xs[1..], c);
      SplitOnAfterPiece(xs[0], c, Join(xs[1..], [c]));
      assert [xs[0]] + xs[1..] == xs;
    }
  }
}
