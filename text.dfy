/**
 * The string operations of Python that the pipeline relies on:
 * `s.split(sep)` with a one-character separator, `sep.join(pieces)`,
 * `s.split()` on runs of whitespace and `s.strip()`.
 */
module Text {

  /**
   * Python's `str.isspace` for one character: the ASCII controls 9 to 13
   * and 28 to 31, the space, and the Unicode separators Python also counts.
   */
  predicate IsSpace(c: char) {
    || c == ' '
    || ('\t' <= c <= '\r')
    || ('\U{1C}' <= c <= '\U{1F}')
    || c == '\U{85}' || c == '\U{A0}' || c == '\U{1680}'
    || ('\U{2000}' <= c <= '\U{200A}')
    || c == '\U{2028}' || c == '\U{2029}' || c == '\U{202F}' || c == '\U{205F}'
    || c == '\U{3000}'
  }

  /** A word as `str.split()` yields it: non-empty, without whitespace. */
  predicate IsWord(w: string) {
    w != [] && forall i :: 0 <= i < |w| ==> !IsSpace(w[i])
  }

  predicate AllWords(ws: seq<string>) {
    forall i :: 0 <= i < |ws| ==> IsWord(ws[i])
  }

  // ---------------------------------------------------------------------
  // s.split(sep) and sep.join(pieces)
  // ---------------------------------------------------------------------

  /** Python's `s.split(sep)`: the pieces between separators, empty ones included. */
  function Split(s: string, sep: char): (pieces: seq<string>)
    ensures |pieces| >= 1
    ensures forall i :: 0 <= i < |pieces| ==> sep !in pieces[i]
  {
    if s == [] then [""]
    else
      var rest := Split(s[1..], sep);
      if s[0] == sep then [""] + rest else [[s[0]] + rest[0]] + rest[1..]
  }

  /** Python's `sep.join(pieces)`. */
  function Join(pieces: seq<string>, sep: char): string {
    if pieces == [] then ""
    else if |pieces| == 1 then pieces[0]
    else pieces[0] + [sep] + Join(pieces[1..], sep)
  }

  /** Joining the pieces of a split gives back the string. */
  lemma {:induction false} JoinSplit(s: string, sep: char)
    ensures Join(Split(s, sep), sep) == s
  {
    if s != [] {
      var rest := Split(s[1..], sep);
      JoinSplit(s[1..], sep);
      if s[0] != sep {
        var ps := Split(s, sep);
        assert ps == [[s[0]] + rest[0]] + rest[1..];
        if |rest| == 1 {
          assert Join(ps, sep) == [s[0]] + rest[0];
        } else {
          assert rest == [rest[0]] + rest[1..];
          assert Join(rest, sep) == rest[0] + [sep] + Join(rest[1..], sep);
          assert ps[1..] == rest[1..];
        }
      }
    }
  }

  /** Splitting a join of separator-free pieces gives back the pieces. */
  lemma {:induction false} SplitJoin(pieces: seq<string>, sep: char)
    requires |pieces| >= 1
    requires forall i :: 0 <= i < |pieces| ==> sep !in pieces[i]
    ensures Split(Join(pieces, sep), sep) == pieces
    decreases |pieces|, |pieces[0]|
  {
    var p := pieces[0];
    if p == [] {
      if |pieces| > 1 {
        SplitJoin(pieces[1..], sep);
        SplitJoinEmptyHead(pieces, sep);
      }
    } else {
      var shorter := [p[1..]] + pieces[1..];
      forall i | 0 <= i < |shorter| ensures sep !in shorter[i] {
        if i > 0 { assert shorter[i] == pieces[i]; }
      }
      SplitJoin(shorter, sep);
      SplitJoinHeadChar(pieces, sep, shorter);
    }
  }

  /** The step of `SplitJoin` for an empty first piece: the join starts with a separator. */
  lemma SplitJoinEmptyHead(pieces: seq<string>, sep: char)
    requires |pieces| > 1 && pieces[0] == []
    requires Split(Join(pieces[1..], sep), sep) == pieces[1..]
    ensures Split(Join(pieces, sep), sep) == pieces
  {
    var rest := Join(pieces[1..], sep);
    assert Join(pieces, sep) == [sep] + rest;
    SplitCons(sep, rest, sep);
    assert pieces == [""] + pieces[1..];
  }

  /** The step of `SplitJoin` for a non-empty first piece: its first character goes in front. */
  lemma SplitJoinHeadChar(pieces: seq<string>, sep: char, shorter: seq<string>)
    requires |pieces| >= 1 && pieces[0] != [] && pieces[0][0] != sep
    requires shorter == [pieces[0][1..]] + pieces[1..]
    requires Split(Join(shorter, sep), sep) == shorter
    ensures Split(Join(pieces, sep), sep) == pieces
  {
    var p := pieces[0];
    JoinHeadChar(pieces, sep, shorter);
    SplitCons(p[0], Join(shorter, sep), sep);
    assert [p[0]] + p[1..] == p;
    assert pieces == [[p[0]] + shorter[0]] + shorter[1..];
  }

  lemma JoinHeadChar(pieces: seq<string>, sep: char, shorter: seq<string>)
    requires |pieces| >= 1 && pieces[0] != []
    requires shorter == [pieces[0][1..]] + pieces[1..]
    ensures Join(pieces, sep) == [pieces[0][0]] + Join(shorter, sep)
  {
    var p := pieces[0];
    if |pieces| > 1 {
      assert shorter[1..] == pieces[1..];
      assert p == [p[0]] + p[1..];
    }
  }

  /** One step of `Split`: a leading character either ends the first piece or joins it. */
  lemma SplitCons(c: char, t: string, sep: char)
    ensures Split([c] + t, sep) ==
      if c == sep then [""] + Split(t, sep) else [[c] + Split(t, sep)[0]] + Split(t, sep)[1..]
  {
    assert ([c] + t)[1..] == t;
  }

  // ---------------------------------------------------------------------
  // s.split() on whitespace
  // ---------------------------------------------------------------------

  /** The length of the run of non-whitespace characters that starts `s`. */
  function WordLength(s: string): (k: nat)
    requires s != [] && !IsSpace(s[0])
    ensures 1 <= k <= |s|
    ensures forall i :: 0 <= i < k ==> !IsSpace(s[i])
    ensures k < |s| ==> IsSpace(s[k])
  {
    if |s| == 1 || IsSpace(s[1]) then 1 else 1 + WordLength(s[1..])
  }

  /** The run length is determined by its two defining properties. */
  lemma WordLengthIs(s: string, k: nat)
    requires 1 <= k <= |s|
    requires forall i :: 0 <= i < k ==> !IsSpace(s[i])
    requires k < |s| ==> IsSpace(s[k])
    ensures WordLength(s) == k
  {
  }

  /** Python's `s.split()`: the maximal runs of non-whitespace characters, in order. */
  function Words(s: string): (ws: seq<string>)
    ensures AllWords(ws)
    decreases |s|
  {
    if s == [] then []
    else if IsSpace(s[0]) then Words(s[1..])
    else
      var k := WordLength(s);
      [s[..k]] + Words(s[k..])
  }

  predicate AllSpace(s: string) {
    forall i :: 0 <= i < |s| ==> IsSpace(s[i])
  }

  /** `s.split()` is empty exactly when `s` is empty or whitespace only. */
  lemma {:induction false} WordsEmpty(s: string)
    ensures Words(s) == [] <==> AllSpace(s)
    decreases |s|
  {
    if s != [] {
      WordsEmpty(s[1..]);
      if IsSpace(s[0]) {
        assert AllSpace(s) <==> AllSpace(s[1..]) by {
          if AllSpace(s[1..]) {
            forall i | 0 <= i < |s| ensures IsSpace(s[i]) {
              if i > 0 { assert s[i] == s[1..][i - 1]; }
            }
          }
        }
      }
    }
  }

  /** A word followed by nothing or by whitespace is split off whole. */
  lemma WordsAfterWord(w: string, t: string)
    requires IsWord(w)
    requires t == [] || IsSpace(t[0])
    ensures Words(w + t) == [w] + Words(t)
  {
    var s := w + t;
    WordLengthIs(s, |w|);
    assert s[..|w|] == w && s[|w|..] == t;
  }

  /** Splitting a single-space join of words gives back those words. */
  lemma {:induction false} WordsOfJoin(ws: seq<string>)
    requires AllWords(ws)
    ensures Words(Join(ws, ' ')) == ws
    decreases |ws|
  {
    if |ws| == 1 {
      WordsAfterWord(ws[0], "");
      assert ws[0] + "" == ws[0];
    } else if |ws| > 1 {
      var rest := Join(ws[1..], ' ');
      var t := " " + rest;
      assert Join(ws, ' ') == ws[0] + t;
      WordsAfterWord(ws[0], t);
      assert t[1..] == rest;
      WordsOfJoin(ws[1..]);
      assert ws == [ws[0]] + ws[1..];
    }
  }

  /** Whitespace appended at the end adds no word. */
  lemma {:induction false} WordsTrailingSpace(s: string, c: char)
    requires IsSpace(c)
    ensures Words(s + [c]) == Words(s)
    decreases |s|
  {
    var t := s + [c];
    if s == [] {
      assert t[1..] == [];
    } else if IsSpace(s[0]) {
      assert t[1..] == s[1..] + [c];
      WordsTrailingSpace(s[1..], c);
    } else {
      var k := WordLength(s);
      WordLengthIs(t, k);
      assert t[..k] == s[..k];
      assert t[k..] == s[k..] + [c];
      WordsTrailingSpace(s[k..], c);
    }
  }

  // ---------------------------------------------------------------------
  // s.strip()
  // ---------------------------------------------------------------------

  function StripLeading(s: string): (r: string)
    ensures |r| <= |s|
  {
    if s != [] && IsSpace(s[0]) then StripLeading(s[1..]) else s
  }

  function StripTrailing(s: string): (r: string)
    ensures |r| <= |s|
  {
    if s != [] && IsSpace(s[|s| - 1]) then StripTrailing(s[..|s| - 1]) else s
  }

  /** Python's `s.strip()`: surrounding whitespace removed. */
  function Strip(s: string): string {
    StripTrailing(StripLeading(s))
  }

  /** `lstrip()` drops a whitespace prefix, and exactly the longest one. */
  lemma {:induction false} StripLeadingShape(s: string)
    ensures var r := StripLeading(s);
      && |r| <= |s| && r == s[|s| - |r|..]
      && (r == [] || !IsSpace(r[0]))
      && AllSpace(s[..|s| - |r|])
    decreases |s|
  {
    if s != [] && IsSpace(s[0]) {
      StripLeadingShape(s[1..]);
      var r := StripLeading(s[1..]);
      assert s[..|s| - |r|] == [s[0]] + s[1..][..|s| - 1 - |r|];
    }
  }

  /** `rstrip()` drops a whitespace suffix, and exactly the longest one. */
  lemma {:induction false} StripTrailingShape(s: string)
    ensures var r := StripTrailing(s);
      && |r| <= |s| && r == s[..|r|]
      && (r == [] || !IsSpace(r[|r| - 1]))
      && AllSpace(s[|r|..])
    decreases |s|
  {
    if s != [] && IsSpace(s[|s| - 1]) {
      StripTrailingShape(s[..|s| - 1]);
      var r := StripTrailing(s[..|s| - 1]);
      assert s[|r|..] == s[..|s| - 1][|r|..] + [s[|s| - 1]];
    }
  }

  /**
   * `strip()` keeps one contiguous slice of `s`, with only whitespace
   * before and after it, and a result that is empty or neither starts nor
   * ends with whitespace.
   */
  lemma StripShape(s: string)
    ensures var r := Strip(s); var k := |s| - |StripLeading(s)|;
      && k + |r| <= |s| && r == s[k..k + |r|]
      && AllSpace(s[..k]) && AllSpace(s[k + |r|..])
      && (r == [] || (!IsSpace(r[0]) && !IsSpace(r[|r| - 1])))
  {
    var l := StripLeading(s);
    var r := Strip(s);
    var k := |s| - |l|;
    StripLeadingShape(s);
    StripTrailingShape(l);
    assert l == s[k..];
    assert r == l[..|r|];
    assert s[k..k + |r|] == l[..|r|];
    assert s[k + |r|..] == l[|r|..];
    if r != [] {
      assert r[0] == l[0];
    }
  }

  /** Stripping never changes the words of a string. */
  lemma {:induction false} WordsStripTrailing(s: string)
    ensures Words(StripTrailing(s)) == Words(s)
    decreases |s|
  {
    if s != [] && IsSpace(s[|s| - 1]) {
      var init, c := s[..|s| - 1], s[|s| - 1];
      assert StripTrailing(s) == StripTrailing(init);
      WordsStripTrailing(init);
      assert init + [c] == s;
      WordsTrailingSpace(init, c);
    }
  }

  lemma {:induction false} WordsStripLeading(s: string)
    ensures Words(StripLeading(s)) == Words(s)
    decreases |s|
  {
    if s != [] && IsSpace(s[0]) {
      WordsStripLeading(s[1..]);
    }
  }

  lemma WordsOfStrip(s: string)
    ensures Words(Strip(s)) == Words(s)
  {
    WordsStripLeading(s);
    WordsStripTrailing(StripLeading(s));
  }
}
