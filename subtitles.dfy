/**
 * Turning transcript segments into subtitle cues: each segment's words are
 * cut into runs of at most five, the segment's time span is divided evenly
 * among the runs, and every cue becomes one numbered SubRip block.
 */
module Subtitles {
  import opened Text
  import opened Decimal
  import opened Timecode

  /** The chunk size the pipeline passes to `split_text`. */
  const MaxWords: nat := 5

  // ---------------------------------------------------------------------
  // split_text
  // ---------------------------------------------------------------------

  /** `words[i:i+w]` for `i` in `range(0, len(words), w)`. */
  function Groups(words: seq<string>, w: nat): seq<seq<string>>
    requires w > 0
    decreases |words|
  {
    if words == [] then []
    else if |words| <= w then [words]
    else [words[..w]] + Groups(words[w..], w)
  }

  function Flatten<T>(xss: seq<seq<T>>): seq<T> {
    if xss == [] then [] else xss[0] + Flatten(xss[1..])
  }

  /**
   * The runs, put back together, are the words; every run has 1 to `w`
   * words and all but the last exactly `w`; there are ceil(n / w) of them;
   * and run `k` is the slice that starts at word `k * w`.
   */
  lemma GroupsShape(words: seq<string>, w: nat)
    requires w > 0
    ensures var gs := Groups(words, w);
      && Flatten(gs) == words
      && (forall k :: 0 <= k < |gs| ==> 1 <= |gs[k]| <= w)
      && (forall k :: 0 <= k < |gs| - 1 ==> |gs[k]| == w)
      && (|gs| - 1) * w < |words| <= |gs| * w
      && |gs| == (|words| + w - 1) / w
  {
    GroupsFlatten(words, w);
    GroupsSizes(words, w);
    var g := |Groups(words, w)|;
    GroupsCount(words, w);
    if words != [] {
      CeilOfBounds(|words|, w, g);
    }
  }

  lemma {:induction false} GroupsFlatten(words: seq<string>, w: nat)
    requires w > 0
    ensures Flatten(Groups(words, w)) == words
    decreases |words|
  {
    if |words| > w {
      GroupsFlatten(words[w..], w);
      assert words == words[..w] + words[w..];
    } else if words != [] {
      assert Flatten([words]) == words + Flatten([]);
    }
  }

  lemma {:induction false} GroupsSizes(words: seq<string>, w: nat)
    requires w > 0
    ensures forall k :: 0 <= k < |Groups(words, w)| ==> 1 <= |Groups(words, w)[k]| <= w
    ensures forall k :: 0 <= k < |Groups(words, w)| - 1 ==> |Groups(words, w)[k]| == w
    decreases |words|
  {
    if |words| > w {
      GroupsSizes(words[w..], w);
      var gs, rest := Groups(words, w), Groups(words[w..], w);
      assert gs == [words[..w]] + rest;
      forall k | 0 <= k < |gs| ensures 1 <= |gs[k]| <= w && (k < |gs| - 1 ==> |gs[k]| == w) {
        if k > 0 {
          assert gs[k] == rest[k - 1];
        }
      }
    }
  }

  lemma {:induction false} GroupsCount(words: seq<string>, w: nat)
    requires w > 0
    ensures (|Groups(words, w)| - 1) * w < |words| <= |Groups(words, w)| * w || words == []
    ensures words == [] <==> Groups(words, w) == []
    decreases |words|
  {
    if |words| > w {
      GroupsCount(words[w..], w);
      var g := |Groups(words[w..], w)|;
      assert |Groups(words, w)| == g + 1;
      assert (g + 1) * w == g * w + w;
    }
  }

  /** Integer division pinned down by the quotient's defining bounds. */
  lemma DivIs(x: int, w: int, q: int)
    requires w > 0 && q * w <= x < q * w + w
    ensures x / w == q
  {
    var r, m := x / w, x % w;
    assert x == r * w + m && 0 <= m < w;
    assert (r - q) * w == r * w - q * w;
    if r > q {
      MulAtLeast(r - q, w);
    } else if r < q {
      MulAtLeast(q - r, w);
    }
  }

  lemma {:induction false} MulAtLeast(d: int, w: int)
    requires d >= 1 && w > 0
    ensures d * w >= w
    decreases d
  {
    if d > 1 {
      MulAtLeast(d - 1, w);
      assert d * w == (d - 1) * w + w;
    }
  }

  /** The ceiling bounds on the number of runs give the quotient form. */
  lemma CeilOfBounds(n: nat, w: nat, g: nat)
    requires w > 0 && (g - 1) * w < n <= g * w
    ensures g == (n + w - 1) / w
  {
    assert (g - 1) * w == g * w - w;
    DivIs(n + w - 1, w, g);
  }

  /** Run `k` is words `k * w` up to `k * w + w`, cut at the end of the list. */
  lemma {:induction false} GroupAt(words: seq<string>, w: nat, k: nat)
    requires w > 0 && k < |Groups(words, w)|
    ensures k * w < |words|
    ensures Groups(words, w)[k] == words[k * w .. if k * w + w <= |words| then k * w + w else |words|]
    decreases |words|
  {
    if k > 0 {
      var gs, tail := Groups(words, w), words[w..];
      assert |words| > w;
      assert gs == [words[..w]] + Groups(tail, w);
      GroupAt(tail, w, k - 1);
      var a := (k - 1) * w;
      assert a + w == k * w;
      var e := if a + w <= |tail| then a + w else |tail|;
      assert gs[k] == tail[a..e];
      assert tail[a..e] == words[a + w..e + w] by {
        forall i | 0 <= i < e - a ensures tail[a..e][i] == words[a + w..e + w][i] {
          assert tail[a + i] == words[w + a + i];
        }
      }
    }
  }

  /** `split_text(text, max_words)`: each run joined with single spaces. */
  function SplitText(text: string, w: nat): seq<string>
    requires w > 0
  {
    var gs := Groups(Words(text), w);
    seq(|gs|, k requires 0 <= k < |gs| => Join(gs[k], ' '))
  }

  /**
   * Every chunk splits back into its run of words: the chunks carry the
   * text's words, in order, nothing lost and nothing added.
   */
  lemma SplitTextWords(text: string, w: nat, k: nat)
    requires w > 0 && k < |SplitText(text, w)|
    ensures Words(SplitText(text, w)[k]) == Groups(Words(text), w)[k]
    ensures 1 <= |Words(SplitText(text, w)[k])| <= w
  {
    var gs := Groups(Words(text), w);
    GroupsSizes(Words(text), w);
    GroupsOfWords(Words(text), w, k);
    WordsOfJoin(gs[k]);
  }

  /** Every run of a list of words is itself a list of words. */
  lemma {:induction false} GroupsOfWords(words: seq<string>, w: nat, k: nat)
    requires w > 0 && AllWords(words) && k < |Groups(words, w)|
    ensures AllWords(Groups(words, w)[k])
    decreases |words|
  {
    if |words| > w {
      var rest := Groups(words[w..], w);
      assert Groups(words, w) == [words[..w]] + rest;
      if k > 0 {
        GroupsOfWords(words[w..], w, k - 1);
        assert Groups(words, w)[k] == rest[k - 1];
      } else {
        forall i | 0 <= i < w ensures IsWord(words[..w][i]) {
          assert words[..w][i] == words[i];
        }
      }
    }
  }

  /** The words of each chunk, chunk by chunk. */
  function ChunkWords(chunks: seq<string>): (wss: seq<seq<string>>)
    ensures |wss| == |chunks|
  {
    seq(|chunks|, k requires 0 <= k < |chunks| => Words(chunks[k]))
  }

  /** Splitting the chunks again and concatenating the results gives back the text's words. */
  lemma SplitTextFlatten(text: string, w: nat)
    requires w > 0
    ensures Flatten(ChunkWords(SplitText(text, w))) == Words(text)
  {
    var chunks := SplitText(text, w);
    var gs := Groups(Words(text), w);
    forall k | 0 <= k < |chunks| ensures ChunkWords(chunks)[k] == gs[k] {
      SplitTextWords(text, w, k);
    }
    assert ChunkWords(chunks) == gs;
    GroupsFlatten(Words(text), w);
  }

  /** An empty or whitespace-only text gives no chunk at all. */
  lemma SplitTextBlank(text: string, w: nat)
    requires w > 0
    ensures SplitText(text, w) == [] <==> AllSpace(text)
  {
    WordsEmpty(text);
    if Words(text) != [] {
      GroupsShape(Words(text), w);
    }
  }

  // ---------------------------------------------------------------------
  // Timing of the chunks of one segment
  // ---------------------------------------------------------------------

  /** A transcript segment: its span in seconds and its recognised text. */
  datatype Segment = Segment(start: real, end: real, text: string)

  /** One subtitle: its span in seconds and its text, `(chunk_start, chunk_end, chunk)`. */
  datatype Cue = Cue(start: real, end: real, text: string)

  /** `duration_per_chunk`: the segment's span shared among `n` chunks, or the whole span when there are none. */
  function ChunkDuration(seg: Segment, n: nat): real {
    if n > 0 then (seg.end - seg.start) / n as real else seg.end - seg.start
  }

  /**
   * `k * d`, written as repeated addition so that the cue layout stays in
   * linear arithmetic; `TimesIsProduct` shows it is the product.
   */
  function Times(k: nat, d: real): real {
    if k == 0 then 0.0 else Times(k - 1, d) + d
  }

  lemma {:induction false} TimesIsProduct(k: nat, d: real)
    ensures Times(k, d) == k as real * d
  {
    if k > 0 {
      TimesIsProduct(k - 1, d);
      assert (k - 1) as real * d + d == k as real * d;
    }
  }

  /** Cues for `chunks` laid end to end from `start`, each `d` seconds long. */
  function Spread(start: real, d: real, chunks: seq<string>): (cues: seq<Cue>)
    ensures |cues| == |chunks|
  {
    seq(|chunks|, j requires 0 <= j < |chunks| =>
      Cue(start + Times(j, d), start + Times(j, d) + d, chunks[j]))
  }

  /** Laying out one more chunk appends a cue that starts `j * d` after `start`. */
  lemma SpreadSnoc(start: real, d: real, chunks: seq<string>, j: nat)
    requires j < |chunks|
    ensures Spread(start, d, chunks[..j + 1]) ==
      Spread(start, d, chunks[..j]) + [Cue(start + j as real * d, start + j as real * d + d, chunks[j])]
  {
    TimesIsProduct(j, d);
  }

  /** Laid-out cues keep their chunks, have length `d` and meet end to start. */
  lemma SpreadPartition(start: real, d: real, chunks: seq<string>)
    ensures var cues := Spread(start, d, chunks); var n := |cues|;
      && (forall j :: 0 <= j < n ==> cues[j].text == chunks[j] && cues[j].end - cues[j].start == d)
      && (forall j :: 0 <= j < n - 1 ==> cues[j].end == cues[j + 1].start)
      && (n > 0 ==> cues[0].start == start && cues[n - 1].end == start + Times(n, d))
  {
  }

  /** A span cut into `n` equal parts adds back up to the span. */
  lemma EqualParts(x: real, n: nat)
    requires n > 0
    ensures Times(n, x / n as real) == x
  {
    TimesIsProduct(n, x / n as real);
  }

  /** Repeated addition of a non-negative length grows with the count. */
  lemma {:induction false} TimesMonotone(j: nat, n: nat, d: real)
    requires j <= n && d >= 0.0
    ensures 0.0 <= Times(j, d) <= Times(n, d)
    decreases n
  {
    if j < n {
      TimesMonotone(j, n - 1, d);
    } else if n > 0 {
      TimesMonotone(n - 1, n - 1, d);
    }
  }

  /** The cues of one segment, in chunk order. */
  function SegmentCues(seg: Segment): seq<Cue> {
    var chunks := SplitText(Strip(seg.text), MaxWords);
    Spread(seg.start, ChunkDuration(seg, |chunks|), chunks)
  }

  /**
   * The cues of a segment partition its span: the first starts at the
   * segment's start, each ends where the next begins, the last ends at the
   * segment's end, and all have the same length whatever their word counts.
   * Their texts are the chunks of the stripped segment text.
   */
  lemma SegmentPartition(seg: Segment)
    ensures var cues := SegmentCues(seg); var n := |cues|;
      && (forall j :: 0 <= j < n ==> cues[j].text == SplitText(Strip(seg.text), MaxWords)[j])
      && (forall j :: 0 <= j < n ==> cues[j].end - cues[j].start == (seg.end - seg.start) / n as real)
      && (forall j :: 0 <= j < n - 1 ==> cues[j].end == cues[j + 1].start)
      && (n > 0 ==> cues[0].start == seg.start && cues[n - 1].end == seg.end)
  {
    var chunks := SplitText(Strip(seg.text), MaxWords);
    var n := |chunks|;
    SpreadPartition(seg.start, ChunkDuration(seg, n), chunks);
    if n > 0 {
      EqualParts(seg.end - seg.start, n);
    }
  }

  /** For a segment that does not run backwards, every cue lies inside it. */
  lemma SegmentCuesInside(seg: Segment)
    requires seg.start <= seg.end
    ensures forall j :: 0 <= j < |SegmentCues(seg)| ==>
      seg.start <= SegmentCues(seg)[j].start <= SegmentCues(seg)[j].end <= seg.end
  {
    var chunks := SplitText(Strip(seg.text), MaxWords);
    var n := |chunks|;
    var cues := SegmentCues(seg);
    if n > 0 {
      var d := ChunkDuration(seg, n);
      assert d >= 0.0;
      EqualParts(seg.end - seg.start, n);
      forall j | 0 <= j < n ensures seg.start <= cues[j].start <= cues[j].end <= seg.end {
        TimesMonotone(j, n, d);
        TimesMonotone(j + 1, n, d);
      }
    }
  }

  /**
   * A segment whose text is empty or only whitespace gives no cue: the
   * whole-span fallback duration is never used for anything.
   */
  lemma BlankSegmentNoCues(seg: Segment)
    ensures SegmentCues(seg) == [] <==> AllSpace(seg.text)
  {
    WordsOfStrip(seg.text);
    WordsEmpty(seg.text);
    WordsEmpty(Strip(seg.text));
    SplitTextBlank(Strip(seg.text), MaxWords);
  }

  /** A segment with n words gives ceil(n / 5) cues. */
  lemma SegmentCueCount(seg: Segment)
    ensures |SegmentCues(seg)| == (|Words(seg.text)| + MaxWords - 1) / MaxWords
  {
    WordsOfStrip(seg.text);
    GroupsShape(Words(seg.text), MaxWords);
  }

  // ---------------------------------------------------------------------
  // All segments, and the SubRip blocks
  // ---------------------------------------------------------------------

  /** `f` applied to each element, the results concatenated in order. */
  function FlatMap<A, B>(xs: seq<A>, f: A -> seq<B>): seq<B>
    decreases |xs|
  {
    if xs == [] then [] else FlatMap(xs[..|xs| - 1], f) + f(xs[|xs| - 1])
  }

  lemma {:induction false} FlatMapAppend<A, B>(a: seq<A>, b: seq<A>, f: A -> seq<B>)
    ensures FlatMap(a + b, f) == FlatMap(a, f) + FlatMap(b, f)
    decreases |b|
  {
    if b == [] {
      assert a + b == a;
    } else {
      var n := |b| - 1;
      assert (a + b)[..|a + b| - 1] == a + b[..n];
      FlatMapAppend(a, b[..n], f);
    }
  }

  /** The cues of all segments: segment order, then chunk order. */
  function AllCues(segments: seq<Segment>): seq<Cue> {
    FlatMap(segments, SegmentCues)
  }

  /** Cue lists of consecutive runs of segments follow one another. */
  lemma AllCuesAppend(a: seq<Segment>, b: seq<Segment>)
    ensures AllCues(a + b) == AllCues(a) + AllCues(b)
  {
    FlatMapAppend(a, b, SegmentCues);
  }

  /**
   * The block list and the cue list are in lockstep: as many blocks as
   * cues, and block k (from 0) is cue k under the number k + 1.
   */
  predicate Numbered(subtitles: seq<string>, cues: seq<Cue>) {
    && |subtitles| == |cues|
    && forall k :: 0 <= k < |subtitles| ==> subtitles[k] == SrtBlock(k + 1, cues[k])
  }

  /** Appending a cue and its block, numbered one past the last, keeps the lockstep. */
  lemma NumberedSnoc(subtitles: seq<string>, cues: seq<Cue>, block: string, cue: Cue)
    requires Numbered(subtitles, cues)
    requires block == SrtBlock(|subtitles| + 1, cue)
    ensures Numbered(subtitles + [block], cues + [cue])
  {
    forall k | 0 <= k < |subtitles| + 1 ensures (subtitles + [block])[k] == SrtBlock(k + 1, (cues + [cue])[k]) {
      if k < |subtitles| {
        assert (subtitles + [block])[k] == subtitles[k];
        assert (cues + [cue])[k] == cues[k];
      }
    }
  }

  /** The block the chunk loop writes out inline is the `SrtBlock` of its cue. */
  lemma EmitStep(subtitles: seq<string>, cues: seq<Cue>, cue: Cue, block: string)
    requires Numbered(subtitles, cues)
    requires block == NatToDecimal(|subtitles| + 1) + "\n" + FormatTime(cue.start) + " --> " + FormatTime(cue.end) + "\n" + cue.text + "\n"
    ensures Numbered(subtitles + [block], cues + [cue])
  {
    assert block == SrtBlock(|subtitles| + 1, cue);
    NumberedSnoc(subtitles, cues, block, cue);
  }

  /** One turn of the chunk loop extends the cue list by the next laid-out cue. */
  lemma LayoutStep(before: seq<Cue>, cues: seq<Cue>, start: real, d: real, chunks: seq<string>, j: nat, cue: Cue)
    requires j < |chunks| && cues == before + Spread(start, d, chunks[..j])
    requires cue == Cue(start + j as real * d, start + j as real * d + d, chunks[j])
    ensures cues + [cue] == before + Spread(start, d, chunks[..j + 1])
  {
    SpreadSnoc(start, d, chunks, j);
  }

  lemma AllCuesSnoc(segments: seq<Segment>, seg: Segment)
    ensures AllCues(segments + [seg]) == AllCues(segments) + SegmentCues(seg)
  {
    AllCuesAppend(segments, [seg]);
    assert [seg][..0] == [];
  }

  /** One SubRip block: `f"{n}\n{start} --> {end}\n{chunk}\n"`. */
  function SrtBlock(n: nat, cue: Cue): string {
    NatToDecimal(n) + "\n" + FormatTime(cue.start) + " --> " + FormatTime(cue.end) + "\n" + cue.text + "\n"
  }

  lemma DigitsNoNewline(s: string)
    requires AllDigits(s)
    ensures '\n' !in s
  {
  }

  lemma FormatIntNoNewline(n: int, width: nat)
    ensures '\n' !in FormatInt(n, width)
  {
    var s := FormatInt(n, width);
    FormatIntFacts(n, width);
    if n >= 0 {
      DigitsNoNewline(s);
    } else {
      DigitsNoNewline(s[1..]);
      assert s == [s[0]] + s[1..];
    }
  }

  lemma FormatTimeNoNewline(t: real)
    ensures '\n' !in FormatTime(t)
  {
    var c := ClockOf(t);
    FormatIntNoNewline(c.h, 2);
    FormatIntNoNewline(c.m, 2);
    FormatIntNoNewline(c.s, 2);
    FormatIntNoNewline(c.ms, 3);
  }

  lemma {:induction false} JoinWordsNoNewline(ws: seq<string>)
    requires AllWords(ws)
    ensures '\n' !in Join(ws, ' ')
    decreases |ws|
  {
    if |ws| == 1 {
      assert IsSpace('\n');
    } else if |ws| > 1 {
      assert IsSpace('\n');
      JoinWordsNoNewline(ws[1..]);
      assert Join(ws, ' ') == ws[0] + [' '] + Join(ws[1..], ' ');
    }
  }

  /** A chunk text never contains a line break, so it stays on one subtitle line. */
  lemma CueTextOneLine(seg: Segment, j: nat)
    requires j < |SegmentCues(seg)|
    ensures '\n' !in SegmentCues(seg)[j].text
  {
    var text := Strip(seg.text);
    var gs := Groups(Words(text), MaxWords);
    GroupsOfWords(Words(text), MaxWords, j);
    JoinWordsNoNewline(gs[j]);
  }

  lemma StampsOneLine(a: string, b: string)
    requires '\n' !in a && '\n' !in b
    ensures '\n' !in a + " --> " + b
  {
  }

  lemma Regroup(num: string, a: string, b: string, text: string)
    ensures num + "\n" + a + " --> " + b + "\n" + text + "\n"
         == num + "\n" + (a + " --> " + b) + "\n" + text + "\n"
  {
  }

  lemma JoinFour(a: string, b: string, c: string)
    ensures Join([a, b, c, ""], '\n') == a + "\n" + b + "\n" + c + "\n"
  {
    var p := [a, b, c, ""];
    assert p[1..] == [b, c, ""] && p[1..][1..] == [c, ""] && p[1..][1..][1..] == [""];
    assert Join([c, ""], '\n') == c + "\n";
    assert Join([b, c, ""], '\n') == b + "\n" + (c + "\n");
  }

  /**
   * A block is four lines: the number, the two stamps with an arrow, the
   * chunk text, and the empty rest after the final line break; the first
   * line reads back as the block's number.
   */
  lemma SrtBlockLines(n: nat, cue: Cue)
    requires '\n' !in cue.text
    ensures Split(SrtBlock(n, cue), '\n') ==
      [NatToDecimal(n), FormatTime(cue.start) + " --> " + FormatTime(cue.end), cue.text, ""]
    ensures DecimalValue(Split(SrtBlock(n, cue), '\n')[0]) == n
  {
    var num := NatToDecimal(n);
    var stamps := FormatTime(cue.start) + " --> " + FormatTime(cue.end);
    DigitsNoNewline(num);
    FormatTimeNoNewline(cue.start);
    FormatTimeNoNewline(cue.end);
    StampsOneLine(FormatTime(cue.start), FormatTime(cue.end));
    var lines := [num, stamps, cue.text, ""];
    JoinFour(num, stamps, cue.text);
    Regroup(num, FormatTime(cue.start), FormatTime(cue.end), cue.text);
    SplitJoin(lines, '\n');
    DecimalRoundTrip(n);
  }

  /** After the chunk loop of segment `i`, the cue list covers the first `i + 1` segments. */
  lemma SegmentStep(segments: seq<Segment>, i: nat, before: seq<Cue>, d: real)
    requires i < |segments|
    requires d == ChunkDuration(segments[i], |SplitText(Strip(segments[i].text), MaxWords)|)
    ensures before == AllCues(segments[..i]) ==>
      before + Spread(segments[i].start, d, SplitText(Strip(segments[i].text), MaxWords)) == AllCues(segments[..i + 1])
  {
    assert segments[..i + 1] == segments[..i] + [segments[i]];
    AllCuesSnoc(segments[..i], segments[i]);
  }

  /**
   * The chunk loop of one segment: chunk j gets the span from
   * `start + j * duration` to `duration` later; its cue is appended to the
   * cue list and its block, numbered `len(subtitles) + 1`, to the block list.
   */
  method EmitChunks(start: real, duration: real, chunks: seq<string>, subtitles0: seq<string>, cues0: seq<Cue>)
      returns (subtitles: seq<string>, subtitleSegments: seq<Cue>)
    requires Numbered(subtitles0, cues0)
    ensures subtitleSegments == cues0 + Spread(start, duration, chunks)
    ensures Numbered(subtitles, subtitleSegments)
  {
    subtitles, subtitleSegments := subtitles0, cues0;
    assert chunks[..0] == [];
    for j := 0 to |chunks|
      invariant subtitleSegments == cues0 + Spread(start, duration, chunks[..j])
      invariant Numbered(subtitles, subtitleSegments)
    {
      var chunk := chunks[j];
      var chunkStart := start + j as real * duration;
      var chunkEnd := chunkStart + duration;
      var cue := Cue(chunkStart, chunkEnd, chunk);
      var startStr := FormatTime(chunkStart);
      var endStr := FormatTime(chunkEnd);
      var block := NatToDecimal(|subtitles| + 1) + "\n" + startStr + " --> " + endStr + "\n" + chunk + "\n";
      LayoutStep(cues0, subtitleSegments, start, duration, chunks, j, cue);
      EmitStep(subtitles, subtitleSegments, cue, block);
      subtitleSegments := subtitleSegments + [cue];
      subtitles := subtitles + [block];
    }
    assert chunks[..|chunks|] == chunks;
  }

  /**
   * The segment loop: each segment's stripped text is cut into chunks, the
   * segment's span is divided evenly among them, and the chunk loop appends
   * their cues and blocks. The cue list is the cues of all segments in
   * order, and the block list is those cues, numbered from 1.
   */
  method BuildSubtitles(segments: seq<Segment>) returns (subtitles: seq<string>, subtitleSegments: seq<Cue>)
    ensures subtitleSegments == AllCues(segments)
    ensures Numbered(subtitles, subtitleSegments)
  {
    subtitles, subtitleSegments := [], [];
    for i := 0 to |segments|
      invariant subtitleSegments == AllCues(segments[..i])
      invariant Numbered(subtitles, subtitleSegments)
    {
      var segment := segments[i];
      var start := segment.start;
      var text := Strip(segment.text);
      var chunks := SplitText(text, MaxWords);
      var durationPerChunk := ChunkDuration(segment, |chunks|);
      ghost var before := subtitleSegments;
      subtitles, subtitleSegments := EmitChunks(start, durationPerChunk, chunks, subtitles, subtitleSegments);
      SegmentStep(segments, i, before, durationPerChunk);
    }
    assert segments[..|segments|] == segments;
  }
}
