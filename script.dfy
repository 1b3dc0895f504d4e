/**
 * Loading the dialogue script and deciding, line by line, which voice
 * speaks it and which audio file it becomes.
 */
module Script {
  import opened Wrappers
  import opened Text
  import Decimal

  // ---------------------------------------------------------------------
  // Loading: split on "\n", drop the entries that are exactly ''
  // ---------------------------------------------------------------------

  /** The list comprehension that keeps the pieces different from `''`. */
  function NonEmpty(pieces: seq<string>): (lines: seq<string>)
    ensures forall i :: 0 <= i < |lines| ==> lines[i] != ""
  {
    if pieces == [] then []
    else (if pieces[0] == "" then [] else [pieces[0]]) + NonEmpty(pieces[1..])
  }

  /** The script: the text split on "\n", literal empty entries dropped. */
  function LoadScript(text: string): seq<string> {
    NonEmpty(Split(text, '\n'))
  }

  /** The filter keeps every non-empty piece as often as it occurs, and no empty one. */
  lemma {:induction false} NonEmptyContents(pieces: seq<string>)
    ensures multiset(NonEmpty(pieces)) == multiset(pieces)["" := 0]
  {
    if pieces != [] {
      NonEmptyContents(pieces[1..]);
      assert pieces == [pieces[0]] + pieces[1..];
      assert multiset(pieces) == multiset{pieces[0]} + multiset(pieces[1..]);
    }
  }

  /** The filter works piece by piece, so it keeps the order of what it keeps. */
  lemma {:induction false} NonEmptyAppend(a: seq<string>, b: seq<string>)
    ensures NonEmpty(a + b) == NonEmpty(a) + NonEmpty(b)
  {
    if a != [] {
      assert (a + b)[1..] == a[1..] + b;
      NonEmptyAppend(a[1..], b);
    } else {
      assert a + b == b;
    }
  }

  /** A list without empty entries passes the filter unchanged. */
  lemma {:induction false} NonEmptyIdentity(pieces: seq<string>)
    requires forall i :: 0 <= i < |pieces| ==> pieces[i] != ""
    ensures NonEmpty(pieces) == pieces
  {
    if pieces != [] {
      NonEmptyIdentity(pieces[1..]);
    }
  }

  /** A line of the script is exactly a non-empty line of the text. */
  lemma LoadScriptLines(text: string)
    ensures forall line :: line in LoadScript(text) <==> line in Split(text, '\n') && line != ""
  {
    var pieces := Split(text, '\n');
    NonEmptyContents(pieces);
    forall line ensures line in LoadScript(text) <==> line in pieces && line != "" {
      assert line in LoadScript(text) <==> line in multiset(LoadScript(text));
      assert line in pieces <==> line in multiset(pieces);
    }
  }

  /**
   * Blank and whitespace-only lines: only the literally empty ones go,
   * and a line holding only a space is kept.
   */
  lemma LoadScriptExample(text: string)
    requires text == "Tom: Hi\n\n \nLisa: Yo\n"
    ensures LoadScript(text) == ["Tom: Hi", " ", "Lisa: Yo"]
  {
    var pieces := ["Tom: Hi", "", " ", "Lisa: Yo", ""];
    ExamplePieces(text, pieces);
    ExampleLines(pieces);
  }

  lemma ExamplePieces(text: string, pieces: seq<string>)
    requires text == "Tom: Hi\n\n \nLisa: Yo\n"
    requires pieces == ["Tom: Hi", "", " ", "Lisa: Yo", ""]
    ensures Split(text, '\n') == pieces
  {
    var p3, p2, p1 := pieces[3..], pieces[2..], pieces[1..];
    assert Join(pieces[4..], '\n') == "";
    assert Join(p3, '\n') == "Lisa: Yo" + "\n" + "";
    assert Join(p2, '\n') == " " + "\n" + Join(p3, '\n');
    assert Join(p1, '\n') == "" + "\n" + Join(p2, '\n');
    assert Join(pieces, '\n') == "Tom: Hi" + "\n" + Join(p1, '\n');
    assert Join(pieces, '\n') == text;
    SplitJoin(pieces, '\n');
  }

  lemma ExampleLines(pieces: seq<string>)
    requires pieces == ["Tom: Hi", "", " ", "Lisa: Yo", ""]
    ensures NonEmpty(pieces) == ["Tom: Hi", " ", "Lisa: Yo"]
  {
    assert NonEmpty(pieces[4..]) == [];
    assert NonEmpty(pieces[3..]) == ["Lisa: Yo"];
    assert NonEmpty(pieces[2..]) == [" ", "Lisa: Yo"];
    assert NonEmpty(pieces[1..]) == [" ", "Lisa: Yo"];
  }

  // ---------------------------------------------------------------------
  // Speaker dispatch
  // ---------------------------------------------------------------------

  /** The two voices, by index: 0 speaks for Lisa, 1 for Tom. */
  const Voices: seq<string> := ["de-DE-AmalaNeural", "de-DE-ConradNeural"]

  /** One synthesis request: the script index, the voice index and the text to speak. */
  datatype Request = Request(index: nat, voice: nat, text: string)

  /** The audio file name of script line `i`, `f"{i}.mp3"`. */
  function AudioName(i: nat): string {
    Decimal.NatToDecimal(i) + ".mp3"
  }

  /** Python's `s[k:]`: empty when `k` is past the end. */
  function DropPrefix(s: string, k: nat): (r: string)
    ensures |r| == if k <= |s| then |s| - k else 0
    ensures forall j :: 0 <= j < |r| ==> r[j] == s[k + j]
  {
    if k <= |s| then s[k..] else ""
  }

  /**
   * The decision for line `i` of the script: a line starting with `Tom:` is
   * spoken by voice 1 without its first `len('Tom: ')` characters, otherwise a
   * line starting with `Lisa:` is spoken by voice 0 without its first
   * `len('Lisa: ')` characters, and any other line is not spoken at all.
   */
  function Dispatch(i: nat, line: string): (r: Option<Request>)
    ensures r.Some? <==> "Tom:" <= line || "Lisa:" <= line
    ensures r.Some? ==> r.value.index == i && r.value.voice < |Voices|
    ensures "Tom:" <= line ==> r == Some(Request(i, 1, DropPrefix(line, 5)))
    ensures !("Tom:" <= line) && "Lisa:" <= line ==> r == Some(Request(i, 0, DropPrefix(line, 6)))
  {
    if "Tom:" <= line then Some(Request(i, 1, DropPrefix(line, |"Tom: "|)))
    else if "Lisa:" <= line then Some(Request(i, 0, DropPrefix(line, |"Lisa: "|)))
    else None
  }

  /** The usual case: the tag and the one space after it are removed. */
  lemma DispatchTagged(i: nat, x: string)
    ensures Dispatch(i, "Tom: " + x) == Some(Request(i, 1, x))
    ensures Dispatch(i, "Lisa: " + x) == Some(Request(i, 0, x))
  {
    assert "Tom:" <= "Tom: " + x;
    assert ("Lisa: " + x)[0] == 'L';
    assert ("Tom: " + x)[5..] == x;
    assert ("Lisa: " + x)[6..] == x;
  }

  /** Without the space, the first character after the colon is dropped anyway. */
  lemma DispatchDropsCharacterAfterColon(i: nat, c: char, x: string)
    ensures Dispatch(i, "Tom:" + [c] + x) == Some(Request(i, 1, x))
    ensures Dispatch(i, "Lisa:" + [c] + x) == Some(Request(i, 0, x))
  {
    assert "Tom:" <= "Tom:" + [c] + x;
    assert ("Lisa:" + [c] + x)[0] == 'L';
    assert "Lisa:" <= "Lisa:" + [c] + x;
    assert ("Tom:" + [c] + x)[5..] == x;
    assert ("Lisa:" + [c] + x)[6..] == x;
  }

  /** A bare tag is spoken as the empty text. */
  lemma DispatchBareTag(i: nat)
    ensures Dispatch(i, "Tom:") == Some(Request(i, 1, ""))
    ensures Dispatch(i, "Lisa:") == Some(Request(i, 0, ""))
  {
    assert "Tom:" <= "Tom:";
    assert "Lisa:"[0] == 'L';
  }

  /** The requests of a whole script, in the order its lines are visited. */
  function Plan(script: seq<string>): seq<Request>
    decreases |script|
  {
    if script == [] then []
    else
      var n := |script| - 1;
      Plan(script[..n]) + (match Dispatch(n, script[n]) case Some(r) => [r] case None => [])
  }

  /**
   * Every request is the dispatch of the line it names, and the requests are
   * in strictly increasing line order.
   */
  lemma {:induction false} PlanIsDispatch(script: seq<string>)
    ensures forall k :: 0 <= k < |Plan(script)| ==>
      Plan(script)[k].index < |script| &&
      Dispatch(Plan(script)[k].index, script[Plan(script)[k].index]) == Some(Plan(script)[k])
    ensures forall k, l :: 0 <= k < l < |Plan(script)| ==> Plan(script)[k].index < Plan(script)[l].index
    decreases |script|
  {
    if script != [] {
      var n := |script| - 1;
      var init := script[..n];
      PlanIsDispatch(init);
      var p, ps := Plan(init), Plan(script);
      assert ps[..|p|] == p;
      forall k | 0 <= k < |ps|
        ensures ps[k].index < |script| && Dispatch(ps[k].index, script[ps[k].index]) == Some(ps[k])
      {
        if k < |p| {
          assert ps[k] == p[k];
          assert init[p[k].index] == script[p[k].index];
        }
      }
      forall k, l | 0 <= k < l < |ps| ensures ps[k].index < ps[l].index {
        assert ps[k] == p[k];
        if l < |p| {
          assert ps[l] == p[l];
        }
      }
    }
  }

  /** Every spoken line has a request: where the request of line `i` sits in the plan. */
  lemma {:induction false} PlanPosition(script: seq<string>, i: nat) returns (k: nat)
    requires i < |script| && Dispatch(i, script[i]).Some?
    ensures k < |Plan(script)| && Plan(script)[k].index == i
    decreases |script|
  {
    var n := |script| - 1;
    var init := script[..n];
    var p, ps := Plan(init), Plan(script);
    assert ps[..|p|] == p;
    if i < n {
      assert init[i] == script[i];
      k := PlanPosition(init, i);
      assert ps[k] == p[k];
    } else {
      assert ps == p + [Dispatch(n, script[n]).value];
      k := |p|;
    }
  }

  /** The indices of the lines that are spoken, in request order. */
  function Indices(reqs: seq<Request>): (idx: seq<nat>)
    ensures |idx| == |reqs| && forall k :: 0 <= k < |reqs| ==> idx[k] == reqs[k].index
  {
    seq(|reqs|, k requires 0 <= k < |reqs| => reqs[k].index)
  }

  /** A line is spoken exactly when it carries one of the two tags. */
  lemma PlanCoversTaggedLines(script: seq<string>, i: nat)
    requires i < |script|
    ensures ("Tom:" <= script[i] || "Lisa:" <= script[i]) <==> i in Indices(Plan(script))
  {
    PlanIsDispatch(script);
    var idx := Indices(Plan(script));
    if i in idx {
      var k :| 0 <= k < |idx| && idx[k] == i;
      assert Dispatch(i, script[i]).Some?;
    }
    if Dispatch(i, script[i]).Some? {
      var k := PlanPosition(script, i);
      assert idx[k] == i;
    }
  }

  /**
   * `process_script`: each line, in order, is dispatched; a spoken line
   * becomes one synthesis request named after its index.
   */
  method ProcessScript(script: seq<string>) returns (reqs: seq<Request>)
    ensures reqs == Plan(script)
  {
    reqs := [];
    var i := 0;
    while i < |script|
      invariant 0 <= i <= |script|
      invariant reqs == Plan(script[..i])
    {
      var line := script[i];
      assert script[..i + 1][..i] == script[..i];
      if "Tom:" <= line {
        line := DropPrefix(line, |"Tom: "|);
        reqs := reqs + [Request(i, 1, line)];
      } else if "Lisa:" <= line {
        line := DropPrefix(line, |"Lisa: "|);
        reqs := reqs + [Request(i, 0, line)];
      }
      i := i + 1;
    }
    assert script[..i] == script;
  }
}
