/**
 * Assembling the per-line audio files: the `.mp3` names found in the output
 * directory are ordered by the integer value of their stem and their audio
 * is concatenated in that order.
 */
module Audio {
  import opened Wrappers
  import opened Decimal
  import opened Script

  // ---------------------------------------------------------------------
  // File names and their numeric stems
  // ---------------------------------------------------------------------

  /** `f.endswith(".mp3")`. */
  predicate IsMp3(name: string) {
    |name| >= 4 && name[|name| - 4..] == ".mp3"
  }

  /** The basename without its `.mp3` extension. */
  function Stem(name: string): string
    requires IsMp3(name)
  {
    name[..|name| - 4]
  }

  /** `int(stem)`, defined here for stems made of decimal digits only. */
  function StemKey(name: string): Option<nat>
    requires IsMp3(name)
  {
    var stem := Stem(name);
    if stem != [] && AllDigits(stem) then Some(DecimalValue(stem)) else None
  }

  /** The name a dispatched line gets is read back as that line's index. */
  lemma StemKeyOfAudioName(i: nat)
    ensures IsMp3(AudioName(i)) && Stem(AudioName(i)) == NatToDecimal(i)
    ensures StemKey(AudioName(i)) == Some(i)
  {
    var name := AudioName(i);
    assert name[|name| - 4..] == ".mp3";
    assert name[..|name| - 4] == NatToDecimal(i);
    DecimalRoundTrip(i);
  }

  /** The sort key used once every stem is known to be numeric. */
  function Key(name: string): nat {
    if IsMp3(name) && StemKey(name).Some? then StemKey(name).value else 0
  }

  // ---------------------------------------------------------------------
  // Listing, validating and sorting
  // ---------------------------------------------------------------------

  /** The directory entries that end in `.mp3`, in listing order. */
  function Mp3Files(listing: seq<string>): (files: seq<string>)
    ensures forall i :: 0 <= i < |files| ==> IsMp3(files[i])
  {
    if listing == [] then []
    else (if IsMp3(listing[0]) then [listing[0]] else []) + Mp3Files(listing[1..])
  }

  /** An entry is kept exactly when it is listed and ends in `.mp3`. */
  lemma {:induction false} Mp3FilesMembers(listing: seq<string>, f: string)
    ensures f in Mp3Files(listing) <==> f in listing && IsMp3(f)
  {
    if listing != [] {
      Mp3FilesMembers(listing[1..], f);
      assert listing == [listing[0]] + listing[1..];
    }
  }

  lemma {:induction false} Mp3FilesAppend(a: seq<string>, b: seq<string>)
    ensures Mp3Files(a + b) == Mp3Files(a) + Mp3Files(b)
  {
    if a == [] {
      assert a + b == b;
    } else {
      assert (a + b)[1..] == a[1..] + b;
      Mp3FilesAppend(a[1..], b);
    }
  }

  lemma {:induction false} Mp3FilesAll(files: seq<string>)
    requires forall i :: 0 <= i < |files| ==> IsMp3(files[i])
    ensures Mp3Files(files) == files
  {
    if files != [] {
      Mp3FilesAll(files[1..]);
    }
  }

  /** The first file, in listing order, whose stem `int()` cannot read. */
  function FirstBadStem(files: seq<string>): (bad: Option<string>)
    requires forall i :: 0 <= i < |files| ==> IsMp3(files[i])
    ensures bad.None? <==> forall i :: 0 <= i < |files| ==> StemKey(files[i]).Some?
    ensures bad.Some? ==> bad.value in files && StemKey(bad.value).None?
  {
    if files == [] then None
    else if StemKey(files[0]).None? then Some(files[0])
    else FirstBadStem(files[1..])
  }

  predicate SortedBy<T>(xs: seq<T>, key: T -> nat) {
    forall i, j :: 0 <= i < j < |xs| ==> key(xs[i]) <= key(xs[j])
  }

  predicate StrictlyIncreasingBy<T>(xs: seq<T>, key: T -> nat) {
    forall i, j :: 0 <= i < j < |xs| ==> key(xs[i]) < key(xs[j])
  }

  /** Appending an element whose key bounds every key keeps a list sorted. */
  lemma SortedSnoc<T>(xs: seq<T>, x: T, key: T -> nat)
    requires SortedBy(xs, key)
    requires forall i :: 0 <= i < |xs| ==> key(xs[i]) <= key(x)
    ensures SortedBy(xs + [x], key)
  {
    var ys := xs + [x];
    forall i, j | 0 <= i < j < |ys| ensures key(ys[i]) <= key(ys[j]) {
      if j < |xs| { assert ys[i] == xs[i] && ys[j] == xs[j]; }
      else { assert ys[i] == xs[i] && ys[j] == x; }
    }
  }

  /** Puts `x` after every element whose key is not larger, so equal keys keep their order. */
  function Insert<T>(x: T, sorted: seq<T>, key: T -> nat): (r: seq<T>)
    requires SortedBy(sorted, key)
    ensures SortedBy(r, key)
    ensures multiset(r) == multiset(sorted) + multiset{x}
    ensures forall y :: y in r ==> y == x || y in sorted
    decreases |sorted|
  {
    if sorted == [] then [x]
    else
      var last := sorted[|sorted| - 1];
      var init := sorted[..|sorted| - 1];
      assert sorted == init + [last];
      if key(x) < key(last) then
        assert SortedBy(init, key) by {
          forall i, j | 0 <= i < j < |init| ensures key(init[i]) <= key(init[j]) {
            assert init[i] == sorted[i] && init[j] == sorted[j];
          }
        }
        var r := Insert(x, init, key);
        assert forall i :: 0 <= i < |r| ==> key(r[i]) <= key(last) by {
          forall i | 0 <= i < |r| ensures key(r[i]) <= key(last) {
            if r[i] != x {
              assert r[i] in init;
              var j :| 0 <= j < |init| && init[j] == r[i];
              assert sorted[j] == r[i];
            }
          }
        }
        SortedSnoc(r, last, key);
        r + [last]
      else
        assert forall i :: 0 <= i < |sorted| ==> key(sorted[i]) <= key(x) by {
          forall i | 0 <= i < |sorted| ensures key(sorted[i]) <= key(x) {
            if i < |sorted| - 1 { assert key(sorted[i]) <= key(last); }
          }
        }
        SortedSnoc(sorted, x, key);
        sorted + [x]
  }

  /** `sorted(xs, key=key)`: a stable insertion sort. */
  function SortBy<T>(xs: seq<T>, key: T -> nat): (r: seq<T>)
    ensures SortedBy(r, key)
    ensures multiset(r) == multiset(xs)
  {
    if xs == [] then []
    else
      var init := xs[..|xs| - 1];
      assert xs == init + [xs[|xs| - 1]];
      Insert(xs[|xs| - 1], SortBy(init, key), key)
  }

  lemma MultisetTail<T>(s: seq<T>, t: seq<T>)
    requires s != [] && t != [] && s[0] == t[0]
    requires multiset(s) == multiset(t)
    ensures multiset(s[1..]) == multiset(t[1..])
  {
    assert s == [s[0]] + s[1..];
    assert t == [t[0]] + t[1..];
    assert multiset(s[1..]) == multiset(s) - multiset{s[0]};
    assert multiset(t[1..]) == multiset(t) - multiset{t[0]};
  }

  /** Two key-sorted lists with the same elements, one strictly increasing, are equal. */
  lemma {:induction false} SortedUnique<T>(s: seq<T>, t: seq<T>, key: T -> nat)
    requires SortedBy(s, key) && StrictlyIncreasingBy(t, key)
    requires multiset(s) == multiset(t)
    ensures s == t
    decreases |s|
  {
    assert |s| == |t| by {
      assert |multiset(s)| == |multiset(t)|;
    }
    if s != [] {
      SameHead(s, t, key);
      MultisetTail(s, t);
      SortedTail(s, key);
      IncreasingTail(t, key);
      SortedUnique(s[1..], t[1..], key);
      assert s == [s[0]] + s[1..] && t == [t[0]] + t[1..];
    }
  }

  /** The smallest key of both lists is at the front of each, and it is the same element. */
  lemma SameHead<T>(s: seq<T>, t: seq<T>, key: T -> nat)
    requires SortedBy(s, key) && StrictlyIncreasingBy(t, key)
    requires multiset(s) == multiset(t) && s != [] && t != []
    ensures s[0] == t[0]
  {
    assert s[0] in multiset(t) && t[0] in multiset(s);
    var i :| 0 <= i < |t| && t[i] == s[0];
    var j :| 0 <= j < |s| && s[j] == t[0];
    assert key(s[0]) <= key(s[j]);
  }

  lemma SortedTail<T>(s: seq<T>, key: T -> nat)
    requires SortedBy(s, key) && s != []
    ensures SortedBy(s[1..], key)
  {
    var s' := s[1..];
    forall i, j | 0 <= i < j < |s'| ensures key(s'[i]) <= key(s'[j]) {
      assert s'[i] == s[i + 1] && s'[j] == s[j + 1];
    }
  }

  lemma IncreasingTail<T>(t: seq<T>, key: T -> nat)
    requires StrictlyIncreasingBy(t, key) && t != []
    ensures StrictlyIncreasingBy(t[1..], key)
  {
    var t' := t[1..];
    forall i, j | 0 <= i < j < |t'| ensures key(t'[i]) < key(t'[j]) {
      assert t'[i] == t[i + 1] && t'[j] == t[j + 1];
    }
  }

  /**
   * The list of audio files the assembler reads: the `.mp3` entries of the
   * listing sorted by stem value, or the first entry whose stem is not a
   * number (where Python's `int()` raises `ValueError`).
   */
  function AudioFiles(listing: seq<string>): (r: Result<seq<string>, string>)
    ensures r.Success? <==> forall f :: f in listing && IsMp3(f) ==> StemKey(f).Some?
    ensures r.Success? ==> SortedBy(r.value, Key) && multiset(r.value) == multiset(Mp3Files(listing))
    ensures r.Failure? ==> r.error in listing && IsMp3(r.error) && StemKey(r.error).None?
  {
    var files := Mp3Files(listing);
    forall f ensures f in files <==> f in listing && IsMp3(f) {
      Mp3FilesMembers(listing, f);
    }
    match FirstBadStem(files)
    case Some(bad) => Failure(bad)
    case None =>
      assert forall f :: f in files ==> StemKey(f).Some?;
      Success(SortBy(files, Key))
  }

  /** The file names of a list of requests, in request order. */
  function Names(reqs: seq<Request>): (names: seq<string>)
    ensures |names| == |reqs| && forall k :: 0 <= k < |reqs| ==> names[k] == AudioName(reqs[k].index)
  {
    seq(|reqs|, k requires 0 <= k < |reqs| => AudioName(reqs[k].index))
  }

  /** Files with numeric stems found in any order are read in the one ascending order. */
  lemma AudioFilesAscending(listing: seq<string>, names: seq<string>)
    requires forall k :: 0 <= k < |names| ==> IsMp3(names[k]) && StemKey(names[k]).Some?
    requires StrictlyIncreasingBy(names, Key)
    requires multiset(Mp3Files(listing)) == multiset(names)
    ensures AudioFiles(listing) == Success(names)
  {
    forall f | f in listing && IsMp3(f) ensures StemKey(f).Some? {
      Mp3FilesMembers(listing, f);
      assert f in multiset(Mp3Files(listing));
      var k :| 0 <= k < |names| && names[k] == f;
    }
    var r := AudioFiles(listing);
    SortedUnique(r.value, names, Key);
  }

  /**
   * Whatever order the directory lists the files in, the assembler reads
   * exactly the files of the spoken lines, in ascending line order; the
   * lines without a tag leave gaps in the numbering and nothing else.
   */
  lemma AudioOrderFollowsScript(script: seq<string>, listing: seq<string>)
    requires multiset(Mp3Files(listing)) == multiset(Names(Plan(script)))
    ensures AudioFiles(listing) == Success(Names(Plan(script)))
  {
    var reqs := Plan(script);
    var names := Names(reqs);
    PlanIsDispatch(script);
    forall k | 0 <= k < |names|
      ensures IsMp3(names[k]) && StemKey(names[k]).Some? && Key(names[k]) == reqs[k].index
    {
      StemKeyOfAudioName(reqs[k].index);
    }
    AudioFilesAscending(listing, names);
  }

  /**
   * The same in terms of the numbers: the stems of the files read are the
   * indices of the spoken lines, strictly ascending, so `10` comes after `9`.
   */
  lemma AudioKeysAscending(script: seq<string>, listing: seq<string>)
    requires multiset(Mp3Files(listing)) == multiset(Names(Plan(script)))
    ensures AudioFiles(listing).Success?
    ensures |AudioFiles(listing).value| == |Plan(script)|
    ensures forall k :: 0 <= k < |AudioFiles(listing).value| ==>
      Key(AudioFiles(listing).value[k]) == Plan(script)[k].index
    ensures forall k, l :: 0 <= k < l < |AudioFiles(listing).value| ==>
      Key(AudioFiles(listing).value[k]) < Key(AudioFiles(listing).value[l])
  {
    var reqs := Plan(script);
    var names := Names(reqs);
    AudioOrderFollowsScript(script, listing);
    PlanIsDispatch(script);
    forall k | 0 <= k < |names| ensures Key(names[k]) == reqs[k].index {
      StemKeyOfAudioName(reqs[k].index);
    }
  }

  /** The names are the decimal index with `.mp3` appended. */
  lemma AudioNameExamples()
    ensures AudioName(0) == "0.mp3" && AudioName(2) == "2.mp3" && AudioName(10) == "10.mp3"
  {
    assert DigitChar(0) == '0' && DigitChar(1) == '1' && DigitChar(2) == '2';
    assert NatToDecimal(1) == "1";
  }

  /**
   * The files `0.mp3, 2.mp3, 10.mp3, 1.mp3` listed beside the combined
   * `full_audio.wav` are read as `0, 1, 2, 10`: numerically, not as text.
   */
  lemma NumericNotLexicographic(listing: seq<string>)
    requires listing == [AudioName(0), AudioName(2), AudioName(10), AudioName(1), "full_audio.wav"]
    ensures AudioFiles(listing) == Success([AudioName(0), AudioName(1), AudioName(2), AudioName(10)])
  {
    StemKeyOfAudioName(0);
    StemKeyOfAudioName(1);
    StemKeyOfAudioName(2);
    StemKeyOfAudioName(10);
    var other := "full_audio.wav";
    assert !IsMp3(other) by {
      assert other[|other| - 4..] == ".wav";
    }
    FourFilesListed(listing, AudioName(0), AudioName(1), AudioName(2), AudioName(10), other);
    FourFilesAscending(listing, AudioName(0), AudioName(1), AudioName(2), AudioName(10));
  }

  lemma FourFilesAscending(listing: seq<string>, a: string, b: string, c: string, d: string)
    requires multiset(Mp3Files(listing)) == multiset([a, b, c, d])
    requires IsMp3(a) && IsMp3(b) && IsMp3(c) && IsMp3(d)
    requires StemKey(a).Some? && StemKey(b).Some? && StemKey(c).Some? && StemKey(d).Some?
    requires Key(a) < Key(b) < Key(c) < Key(d)
    ensures AudioFiles(listing) == Success([a, b, c, d])
  {
    var names := [a, b, c, d];
    forall k | 0 <= k < |names| ensures IsMp3(names[k]) && StemKey(names[k]).Some? {
      if k == 0 {} else if k == 1 {} else if k == 2 {} else {}
    }
    StrictFour(a, b, c, d, Key);
    AudioFilesAscending(listing, names);
  }

  lemma StrictFour<T>(a: T, b: T, c: T, d: T, key: T -> nat)
    requires key(a) < key(b) < key(c) < key(d)
    ensures StrictlyIncreasingBy([a, b, c, d], key)
  {
  }

  lemma FourFilesListed(listing: seq<string>, a: string, b: string, c: string, d: string, other: string)
    requires listing == [a, c, d, b, other]
    requires IsMp3(a) && IsMp3(b) && IsMp3(c) && IsMp3(d) && !IsMp3(other)
    ensures multiset(Mp3Files(listing)) == multiset([a, b, c, d])
  {
    var front := [a, c, d, b];
    assert listing == front + [other];
    Mp3FilesAppend(front, [other]);
    FrontKept(a, b, c, d);
    Mp3FilesSkip(other);
    assert Mp3Files(listing) == front;
    Rotate3(a, b, c, d);
  }

  lemma FrontKept(a: string, b: string, c: string, d: string)
    requires IsMp3(a) && IsMp3(b) && IsMp3(c) && IsMp3(d)
    ensures Mp3Files([a, c, d, b]) == [a, c, d, b]
  {
    var front := [a, c, d, b];
    forall i | 0 <= i < |front| ensures IsMp3(front[i]) {
      if i == 0 {} else if i == 1 {} else if i == 2 {} else {}
    }
    Mp3FilesAll(front);
  }

  lemma Mp3FilesSkip(other: string)
    requires !IsMp3(other)
    ensures Mp3Files([other]) == []
  {
    assert [other][1..] == [];
  }

  lemma Rotate3<T>(a: T, b: T, c: T, d: T)
    ensures multiset([a, c, d, b]) == multiset([a, b, c, d])
  {
  }

  // ---------------------------------------------------------------------
  // Concatenation
  // ---------------------------------------------------------------------

  /** The decoded audio of the files, one after the other. */
  function Concat<S>(files: seq<string>, decode: string -> seq<S>): seq<S> {
    if files == [] then []
    else Concat(files[..|files| - 1], decode) + decode(files[|files| - 1])
  }

  lemma {:induction false} ConcatAppend<S>(a: seq<string>, b: seq<string>, decode: string -> seq<S>)
    ensures Concat(a + b, decode) == Concat(a, decode) + Concat(b, decode)
    decreases |b|
  {
    if b == [] {
      assert a + b == a;
    } else {
      var n := |b| - 1;
      assert (a + b)[..|a + b| - 1] == a + b[..n];
      ConcatAppend(a, b[..n], decode);
    }
  }

  /**
   * Each file's audio sits in the combined track right after the audio of
   * the files before it, unchanged.
   */
  lemma ConcatPlacement<S>(files: seq<string>, decode: string -> seq<S>, k: nat)
    requires k < |files|
    ensures var off := |Concat(files[..k], decode)|;
      off + |decode(files[k])| <= |Concat(files, decode)| &&
      Concat(files, decode)[off .. off + |decode(files[k])|] == decode(files[k])
  {
    assert files == files[..k] + [files[k]] + files[k + 1..];
    ConcatAppend(files[..k] + [files[k]], files[k + 1..], decode);
    ConcatAppend(files[..k], [files[k]], decode);
    assert Concat([files[k]], decode) == decode(files[k]) by {
      assert [files[k]][..0] == [];
    }
  }

  /**
   * The combine step: the first file's audio, then `+=` of each further
   * file's. An empty list has no first file (`audio_files[0]` raises), which
   * is the `None` result.
   */
  method Combine<S>(files: seq<string>, decode: string -> seq<S>) returns (combined: Option<seq<S>>)
    ensures combined.None? <==> files == []
    ensures combined.Some? ==> combined.value == Concat(files, decode)
  {
    if |files| == 0 {
      return None;
    }
    var track := decode(files[0]);
    assert files[..1][..0] == [];
    for k := 1 to |files|
      invariant track == Concat(files[..k], decode)
    {
      assert files[..k + 1][..k] == files[..k];
      track := track + decode(files[k]);
    }
    assert files[..|files|] == files;
    combined := Some(track);
  }
}
