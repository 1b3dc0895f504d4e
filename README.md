# A verified model of the dialogue-to-subtitled-video pipeline (`v3.py`)

`v3.py` turns a two-speaker dialogue script into a narrated video with
burnt-in subtitles. Between its calls into the speech, audio, video and
speech-recognition engines sits a small amount of sequential logic, and
that logic is what this project models and proves things about:

- **Loading the script** (`script.dfy`, module `Script`). The text is split
  on `"\n"`. Only the entries that are exactly `''` are dropped.
- **Speaker dispatch** (`script.dfy`). This is `process_script`: a line
  starting with `Tom:` is spoken by voice 1 without its first five
  characters. A line starting with `Lisa:` is spoken by voice 0 without its
  first six characters. Any other line is skipped. The audio file of line
  `i` is `{i}.mp3`.
- **Assembling the audio** (`audio.dfy`, module `Audio`). The `.mp3` entries
  of the output directory are kept and sorted by the integer value of their
  stem. Their decoded audio is then concatenated in that order.
- **`format_time`** (`timecode.dfy`, module `Timecode`). It renders seconds
  as an `HH:MM:SS,mmm` stamp using Python's float `//` and `%`, `int()`
  truncation and the zero-padding format specifications. The zero padding
  itself lives in `decimal.dfy` (module `Decimal`).
- **`split_text` and the subtitle loop** (`subtitles.dfy`, module
  `Subtitles`). Each transcript segment's stripped text is cut into runs of
  five words. The segment's span is divided evenly among those chunks.
  Every chunk is appended to `subtitle_segments` and, as a numbered SubRip
  block, to `subtitles`.
- **Python's string operations** (`text.dfy`, module `Text`). These are
  `split(sep)`, `sep.join`, `split()` on whitespace (Python's `isspace`
  set) and `strip()`, modelled character for character.

The model and the source are written in different styles:

- The pure parts of the source are functions.
  - `split_text`, `format_time` and the filter comprehension.
  - Lemmas state their properties.
- The loops of the source are methods proved against those functions.
  - `ProcessScript` is the dispatch loop.
  - `Combine` is the `+=` audio loop.
  - `BuildSubtitles` is the segment loop, and `EmitChunks` its inner chunk loop.
  - Their loop invariants tie the lists built so far to the specification
    (the functions).

Times are exact `real`s. `int(x)` is truncation toward zero, `x // y` is the
floor of the quotient, and `x % y` is `x - y * (x // y)`, as Python defines
them for floats.

## Model

| member | source | states |
|---|---|---|
| `Script.NonEmptyContents` | v3.py:21-22 | the filtered script holds every non-empty piece of the split text exactly as often as it occurs there, and no empty piece |
| `Script.NonEmptyAppend` | v3.py:22 | the filter works piece by piece, so the kept lines stay in their original relative order |
| `Script.NonEmptyIdentity` | v3.py:22 | a list without empty entries passes the filter unchanged |
| `Script.LoadScriptLines` | v3.py:21-22 | a string is a script line exactly when it is a piece of the `"\n"`-split text and is not `''` |
| `Script.LoadScriptExample` | v3.py:21-22 | `"Tom: Hi\n\n \nLisa: Yo\n"` loads as `["Tom: Hi", " ", "Lisa: Yo"]`: a whitespace-only line is kept, only literal empty entries go |
| `Text.JoinSplit` | v3.py:21 | joining the pieces of `split(sep)` with `sep` gives back the text |
| `Text.SplitJoin` | v3.py:21 | splitting a join of separator-free pieces gives back the pieces |
| `Script.Dispatch` | v3.py:34-41 | a line is spoken exactly when it starts with `Tom:` or `Lisa:`; `Tom:` wins and means voice 1 and `line[5:]`; otherwise `Lisa:` means voice 0 and `line[6:]`; the request carries the line's index `i` |
| `Script.DispatchTagged` | v3.py:36-41 | `"Tom: x"` is spoken by voice 1 as `x` and `"Lisa: x"` by voice 0 as `x` |
| `Script.DispatchDropsCharacterAfterColon` | v3.py:36-41 | without a space after the colon the first character of the text is dropped anyway |
| `Script.DispatchBareTag` | v3.py:36-41 | a bare `Tom:` or `Lisa:` is spoken as the empty text, as Python's slice past the end gives `''` |
| `Script.PlanIsDispatch` | v3.py:33-41 | every synthesis request is the dispatch of the line it names, and the requests are in strictly increasing line order |
| `Script.PlanPosition` | v3.py:33-41 | every spoken line has its request in the plan |
| `Script.PlanCoversTaggedLines` | v3.py:34-41 | line `i` gets an audio file exactly when it starts with one of the two tags |
| `Script.ProcessScript` | v3.py:33-44 | the dispatch loop issues exactly the plan's requests, in order |
| `Audio.StemKeyOfAudioName` | v3.py:49-50 | the name `f"{i}.mp3"` ends in `.mp3` and its stem reads back as `i` |
| `Audio.AudioNameExamples` | v3.py:35 | lines 0, 2 and 10 get `0.mp3`, `2.mp3` and `10.mp3` |
| `Audio.Mp3FilesMembers` | v3.py:49 | an entry is kept exactly when it is listed and ends in `.mp3` |
| `Audio.FirstBadStem` | v3.py:50 | no stem is rejected exactly when every stem is numeric; a rejected one is a listed file whose stem `int()` cannot read |
| `Audio.Insert` | v3.py:49-50 | inserting into a key-sorted list keeps it sorted and adds exactly the one element |
| `Audio.SortBy` | v3.py:49-50 | the result is sorted by key and is a permutation of the input |
| `Audio.AudioFiles` | v3.py:49-50 | the sort succeeds exactly when every `.mp3` stem is numeric, and then yields the `.mp3` entries, key-sorted; otherwise it reports a listed file with a non-numeric stem |
| `Audio.SortedUnique` | v3.py:49-50 | two key-sorted lists with the same elements, one of them strictly increasing, are equal |
| `Audio.AudioFilesAscending` | v3.py:49-50 | files with numeric stems, listed in any order, are read in the one ascending order |
| `Audio.AudioOrderFollowsScript` | v3.py:33-50 | whatever order the directory lists them in, the assembler reads exactly the files of the spoken lines in ascending line order |
| `Audio.AudioKeysAscending` | v3.py:33-50 | the stems of the files read are the spoken lines' indices, strictly ascending, with gaps where lines were skipped |
| `Audio.NumericNotLexicographic` | v3.py:49-50 | `0.mp3, 2.mp3, 10.mp3, 1.mp3` beside `full_audio.wav` are read as 0, 1, 2, 10: numerically, not as text |
| `Audio.ConcatAppend` | v3.py:52-54 | concatenating two runs of files is concatenating their audio |
| `Audio.ConcatPlacement` | v3.py:52-54 | each file's audio appears unchanged in the combined track, right after the audio of the files before it |
| `Audio.Combine` | v3.py:52-54 | the combine loop produces the concatenation of all files' audio in list order, and has no result exactly when the list is empty |
| `Decimal.NatToDecimal` | v3.py:104 | a number's decimal numeral is non-empty, all digits, and has no leading zero |
| `Decimal.DecimalRoundTrip` | v3.py:104 | reading a number's numeral back gives the number |
| `Decimal.ZeroPadFacts` | v3.py:80 | zero padding yields digits, exactly the wider of the width and the numeral, that read back as the number |
| `Decimal.FormatIntFacts` | v3.py:80 | `f"{n:0w}"` is at least `w` characters; a non-negative `n` gives digits reading back as `n`; a negative one gives a minus sign before digits reading back as `-n` |
| `Decimal.PadExactWidth` | v3.py:80 | a number below `10^w` is padded to exactly `w` characters |
| `Timecode.Trunc` | v3.py:76-79 | `int(x)` truncates toward zero: for `x >= 0` it is the whole number in `(x - 1, x]`, for `x < 0` the whole number in `[x, x + 1)` |
| `Timecode.HoursField` | v3.py:76 | `int(t // 3600)` is the number of whole hours |
| `Timecode.MinutesField` | v3.py:77 | `int((t % 3600) // 60)` is the whole minutes left after the hours |
| `Timecode.SecondsField` | v3.py:78 | `int(t % 60)` is the whole seconds left after the minutes |
| `Timecode.ClockFields` | v3.py:75-79 | for `t >= 0`: the hours are `floor(t) / 3600`, not wrapped at 24; minutes and seconds are in 0..59 and with the hours make up `floor(t)`; the milliseconds are in 0..999 and are the fractional second times 1000, truncated |
| `Timecode.FieldsRead` | v3.py:80 | each field of an in-range clock is rendered as digits of width 2, 2, 2 and 3 (hours at least 2) that read back as the field |
| `Timecode.ParseFields` | v3.py:80 | a stamp assembled from such fields is read back field by field |
| `Timecode.ParseFormatTime` | v3.py:75-80 | a stamp of a non-negative time reads back as the clock it was made from, so the format loses nothing and the hours are never wrapped |
| `Timecode.FormatTimeExample` | v3.py:75-80 | `format_time(3661.2345)` is `01:01:01,234`: the milliseconds are truncated, not rounded |
| `Timecode.FormatTimeNegative` | v3.py:75-80 | a negative time gets a stamp starting with a minus sign |
| `Text.Words` | v3.py:86 | `split()` yields only words: non-empty and free of whitespace |
| `Text.WordsEmpty` | v3.py:86 | `split()` is empty exactly when the text is empty or whitespace only |
| `Text.WordsOfJoin` | v3.py:87 | splitting a single-space join of words gives back those words |
| `Text.StripShape` | v3.py:92 | `strip()` keeps one contiguous slice with only whitespace around it, and a non-empty result neither starts nor ends with whitespace |
| `Text.WordsOfStrip` | v3.py:92 | stripping never changes the words of a text |
| `Subtitles.GroupsFlatten` | v3.py:87 | concatenating the runs of words gives back the words |
| `Subtitles.GroupsSizes` | v3.py:87 | every run has 1 to `max_words` words and all but the last have exactly `max_words` |
| `Subtitles.GroupsCount` | v3.py:87 | there are no runs exactly when there are no words; otherwise `(runs - 1) * max_words < words <= runs * max_words` |
| `Subtitles.GroupsShape` | v3.py:85-87 | the runs flatten to the words, have the sizes above, and number `ceil(words / max_words)` |
| `Subtitles.GroupAt` | v3.py:87 | run `k` is `words[k*max_words : k*max_words + max_words]`, as the comprehension slices it |
| `Subtitles.GroupsOfWords` | v3.py:87 | every run of a list of words is a list of words |
| `Subtitles.SplitTextWords` | v3.py:85-87 | chunk `k` splits back into exactly run `k` of the text's words, which has 1 to `max_words` words |
| `Subtitles.SplitTextFlatten` | v3.py:85-87 | the chunks' words, concatenated, are the text's words: nothing lost, added or reordered |
| `Subtitles.SplitTextBlank` | v3.py:86-87 | `split_text` returns `[]` exactly when the text is empty or whitespace only |
| `Subtitles.TimesIsProduct` | v3.py:98 | the chunk offset written as repeated addition is `j * duration_per_chunk` |
| `Subtitles.SpreadSnoc` | v3.py:97-100 | laying out one more chunk appends the cue from `start + j*d` to `start + j*d + d` |
| `Subtitles.SpreadPartition` | v3.py:97-100 | laid-out cues keep their chunk text, each lasts `d`, and each ends where the next starts |
| `Subtitles.EqualParts` | v3.py:95 | the `n` equal parts of a span add back up to the span |
| `Subtitles.SegmentPartition` | v3.py:89-100 | a segment's cues carry its chunks in order, all last `(end - start) / N` whatever their word counts, meet end to start, start at `start` and end exactly at `end` |
| `Subtitles.SegmentCuesInside` | v3.py:95-99 | for a segment with `start <= end`, every cue lies inside the segment |
| `Subtitles.BlankSegmentNoCues` | v3.py:92-97 | a segment gives no cue exactly when its text is empty or whitespace only, so the `end - start` fallback emits nothing |
| `Subtitles.SegmentCueCount` | v3.py:92-97 | a segment with `n` words gives `ceil(n / 5)` cues |
| `Subtitles.FlatMapAppend` | v3.py:89-100 | the cues of consecutive runs of segments follow one another |
| `Subtitles.AllCuesAppend` | v3.py:89-100 | segment order is preserved: the cues of `a + b` are those of `a` followed by those of `b` |
| `Subtitles.NumberedSnoc` | v3.py:104 | appending a cue and its block numbered one past the last keeps the two lists in lockstep |
| `Subtitles.EmitStep` | v3.py:102-104 | the block written inline from `len(subtitles)+1` and the two stamps is the numbered block of the new cue |
| `Subtitles.CueTextOneLine` | v3.py:92-104 | a chunk text never contains a line break |
| `Subtitles.SrtBlockLines` | v3.py:104 | a block is the number, the two stamps joined by ` --> `, the chunk text, and a final line break; its first line reads back as its number |
| `Subtitles.EmitChunks` | v3.py:97-104 | the chunk loop appends exactly the laid-out cues of the segment and keeps every block numbered after its cue |
| `Subtitles.BuildSubtitles` | v3.py:89-104 | `subtitle_segments` ends as all segments' cues, in segment order and then in chunk order; `subtitles` has the same length, with entry `k` the block of cue `k` numbered `k + 1`, so the numbers run 1..K with no gap across segments |

## Left out

- The engines are not modelled.
  - Speech synthesis, `tts`, at lines 29-31.
  - pydub decoding and export, at lines 52-57.
  - moviepy loading, trimming and compositing, at lines 65-67 and 112-135.
  - Whisper transcription, at lines 71-72.
  - The transcript's segments are an input of `BuildSubtitles`.
  - The audio decoder is a function parameter of `Combine`.
- `asyncio.run` and `asyncio.sleep(1.5)` are not modelled: they decide scheduling, not results.
- The progress `print` calls are not modelled: they have no effect on the outputs.
- `input()`, file reading and its `FileNotFoundError` path are not modelled, nor is `os.makedirs`. Neither is writing `subtitles.srt`: `LoadScript` takes the text, and the SubRip file is the list of blocks.
- Newline translation on read is not modelled. `open(file_path, 'r', ...)` at line 15 reads in universal-newline mode, so `"\r\n"` and a lone `"\r"` reach line 21 as `"\n"`. `LoadScript` takes the text as it is after that translation, and a `'\r'` in its input is treated as an ordinary character.
- `os.listdir` is not modelled.
  - The directory listing is a parameter.
  - Stale `.mp3` files from an earlier run are allowed in it.
  - `AudioOrderFollowsScript` states what is read when the `.mp3` entries are exactly this run's files.
- `os.path.join` with `audios/` is not modelled. The model sorts bare names, and `basename` then `splitext` are the removal of `.mp3`.
- StemKey: this model accepts only non-empty ASCII-digit stems. Python's `int()` also accepts:
  - surrounding whitespace
  - a sign
  - underscores between digits
  - non-ASCII decimal digits

  Such stems take the model's error path. The files this program writes never have such stems.
- `split_text` with `max_words <= 0` is not modelled. `range` would raise for 0, and the only call passes 5, so the model requires a positive run length.
- Floating point is not modelled.
  - Times and durations are exact reals.
  - IEEE rounding in `(end - start) / len(chunks)`, in `j * duration_per_chunk` and inside `format_time` is not modelled.
  - For example, `3661.2345` is not exactly representable as a double.
  - `j * d` is written as repeated addition, which `TimesIsProduct` proves equal to the product.
- Negative times: `FormatTime` is defined for every real as the source computes it. The range and round-trip lemmas are stated for `t >= 0` only.
- The subtitle overlay is not modelled: the `TextClip` styling and layout arithmetic such as `video_width * 0.8`, at lines 112-135.
- EmitChunks: the inner `for j` loop of lines 97-104 is a separate method that `BuildSubtitles` calls once per segment. The statements are the same as in the source.
- An empty or whitespace-only segment text gives no chunk: `split_text` returns `[]`, the loop at lines 97-104 emits nothing, and the `end - start` fallback at line 95 is never used. `BlankSegmentNoCues` proves this.
