# Packet PDCP delay extractor, modelled in Dafny

`extract_delays.py` pulls latency samples out of simulation logs. A log line
is relevant when it contains the text `Packet PDCP delay`. From such a line
the tool takes the first number, found with the pattern
`-?\d+(?:\.\d+)?(?:[eE][-+]?\d+)?`. It writes the samples one per line, either
into one combined file (`--out`) or into a `delays_<stem>.txt` file beside
each input.

This project models that tool and proves what it does:

- `NumberPattern` (number_pattern.dfy): the numeric pattern as Python's regex
  engine applies it. `MatchAt` is the match anchored at one position, and
  `Search` is the first position where a match succeeds. `NumberAt` gives an
  independent, declarative statement of the pattern: a split into sign,
  integer digits, fraction and exponent. The lemmas prove that the engine
  returns the leftmost number of the line, and the longest one at that
  position. They also prove that the match starts at the line's first digit,
  or at a `-` directly before it.
- `Extractor` (extractor.dfy): the marker test (`in` on strings),
  `extract_from_lines` as a loop proved against the specification function
  `Extract`, `process_file` (splitting a text into lines the way iteration
  over a text file does), and `write_values` as a loop over an open file.
- `Paths` (paths.dfy): `Path.stem` and the derived output name
  `parent / "delays_<stem>.txt"`.
- `FileSystem` (file_system.dfy): the files as a class `Disk` with a map from
  path to text. A ghost record of every open, for reading or writing, in
  order, lets the contracts say which files a run reads and writes, and when.
- `Cli` (cli.dfy): `main`. `Dispatch` specifies it and the method `Run`
  implements it, with one method per mode (`RunCombined`, `RunPerFile`). Combined mode stops with exit status 2 before opening
  anything when the target exists and `--force` is absent. Per-file mode
  skips one input at a time.
- `Scenarios` (scenarios.dfy): concrete texts and the token taken from them.

A sample is modelled as the text of its matched token. The tool converts that
token with `float` and renders it back as text. The model treats this
rendering as a function parameter `fmt(token, toMs)`, given to the writer.

Where the prose description of the tool and its code differ, the model
follows the code:
- The per-file output name replaces the input's last suffix: `run.log` gives
  `delays_run.txt`. It does not just prefix the whole base name.
- Per-file mode reads an input before it checks whether that input's output
  exists (extract_delays.py:96 before :98). So an input whose output is then
  skipped is still opened.
- Two inputs that differ only in their suffix share one output name
  (`Paths.DerivedOutputIgnoresSuffix`). Without `--force`, the second of them
  is skipped, because the first one's output now exists. With `--force`, the
  second overwrites the first.

## Model

| member | source | states |
|---|---|---|
| `NumberPattern.MatchAt` | extract_delays.py:23 | definition of the anchored match at i (`NUM_RE.match` from i): an optional `-` taken only when a digit follows, a digit run, then the optional fraction and exponent; a result ends after i and within the text. `MatchAtIsNumber`, `NumberWithinMatch` and `MatchAtLongest` characterise it |
| `NumberPattern.FractionEnd` | extract_delays.py:23 | definition of `(?:\.\d+)?`: the `.` is taken only when a digit follows it, and then the whole digit run is taken; the end never moves backwards. `FractionCovers` relates it to the grammar |
| `NumberPattern.ExponentEnd` | extract_delays.py:23 | definition of `(?:[eE][-+]?\d+)?`: the mark, and a sign if present, are taken only when digits follow; the end never moves backwards. `ExponentCovers` relates it to the grammar |
| `NumberPattern.SearchFrom` | extract_delays.py:31 | definition of the scan from i: the first position whose anchored match succeeds, with its end; a result lies within the text. `SearchFromSome` and `SearchFromNone` characterise it |
| `NumberPattern.Search` | extract_delays.py:31 | definition of `NUM_RE.search` on a line: the scan from position 0. `SearchLeftmostLongest`, `SearchStartsAtFirstDigit` and `SearchFindsIffDigit` characterise it |
| `NumberPattern.DigitsEnd` | extract_delays.py:23 | `\d+` is greedy: every character before the returned end is a digit, and the character at the end is not a digit (or the text has ended) |
| `NumberPattern.MatchAtIsNumber` | extract_delays.py:23 | whatever the anchored match returns is text the pattern matches in full, by the declarative split |
| `NumberPattern.NumberWithinMatch` | extract_delays.py:23 | any number that starts at position i ends no later than the anchored match at i, so the match exists whenever such a number exists |
| `NumberPattern.MatchAtLongest` | extract_delays.py:23 | the anchored match ends at e exactly when s[i..e] is a number and no longer number starts at i (greedy equals longest, in both directions) |
| `NumberPattern.SearchFromSome` | extract_delays.py:31 | a scan from i that finds something returns the first position from i whose anchored match succeeds, together with that match's end |
| `NumberPattern.SearchFromNone` | extract_delays.py:31 | a scan from i that finds nothing means that the anchored match fails at every position from i to the end |
| `NumberPattern.SearchLeftmostLongest` | extract_delays.py:31 | the search finds the leftmost number of the line, and the longest one at that position; finding nothing means the line holds no number at all |
| `NumberPattern.SearchStartsAtFirstDigit` | extract_delays.py:23-31 | the match starts at the line's first digit, or at the `-` immediately before it |
| `NumberPattern.SearchFindsIffDigit` | extract_delays.py:31-32 | a line yields a match exactly when it contains a digit |
| `NumberPattern.NumberAtSlice` | extract_delays.py:23 | a number found inside a line is also a number as a text of its own |
| `Scenarios.FractionNeedsDigit` | extract_delays.py:23 | `12.` yields `12`, and `12.5` yields `12.5` |
| `Scenarios.ExponentNeedsDigits` | extract_delays.py:23 | `1e` and `1e+x` yield `1`, and `1E-5` yields all of `1E-5` |
| `Scenarios.MinusBeforeFirstDigit` | extract_delays.py:23 | `a-7` yields `-7`; in `-a7` the `-` is not directly before the digit, so the token is `7` |
| `Scenarios.NumberBeforeMarker` | extract_delays.py:30-31 | in `5 Packet PDCP delay 7` the sample is `5`: the first number of the line, even though it comes before the marker |
| `Extractor.Contains` | extract_delays.py:30 | definition of `MATCH_KEY in ln`; `ContainsIff` proves it is substring occurrence |
| `Extractor.LineSample` | extract_delays.py:30-35 | definition of one line's contribution: the searched token when the line has the marker, nothing otherwise. `LineSampleIsLeftmostLongest` and `LineSampleNone` characterise it |
| `Extractor.Extract` | extract_delays.py:27-39 | definition of `extract_from_lines`: the samples of the lines in line order. `ExtractFromLines`, `ExtractAppend`, `ExtractAtMostOnePerLine`, `ExtractSkipsLine` and `ExtractSamplesAreNumbers` characterise it |
| `Extractor.ContainsIff` | extract_delays.py:24-30 | the marker test is true exactly when the marker occurs as a contiguous, case-sensitive substring somewhere in the line |
| `Extractor.ExtractFromLines` | extract_delays.py:27-39 | the loop's result equals `Extract` of the lines: the samples of the lines, in line order |
| `Extractor.LineSampleIsLeftmostLongest` | extract_delays.py:30-35 | a line with the marker yields its leftmost-longest number; a line without the marker yields nothing |
| `Extractor.LineSampleNone` | extract_delays.py:30-32 | a line without the marker, or with the marker but no digit, yields no sample, and this is not an error |
| `Extractor.ExtractAppend` | extract_delays.py:28-39 | extracting from `a + b` gives the samples of `a` followed by the samples of `b` |
| `Extractor.ExtractAtMostOnePerLine` | extract_delays.py:29-35 | there are never more samples than lines |
| `Extractor.ExtractSkipsLine` | extract_delays.py:30-32 | removing a line without the marker, or without a digit, does not change the samples |
| `Extractor.ExtractSamplesAreNumbers` | extract_delays.py:31-35 | every sample, taken on its own, is text the numeric pattern matches in full |
| `Extractor.LineLength` | extract_delays.py:43-44 | the first line of a text runs up to and including the first `\n`, or to the end of the text |
| `Extractor.Lines` | extract_delays.py:43-44 | definition of iterating over an open text file: the text cut after each `\n`, terminators kept. `LinesCoverText` and `LinesSplitAtNewlines` characterise it |
| `Extractor.LinesCoverText` | extract_delays.py:43-44 | the lines of a text concatenate back to the text: iterating over a file loses nothing |
| `Extractor.LinesSplitAtNewlines` | extract_delays.py:43-44 | each line is non-empty, has no `\n` before its last character, and only the last line may lack a terminator |
| `Extractor.FileSamples` | extract_delays.py:42-44 | definition of the samples of a file's text: `Extract` of its `Lines`. `ProcessFile` is proved against it |
| `Extractor.ProcessFile` | extract_delays.py:42-44 | opens the file once for reading and returns the samples of its lines; no file changes |
| `Extractor.Render` | extract_delays.py:47-57 | definition of the text `write_values` leaves in the file: each value rendered by `fmt` and followed by `\n`. `RenderAppend` and `RenderReadsBack` characterise it; `WriteValues` is proved against it |
| `Extractor.RenderAppend` | extract_delays.py:49-57 | the text written for `a + b` is the text for `a` followed by the text for `b` |
| `Extractor.RenderReadsBack` | extract_delays.py:47-57 | reading back what was written gives exactly one line per value, in input order, each the rendered value plus `\n` |
| `Extractor.WriteValues` | extract_delays.py:47-57 | opens the path for writing once; afterwards the path holds the rendered values, one newline-terminated line each, and no other file has changed |
| `Paths.RFind` | extract_delays.py:97 | the last index of the character, or -1 when it does not occur |
| `Paths.Stem` | extract_delays.py:97 | the stem is a prefix of the name; it is the name cut at its last dot when that dot is neither the first nor the last character, and the whole name otherwise |
| `Paths.DerivedOutput` | extract_delays.py:97 | the output is placed in the input's directory |
| `Paths.DerivedOutputIsNotInput` | extract_delays.py:97 | the derived output of an input is never that input itself |
| `Paths.DerivedOutputIgnoresSuffix` | extract_delays.py:97 | `run.txt` and `run.log` both map to `delays_run.txt` |
| `Paths.StemKeepsLeadingAndTrailingDots` | extract_delays.py:97 | the stems of `.hidden` and `run.` are the whole names, and the stem of `run.tar.gz` is `run.tar` |
| `FileSystem.Disk.Exists` | extract_delays.py:79 | definition of `Path.exists()`: the path is among the files |
| `FileSystem.Disk.ReadText` | extract_delays.py:43 | opening for reading returns the file's whole text and records one read-open; no file changes |
| `FileSystem.Disk.Create` | extract_delays.py:48 | opening with mode `"w"` creates the file or truncates it to nothing, and records one write-open |
| `FileSystem.Disk.Append` | extract_delays.py:51-57 | `f.write` adds the text at the end of the open file and changes nothing else |
| `Cli.CombinedSamples` | extract_delays.py:75-85 | definition of `all_vals`: the samples of the existing inputs, in argument order. `CombinedSamplesAppend`, `CombinedSkipsMissing` and `CombinedOutput` characterise it; `RunCombined` is proved against it |
| `Cli.CombinedReads` | extract_delays.py:75-85 | definition of the opens combined mode performs: one read-open per existing input, in argument order |
| `Cli.PerFileStep` | extract_delays.py:92-101 | definition of one input in per-file mode: a missing input changes nothing; an existing one is read, then written to its derived output unless that exists and `--force` is absent. `PerFileStepFrame` and `PerFileStepWrites` characterise it |
| `Cli.PerFile` | extract_delays.py:92-104 | definition of per-file mode: the inputs one after the other. `PerFileGrows`, `PerFileFrame`, `PerFileNoClobber`, `PerFileCovers` and `PerFileContent` characterise it; `RunPerFile` is proved against it |
| `Cli.CombinedSamplesAppend` | extract_delays.py:75-85 | the combined samples of `a + b` are those of `a` followed by those of `b` (argument order) |
| `Cli.CombinedSkipsMissing` | extract_delays.py:79-81 | a missing input contributes nothing to the combined output |
| `Cli.PerFileGrows` | extract_delays.py:92-103 | per-file mode never removes a file, and it only adds to the record of opens |
| `Cli.PerFileFrame` | extract_delays.py:97-101 | a path that is not the derived output of any input is neither created nor changed |
| `Cli.PerFileNoClobber` | extract_delays.py:98-100 | without `--force`, every file that existed before the run keeps its exact content |
| `Cli.PerFileCovers` | extract_delays.py:92-101 | after the run, every input that existed beforehand has its derived output |
| `Cli.PerFileContent` | extract_delays.py:96-101 | when the derived outputs are distinct and none is an input, every existing input whose output was absent beforehand, or every existing input when `--force` is given, has its output hold exactly that input's samples; the skip is per input, so one existing output does not stop the others from being written |
| `Cli.PerFileContentStep` | extract_delays.py:96-101 | one more input whose output no earlier input shares keeps every earlier output, and writes its own unless it existed and `--force` is absent |
| `Cli.PerFileStepFrame` | extract_delays.py:92-101 | one input changes or creates no path other than its derived output |
| `Cli.PerFileStepWrites` | extract_delays.py:96-101 | an existing input whose output is absent, or with `--force`, has its output set to the rendered samples of its text |
| `Cli.SecondRunKeepsFirst` | extract_delays.py:98-100 | a second per-file run without `--force` leaves every file of the first run byte-identical |
| `Cli.Combined` | extract_delays.py:75-86 | combined mode past the existence check creates the target if absent, keeps every other file as it was, and only adds to the record of opens |
| `Cli.Dispatch` | extract_delays.py:60-104 | exit status is 0 or 2; it is 2 exactly when there is no input, or when the combined target exists without `--force`; then nothing is read or written; otherwise no file is removed |
| `Cli.CombinedOutput` | extract_delays.py:71-89 | past the existence check, the target read back holds one line per sample of the existing inputs in argument order; no other file is created or changed; the exit status is 0 |
| `Cli.RunCombined` | extract_delays.py:75-89 | the loop over the inputs followed by the write leaves the files and the record of opens that `Combined` specifies |
| `Cli.RunPerFile` | extract_delays.py:90-104 | the loop over the inputs leaves the files and the record of opens that `PerFile` specifies |
| `Cli.Run` | extract_delays.py:60-104 | the files, the record of opens and the exit status after the run are those `Dispatch` specifies |

## Left out

- Float semantics: `float(token)`, the integer-likeness test, Python's
  shortest round-trip rendering, and the `--to-ms` division by 10^6 with six
  decimals (extract_delays.py:34, :50-57). These are IEEE-754 parsing and
  formatting, and the next line names the one failure they can cause. The
  model keeps the token text and takes the rendering as a parameter `fmt`.
  `RenderReadsBack` assumes that `fmt` produces no newline.
- `WriteValues`, `Run`: the abort on an infinite sample is not modelled. A
  token too large for a double, such as `1e999` or `-1e400`, becomes ±inf at
  extract_delays.py:34 without an error. Without `--to-ms`, `int(v)` at :54
  then raises `OverflowError`. By then `write_values` has opened and truncated
  its output, so that file is left partly written. `main` ends with a
  traceback and exit status 1, and in per-file mode no later input is
  processed. The model's `fmt` is total, and `Run` always ends with status 0
  or 2. With `--to-ms`, :51 renders `inf` and nothing fails.
- The `except` branch at extract_delays.py:36-38 is not modelled. Every
  token the pattern accepts is a valid float literal, so nothing is dropped
  there.
- `\d` is modelled as the ASCII digits `0`-`9`. On `str`, Python's `\d` also
  matches other Unicode decimal digits.
- UTF-8 decoding with `errors="replace"` and the newline translation of text
  mode (`\r\n` and `\r` read as `\n`). File contents are modelled as
  already-decoded text.
- `RenderReadsBack`: the newline translation on writing is left out. Mode `"w"`
  at extract_delays.py:48 writes each `\n` as `os.linesep`, so on a platform
  whose separator is `\r\n` the text equality holds only after that
  translation is undone.
- Argument parsing: the model starts from parsed arguments. Only the
  `nargs="+"` rule is kept (no input gives exit status 2). An empty `--out ""`
  is falsy in the source, so it is passed as absent. `--verbose` and all
  progress and warning messages are cosmetic and left out.
- Paths are modelled as a parent directory plus a final name. Parsing and
  normalising path strings is left out. `Stem` follows the pathlib rule up to
  Python 3.13, where a trailing dot does not start a suffix.
- Directories count as existing for `Path.exists()`, and opening one fails.
  I/O errors on opening, reading or writing propagate as exceptions in the
  source. The model has only files, and it has no I/O failures.
- The plotting scripts under metricas/ load arrays, compute means and
  standard deviations, and draw boxplots. They are not part of this model.
