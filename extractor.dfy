/**
 * The line-level extractor: marker gating, first-number extraction per
 * line, reading a file line by line, and writing one value per line.
 *
 * A sample is kept as the text of the matched token. Converting it to a
 * float and rendering it back (integer-like values without a fraction,
 * `--to-ms` values divided by 10^6 with six decimals) is the `Format`
 * function given to the writer.
 */
module Extractor {
  import opened Wrappers
  import opened NumberPattern
  import opened Paths
  import opened FileSystem

  /** `MATCH_KEY`: only lines containing this text are relevant. */
  const Marker: string := "Packet PDCP delay"

  /** How one sample is rendered on its output line, with or without `--to-ms`. */
  type Format = (string, bool) -> string

  // ---------------------------------------------------------------------
  // Marker gating

  /** m occurs in s starting at index k */
  predicate OccursAt(s: string, m: string, k: int)
  {
    0 <= k && k + |m| <= |s| && s[k..k + |m|] == m
  }

  /** Python's `m in s` on strings, scanning s from the left. */
  function Contains(s: string, m: string): bool
    decreases |s|
  {
    if |m| > |s| then false
    else if s[..|m|] == m then true
    else Contains(s[1..], m)
  }

  /** `Contains` is substring occurrence, case-sensitive and anywhere in s. */
  lemma {:induction false} ContainsIff(s: string, m: string)
    ensures Contains(s, m) <==> exists k :: OccursAt(s, m, k)
    decreases |s|
  {
    if |m| > |s| {
    } else if s[..|m|] == m {
      assert OccursAt(s, m, 0);
    } else {
      ContainsIff(s[1..], m);
      forall k | OccursAt(s[1..], m, k) ensures OccursAt(s, m, k + 1) {
        assert s[1..][k..k + |m|] == s[k + 1..k + 1 + |m|];
      }
      forall k | OccursAt(s, m, k) ensures OccursAt(s[1..], m, k - 1) {
        assert k != 0;
        assert s[1..][k - 1..k - 1 + |m|] == s[k..k + |m|];
      }
    }
  }

  // ---------------------------------------------------------------------
  // Extraction

  /** What one line contributes: its first number, if the line carries the marker. */
  function LineSample(line: string): Option<string>
  {
    if Contains(line, Marker) then
      match Search(line)
      case Some(sp) => Some(line[sp.start..sp.stop])
      case None => None
    else
      None
  }

  /** `extract_from_lines`, as a specification: the samples of the lines, in line order. */
  function Extract(lines: seq<string>): seq<string>
    decreases |lines|
  {
    if lines == [] then []
    else Extract(lines[..|lines| - 1]) + LineSample(lines[|lines| - 1]).ToSeq()
  }

  /** `extract_from_lines` */
  method ExtractFromLines(lines: seq<string>) returns (out: seq<string>)
    ensures out == Extract(lines)
  {
    out := [];
    for i := 0 to |lines|
      invariant out == Extract(lines[..i])
    {
      var ln := lines[i];
      if Contains(ln, Marker) {
        var m := Search(ln);
        if m.Some? {
          out := out + [ln[m.value.start..m.value.stop]];
        }
      }
      assert lines[..i + 1][..i] == lines[..i];
    }
    assert lines[..|lines|] == lines;
  }

  /** The sample of a marker line is the leftmost number of the line, and the longest there. */
  lemma LineSampleIsLeftmostLongest(line: string, i: int, e: int)
    requires NumberAt(line, i, e)
    requires forall i', e' :: NumberAt(line, i', e') ==> i < i' || (i == i' && e' <= e)
    ensures 0 <= i <= e <= |line|
    ensures LineSample(line) == if Contains(line, Marker) then Some(line[i..e]) else None
  {
    NumberAtSlice(line, i, e);
    SearchLeftmostLongest(line);
    assert Search(line).Some?;
    var sp := Search(line).value;
    assert NumberAt(line, sp.start, sp.stop);
    assert sp.start <= i;
    assert sp.start == i && sp.stop == e;
  }

  /** A line without the marker, or without any digit, contributes nothing. */
  lemma LineSampleNone(line: string)
    requires !Contains(line, Marker) || forall k :: 0 <= k < |line| ==> !IsDigit(line[k])
    ensures LineSample(line) == None
  {
    SearchFindsIffDigit(line);
  }

  /** Extraction works line by line: the samples of a ++ b are those of a, then those of b. */
  lemma {:induction false} ExtractAppend(a: seq<string>, b: seq<string>)
    ensures Extract(a + b) == Extract(a) + Extract(b)
    decreases |b|
  {
    if b == [] {
      assert a + b == a;
    } else {
      var b' := b[..|b| - 1];
      assert (a + b)[..|a + b| - 1] == a + b';
      assert (a + b)[|a + b| - 1] == b[|b| - 1];
      ExtractAppend(a, b');
    }
  }

  /** Each line contributes at most one sample. */
  lemma {:induction false} ExtractAtMostOnePerLine(lines: seq<string>)
    ensures |Extract(lines)| <= |lines|
    decreases |lines|
  {
    if lines != [] {
      ExtractAtMostOnePerLine(lines[..|lines| - 1]);
    }
  }

  /** A line without the marker, or without a digit, can be removed without changing the samples. */
  lemma ExtractSkipsLine(a: seq<string>, line: string, b: seq<string>)
    requires !Contains(line, Marker) || forall k :: 0 <= k < |line| ==> !IsDigit(line[k])
    ensures Extract(a + [line] + b) == Extract(a + b)
  {
    LineSampleNone(line);
    assert Extract([line]) == [] by {
      assert [line][..0] == [];
    }
    calc {
      Extract(a + [line] + b);
      { ExtractAppend(a + [line], b); }
      Extract(a + [line]) + Extract(b);
      { ExtractAppend(a, [line]); }
      Extract(a) + Extract(b);
      { ExtractAppend(a, b); }
      Extract(a + b);
    }
  }

  /** Every sample is, on its own, text the numeric pattern matches in full. */
  lemma {:induction false} ExtractSamplesAreNumbers(lines: seq<string>)
    ensures forall t :: t in Extract(lines) ==> IsNumber(t)
    decreases |lines|
  {
    if lines != [] {
      ExtractSamplesAreNumbers(lines[..|lines| - 1]);
      var line := lines[|lines| - 1];
      if LineSample(line).Some? {
        SearchLeftmostLongest(line);
        NumberAtSlice(line, Search(line).value.start, Search(line).value.stop);
      }
    }
  }

  // ---------------------------------------------------------------------
  // Reading lines

  /** Length of the first line of t, its '\n' terminator included. */
  function LineLength(t: string): (n: nat)
    requires t != []
    ensures 0 < n <= |t|
    ensures forall k :: 0 <= k < n - 1 ==> t[k] != '\n'
    ensures n == |t| || t[n - 1] == '\n'
    decreases |t|
  {
    if t[0] == '\n' || |t| == 1 then 1 else 1 + LineLength(t[1..])
  }

  /** The lines that iterating over an open text file yields, terminators kept. */
  function Lines(t: string): seq<string>
    decreases |t|
  {
    if t == [] then [] else [t[..LineLength(t)]] + Lines(t[LineLength(t)..])
  }

  function Concat(ls: seq<string>): string
  {
    if ls == [] then [] else ls[0] + Concat(ls[1..])
  }

  /** The text of the lines of a non-empty text: its first line, then the lines of the rest. */
  lemma LinesUnfold(t: string)
    requires t != []
    ensures Concat(Lines(t)) == t[..LineLength(t)] + Concat(Lines(t[LineLength(t)..]))
  {
    var ls := Lines(t);
    assert ls[0] == t[..LineLength(t)] && ls[1..] == Lines(t[LineLength(t)..]);
  }

  /** Iterating over the lines of a text loses nothing: they concatenate back to the text. */
  lemma {:induction false} LinesCoverText(t: string)
    ensures Concat(Lines(t)) == t
    decreases |t|
  {
    if t != [] {
      var n := LineLength(t);
      LinesCoverText(t[n..]);
      calc {
        Concat(Lines(t));
        { LinesUnfold(t); }
        t[..n] + Concat(Lines(t[n..]));
        t[..n] + t[n..];
        { assert t[..n] + t[n..] == t; }
        t;
      }
    }
  }

  /**
   * Lines split only after a '\n': every line is non-empty and has no '\n'
   * before its end, and only the last line may lack a terminator.
   */
  lemma {:induction false} LinesSplitAtNewlines(t: string)
    ensures forall j :: 0 <= j < |Lines(t)| ==> Lines(t)[j] != []
    ensures forall j, k :: 0 <= j < |Lines(t)| && 0 <= k < |Lines(t)[j]| - 1 ==> Lines(t)[j][k] != '\n'
    ensures forall j :: 0 <= j < |Lines(t)| - 1 ==> Lines(t)[j][|Lines(t)[j]| - 1] == '\n'
    decreases |t|
  {
    if t != [] {
      var n := LineLength(t);
      var rest := Lines(t[n..]);
      LinesSplitAtNewlines(t[n..]);
      assert Lines(t) == [t[..n]] + rest;
      assert forall j :: 1 <= j < |Lines(t)| ==> Lines(t)[j] == rest[j - 1];
      assert rest != [] ==> n < |t|;
    }
  }

  /** The file samples of a text: `process_file` on a file holding it. */
  function FileSamples(text: string): seq<string>
  {
    Extract(Lines(text))
  }

  /** `process_file`: opens the file, reads it line by line and extracts. */
  method ProcessFile(disk: Disk, path: Path) returns (vals: seq<string>)
    requires path in disk.files
    modifies disk`trace
    ensures vals == FileSamples(disk.files[path])
    ensures disk.trace == old(disk.trace) + [Opened(path, ForReading)]
  {
    var text := disk.ReadText(path);
    vals := ExtractFromLines(Lines(text));
  }

  // ---------------------------------------------------------------------
  // Writing values

  /** The text `write_values` produces: each rendered value followed by '\n'. */
  function Render(vals: seq<string>, toMs: bool, fmt: Format): string
    decreases |vals|
  {
    if vals == [] then [] else fmt(vals[0], toMs) + "\n" + Render(vals[1..], toMs, fmt)
  }

  lemma {:induction false} RenderAppend(a: seq<string>, b: seq<string>, toMs: bool, fmt: Format)
    ensures Render(a + b, toMs, fmt) == Render(a, toMs, fmt) + Render(b, toMs, fmt)
    decreases |a|
  {
    if a == [] {
      assert a + b == b;
    } else {
      assert (a + b)[0] == a[0];
      assert (a + b)[1..] == a[1..] + b;
      RenderAppend(a[1..], b, toMs, fmt);
    }
  }

  lemma {:induction false} LineLengthOfLine(line: string, rest: string)
    requires '\n' !in line
    ensures LineLength(line + "\n" + rest) == |line| + 1
    decreases |line|
  {
    if line != [] {
      assert (line + "\n" + rest)[1..] == line[1..] + "\n" + rest;
      LineLengthOfLine(line[1..], rest);
    }
  }

  /**
   * Reading back what `write_values` wrote gives one line per value, in
   * order, each the rendered value with its '\n' terminator.
   */
  lemma {:induction false} RenderReadsBack(vals: seq<string>, toMs: bool, fmt: Format)
    requires forall k :: 0 <= k < |vals| ==> '\n' !in fmt(vals[k], toMs)
    ensures |Lines(Render(vals, toMs, fmt))| == |vals|
    ensures forall k :: 0 <= k < |vals| ==> Lines(Render(vals, toMs, fmt))[k] == fmt(vals[k], toMs) + "\n"
    decreases |vals|
  {
    if vals != [] {
      var line := fmt(vals[0], toMs);
      var rest := Render(vals[1..], toMs, fmt);
      var t := line + "\n" + rest;
      LineLengthOfLine(line, rest);
      assert t[..|line| + 1] == line + "\n";
      assert t[|line| + 1..] == rest;
      RenderReadsBack(vals[1..], toMs, fmt);
    }
  }

  /** `write_values`: opens path for writing, then writes one line per value. */
  method WriteValues(disk: Disk, path: Path, vals: seq<string>, toMs: bool, fmt: Format)
    modifies disk
    ensures disk.files == old(disk.files)[path := Render(vals, toMs, fmt)]
    ensures disk.trace == old(disk.trace) + [Opened(path, ForWriting)]
  {
    disk.Create(path);
    for i := 0 to |vals|
      invariant disk.files == old(disk.files)[path := Render(vals[..i], toMs, fmt)]
      invariant disk.trace == old(disk.trace) + [Opened(path, ForWriting)]
    {
      disk.Append(path, fmt(vals[i], toMs) + "\n");
      RenderAppend(vals[..i], [vals[i]], toMs, fmt);
      assert Render([vals[i]], toMs, fmt) == fmt(vals[i], toMs) + "\n" by {
        assert [vals[i]][1..] == [];
      }
      assert vals[..i + 1] == vals[..i] + [vals[i]];
    }
    assert vals[..|vals|] == vals;
  }
}
