/**
 * The command-line driver (`main`): with `--out`, every input's samples go
 * to one combined file, and an existing target without `--force` stops the
 * run before anything is read; without `--out`, each input gets its own
 * `delays_<stem>.txt`, and an existing one without `--force` skips that
 * input only.
 */
module Cli {
  import opened Wrappers
  import opened Paths
  import opened FileSystem
  import opened Extractor

  /** The parsed command line; `out` is None when `--out` is absent or empty. */
  datatype Args = Args(inputs: seq<Path>, out: Option<Path>, toMs: bool, force: bool)

  /** Exit status of a usage error reported through the argument parser. */
  const UsageError: int := 2

  /** The files and the record of opens, before or after a run. */
  datatype World = World(files: map<Path, string>, trace: seq<Access>)

  // ---------------------------------------------------------------------
  // Combined mode

  /** The samples of the existing inputs, concatenated in argument order. */
  function CombinedSamples(files: map<Path, string>, ins: seq<Path>): seq<string>
    decreases |ins|
  {
    if ins == [] then []
    else
      var ip := ins[|ins| - 1];
      CombinedSamples(files, ins[..|ins| - 1]) + (if ip in files then FileSamples(files[ip]) else [])
  }

  /** The opens combined mode performs while reading: each existing input, in order. */
  function CombinedReads(files: map<Path, string>, ins: seq<Path>): seq<Access>
    decreases |ins|
  {
    if ins == [] then []
    else
      var ip := ins[|ins| - 1];
      CombinedReads(files, ins[..|ins| - 1]) + (if ip in files then [Opened(ip, ForReading)] else [])
  }

  /** Samples are concatenated file by file in argument order. */
  lemma {:induction false} CombinedSamplesAppend(files: map<Path, string>, a: seq<Path>, b: seq<Path>)
    ensures CombinedSamples(files, a + b) == CombinedSamples(files, a) + CombinedSamples(files, b)
    decreases |b|
  {
    if b == [] {
      assert a + b == a;
    } else {
      var b' := b[..|b| - 1];
      assert (a + b)[..|a + b| - 1] == a + b';
      assert (a + b)[|a + b| - 1] == b[|b| - 1];
      CombinedSamplesAppend(files, a, b');
    }
  }

  /** A missing input is skipped: it contributes no sample. */
  lemma CombinedSkipsMissing(files: map<Path, string>, a: seq<Path>, p: Path, b: seq<Path>)
    requires p !in files
    ensures CombinedSamples(files, a + [p] + b) == CombinedSamples(files, a + b)
  {
    assert CombinedSamples(files, [p]) == [] by {
      assert [p][..0] == [];
    }
    calc {
      CombinedSamples(files, a + [p] + b);
      { CombinedSamplesAppend(files, a + [p], b); }
      CombinedSamples(files, a + [p]) + CombinedSamples(files, b);
      { CombinedSamplesAppend(files, a, [p]); }
      CombinedSamples(files, a) + CombinedSamples(files, b);
      { CombinedSamplesAppend(files, a, b); }
      CombinedSamples(files, a + b);
    }
  }

  // ---------------------------------------------------------------------
  // Per-file mode

  /** One input in per-file mode. The input is read before its output is checked. */
  function PerFileStep(w: World, ip: Path, force: bool, toMs: bool, fmt: Format): World
  {
    if ip !in w.files then w
    else
      var read := w.trace + [Opened(ip, ForReading)];
      var out := DerivedOutput(ip);
      if out in w.files && !force then World(w.files, read)
      else World(w.files[out := Render(FileSamples(w.files[ip]), toMs, fmt)], read + [Opened(out, ForWriting)])
  }

  /** The inputs in per-file mode, one after the other, each seeing the files the earlier ones wrote. */
  function PerFile(w: World, ins: seq<Path>, force: bool, toMs: bool, fmt: Format): World
    decreases |ins|
  {
    if ins == [] then w
    else PerFileStep(PerFile(w, ins[..|ins| - 1], force, toMs, fmt), ins[|ins| - 1], force, toMs, fmt)
  }

  /** Per-file mode never deletes a file and only adds to the record of opens. */
  lemma {:induction false} PerFileGrows(w: World, ins: seq<Path>, force: bool, toMs: bool, fmt: Format)
    ensures w.files.Keys <= PerFile(w, ins, force, toMs, fmt).files.Keys
    ensures w.trace <= PerFile(w, ins, force, toMs, fmt).trace
    decreases |ins|
  {
    if ins != [] {
      PerFileGrows(w, ins[..|ins| - 1], force, toMs, fmt);
    }
  }

  /** A path that is no input's derived output is neither created nor changed. */
  lemma {:induction false} PerFileFrame(w: World, ins: seq<Path>, force: bool, toMs: bool, fmt: Format, p: Path)
    requires forall k :: 0 <= k < |ins| ==> DerivedOutput(ins[k]) != p
    ensures p in PerFile(w, ins, force, toMs, fmt).files <==> p in w.files
    ensures p in w.files ==> PerFile(w, ins, force, toMs, fmt).files[p] == w.files[p]
    decreases |ins|
  {
    if ins != [] {
      PerFileFrame(w, ins[..|ins| - 1], force, toMs, fmt, p);
    }
  }

  /** Without `--force`, every file that existed before the run is left as it was. */
  lemma {:induction false} PerFileNoClobber(w: World, ins: seq<Path>, toMs: bool, fmt: Format)
    ensures forall p :: p in w.files ==>
              p in PerFile(w, ins, false, toMs, fmt).files && PerFile(w, ins, false, toMs, fmt).files[p] == w.files[p]
    decreases |ins|
  {
    if ins != [] {
      PerFileNoClobber(w, ins[..|ins| - 1], toMs, fmt);
    }
  }

  /** After the run, every input that existed before it has its derived output. */
  lemma {:induction false} PerFileCovers(w: World, ins: seq<Path>, force: bool, toMs: bool, fmt: Format)
    ensures forall k :: 0 <= k < |ins| && ins[k] in w.files ==>
              DerivedOutput(ins[k]) in PerFile(w, ins, force, toMs, fmt).files
    decreases |ins|
  {
    if ins != [] {
      var ins' := ins[..|ins| - 1];
      PerFileCovers(w, ins', force, toMs, fmt);
      PerFileGrows(w, ins', force, toMs, fmt);
      var w' := PerFile(w, ins', force, toMs, fmt);
      PerFileGrows(w', [ins[|ins| - 1]], force, toMs, fmt);
      assert [ins[|ins| - 1]][..0] == [];
    }
  }

  /**
   * When the inputs have distinct derived outputs, none of which is an input,
   * each existing input whose output is absent beforehand, or every existing
   * input when `--force` is given, has its output hold exactly its samples.
   * The skip is per input: one existing output does not stop the others.
   */
  lemma {:induction false} PerFileContent(w: World, ins: seq<Path>, force: bool, toMs: bool, fmt: Format)
    requires forall j, k :: 0 <= j < k < |ins| ==> DerivedOutput(ins[j]) != DerivedOutput(ins[k])
    requires forall j, k :: 0 <= j < |ins| && 0 <= k < |ins| ==> ins[j] != DerivedOutput(ins[k])
    ensures forall k :: 0 <= k < |ins| && ins[k] in w.files && (force || DerivedOutput(ins[k]) !in w.files) ==>
              DerivedOutput(ins[k]) in PerFile(w, ins, force, toMs, fmt).files &&
              PerFile(w, ins, force, toMs, fmt).files[DerivedOutput(ins[k])] ==
                Render(FileSamples(w.files[ins[k]]), toMs, fmt)
    decreases |ins|
  {
    if ins != [] {
      var n := |ins| - 1;
      var ins' := ins[..n];
      var last := ins[n];
      PerFilePrefixPremises(ins);
      PerFileContent(w, ins', force, toMs, fmt);
      PerFileFrame(w, ins', force, toMs, fmt, last);
      PerFileFrame(w, ins', force, toMs, fmt, DerivedOutput(last));
      var w' := PerFile(w, ins', force, toMs, fmt);
      PerFileContentStep(w, w', ins, ins', last, force, toMs, fmt);
      assert PerFile(w, ins, force, toMs, fmt) == PerFileStep(w', last, force, toMs, fmt);
    }
  }

  /** The inductive step of PerFileContent: the last input's output is shared with no earlier input. */
  lemma PerFileContentStep(w: World, w': World, ins: seq<Path>, ins': seq<Path>, last: Path, force: bool, toMs: bool, fmt: Format)
    requires ins != [] && ins' == ins[..|ins| - 1] && last == ins[|ins| - 1]
    requires forall k :: 0 <= k < |ins'| && ins'[k] in w.files && (force || DerivedOutput(ins'[k]) !in w.files) ==>
               DerivedOutput(ins'[k]) in w'.files &&
               w'.files[DerivedOutput(ins'[k])] == Render(FileSamples(w.files[ins'[k]]), toMs, fmt)
    requires forall k :: 0 <= k < |ins'| ==> DerivedOutput(ins'[k]) != DerivedOutput(last)
    requires last in w'.files <==> last in w.files
    requires last in w.files ==> w'.files[last] == w.files[last]
    requires DerivedOutput(last) in w'.files <==> DerivedOutput(last) in w.files
    ensures var r := PerFileStep(w', last, force, toMs, fmt);
            forall k :: 0 <= k < |ins| && ins[k] in w.files && (force || DerivedOutput(ins[k]) !in w.files) ==>
              DerivedOutput(ins[k]) in r.files &&
              r.files[DerivedOutput(ins[k])] == Render(FileSamples(w.files[ins[k]]), toMs, fmt)
  {
    var n := |ins| - 1;
    var r := PerFileStep(w', last, force, toMs, fmt);
    forall k | 0 <= k < |ins| && ins[k] in w.files && (force || DerivedOutput(ins[k]) !in w.files)
      ensures DerivedOutput(ins[k]) in r.files
      ensures r.files[DerivedOutput(ins[k])] == Render(FileSamples(w.files[ins[k]]), toMs, fmt)
    {
      if k < n {
        var q := ins[k];
        assert ins'[k] == q;
        assert w'.files[DerivedOutput(q)] == Render(FileSamples(w.files[q]), toMs, fmt);
        PerFileStepFrame(w', last, force, toMs, fmt, DerivedOutput(q));
      } else {
        assert ins[k] == last && w'.files[last] == w.files[last];
        PerFileStepWrites(w', last, force, toMs, fmt);
      }
    }
  }

  /** The premises of PerFileContent carry over to all inputs but the last, and set the last one apart. */
  lemma PerFilePrefixPremises(ins: seq<Path>)
    requires ins != []
    requires forall j, k :: 0 <= j < k < |ins| ==> DerivedOutput(ins[j]) != DerivedOutput(ins[k])
    requires forall j, k :: 0 <= j < |ins| && 0 <= k < |ins| ==> ins[j] != DerivedOutput(ins[k])
    ensures var ins', last := ins[..|ins| - 1], ins[|ins| - 1];
            (forall j, k :: 0 <= j < k < |ins'| ==> DerivedOutput(ins'[j]) != DerivedOutput(ins'[k])) &&
            (forall j, k :: 0 <= j < |ins'| && 0 <= k < |ins'| ==> ins'[j] != DerivedOutput(ins'[k])) &&
            (forall k :: 0 <= k < |ins'| ==> last != DerivedOutput(ins'[k])) &&
            (forall k :: 0 <= k < |ins'| ==> DerivedOutput(ins'[k]) != DerivedOutput(last))
  {
    var n := |ins| - 1;
    assert forall k :: 0 <= k < n ==> ins[..n][k] == ins[k];
  }

  /** One input leaves every path other than its derived output as it was. */
  lemma PerFileStepFrame(w: World, ip: Path, force: bool, toMs: bool, fmt: Format, q: Path)
    requires q != DerivedOutput(ip)
    ensures q in PerFileStep(w, ip, force, toMs, fmt).files <==> q in w.files
    ensures q in w.files ==> PerFileStep(w, ip, force, toMs, fmt).files[q] == w.files[q]
  {
  }

  /** One existing input, whose output is absent or `--force` is given, has its samples written to its output. */
  lemma PerFileStepWrites(w: World, ip: Path, force: bool, toMs: bool, fmt: Format)
    requires ip in w.files
    requires force || DerivedOutput(ip) !in w.files
    ensures DerivedOutput(ip) in PerFileStep(w, ip, force, toMs, fmt).files
    ensures PerFileStep(w, ip, force, toMs, fmt).files[DerivedOutput(ip)] == Render(FileSamples(w.files[ip]), toMs, fmt)
  {
  }

  /**
   * Running per-file mode a second time without `--force` leaves every file
   * of the first run, its outputs included, byte for byte as it was.
   */
  lemma SecondRunKeepsFirst(w: World, ins: seq<Path>, toMs: bool, fmt: Format)
    ensures var first := PerFile(w, ins, false, toMs, fmt);
            forall p :: p in first.files ==>
              p in PerFile(first, ins, false, toMs, fmt).files &&
              PerFile(first, ins, false, toMs, fmt).files[p] == first.files[p]
  {
    PerFileNoClobber(PerFile(w, ins, false, toMs, fmt), ins, toMs, fmt);
  }

  // ---------------------------------------------------------------------
  // Dispatch

  /**
   * Combined mode past the existence check: every existing input is read, in
   * argument order, and then the target is written with all their samples.
   */
  function Combined(w: World, ins: seq<Path>, target: Path, toMs: bool, fmt: Format): (r: World)
    ensures r.files.Keys == w.files.Keys + {target}
    ensures forall p :: p in w.files && p != target ==> r.files[p] == w.files[p]
    ensures w.trace <= r.trace
  {
    World(w.files[target := Render(CombinedSamples(w.files, ins), toMs, fmt)],
          w.trace + CombinedReads(w.files, ins) + [Opened(target, ForWriting)])
  }

  /** `main`, as a specification: the world after the run and the exit status. */
  function Dispatch(w: World, args: Args, fmt: Format): (r: (World, int))
    ensures r.1 == 0 || r.1 == UsageError
    ensures r.1 == UsageError <==>
              |args.inputs| == 0 || (args.out.Some? && args.out.value in w.files && !args.force)
    ensures r.1 == UsageError ==> r.0 == w
    ensures w.files.Keys <= r.0.files.Keys
    ensures w.trace <= r.0.trace
  {
    if |args.inputs| == 0 then (w, UsageError)
    else match args.out
      case Some(target) =>
        if target in w.files && !args.force then (w, UsageError)
        else (Combined(w, args.inputs, target, args.toMs, fmt), 0)
      case None =>
        PerFileGrows(w, args.inputs, args.force, args.toMs, fmt);
        (PerFile(w, args.inputs, args.force, args.toMs, fmt), 0)
  }

  /**
   * Combined mode that gets past the existence check: the target, read back,
   * holds one line per sample of the existing inputs, in argument order, and
   * no other file is created or changed.
   */
  lemma CombinedOutput(w: World, args: Args, fmt: Format)
    requires |args.inputs| > 0 && args.out.Some?
    requires args.out.value !in w.files || args.force
    requires forall v :: '\n' !in fmt(v, args.toMs)
    ensures var (w', status) := Dispatch(w, args, fmt);
            var samples := CombinedSamples(w.files, args.inputs);
            var lines := Lines(w'.files[args.out.value]);
            status == 0 &&
            |lines| == |samples| &&
            (forall k :: 0 <= k < |samples| ==> lines[k] == fmt(samples[k], args.toMs) + "\n") &&
            (forall p :: p != args.out.value ==>
               (p in w'.files <==> p in w.files) && (p in w.files ==> w'.files[p] == w.files[p]))
  {
    RenderReadsBack(CombinedSamples(w.files, args.inputs), args.toMs, fmt);
  }

  /** Combined mode, once the target may be written: reads the inputs, then writes the target. */
  method RunCombined(disk: Disk, ins: seq<Path>, target: Path, toMs: bool, fmt: Format)
    modifies disk
    ensures World(disk.files, disk.trace) == Combined(World(old(disk.files), old(disk.trace)), ins, target, toMs, fmt)
  {
    var allVals: seq<string> := [];
    for k := 0 to |ins|
      invariant disk.files == old(disk.files)
      invariant disk.trace == old(disk.trace) + CombinedReads(old(disk.files), ins[..k])
      invariant allVals == CombinedSamples(old(disk.files), ins[..k])
    {
      var ip := ins[k];
      assert ins[..k + 1][..k] == ins[..k];
      if !disk.Exists(ip) {
        continue;
      }
      var vals := ProcessFile(disk, ip);
      allVals := allVals + vals;
    }
    assert ins[..|ins|] == ins;
    WriteValues(disk, target, allVals, toMs, fmt);
  }

  /** Per-file mode: each input in turn, writing its derived output unless that is skipped. */
  method RunPerFile(disk: Disk, ins: seq<Path>, force: bool, toMs: bool, fmt: Format)
    modifies disk
    ensures World(disk.files, disk.trace) == PerFile(World(old(disk.files), old(disk.trace)), ins, force, toMs, fmt)
  {
    ghost var w0 := World(disk.files, disk.trace);
    for k := 0 to |ins|
      invariant World(disk.files, disk.trace) == PerFile(w0, ins[..k], force, toMs, fmt)
    {
      var ip := ins[k];
      assert ins[..k + 1][..k] == ins[..k];
      if !disk.Exists(ip) {
        continue;
      }
      var vals := ProcessFile(disk, ip);
      var outName := DerivedOutput(ip);
      if disk.Exists(outName) && !force {
        continue;
      }
      WriteValues(disk, outName, vals, toMs, fmt);
    }
    assert ins[..|ins|] == ins;
  }

  /** `main`: runs the tool on the disk and returns the exit status. */
  method Run(disk: Disk, args: Args, fmt: Format) returns (status: int)
    modifies disk
    ensures (World(disk.files, disk.trace), status) == Dispatch(World(old(disk.files), old(disk.trace)), args, fmt)
  {
    if |args.inputs| == 0 {
      return UsageError;
    }
    if args.out.Some? {
      var target := args.out.value;
      if disk.Exists(target) && !args.force {
        return UsageError;
      }
      RunCombined(disk, args.inputs, target, args.toMs, fmt);
    } else {
      RunPerFile(disk, args.inputs, args.force, args.toMs, fmt);
    }
    return 0;
  }
}
