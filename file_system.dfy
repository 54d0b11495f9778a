/**
 * The files the extractor sees: which paths exist and what text each holds.
 * The ghost `trace` records every open, for reading or for writing, in the
 * order the program performs them.
 */
module FileSystem {
  import opened Paths

  datatype Mode = ForReading | ForWriting
  datatype Access = Opened(path: Path, mode: Mode)

  class Disk {
    var files: map<Path, string>
    ghost var trace: seq<Access>

    constructor (initial: map<Path, string>)
      ensures files == initial && trace == []
    {
      files := initial;
      trace := [];
    }

    /** `Path.exists()` */
    predicate Exists(p: Path)
      reads this
    {
      p in files
    }

    /** Opens p for reading and returns its whole (decoded) text. */
    method ReadText(p: Path) returns (text: string)
      requires p in files
      modifies this`trace
      ensures text == files[p]
      ensures trace == old(trace) + [Opened(p, ForReading)]
    {
      text := files[p];
      trace := trace + [Opened(p, ForReading)];
    }

    /** Opens p for writing (mode "w"): creates it, or truncates it to nothing. */
    method Create(p: Path)
      modifies this
      ensures files == old(files)[p := []]
      ensures trace == old(trace) + [Opened(p, ForWriting)]
    {
      files := files[p := []];
      trace := trace + [Opened(p, ForWriting)];
    }

    /** Writes text at the end of the open file p. */
    method Append(p: Path, text: string)
      requires p in files
      modifies this`files
      ensures files == old(files)[p := old(files)[p] + text]
    {
      files := files[p := files[p] + text];
    }
  }
}
