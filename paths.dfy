/**
 * File paths, as far as the extractor looks at them: the directory part
 * (`Path.parent`) and the final component (`Path.name`), its stem, and the
 * per-file output name `delays_<stem>.txt` placed beside the input.
 */
module Paths {

  /** A path already split into its parent directory components and its final name. */
  datatype Path = Path(dir: seq<string>, name: string)

  /** Index of the last occurrence of c in s, or -1 (Python's `str.rfind`). */
  function RFind(s: string, c: char): (r: int)
    ensures -1 <= r < |s|
    ensures r >= 0 ==> s[r] == c
    ensures forall k :: r < k < |s| ==> s[k] != c
    decreases |s|
  {
    if s == [] then -1
    else if s[|s| - 1] == c then |s| - 1
    else RFind(s[..|s| - 1], c)
  }

  /**
   * k is the dot that starts the name's suffix: the last dot of the name,
   * neither its first nor its last character.
   */
  predicate SuffixDotAt(name: string, k: int)
  {
    0 < k < |name| - 1 && name[k] == '.' && forall j :: k < j < |name| ==> name[j] != '.'
  }

  /** `PurePath.stem`: the final component without its last suffix. */
  function Stem(name: string): (r: string)
    ensures r <= name
    ensures r != name <==> exists k :: SuffixDotAt(name, k)
    ensures forall k :: SuffixDotAt(name, k) ==> r == name[..k]
  {
    var i := RFind(name, '.');
    assert forall k :: SuffixDotAt(name, k) ==> k == i;
    if 0 < i < |name| - 1 then
      assert SuffixDotAt(name, i);
      name[..i]
    else
      name
  }

  const OutputPrefix: string := "delays_"
  const OutputExtension: string := ".txt"

  /** `ip.parent / f"delays_{ip.stem}.txt"` */
  function DerivedOutput(p: Path): (r: Path)
    ensures r.dir == p.dir
  {
    Path(p.dir, OutputPrefix + Stem(p.name) + OutputExtension)
  }

  /** The derived output is never the input it is derived from. */
  lemma DerivedOutputIsNotInput(p: Path)
    ensures DerivedOutput(p) != p
  {
    var name := p.name;
    var stem := Stem(name);
    var out := DerivedOutput(p).name;
    assert |out| == |stem| + 11;
    if stem != name {
      var k :| SuffixDotAt(name, k);
      if |name| == k + 11 {
        assert out[|out| - 4] == '.';
        assert name[|name| - 4] != '.';
      }
    }
  }

  /** Two inputs that differ only in their suffix share one output name. */
  lemma DerivedOutputIgnoresSuffix(dir: seq<string>)
    ensures DerivedOutput(Path(dir, "run.txt")) == DerivedOutput(Path(dir, "run.log"))
    ensures DerivedOutput(Path(dir, "run.txt")).name == "delays_run.txt"
  {
    assert SuffixDotAt("run.txt", 3);
    assert SuffixDotAt("run.log", 3);
  }

  /** A leading dot or a trailing dot does not start a suffix. */
  lemma StemKeepsLeadingAndTrailingDots()
    ensures Stem(".hidden") == ".hidden"
    ensures Stem("run.") == "run."
    ensures Stem("run.tar.gz") == "run.tar"
  {
    assert SuffixDotAt("run.tar.gz", 7);
    assert !SuffixDotAt(".hidden", 0);
  }
}
