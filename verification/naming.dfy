/** How the converter names its output: the JPEG for a source file is called
    after the stem of the source's file name and placed in the single output
    directory of the run. */
module Naming {
  import opened Paths

  /** The output file name: the stem of the source's file name plus `.jpg`. */
  function OutputName(file: string): string {
    Stem(Basename(file)) + ".jpg"
  }

  /** An output name is a plain file name ending in `.jpg`. */
  lemma OutputNameShape(file: string)
    ensures Sep !in OutputName(file)
    ensures |OutputName(file)| >= 4 && OutputName(file)[|OutputName(file)| - 4..] == ".jpg"
  {
    BasenameHasNoSep(file);
    StemHasNoSep(Basename(file));
    var r := OutputName(file);
    assert r[|r| - 4..] == ".jpg";
  }

  /** The output path: the output name inside the output directory. */
  function OutputPath(dir: string, file: string): string {
    Join(dir, OutputName(file))
  }

  /** Every output path lies in its directory and is named after the stem of
      its source; when the directory has the shape `dirname` gives, taking
      `dirname` of an output path returns it. */
  lemma OutputPathShape(dir: string, file: string)
    ensures Basename(OutputPath(dir, file)) == Stem(Basename(file)) + ".jpg"
    ensures IsNormalDir(dir) ==> Dirname(OutputPath(dir, file)) == dir
  {
    OutputNameShape(file);
    BasenameOfJoin(dir, OutputName(file));
    if IsNormalDir(dir) {
      DirnameOfJoin(dir, OutputName(file));
    }
  }

  /** Equal strings that end in the same text agree before it. */
  lemma CancelSuffix(a: string, b: string, t: string)
    requires a + t == b + t
    ensures a == b
  {
    assert |a| == |b|;
    assert a == (a + t)[..|a|];
    assert b == (b + t)[..|b|];
  }

  /** Two sources in the same directory share an output path exactly when
      their file names have the same stem. */
  lemma SameStemSamePath(dir: string, f: string, g: string)
    ensures OutputPath(dir, f) == OutputPath(dir, g) <==> Stem(Basename(f)) == Stem(Basename(g))
  {
    if OutputPath(dir, f) == OutputPath(dir, g) {
      OutputNameShape(f);
      OutputNameShape(g);
      BasenameOfJoin(dir, OutputName(f));
      BasenameOfJoin(dir, OutputName(g));
      CancelSuffix(Stem(Basename(f)), Stem(Basename(g)), ".jpg");
    }
  }
}
