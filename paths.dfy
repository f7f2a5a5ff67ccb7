/**
  Output-path derivation of the batch binarizer: the save directory is the input directory
  string with a fixed suffix appended (post_process_depth.py:25), and each output file is
  the save directory joined with the input file's last path component
  (post_process_depth.py:56-57). Paths are POSIX paths with '/' as the only separator.
 */
module Paths {

  const Sep: char := '/'

  const Suffix: string := "_processed"

  /** The index of the last separator of `p`, or -1 when it has none. */
  function LastSep(p: string): (k: int)
    ensures -1 <= k < |p|
    ensures k >= 0 ==> p[k] == Sep
    ensures forall j :: k < j < |p| ==> p[j] != Sep
    decreases |p|
  {
    if p == [] then -1
    else if p[|p| - 1] == Sep then |p| - 1
    else LastSep(p[..|p| - 1])
  }

  /**
    The final component of a path (the POSIX basename): the longest suffix of `p` that holds
    no separator.
   */
  function Basename(p: string): (b: string)
    ensures Sep !in b
    ensures |b| <= |p| && p[|p| - |b|..] == b
    ensures |b| < |p| ==> p[|p| - |b| - 1] == Sep
  {
    p[LastSep(p) + 1..]
  }

  /** Everything up to and including the last separator. */
  function Head(p: string): string {
    p[..LastSep(p) + 1]
  }

  /** A path is its head followed by its final component. */
  lemma HeadBasename(p: string)
    ensures Head(p) + Basename(p) == p
  {
    var k := LastSep(p) + 1;
    assert p[..k] + p[k..] == p;
  }

  /** POSIX two-component join: an absolute second part replaces the first; a separator is inserted only when needed. */
  function Join(a: string, b: string): (r: string)
    ensures |b| > 0 && b[0] == Sep ==> r == b
    ensures !(|b| > 0 && b[0] == Sep) ==>
              |r| == |a| + |b| + (if a == [] || a[|a| - 1] == Sep then 0 else 1) &&
              r[..|a|] == a && r[|r| - |b|..] == b
    ensures !(|b| > 0 && b[0] == Sep) && a != [] && a[|a| - 1] != Sep ==> r[|a|] == Sep
  {
    if |b| > 0 && b[0] == Sep then b
    else if a == [] || a[|a| - 1] == Sep then a + b
    else a + [Sep] + b
  }

  /** The save directory (post_process_depth.py:25): the input path string with the suffix appended. */
  function SaveDir(directory: string): (s: string)
    ensures |s| == |directory| + |Suffix| && s[..|directory|] == directory && s[|directory|..] == Suffix
  {
    directory + Suffix
  }

  /** The output file for `file` (post_process_depth.py:56-57). */
  function OutputPath(saveDir: string, file: string): string {
    Join(saveDir, Basename(file))
  }

  /** Where a separator-free tail is appended, the last separator is the one of the head. */
  lemma LastSepAppend(a: string, b: string)
    requires Sep !in b
    ensures LastSep(a + b) == LastSep(a)
  {
    var k := LastSep(a + b);
    if k >= 0 {
      assert a[k] == (a + b)[k];
    }
    var m := LastSep(a);
    if m >= 0 {
      assert (a + b)[m] == a[m];
    }
  }

  /** Where the tail has a separator, the last separator lies in the tail. */
  lemma LastSepAppendSep(a: string, b: string)
    requires Sep in b
    ensures LastSep(a + b) == |a| + LastSep(b)
  {
    var kb := LastSep(b);
    assert (a + b)[|a| + kb] == Sep;
  }

  /** A path without separators is its own final component. */
  lemma BasenameNoSep(p: string)
    requires Sep !in p
    ensures Basename(p) == p
  {
  }

  /** Dropping past the head of a concatenation drops from the tail. */
  lemma DropAppend(a: string, b: string, m: int)
    requires 0 <= m <= |b|
    ensures (a + b)[|a| + m..] == b[m..]
  {
  }

  /** Appending to a head that is empty or ends in a separator leaves the tail's final component. */
  lemma BasenameAppend(pre: string, b: string)
    requires pre == [] || pre[|pre| - 1] == Sep
    ensures Basename(pre + b) == Basename(b)
  {
    if Sep in b {
      LastSepAppendSep(pre, b);
      DropAppend(pre, b, LastSep(b) + 1);
    } else {
      LastSepAppend(pre, b);
      BasenameNoSep(b);
      DropAppend(pre, b, 0);
    }
  }

  /** The final component of a joined path is the final component of its second part. */
  lemma BasenameJoin(a: string, b: string)
    ensures Basename(Join(a, b)) == Basename(b)
  {
    if |b| > 0 && b[0] == Sep {
    } else if a == [] || a[|a| - 1] == Sep {
      BasenameAppend(a, b);
    } else {
      var pre := a + [Sep];
      assert Join(a, b) == pre + b;
      BasenameAppend(pre, b);
    }
  }

  /** Taking the final component twice gives the final component. */
  lemma BasenameIdempotent(p: string)
    ensures Basename(Basename(p)) == Basename(p)
  {
    var b := Basename(p);
    assert LastSep(b) == -1;
  }

  /** An output file keeps the file name of its input (post_process_depth.py:56-57). */
  lemma OutputKeepsFilename(saveDir: string, file: string)
    ensures Basename(OutputPath(saveDir, file)) == Basename(file)
  {
    BasenameJoin(saveDir, Basename(file));
    BasenameIdempotent(file);
  }

  /** Every output file lies directly inside the save directory of the run. */
  lemma OutputPathInSaveDir(directory: string, file: string)
    ensures OutputPath(SaveDir(directory), file) == SaveDir(directory) + [Sep] + Basename(file)
  {
    var s := SaveDir(directory);
    assert s[|s| - 1] == 'd';
    var b := Basename(file);
    assert |b| > 0 ==> b[0] != Sep;
  }

  /** Two inputs share an output path exactly when they share a file name. */
  lemma OutputPathInjective(directory: string, f: string, g: string)
    ensures OutputPath(SaveDir(directory), f) == OutputPath(SaveDir(directory), g) <==> Basename(f) == Basename(g)
  {
    OutputPathInSaveDir(directory, f);
    OutputPathInSaveDir(directory, g);
    var pre := SaveDir(directory) + [Sep];
    if pre + Basename(f) == pre + Basename(g) {
      assert Basename(f) == (pre + Basename(f))[|pre|..];
      assert Basename(g) == (pre + Basename(g))[|pre|..];
    }
  }

  /**
    A file listed as directory/name is never its own output: its path differs from the path
    its output is stored at.
   */
  lemma OutputNeverOverwritesInput(directory: string, name: string)
    requires Sep !in name
    ensures OutputPath(SaveDir(directory), Join(directory, name)) != Join(directory, name)
  {
    var input := Join(directory, name);
    assert |input| <= |directory| + 1 + |name|;
    BasenameJoin(directory, name);
    assert LastSep(name) == -1;
    assert Basename(input) == name;
    OutputPathInSaveDir(directory, input);
    assert |OutputPath(SaveDir(directory), input)| == |directory| + |Suffix| + 1 + |name|;
  }

  /**
    The save directory shares the input directory's head and its final component is the
    input's final component with the suffix appended. For a directory written with a
    trailing separator the input's final component is empty, so the save directory is the
    entry `_processed` inside the input directory rather than beside it.
   */
  lemma SaveDirComponents(directory: string)
    ensures Head(SaveDir(directory)) == Head(directory)
    ensures Basename(SaveDir(directory)) == Basename(directory) + Suffix
    ensures |directory| > 0 && directory[|directory| - 1] == Sep ==> SaveDir(directory) == Join(directory, Suffix)
  {
    assert Sep !in Suffix;
    LastSepAppend(directory, Suffix);
    var k := LastSep(directory);
    assert SaveDir(directory)[k + 1..] == directory[k + 1..] + Suffix;
    assert SaveDir(directory)[..k + 1] == directory[..k + 1];
  }

  /** Worked examples: a plain directory, and one written with a trailing separator. */
  lemma SaveDirExamples()
    ensures SaveDir("data/depth") == "data/depth_processed"
    ensures SaveDir("data/depth/") == "data/depth/_processed"
  {
  }

  /**
    A file listed from the input directory as the directory joined with its name (the form
    the pattern match of post_process_depth.py:19 yields for a directory written without
    repeated trailing separators) is stored under that name in the save directory.
   */
  lemma ListedFileOutput(directory: string, name: string)
    requires Sep !in name
    ensures OutputPath(SaveDir(directory), Join(directory, name)) == SaveDir(directory) + [Sep] + name
  {
    BasenameJoin(directory, name);
    assert LastSep(name) == -1;
    OutputPathInSaveDir(directory, Join(directory, name));
  }
}
