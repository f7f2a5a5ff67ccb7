/**
  The run of the batch binarizer (post_process_depth.py:8-66): check the input location,
  list the candidate files, create the save directory, then convert and store each file,
  skipping a file whose decoding, validation or storing fails.

  The filesystem and the image codec are not modelled. What the run observes of them is
  given as inputs: the kind of the input path, the list of matching files, a decoding
  oracle (open, grey conversion and array extraction: an image or nothing) and a storing
  oracle (PNG encoding and writing: success or failure).
 */
module Batch {
  import opened Wrappers
  import opened Pixels
  import opened Paths

  /** What the filesystem says about the input path. */
  datatype PathKind = Missing | NotADirectory | Directory

  /** The three per-file failures that the run reports and survives. */
  datatype FileError = DecodeError | ValidationError | WriteError(path: string)

  /** What happened to one listed file. */
  datatype Outcome = Saved(path: string, image: Grid) | Skipped(error: FileError)

  /**
    One iteration of the loop body (post_process_depth.py:30-63): decode, convert, and on
    success store the result under the save directory with the input's file name.
   */
  function Attempt(saveDir: string, file: string, decode: string -> Option<Grid>,
                   store: (string, Grid) -> bool): Outcome
  {
    match decode(file)
    case None => Skipped(DecodeError)
    case Some(g) =>
      match Convert(g)
      case None => Skipped(ValidationError)
      case Some(out) =>
        var path := OutputPath(saveDir, file);
        if store(path, out) then Saved(path, out) else Skipped(WriteError(path))
  }

  /**
    What one attempt yields: a decoding failure exactly when the file does not decode, a
    validation failure exactly when it decodes to an image without pixels, and otherwise the
    converted image saved under the output path, or a write failure for that path.
   */
  lemma AttemptSpec(saveDir: string, file: string, decode: string -> Option<Grid>,
                    store: (string, Grid) -> bool)
    ensures var o := Attempt(saveDir, file, decode, store);
      && (o == Skipped(DecodeError) <==> decode(file).None?)
      && (o == Skipped(ValidationError) <==> decode(file).Some? && !HasPixel(decode(file).value))
      && (o.Saved? ==> decode(file).Some? && Convert(decode(file).value) == Some(o.image))
      && (o.Saved? ==> o.path == OutputPath(saveDir, file) && store(o.path, o.image))
      && (o.Skipped? && o.error.WriteError? ==>
            o.error.path == OutputPath(saveDir, file) && decode(file).Some? &&
            Convert(decode(file).value).Some? && !store(o.error.path, Convert(decode(file).value).value))
      && (decode(file).Some? && HasPixel(decode(file).value) ==> o.Saved? || o.error.WriteError?)
  {
    if decode(file).Some? {
      ConvertSpec(decode(file).value);
    }
  }

  /**
    The files a sequence of outcomes leaves in the save directory: each saved outcome's path
    holds its image, a later save to the same path replacing an earlier one.
   */
  function Stored(outcomes: seq<Outcome>): map<string, Grid>
    decreases |outcomes|
  {
    if outcomes == [] then map[]
    else
      var n := |outcomes| - 1;
      var prev := Stored(outcomes[..n]);
      if outcomes[n].Saved? then prev[outcomes[n].path := outcomes[n].image] else prev
  }

  /**
    The stored paths are exactly the paths of the saved outcomes, and each stored image is
    the image of a saved outcome for that path.
   */
  lemma {:induction false} StoredKeys(outcomes: seq<Outcome>)
    ensures forall p :: p in Stored(outcomes) <==>
              exists k :: 0 <= k < |outcomes| && outcomes[k].Saved? && outcomes[k].path == p
    ensures forall p :: p in Stored(outcomes) ==>
              exists k :: 0 <= k < |outcomes| && outcomes[k] == Saved(p, Stored(outcomes)[p])
    decreases |outcomes|
  {
    if outcomes != [] {
      var n := |outcomes| - 1;
      var prefix := outcomes[..n];
      StoredKeys(prefix);
      assert forall k :: 0 <= k < n ==> prefix[k] == outcomes[k];
    }
  }

  /** One more outcome stores one more file exactly when it is a save. */
  lemma StoredAppend(outcomes: seq<Outcome>, o: Outcome)
    ensures Stored(outcomes + [o]) == if o.Saved? then Stored(outcomes)[o.path := o.image] else Stored(outcomes)
  {
    assert (outcomes + [o])[..|outcomes|] == outcomes;
  }

  /** A saved outcome that no later outcome overwrites leaves its image at its path. */
  lemma {:induction false} StoredLastSave(outcomes: seq<Outcome>, k: int)
    requires 0 <= k < |outcomes| && outcomes[k].Saved? && LastSaveTo(outcomes, k)
    ensures outcomes[k].path in Stored(outcomes) && Stored(outcomes)[outcomes[k].path] == outcomes[k].image
    decreases |outcomes|
  {
    var n := |outcomes| - 1;
    var prefix := outcomes[..n];
    assert Stored(outcomes) == if outcomes[n].Saved? then Stored(prefix)[outcomes[n].path := outcomes[n].image]
                               else Stored(prefix);
    if k < n {
      assert prefix[k] == outcomes[k];
      assert LastSaveTo(prefix, k) by {
        forall l | k < l < |prefix| && prefix[l].Saved? ensures prefix[l].path != prefix[k].path {
          assert prefix[l] == outcomes[l];
        }
      }
      StoredLastSave(prefix, k);
    }
  }

  /** No outcome after the `k`-th saves to the `k`-th outcome's path. */
  predicate LastSaveTo(outcomes: seq<Outcome>, k: int)
    requires 0 <= k < |outcomes| && outcomes[k].Saved?
  {
    forall l :: k < l < |outcomes| && outcomes[l].Saved? ==> outcomes[l].path != outcomes[k].path
  }

  /**
    The listed files have pairwise different file names. This holds when the directory string
    has no pattern characters, so that the listing is the files of that one directory.
   */
  predicate DistinctNames(files: seq<string>) {
    forall k, l :: 0 <= k < l < |files| ==> Basename(files[k]) != Basename(files[l])
  }

  /** The body of the loop as statements: the try block of post_process_depth.py:30-63. */
  method ProcessFile(saveDir: string, file: string, decode: string -> Option<Grid>,
                     store: (string, Grid) -> bool) returns (outcome: Outcome)
    ensures outcome == Attempt(saveDir, file, decode, store)
  {
    var decoded := decode(file);
    if decoded.None? {
      return Skipped(DecodeError);
    }
    var binary := Binarize(decoded.value);
    if !IsValidBinary(Values(binary)) {
      return Skipped(ValidationError);
    }
    var image := Rescale(binary);
    var path := OutputPath(saveDir, file);
    if store(path, image) {
      outcome := Saved(path, image);
    } else {
      outcome := Skipped(WriteError(path));
    }
  }

  /** The outcomes of the loop (post_process_depth.py:29-63): one attempt per listed file, in list order. */
  function Attempts(saveDir: string, files: seq<string>, decode: string -> Option<Grid>,
                    store: (string, Grid) -> bool): (outcomes: seq<Outcome>)
    ensures |outcomes| == |files|
    ensures forall k :: 0 <= k < |files| ==> outcomes[k] == Attempt(saveDir, files[k], decode, store)
    decreases |files|
  {
    if files == [] then []
    else
      var n := |files| - 1;
      Attempts(saveDir, files[..n], decode, store) + [Attempt(saveDir, files[n], decode, store)]
  }

  /** The outcomes of a run over the listed files of `directory`. */
  predicate OutcomesOf(directory: string, listing: seq<string>, outcomes: seq<Outcome>,
                       decode: string -> Option<Grid>, store: (string, Grid) -> bool)
  {
    outcomes == Attempts(SaveDir(directory), listing, decode, store)
  }

  /** Every file a run stores lies directly in the save directory and has the name of a listed file. */
  lemma StoredLayout(directory: string, listing: seq<string>, outcomes: seq<Outcome>,
                     decode: string -> Option<Grid>, store: (string, Grid) -> bool)
    requires OutcomesOf(directory, listing, outcomes, decode, store)
    ensures forall p :: p in Stored(outcomes) ==>
              exists k :: 0 <= k < |listing| && p == SaveDir(directory) + [Sep] + Basename(listing[k])
  {
    StoredKeys(outcomes);
    forall p | p in Stored(outcomes)
      ensures exists k :: 0 <= k < |listing| && p == SaveDir(directory) + [Sep] + Basename(listing[k])
    {
      var k :| 0 <= k < |outcomes| && outcomes[k].Saved? && outcomes[k].path == p;
      AttemptSpec(SaveDir(directory), listing[k], decode, store);
      OutputPathInSaveDir(directory, listing[k]);
    }
  }

  /** Every file a run stores holds only the two levels 0 and 255. */
  lemma StoredImagesBinary(directory: string, listing: seq<string>, outcomes: seq<Outcome>,
                           decode: string -> Option<Grid>, store: (string, Grid) -> bool)
    requires OutcomesOf(directory, listing, outcomes, decode, store)
    ensures forall p :: p in Stored(outcomes) ==> AllIn(Stored(outcomes)[p], {0, White})
  {
    StoredKeys(outcomes);
    forall p | p in Stored(outcomes) ensures AllIn(Stored(outcomes)[p], {0, White}) {
      var k :| 0 <= k < |outcomes| && outcomes[k] == Saved(p, Stored(outcomes)[p]);
      AttemptSpec(SaveDir(directory), listing[k], decode, store);
      ConvertSpec(decode(listing[k]).value);
    }
  }

  /** When the listed names are distinct, every saved image is what its output path holds after the run. */
  lemma StoredComplete(directory: string, listing: seq<string>, outcomes: seq<Outcome>,
                       decode: string -> Option<Grid>, store: (string, Grid) -> bool)
    requires OutcomesOf(directory, listing, outcomes, decode, store)
    requires DistinctNames(listing)
    ensures forall k :: 0 <= k < |outcomes| && outcomes[k].Saved? ==>
              outcomes[k].path in Stored(outcomes) && Stored(outcomes)[outcomes[k].path] == outcomes[k].image
  {
    forall k | 0 <= k < |outcomes| && outcomes[k].Saved?
      ensures outcomes[k].path in Stored(outcomes) && Stored(outcomes)[outcomes[k].path] == outcomes[k].image
    {
      AttemptSpec(SaveDir(directory), listing[k], decode, store);
      forall l | k < l < |outcomes| && outcomes[l].Saved? ensures outcomes[l].path != outcomes[k].path {
        AttemptSpec(SaveDir(directory), listing[l], decode, store);
        OutputPathInjective(directory, listing[k], listing[l]);
      }
      StoredLastSave(outcomes, k);
    }
  }

  /**
    The whole run (post_process_depth.py:8-66). `mkdirOk` says whether creating the save
    directory (line 26) succeeds; when it does not, the exception escapes the function and
    the script ends with exit status 1 (`raised`). Returns the exit status, the save
    directory if the run made sure it exists, the outcome of each listed file in list order,
    and the files the run stored, by path.
   */
  method ProcessImages(directory: string, kind: PathKind, listing: seq<string>, mkdirOk: bool,
                       decode: string -> Option<Grid>, store: (string, Grid) -> bool)
    returns (code: int, raised: bool, created: Option<string>, outcomes: seq<Outcome>,
             written: map<string, Grid>)
    ensures code == 0 || code == 1
    ensures raised <==> kind == Directory && listing != [] && !mkdirOk
    ensures code == 1 <==> kind != Directory || raised
    ensures kind != Directory || listing == [] || raised ==> created == None && outcomes == [] && written == map[]
    ensures kind == Directory && listing != [] && !raised ==> created == Some(SaveDir(directory))
    ensures kind == Directory && !raised ==> outcomes == Attempts(SaveDir(directory), listing, decode, store)
    ensures written == Stored(outcomes)
    ensures forall p :: p in written <==> exists k :: 0 <= k < |outcomes| && outcomes[k].Saved? && outcomes[k].path == p
    ensures forall p :: p in written ==>
              exists k :: 0 <= k < |listing| && p == SaveDir(directory) + [Sep] + Basename(listing[k])
    ensures forall p :: p in written ==> AllIn(written[p], {0, White})
    ensures DistinctNames(listing) ==> forall k :: 0 <= k < |outcomes| && outcomes[k].Saved? ==>
              outcomes[k].path in written && written[outcomes[k].path] == outcomes[k].image
  {
    if kind == Missing {
      return 1, false, None, [], map[];
    }
    if kind == NotADirectory {
      return 1, false, None, [], map[];
    }
    if listing == [] {
      return 0, false, None, [], map[];
    }
    var saveDir := SaveDir(directory);
    if !mkdirOk {
      return 1, true, None, [], map[];
    }
    raised, created := false, Some(saveDir);
    outcomes, written := [], map[];
    for i := 0 to |listing|
      invariant outcomes == Attempts(saveDir, listing[..i], decode, store)
      invariant written == Stored(outcomes)
    {
      var outcome := ProcessFile(saveDir, listing[i], decode, store);
      if outcome.Saved? {
        written := written[outcome.path := outcome.image];
      }
      StoredAppend(outcomes, outcome);
      outcomes := outcomes + [outcome];
      assert listing[..i + 1][..i] == listing[..i];
    }
    assert listing[..|listing|] == listing;
    StoredKeys(outcomes);
    StoredLayout(directory, listing, outcomes, decode, store);
    StoredImagesBinary(directory, listing, outcomes, decode, store);
    if DistinctNames(listing) {
      StoredComplete(directory, listing, outcomes, decode, store);
    }
    code := 0;
  }
}
