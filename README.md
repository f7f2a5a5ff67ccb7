# Batch binarizer of depth masks: a Dafny model

`preproc/post_process_depth.py` turns every PNG image of a directory into a strictly
two-level image. It writes the results to a directory named after the input with
`_processed` appended. For each file it:

1. reduces the image to 8-bit grey;
2. thresholds it (a pixel brighter than 100 becomes 1, any other pixel 0);
3. checks that the distinct values are `{0}`, `{1}` or `{0, 1}`;
4. multiplies by 255, casts to 8 bits, and saves the result under the input's file name.

A file that fails to decode, validate or save is reported and skipped. The function returns
1 when the input path is missing or is not a directory, and 0 otherwise. The exception is a
failed creation of the save directory (line 26, outside the per-file `try`): the exception
then escapes and the script ends with exit status 1.

The model has four modules:

- `Pixels` (`pixels.dfy`) holds the pure pixel pipeline on grids `seq<seq<int>>`:
  - `Binarize` is the threshold;
  - `Values` is the set of distinct values;
  - `IsValidBinary` is the defensive check;
  - `ToUint8` and `Rescale` are the scaling and the cast;
  - `Convert` is the three steps together.
- `Paths` (`paths.dfy`) implements POSIX `basename` and two-part `join` on strings, plus
  the save-directory and output-path derivation.
- `Batch` (`batch.dfy`) contains two pieces:
  - `ProcessImages` is the run as a method: the early returns, then a `for` loop over the
    listed files;
  - `Attempt`, `Attempts` and `Stored` are the specification functions it is proved against.
- `Wrappers` (`wrappers.dfy`) is the `Option` type.

The filesystem and the image library are not modelled; they are inputs to the run:

- `kind`: whether the path is missing, not a directory, or a directory.
- `listing`: the list of matching files.
- `mkdirOk`: whether creating the save directory succeeds.
- `decode`: opening a file and converting it to grey, giving a grid or nothing.
- `store`: encoding and writing a PNG, giving success or failure.

`ProcessImages` returns five things:

- `code`: the exit status, which is the returned value, or 1 when an exception escaped;
- `raised`: whether the directory creation raised;
- `created`: the save directory, if the run made sure it exists (it may have existed already);
- `outcomes`: one outcome per listed file, in list order;
- `written`: the files the run stored, keyed by path.

Two consequences of the code are worth knowing:

- **The save directory is the input string with the suffix appended.** For `data/depth` it
  is `data/depth_processed`, beside the input directory. For `data/depth/` it is
  `data/depth/_processed`, inside the input directory (`Paths.SaveDirComponents`,
  `Paths.SaveDirExamples`).
- **An image with no pixels is rejected.** `np.unique` of such an image is empty, and none
  of the three comparisons at lines 41-43 accepts an empty set of values. So an image with
  no pixels takes the error branch at lines 45-47 (`Pixels.BinarizedPassesValidation`).

## Model

| member | source | states |
|---|---|---|
| `Pixels.Binarize` | preproc/post_process_depth.py:37 | the result has the input's shape; a cell is 1 exactly when the pixel is strictly greater than 100 and 0 exactly when it is at most 100 |
| `Pixels.CutoffBoundaries` | preproc/post_process_depth.py:37 | the comparison is strict: 0 and 100 map to 0, 101 and 255 map to 255 after conversion |
| `Pixels.ValuesSpec` | preproc/post_process_depth.py:40 | a value is among the distinct values exactly when some cell holds it |
| `Pixels.Values` | preproc/post_process_depth.py:40 | the distinct values of the image as a set, characterised by `ValuesSpec` as exactly the values some cell holds |
| `Pixels.ValuesEmpty` | preproc/post_process_depth.py:40 | the distinct-value set is empty exactly when the grid has no cell |
| `Pixels.ValidationIsThreeWayComparison` | preproc/post_process_depth.py:41-43 | comparing the distinct values with [0, 1], [0] and [1] accepts exactly the non-empty sets drawn from {0, 1} |
| `Pixels.IsValidBinary` | preproc/post_process_depth.py:41-43 | the validation test: a non-empty set of values drawn from {0, 1}, equal by `ValidationIsThreeWayComparison` to the code's three comparisons |
| `Pixels.BinarizedPassesValidation` | preproc/post_process_depth.py:37-47 | a binarized grid passes the check exactly when it has a pixel, so the error branch at 45-47 runs only for an empty image |
| `Pixels.ToUint8` | preproc/post_process_depth.py:50 | the 8-bit cast lands in 0..255 and differs from its input by a multiple of 256 (it wraps, as `astype(np.uint8)` does, rather than saturating), so values already in 0..255 are unchanged |
| `Pixels.Rescale` | preproc/post_process_depth.py:50 | the result has the input's shape and 8-bit cells; a 0 stays 0 and a 1 becomes 255, so the cast loses nothing on a binary grid |
| `Pixels.Convert` | preproc/post_process_depth.py:37-50 | threshold, validate and rescale in sequence, failing when validation fails; characterised completely by `ConvertSpec` |
| `Pixels.ConvertSpec` | preproc/post_process_depth.py:37-50 | conversion fails exactly for an image without pixels; otherwise the result has the input's shape, holds only 0 and 255, and holds 255 exactly where the input exceeds 100 |
| `Pixels.ConvertFixesBinaryImage` | preproc/post_process_depth.py:37-50 | a non-empty image holding only 0 and 255 converts to itself |
| `Pixels.ConvertIdempotent` | preproc/post_process_depth.py:37-50 | converting a converted image again gives the same image |
| `Pixels.ConvertKeepsGreyImage` | preproc/post_process_depth.py:33-50 | a non-empty rectangular 8-bit grey image converts to a rectangular 8-bit image |
| `Paths.LastSep` | preproc/post_process_depth.py:56 | the index found is a separator and no separator follows it, or -1 for a path without one |
| `Paths.Basename` | preproc/post_process_depth.py:56 | the file name is the longest separator-free suffix of the path |
| `Paths.HeadBasename` | preproc/post_process_depth.py:56 | a path is its head followed by its file name |
| `Paths.Join` | preproc/post_process_depth.py:57 | an absolute second part replaces the first; otherwise the join is the first part, then a separator exactly when the first part is non-empty and does not already end in one, then the second part |
| `Paths.BasenameJoin` | preproc/post_process_depth.py:56-57 | the file name of a joined path is the file name of its second part |
| `Paths.BasenameIdempotent` | preproc/post_process_depth.py:56 | taking the file name twice gives the file name |
| `Paths.SaveDir` | preproc/post_process_depth.py:25 | the save directory is the input path followed by the characters `_processed` |
| `Paths.SaveDirComponents` | preproc/post_process_depth.py:25 | the save directory keeps the input's head and its last component is the input's last component plus `_processed`; with a trailing separator it is the entry `_processed` inside the input directory |
| `Paths.SaveDirExamples` | preproc/post_process_depth.py:25 | `data/depth` gives `data/depth_processed`, and `data/depth/` gives `data/depth/_processed` |
| `Paths.OutputPath` | preproc/post_process_depth.py:56-57 | the save directory joined with the input's file name; characterised by `OutputKeepsFilename`, `OutputPathInSaveDir` and `OutputPathInjective` |
| `Paths.OutputKeepsFilename` | preproc/post_process_depth.py:56-57 | the output file has the input's file name |
| `Paths.OutputPathInSaveDir` | preproc/post_process_depth.py:25-57 | every output file is the save directory, a separator, and the input's file name |
| `Paths.OutputPathInjective` | preproc/post_process_depth.py:56-57 | two inputs share an output path exactly when they share a file name |
| `Paths.OutputNeverOverwritesInput` | preproc/post_process_depth.py:19-57 | the output for a file listed in the input directory never has that file's own path |
| `Paths.ListedFileOutput` | preproc/post_process_depth.py:19-57 | a file listed as directory joined with a name is stored as save directory, separator, name |
| `Batch.Attempt` | preproc/post_process_depth.py:30-63 | one iteration of the loop as a value: decode, convert, derive the path, store; characterised completely by `AttemptSpec` |
| `Batch.AttemptSpec` | preproc/post_process_depth.py:30-63 | one file gives a decode error exactly when it does not decode; a validation error exactly when it decodes to an image without pixels; otherwise the converted image saved at the output path, or a write error for that path when storing fails |
| `Batch.ProcessFile` | preproc/post_process_depth.py:30-63 | the statements of the loop body produce the outcome `Attempt` specifies |
| `Batch.Attempts` | preproc/post_process_depth.py:29-63 | the loop gives one outcome per listed file, the k-th outcome being the attempt on the k-th file |
| `Batch.Stored` | preproc/post_process_depth.py:60 | the files a sequence of outcomes leaves behind, each save writing its path and a later save to the same path overwriting an earlier one; characterised by `StoredKeys`, `StoredAppend` and `StoredLastSave` |
| `Batch.StoredKeys` | preproc/post_process_depth.py:57-60 | the stored paths are exactly the paths of saved outcomes, and each stored image is the image of a save to that path |
| `Batch.StoredAppend` | preproc/post_process_depth.py:60 | one more outcome adds or replaces one stored file exactly when it is a save |
| `Batch.StoredLastSave` | preproc/post_process_depth.py:60 | a save that no later save overwrites leaves its image at its path |
| `Batch.StoredLayout` | preproc/post_process_depth.py:25-60 | every stored file lies directly in the save directory under the name of a listed file |
| `Batch.StoredImagesBinary` | preproc/post_process_depth.py:37-60 | every stored file holds only the levels 0 and 255 |
| `Batch.StoredComplete` | preproc/post_process_depth.py:56-60 | with distinct listed names, every saved image is what its output path holds after the run |
| `Batch.ProcessImages` | preproc/post_process_depth.py:8-66 | exit status 1 exactly for a missing path, a non-directory, or a failed creation of the save directory (which raises); otherwise 0 whatever the per-file failures; no save directory and no output without listed files or after that failure; otherwise the save directory is ensured to exist, each listed file is attempted once in order, the stored files are the fold `Stored` of the outcomes (so a later save to a path overwrites an earlier one), and they are exactly the saves, in the save directory, binary, and complete when names are distinct |

## Left out

- Image decoding and grey conversion (`Image.open`, `convert('L')`, lines 32-34) are library calls with their own luma weights. They are the `decode` oracle, which yields a grid or nothing.
- PNG encoding and writing (`Image.fromarray`, `save` with maximum compression, lines 53 and 60) are library calls. They are the `store` oracle, which yields success or failure. A failed save is modelled as writing nothing; a partly written file is not modelled.
- The existence and directory tests, the pattern match and the directory creation (lines 11, 14, 19 and 26) are filesystem I/O. They are the inputs `kind`, `listing` and `mkdirOk` and the results `created` and `raised`; why the creation fails (a file in the way, missing permission) is not modelled. The ordering the pattern match produces, and its rule of skipping hidden names, are not modelled. Files already present in the save directory are not modelled; `written` holds only what this run stores. The directory string is itself expanded as a pattern (it is not escaped), so `*`, `?` or `[...]` in it can list files of several directories, or files a previous run left in the save directory; `listing` is arbitrary, so the run's contract covers that, but `DistinctNames` and the directory/name form used by `Paths.ListedFileOutput` and `Paths.OutputNeverOverwritesInput` hold only for a directory string without such characters. Re-reading during the run a file this run already wrote cannot be expressed with the fixed `decode` input.
- The printed messages and their streams are not modelled, nor are argument parsing and `sys.exit` (`main`, lines 68-80). This is command-line plumbing; the exit code is the result `code`.
- Batch.StoredComplete: assumes distinct listed file names, as the files of one directory have when the directory string has no pattern characters. Without that, `StoredLastSave` gives the later save's image.
- Pixels.ConvertIdempotent: states idempotence of the pixel conversion only. A second run over the output directory also depends on the codec decoding a stored PNG to the same grid, which is not modelled.
- Numpy details are not modelled: dtype promotion and the sorted array `np.unique` returns. The distinct values are a mathematical set; the cast to `uint8` is written as `x % 256`.
- Windows path rules (drive letters, backslashes) are not modelled; paths follow the POSIX rules.
