/**
  The pixel-level core of the batch binarizer: a grey image is thresholded at a fixed
  cut-off into a 0/1 grid, the grid's distinct values are checked defensively, and the
  grid is rescaled to the two 8-bit levels 0 and 255 for storage.
 */
module Pixels {
  import opened Wrappers

  /** A 2-D grid of cell values, row by row, as the numeric array library holds an image. */
  type Grid = seq<seq<int>>

  /** A pixel becomes foreground when it is strictly brighter than this. */
  const Cutoff: int := 100

  /** The 8-bit level a foreground cell is stored as. */
  const White: int := 255

  predicate SameShape(a: Grid, b: Grid) {
    |a| == |b| && forall i :: 0 <= i < |a| ==> |a[i]| == |b[i]|
  }

  predicate Rectangular(g: Grid) {
    forall i :: 0 <= i < |g| ==> |g[i]| == |g[0]|
  }

  /** Every cell of `g` is one of the values in `s`. */
  predicate AllIn(g: Grid, s: set<int>) {
    forall i, j :: 0 <= i < |g| && 0 <= j < |g[i]| ==> g[i][j] in s
  }

  /** What decoding a file and reducing it to one channel yields: a rectangle of 8-bit values. */
  predicate IsGreyImage(g: Grid) {
    Rectangular(g) && forall i, j :: 0 <= i < |g| && 0 <= j < |g[i]| ==> 0 <= g[i][j] <= 255
  }

  /** The grid has at least one cell. */
  predicate HasPixel(g: Grid) {
    exists i :: 0 <= i < |g| && |g[i]| > 0
  }

  /** The distinct values of the grid, as a mathematical set (what the unique-value extraction sorts), row by row. */
  function Values(g: Grid): set<int>
    decreases |g|
  {
    if g == [] then {} else Values(g[..|g| - 1]) + RowValues(g[|g| - 1])
  }

  function RowValues(row: seq<int>): set<int> {
    set x | x in row
  }

  /** A value is among the grid's distinct values exactly when some cell holds it. */
  lemma {:induction false} ValuesSpec(g: Grid, v: int)
    ensures v in Values(g) <==> exists i, j :: 0 <= i < |g| && 0 <= j < |g[i]| && g[i][j] == v
    decreases |g|
  {
    if g != [] {
      var n := |g| - 1;
      var init := g[..n];
      ValuesSpec(init, v);
      if v in Values(g) {
        if v in Values(init) {
          var i, j :| 0 <= i < |init| && 0 <= j < |init[i]| && init[i][j] == v;
          assert g[i][j] == v;
        } else {
          var j :| 0 <= j < |g[n]| && g[n][j] == v;
        }
      }
      if exists i, j :: 0 <= i < |g| && 0 <= j < |g[i]| && g[i][j] == v {
        var i, j :| 0 <= i < |g| && 0 <= j < |g[i]| && g[i][j] == v;
        if i < n {
          assert init[i][j] == v;
        } else {
          assert v in g[n];
        }
      }
    }
  }

  /** Thresholding (post_process_depth.py:37): 1 where the pixel exceeds the cut-off, else 0. */
  function Binarize(g: Grid): (b: Grid)
    ensures SameShape(b, g)
    ensures forall i, j :: 0 <= i < |g| && 0 <= j < |g[i]| ==>
              (b[i][j] == 1 <==> g[i][j] > Cutoff) && (b[i][j] == 0 <==> g[i][j] <= Cutoff)
  {
    seq(|g|, i requires 0 <= i < |g| =>
      seq(|g[i]|, j requires 0 <= j < |g[i]| => if g[i][j] > Cutoff then 1 else 0))
  }

  /**
    The defensive check (post_process_depth.py:40-43): the distinct values form a non-empty
    set drawn from {0, 1}. The code compares the sorted distinct values with [0, 1], [0]
    and [1]; ValidationIsThreeWayComparison shows that this is the same condition.
   */
  predicate IsValidBinary(u: set<int>) {
    u != {} && u <= {0, 1}
  }

  /** The three comparisons at post_process_depth.py:41-43 accept exactly the sets IsValidBinary accepts. */
  lemma ValidationIsThreeWayComparison(u: set<int>)
    ensures IsValidBinary(u) <==> u == {0, 1} || u == {0} || u == {1}
  {
    if IsValidBinary(u) {
      if 0 in u && 1 in u {
        assert u == {0, 1};
      } else if 0 in u {
        assert u == {0};
      } else {
        assert 1 in u;
        assert u == {1};
      }
    }
  }

  /** The unsigned 8-bit cast: integers wrap around modulo 256. */
  function ToUint8(x: int): (r: int)
    ensures 0 <= r < 256
    ensures (x - r) % 256 == 0
    ensures 0 <= x < 256 ==> r == x
  {
    x % 256
  }

  /** Rescaling for storage (post_process_depth.py:50): times 255, then cast to 8 bits. */
  function Rescale(b: Grid): (r: Grid)
    ensures SameShape(r, b)
    ensures forall i, j :: 0 <= i < |b| && 0 <= j < |b[i]| ==> 0 <= r[i][j] < 256
    ensures forall i, j :: 0 <= i < |b| && 0 <= j < |b[i]| && (b[i][j] == 0 || b[i][j] == 1) ==>
              r[i][j] == White * b[i][j]
  {
    seq(|b|, i requires 0 <= i < |b| =>
      seq(|b[i]|, j requires 0 <= j < |b[i]| => ToUint8(b[i][j] * White)))
  }

  /** A grid has no distinct values exactly when it has no cell. */
  lemma ValuesEmpty(g: Grid)
    ensures Values(g) == {} <==> !HasPixel(g)
  {
    if HasPixel(g) {
      var i :| 0 <= i < |g| && |g[i]| > 0;
      ValuesSpec(g, g[i][0]);
    } else if v :| v in Values(g) {
      ValuesSpec(g, v);
    }
  }

  /**
    The check at post_process_depth.py:40-47 accepts every binarized image that has a pixel,
    so its error branch is reachable only for an image with no pixels.
   */
  lemma BinarizedPassesValidation(g: Grid)
    ensures IsValidBinary(Values(Binarize(g))) <==> HasPixel(g)
  {
    var b := Binarize(g);
    ValuesEmpty(b);
    forall v | v in Values(b) ensures v in {0, 1} {
      ValuesSpec(b, v);
      var i, j :| 0 <= i < |b| && 0 <= j < |b[i]| && b[i][j] == v;
    }
    assert HasPixel(b) ==> HasPixel(g) by {
      if HasPixel(b) {
        var i :| 0 <= i < |b| && |b[i]| > 0;
        assert |g[i]| > 0;
      }
    }
    assert HasPixel(g) ==> HasPixel(b) by {
      if HasPixel(g) {
        var i :| 0 <= i < |g| && |g[i]| > 0;
        assert |b[i]| > 0;
      }
    }
  }

  /** Binarize, validate and rescale (post_process_depth.py:37-50); `None` is the validation failure. */
  function Convert(g: Grid): Option<Grid> {
    var b := Binarize(g);
    if IsValidBinary(Values(b)) then Some(Rescale(b)) else None
  }

  /**
    Conversion fails validation exactly for an image without pixels; otherwise the result has
    the input's shape, holds only 0 and 255, and holds 255 exactly where the input exceeds
    the cut-off.
   */
  lemma ConvertSpec(g: Grid)
    ensures Convert(g).Some? <==> HasPixel(g)
    ensures Convert(g).Some? ==> SameShape(Convert(g).value, g)
    ensures Convert(g).Some? ==> AllIn(Convert(g).value, {0, White})
    ensures Convert(g).Some? ==> forall i, j :: 0 <= i < |g| && 0 <= j < |g[i]| ==>
              (Convert(g).value[i][j] == White <==> g[i][j] > Cutoff)
  {
    BinarizedPassesValidation(g);
  }

  /** An image that already holds only 0 and 255 is returned unchanged. */
  lemma ConvertFixesBinaryImage(g: Grid)
    requires HasPixel(g) && AllIn(g, {0, White})
    ensures Convert(g) == Some(g)
  {
    var b := Binarize(g);
    BinarizedPassesValidation(g);
    var r := Rescale(b);
    assert Convert(g) == Some(r);
    forall i | 0 <= i < |g| ensures r[i] == g[i] {
      forall j | 0 <= j < |g[i]| ensures r[i][j] == g[i][j] {
        assert g[i][j] in {0, White};
      }
    }
    assert r == g;
  }

  /** Converting the converted image again changes nothing. */
  lemma ConvertIdempotent(g: Grid)
    requires Convert(g).Some?
    ensures Convert(Convert(g).value) == Convert(g)
  {
    ConvertSpec(g);
    var r := Convert(g).value;
    assert HasPixel(r) by {
      var i :| 0 <= i < |g| && |g[i]| > 0;
      assert |r[i]| > 0;
    }
    ConvertFixesBinaryImage(r);
  }

  /** A grey image converts into a grey image of the same rectangular shape. */
  lemma ConvertKeepsGreyImage(g: Grid)
    requires IsGreyImage(g) && HasPixel(g)
    ensures Convert(g).Some? && IsGreyImage(Convert(g).value)
  {
    ConvertSpec(g);
    var r := Convert(g).value;
    forall i, j | 0 <= i < |r| && 0 <= j < |r[i]| ensures 0 <= r[i][j] <= 255 {
      assert r[i][j] in {0, White};
    }
  }

  /** The threshold is strict: 100 stays background, 101 becomes foreground. */
  lemma CutoffBoundaries()
    ensures Convert([[0, 100, 101, 255]]) == Some([[0, 0, 255, 255]])
  {
    assert HasPixel([[0, 100, 101, 255]]) by {
      assert |[[0, 100, 101, 255]][0]| > 0;
    }
    var g := [[0, 100, 101, 255]];
    ConvertSpec(g);
    var r := Convert(g).value;
    assert |r| == 1 && |r[0]| == 4;
    assert r[0][0] == 0 && r[0][1] == 0 && r[0][2] == White && r[0][3] == White;
    assert r[0] == [0, 0, 255, 255];
    assert r == [[0, 0, 255, 255]];
  }
}
