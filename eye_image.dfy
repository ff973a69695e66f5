/**
 The image side of one eye's ratio (tests/eye_ratio.py, `_eye_ratio`): the
 landmark bounding box, the crop `eye[y0:y1, x0:x1]` with numpy's slicing rules,
 the binarisation at intensity 70 and the white-pixel counts of the two halves.

 A grayscale image is a rectangular sequence of rows of 8-bit pixels. Drawing the
 eye polygon into a mask and masking the grayscale frame with it is done by the
 image library and is not modelled: the masked image is an input here.
 */
module EyeImage {
  import opened Wrappers

  /** A landmark in pixel coordinates (numpy int32). */
  datatype Point = Point(x: int, y: int)

  type Pixel = v: int | 0 <= v < 256

  type Grid = seq<seq<Pixel>>

  /** The binarisation threshold: a pixel is white when brighter than this. */
  const WhiteLevel: int := 70

  /** Every row has the width of the first one. */
  predicate IsImage(g: Grid) {
    forall i :: 0 <= i < |g| ==> |g[i]| == |g[0]|
  }

  function Width(g: Grid): nat {
    if |g| == 0 then 0 else |g[0]|
  }

  // ---------------- bounding box ----------------

  function MinOf(s: seq<int>): (m: int)
    requires |s| > 0
    ensures m in s
    ensures forall i :: 0 <= i < |s| ==> m <= s[i]
  {
    if |s| == 1 then s[0]
    else
      var t := MinOf(s[1..]);
      if s[0] <= t then s[0] else t
  }

  function MaxOf(s: seq<int>): (m: int)
    requires |s| > 0
    ensures m in s
    ensures forall i :: 0 <= i < |s| ==> s[i] <= m
  {
    if |s| == 1 then s[0]
    else
      var t := MaxOf(s[1..]);
      if s[0] >= t then s[0] else t
  }

  function Xs(pts: seq<Point>): (r: seq<int>)
    ensures |r| == |pts| && forall i :: 0 <= i < |pts| ==> r[i] == pts[i].x
  {
    seq(|pts|, i requires 0 <= i < |pts| => pts[i].x)
  }

  function Ys(pts: seq<Point>): (r: seq<int>)
    ensures |r| == |pts| && forall i :: 0 <= i < |pts| ==> r[i] == pts[i].y
  {
    seq(|pts|, i requires 0 <= i < |pts| => pts[i].y)
  }

  /** The box [x0, x1] x [y0, y1] spanned by the corner coordinates of the landmarks. */
  datatype Box = Box(x0: int, x1: int, y0: int, y1: int)

  function BoundingBox(pts: seq<Point>): (b: Box)
    requires |pts| > 0
    ensures forall i :: 0 <= i < |pts| ==> b.x0 <= pts[i].x <= b.x1 && b.y0 <= pts[i].y <= b.y1
    ensures exists i :: 0 <= i < |pts| && pts[i].x == b.x0
    ensures exists i :: 0 <= i < |pts| && pts[i].x == b.x1
    ensures exists i :: 0 <= i < |pts| && pts[i].y == b.y0
    ensures exists i :: 0 <= i < |pts| && pts[i].y == b.y1
  {
    Box(MinOf(Xs(pts)), MaxOf(Xs(pts)), MinOf(Ys(pts)), MaxOf(Ys(pts)))
  }

  /** A box of zero width or zero height. */
  predicate Degenerate(b: Box) {
    b.x1 <= b.x0 || b.y1 <= b.y0
  }

  // ---------------- cropping ----------------

  /** Python's normalisation of a slice bound `i` for a sequence of length `n`
      (step 1): a negative bound counts from the end, then the bound is clamped. */
  function SliceIndex(i: int, n: nat): (k: nat)
    ensures k <= n
    ensures 0 <= i <= n ==> k == i
    ensures -(n as int) <= i < 0 ==> k == i + n
    ensures i < -(n as int) ==> k == 0
    ensures n < i ==> k == n
  {
    if i < 0 then (if i + n < 0 then 0 else i + n)
    else if i > n then n
    else i
  }

  /** The normalised range [lo, hi) of the slice `a:b` over a length `n`; empty when lo >= hi. */
  function SliceRange(a: int, b: int, n: nat): (r: (nat, nat))
    ensures r.0 <= r.1 <= n
    ensures 0 <= a <= b <= n ==> r == (a, b)
  {
    var lo := SliceIndex(a, n);
    var hi := SliceIndex(b, n);
    if lo < hi then (lo, hi) else (lo, lo)
  }

  /** Columns lo..hi of every row. */
  function Columns(g: Grid, lo: nat, hi: nat): (c: Grid)
    requires lo <= hi
    requires forall i :: 0 <= i < |g| ==> hi <= |g[i]|
    ensures |c| == |g|
    ensures forall i :: 0 <= i < |g| ==> c[i] == g[i][lo..hi]
  {
    seq(|g|, i requires 0 <= i < |g| => g[i][lo..hi])
  }

  /** `eye[b.y0:b.y1, b.x0:b.x1]`. */
  function Crop(eye: Grid, b: Box): (c: Grid)
    requires IsImage(eye)
    ensures IsImage(c)
    ensures var rows := SliceRange(b.y0, b.y1, |eye|);
            var cols := SliceRange(b.x0, b.x1, Width(eye));
            |c| == rows.1 - rows.0 &&
            forall i :: 0 <= i < |c| ==> c[i] == eye[rows.0 + i][cols.0..cols.1]
  {
    var rows := SliceRange(b.y0, b.y1, |eye|);
    var cols := SliceRange(b.x0, b.x1, Width(eye));
    Columns(eye[rows.0..rows.1], cols.0, cols.1)
  }

  /** A box that lies inside the image is cropped to exactly its own pixels. */
  lemma CropInside(eye: Grid, b: Box)
    requires IsImage(eye)
    requires 0 <= b.x0 <= b.x1 <= Width(eye) && 0 <= b.y0 <= b.y1 <= |eye|
    ensures |Crop(eye, b)| == b.y1 - b.y0
    ensures forall i, j :: 0 <= i < b.y1 - b.y0 && 0 <= j < b.x1 - b.x0 ==>
              Crop(eye, b)[i][j] == eye[b.y0 + i][b.x0 + j]
  {
  }

  // ---------------- binarisation and counting ----------------

  /** The number of pixels of a row brighter than the white level. */
  function RowWhite(row: seq<Pixel>): (n: nat)
    ensures n <= |row|
  {
    if row == [] then 0
    else RowWhite(row[..|row| - 1]) + (if row[|row| - 1] > WhiteLevel then 1 else 0)
  }

  /** The number of pixels of a grid brighter than the white level. */
  function White(g: Grid): nat {
    if g == [] then 0 else White(g[..|g| - 1]) + RowWhite(g[|g| - 1])
  }

  /** Binary thresholding: white pixels become 255, all others 0. */
  function Binarize(g: Grid): (t: Grid)
    ensures |t| == |g|
    ensures forall i :: 0 <= i < |g| ==> |t[i]| == |g[i]|
    ensures forall i, j :: 0 <= i < |g| && 0 <= j < |g[i]| ==>
              t[i][j] == (if g[i][j] > WhiteLevel then 255 else 0)
  {
    seq(|g|, i requires 0 <= i < |g| =>
      seq(|g[i]|, j requires 0 <= j < |g[i]| => if g[i][j] > WhiteLevel then 255 else 0))
  }

  function RowNonZero(row: seq<Pixel>): nat {
    if row == [] then 0
    else RowNonZero(row[..|row| - 1]) + (if row[|row| - 1] != 0 then 1 else 0)
  }

  /** The number of non-zero pixels of a grid. */
  function NonZero(g: Grid): nat {
    if g == [] then 0 else NonZero(g[..|g| - 1]) + RowNonZero(g[|g| - 1])
  }

  lemma {:induction false} RowNonZeroOfBinarized(row: seq<Pixel>, t: seq<Pixel>)
    requires |t| == |row|
    requires forall j :: 0 <= j < |row| ==> t[j] == (if row[j] > WhiteLevel then 255 else 0)
    ensures RowNonZero(t) == RowWhite(row)
  {
    if row != [] {
      RowNonZeroOfBinarized(row[..|row| - 1], t[..|t| - 1]);
    }
  }

  /** Counting the non-zero pixels of the binarised image counts its white pixels. */
  lemma {:induction false} NonZeroOfBinarized(g: Grid)
    ensures NonZero(Binarize(g)) == White(g)
  {
    if g != [] {
      var n := |g| - 1;
      assert Binarize(g)[..n] == Binarize(g[..n]);
      NonZeroOfBinarized(g[..n]);
      RowNonZeroOfBinarized(g[n], Binarize(g)[n]);
    }
  }

  lemma {:induction false} RowWhiteSplit(row: seq<Pixel>, m: nat)
    requires m <= |row|
    ensures RowWhite(row[..m]) + RowWhite(row[m..]) == RowWhite(row)
    decreases |row|
  {
    if m < |row| {
      var n := |row| - 1;
      RowWhiteSplit(row[..n], m);
      assert row[..n][..m] == row[..m];
      assert row[m..][..|row[m..]| - 1] == row[..n][m..];
    } else {
      assert row[..m] == row;
      assert row[m..] == [];
    }
  }

  lemma ColumnsDropLast(g: Grid, lo: nat, hi: nat)
    requires g != [] && lo <= hi
    requires forall i :: 0 <= i < |g| ==> hi <= |g[i]|
    ensures Columns(g, lo, hi)[..|g| - 1] == Columns(g[..|g| - 1], lo, hi)
  {
  }

  /** Splitting every row at column m splits the white count. */
  lemma {:induction false} WhiteSplit(g: Grid, m: nat, w: nat)
    requires m <= w
    requires forall i :: 0 <= i < |g| ==> |g[i]| == w
    ensures White(Columns(g, 0, m)) + White(Columns(g, m, w)) == White(g)
  {
    if g != [] {
      var n := |g| - 1;
      var row := g[n];
      ColumnsDropLast(g, 0, m);
      ColumnsDropLast(g, m, w);
      WhiteSplit(g[..n], m, w);
      assert row[0..m] == row[..m] && row[m..w] == row[m..];
      RowWhiteSplit(row, m);
    }
  }

  /** Cutting columns commutes with binarisation. */
  lemma ColumnsOfBinarized(g: Grid, lo: nat, hi: nat)
    requires lo <= hi
    requires forall i :: 0 <= i < |g| ==> hi <= |g[i]|
    ensures Columns(Binarize(g), lo, hi) == Binarize(Columns(g, lo, hi))
  {
    var l, r := Columns(Binarize(g), lo, hi), Binarize(Columns(g, lo, hi));
    forall i | 0 <= i < |g| ensures l[i] == r[i] {
      assert |l[i]| == |r[i]|;
      forall j | 0 <= j < |l[i]| ensures l[i][j] == r[i][j] {
        assert l[i][j] == Binarize(g)[i][lo + j];
      }
    }
  }

  // ---------------- the two halves of one eye ----------------

  /** White-pixel counts of the left and right halves of the thresholded crop. */
  datatype Halves = Halves(leftWhite: nat, rightWhite: nat)

  /**
   The counts for one eye: `None` when the landmark box has no width or no
   height; otherwise the crop is split at column w / 2 (w its width) and each
   half's white pixels are counted after binarisation.
   */
  function EyeHalves(pts: seq<Point>, eye: Grid): (h: Option<Halves>)
    requires |pts| > 0 && IsImage(eye)
    ensures h.None? <==> Degenerate(BoundingBox(pts))
  {
    var b := BoundingBox(pts);
    if Degenerate(b) then None
    else
      var thresh := Binarize(Crop(eye, b));
      var w := Width(thresh);
      Some(Halves(NonZero(Columns(thresh, 0, w / 2)), NonZero(Columns(thresh, w / 2, w))))
  }

  /** The counts are those of the white pixels (intensity above 70) of the crop's
      columns [0, w / 2) and [w / 2, w), and together they count the whole crop. */
  lemma EyeHalvesCountWhite(pts: seq<Point>, eye: Grid)
    requires |pts| > 0 && IsImage(eye)
    requires !Degenerate(BoundingBox(pts))
    ensures var h := EyeHalves(pts, eye).value;
            var c := Crop(eye, BoundingBox(pts));
            var w := Width(c);
            && h.leftWhite == White(Columns(c, 0, w / 2))
            && h.rightWhite == White(Columns(c, w / 2, w))
            && h.leftWhite + h.rightWhite == White(c)
  {
    var c := Crop(eye, BoundingBox(pts));
    assert Width(Binarize(c)) == Width(c);
    HalvesCountWhite(c);
  }

  /** A box that passes the guard but whose numpy crop is empty (it reaches past the
      frame, so a negative bound wraps to the far side) is given counts (0, 0). */
  lemma EyeHalvesEmptyCrop(pts: seq<Point>, eye: Grid)
    requires |pts| > 0 && IsImage(eye)
    requires !Degenerate(BoundingBox(pts))
    requires var c := Crop(eye, BoundingBox(pts)); |c| == 0 || Width(c) == 0
    ensures EyeHalves(pts, eye) == Some(Halves(0, 0))
  {
    var c := Crop(eye, BoundingBox(pts));
    EyeHalvesCountWhite(pts, eye);
    EmptyWhite(c);
  }

  lemma EmptyWhite(c: Grid)
    requires IsImage(c) && (|c| == 0 || Width(c) == 0)
    ensures White(c) == 0
  {
    if |c| > 0 {
      assert c[|c| - 1] == [];
      EmptyWhite(c[..|c| - 1]);
    }
  }

  /** Landmarks at x = -1 and x = 2 over a 2 x 4 image: the box is not degenerate,
      yet `eye[0:1, -1:2]` is `eye[0:1, 3:2]`, which has no columns. */
  lemma EmptyCropExample()
    ensures var pts := [Point(-1, 0), Point(2, 1)];
            var eye: Grid := [[0, 0, 0, 0], [0, 0, 0, 0]];
            && !Degenerate(BoundingBox(pts))
            && Width(Crop(eye, BoundingBox(pts))) == 0
            && EyeHalves(pts, eye) == Some(Halves(0, 0))
  {
    var pts := [Point(-1, 0), Point(2, 1)];
    var eye: Grid := [[0, 0, 0, 0], [0, 0, 0, 0]];
    var b := BoundingBox(pts);
    assert Xs(pts) == [-1, 2] && Ys(pts) == [0, 1];
    assert b == Box(-1, 2, 0, 1);
    assert SliceRange(-1, 2, 4) == (3, 3);
    EyeHalvesEmptyCrop(pts, eye);
  }

  lemma HalvesCountWhite(c: Grid)
    requires IsImage(c)
    ensures var w := Width(c);
            && NonZero(Columns(Binarize(c), 0, w / 2)) == White(Columns(c, 0, w / 2))
            && NonZero(Columns(Binarize(c), w / 2, w)) == White(Columns(c, w / 2, w))
            && White(Columns(c, 0, w / 2)) + White(Columns(c, w / 2, w)) == White(c)
  {
    var w := Width(c);
    ColumnsOfBinarized(c, 0, w / 2);
    ColumnsOfBinarized(c, w / 2, w);
    NonZeroOfBinarized(Columns(c, 0, w / 2));
    NonZeroOfBinarized(Columns(c, w / 2, w));
    WhiteSplit(c, w / 2, w);
  }
}
