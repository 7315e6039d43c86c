/**
 * The structuring element of `_cross_kernel`, the exact-colour threshold and the
 * closing (two dilations, then two erosions) that `box_extraction_gray`
 * applies to a grey image before labelling it.
 *
 * Masks are `Grid<bool>`; a structuring element is a grid of `int` whose
 * non-zero entries are its members, with its origin at the centre
 * `(rows / 2, columns / 2)`, as in `scipy.ndimage` with the default origin.
 */
module Morphology {
  import opened Grids

  // ---------------------------------------------------------------------------
  // _cross_kernel

  /** Python's normalisation of one slice bound against a sequence of length `n`:
      a negative bound counts from the end, and the result is clipped to `[0, n]`. */
  function SliceBound(i: int, n: nat): (r: nat)
    ensures r <= n
  {
    if i < 0 then (if i + n < 0 then 0 else i + n)
    else if i > n then n
    else i
  }

  /** First and one-past-last row of the bar: `size//2 - cross//2` and
      `size//2 + cross//2 + 1`, normalised as slice bounds. Dafny's `/` by the
      positive constant 2 rounds down, as Python's `//` does. */
  function BarStart(size: nat, cross: int): nat
  {
    SliceBound(size / 2 - cross / 2, size)
  }

  function BarStop(size: nat, cross: int): nat
  {
    SliceBound(size / 2 + cross / 2 + 1, size)
  }

  /** Entry `(i, j)` of the kernel is one of the entries set to 1. */
  predicate InBar(size: nat, cross: int, i: int, j: int)
  {
    j == size / 2 && BarStart(size, cross) <= i < BarStop(size, cross)
  }

  /** `_cross_kernel(size, cross)`: a zero `size x size` array whose column
      `size//2` is set to 1 on the rows of the slice. A size of 0 makes the
      column index out of range and a negative size is rejected by `np.zeros`:
      both raise, reported here by `ok == false`. */
  method CrossKernel(size: int, cross: int) returns (ok: bool, k: array2<int>)
    ensures ok <==> size > 0
    ensures fresh(k)
    ensures ok ==> k.Length0 == size && k.Length1 == size
    ensures ok ==> forall i, j :: 0 <= i < size && 0 <= j < size ==>
      k[i, j] == if InBar(size, cross, i, j) then 1 else 0
  {
    if size <= 0 {
      ok, k := false, new int[0, 0];
      return;
    }
    k := new int[size, size]((i, j) => 0);
    var c, lo, hi := size / 2, BarStart(size, cross), BarStop(size, cross);
    var i := lo;
    while i < hi
      invariant lo <= i
      invariant lo <= hi ==> i <= hi
      invariant hi < lo ==> i == lo
      invariant forall r, s :: 0 <= r < size && 0 <= s < size ==>
        k[r, s] == if s == c && lo <= r < i then 1 else 0
    {
      k[i, c] := 1;
      i := i + 1;
    }
    ok := true;
  }

  /** For a cross no longer than the kernel, the bar is the `2*(cross//2) + 1`
      rows centred on the middle row, all in the middle column. */
  lemma BarRows(size: nat, cross: nat, i: int, j: int)
    requires cross <= size && 0 <= i < size
    ensures InBar(size, cross, i, j) <==> j == size / 2 && size / 2 - cross / 2 <= i <= size / 2 + cross / 2
  {
  }

  /** A cross longer than the kernel: the negative slice start counts from the
      end instead of stopping at row 0, so `_cross_kernel(3, 7)` sets only rows
      1 and 2 of the middle column. */
  lemma OversizedCrossWraps()
    ensures BarStart(3, 7) == 1 && BarStop(3, 7) == 3
    ensures !InBar(3, 7, 0, 1) && InBar(3, 7, 1, 1) && InBar(3, 7, 2, 1)
  {
  }

  /** The element `box_extraction_gray` uses: `_cross_kernel(3, 3)`. */
  const Cross3: Grid<int> := [[0, 1, 0], [0, 1, 0], [0, 1, 0]]

  /** The array `_cross_kernel(3, 3)` fills holds exactly `Cross3`: a vertical
      bar of three, with no horizontal arm. */
  lemma CrossKernel3(k: array2<int>)
    requires k.Length0 == 3 && k.Length1 == 3
    requires forall i, j :: 0 <= i < 3 && 0 <= j < 3 ==> k[i, j] == if InBar(3, 3, i, j) then 1 else 0
    ensures forall i, j :: 0 <= i < 3 && 0 <= j < 3 ==> k[i, j] == Cross3[i][j]
  {
    forall i, j | 0 <= i < 3 && 0 <= j < 3
      ensures k[i, j] == Cross3[i][j]
    {
      BarRows(3, 3, i, j);
    }
  }

  /** The value of a `rows x columns` array, row by row. */
  function Contents(k: array2<int>): (g: Grid<int>)
    reads k
    ensures |g| == k.Length0
    ensures forall i, j :: 0 <= i < k.Length0 && 0 <= j < k.Length1 ==> |g[i]| == k.Length1 && g[i][j] == k[i, j]
  {
    seq(k.Length0, i requires 0 <= i < k.Length0 reads k => seq(k.Length1, j requires 0 <= j < k.Length1 reads k => k[i, j]))
  }

  /** So its contents, read row by row, are `Cross3`. */
  lemma ContentsCross3(k: array2<int>)
    requires k.Length0 == 3 && k.Length1 == 3
    requires forall i, j :: 0 <= i < 3 && 0 <= j < 3 ==> k[i, j] == if InBar(3, 3, i, j) then 1 else 0
    ensures Contents(k) == Cross3
  {
    CrossKernel3(k);
    var g := Contents(k);
    forall i | 0 <= i < 3 ensures g[i] == Cross3[i] {
      assert |g[i]| == 3;
    }
  }

  // ---------------------------------------------------------------------------
  // Threshold

  /** `(img == color) * 255`, as a mask: a pixel is on exactly when it equals `color`. */
  function Threshold<P(==)>(img: Grid<P>, color: P): (m: Grid<bool>)
    ensures |m| == |img|
    ensures forall y :: 0 <= y < |m| ==> |m[y]| == |img[y]|
    ensures forall y, x :: 0 <= y < |img| && 0 <= x < |img[y]| ==> (m[y][x] <==> img[y][x] == color)
  {
    seq(|img|, y requires 0 <= y < |img| => seq(|img[y]|, x requires 0 <= x < |img[y]| => img[y][x] == color))
  }

  // ---------------------------------------------------------------------------
  // Dilation and erosion with a structuring element, border value 0

  /** Pixel `(y, x)` of `m` is inside the mask and on; outside counts as 0. */
  predicate On(m: Grid<bool>, y: int, x: int)
  {
    InGrid(m, y, x) && m[y][x]
  }

  /** Dilation at one pixel: some member `(i, j)` of the element, its centre
      placed on the pixel, reaches back to an on pixel. */
  predicate DilatedAt(m: Grid<bool>, se: Grid<int>, y: int, x: int)
  {
    exists i, j | 0 <= i < |se| && 0 <= j < Width(se) ::
      se[i][j] != 0 && On(m, y - i + |se| / 2, x - j + Width(se) / 2)
  }

  /** Erosion at one pixel, border value 0: every member of the element, its
      centre placed on the pixel, lands on an on pixel inside the mask. */
  predicate ErodedAt(m: Grid<bool>, se: Grid<int>, y: int, x: int)
  {
    forall i, j | 0 <= i < |se| && 0 <= j < Width(se) ::
      se[i][j] != 0 ==> On(m, y + i - |se| / 2, x + j - Width(se) / 2)
  }

  /** One `binary_dilation` step. */
  function Dilate(m: Grid<bool>, se: Grid<int>): (r: Grid<bool>)
    ensures |r| == |m| && Width(r) == Width(m)
    ensures forall y, x :: InGrid(m, y, x) ==> r[y][x] == DilatedAt(m, se, y, x)
  {
    seq(|m|, y requires 0 <= y < |m| => seq(Width(m), x requires 0 <= x < Width(m) => DilatedAt(m, se, y, x)))
  }

  /** One `binary_erosion` step. */
  function Erode(m: Grid<bool>, se: Grid<int>): (r: Grid<bool>)
    ensures |r| == |m| && Width(r) == Width(m)
    ensures forall y, x :: InGrid(m, y, x) ==> r[y][x] == ErodedAt(m, se, y, x)
  {
    seq(|m|, y requires 0 <= y < |m| => seq(Width(m), x requires 0 <= x < Width(m) => ErodedAt(m, se, y, x)))
  }

  /** `binary_dilation(..., iterations=2)` followed by `binary_erosion(..., iterations=2)`. */
  function Close(m: Grid<bool>, se: Grid<int>): (r: Grid<bool>)
    ensures |r| == |m| && Width(r) == Width(m)
  {
    Erode(Erode(Dilate(Dilate(m, se), se), se), se)
  }

  /** Pixel `(y, x)` lies inside the image and has the colour. */
  predicate HasColour<P(==)>(img: Grid<P>, color: P, y: int, x: int)
  {
    InGrid(img, y, x) && img[y][x] == color
  }

  /** A pixel of the colour in column `x`, at most two rows from row `y`. */
  predicate NearColour<P(==)>(img: Grid<P>, color: P, y: int, x: int)
  {
    || HasColour(img, color, y - 2, x) || HasColour(img, color, y - 1, x) || HasColour(img, color, y, x)
    || HasColour(img, color, y + 1, x) || HasColour(img, color, y + 2, x)
  }

  /** The mask `box_extraction_gray` labels: as large as the image; a pixel of
      the colour away from the first and last two rows is on; nothing in those
      rows is on; and an on pixel has a pixel of the colour in its own column,
      at most two rows away. */
  function ClosedMask<P(==)>(img: Grid<P>, color: P): (r: Grid<bool>)
    ensures |r| == |img| && Width(r) == Width(img)
    ensures forall y, x :: HasColour(img, color, y, x) && 2 <= y < |img| - 2 ==> r[y][x]
    ensures forall y, x :: InGrid(img, y, x) && (y < 2 || y >= |img| - 2) ==> !r[y][x]
    ensures forall y, x :: InGrid(img, y, x) && r[y][x] ==> NearColour(img, color, y, x)
  {
    ClosedMaskPixels(img, color);
    Close(Threshold(img, color), Cross3)
  }

  lemma ClosedMaskPixels<P>(img: Grid<P>, color: P)
    ensures var r := Close(Threshold(img, color), Cross3);
      && |r| == |img| && Width(r) == Width(img)
      && (forall y, x :: HasColour(img, color, y, x) && 2 <= y < |img| - 2 ==> r[y][x])
      && (forall y, x :: InGrid(img, y, x) && (y < 2 || y >= |img| - 2) ==> !r[y][x])
      && (forall y, x :: InGrid(img, y, x) && r[y][x] ==> NearColour(img, color, y, x))
  {
    var m := Threshold(img, color);
    assert |img| > 0 ==> |m[0]| == |img[0]|;
    assert Width(m) == Width(img);
    forall y, x | InGrid(img, y, x) ensures On(m, y, x) <==> HasColour(img, color, y, x) { }
    forall y, x | HasColour(img, color, y, x) && 2 <= y < |img| - 2 ensures Close(m, Cross3)[y][x] {
      CloseKeepsInterior(m, y, x);
    }
    forall y, x | InGrid(img, y, x) && (y < 2 || y >= |img| - 2) ensures !Close(m, Cross3)[y][x] {
      CloseClearsEdgeRows(m, y, x);
    }
    forall y, x | InGrid(img, y, x) && Close(m, Cross3)[y][x] ensures NearColour(img, color, y, x) {
      CloseStaysInColumn(m, y, x);
    }
  }

  /** Some pixel of the mask is on. */
  predicate AnyOn(m: Grid<bool>)
  {
    exists y, x | 0 <= y < |m| && 0 <= x < Width(m) :: m[y][x]
  }

  // ---------------------------------------------------------------------------
  // What the closing with Cross3 does

  /** An on pixel of `m` in column `x`, at most two rows from row `y`. */
  predicate NearOn(m: Grid<bool>, y: int, x: int)
  {
    On(m, y - 2, x) || On(m, y - 1, x) || On(m, y, x) || On(m, y + 1, x) || On(m, y + 2, x)
  }

  /** One dilation by `Cross3` spreads each on pixel one row up and down. */
  lemma DilateCross3(m: Grid<bool>, y: int, x: int)
    ensures DilatedAt(m, Cross3, y, x) <==> On(m, y - 1, x) || On(m, y, x) || On(m, y + 1, x)
  {
    if DilatedAt(m, Cross3, y, x) {
      var i, j :| 0 <= i < 3 && 0 <= j < 3 && Cross3[i][j] != 0 && On(m, y - i + 1, x - j + 1);
      assert j == 1;
    } else {
      assert Cross3[0][1] != 0 && Cross3[1][1] != 0 && Cross3[2][1] != 0;
    }
  }

  /** One erosion by `Cross3` keeps a pixel when it and its two vertical
      neighbours are on; the rows above the first and below the last count as off. */
  lemma ErodeCross3(m: Grid<bool>, y: int, x: int)
    ensures ErodedAt(m, Cross3, y, x) <==> On(m, y - 1, x) && On(m, y, x) && On(m, y + 1, x)
  {
    if ErodedAt(m, Cross3, y, x) {
      assert Cross3[0][1] != 0 && Cross3[1][1] != 0 && Cross3[2][1] != 0;
    } else {
      var i, j :| 0 <= i < 3 && 0 <= j < 3 && Cross3[i][j] != 0 && !On(m, y + i - 1, x + j - 1);
      assert j == 1;
    }
  }

  /** Two dilations: on exactly when an on pixel of the same column is at most two rows away. */
  lemma Dilate2(m: Grid<bool>, y: int, x: int)
    requires InGrid(m, y, x)
    ensures Dilate(Dilate(m, Cross3), Cross3)[y][x] <==> NearOn(m, y, x)
  {
    var d1 := Dilate(m, Cross3);
    DilateCross3(d1, y, x);
    DilateCross3(m, y - 1, x);
    DilateCross3(m, y, x);
    DilateCross3(m, y + 1, x);
  }

  /** Two erosions: on exactly when the five pixels from two rows above to two
      rows below are all on, which needs all five rows inside the mask. */
  lemma Erode2(m: Grid<bool>, y: int, x: int)
    requires InGrid(m, y, x)
    ensures Erode(Erode(m, Cross3), Cross3)[y][x]
        <==> On(m, y - 2, x) && On(m, y - 1, x) && On(m, y, x) && On(m, y + 1, x) && On(m, y + 2, x)
  {
    var e1 := Erode(m, Cross3);
    ErodeCross3(e1, y, x);
    ErodeCross3(m, y - 1, x);
    ErodeCross3(m, y, x);
    ErodeCross3(m, y + 1, x);
  }

  /** Closing with `Cross3`, pixel by pixel: each of the five rows from two above
      to two below exists, and each is within two rows of an on pixel of its column. */
  lemma CloseCross3(m: Grid<bool>, y: int, x: int)
    requires InGrid(m, y, x)
    ensures Close(m, Cross3)[y][x] <==>
      && InGrid(m, y - 2, x) && NearOn(m, y - 2, x)
      && InGrid(m, y - 1, x) && NearOn(m, y - 1, x)
      && NearOn(m, y, x)
      && InGrid(m, y + 1, x) && NearOn(m, y + 1, x)
      && InGrid(m, y + 2, x) && NearOn(m, y + 2, x)
  {
    var d2 := Dilate(Dilate(m, Cross3), Cross3);
    Erode2(d2, y, x);
    if InGrid(m, y - 2, x) { Dilate2(m, y - 2, x); }
    if InGrid(m, y - 1, x) { Dilate2(m, y - 1, x); }
    Dilate2(m, y, x);
    if InGrid(m, y + 1, x) { Dilate2(m, y + 1, x); }
    if InGrid(m, y + 2, x) { Dilate2(m, y + 2, x); }
  }

  /** The closing never turns on a pixel in the first two or the last two rows:
      erosion treats everything outside the image as off. */
  lemma CloseClearsEdgeRows(m: Grid<bool>, y: int, x: int)
    requires InGrid(m, y, x) && (y < 2 || y >= |m| - 2)
    ensures !Close(m, Cross3)[y][x]
  {
    CloseCross3(m, y, x);
  }

  /** Away from those rows the closing keeps every on pixel. */
  lemma CloseKeepsInterior(m: Grid<bool>, y: int, x: int)
    requires On(m, y, x) && 2 <= y < |m| - 2
    ensures Close(m, Cross3)[y][x]
  {
    CloseCross3(m, y, x);
  }

  /** The closing only bridges vertical gaps: an on pixel of the result has an
      on pixel of the input in its own column, at most two rows away. */
  lemma CloseStaysInColumn(m: Grid<bool>, y: int, x: int)
    requires InGrid(m, y, x) && Close(m, Cross3)[y][x]
    ensures NearOn(m, y, x)
  {
    CloseCross3(m, y, x);
  }

  /** An empty mask stays empty, and a mask with an on pixel away from the
      first and last two rows does not. */
  lemma CloseEmptyAndInteriorPixel(m: Grid<bool>)
    ensures !AnyOn(m) ==> !AnyOn(Close(m, Cross3))
    ensures (exists y, x | 2 <= y < |m| - 2 && 0 <= x < Width(m) :: m[y][x]) ==> AnyOn(Close(m, Cross3))
  {
    var c := Close(m, Cross3);
    if AnyOn(c) {
      var y, x :| 0 <= y < |c| && 0 <= x < Width(c) && c[y][x];
      CloseStaysInColumn(m, y, x);
    }
    if exists y, x | 2 <= y < |m| - 2 && 0 <= x < Width(m) :: m[y][x] {
      var y, x :| 2 <= y < |m| - 2 && 0 <= x < Width(m) && m[y][x];
      CloseKeepsInterior(m, y, x);
    }
  }
}
