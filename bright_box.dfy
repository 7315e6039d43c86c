/**
 * `_boundary_box_area`, `_measure_bright_box`, `box_extraction_gray` and
 * `crop_box_extraction_gray`: the boxes of the components of the closed
 * mask, sorted by area, largest first, and the first of them.
 */
module BrightBox {
  import opened Grids
  import opened Morphology
  import opened Labelling

  function Abs(v: int): nat
  {
    if v < 0 then -v else v
  }

  /** `_boundary_box_area`: the product of the extents of the two slices. */
  function BoxArea(b: Box): (r: nat)
    ensures r == 0 <==> b.yStop == b.yStart || b.xStop == b.xStart
    ensures b.yStart <= b.yStop && b.xStart <= b.xStop ==> r == (b.yStop - b.yStart) * (b.xStop - b.xStart)
  {
    Abs(b.yStop - b.yStart) * Abs(b.xStop - b.xStart)
  }

  // ---------------------------------------------------------------------------
  // bboxes.sort(key=_boundary_box_area, reverse=True)

  /** Non-increasing area from first to last. */
  predicate SortedByArea(s: seq<Box>)
  {
    forall i, j :: 0 <= i < j < |s| ==> BoxArea(s[i]) >= BoxArea(s[j])
  }

  /** Put `b` after every box of `s` whose area is at least its own. */
  function Insert(s: seq<Box>, b: Box): seq<Box>
  {
    if s == [] then [b]
    else if BoxArea(s[0]) >= BoxArea(b) then [s[0]] + Insert(s[1..], b)
    else [b] + s
  }

  /** `r` holds the boxes of `s`, by non-increasing area. */
  predicate SortingOf(r: seq<Box>, s: seq<Box>)
  {
    SortedByArea(r) && multiset(r) == multiset(s)
  }

  /** The sort on values: boxes inserted one after the other, in list order.
      The result is ordered by non-increasing area and holds the same boxes. */
  function SortByArea(s: seq<Box>): (r: seq<Box>)
    ensures |r| == |s|
    ensures SortingOf(r, s)
  {
    if s == [] then []
    else
      var init := s[..|s| - 1];
      InsertSortedPermutation(SortByArea(init), s[|s| - 1]);
      assert s == init + [s[|s| - 1]];
      assert |multiset(Insert(SortByArea(init), s[|s| - 1]))| == |multiset(s)|;
      Insert(SortByArea(init), s[|s| - 1])
  }

  /** The boxes of `s` with area `a`, in order. */
  function WithArea(s: seq<Box>, a: nat): (r: seq<Box>)
    ensures |r| <= |s|
  {
    if s == [] then []
    else if BoxArea(s[0]) == a then [s[0]] + WithArea(s[1..], a)
    else WithArea(s[1..], a)
  }

  lemma SortedCons(x: Box, t: seq<Box>)
    requires SortedByArea(t)
    requires forall k :: 0 <= k < |t| ==> BoxArea(x) >= BoxArea(t[k])
    ensures SortedByArea([x] + t)
  {
    var u := [x] + t;
    forall i, j | 0 <= i < j < |u| ensures BoxArea(u[i]) >= BoxArea(u[j]) {
      assert u[j] == t[j - 1];
      if i > 0 { assert u[i] == t[i - 1]; }
    }
  }

  /** Inserting never brings in a box larger than a bound of `s` and `b`. */
  lemma {:induction false} InsertBound(s: seq<Box>, b: Box, x: Box)
    requires forall k :: 0 <= k < |s| ==> BoxArea(s[k]) <= BoxArea(x)
    requires BoxArea(b) <= BoxArea(x)
    ensures forall k :: 0 <= k < |Insert(s, b)| ==> BoxArea(Insert(s, b)[k]) <= BoxArea(x)
    decreases |s|
  {
    if s != [] && BoxArea(s[0]) >= BoxArea(b) {
      InsertBound(s[1..], b, x);
    }
  }

  /** Inserting into a sorted list keeps it sorted ... */
  lemma {:induction false} InsertSorted(s: seq<Box>, b: Box)
    requires SortedByArea(s)
    ensures SortedByArea(Insert(s, b))
    decreases |s|
  {
    if s == [] {
    } else if BoxArea(s[0]) >= BoxArea(b) {
      var t := Insert(s[1..], b);
      InsertSorted(s[1..], b);
      InsertBound(s[1..], b, s[0]);
      SortedCons(s[0], t);
    } else {
      SortedCons(b, s);
    }
  }

  /** ... and adds exactly `b`. */
  lemma {:induction false} InsertPermutation(s: seq<Box>, b: Box)
    ensures multiset(Insert(s, b)) == multiset(s) + multiset{b}
    decreases |s|
  {
    if s != [] {
      InsertPermutation(s[1..], b);
      assert s == [s[0]] + s[1..];
    }
  }

  lemma InsertSortedPermutation(s: seq<Box>, b: Box)
    requires SortedByArea(s)
    ensures SortedByArea(Insert(s, b))
    ensures multiset(Insert(s, b)) == multiset(s) + multiset{b}
  {
    InsertSorted(s, b);
    InsertPermutation(s, b);
  }

  lemma {:induction false} WithAreaAppend(s: seq<Box>, t: seq<Box>, a: nat)
    ensures WithArea(s + t, a) == WithArea(s, a) + WithArea(t, a)
    decreases |s|
  {
    if s != [] {
      WithAreaAppend(s[1..], t, a);
      assert (s + t)[0] == s[0];
      assert (s + t)[1..] == s[1..] + t;
    } else {
      assert s + t == t;
    }
  }

  lemma {:induction false} WithAreaNone(s: seq<Box>, a: nat)
    requires forall k :: 0 <= k < |s| ==> BoxArea(s[k]) < a
    ensures WithArea(s, a) == []
    decreases |s|
  {
    if s != [] {
      WithAreaNone(s[1..], a);
    }
  }

  /** Inserting keeps the boxes of every area in their order, `b` after the others. */
  lemma {:induction false} InsertStable(s: seq<Box>, b: Box, a: nat)
    requires SortedByArea(s)
    ensures WithArea(Insert(s, b), a) == WithArea(s, a) + (if BoxArea(b) == a then [b] else [])
    decreases |s|
  {
    if s == [] {
    } else if BoxArea(s[0]) >= BoxArea(b) {
      InsertStable(s[1..], b, a);
      assert Insert(s, b)[1..] == Insert(s[1..], b);
    } else {
      if BoxArea(b) == a {
        WithAreaNone(s, a);
      } else {
        assert ([b] + s)[1..] == s;
      }
    }
  }

  /** ... and is stable: the boxes of each area keep their original order. */
  lemma {:induction false} SortByAreaStable(s: seq<Box>, a: nat)
    ensures WithArea(SortByArea(s), a) == WithArea(s, a)
    decreases |s|
  {
    if s != [] {
      var init, last := s[..|s| - 1], s[|s| - 1];
      assert SortByArea(s) == Insert(SortByArea(init), last);
      SortByAreaStable(init, a);
      InsertStable(SortByArea(init), last, a);
      assert s == init + [last];
      WithAreaAppend(init, [last], a);
      assert WithArea([last], a) == if BoxArea(last) == a then [last] else [];
    }
  }

  /** Inserting at the place the array algorithm finds gives the same list. */
  lemma {:induction false} InsertAt(s: seq<Box>, b: Box, j: nat)
    requires j <= |s|
    requires forall k :: 0 <= k < j ==> BoxArea(s[k]) >= BoxArea(b)
    requires forall k :: j <= k < |s| ==> BoxArea(s[k]) < BoxArea(b)
    ensures Insert(s, b) == s[..j] + [b] + s[j..]
    decreases j
  {
    if j > 0 {
      InsertAt(s[1..], b, j - 1);
      assert s[1..][..j - 1] == s[1..j];
      assert s[..j] == [s[0]] + s[1..j];
    } else if s != [] {
      assert s[..0] == [];
    }
  }

  /** One insertion step: with `a[..i]` sorted, move `a[i]` left past the
      boxes of strictly smaller area. */
  method InsertBox(a: array<Box>, i: nat)
    requires i < a.Length && SortedByArea(a[..i])
    modifies a
    ensures a[..i + 1] == Insert(old(a[..i]), old(a[i]))
    ensures a[i + 1..] == old(a[i + 1..])
  {
    ghost var sorted := a[..i];
    var b := a[i];
    var j := FindSlot(a, i);
    assert forall k :: 0 <= k < i ==> sorted[k] == a[k];
    InsertAt(sorted, b, j);
    ShiftRight(a, j, i);
    a[j] := b;
    ShiftIsInsert(a[..i + 1], sorted, b, j);
    assert a[i + 1..] == old(a[i + 1..]);
  }

  /** Move `a[j..i]` one place to the right, over `a[i]`. */
  method ShiftRight(a: array<Box>, j: nat, i: nat)
    requires j <= i < a.Length
    modifies a
    ensures forall k :: j < k <= i ==> a[k] == old(a[k - 1])
    ensures forall k :: 0 <= k < a.Length && !(j < k <= i) ==> a[k] == old(a[k])
  {
    forall k | j < k <= i {
      a[k] := a[k - 1];
    }
  }

  /** Where `a[i]` goes: after every box of `a[..i]` whose area is at least its own. */
  method FindSlot(a: array<Box>, i: nat) returns (j: nat)
    requires i < a.Length && SortedByArea(a[..i])
    ensures j <= i
    ensures forall k :: 0 <= k < j ==> BoxArea(a[k]) >= BoxArea(a[i])
    ensures forall k :: j <= k < i ==> BoxArea(a[k]) < BoxArea(a[i])
  {
    j := i;
    while j > 0 && BoxArea(a[j - 1]) < BoxArea(a[i])
      invariant 0 <= j <= i
      invariant forall k :: j <= k < i ==> BoxArea(a[k]) < BoxArea(a[i])
    {
      j := j - 1;
    }
    assert forall k :: 0 <= k < j ==> BoxArea(a[..i][k]) >= BoxArea(a[..i][j - 1]);
  }

  /** The array after the shift, read as a list, is `sorted` with `b` put at `j`. */
  lemma ShiftIsInsert(r: seq<Box>, sorted: seq<Box>, b: Box, j: nat)
    requires |r| == |sorted| + 1 && j <= |sorted|
    requires forall k :: 0 <= k < j ==> r[k] == sorted[k]
    requires r[j] == b
    requires forall k :: j < k < |r| ==> r[k] == sorted[k - 1]
    ensures r == sorted[..j] + [b] + sorted[j..]
  {
  }

  /** The in-place sort of `_measure_bright_box`, stable and by non-increasing
      area: insertion sort, one box at a time. */
  method SortBoxes(a: array<Box>)
    modifies a
    ensures a[..] == SortByArea(old(a[..]))
  {
    ghost var orig := a[..];
    var i := 0;
    while i < a.Length
      invariant 0 <= i <= a.Length
      invariant a[..i] == SortByArea(orig[..i])
      invariant a[i..] == orig[i..]
    {
      ghost var before := a[..];
      InsertBox(a, i);
      assert before[i + 1..] == before[i..][1..] == orig[i..][1..] == orig[i + 1..];
      assert orig[..i + 1][..i] == orig[..i];
      i := i + 1;
    }
    assert orig[..a.Length] == orig;
  }

  /** The first box of area `a` is the first entry of `WithArea(s, a)`. */
  lemma {:induction false} WithAreaFirst(s: seq<Box>, a: nat)
    requires WithArea(s, a) != []
    ensures exists k :: 0 <= k < |s| && s[k] == WithArea(s, a)[0] && BoxArea(s[k]) == a
                     && forall j :: 0 <= j < k ==> BoxArea(s[j]) != a
    decreases |s|
  {
    if BoxArea(s[0]) != a {
      WithAreaFirst(s[1..], a);
      var k :| 0 <= k < |s[1..]| && s[1..][k] == WithArea(s[1..], a)[0] && BoxArea(s[1..][k]) == a
        && forall j :: 0 <= j < k ==> BoxArea(s[1..][j]) != a;
      assert s[k + 1] == WithArea(s, a)[0];
      forall j | 0 <= j < k + 1 ensures BoxArea(s[j]) != a {
        if j > 0 { assert s[j] == s[1..][j - 1]; }
      }
    }
  }

  /** `s[k]` has the largest area in `s`, and no earlier box has it. */
  predicate FirstLargest(s: seq<Box>, k: nat)
  {
    k < |s|
    && (forall j :: 0 <= j < |s| ==> BoxArea(s[j]) <= BoxArea(s[k]))
    && (forall j :: 0 <= j < k ==> BoxArea(s[j]) < BoxArea(s[k]))
  }

  /** After the sort, the first box is the earliest box of largest area. */
  lemma SortByAreaFirst(s: seq<Box>)
    requires s != []
    ensures |SortByArea(s)| == |s|
    ensures exists k: nat :: FirstLargest(s, k) && SortByArea(s)[0] == s[k]
  {
    var t := SortByArea(s);
    assert |t| == |multiset(t)| == |multiset(s)| == |s|;
    var a := BoxArea(t[0]);
    forall j | 0 <= j < |s| ensures BoxArea(s[j]) <= a {
      assert s[j] in multiset(s);
      assert s[j] in multiset(t);
      var i :| 0 <= i < |t| && t[i] == s[j];
    }
    assert WithArea(t, a)[0] == t[0];
    SortByAreaStable(s, a);
    WithAreaFirst(s, a);
    var k :| 0 <= k < |s| && s[k] == WithArea(s, a)[0] && BoxArea(s[k]) == a
      && forall j :: 0 <= j < k ==> BoxArea(s[j]) != a;
    assert FirstLargest(s, k);
  }

  // ---------------------------------------------------------------------------
  // _measure_bright_box

  /** The entries of `find_objects` for the labelling of `m`, all of them boxes. */
  function Objects(m: Grid<bool>): (r: seq<Box>)
    ensures |r| == |Label(m)|
    ensures forall i :: 0 <= i < |r| ==> FindObjects(m, Label(m))[i] == Some(r[i])
  {
    LabelledObjectsPresent(m);
    var objs := FindObjects(m, Label(m));
    seq(|objs|, i requires 0 <= i < |objs| => objs[i].value)
  }

  /** `_measure_bright_box(mask)`: label, take the boxes, sort them in place. */
  method MeasureBrightBox(m: Grid<bool>) returns (boxes: seq<Box>)
    ensures boxes == SortByArea(Objects(m))
    ensures SortedByArea(boxes) && multiset(boxes) == multiset(Objects(m))
  {
    var objs := Objects(m);
    var a := new Box[|objs|](i requires 0 <= i < |objs| => objs[i]);
    assert a[..] == objs;
    SortBoxes(a);
    boxes := a[..];
  }

  // ---------------------------------------------------------------------------
  // box_extraction_gray and crop_box_extraction_gray

  /** `(x, y, w, h)` of a box. */
  function Xywh(b: Box): (int, int, int, int)
  {
    (b.xStart, b.yStart, b.xStop - b.xStart, b.yStop - b.yStart)
  }

  /** What `box_extraction_gray(img, color)` returns. */
  function BoxExtraction<P(==)>(img: Grid<P>, color: P): Option<(int, int, int, int)>
  {
    var boxes := SortByArea(Objects(ClosedMask(img, color)));
    if |boxes| == 0 then None else Some(Xywh(boxes[0]))
  }

  /** `box_extraction_gray(img, color)`: build the kernel, threshold, close,
      measure, and report the first box. */
  method BoxExtractionGray<P(==)>(img: Grid<P>, color: P) returns (r: Option<(int, int, int, int)>)
    ensures r == BoxExtraction(img, color)
  {
    var ok, kernel := CrossKernel(3, 3);
    ContentsCross3(kernel);
    var se := Contents(kernel);
    var mask := Threshold(img, color);
    var closed := Erode(Erode(Dilate(Dilate(mask, se), se), se), se);
    var boxes := MeasureBrightBox(closed);
    if |boxes| == 0 {
      return None;
    }
    r := Some(Xywh(boxes[0]));
  }

  /** `box_extraction_gray` returns `None` exactly when the closed mask has no
      on pixel, that is, when there is no component to measure. */
  lemma BoxExtractionNone<P>(img: Grid<P>, color: P)
    ensures BoxExtraction(img, color).None? <==> !AnyOn(ClosedMask(img, color))
  {
    var m := ClosedMask(img, color);
    NoLabelsIffEmpty(m);
  }

  /** Otherwise it returns `(x, y, w, h)` with `w > 0` and `h > 0`, inside the
      image: the bounding box of the earliest-labelled component whose box has
      the largest area. */
  lemma BoxExtractionFound<P>(img: Grid<P>, color: P)
    requires BoxExtraction(img, color).Some?
    ensures var (x, y, w, h) := BoxExtraction(img, color).value;
      && w > 0 && h > 0 && 0 <= x && x + w <= Width(img) && 0 <= y && y + h <= |img|
      && exists k: nat :: FirstLargest(Objects(ClosedMask(img, color)), k)
           && Objects(ClosedMask(img, color))[k] == Box(y, y + h, x, x + w)
  {
    var m := ClosedMask(img, color);
    var objs := Objects(m);
    SortByAreaFirst(objs);
    var k: nat :| FirstLargest(objs, k) && SortByArea(objs)[0] == objs[k];
    ObjectInside(m, k);
  }

  /** Each box of `Objects(m)` is a proper box inside `m`. */
  lemma ObjectInside(m: Grid<bool>, k: nat)
    requires k < |Objects(m)|
    ensures var b := Objects(m)[k];
      0 <= b.yStart < b.yStop <= |m| && 0 <= b.xStart < b.xStop <= Width(m)
  {
    assert FindObjects(m, Label(m))[k] == Some(Objects(m)[k]);
  }

  /** No pixel of the colour: no box. */
  lemma NoMatchNoBox<P>(img: Grid<P>, color: P)
    requires forall y, x :: 0 <= y < |img| && 0 <= x < Width(img) ==> img[y][x] != color
    ensures BoxExtraction(img, color).None?
  {
    var t := Threshold(img, color);
    assert |t| > 0 ==> |t[0]| == |img[0]|;
    CloseEmptyAndInteriorPixel(t);
    BoxExtractionNone(img, color);
  }

  /** A pixel of the colour at least two rows away from the top and bottom
      edges: a box. (Matches in the first or last two rows alone are erased by
      the erosion.) */
  lemma InteriorMatchGivesBox<P>(img: Grid<P>, color: P, y: nat, x: nat)
    requires 2 <= y < |img| - 2 && x < Width(img) && img[y][x] == color
    ensures BoxExtraction(img, color).Some?
  {
    var t := Threshold(img, color);
    assert |t[0]| == |img[0]|;
    assert 2 <= y < |t| - 2 && 0 <= x < Width(t) && t[y][x];
    CloseEmptyAndInteriorPixel(t);
    BoxExtractionNone(img, color);
  }

  /** `crop_box_extraction_gray(img, color)`: `None` when there is no box,
      otherwise the `h x w` sub-image at `(y, x)`. */
  method CropBoxExtractionGray<P(==)>(img: Grid<P>, color: P) returns (r: Option<Grid<P>>)
    ensures r.None? <==> BoxExtraction(img, color).None?
    ensures r.Some? ==> var (x, y, w, h) := BoxExtraction(img, color).value;
      && 0 <= y && y + h <= |img| && 0 <= x && x + w <= Width(img)
      && |r.value| == h
      && forall i, j :: 0 <= i < h && 0 <= j < w ==> |r.value[i]| == w && r.value[i][j] == img[y + i][x + j]
  {
    var bbox := BoxExtractionGray(img, color);
    if bbox.None? {
      return None;
    }
    BoxExtractionFound(img, color);
    var (x, y, w, h) := bbox.value;
    r := Some(SubGrid(img, y, y + h, x, x + w));
  }
}
