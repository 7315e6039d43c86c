/** Edge-anchored crop rectangles: `_clamp` and `crop_by_spec` of ocr.py. */
module Crop {
  import opened Grids

  /** `max(a, min(b, v))`. */
  function Clamp(v: int, a: int, b: int): (r: int)
    ensures a <= b ==> a <= r <= b
    ensures a <= v <= b ==> r == v
    ensures v < a ==> r == a
    ensures a <= b < v ==> r == b
    ensures b < a ==> r == a
  {
    Max(a, Min(b, v))
  }

  function Min(a: int, b: int): int { if a <= b then a else b }
  function Max(a: int, b: int): int { if a >= b then a else b }

  /** `str.lower()` on the ASCII letters; every other character is kept. */
  function LowerChar(c: char): char
  {
    if 'A' <= c <= 'Z' then (c as int + 32) as char else c
  }

  function Lower(s: string): (r: string)
    ensures |r| == |s|
    ensures forall i :: 0 <= i < |s| ==> r[i] == LowerChar(s[i])
  {
    seq(|s|, i requires 0 <= i < |s| => LowerChar(s[i]))
  }

  /** `s` spells `word` (given in lower case) in any mix of upper and lower case. */
  predicate SpellsIgnoringCase(s: string, word: string)
  {
    |s| == |word| && forall i :: 0 <= i < |s| ==> LowerChar(s[i]) == word[i]
  }

  /** One anchor of a spec: `(type, offset)`. `near` is the edge the offset is
      measured from when the type names it ("top" for rows, "left" for columns);
      any other type measures the offset back from the far edge `dim`. */
  function ResolveAnchor(kind: string, offset: int, near: string, dim: int): (r: int)
    ensures SpellsIgnoringCase(kind, near) ==> r == offset
    ensures !SpellsIgnoringCase(kind, near) ==> r == dim - offset
  {
    LowerSpells(kind, near);
    if Lower(kind) == near then offset else dim - offset
  }

  lemma LowerSpells(s: string, word: string)
    ensures Lower(s) == word <==> SpellsIgnoringCase(s, word)
  {
    if SpellsIgnoringCase(s, word) {
      assert Lower(s) == word;
    }
  }

  /** `(type1, offset1, type2, offset2)`, the value of a spec's 'y' or 'x' entry. */
  datatype AnchorPair = AnchorPair(kind1: string, offset1: int, kind2: string, offset2: int)
  {
    function Swapped(): AnchorPair { AnchorPair(kind2, offset2, kind1, offset1) }
  }

  /** The geometry of one entry of the specification table. */
  datatype CropSpec = CropSpec(y: AnchorPair, x: AnchorPair)

  /** A resolved rectangle: rows `[yMin, yMax)`, columns `[xMin, xMax)`. */
  datatype Region = Region(yMin: int, yMax: int, xMin: int, xMax: int)
  {
    predicate IsProper() { xMin < xMax && yMin < yMax }
  }

  /** Resolves both anchors of an axis, orders them and clamps both ends to `[0, dim - 1]`. */
  function ResolveAxis(p: AnchorPair, near: string, dim: int): (r: (int, int))
    ensures 0 < dim ==> 0 <= r.0 <= r.1 <= dim - 1
    ensures dim <= 0 ==> r == (0, 0)
  {
    var v1 := ResolveAnchor(p.kind1, p.offset1, near, dim);
    var v2 := ResolveAnchor(p.kind2, p.offset2, near, dim);
    var lo := Min(v1, v2);
    var hi := Max(v1, v2);
    (Clamp(lo, 0, dim - 1), Clamp(hi, 0, dim - 1))
  }

  /** Ordering the pair before clamping makes the order of its two anchors irrelevant. */
  lemma ResolveAxisSymmetric(p: AnchorPair, near: string, dim: int)
    ensures ResolveAxis(p.Swapped(), near, dim) == ResolveAxis(p, near, dim)
  {
  }

  /** The rectangle `crop_by_spec` computes for an image of height `h` and width
      `w`: both row ends lie in `[0, h - 1]`, both column ends in `[0, w - 1]`,
      each pair ordered, and an axis without pixels collapses to `(0, 0)`. */
  function ResolveRegion(spec: CropSpec, h: int, w: int): (r: Region)
    ensures 0 < h ==> 0 <= r.yMin <= r.yMax <= h - 1
    ensures 0 < w ==> 0 <= r.xMin <= r.xMax <= w - 1
    ensures h <= 0 ==> r.yMin == 0 && r.yMax == 0
    ensures w <= 0 ==> r.xMin == 0 && r.xMax == 0
  {
    var (yMin, yMax) := ResolveAxis(spec.y, "top", h);
    var (xMin, xMax) := ResolveAxis(spec.x, "left", w);
    Region(yMin, yMax, xMin, xMax)
  }

  /** `crop_by_spec`: the sub-image of `img` inside the resolved rectangle, or the
      `ValueError` raised (carrying the rectangle) when it is empty on an axis. */
  function CropBySpec<P>(img: Grid<P>, spec: CropSpec): (r: Result<Grid<P>, Region>)
    ensures r.Err? <==> !ResolveRegion(spec, Height(img), Width(img)).IsProper()
    ensures r.Err? ==> r.error == ResolveRegion(spec, Height(img), Width(img))
    ensures r.Ok? ==>
      var g := ResolveRegion(spec, Height(img), Width(img));
      && 0 <= g.yMin < g.yMax <= Height(img) - 1
      && 0 <= g.xMin < g.xMax <= Width(img) - 1
      && |r.value| == g.yMax - g.yMin
      && (forall i :: 0 <= i < |r.value| ==> |r.value[i]| == g.xMax - g.xMin)
      && (forall i, j :: 0 <= i < g.yMax - g.yMin && 0 <= j < g.xMax - g.xMin ==>
            r.value[i][j] == img[g.yMin + i][g.xMin + j])
  {
    var g := ResolveRegion(spec, Height(img), Width(img));
    if g.xMax <= g.xMin || g.yMax <= g.yMin then Err(g)
    else Ok(SubGrid(img, g.yMin, g.yMax, g.xMin, g.xMax))
  }

  /** Swapping the two y anchors, or the two x anchors, gives the same crop. */
  lemma SwapAnchorsSameCrop<P>(img: Grid<P>, spec: CropSpec)
    ensures CropBySpec(img, CropSpec(spec.y.Swapped(), spec.x)) == CropBySpec(img, spec)
    ensures CropBySpec(img, CropSpec(spec.y, spec.x.Swapped())) == CropBySpec(img, spec)
  {
    ResolveAxisSymmetric(spec.y, "top", Height(img));
    ResolveAxisSymmetric(spec.x, "left", Width(img));
  }

  /** An image one pixel high or wide can never be cropped: the clamped ends coincide. */
  lemma ThinImageNeverCrops<P>(img: Grid<P>, spec: CropSpec)
    requires Height(img) <= 1 || Width(img) <= 1
    ensures CropBySpec(img, spec).Err?
  {
  }

  /** A successful crop never reaches the last row or the last column of the image. */
  lemma CropExcludesLastRowAndColumn<P>(img: Grid<P>, spec: CropSpec)
    requires CropBySpec(img, spec).Ok?
    ensures var g := ResolveRegion(spec, Height(img), Width(img));
      g.yMin + |CropBySpec(img, spec).value| <= Height(img) - 1
      && g.xMin + |CropBySpec(img, spec).value[0]| <= Width(img) - 1
  {
  }
}
