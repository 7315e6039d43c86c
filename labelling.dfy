/**
 * `scipy.ndimage.label(mask, np.ones((3, 3)))` and `scipy.ndimage.find_objects`,
 * as `_measure_bright_box` uses them.
 *
 * The labelling is a list of pixel sets: label `i + 1` is the set at index `i`.
 * Each set is one 8-connected component of the on pixels, grown by flood fill
 * from its first pixel in raster (row-major) order, and the sets are listed in
 * the raster order of those first pixels, which is how scipy numbers them.
 */
module Labelling {
  import opened Grids
  import opened Morphology

  type Pixel = (int, int)

  predicate IsOn(m: Grid<bool>, p: Pixel)
  {
    On(m, p.0, p.1)
  }

  /** The structure `np.ones((3, 3))`: 8-connectivity (a pixel is its own neighbour). */
  predicate Adjacent(p: Pixel, q: Pixel)
  {
    -1 <= p.0 - q.0 <= 1 && -1 <= p.1 - q.1 <= 1
  }

  /** Raster order: row by row, left to right within a row. */
  predicate Before(p: Pixel, q: Pixel)
  {
    p.0 < q.0 || (p.0 == q.0 && p.1 < q.1)
  }

  function OnPixels(m: Grid<bool>): (s: set<Pixel>)
    ensures forall p {:trigger p in s} :: p in s <==> IsOn(m, p)
  {
    set y, x | 0 <= y < |m| && 0 <= x < Width(m) && m[y][x] :: (y, x)
  }

  // ---------------------------------------------------------------------------
  // Paths and connectivity

  ghost predicate IsPath(m: Grid<bool>, path: seq<Pixel>)
  {
    && |path| > 0
    && (forall i :: 0 <= i < |path| ==> IsOn(m, path[i]))
    && (forall i :: 0 <= i < |path| - 1 ==> Adjacent(path[i], path[i + 1]))
  }

  /** `q` is reached from `p` by steps between 8-adjacent on pixels. */
  ghost predicate Connected(m: Grid<bool>, p: Pixel, q: Pixel)
  {
    exists path :: IsPath(m, path) && path[0] == p && path[|path| - 1] == q
  }

  lemma ConnectedRefl(m: Grid<bool>, p: Pixel)
    requires IsOn(m, p)
    ensures Connected(m, p, p)
  {
    assert IsPath(m, [p]);
  }

  lemma ConnectedStep(m: Grid<bool>, p: Pixel, q: Pixel, r: Pixel)
    requires Connected(m, p, q) && IsOn(m, r) && Adjacent(q, r)
    ensures Connected(m, p, r)
  {
    var path :| IsPath(m, path) && path[0] == p && path[|path| - 1] == q;
    var longer := path + [r];
    assert IsPath(m, longer);
  }

  lemma ConnectedSymmetric(m: Grid<bool>, p: Pixel, q: Pixel)
    requires Connected(m, p, q)
    ensures Connected(m, q, p)
  {
    var path :| IsPath(m, path) && path[0] == p && path[|path| - 1] == q;
    var back := seq(|path|, i requires 0 <= i < |path| => path[|path| - 1 - i]);
    assert IsPath(m, back);
  }

  lemma ConnectedTrans(m: Grid<bool>, p: Pixel, q: Pixel, r: Pixel)
    requires Connected(m, p, q) && Connected(m, q, r)
    ensures Connected(m, p, r)
  {
    var p1 :| IsPath(m, p1) && p1[0] == p && p1[|p1| - 1] == q;
    var p2 :| IsPath(m, p2) && p2[0] == q && p2[|p2| - 1] == r;
    var joined := p1 + p2[1..];
    assert IsPath(m, joined);
  }

  // ---------------------------------------------------------------------------
  // Flood fill

  /** `s` together with every on pixel adjacent to a pixel of `s`. */
  function Expand(m: Grid<bool>, s: set<Pixel>): set<Pixel>
  {
    s + set q | q in OnPixels(m) && exists p | p in s :: Adjacent(p, q)
  }

  lemma SubsetGap(u: set<Pixel>, a: set<Pixel>, b: set<Pixel>)
    requires a <= b <= u && a != b
    ensures |u - b| < |u - a|
  {
    var x :| x in b && x !in a;
    assert u - a == (u - b) + (b - a);
    assert (u - b) !! (b - a);
    assert x in b - a;
  }

  /** The flood fill: expand `s` until nothing changes. */
  function Grow(m: Grid<bool>, s: set<Pixel>): (c: set<Pixel>)
    requires s <= OnPixels(m)
    ensures s <= c <= OnPixels(m)
    ensures forall p, q :: p in c && Adjacent(p, q) && IsOn(m, q) ==> q in c
    decreases |OnPixels(m) - s|
  {
    var next := Expand(m, s);
    if next == s then s
    else
      SubsetGap(OnPixels(m), s, next);
      Grow(m, next)
  }

  /** Everything the flood fill adds is connected to `seed`. */
  lemma {:induction false} GrowConnected(m: Grid<bool>, s: set<Pixel>, seed: Pixel)
    requires s <= OnPixels(m)
    requires forall q :: q in s ==> Connected(m, seed, q)
    ensures forall q :: q in Grow(m, s) ==> Connected(m, seed, q)
    decreases |OnPixels(m) - s|
  {
    var next := Expand(m, s);
    if next != s {
      forall q | q in next ensures Connected(m, seed, q) {
        if q !in s {
          var p :| p in s && Adjacent(p, q);
          ConnectedStep(m, seed, p, q);
        }
      }
      SubsetGap(OnPixels(m), s, next);
      GrowConnected(m, next, seed);
    }
  }

  /** The component of an on pixel: its flood fill. */
  function Component(m: Grid<bool>, seed: Pixel): (c: set<Pixel>)
    requires IsOn(m, seed)
  {
    Grow(m, {seed})
  }

  /** The component of `seed` is exactly the set of on pixels connected to it. */
  lemma ComponentIsConnected(m: Grid<bool>, seed: Pixel, q: Pixel)
    requires IsOn(m, seed)
    ensures q in Component(m, seed) <==> Connected(m, seed, q)
  {
    ConnectedRefl(m, seed);
    GrowConnected(m, {seed}, seed);
    if Connected(m, seed, q) {
      var path :| IsPath(m, path) && path[0] == seed && path[|path| - 1] == q;
      PathInside(m, Component(m, seed), path);
    }
  }

  lemma {:induction false} PathInside(m: Grid<bool>, c: set<Pixel>, path: seq<Pixel>)
    requires IsPath(m, path) && path[0] in c
    requires forall p, q :: p in c && Adjacent(p, q) && IsOn(m, q) ==> q in c
    ensures path[|path| - 1] in c
    decreases |path|
  {
    if |path| > 1 {
      var init := path[..|path| - 1];
      assert IsPath(m, init);
      PathInside(m, c, init);
      assert Adjacent(path[|path| - 2], path[|path| - 1]);
    }
  }

  /** Components of pixels in the same component coincide. */
  lemma SameComponent(m: Grid<bool>, a: Pixel, b: Pixel)
    requires IsOn(m, a) && IsOn(m, b) && b in Component(m, a)
    ensures Component(m, b) == Component(m, a)
  {
    ComponentIsConnected(m, a, b);
    forall q ensures q in Component(m, b) <==> q in Component(m, a) {
      ComponentIsConnected(m, a, q);
      ComponentIsConnected(m, b, q);
      if Connected(m, b, q) { ConnectedTrans(m, a, b, q); }
      if Connected(m, a, q) {
        ConnectedSymmetric(m, a, b);
        ConnectedTrans(m, b, a, q);
      }
    }
  }

  // ---------------------------------------------------------------------------
  // Components in raster order

  /** Some component in `comps` already holds `p`. */
  predicate Covered(comps: seq<set<Pixel>>, p: Pixel)
  {
    exists i | 0 <= i < |comps| :: p in comps[i]
  }

  /** Visit the pixels from `(y, x)` on in raster order; an on pixel no
      component holds yet starts the next component. */
  function Scan(m: Grid<bool>, y: nat, x: nat, comps: seq<set<Pixel>>): seq<set<Pixel>>
    requires y <= |m| && x <= Width(m)
    decreases |m| - y, Width(m) - x
  {
    if y == |m| then comps
    else if x == Width(m) then Scan(m, y + 1, 0, comps)
    else if m[y][x] && !Covered(comps, (y, x)) then Scan(m, y, x + 1, comps + [Component(m, (y, x))])
    else Scan(m, y, x + 1, comps)
  }

  /** `scipy.ndimage.label(mask, np.ones((3, 3)))`: component `i` carries label `i + 1`. */
  function Label(m: Grid<bool>): seq<set<Pixel>>
  {
    Scan(m, 0, 0, [])
  }

  /** `p` is the first pixel of `c` in raster order. */
  predicate IsLeadOf(c: set<Pixel>, p: Pixel)
  {
    p in c && forall q :: q in c && q != p ==> Before(p, q)
  }

  lemma LeadOfAdd(c: set<Pixel>, x: Pixel, r: Pixel)
    requires IsLeadOf(c, r) && x !in c
    ensures IsLeadOf(c + {x}, if Before(x, r) then x else r)
  {
    if Before(x, r) {
      forall q | q in c + {x} && q != x ensures Before(x, q) {
        assert q in c;
      }
    }
  }

  /** A first pixel in raster order exists in every non-empty set. */
  lemma {:induction false} HasLead(c: set<Pixel>)
    requires c != {}
    ensures exists p :: IsLeadOf(c, p)
    decreases |c|
  {
    var x :| x in c;
    var rest := c - {x};
    if rest == {} {
      assert c == {x};
      assert IsLeadOf(c, x);
    } else {
      HasLead(rest);
      var r :| IsLeadOf(rest, r);
      LeadOfAdd(rest, x, r);
      assert rest + {x} == c;
    }
  }

  /** The first pixel of a non-empty set in raster order. */
  ghost function Lead(c: set<Pixel>): (p: Pixel)
    ensures c != {} ==> p in c && forall q :: q in c && q != p ==> Before(p, q)
  {
    if c == {} then (0, 0)
    else
      HasLead(c);
      var p :| IsLeadOf(c, p);
      p
  }

  /** `c` is a whole component, grown from its first pixel. */
  ghost predicate IsComponent(m: Grid<bool>, c: set<Pixel>)
  {
    c != {} && IsOn(m, Lead(c)) && c == Component(m, Lead(c))
  }

  /** The sets found so far: whole components, pairwise disjoint, in raster
      order of their first pixels. */
  ghost predicate Found(m: Grid<bool>, comps: seq<set<Pixel>>)
  {
    && (forall i :: 0 <= i < |comps| ==> IsComponent(m, comps[i]))
    && (forall i, j :: 0 <= i < j < |comps| ==> comps[i] !! comps[j])
    && (forall i, j :: 0 <= i < j < |comps| ==> Before(Lead(comps[i]), Lead(comps[j])))
  }

  /** The sets cover exactly the on pixels. */
  ghost predicate CoversOn(m: Grid<bool>, comps: seq<set<Pixel>>)
  {
    forall p :: IsOn(m, p) <==> Covered(comps, p)
  }

  /** What scipy's labelling promises: every set is a whole 8-connected
      component, no two share a pixel, they are numbered in the raster order of
      their first pixels, and they cover exactly the on pixels. */
  ghost predicate IsLabelling(m: Grid<bool>, comps: seq<set<Pixel>>)
  {
    Found(m, comps) && CoversOn(m, comps)
  }

  /** Every set found so far starts before `s`. */
  ghost predicate LeadsBefore(comps: seq<set<Pixel>>, s: Pixel)
  {
    forall i :: 0 <= i < |comps| ==> Before(Lead(comps[i]), s)
  }

  /** Every on pixel before `s` is in a set found so far. */
  ghost predicate CoveredBefore(m: Grid<bool>, comps: seq<set<Pixel>>, s: Pixel)
  {
    forall p :: IsOn(m, p) && Before(p, s) ==> Covered(comps, p)
  }

  ghost predicate ScanInv(m: Grid<bool>, y: int, x: int, comps: seq<set<Pixel>>)
  {
    Found(m, comps) && LeadsBefore(comps, (y, x)) && CoveredBefore(m, comps, (y, x))
  }

  /** A component started at an uncovered on pixel `s` shares no pixel with an
      earlier one. */
  lemma NewComponentDisjoint(m: Grid<bool>, c: set<Pixel>, s: Pixel)
    requires IsComponent(m, c) && IsOn(m, s) && s !in c
    ensures c !! Component(m, s)
  {
    if q :| q in c && q in Component(m, s) {
      var l := Lead(c);
      SameComponent(m, l, q);
      SameComponent(m, s, q);
      ComponentIsConnected(m, s, s);
      ConnectedRefl(m, s);
    }
  }

  /** ... and `s` is its first pixel, since every earlier on pixel is covered. */
  lemma NewComponentLead(m: Grid<bool>, comps: seq<set<Pixel>>, s: Pixel)
    requires IsOn(m, s)
    requires forall i :: 0 <= i < |comps| ==> comps[i] !! Component(m, s)
    requires forall p :: IsOn(m, p) && Before(p, s) ==> Covered(comps, p)
    ensures Lead(Component(m, s)) == s
  {
    var c := Component(m, s);
    ComponentIsConnected(m, s, s);
    ConnectedRefl(m, s);
  }

  lemma NewComponent(m: Grid<bool>, comps: seq<set<Pixel>>, s: Pixel)
    requires ScanInv(m, s.0, s.1, comps) && IsOn(m, s) && !Covered(comps, s)
    ensures forall i :: 0 <= i < |comps| ==> comps[i] !! Component(m, s)
    ensures Lead(Component(m, s)) == s
  {
    forall i | 0 <= i < |comps| ensures comps[i] !! Component(m, s) {
      NewComponentDisjoint(m, comps[i], s);
    }
    NewComponentLead(m, comps, s);
  }

  /** At the end of the scan every on pixel is covered ... */
  lemma ScanEndCovers(m: Grid<bool>, comps: seq<set<Pixel>>)
    requires CoveredBefore(m, comps, (|m|, 0))
    ensures forall p :: IsOn(m, p) ==> Covered(comps, p)
  {
    forall p | IsOn(m, p) ensures Covered(comps, p) {
      assert Before(p, (|m|, 0));
    }
  }

  /** ... and the components hold on pixels only. */
  lemma FoundOnlyOn(m: Grid<bool>, comps: seq<set<Pixel>>)
    requires Found(m, comps)
    ensures forall p :: Covered(comps, p) ==> IsOn(m, p)
  {
    forall p | Covered(comps, p) ensures IsOn(m, p) {
      var i :| 0 <= i < |comps| && p in comps[i];
      assert IsComponent(m, comps[i]);
      assert p in OnPixels(m);
    }
  }

  /** The end of the scan: the invariant is the labelling's promise. */
  lemma ScanEnd(m: Grid<bool>, comps: seq<set<Pixel>>)
    requires ScanInv(m, |m|, 0, comps)
    ensures IsLabelling(m, comps)
  {
    ScanEndCovers(m, comps);
    FoundOnlyOn(m, comps);
  }

  /** Moving the scan position forward keeps every start before it. */
  lemma LeadsBeforeLater(comps: seq<set<Pixel>>, s: Pixel, t: Pixel)
    requires LeadsBefore(comps, s) && Before(s, t)
    ensures LeadsBefore(comps, t)
  {
  }

  /** Past the last column of row `y`, on to row `y + 1`. */
  lemma ScanNextRow(m: Grid<bool>, y: nat, comps: seq<set<Pixel>>)
    requires y < |m| && ScanInv(m, y, Width(m), comps)
    ensures ScanInv(m, y + 1, 0, comps)
  {
    LeadsBeforeLater(comps, (y, Width(m)), (y + 1, 0));
    NextRowCovered(m, y, comps);
  }

  lemma NextRowCovered(m: Grid<bool>, y: nat, comps: seq<set<Pixel>>)
    requires CoveredBefore(m, comps, (y, Width(m)))
    ensures CoveredBefore(m, comps, (y + 1, 0))
  {
    forall p | IsOn(m, p) && Before(p, (y + 1, 0)) ensures Covered(comps, p) {
      assert Before(p, (y, Width(m)));
    }
  }

  /** Past a pixel that starts nothing. */
  lemma ScanSkip(m: Grid<bool>, y: nat, x: nat, comps: seq<set<Pixel>>)
    requires ScanInv(m, y, x, comps)
    requires IsOn(m, (y, x)) ==> Covered(comps, (y, x))
    ensures ScanInv(m, y, x + 1, comps)
  {
    LeadsBeforeLater(comps, (y, x), (y, x + 1));
    SkipCovered(m, y, x, comps);
  }

  lemma SkipCovered(m: Grid<bool>, y: nat, x: nat, comps: seq<set<Pixel>>)
    requires CoveredBefore(m, comps, (y, x))
    requires IsOn(m, (y, x)) ==> Covered(comps, (y, x))
    ensures CoveredBefore(m, comps, (y, x + 1))
  {
    forall p | IsOn(m, p) && Before(p, (y, x + 1)) ensures Covered(comps, p) {
      if p != (y, x) { assert Before(p, (y, x)); }
    }
  }

  /** Appending a component `c` that is disjoint from, and starts after, the
      ones found keeps them whole, disjoint and in order. */
  lemma FoundAppend(m: Grid<bool>, comps: seq<set<Pixel>>, c: set<Pixel>)
    requires Found(m, comps) && IsComponent(m, c)
    requires forall i :: 0 <= i < |comps| ==> comps[i] !! c
    requires forall i :: 0 <= i < |comps| ==> Before(Lead(comps[i]), Lead(c))
    ensures Found(m, comps + [c])
  {
    var comps' := comps + [c];
    assert forall i :: 0 <= i < |comps| ==> comps'[i] == comps[i];
  }

  /** Past a pixel that starts a new component: the sets found stay whole,
      disjoint components in order, all starting before the next pixel. */
  lemma ScanStartFound(m: Grid<bool>, y: nat, x: nat, comps: seq<set<Pixel>>)
    requires ScanInv(m, y, x, comps) && IsOn(m, (y, x)) && !Covered(comps, (y, x))
    ensures Found(m, comps + [Component(m, (y, x))])
    ensures LeadsBefore(comps + [Component(m, (y, x))], (y, x + 1))
  {
    var s := (y, x);
    var c := Component(m, s);
    NewComponent(m, comps, s);
    assert IsComponent(m, c);
    FoundAppend(m, comps, c);
    LeadsBeforeAppend(comps, c, s);
  }

  /** Appending the set that starts at `s` keeps every lead before the next pixel. */
  lemma LeadsBeforeAppend(comps: seq<set<Pixel>>, c: set<Pixel>, s: Pixel)
    requires LeadsBefore(comps, s) && c != {} && Lead(c) == s
    ensures LeadsBefore(comps + [c], (s.0, s.1 + 1))
  {
    var comps' := comps + [c];
    assert forall i :: 0 <= i < |comps| ==> comps'[i] == comps[i];
  }

  /** ... and every on pixel up to and including the new start is covered. */
  lemma ScanStartCovers(m: Grid<bool>, y: nat, x: nat, comps: seq<set<Pixel>>)
    requires CoveredBefore(m, comps, (y, x)) && IsOn(m, (y, x))
    ensures CoveredBefore(m, comps + [Component(m, (y, x))], (y, x + 1))
  {
    var s := (y, x);
    var comps' := comps + [Component(m, s)];
    ComponentIsConnected(m, s, s);
    ConnectedRefl(m, s);
    forall p | IsOn(m, p) && Before(p, (y, x + 1)) ensures Covered(comps', p) {
      if p == s {
        assert p in comps'[|comps|];
      } else {
        assert Before(p, s);
        var i :| 0 <= i < |comps| && p in comps[i];
        assert p in comps'[i];
      }
    }
  }

  lemma ScanStart(m: Grid<bool>, y: nat, x: nat, comps: seq<set<Pixel>>)
    requires ScanInv(m, y, x, comps) && IsOn(m, (y, x)) && !Covered(comps, (y, x))
    ensures ScanInv(m, y, x + 1, comps + [Component(m, (y, x))])
  {
    ScanStartFound(m, y, x, comps);
    ScanStartCovers(m, y, x, comps);
  }

  /** The position after `(y, x)` and the sets found once it is visited. */
  function ScanNext(m: Grid<bool>, y: nat, x: nat, comps: seq<set<Pixel>>): (r: (nat, nat, seq<set<Pixel>>))
    requires y < |m| && x <= Width(m)
    ensures r.0 <= |m| && r.1 <= Width(m) && (r.0 == |m| ==> r.1 == 0)
    ensures r.0 > y || (r.0 == y && r.1 > x)
  {
    if x == Width(m) then (y + 1, 0, comps)
    else if m[y][x] && !Covered(comps, (y, x)) then (y, x + 1, comps + [Component(m, (y, x))])
    else (y, x + 1, comps)
  }

  /** One step of the scan keeps the invariant. */
  lemma ScanStep(m: Grid<bool>, y: nat, x: nat, comps: seq<set<Pixel>>)
    requires y < |m| && x <= Width(m) && ScanInv(m, y, x, comps)
    ensures var (y', x', comps') := ScanNext(m, y, x, comps);
      ScanInv(m, y', x', comps') && Scan(m, y, x, comps) == Scan(m, y', x', comps')
  {
    if x == Width(m) {
      ScanNextRow(m, y, comps);
    } else if m[y][x] && !Covered(comps, (y, x)) {
      ScanStart(m, y, x, comps);
    } else {
      ScanSkip(m, y, x, comps);
    }
  }

  lemma {:induction false} ScanLabels(m: Grid<bool>, y: nat, x: nat, comps: seq<set<Pixel>>)
    requires y <= |m| && x <= Width(m)
    requires y == |m| ==> x == 0
    requires ScanInv(m, y, x, comps)
    ensures IsLabelling(m, Scan(m, y, x, comps))
    decreases |m| - y, Width(m) - x
  {
    if y == |m| {
      ScanEnd(m, comps);
    } else {
      ScanStep(m, y, x, comps);
      var (y', x', comps') := ScanNext(m, y, x, comps);
      ScanLabels(m, y', x', comps');
    }
  }

  /** The labelling meets scipy's promises. */
  lemma LabelIsLabelling(m: Grid<bool>)
    ensures IsLabelling(m, Label(m))
  {
    ScanLabels(m, 0, 0, []);
  }

  /** Each label is a maximal 8-connected set: from any of its pixels, a pixel
      carries the same label exactly when a path of on pixels reaches it. */
  lemma LabelsAreComponents(m: Grid<bool>, i: nat, p: Pixel, q: Pixel)
    requires i < |Label(m)| && p in Label(m)[i]
    ensures q in Label(m)[i] <==> Connected(m, p, q)
  {
    LabelIsLabelling(m);
    ComponentOfMember(m, Label(m)[i], p);
    ComponentIsConnected(m, p, q);
  }

  lemma ComponentOfMember(m: Grid<bool>, c: set<Pixel>, p: Pixel)
    requires IsComponent(m, c) && p in c
    ensures IsOn(m, p) && Component(m, p) == c
  {
    assert p in OnPixels(m);
    SameComponent(m, Lead(c), p);
  }

  /** There are no labels exactly when the mask has no on pixel. */
  lemma NoLabelsIffEmpty(m: Grid<bool>)
    ensures |Label(m)| == 0 <==> !AnyOn(m)
  {
    if AnyOn(m) {
      var y, x :| 0 <= y < |m| && 0 <= x < Width(m) && m[y][x];
      OnPixelLabelled(m, (y, x));
    }
    if |Label(m)| > 0 {
      LabelHasPixel(m, 0);
      var p := Lead(Label(m)[0]);
      assert m[p.0][p.1];
    }
  }

  /** Every on pixel carries a label. */
  lemma OnPixelLabelled(m: Grid<bool>, p: Pixel)
    requires IsOn(m, p)
    ensures Covered(Label(m), p)
  {
    LabelIsLabelling(m);
  }

  // ---------------------------------------------------------------------------
  // find_objects

  /** A bounding box as the pair of slices scipy returns: rows
      `[yStart, yStop)`, columns `[xStart, xStop)`. */
  datatype Box = Box(yStart: int, yStop: int, xStart: int, xStop: int)

  predicate Inside(b: Box, p: Pixel)
  {
    b.yStart <= p.0 < b.yStop && b.xStart <= p.1 < b.xStop
  }

  predicate RowHas(c: set<Pixel>, y: int, w: nat)
  {
    exists x | 0 <= x < w :: (y, x) in c
  }

  predicate ColumnHas(c: set<Pixel>, x: int, h: nat)
  {
    exists y | 0 <= y < h :: (y, x) in c
  }

  /** The first row from `y` on, below `h`, holding a pixel of `c`; `h` if none. */
  function FirstRow(c: set<Pixel>, y: nat, h: nat, w: nat): (r: nat)
    requires y <= h
    ensures y <= r <= h
    ensures r < h ==> RowHas(c, r, w)
    ensures forall k :: y <= k < r ==> !RowHas(c, k, w)
    decreases h - y
  {
    if y == h then h else if RowHas(c, y, w) then y else FirstRow(c, y + 1, h, w)
  }

  /** The last row below `y` holding a pixel of `c`; -1 if none. */
  function LastRow(c: set<Pixel>, y: nat, w: nat): (r: int)
    ensures -1 <= r < y
    ensures r >= 0 ==> RowHas(c, r, w)
    ensures forall k :: r < k < y ==> !RowHas(c, k, w)
  {
    if y == 0 then -1 else if RowHas(c, y - 1, w) then y - 1 else LastRow(c, y - 1, w)
  }

  function FirstColumn(c: set<Pixel>, x: nat, w: nat, h: nat): (r: nat)
    requires x <= w
    ensures x <= r <= w
    ensures r < w ==> ColumnHas(c, r, h)
    ensures forall k :: x <= k < r ==> !ColumnHas(c, k, h)
    decreases w - x
  {
    if x == w then w else if ColumnHas(c, x, h) then x else FirstColumn(c, x + 1, w, h)
  }

  function LastColumn(c: set<Pixel>, x: nat, h: nat): (r: int)
    ensures -1 <= r < x
    ensures r >= 0 ==> ColumnHas(c, r, h)
    ensures forall k :: r < k < x ==> !ColumnHas(c, k, h)
  {
    if x == 0 then -1 else if ColumnHas(c, x - 1, h) then x - 1 else LastColumn(c, x - 1, h)
  }

  /** The tight box around the pixels of `c` inside an `h x w` image; `None`
      when it has none there (scipy's entry for a label with no pixel). */
  function BoundingBox(c: set<Pixel>, h: nat, w: nat): (r: Option<Box>)
    ensures r.None? <==> forall p :: p in c ==> !(0 <= p.0 < h && 0 <= p.1 < w)
    ensures r.Some? ==> 0 <= r.value.yStart < r.value.yStop <= h && 0 <= r.value.xStart < r.value.xStop <= w
    ensures r.Some? ==> forall p :: p in c && 0 <= p.0 < h && 0 <= p.1 < w ==> Inside(r.value, p)
  {
    var y0 := FirstRow(c, 0, h, w);
    PixelRowAndColumn(c, h, w);
    if y0 == h then None
    else
      var y1, x0, x1 := LastRow(c, h, w), FirstColumn(c, 0, w, h), LastColumn(c, w, h);
      RowGivesColumn(c, h, w, y0);
      Some(Box(y0, y1 + 1, x0, x1 + 1))
  }

  lemma PixelRowAndColumn(c: set<Pixel>, h: nat, w: nat)
    ensures forall p :: p in c && 0 <= p.0 < h && 0 <= p.1 < w ==> RowHas(c, p.0, w) && ColumnHas(c, p.1, h)
  {
  }

  /** A row holding a pixel of `c` gives a column holding one. */
  lemma RowGivesColumn(c: set<Pixel>, h: nat, w: nat, y: nat)
    requires y < h && RowHas(c, y, w)
    ensures FirstColumn(c, 0, w, h) < w && LastColumn(c, w, h) >= 0
  {
    var x :| 0 <= x < w && (y, x) in c;
    assert ColumnHas(c, x, h);
  }

  /** Each edge of the box touches a pixel of `c`: the box is the smallest one. */
  lemma BoundingBoxTight(c: set<Pixel>, h: nat, w: nat)
    requires BoundingBox(c, h, w).Some?
    ensures var b := BoundingBox(c, h, w).value;
      && (exists p :: p in c && p.0 == b.yStart)
      && (exists p :: p in c && p.0 == b.yStop - 1)
      && (exists p :: p in c && p.1 == b.xStart)
      && (exists p :: p in c && p.1 == b.xStop - 1)
  {
    var b := BoundingBox(c, h, w).value;
    assert RowHas(c, b.yStart, w) && RowHas(c, b.yStop - 1, w);
    assert ColumnHas(c, b.xStart, h) && ColumnHas(c, b.xStop - 1, h);
    var x0 :| 0 <= x0 < w && (b.yStart, x0) in c;
    var x1 :| 0 <= x1 < w && (b.yStop - 1, x1) in c;
    var y0 :| 0 <= y0 < h && (y0, b.xStart) in c;
    var y1 :| 0 <= y1 < h && (y1, b.xStop - 1) in c;
  }

  /** `scipy.ndimage.find_objects(labels)`: entry `i` is the box of label `i + 1`. */
  function FindObjects(m: Grid<bool>, comps: seq<set<Pixel>>): (r: seq<Option<Box>>)
    ensures |r| == |comps|
    ensures forall i :: 0 <= i < |comps| ==>
      (r[i].None? <==> forall p :: p in comps[i] ==> !InGrid(m, p.0, p.1))
    ensures forall i :: 0 <= i < |comps| && r[i].Some? ==>
      0 <= r[i].value.yStart < r[i].value.yStop <= |m| && 0 <= r[i].value.xStart < r[i].value.xStop <= Width(m)
    ensures forall i, p :: 0 <= i < |comps| && r[i].Some? && p in comps[i] && InGrid(m, p.0, p.1) ==>
      Inside(r[i].value, p)
  {
    seq(|comps|, i requires 0 <= i < |comps| => BoundingBox(comps[i], |m|, Width(m)))
  }

  lemma BoundingBoxOfPixel(c: set<Pixel>, h: nat, w: nat, p: Pixel)
    requires p in c && 0 <= p.0 < h && 0 <= p.1 < w
    ensures BoundingBox(c, h, w).Some?
  {
  }

  /** Every label of the labelling has a pixel, so every entry is a box. */
  lemma LabelledObjectsPresent(m: Grid<bool>)
    ensures forall i :: 0 <= i < |Label(m)| ==> FindObjects(m, Label(m))[i].Some?
  {
    var comps := Label(m);
    forall i | 0 <= i < |comps| ensures FindObjects(m, comps)[i].Some? {
      LabelHasPixel(m, i);
    }
  }

  /** The first pixel of a label is an on pixel of the mask. */
  lemma LabelHasPixel(m: Grid<bool>, i: nat)
    requires i < |Label(m)|
    ensures Lead(Label(m)[i]) in Label(m)[i] && IsOn(m, Lead(Label(m)[i]))
  {
    LabelIsLabelling(m);
    assert IsComponent(m, Label(m)[i]);
  }
}
