/** `_parse_features` of specs.py: the feature strip is cut into fixed-width
    columns; each column's icon is classified against the icon catalogue and, on
    a match, the column's text is parsed as the feature's number. Text
    recognition and icon similarity are supplied as oracles. */
module FeatureColumns {
  import opened Grids
  import opened TextFields

  /** Calibration constants of the overlay: column width and icon width in pixels. */
  const FeatureWidth: nat := 205
  const IconWidth: nat := 68

  /** The best similarity must reach this score for the icon to count as found. */
  const MatchThreshold: real := 0.3

  /** The page-segmentation mode the column text is recognised with. */
  const ColumnPsm: nat := 8

  /** An entry of the icon catalogue: the file stem and the loaded image, `None`
      when the image could not be read. */
  datatype Icon<P> = Icon(name: string, image: Option<Grid<P>>)

  /** `(w + 204) // 205`: the number of columns visited. */
  function NumColumns(w: nat): nat
  {
    (w + FeatureWidth - 1) / FeatureWidth
  }

  function ColumnStart(i: nat): nat
  {
    i * FeatureWidth
  }

  /** End of column `i`: numpy clips the slice `x_start:x_start + 205` at `w`. */
  function ColumnEnd(w: nat, i: nat): nat
  {
    if ColumnStart(i) + FeatureWidth <= w then ColumnStart(i) + FeatureWidth else w
  }

  /** The columns tile `[0, w)`: each visited column starts inside the image, all
      but the last are a full 205 pixels wide, and the last one ends at `w`. */
  lemma ColumnsTile(w: nat, i: nat)
    requires i < NumColumns(w)
    ensures ColumnStart(i) < ColumnEnd(w, i) <= w
    ensures ColumnEnd(w, i) - ColumnStart(i) <= FeatureWidth
    ensures i + 1 < NumColumns(w) ==>
      ColumnEnd(w, i) == ColumnStart(i + 1) && ColumnEnd(w, i) - ColumnStart(i) == FeatureWidth
    ensures i + 1 == NumColumns(w) ==> ColumnEnd(w, i) == w
  {
    var n := NumColumns(w);
    assert n * FeatureWidth <= w + FeatureWidth - 1 < (n + 1) * FeatureWidth;
    assert i * FeatureWidth <= (n - 1) * FeatureWidth;
  }

  /** The names and images of the icons that loaded, in catalogue order
      (`for (p, icon) in icons if icon is not None`). */
  function Loaded<P>(icons: seq<Icon<P>>): (r: seq<(string, Grid<P>)>)
    ensures |r| <= |icons|
    ensures (forall i :: 0 <= i < |icons| ==> icons[i].image.None?) <==> r == []
  {
    if icons == [] then []
    else if icons[0].image.Some? then [(icons[0].name, icons[0].image.value)] + Loaded(icons[1..])
    else Loaded(icons[1..])
  }

  /** Exactly the icons whose image was read are kept, with their names. */
  lemma {:induction false} LoadedMembers<P>(icons: seq<Icon<P>>)
    ensures forall j :: 0 <= j < |Loaded(icons)| ==> Icon(Loaded(icons)[j].0, Some(Loaded(icons)[j].1)) in icons
    ensures forall i :: 0 <= i < |icons| && icons[i].image.Some? ==>
      (icons[i].name, icons[i].image.value) in Loaded(icons)
  {
    if icons != [] {
      LoadedMembers(icons[1..]);
      assert forall i :: 1 <= i < |icons| ==> icons[i] == icons[1..][i - 1];
    }
  }

  /** Loading keeps the catalogue order: the icons of a concatenation are those
      of the first part followed by those of the second. */
  lemma {:induction false} LoadedAppend<P>(a: seq<Icon<P>>, b: seq<Icon<P>>)
    ensures Loaded(a + b) == Loaded(a) + Loaded(b)
  {
    if a == [] {
      assert a + b == b;
    } else {
      assert (a + b)[1..] == a[1..] + b;
      LoadedAppend(a[1..], b);
    }
  }

  /** The similarity of `iconArea` to each loaded icon, in order; `None` when
      one of the comparisons raises. */
  function Scores<P>(iconArea: Grid<P>, cands: seq<(string, Grid<P>)>,
                     sim: (Grid<P>, Grid<P>) -> Option<real>): (r: Option<seq<real>>)
    ensures r.None? <==> exists i :: 0 <= i < |cands| && sim(iconArea, cands[i].1).None?
    ensures r.Some? ==> |r.value| == |cands|
    ensures r.Some? ==> forall i :: 0 <= i < |cands| ==> sim(iconArea, cands[i].1) == Some(r.value[i])
  {
    if exists i :: 0 <= i < |cands| && sim(iconArea, cands[i].1).None? then None
    else Some(seq(|cands|, i requires 0 <= i < |cands| => sim(iconArea, cands[i].1).value))
  }

  /** `max(sim, key=score)`: the first entry whose score is not exceeded by any other. */
  function BestIndex(scores: seq<real>): (k: nat)
    requires |scores| > 0
    ensures k < |scores|
    ensures forall j :: 0 <= j < |scores| ==> scores[j] <= scores[k]
    ensures forall j :: 0 <= j < k ==> scores[j] < scores[k]
  {
    if |scores| == 1 then 0
    else
      var k := BestIndex(scores[..|scores| - 1]);
      if scores[|scores| - 1] > scores[k] then |scores| - 1 else k
  }

  predicate IsFeatureKey(k: string)
  {
    |k| >= 8 && k[..8] == "feature_"
  }

  /** Column `i` is wider than its icon, so it has a text part. */
  predicate Wide<P>(img: Grid<P>, i: nat)
  {
    IconWidth < ColumnEnd(Width(img), i) - ColumnStart(i)
  }

  /** The icon area of column `i`: its first 68 pixels. */
  function IconArea<P>(img: Grid<P>, i: nat): Grid<P>
    requires i < NumColumns(Width(img)) && Wide(img, i)
  {
    ColumnsTile(Width(img), i);
    SubGrid(img, 0, Height(img), ColumnStart(i), ColumnStart(i) + IconWidth)
  }

  /** The text part of column `i`: what follows its icon area. */
  function ColumnContent<P>(img: Grid<P>, i: nat): Grid<P>
    requires i < NumColumns(Width(img)) && Wide(img, i)
  {
    ColumnsTile(Width(img), i);
    SubGrid(img, 0, Height(img), ColumnStart(i) + IconWidth, ColumnEnd(Width(img), i))
  }

  /** Column `i` holds text, every similarity is defined and the best one
      reaches the threshold. */
  predicate IsMatch<P>(img: Grid<P>, i: nat, icons: seq<Icon<P>>, sim: (Grid<P>, Grid<P>) -> Option<real>)
    requires i < NumColumns(Width(img))
  {
    && Wide(img, i)
    && |Loaded(icons)| > 0
    && var scores := Scores(IconArea(img, i), Loaded(icons), sim);
       scores.Some? && scores.value[BestIndex(scores.value)] >= MatchThreshold
  }

  /** The name of the best-scoring icon of column `i`. */
  function BestName<P>(img: Grid<P>, i: nat, icons: seq<Icon<P>>, sim: (Grid<P>, Grid<P>) -> Option<real>): string
    requires i < NumColumns(Width(img)) && Wide(img, i) && |Loaded(icons)| > 0
    requires Scores(IconArea(img, i), Loaded(icons), sim).Some?
  {
    Loaded(icons)[BestIndex(Scores(IconArea(img, i), Loaded(icons), sim).value)].0
  }

  /** What column `i` adds to the features: nothing when it is too narrow to
      hold text; `None` when it raises (text recognition fails, no icon loaded
      so `max` sees an empty list, or a similarity raises); else
      `_parse_number` of its text under `feature_<best icon>` when the best
      score reaches 0.3, and nothing when it does not. */
  function ColumnResult<P>(img: Grid<P>, i: nat, icons: seq<Icon<P>>,
                           ocr: (Grid<P>, nat) -> Option<string>,
                           sim: (Grid<P>, Grid<P>) -> Option<real>): (r: Option<Record>)
    requires i < NumColumns(Width(img))
    ensures !Wide(img, i) ==> r == Some(map[])
    ensures Wide(img, i) ==>
      (r.None? <==> ocr(ColumnContent(img, i), ColumnPsm).None? || Loaded(icons) == []
                    || Scores(IconArea(img, i), Loaded(icons), sim).None?)
    ensures r.Some? ==> forall k :: k in r.value ==> IsFeatureKey(k)
    ensures r.Some? && IsMatch(img, i, icons, sim) ==>
      r.value == ParseNumber("feature_" + BestName(img, i, icons, sim), ocr(ColumnContent(img, i), ColumnPsm).value)
    ensures r.Some? && !IsMatch(img, i, icons, sim) ==> r.value == map[]
  {
    if !Wide(img, i) then Some(map[])
    else
      var text := ocr(ColumnContent(img, i), ColumnPsm);
      var cands := Loaded(icons);
      if text.None? || cands == [] then None
      else
        var scores := Scores(IconArea(img, i), cands, sim);
        if scores.None? then None
        else
          var k := BestIndex(scores.value);
          if scores.value[k] >= MatchThreshold then
            var key := "feature_" + cands[k].0;
            assert key[..8] == "feature_";
            Some(ParseNumber(key, text.value))
          else Some(map[])
  }

  /** The column results merged left to right (`features = features | ...`,
      right-biased); `None` once a column raises. */
  function MergeAll(cols: seq<Option<Record>>): (r: Option<Record>)
  {
    if cols == [] then Some(map[])
    else
      var before := MergeAll(cols[..|cols| - 1]);
      var last := cols[|cols| - 1];
      if before.None? || last.None? then None else Some(before.value + last.value)
  }

  /** The results of the first `n` columns, in order. */
  function ColumnResults<P>(img: Grid<P>, n: nat, icons: seq<Icon<P>>,
                            ocr: (Grid<P>, nat) -> Option<string>,
                            sim: (Grid<P>, Grid<P>) -> Option<real>): (r: seq<Option<Record>>)
    requires n <= NumColumns(Width(img))
    ensures |r| == n
    ensures forall i {:trigger r[i]} :: 0 <= i < n ==> r[i] == ColumnResult(img, i, icons, ocr, sim)
  {
    seq(n, i requires 0 <= i < n => ColumnResult(img, i, icons, ocr, sim))
  }

  /** What `_parse_features` returns for the feature strip `img`; it has only
      `feature_*` keys. */
  function Features<P>(img: Grid<P>, icons: seq<Icon<P>>,
                       ocr: (Grid<P>, nat) -> Option<string>,
                       sim: (Grid<P>, Grid<P>) -> Option<real>): (r: Option<Record>)
    ensures forall k :: r.Some? && k in r.value ==> IsFeatureKey(k)
  {
    MergedColumns(img, icons, ocr, sim);
    MergeAll(ColumnResults(img, NumColumns(Width(img)), icons, ocr, sim))
  }

  /** `_parse_features` raises exactly when one of its columns raises. */
  lemma FeaturesRaiseIffColumnRaises<P>(img: Grid<P>, icons: seq<Icon<P>>,
                                        ocr: (Grid<P>, nat) -> Option<string>,
                                        sim: (Grid<P>, Grid<P>) -> Option<real>)
    ensures Features(img, icons, ocr, sim).None? <==>
      exists i :: 0 <= i < NumColumns(Width(img)) && ColumnResult(img, i, icons, ocr, sim).None?
  {
    MergedColumns(img, icons, ocr, sim);
  }

  /** The merge of all the columns raises exactly when one column raises, and
      has only `feature_*` keys. */
  lemma MergedColumns<P>(img: Grid<P>, icons: seq<Icon<P>>,
                         ocr: (Grid<P>, nat) -> Option<string>,
                         sim: (Grid<P>, Grid<P>) -> Option<real>)
    ensures var m := MergeAll(ColumnResults(img, NumColumns(Width(img)), icons, ocr, sim));
      && (m.None? <==> exists i :: 0 <= i < NumColumns(Width(img)) && ColumnResult(img, i, icons, ocr, sim).None?)
      && (forall k :: m.Some? && k in m.value ==> IsFeatureKey(k))
  {
    var n := NumColumns(Width(img));
    var cols := ColumnResults(img, n, icons, ocr, sim);
    FailsIffSomeColumnFails(cols);
    forall i | 0 <= i < n && ColumnResult(img, i, icons, ocr, sim).None?
      ensures cols[i].None?
    {
    }
    MergedFeatureKeys(cols);
  }

  /** The body of `_parse_features`'s loop for column `i`: skip a column too
      narrow for text, else recognise its text, score its icon area against
      every loaded icon and, on a match, parse the number. */
  method ReadColumn<P>(img: Grid<P>, i: nat, icons: seq<Icon<P>>,
                       ocr: (Grid<P>, nat) -> Option<string>,
                       sim: (Grid<P>, Grid<P>) -> Option<real>) returns (r: Option<Record>)
    requires i < NumColumns(Width(img))
    ensures r == ColumnResult(img, i, icons, ocr, sim)
  {
    var h, w := Height(img), Width(img);
    ColumnsTile(w, i);
    var xStart := i * FeatureWidth;
    var xEnd := if xStart + FeatureWidth <= w then xStart + FeatureWidth else w;
    if IconWidth >= xEnd - xStart {
      return Some(map[]);
    }
    var content := SubGrid(img, 0, h, xStart + IconWidth, xEnd);
    var text := ocr(content, ColumnPsm);
    if text.None? {
      return None;
    }
    var iconArea := SubGrid(img, 0, h, xStart, xStart + IconWidth);
    var cands := Loaded(icons);
    if |cands| == 0 {
      return None;
    }
    var scores := Scores(iconArea, cands, sim);
    if scores.None? {
      return None;
    }
    var k := BestIndex(scores.value);
    r := Some(map[]);
    if scores.value[k] >= MatchThreshold {
      r := Some(ParseNumber("feature_" + cands[k].0, text.value));
    }
  }

  /** `_parse_features(key, text, img)`: the loop over the columns, accumulating
      the features dict. `None` stands for the exception a column raises. */
  method ParseFeatures<P>(img: Grid<P>, icons: seq<Icon<P>>,
                          ocr: (Grid<P>, nat) -> Option<string>,
                          sim: (Grid<P>, Grid<P>) -> Option<real>) returns (r: Option<Record>)
    ensures r == Features(img, icons, ocr, sim)
  {
    var w := Width(img);
    var nCols := (w + FeatureWidth - 1) / FeatureWidth;
    ghost var all := ColumnResults(img, nCols, icons, ocr, sim);
    var features: Record := map[];
    var i := 0;
    while i < nCols
      invariant 0 <= i <= nCols
      invariant MergeAll(all[..i]) == Some(features)
    {
      var added := ReadColumn(img, i, icons, ocr, sim);
      MergeStep(all, i, features);
      if added.None? {
        return None;
      }
      features := features + added.value;
      i := i + 1;
    }
    assert all[..nCols] == all;
    r := Some(features);
  }

  /** One more column merged: a column that raises makes the whole merge raise,
      one that runs adds its keys on top of the merge so far. */
  lemma MergeStep(cols: seq<Option<Record>>, i: nat, features: Record)
    requires i < |cols| && MergeAll(cols[..i]) == Some(features)
    ensures cols[i].None? ==> MergeAll(cols).None?
    ensures cols[i].Some? ==> MergeAll(cols[..i + 1]) == Some(features + cols[i].value)
  {
    assert cols[..i + 1][..i] == cols[..i];
    if cols[i].None? {
      FailureSticks(cols, i + 1);
    }
  }

  /** Once a column has raised, the whole parse has. */
  lemma {:induction false} FailureSticks(cols: seq<Option<Record>>, m: nat)
    requires m <= |cols|
    requires MergeAll(cols[..m]).None?
    ensures MergeAll(cols).None?
    decreases |cols| - m
  {
    if m < |cols| {
      assert cols[..m + 1][..m] == cols[..m];
      FailureSticks(cols, m + 1);
    } else {
      assert cols[..m] == cols;
    }
  }

  /** The merge raises exactly when one of the columns does. */
  lemma {:induction false} FailsIffSomeColumnFails(cols: seq<Option<Record>>)
    ensures MergeAll(cols).None? <==> exists i :: 0 <= i < |cols| && cols[i].None?
  {
    if cols != [] {
      var init := cols[..|cols| - 1];
      FailsIffSomeColumnFails(init);
      if exists i :: 0 <= i < |init| && init[i].None? {
        var i :| 0 <= i < |init| && init[i].None?;
        assert cols[i].None?;
      }
    }
  }

  /** Every key the merge produces comes from some column. */
  lemma {:induction false} OnlyColumnKeys(cols: seq<Option<Record>>, k: string)
    requires MergeAll(cols).Some? && k in MergeAll(cols).value
    ensures exists i :: 0 <= i < |cols| && cols[i].Some? && k in cols[i].value
  {
    var last := cols[|cols| - 1];
    if k !in last.value {
      OnlyColumnKeys(cols[..|cols| - 1], k);
      var i :| 0 <= i < |cols| - 1 && cols[..|cols| - 1][i].Some? && k in cols[..|cols| - 1][i].value;
      assert cols[i] == cols[..|cols| - 1][i];
    }
  }

  /** A merge of columns that produce only `feature_*` keys produces only such keys. */
  lemma MergedFeatureKeys(cols: seq<Option<Record>>)
    requires forall i :: 0 <= i < |cols| && cols[i].Some? ==> forall k :: k in cols[i].value ==> IsFeatureKey(k)
    ensures MergeAll(cols).Some? ==> forall k :: k in MergeAll(cols).value ==> IsFeatureKey(k)
  {
    if MergeAll(cols).Some? {
      forall k | k in MergeAll(cols).value
        ensures IsFeatureKey(k)
      {
        OnlyColumnKeys(cols, k);
      }
    }
  }

  /** Column `i` runs without raising and produces key `k`. */
  predicate Adds(cols: seq<Option<Record>>, i: nat, k: string)
  {
    i < |cols| && cols[i].Some? && k in cols[i].value
  }

  /** Each key of the merge, and its value, comes from the LAST column that
      produced the key: a later column overwrites an earlier one. */
  lemma {:induction false} KeyFromLastColumn(cols: seq<Option<Record>>, k: string)
    requires MergeAll(cols).Some? && k in MergeAll(cols).value
    ensures exists i :: (0 <= i < |cols| && Adds(cols, i, k)
      && MergeAll(cols).value[k] == cols[i].value[k]
      && (forall j :: i < j < |cols| ==> !Adds(cols, j, k)))
  {
    var n := |cols|;
    var init := cols[..n - 1];
    if k in cols[n - 1].value {
      assert Adds(cols, n - 1, k);
    } else {
      KeyFromLastColumn(init, k);
      var i :| 0 <= i < n - 1 && Adds(init, i, k) && MergeAll(init).value[k] == init[i].value[k]
        && (forall j :: i < j < n - 1 ==> !Adds(init, j, k));
      assert Adds(cols, i, k);
      assert forall j :: i < j < n - 1 ==> cols[j] == init[j];
      assert forall j :: i < j < n ==> !Adds(cols, j, k);
    }
  }

  /** Conversely, every key a column produces is in the merge, when no column raises. */
  lemma {:induction false} ColumnKeyKept(cols: seq<Option<Record>>, i: nat, k: string)
    requires MergeAll(cols).Some?
    requires Adds(cols, i, k)
    ensures k in MergeAll(cols).value
  {
    var n := |cols|;
    if i < n - 1 {
      assert Adds(cols[..n - 1], i, k);
      ColumnKeyKept(cols[..n - 1], i, k);
    }
  }

  /** When no column raises, the keys of `_parse_features` are exactly
      `feature_<best icon>` of the columns whose best score reaches 0.3. */
  lemma MatchedKeys<P>(img: Grid<P>, icons: seq<Icon<P>>,
                       ocr: (Grid<P>, nat) -> Option<string>,
                       sim: (Grid<P>, Grid<P>) -> Option<real>)
    requires Features(img, icons, ocr, sim).Some?
    ensures Features(img, icons, ocr, sim).value.Keys ==
      set i | 0 <= i < NumColumns(Width(img)) && IsMatch(img, i, icons, sim) :: "feature_" + BestName(img, i, icons, sim)
  {
    var n := NumColumns(Width(img));
    var f := Features(img, icons, ocr, sim).value;
    var matched := set i | 0 <= i < n && IsMatch(img, i, icons, sim) :: "feature_" + BestName(img, i, icons, sim);
    forall k | k in f ensures k in matched {
      var i := KeyFromMatchedColumn(img, icons, ocr, sim, k);
    }
    forall k | k in matched ensures k in f {
      var i :| 0 <= i < n && IsMatch(img, i, icons, sim) && k == "feature_" + BestName(img, i, icons, sim);
      MatchedColumnKept(img, icons, ocr, sim, i);
    }
  }

  /** Each key of the features names the best icon of a matching column. */
  lemma KeyFromMatchedColumn<P>(img: Grid<P>, icons: seq<Icon<P>>,
                                ocr: (Grid<P>, nat) -> Option<string>,
                                sim: (Grid<P>, Grid<P>) -> Option<real>, k: string) returns (i: nat)
    requires Features(img, icons, ocr, sim).Some? && k in Features(img, icons, ocr, sim).value
    ensures i < NumColumns(Width(img)) && IsMatch(img, i, icons, sim) && k == "feature_" + BestName(img, i, icons, sim)
  {
    var cols := ColumnResults(img, NumColumns(Width(img)), icons, ocr, sim);
    OnlyColumnKeys(cols, k);
    i :| 0 <= i < |cols| && cols[i].Some? && k in cols[i].value;
  }

  /** The best icon of each matching column gives a key of the features. */
  lemma MatchedColumnKept<P>(img: Grid<P>, icons: seq<Icon<P>>,
                             ocr: (Grid<P>, nat) -> Option<string>,
                             sim: (Grid<P>, Grid<P>) -> Option<real>, i: nat)
    requires Features(img, icons, ocr, sim).Some?
    requires i < NumColumns(Width(img)) && IsMatch(img, i, icons, sim)
    ensures "feature_" + BestName(img, i, icons, sim) in Features(img, icons, ocr, sim).value
  {
    var cols := ColumnResults(img, NumColumns(Width(img)), icons, ocr, sim);
    assert cols[i] == ColumnResult(img, i, icons, ocr, sim);
    FailsIffSomeColumnFails(cols);
    assert Adds(cols, i, "feature_" + BestName(img, i, icons, sim));
    ColumnKeyKept(cols, i, "feature_" + BestName(img, i, icons, sim));
  }
}
