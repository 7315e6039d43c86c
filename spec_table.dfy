/** The `SPECS` table and `extract_specifications` of specs.py: every field of
    the overlay is cropped, recognised and parsed in table order, and merged
    into one record; a field that raises is left out and the walk goes on. */
module SpecTable {
  import opened Grids
  import opened Crop
  import opened TextFields
  import opened FeatureColumns

  /** The parsers a table entry can name. */
  datatype Parser = NameCategoryParser | NumberParser | FeaturesParser | VehicleDurabilityParser

  /** One entry of `SPECS`: its key, its optional 'y' and 'x' anchors and its optional parser. */
  datatype FieldSpec = FieldSpec(key: string, y: Option<AnchorPair>, x: Option<AnchorPair>, parse: Option<Parser>)
  {
    predicate NeedsCrop() { x.Some? && y.Some? }
  }

  /** The page-segmentation mode of `ocr_image`'s default call. */
  const DefaultPsm: nat := 6

  /** `SPECS`, in its declaration (and iteration) order. */
  const Specs: seq<FieldSpec> := [
    FieldSpec("name_category", Some(AnchorPair("Top", 5, "Top", 192)),
              Some(AnchorPair("Left", 150, "Right", 5)), Some(NameCategoryParser)),
    FieldSpec("powerscore", Some(AnchorPair("Bottom", 328, "Bottom", 448)),
              Some(AnchorPair("Left", 26, "Right", 0)), Some(NumberParser)),
    FieldSpec("features", Some(AnchorPair("Bottom", 178, "Bottom", 268)),
              Some(AnchorPair("Left", 26, "Right", 26)), Some(FeaturesParser)),
    FieldSpec("durability", Some(AnchorPair("Bottom", 95, "Bottom", 178)),
              Some(AnchorPair("Right", 170, "Right", 320)), Some(NumberParser)),
    FieldSpec("mass", Some(AnchorPair("Bottom", 28, "Bottom", 100)),
              Some(AnchorPair("Right", 170, "Right", 326)), Some(NumberParser)),
    FieldSpec("vehicle_durability", None, None, Some(VehicleDurabilityParser))
  ]

  /** The parser applied to the text and image of one entry. */
  function Parse<P>(spec: FieldSpec, text: string, img: Grid<P>, icons: seq<Icon<P>>,
                    ocr: (Grid<P>, nat) -> Option<string>,
                    sim: (Grid<P>, Grid<P>) -> Option<real>): Option<Record>
  {
    match spec.parse
    case None => Some(map[spec.key := Str(text)])
    case Some(NameCategoryParser) => Some(ParseNameCategory(text))
    case Some(NumberParser) => Some(ParseNumber(spec.key, text))
    case Some(VehicleDurabilityParser) => Some(ParseVehicleDurability(spec.key, text))
    case Some(FeaturesParser) => Features(img, icons, ocr, sim)
  }

  /** The image an entry is read from: its crop when both anchors are given,
      else the whole image. */
  function FieldImage<P>(img: Grid<P>, spec: FieldSpec): Result<Grid<P>, Region>
  {
    if spec.NeedsCrop() then CropBySpec(img, CropSpec(spec.y.value, spec.x.value)) else Ok(img)
  }

  /** The body of the `try` for one entry: crop (when both anchors are given) and
      recognise the crop, or reuse the whole image and its full text; then parse.
      `None` stands for any exception the body raises. An entry that runs adds
      only keys it may add. */
  function SpecOutcome<P>(img: Grid<P>, spec: FieldSpec, fullText: string, icons: seq<Icon<P>>,
                          ocr: (Grid<P>, nat) -> Option<string>,
                          sim: (Grid<P>, Grid<P>) -> Option<real>): (r: Option<Record>)
    ensures forall k :: r.Some? && k in r.value ==> MayAdd(spec, k)
  {
    var crop := FieldImage(img, spec);
    if crop.Err? then None
    else
      var text := if spec.NeedsCrop() then ocr(crop.value, DefaultPsm) else Some(fullText);
      if text.None? then None else Parse(spec, text.value, crop.value, icons, ocr, sim)
  }

  /** An entry raises exactly when its crop is empty, the recognition of its
      crop fails, or it is the features entry and the features loop raises.
      The other parsers are modelled as never raising: the length limit on the
      digit strings that Python's `int` converts is not modelled. */
  lemma SpecOutcomeRaises<P>(img: Grid<P>, spec: FieldSpec, fullText: string, icons: seq<Icon<P>>,
                             ocr: (Grid<P>, nat) -> Option<string>,
                             sim: (Grid<P>, Grid<P>) -> Option<real>)
    ensures SpecOutcome(img, spec, fullText, icons, ocr, sim).None? <==>
      (|| FieldImage(img, spec).Err?
       || (spec.NeedsCrop() && ocr(FieldImage(img, spec).value, DefaultPsm).None?)
       || (spec.parse == Some(FeaturesParser) && Features(FieldImage(img, spec).value, icons, ocr, sim).None?))
  {
  }

  /** `info = info | partial` when the entry succeeded; `info` unchanged when it raised. */
  function Step(info: Record, outcome: Option<Record>): (r: Record)
    ensures outcome.None? ==> r == info
    ensures outcome.Some? ==> r.Keys == info.Keys + outcome.value.Keys
    ensures outcome.Some? ==> forall k :: k in outcome.value ==> r[k] == outcome.value[k]
    ensures outcome.Some? ==> forall k :: k in info && k !in outcome.value ==> r[k] == info[k]
  {
    if outcome.Some? then info + outcome.value else info
  }

  /** The record after the entries whose outcomes are `outcomes`, in order. */
  function Accumulate(info: Record, outcomes: seq<Option<Record>>): Record
  {
    if outcomes == [] then info
    else Step(Accumulate(info, outcomes[..|outcomes| - 1]), outcomes[|outcomes| - 1])
  }

  /** The outcomes of the entries of `specs`. */
  function Outcomes<P>(img: Grid<P>, specs: seq<FieldSpec>, fullText: string, icons: seq<Icon<P>>,
                       ocr: (Grid<P>, nat) -> Option<string>,
                       sim: (Grid<P>, Grid<P>) -> Option<real>): (r: seq<Option<Record>>)
    ensures |r| == |specs|
    ensures forall i {:trigger r[i]} :: 0 <= i < |specs| ==> r[i] == SpecOutcome(img, specs[i], fullText, icons, ocr, sim)
  {
    seq(|specs|, i requires 0 <= i < |specs| => SpecOutcome(img, specs[i], fullText, icons, ocr, sim))
  }

  /** What `extract_specifications(bbox)` returns; `None` when the whole-image
      recognition, which is outside the `try`, raises. */
  function Extract<P>(img: Grid<P>, icons: seq<Icon<P>>,
                      ocr: (Grid<P>, nat) -> Option<string>,
                      sim: (Grid<P>, Grid<P>) -> Option<real>): Option<Record>
  {
    ExtractWith(img, Specs, icons, ocr, sim)
  }

  /** The same walk over any table `specs`. */
  function ExtractWith<P>(img: Grid<P>, specs: seq<FieldSpec>, icons: seq<Icon<P>>,
                          ocr: (Grid<P>, nat) -> Option<string>,
                          sim: (Grid<P>, Grid<P>) -> Option<real>): Option<Record>
  {
    var text := ocr(img, DefaultPsm);
    if text.None? then None
    else Some(Accumulate(map["text" := Str(text.value)], Outcomes(img, specs, text.value, icons, ocr, sim)))
  }

  /** The body of the `try` block, as a method (it calls the features loop). */
  method ApplySpec<P>(img: Grid<P>, spec: FieldSpec, info: Record, icons: seq<Icon<P>>,
                      ocr: (Grid<P>, nat) -> Option<string>,
                      sim: (Grid<P>, Grid<P>) -> Option<real>) returns (r: Option<Record>)
    requires "text" in info && info["text"].Str?
    ensures r == SpecOutcome(img, spec, info["text"].s, icons, ocr, sim)
  {
    var crop := img;
    var text := info["text"].s;
    if spec.NeedsCrop() {
      var c := CropBySpec(img, CropSpec(spec.y.value, spec.x.value));
      if c.Err? {
        return None;
      }
      crop := c.value;
      var t := ocr(crop, DefaultPsm);
      if t.None? {
        return None;
      }
      text := t.value;
    }
    match spec.parse {
      case None => r := Some(map[spec.key := Str(text)]);
      case Some(NameCategoryParser) => r := Some(ParseNameCategory(text));
      case Some(NumberParser) => r := Some(ParseNumber(spec.key, text));
      case Some(VehicleDurabilityParser) => r := Some(ParseVehicleDurability(spec.key, text));
      case Some(FeaturesParser) => r := ParseFeatures(crop, icons, ocr, sim);
    }
  }

  /** The keys an entry of `Specs` can add: its own key, `name` and `category`,
      or `feature_<name>`; never `text`. */
  predicate MayAdd(spec: FieldSpec, k: string)
  {
    match spec.parse
    case Some(NameCategoryParser) => k == "name" || k == "category"
    case Some(FeaturesParser) => IsFeatureKey(k)
    case _ => k == spec.key
  }

  /** An entry whose own key is not `text` never overwrites the full text. */
  lemma NoEntryWritesText<P>(img: Grid<P>, spec: FieldSpec, fullText: string, icons: seq<Icon<P>>,
                             ocr: (Grid<P>, nat) -> Option<string>,
                             sim: (Grid<P>, Grid<P>) -> Option<real>)
    requires spec.key != "text"
    ensures var o := SpecOutcome(img, spec, fullText, icons, ocr, sim);
            o.Some? ==> "text" !in o.value
  {
    NotFeatureKey("text");
  }

  /** `extract_specifications(bbox)`: OCR of the whole image, then the walk over
      the table; an entry that raises leaves the record as it was. */
  method ExtractSpecifications<P>(img: Grid<P>, icons: seq<Icon<P>>,
                                  ocr: (Grid<P>, nat) -> Option<string>,
                                  sim: (Grid<P>, Grid<P>) -> Option<real>) returns (r: Option<Record>)
    ensures r == Extract(img, icons, ocr, sim)
  {
    r := ExtractTable(img, Specs, icons, ocr, sim);
  }

  /** The walk of `extract_specifications` over any table none of whose keys is `text`. */
  method ExtractTable<P>(img: Grid<P>, specs: seq<FieldSpec>, icons: seq<Icon<P>>,
                         ocr: (Grid<P>, nat) -> Option<string>,
                         sim: (Grid<P>, Grid<P>) -> Option<real>) returns (r: Option<Record>)
    requires forall i :: 0 <= i < |specs| ==> specs[i].key != "text"
    ensures r == ExtractWith(img, specs, icons, ocr, sim)
  {
    var fullText := ocr(img, DefaultPsm);
    if fullText.None? {
      return None;
    }
    ghost var start: Record := map["text" := Str(fullText.value)];
    ghost var outs := Outcomes(img, specs, fullText.value, icons, ocr, sim);
    var info: Record := map["text" := Str(fullText.value)];
    var i := 0;
    while i < |specs|
      invariant 0 <= i <= |specs|
      invariant info == Accumulate(start, outs[..i])
      invariant "text" in info && info["text"] == Str(fullText.value)
    {
      var partial := ApplySpec(img, specs[i], info, icons, ocr, sim);
      TableStep(img, specs, fullText.value, icons, ocr, sim, i, info);
      if partial.Some? {
        info := info + partial.value;
      }
      i := i + 1;
    }
    assert outs[..|specs|] == outs;
    r := Some(info);
  }

  /** One entry of the walk: merging its outcome extends the accumulation by
      one entry and keeps the full text. */
  lemma TableStep<P>(img: Grid<P>, specs: seq<FieldSpec>, fullText: string, icons: seq<Icon<P>>,
                     ocr: (Grid<P>, nat) -> Option<string>,
                     sim: (Grid<P>, Grid<P>) -> Option<real>, i: nat, info: Record)
    requires i < |specs| && specs[i].key != "text"
    requires info == Accumulate(map["text" := Str(fullText)], Outcomes(img, specs, fullText, icons, ocr, sim)[..i])
    requires "text" in info && info["text"] == Str(fullText)
    ensures var next := Step(info, SpecOutcome(img, specs[i], fullText, icons, ocr, sim));
      && next == Accumulate(map["text" := Str(fullText)], Outcomes(img, specs, fullText, icons, ocr, sim)[..i + 1])
      && "text" in next && next["text"] == Str(fullText)
  {
    var outs := Outcomes(img, specs, fullText, icons, ocr, sim);
    assert outs[..i + 1][..i] == outs[..i];
    NoEntryWritesText(img, specs[i], fullText, icons, ocr, sim);
  }

  // ---------------------------------------------------------------------------
  // The accumulation, for any outcomes

  /** Entry `i` ran without raising and produced key `k`. */
  predicate Produces(outcomes: seq<Option<Record>>, i: int, k: string)
  {
    0 <= i < |outcomes| && outcomes[i].Some? && k in outcomes[i].value
  }

  /** A key is in the record iff it was there at the start or some entry produced it. */
  lemma {:induction false} AccumulateKeys(info: Record, outcomes: seq<Option<Record>>, k: string)
    ensures k in Accumulate(info, outcomes) <==> k in info || exists i :: Produces(outcomes, i, k)
  {
    if outcomes != [] {
      var n := |outcomes|;
      var init := outcomes[..n - 1];
      AccumulateKeys(info, init, k);
      assert k in Accumulate(info, outcomes) <==> k in Accumulate(info, init) || Produces(outcomes, n - 1, k);
      assert forall i :: Produces(init, i, k) ==> Produces(outcomes, i, k);
      assert forall i :: Produces(outcomes, i, k) ==> Produces(init, i, k) || i == n - 1;
    }
  }

  /** A key no entry produced keeps its starting value. */
  lemma {:induction false} AccumulateUntouched(info: Record, outcomes: seq<Option<Record>>, k: string)
    requires k in info
    requires forall i :: !Produces(outcomes, i, k)
    ensures k in Accumulate(info, outcomes) && Accumulate(info, outcomes)[k] == info[k]
  {
    if outcomes != [] {
      var n := |outcomes|;
      var init := outcomes[..n - 1];
      assert forall i :: Produces(init, i, k) ==> Produces(outcomes, i, k);
      AccumulateUntouched(info, init, k);
      assert !Produces(outcomes, n - 1, k);
    }
  }

  /** Right-biased merge: a key takes the value of the last entry that produced it. */
  lemma {:induction false} AccumulateLastWriter(info: Record, outcomes: seq<Option<Record>>, i: nat, k: string)
    requires Produces(outcomes, i, k)
    requires forall j :: i < j ==> !Produces(outcomes, j, k)
    ensures k in Accumulate(info, outcomes) && Accumulate(info, outcomes)[k] == outcomes[i].value[k]
  {
    var n := |outcomes|;
    var init := outcomes[..n - 1];
    if i < n - 1 {
      assert Produces(init, i, k);
      assert forall j :: Produces(init, j, k) ==> Produces(outcomes, j, k);
      AccumulateLastWriter(info, init, i, k);
      assert !Produces(outcomes, n - 1, k);
    }
  }

  /** Per-entry isolation: an entry that raises leaves the record exactly as if it
      were not in the table at all. */
  lemma {:induction false} FailingEntryIsInvisible(info: Record, outcomes: seq<Option<Record>>, j: nat)
    requires j < |outcomes| && outcomes[j].None?
    ensures Accumulate(info, outcomes) == Accumulate(info, outcomes[..j] + outcomes[j + 1..])
  {
    var n := |outcomes|;
    if j == n - 1 {
      assert outcomes[..j] + outcomes[j + 1..] == outcomes[..n - 1];
    } else {
      var init := outcomes[..n - 1];
      FailingEntryIsInvisible(info, init, j);
      var rest := outcomes[..j] + outcomes[j + 1..];
      assert rest[..|rest| - 1] == init[..j] + init[j + 1..];
      assert rest[|rest| - 1] == outcomes[n - 1];
    }
  }

  // ---------------------------------------------------------------------------
  // extract_specifications over the SPECS table

  /** The result of the whole-image recognition is always in the record, under `text`. */
  lemma TextAlwaysPresent<P>(img: Grid<P>, icons: seq<Icon<P>>,
                             ocr: (Grid<P>, nat) -> Option<string>,
                             sim: (Grid<P>, Grid<P>) -> Option<real>)
    ensures Extract(img, icons, ocr, sim).None? <==> ocr(img, DefaultPsm).None?
    ensures Extract(img, icons, ocr, sim).Some? ==>
      "text" in Extract(img, icons, ocr, sim).value
      && Extract(img, icons, ocr, sim).value["text"] == Str(ocr(img, DefaultPsm).value)
  {
    var text := ocr(img, DefaultPsm);
    if text.Some? {
      var outs := Outcomes(img, Specs, text.value, icons, ocr, sim);
      NotFeatureKey("text");
      forall i ensures !Produces(outs, i, "text") {
        if 0 <= i < |outs| {
          assert outs[i] == SpecOutcome(img, Specs[i], text.value, icons, ocr, sim);
        }
      }
      AccumulateUntouched(map["text" := Str(text.value)], outs, "text");
    }
  }

  /** The shape of the table: six entries with distinct keys, none of them
      `text`; the first five are cropped, the last reads the whole image. */
  lemma SpecsEntries()
    ensures |Specs| == 6
    ensures forall i, j :: 0 <= i < j < |Specs| ==> Specs[i].key != Specs[j].key
    ensures forall i :: 0 <= i < |Specs| ==> Specs[i].key != "text"
    ensures forall i :: 0 <= i < 5 ==> Specs[i].NeedsCrop()
    ensures !Specs[5].NeedsCrop() && Specs[5].parse == Some(VehicleDurabilityParser)
  {
  }

  /** The name/category entry, on an image at least 193 rows high and 156
      columns wide: rows 5 to 192 from the top, columns 150 from the left to 5
      from the right. */
  lemma NameCategoryRegion(h: int, w: int)
    requires h >= 193 && w >= 156
    ensures ResolveRegion(CropSpec(Specs[0].y.value, Specs[0].x.value), h, w) == Region(5, 192, 150, w - 5)
  {
    assert SpellsIgnoringCase("Top", "top");
    assert SpellsIgnoringCase("Left", "left");
    assert !SpellsIgnoringCase("Right", "left");
  }

  /** Different entries of the table can never produce the same key. */
  lemma EntriesDisjoint(i: nat, j: nat, k: string)
    requires i < j < |Specs|
    ensures !(MayAdd(Specs[i], k) && MayAdd(Specs[j], k))
  {
    NotFeatureKey("name");
    NotFeatureKey("category");
    NotFeatureKey("powerscore");
    NotFeatureKey("durability");
    NotFeatureKey("mass");
    NotFeatureKey("vehicle_durability");
  }

  lemma NotFeatureKey(k: string)
    requires |k| > 0 && k[0] != 'f'
    ensures !IsFeatureKey(k)
  {
    if |k| >= 8 { assert k[..8][0] == k[0]; }
  }

  /** Every key of the record is `text` or one an entry of the table may add. */
  lemma RecordKeys<P>(img: Grid<P>, icons: seq<Icon<P>>,
                      ocr: (Grid<P>, nat) -> Option<string>,
                      sim: (Grid<P>, Grid<P>) -> Option<real>, k: string)
    requires Extract(img, icons, ocr, sim).Some? && k in Extract(img, icons, ocr, sim).value
    ensures k == "text" || exists i :: 0 <= i < |Specs| && MayAdd(Specs[i], k)
  {
    var text := ocr(img, DefaultPsm).value;
    var outs := Outcomes(img, Specs, text, icons, ocr, sim);
    AccumulateKeys(map["text" := Str(text)], outs, k);
    if k != "text" {
      var i :| Produces(outs, i, k);
    }
  }

  /** No entry overwrites another: every value an entry produced is in the record. */
  lemma EntryValueKept<P>(img: Grid<P>, icons: seq<Icon<P>>,
                          ocr: (Grid<P>, nat) -> Option<string>,
                          sim: (Grid<P>, Grid<P>) -> Option<real>, i: nat, k: string)
    requires ocr(img, DefaultPsm).Some? && i < |Specs|
    requires var o := SpecOutcome(img, Specs[i], ocr(img, DefaultPsm).value, icons, ocr, sim);
      o.Some? && k in o.value
    ensures var o := SpecOutcome(img, Specs[i], ocr(img, DefaultPsm).value, icons, ocr, sim);
      k in Extract(img, icons, ocr, sim).value && Extract(img, icons, ocr, sim).value[k] == o.value[k]
  {
    var text := ocr(img, DefaultPsm).value;
    var outs := Outcomes(img, Specs, text, icons, ocr, sim);
    forall j | i < j ensures !Produces(outs, j, k) {
      if Produces(outs, j, k) {
        EntriesDisjoint(i, j, k);
      }
    }
    AccumulateLastWriter(map["text" := Str(text)], outs, i, k);
  }

  /** A field whose entry raises is absent from the record, never defaulted. */
  lemma FailedEntryAbsent<P>(img: Grid<P>, icons: seq<Icon<P>>,
                             ocr: (Grid<P>, nat) -> Option<string>,
                             sim: (Grid<P>, Grid<P>) -> Option<real>, i: nat, k: string)
    requires ocr(img, DefaultPsm).Some?
    requires i < |Specs| && SpecOutcome(img, Specs[i], ocr(img, DefaultPsm).value, icons, ocr, sim).None?
    requires MayAdd(Specs[i], k)
    ensures k !in Extract(img, icons, ocr, sim).value
  {
    var text := ocr(img, DefaultPsm).value;
    var outs := Outcomes(img, Specs, text, icons, ocr, sim);
    AccumulateKeys(map["text" := Str(text)], outs, k);
    forall j ensures !Produces(outs, j, k) {
      if Produces(outs, j, k) {
        SoleEntryForKey(i, j, k);
      }
    }
    NoEntryAddsText(i, k);
  }

  /** No entry of the table may add the key `text`. */
  lemma NoEntryAddsText(i: nat, k: string)
    requires i < |Specs| && MayAdd(Specs[i], k)
    ensures k != "text"
  {
    NotFeatureKey("text");
  }

  /** At most one entry of the table may add a given key. */
  lemma SoleEntryForKey(i: nat, j: nat, k: string)
    requires i < |Specs| && j < |Specs|
    requires MayAdd(Specs[i], k) && MayAdd(Specs[j], k)
    ensures i == j
  {
    if i < j {
      EntriesDisjoint(i, j, k);
    } else if j < i {
      EntriesDisjoint(j, i, k);
    }
  }

  /** `vehicle_durability` has no anchors: it is always parsed from the
      whole-image text, and nothing can make it fail. */
  lemma VehicleDurabilityFromFullText<P>(img: Grid<P>, icons: seq<Icon<P>>,
                                         ocr: (Grid<P>, nat) -> Option<string>,
                                         sim: (Grid<P>, Grid<P>) -> Option<real>)
    requires ocr(img, DefaultPsm).Some?
    ensures var r := Extract(img, icons, ocr, sim).value;
      "vehicle_durability" in r
      && r["vehicle_durability"]
         == ParseVehicleDurability("vehicle_durability", ocr(img, DefaultPsm).value)["vehicle_durability"]
  {
    EntryValueKept(img, icons, ocr, sim, 5, "vehicle_durability");
  }

  /** Isolation at the level of the table: when entry `j` raises, the record is
      the one the table without entry `j` gives. */
  lemma FailingSpecIsInvisible<P>(img: Grid<P>, icons: seq<Icon<P>>,
                                  ocr: (Grid<P>, nat) -> Option<string>,
                                  sim: (Grid<P>, Grid<P>) -> Option<real>, j: nat)
    requires ocr(img, DefaultPsm).Some?
    requires j < |Specs| && SpecOutcome(img, Specs[j], ocr(img, DefaultPsm).value, icons, ocr, sim).None?
    ensures Extract(img, icons, ocr, sim) == ExtractWith(img, Specs[..j] + Specs[j + 1..], icons, ocr, sim)
  {
    FailingTableEntryIsInvisible(img, Specs, icons, ocr, sim, j);
  }

  /** The same isolation for any table `specs`. */
  lemma FailingTableEntryIsInvisible<P>(img: Grid<P>, specs: seq<FieldSpec>, icons: seq<Icon<P>>,
                                        ocr: (Grid<P>, nat) -> Option<string>,
                                        sim: (Grid<P>, Grid<P>) -> Option<real>, j: nat)
    requires ocr(img, DefaultPsm).Some?
    requires j < |specs| && SpecOutcome(img, specs[j], ocr(img, DefaultPsm).value, icons, ocr, sim).None?
    ensures ExtractWith(img, specs, icons, ocr, sim) == ExtractWith(img, specs[..j] + specs[j + 1..], icons, ocr, sim)
  {
    var text := ocr(img, DefaultPsm).value;
    var outs := Outcomes(img, specs, text, icons, ocr, sim);
    FailingEntryIsInvisible(map["text" := Str(text)], outs, j);
    OutcomesWithout(img, specs, text, icons, ocr, sim, j);
  }

  /** The outcomes of a table without entry `j` are its outcomes without entry `j`. */
  lemma OutcomesWithout<P>(img: Grid<P>, specs: seq<FieldSpec>, fullText: string, icons: seq<Icon<P>>,
                           ocr: (Grid<P>, nat) -> Option<string>,
                           sim: (Grid<P>, Grid<P>) -> Option<real>, j: nat)
    requires j < |specs|
    ensures var outs := Outcomes(img, specs, fullText, icons, ocr, sim);
      outs[..j] + outs[j + 1..] == Outcomes(img, specs[..j] + specs[j + 1..], fullText, icons, ocr, sim)
  {
    var outs := Outcomes(img, specs, fullText, icons, ocr, sim);
    var rest := specs[..j] + specs[j + 1..];
    var a := outs[..j] + outs[j + 1..];
    var b := Outcomes(img, rest, fullText, icons, ocr, sim);
    forall k | 0 <= k < |b|
      ensures a[k] == b[k]
    {
      if k < j {
        assert rest[k] == specs[k] && a[k] == outs[k];
      } else {
        assert rest[k] == specs[k + 1] && a[k] == outs[k + 1];
      }
    }
  }
}
