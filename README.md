# xo-ocr: a verified model of region cropping, bright-box extraction and field parsing

xo-ocr reads the stats overlay of a game part from a screenshot. It has two
layers of logic, built around an OCR engine and an image-similarity score:

- `ocr.py` does the image geometry:
  - `crop_by_spec` turns edge-anchored offsets into a crop rectangle;
  - `box_extraction_gray` / `crop_box_extraction_gray` find the bounding box
    of the largest bright box of one grey level. They threshold the image,
    close the mask with a vertical cross kernel, label its 8-connected
    components and sort their bounding boxes by area.
- `specs.py` does the text and the record:
  - parsers for numbers, the "vehicle durability by N" phrase and the
    name/category header;
  - the feature-column partitioner, which matches icons against a catalogue;
  - `extract_specifications`, which walks the `SPECS` table and merges what
    every field yields into one record. A failing field is skipped.

The Dafny modules follow that split:

| module | file | models |
|---|---|---|
| `Grids` | grids.dfy | rectangular images `seq<seq<P>>`, `Option`, `Result`, sub-images |
| `Crop` | crop.dfy | `_clamp`, anchor resolution, `crop_by_spec` |
| `Morphology` | morphology.dfy | `_cross_kernel` (a method filling an `array2`), the threshold, binary dilation and erosion with scipy's border rules |
| `Labelling` | labelling.dfy | `scipy.ndimage.label` with the full 3x3 structure, `find_objects` |
| `BrightBox` | bright_box.dfy | `_boundary_box_area`, the in-place stable sort of `_measure_bright_box`, `box_extraction_gray`, `crop_box_extraction_gray` |
| `TextFields` | text_fields.dfy | `_parse_number`, `_parse_vehicle_durability`, `_parse_name_category` |
| `FeatureColumns` | feature_columns.dfy | `_parse_features` (a loop over columns) |
| `SpecTable` | spec_table.dfy | `SPECS` and `extract_specifications` (a loop over the table) |

Each image is a grid of generic pixels `P`. The OCR engine is a parameter
`ocr: (Grid<P>, nat) -> Option<string>`: it is given the image and the
page-segmentation mode, and it returns `None` when it raises. The similarity
score is a parameter `sim: (Grid<P>, Grid<P>) -> Option<real>`, which returns
`None` when the score raises (SSIM rejects images it cannot compare). A record is a
`map<string, Value>`, and `Value` is `Str`, `Int` or `Null` (`None`).

Labelling is written as a flood fill (`Grow`). Its result is proved to be
exactly the 8-connected components of the mask, numbered in the raster order
of their first pixel, which is how scipy numbers them. The area sort is an
insertion sort on an array. It is proved equal to a stable descending sort
function, and that function is proved sorted, a permutation and stable. The
two loops of `specs.py` are methods whose results are proved equal to fold
functions, and the merge and failure-isolation properties are proved about
those folds. The table walk also models the branch for an entry without a
parser (specs.py:134), which stores the entry's text under its key, although
every entry of `SPECS` names a parser.

Some behaviours of the code are stated as lemmas:

- The crop never includes the last row or column, because both bounds are
  clamped to `dim - 1`.
- The cross kernel has no horizontal arm.
- With `iterations=2`, the closing always clears the two top and two bottom
  rows: erosion treats the outside of the image as off. It also never spreads
  a pixel sideways.
- The vehicle-durability pattern is case-sensitive.

## Model

| member | source | states |
|---|---|---|
| `Crop.Clamp` | ocr.py:98-99 | the result lies in `[a, b]` when `a <= b` and is `v` itself when `v` is already in range; below range it is `a`, above it is `b` |
| `Crop.ResolveAnchor` | ocr.py:119-137 | an anchor whose type spells the near edge (`top`/`left`, in any case) gives the offset, any other type gives `dim - offset` |
| `Crop.LowerSpells` | ocr.py:119 | `kind.lower() == word` holds exactly when `kind` spells `word` ignoring ASCII case |
| `Crop.ResolveAxis` | ocr.py:140-147 | a sorted and clamped pair lies in `0 <= lo <= hi <= dim - 1` |
| `Crop.ResolveAxisSymmetric` | ocr.py:140-141 | swapping the two anchors of an axis gives the same pair |
| `Crop.ResolveRegion` | ocr.py:115-147 | both row ends lie in `[0, h-1]` and both column ends in `[0, w-1]`, each pair ordered; an image without rows or columns gives `(0, 0)` on that axis |
| `Crop.CropBySpec` | ocr.py:108-153 | fails (the `ValueError`) exactly when the clamped region is empty on some axis; otherwise `0 <= x_min < x_max <= w-1`, `0 <= y_min < y_max <= h-1` and the result is the `(y_max-y_min) x (x_max-x_min)` block of the image at `(y_min, x_min)` |
| `Crop.SwapAnchorsSameCrop` | ocr.py:140-141 | swapping the y anchors, or the x anchors, gives the same outcome |
| `Crop.ThinImageNeverCrops` | ocr.py:143-151 | an image of height or width at most 1 always fails |
| `Crop.CropExcludesLastRowAndColumn` | ocr.py:143-153 | a successful crop ends before the last row and before the last column |
| `Morphology.CrossKernel` | ocr.py:20-35 | fails for `size <= 0` (numpy raises); otherwise a fresh `size x size` array that is 1 exactly on the numpy slice `[size//2 - cross//2 : size//2 + cross//2 + 1]` of column `size//2` (negative start counted from the end) and 0 elsewhere |
| `Morphology.BarRows` | ocr.py:32-34 | for `cross <= size` the ones are exactly rows `size//2 - cross//2` to `size//2 + cross//2` of the middle column: no horizontal bar |
| `Morphology.OversizedCrossWraps` | ocr.py:34 | an oversized cross (`size 3, cross 7`) makes the slice start negative, so it wraps: rows 1 and 2 only |
| `Morphology.ContentsCross3` | ocr.py:74 | `_cross_kernel(3, 3)` is the vertical bar `[[0,1,0],[0,1,0],[0,1,0]]` |
| `Morphology.Threshold` | ocr.py:77 | same shape as the image; a mask pixel is on iff the image pixel equals `color` |
| `Morphology.Dilate` | ocr.py:79-80 | same shape; a pixel is on iff some non-zero element of the structure, centred at `size//2`, reaches an on pixel |
| `Morphology.Erode` | ocr.py:81-82 | same shape; a pixel is on iff every non-zero element of the structure lands on an on pixel inside the image (outside counts as off) |
| `Morphology.Close` | ocr.py:79-82 | two dilations then two erosions keep the mask's height and width |
| `Morphology.ClosedMask` | ocr.py:74-82 | the closed mask has the image's shape; a pixel of `color` at least two rows from the top and bottom is on; nothing in the two top and two bottom rows is on; an on pixel has a pixel of `color` at most two rows away in its own column |
| `Morphology.ClosedMaskPixels` | ocr.py:74-82 | the same four facts, proved pixel by pixel from the closing lemmas |
| `Morphology.DilateCross3` | ocr.py:79-80 | one dilation by the cross turns a pixel on iff it or its upper or lower neighbour is on |
| `Morphology.ErodeCross3` | ocr.py:81-82 | one erosion by the cross keeps a pixel iff it and both vertical neighbours are on |
| `Morphology.Dilate2` | ocr.py:79-80 | two dilations: on iff an on pixel lies at most two rows away in the same column |
| `Morphology.Erode2` | ocr.py:81-82 | two erosions: on iff the five pixels from two above to two below are all on |
| `Morphology.CloseCross3` | ocr.py:79-82 | the closed pixel is on iff the five rows around it exist and each is within two rows of an on pixel of its column |
| `Morphology.CloseClearsEdgeRows` | ocr.py:79-82 | the closing turns off every pixel of the two top and two bottom rows |
| `Morphology.CloseKeepsInterior` | ocr.py:79-82 | an on pixel at least two rows from the top and bottom edges stays on |
| `Morphology.CloseStaysInColumn` | ocr.py:79-82 | a pixel the closing turns on has an on pixel at most two rows away in its own column |
| `Morphology.CloseEmptyAndInteriorPixel` | ocr.py:77-82 | an empty mask closes to an empty mask; a mask with an on pixel away from the edge rows closes to a non-empty mask (not an iff: a mask whose on pixels all lie in the edge rows also closes to empty) |
| `Labelling.Grow` | ocr.py:60 | the flood fill stays within the on pixels and is closed under 8-adjacency |
| `Labelling.ComponentIsConnected` | ocr.py:60 | the flood fill from a seed is exactly the set of pixels 8-connected to it |
| `Labelling.LabelIsLabelling` | ocr.py:60 | the labels are the 8-connected components of the mask: pairwise disjoint, covering exactly the on pixels, in the raster order of their first pixels |
| `Labelling.LabelsAreComponents` | ocr.py:60 | two pixels share a label iff they are 8-connected through on pixels |
| `Labelling.NoLabelsIffEmpty` | ocr.py:60 | there are no labels iff no mask pixel is on |
| `Labelling.OnPixelLabelled` | ocr.py:60 | every on pixel carries some label |
| `Labelling.LabelHasPixel` | ocr.py:60 | the first pixel of every label is an on pixel of the mask |
| `Labelling.BoundingBox` | ocr.py:62 | `None` iff the component has no pixel in the grid; otherwise a non-empty box inside the grid holding every pixel of the component |
| `Labelling.BoundingBoxTight` | ocr.py:62 | each edge of the box touches a pixel of the component |
| `Labelling.FindObjects` | ocr.py:62 | one entry per label; an entry is `None` iff its label has no pixel in the image; otherwise a non-empty box inside the image that holds every pixel of the label |
| `Labelling.LabelledObjectsPresent` | ocr.py:60-62 | `find_objects` gives a box (never `None`) for every label `label` produced |
| `BrightBox.BoxArea` | ocr.py:38-47 | the area is non-negative, zero iff a slice is empty, and the product of the two extents for ordered slices |
| `BrightBox.InsertSortedPermutation` | ocr.py:63 | inserting into a sorted list keeps it sorted and adds exactly that box |
| `BrightBox.SortByArea` | ocr.py:63 | the sort on values gives non-increasing areas and is a permutation of its input (same length, same multiset) |
| `BrightBox.SortByAreaStable` | ocr.py:63 | for every area, the boxes of that area keep their original order |
| `BrightBox.InsertBox` | ocr.py:63 | one insertion step on the array puts `a[i]` into the sorted prefix as the sort function does and leaves the rest alone |
| `BrightBox.SortBoxes` | ocr.py:63 | the in-place sort leaves the array equal to the stable descending sort of its old contents |
| `BrightBox.SortByAreaFirst` | ocr.py:63 | the first sorted box is the earliest box of largest area |
| `BrightBox.Objects` | ocr.py:60-62 | one box per label, each the `find_objects` entry of that label |
| `BrightBox.MeasureBrightBox` | ocr.py:50-65 | returns the stable descending sort of the label boxes: sorted by area and a permutation of them |
| `BrightBox.BoxExtractionGray` | ocr.py:73-88 | returns the first box after kernel, threshold, closing, labelling and sort, as `(x, y, w, h)`, or `None` |
| `BrightBox.BoxExtractionNone` | ocr.py:83-85 | `None` iff the closed mask has no on pixel |
| `BrightBox.BoxExtractionFound` | ocr.py:86-88 | otherwise `w > 0`, `h > 0`, the box lies inside the image, and it is the box of the earliest-labelled component of largest area |
| `BrightBox.ObjectInside` | ocr.py:62 | every label box is non-empty and inside the mask |
| `BrightBox.NoMatchNoBox` | ocr.py:77-85 | no pixel equal to `color` gives `None` |
| `BrightBox.InteriorMatchGivesBox` | ocr.py:77-88 | a pixel equal to `color` at least two rows from the top and bottom edges gives a box |
| `BrightBox.CropBoxExtractionGray` | ocr.py:90-95 | `None` in the same case as `box_extraction_gray`; otherwise the `h x w` block of the image at `(y, x)`, which lies inside the image |
| `TextFields.FirstNumber` | specs.py:48-49 | `None` iff the text has no ASCII digit; otherwise the value of the first maximal digit run, with no digit before it |
| `TextFields.ParseNumber` | specs.py:47-50 | exactly the key `key`, mapped to `None` iff there is no digit and otherwise to the value of the first maximal run of ASCII digits (digit-free text before it, a non-digit or the end after it) |
| `TextFields.DecimalRoundTrip` | specs.py:49 | `int()` of the decimal string of `n` is `n` |
| `TextFields.ParseNumberFinds` | specs.py:48-49 | digit-free text, the decimal string of `n`, then a non-digit parses to `n` |
| `TextFields.ParseNumberRoundTrip` | specs.py:47-50 | parsing the decimal string of `n` gives `n` |
| `TextFields.Leftmost` | specs.py:85 | the first position in a range where a matcher succeeds: `None` iff it succeeds nowhere, otherwise its result there with no success before |
| `TextFields.SearchPhrase` | specs.py:85 | `re.search` returns the match that starts leftmost, or `None` iff no position matches |
| `TextFields.MatchPhraseAt` | specs.py:85 | a match at `p` starts with the literal `vehicle` |
| `TextFields.MatchPhraseSound` | specs.py:85 | a match at `p` means the text from `p` is `vehicle`, whitespace, `durability`, whitespace, `by`, whitespace, a maximal digit run and the rest, and the match's value is that run's number |
| `TextFields.PhraseMatch` | specs.py:85 | conversely, such a text matches at the position where it starts, with the number of its digit run |
| `TextFields.NoMatchInPrefix` | specs.py:85 | a prefix without `vehicle` holds no match before a text starting with `vehicle` |
| `TextFields.FirstMatchParsed` | specs.py:85-88 | the match at the first matching position is the one returned |
| `TextFields.ParseVehicleDurability` | specs.py:84-88 | exactly the key `key`: `None` iff no position matches, otherwise the number of the leftmost match |
| `TextFields.ParsedNumberHasPhrase` | specs.py:85-88 | an integer result comes from a full phrase at some position: `vehicle`, whitespace, `durability`, whitespace, `by`, whitespace and a digit run spelling that integer |
| `TextFields.PhraseParsed` | specs.py:85-88 | after any prefix that does not contain `vehicle`, the phrase `vehicle`, whitespace, `durability`, whitespace, `by`, whitespace, the decimal string of `n`, then a non-digit or the end, parses to `n` |
| `TextFields.OverlayLineParsed` | specs.py:85-88 | `Increases vehicle durability by 25%` gives 25 |
| `TextFields.NoLowerVNoMatch` | specs.py:85 | a text with no lower-case `v` matches nowhere |
| `TextFields.NoMatchNull` | specs.py:86-88 | with no match anywhere the field is `None` |
| `TextFields.CapitalisedPhraseIgnored` | specs.py:85 | the pattern is case-sensitive: `Vehicle Durability by 25` gives `None` |
| `TextFields.SplitLines` | specs.py:36 | `str.splitlines` gives lines with no line-break character |
| `TextFields.SplitLinesRejoin` | specs.py:36 | the lines, each followed by the line break that ended it (`\r\n` or one break character; only a non-empty last line may have none, so a final break yields no empty line), join back into the text |
| `TextFields.SplitLinesUnique` | specs.py:36 | conversely, any cut of the text into break-free lines and such breaks is the one `str.splitlines` makes, so the two lemmas characterise it |
| `TextFields.SplitJoinLines` | specs.py:36 | lines without breaks, the last one non-empty, joined by `\n` split back into those lines |
| `TextFields.Strip` | specs.py:36 | `str.strip` is a slice `s[i..j]` with only whitespace before `i` and after `j`, neither starting nor ending with whitespace; empty iff the line is all whitespace |
| `TextFields.StripExample` | specs.py:36 | `"Thruster Mk2 "` strips to `"Thruster Mk2"` |
| `TextFields.StripStripped` | specs.py:36 | stripping a stripped line changes nothing |
| `TextFields.NonBlank` | specs.py:36 | the kept lines are non-empty and stripped, and no more than the lines given |
| `TextFields.NonBlankAppend` | specs.py:36 | the filter works line by line: on two joined lists it is the two results joined |
| `TextFields.NonBlankLine` | specs.py:36 | a single line is dropped iff it is all whitespace, and kept stripped otherwise |
| `TextFields.NonBlankOfBlank` | specs.py:36 | a list of blank lines leaves nothing |
| `TextFields.CleanName` | specs.py:40-41 | the result is the strip of what follows the longest leading run of digits, `_` and non-word characters; a non-empty result starts with an ASCII letter and does not end in whitespace |
| `TextFields.CleanNameExample` | specs.py:40-41 | `"12 Thruster Mk2 "` cleans to `"Thruster Mk2"` |
| `TextFields.CleanCategory` | specs.py:42-43 | the result is the strip of what follows the longest leading run of characters other than ASCII letters and digits; a non-empty result starts with one of those and does not end in whitespace |
| `TextFields.ParseNameCategory` | specs.py:34-44 | exactly the keys `name` and `category`: the cleaned first and second non-blank stripped lines, or `None` when there are too few lines |
| `TextFields.CleanNameIdempotent` | specs.py:40-41 | cleaning a cleaned name changes nothing |
| `TextFields.CleanCategoryIdempotent` | specs.py:42-43 | cleaning a cleaned category changes nothing |
| `TextFields.SplitTwoLines` | specs.py:36 | two lines joined by `\n` split back into those two lines |
| `TextFields.NameCategoryRoundTrip` | specs.py:34-44 | a clean name and category on two lines parse back to themselves |
| `TextFields.NameCategoryAmidBlankLines` | specs.py:34-44 | blank lines before, between and after the two header lines do not change what is parsed |
| `FeatureColumns.ColumnsTile` | specs.py:59-67 | the `ceil(w/205)` columns are non-empty and at most 205 wide; each one ends where the next starts, and the last ends at `w` |
| `FeatureColumns.Loaded` | specs.py:75-76 | no more entries than the catalogue; empty iff no image loaded |
| `FeatureColumns.LoadedMembers` | specs.py:75-76 | every loaded pair is a catalogue entry with its image, and every catalogue entry whose image loaded is among the loaded pairs |
| `FeatureColumns.LoadedAppend` | specs.py:75-76 | loading keeps catalogue order: loading two joined catalogues gives the two results joined |
| `FeatureColumns.Scores` | specs.py:75-76 | `None` (the comprehension raises) iff some similarity raises; otherwise one score per loaded icon, in catalogue order, each the similarity of that icon |
| `FeatureColumns.BestIndex` | specs.py:77 | `max` picks a highest score, and the earliest among ties |
| `FeatureColumns.ColumnResult` | specs.py:63-80 | a column of width at most 68 adds nothing; a wider one raises iff its OCR raises, no icon loaded (`max` of an empty list) or a similarity raises; otherwise it adds `_parse_number("feature_<best icon>", text)` when the best score is `>= 0.3`, and nothing when it is below (for digit runs within the length limit of `int`, see Left out) |
| `FeatureColumns.ReadColumn` | specs.py:63-80 | the loop body computes the column's outcome |
| `FeatureColumns.ParseFeatures` | specs.py:53-81 | the loop computes the right-biased merge of all column outcomes, failing if any column raises |
| `FeatureColumns.Features` | specs.py:53-81 | every key of the result is a `feature_` key |
| `FeatureColumns.FeaturesRaiseIffColumnRaises` | specs.py:62-80 | the call raises iff some column raises (for digit runs within the length limit of `int`, see Left out) |
| `FeatureColumns.MergeStep` | specs.py:79-80 | one loop step: a raising column makes the whole merge raise; otherwise the merge so far is extended by that column's record, which wins on shared keys |
| `FeatureColumns.MergedFeatureKeys` | specs.py:79-80 | merging records whose keys are all `feature_` keys gives only `feature_` keys |
| `FeatureColumns.FailureSticks` | specs.py:62-80 | once a column raises, the whole call raises |
| `FeatureColumns.FailsIffSomeColumnFails` | specs.py:62-80 | the call raises iff some column raises (for digit runs within the length limit of `int`, see Left out) |
| `FeatureColumns.OnlyColumnKeys` | specs.py:79-80 | every key of the result comes from some column |
| `FeatureColumns.KeyFromLastColumn` | specs.py:79-80 | a key's value comes from the last column that added it: later columns overwrite earlier ones |
| `FeatureColumns.ColumnKeyKept` | specs.py:79-80 | a key some column added is in the result |
| `FeatureColumns.MatchedKeys` | specs.py:75-80 | the keys are exactly `feature_<best icon>` of the columns whose best score is `>= 0.3` |
| `FeatureColumns.KeyFromMatchedColumn` | specs.py:75-80 | every key of the result is `feature_<best icon>` of some column whose best score is `>= 0.3` |
| `FeatureColumns.MatchedColumnKept` | specs.py:75-80 | every column whose best score is `>= 0.3` leaves its key in the result |
| `SpecTable.Step` | specs.py:134-136 | a raising entry leaves the record as it was; otherwise the keys are the union, the entry's values win and the other values stay |
| `SpecTable.Outcomes` | specs.py:128-134 | one outcome per table entry, in table order |
| `SpecTable.SpecOutcome` | specs.py:128-134 | a successful entry adds only the keys it may add: `name`/`category`, its own key, or `feature_` keys |
| `SpecTable.SpecOutcomeRaises` | specs.py:128-134 | an entry raises iff its crop fails, or it is cropped and the OCR of the crop raises, or it is the features entry and the feature parser raises (for digit runs within the length limit of `int`, see Left out) |
| `SpecTable.ApplySpec` | specs.py:129-134 | the `try` body crops and recognises when both anchors are given, otherwise it reuses the image and the full text, then parses |
| `SpecTable.ExtractSpecifications` | specs.py:123-137 | the result is the left-to-right fold of the entry outcomes over `{'text': full OCR}` |
| `SpecTable.ExtractTable` | specs.py:124-137 | for any table none of whose keys is `text`, the loop computes that fold, `None` when the whole-image OCR raises |
| `SpecTable.TableStep` | specs.py:127-136 | one loop step extends the fold by that entry and keeps `text` |
| `SpecTable.NoEntryWritesText` | specs.py:128-136 | an entry whose key is not `text` never produces `text`, so the full text is never overwritten |
| `SpecTable.AccumulateKeys` | specs.py:127-136 | a key is in the result iff it was there at the start or some successful entry produced it |
| `SpecTable.AccumulateUntouched` | specs.py:127-136 | a key that no entry produced keeps its starting value |
| `SpecTable.AccumulateLastWriter` | specs.py:127-136 | a key takes the value from the last entry that produced it |
| `SpecTable.FailingEntryIsInvisible` | specs.py:128-136 | a raising entry affects nothing: the fold equals the fold without it |
| `SpecTable.TextAlwaysPresent` | specs.py:124-126 | the call raises iff the whole-image OCR raises; otherwise `text` is that OCR |
| `SpecTable.EntriesDisjoint` | specs.py:91-120 | no two table entries can produce the same key |
| `SpecTable.NoEntryAddsText` | specs.py:91-120 | no table entry may add the key `text` |
| `SpecTable.SpecsEntries` | specs.py:91-120 | the table has six entries with distinct keys, none `text`; the first five have both anchors, `vehicle_durability` has none and its own parser |
| `SpecTable.NameCategoryRegion` | specs.py:92-95 | on an image at least 193 rows high and 156 wide, the name/category crop is rows 5 to 192 and columns 150 to `w - 5` |
| `SpecTable.SoleEntryForKey` | specs.py:91-120 | two entries that may both add a key are the same entry |
| `SpecTable.NotFeatureKey` | specs.py:79-80 | a key not starting with `f` is not a feature key |
| `SpecTable.RecordKeys` | specs.py:123-137 | every key of the record is `text` or one an entry may produce |
| `SpecTable.EntryValueKept` | specs.py:127-136 | every value a successful entry produces is in the final record, unchanged |
| `SpecTable.FailedEntryAbsent` | specs.py:128-136 | the keys of a raising entry are absent from the record |
| `SpecTable.VehicleDurabilityFromFullText` | specs.py:117-132 | `vehicle_durability` has no anchors, so it is parsed from the full-image text and is always present (the digit limit of `int` aside, see Left out) |
| `SpecTable.FailingSpecIsInvisible` | specs.py:128-136 | dropping a raising entry from the table gives the same record |
| `SpecTable.FailingTableEntryIsInvisible` | specs.py:128-136 | the same for any table: a raising entry can be dropped without changing the record |
| `SpecTable.OutcomesWithout` | specs.py:127-134 | dropping an entry from the table drops exactly its outcome |

## Left out

- `take_screenshot` (ocr.py:12-17) is screen capture through `mss` and is not modelled.
- `ocr_image` (ocr.py:156-168) is the `ocr` parameter. Its greyscale conversion, resize, Otsu threshold, Tesseract call and `strip` are not modelled.
- `pil2openCv` (ocr.py:102-105) and `box_extraction` (ocr.py:68-70) are colour conversions and are not modelled.
- `_image_similarity` (specs.py:10-28) is the `sim` parameter, returning `None` where it raises. Its SSIM score, its resize and its rule that a failed box crop scores 0 are not modelled. Scores are `real`, not floating point.
- The icon catalogue `icons` (specs.py:31) is loaded from disk. It is a parameter holding each icon's name and its image, or `None` when the file did not load.
- `db_worker.py`, `ocr_worker.py` and `xo_parts_scanner.py` are threads, queues, sqlite and hotkeys, and are not part of this model.
- `print` of the error message in `extract_specifications` (specs.py:135-136) is output only and is not modelled.
- Dictionary key order is not modelled: records are maps.
- The mask has no integer type. `(img == color) * 255` and `astype` (ocr.py:77-82) only matter through which pixels are non-zero, so the mask is boolean. The kernel values are `int`, with no `uint8` wrap.
- `str.lower` is modelled on ASCII letters only. The regex class `\W` is modelled as the complement of ASCII letters, digits and `_`; Python's Unicode word characters are not.
- Dilation and erosion place the structuring element's origin at `size // 2`, which is scipy's rule for odd sizes. Only the 3x3 cross is ever used.
- `find_objects` is modelled over the component sets the labelling yields, not over a label array.
- The image width is taken from the first row, so an image with no rows has width 0. numpy would keep the declared width of an empty array.
- `TextFields.ParseVehicleDurability`: the pattern is matched case-sensitively, as the code is written (no `re.IGNORECASE`). A case-insensitive match would also accept `Vehicle Durability by 25`; `TextFields.CapitalisedPhraseIgnored` states that the code does not.
- `TextFields.ParseNumber` and `TextFields.ParseVehicleDurability` do not model the limit of recent CPython versions (`sys.int_max_str_digits`, 4300 by default) on the length of a digit string `int` converts. There `int(m.group(1))` (specs.py:49, specs.py:87) raises `ValueError` for a longer run; the model returns its value. So for such OCR text the entries parsed by `_parse_number`, the `vehicle_durability` entry and a matched feature column succeed in the model where the code raises. The raise conditions of `FeatureColumns.ColumnResult`, `FeatureColumns.FeaturesRaiseIffColumnRaises`, `FeatureColumns.FailsIffSomeColumnFails` and `SpecTable.SpecOutcomeRaises` hold for digit runs within that limit. The limit depends on the interpreter's version and settings.
