# Nucleus and nucleolus segmentation: a verified model of the label-map core

This project models the integer label-map core of `seg_nucl_utils.py`, the
segmentation utilities of a nucleolar image-analysis pipeline. Nuclei are
segmented from a background-subtracted DNA image in four steps:

- a threshold at a fraction of the image maximum;
- 8-connected labelling;
- clearing of the objects within 2 pixels of the image edge;
- size filtering, with holes filled and the result relabelled.

Nucleoli are segmented from a smoothed nucleolar image in three steps:

- each nucleus is painted with its own threshold, its minimum plus a fraction
  of its intensity range, truncated to an integer;
- the pixels above their nucleus's level are labelled;
- objects of fewer than 4 pixels are removed, and holes are filled.

Measurement then matches each nucleolus with its parent nucleus. The parent is
the rounded mean of the nuclear labels under the nucleolus. Measurement counts
the nucleoli per nucleus and builds one 13-field record per nucleolus.

Labelling is specified by what a connected-component labelling guarantees:

- the positive pixels are exactly the foreground;
- labels are 1..n, each of them used;
- two foreground pixels share a label iff they are 8-connected within the
  foreground.

Labelling is implemented as a flood fill and proved against that
specification. Every later stage is proved against it as well:

- edge clearing removes exactly the objects connected to the border zone;
- hole filling adds exactly the background components that do not reach the
  image frame, and its output is hole-free;
- size filtering keeps or removes whole objects, with inclusive bounds.

Three properties of the whole pipeline follow:

- the nucleoli lie inside the nuclei, because the nuclei are hole-free;
- each nucleolus lies inside a single nucleus;
- so every parent is found, each record names the nucleus under its
  nucleolus, and the per-nucleus counts add up to the number of nucleoli.

An image with no signal above 0 passes through the whole pipeline to no
nuclei, no nucleoli and an empty table.

Where the code and its documentation differ, the model follows the code:

- `filterObjects` never reads its `fillholes` flag, so holes are filled for the
  nucleoli as well as for the nuclei.
- The per-nucleus thresholds are written into an integer copy of the nuclear
  labels, so they are truncated toward zero. A nucleus whose threshold
  truncates to 0 gets no nucleoli at all. Because of this, raising the
  threshold fraction can add nucleolus pixels instead of removing them.
- The background-subtraction parameters passed to `segmentNuclei` and
  `segmentNucleoli` are ignored or hard-coded.
- A border of 0 makes the slice `[-0:]` cover the whole image, so every object
  is cleared.
- The parent id is rounded half to even. A computed slot of -1 wraps to the
  last nucleus, as a Python index does. A slot outside the list raises an
  IndexError. An empty nucleolus has a NaN mean, and its conversion raises a
  ValueError.
- The size bounds hold for the objects before hole filling. Hole filling can
  merge an object with an object inside its hole and so exceed `maxsize`.

## Model

| member | source | states |
|---|---|---|
| Grid.LabellingForeground | seg_nucl_utils.py:23 | a labelling of fg has exactly fg as its positive pixels |
| Grid.HolesFilledIsHoleFree | seg_nucl_utils.py:44 | filling holes keeps every foreground pixel, stays in the image and leaves no hole |
| Grid.EmptyLabelling | seg_nucl_utils.py:23 | a labelling counts no objects exactly when its foreground is empty |
| Grid.HolesFilledEmpty | seg_nucl_utils.py:44 | filling the holes of an empty mask leaves it empty |
| Grid.HolesFilledWithin | seg_nucl_utils.py:44 | the filled set is the least hole-free set containing fg: it lies in every hole-free superset |
| Labeling.Label | seg_nucl_utils.py:23 | the output is a labelling of the mask: labels 1..n all used, positive exactly on the mask, equal iff 8-connected in the mask |
| Labeling.ConnectedSameLabel | seg_nucl_utils.py:9 | the flood fill gives pixels joined by an 8-connected path the same label |
| Regions.AssignWhere | seg_nucl_utils.py:30 | the masked write sets exactly the pixels with the given label and leaves every other pixel as it was |
| Regions.SumByLabel | seg_nucl_utils.py:100 | entry k is the sum of the values over the region of label k+1 |
| Regions.Areas | seg_nucl_utils.py:37 | entry k is the area of label k+1, the number of pixels carrying it (computed by summing the indicator labels > 0) |
| Regions.IndicatorSum | seg_nucl_utils.py:95 | summing an image that is 1 on positive labels over a positive label's region gives its area |
| Regions.UniformSum | seg_nucl_utils.py:100 | a region over which the values are constantly d sums to d times its area |
| Regions.AreaPositive | seg_nucl_utils.py:98 | a label carried by some pixel has a positive area |
| Edges.EdgeValues | seg_nucl_utils.py:24-26 | the values returned are exactly the values found in the border zone, without repeats |
| Edges.ClearValues | seg_nucl_utils.py:27-30 | a pixel is zeroed iff its label is in the list (0 stays 0), and other pixels are unchanged |
| Edges.ClearedFromLabelling | seg_nucl_utils.py:23-30 | erasing the zone's labels from a labelling leaves exactly the objects that do not touch the zone |
| Edges.LabelClearEdges | seg_nucl_utils.py:19-31 | the result labels exactly the mask objects that are not 8-connected to a pixel within the border |
| Edges.FillHoles | seg_nucl_utils.py:44 | the filled mask is the mask plus the background components that do not reach the image frame |
| Edges.HolesAreClearedBackground | seg_nucl_utils.py:44 | the holes are the background objects that remain after clearing a border of 1 |
| Edges.ClearedWholeObjects | seg_nucl_utils.py:28-30 | pixels connected in the foreground are both kept or both erased |
| Edges.ClearedAvoidsZone | seg_nucl_utils.py:24-25 | no pixel inside the border zone survives |
| Edges.BorderZeroClearsAll | seg_nucl_utils.py:24-25 | with a border of 0 the zone is the whole image and nothing survives |
| Filters.SizeBounds | seg_nucl_utils.py:40-42 | the bounds are inclusive, and a maxsize of 0 or less sets no upper bound |
| Filters.RemoveBySize | seg_nucl_utils.py:37-43 | a pixel is zeroed iff its label is in 1..nobj and that label's area fails the size test |
| Filters.KeptIsPositive | seg_nucl_utils.py:38-43 | the positive pixels after removal are exactly the kept set |
| Filters.FilterObjects | seg_nucl_utils.py:33-45 | the output labels the kept objects with their holes filled, contains every kept pixel and is hole-free |
| Filters.KeptWholeObjects | seg_nucl_utils.py:37-43 | on a labelling, size filtering keeps or removes each connected object as a whole |
| Segmentation.MaxValue | seg_nucl_utils.py:53 | the result is attained by some pixel and not exceeded by any |
| Segmentation.SegmentNuclei | seg_nucl_utils.py:47-58 | the mask is the pixels above nucthresh times the maximum; the edge-cleared labels and the size-filtered, hole-filled, hole-free final labels are labellings of the stated sets |
| Segmentation.NuclearMaskMonotone | seg_nucl_utils.py:53 | with a non-negative maximum, a larger fraction gives a smaller mask |
| Segmentation.Trunc | seg_nucl_utils.py:79 | the float-to-int store truncates toward zero: within 1 of the real, and on the side of zero |
| Segmentation.ThresholdInRange | seg_nucl_utils.py:75 | with a fraction in [0, 1], each nucleus's threshold lies between its minimum and its maximum |
| Segmentation.ThresholdsMonotone | seg_nucl_utils.py:75 | a larger fraction gives every nucleus a threshold at least as high |
| Segmentation.PaintThresholds | seg_nucl_utils.py:77-79 | each nuclear pixel gets its nucleus's truncated threshold, and every other pixel keeps its label |
| Segmentation.ThresholdMask | seg_nucl_utils.py:81-82 | a pixel is in the mask iff its level is nonzero and its intensity is strictly above the level |
| Segmentation.ForegroundOfMask | seg_nucl_utils.py:77-82 | the mask built from the painted levels is the nucleolus foreground of the thresholds |
| Segmentation.SegmentNucleoli | seg_nucl_utils.py:73-85 | the mask is the nucleolus foreground, its labelling is exact, and the final labels are the objects of at least 4 pixels with holes filled |
| Segmentation.ForegroundInsideNuclei | seg_nucl_utils.py:77-82 | nucleolus foreground lies in the nuclear foreground |
| Segmentation.TruncationNotMonotone | seg_nucl_utils.py:77-82 | in a nucleus of range [0, 2], a pixel of intensity 1.5 is outside the nucleolus foreground at fraction 0.25 and inside it at 0.5 |
| Segmentation.NoNucleiWithoutSignal | seg_nucl_utils.py:53-57 | with a maximum of 0 or less and a fraction in [0, 1], the mask is empty and there are no nuclei |
| Segmentation.NoNucleoliWithoutNuclei | seg_nucl_utils.py:77-85 | with no nuclei, the nucleolus mask is empty and there are no nucleoli |
| Segmentation.ZeroLevelExcluded | seg_nucl_utils.py:79-82 | a nucleus whose threshold lies strictly between -1 and 1 contributes no nucleolus pixel |
| Measurement.RoundHalfEven | seg_nucl_utils.py:109 | the result is within 0.5 of the input, and even on a tie |
| Measurement.RoundInteger | seg_nucl_utils.py:109 | rounding an integer gives it back |
| Measurement.PyIndex | seg_nucl_utils.py:110 | an index is valid iff it lies in -len..len-1, and it then denotes the slot congruent to it modulo len |
| Measurement.NearestId | seg_nucl_utils.py:100 | the parent id fails with ValueError iff the nucleolus is empty |
| Measurement.Slot | seg_nucl_utils.py:109-110 | the slot is found iff the id is defined and id-1 is a valid Python index, and then it is in range |
| Measurement.ParentSlots | seg_nucl_utils.py:108-110 | succeeds iff every nucleolus has a slot, with those slots; otherwise fails with the error of the first nucleolus that has none |
| Measurement.TallyTotal | seg_nucl_utils.py:107-110 | the per-nucleus counts add up to the number of nucleoli counted |
| Measurement.FailurePersists | seg_nucl_utils.py:108-110 | once a prefix of the nucleoli fails, every longer prefix fails with the same error |
| Measurement.CountNucleoli | seg_nucl_utils.py:107-110 | the first error if some parent is not found, and otherwise the tally of the parent slots, one count per nucleus |
| Measurement.EmptyMeasurement | seg_nucl_utils.py:107-122 | with no nucleoli the measurement is an empty table, not an error |
| Measurement.MeasuredRecords | seg_nucl_utils.py:113-120 | when every parent is found there is one record per nucleolus, carrying its rounded parent id |
| Measurement.Assemble | seg_nucl_utils.py:107-120 | the result is the first error, or one record per nucleolus whose fields are the parent's and the nucleolus's measurements |
| Measurement.MeasureAll | seg_nucl_utils.py:92-120 | the records are built from the exact label sums and areas of the two label maps |
| Pipeline.NucleoliInsideNuclei | seg_nucl_utils.py:81-85 | the final nucleoli lie inside the hole-free nuclei, even after their holes are filled |
| Pipeline.SingleParent | seg_nucl_utils.py:99-100 | every pixel of a nucleolus carries the same nuclear label, in 1..nnuclei, and the nucleolus is not empty |
| Pipeline.ParentsFound | seg_nucl_utils.py:99-110 | every parent is found, and its slot is the nuclear label under the nucleolus minus one |
| Pipeline.MeasurementSucceeds | seg_nucl_utils.py:107-120 | on pipeline label maps, measurement succeeds, each record names the nucleus under its nucleolus, and the counts total nnucleoli |
| Pipeline.EmptyImage | seg_nucl_utils.py:47-122 | an image with no signal above 0 gives no nuclei, no nucleoli and an empty table |

## Left out

- `poorMansRollingBall` (lines 11-17) and the Gaussian smoothing (lines 70-71): floating-point image filters. The background-subtracted and smoothed images are inputs to `SegmentNuclei` and `SegmentNucleoli`.
- Reading the TIFF images and returning a pandas DataFrame: I/O and table construction. The table is a sequence of `Record` values.
- The per-label mean, standard deviation, minimum and maximum of the intensity images (lines 73-74, 92-93, 96-97, 102-105): inputs (`Intensities`, `minvals`, `maxvals`). The areas and the label sums used to find parents are computed exactly.
- Floating point in general: intensities are `real`. NaN, infinities and float rounding are not modelled, apart from the NaN mean of an empty nucleolus. The conversion of an out-of-range float to an integer is not modelled either.
- Labeling.Label: does not state the raster order in which the labelling library numbers objects. Any numbering that meets the labelling contract is allowed.
- Edges.EdgeValues: does not state the sorted order of the unique values, because only membership is used.
- Segmentation.MaxValue: requires a non-empty image. The maximum of an empty array raises an error, which is not modelled as a result.
- Measurement.MeasureAll: requires both label maps to have the same shape. A shape mismatch is an error of the statistics library, which is not part of this model.
- The unused parameters `rollballrad` and `smstdev` of `segmentNuclei`, and the `rollballrad`, `rbsigma`, `sigma` and `fillholes` parameters: never read by the code, so they do not appear.
- The preprocessed images that `segmentNuclei` and `segmentNucleoli` return unchanged: they are inputs, so they are not returned again.
- The border width is a natural number. A negative border is not modelled.
