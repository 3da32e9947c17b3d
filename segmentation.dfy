/** Segmentation of nuclei (threshold at a fraction of the image maximum,
    edge clearing, size filtering) and of nucleoli (a per-nucleus threshold
    painted over each nucleus, then labelling and size filtering). The
    background-subtracted and smoothed images are inputs. */
module Segmentation {
  import opened Grid
  import opened Labeling
  import opened Regions
  import opened Edges
  import opened Filters

  /** m is the maximum of the image: attained, and not exceeded. */
  ghost predicate IsMaximum(img: array2<real>, m: real)
    reads img
  {
    && (exists i, j :: 0 <= i < img.Length0 && 0 <= j < img.Length1 && img[i, j] == m)
    && (forall i, j :: 0 <= i < img.Length0 && 0 <= j < img.Length1 ==> img[i, j] <= m)
  }

  /** The largest value of a non-empty image. */
  method MaxValue(img: array2<real>) returns (m: real)
    requires img.Length0 > 0 && img.Length1 > 0
    ensures IsMaximum(img, m)
  {
    m := img[0, 0];
    ghost var wi, wj := 0, 0;
    for i := 0 to img.Length0
      invariant 0 <= wi < img.Length0 && 0 <= wj < img.Length1 && img[wi, wj] == m
      invariant forall r, c :: 0 <= r < i && 0 <= c < img.Length1 ==> img[r, c] <= m
    {
      for j := 0 to img.Length1
        invariant 0 <= wi < img.Length0 && 0 <= wj < img.Length1 && img[wi, wj] == m
        invariant forall r, c :: 0 <= r < i && 0 <= c < img.Length1 ==> img[r, c] <= m
        invariant forall c :: 0 <= c < j ==> img[i, c] <= m
      {
        if img[i, j] > m {
          m := img[i, j];
          wi, wj := i, j;
        }
      }
    }
  }

  /** Segments the nuclei of the background-subtracted image: the mask is
      the pixels strictly above nucthresh times the maximum; the objects
      within 2 pixels of the edge are cleared; the rest are size-filtered
      with holes filled and labelled. */
  method SegmentNuclei(dapisub: array2<real>, nucthresh: real, minsize: int, maxsize: int)
    returns (dapimask: array2<bool>, dapilabels: array2<int>, nnuclei: nat,
             ghost mx: real, ghost edgeLabels: array2<int>, ghost nEdge: nat)
    requires dapisub.Length0 > 0 && dapisub.Length1 > 0
    ensures IsMaximum(dapisub, mx)
    ensures dapimask.Length0 == dapisub.Length0 && dapimask.Length1 == dapisub.Length1
    ensures forall i, j :: 0 <= i < dapisub.Length0 && 0 <= j < dapisub.Length1 ==>
      (dapimask[i, j] <==> dapisub[i, j] > nucthresh * mx)
    ensures edgeLabels.Length0 == dapisub.Length0 && edgeLabels.Length1 == dapisub.Length1
    ensures IsLabelling(edgeLabels, ClearedEdges(MaskSet(dapimask), dapisub.Length0, dapisub.Length1, 2), nEdge)
    ensures dapilabels.Length0 == dapisub.Length0 && dapilabels.Length1 == dapisub.Length1
    ensures IsLabelling(dapilabels, HolesFilled(KeptSet(edgeLabels, nEdge, minsize, maxsize),
                                                 dapisub.Length0, dapisub.Length1), nnuclei)
    ensures HoleFree(Positive(dapilabels), dapisub.Length0, dapisub.Length1)
  {
    var m := MaxValue(dapisub);
    mx := m;
    var thresh := nucthresh * m;
    dapimask := new bool[dapisub.Length0, dapisub.Length1]((i, j) reads dapisub =>
      0 <= i < dapisub.Length0 && 0 <= j < dapisub.Length1 && dapisub[i, j] > thresh);
    var l, n := LabelClearEdges(dapimask, 2);
    edgeLabels, nEdge := l, n;
    dapilabels, nnuclei := FilterObjects(l, n, minsize, maxsize);
  }

  /** Raising the threshold fraction can only shrink the nuclear mask, as
      long as the image maximum is not negative. */
  lemma NuclearMaskMonotone(dapisub: array2<real>, mx: real, t1: real, t2: real, i: int, j: int)
    requires IsMaximum(dapisub, mx) && mx >= 0.0
    requires t1 <= t2
    requires 0 <= i < dapisub.Length0 && 0 <= j < dapisub.Length1
    requires dapisub[i, j] > t2 * mx
    ensures dapisub[i, j] > t1 * mx
  {
    assert t1 * mx <= t2 * mx;
  }

  // ---------------------------------------------------------------------
  // Nucleoli

  /** Conversion of a real to an integer by truncation toward zero, as when
      a float is stored into an integer array. */
  function Trunc(r: real): (t: int)
    ensures r >= 0.0 ==> 0 <= t && t as real <= r < t as real + 1.0
    ensures r < 0.0 ==> t <= 0 && t as real - 1.0 < r <= t as real
  {
    if r >= 0.0 then r.Floor else -((-r).Floor)
  }

  /** The threshold of each nucleus: its minimum plus the fraction
      nuclthresh of its range. */
  function Thresholds(minvals: seq<real>, maxvals: seq<real>, nuclthresh: real): (t: seq<real>)
    requires |minvals| == |maxvals|
    ensures |t| == |minvals|
    ensures forall k :: 0 <= k < |t| ==> t[k] == minvals[k] + nuclthresh * (maxvals[k] - minvals[k])
  {
    seq(|minvals|, k requires 0 <= k < |minvals| => minvals[k] + nuclthresh * (maxvals[k] - minvals[k]))
  }

  /** A threshold fraction in [0, 1] puts each nucleus's threshold within its
      own intensity range. */
  lemma ThresholdInRange(minvals: seq<real>, maxvals: seq<real>, nuclthresh: real, k: int)
    requires |minvals| == |maxvals| && 0 <= k < |minvals|
    requires 0.0 <= nuclthresh <= 1.0 && minvals[k] <= maxvals[k]
    ensures minvals[k] <= Thresholds(minvals, maxvals, nuclthresh)[k] <= maxvals[k]
  {
    var r := maxvals[k] - minvals[k];
    assert 0.0 <= r;
    assert (1.0 - nuclthresh) * r >= 0.0;
    assert nuclthresh * r >= 0.0;
  }

  /** A larger fraction gives each nucleus a threshold at least as high. */
  lemma ThresholdsMonotone(minvals: seq<real>, maxvals: seq<real>, f: real, g: real, k: int)
    requires |minvals| == |maxvals| && 0 <= k < |minvals|
    requires f <= g && minvals[k] <= maxvals[k]
    ensures Thresholds(minvals, maxvals, f)[k] <= Thresholds(minvals, maxvals, g)[k]
  {
  }

  /** The painted level of a pixel with nuclear label d: the truncated
      threshold of nucleus d when d is in 1..|thresh|, and d itself otherwise
      (in particular 0 on the background). */
  function Level(d: int, thresh: seq<real>): int {
    if 1 <= d <= |thresh| then Trunc(thresh[d - 1]) else d
  }

  /** An integer copy of the nuclear labels in which each nucleus k is
      painted with its threshold (truncated toward zero). */
  method PaintThresholds(dapilabels: array2<int>, thresh: seq<real>) returns (levels: array2<int>)
    ensures levels.Length0 == dapilabels.Length0 && levels.Length1 == dapilabels.Length1
    ensures forall i, j :: 0 <= i < dapilabels.Length0 && 0 <= j < dapilabels.Length1 ==>
      levels[i, j] == Level(dapilabels[i, j], thresh)
  {
    levels := new int[dapilabels.Length0, dapilabels.Length1]((i, j) reads dapilabels =>
      if 0 <= i < dapilabels.Length0 && 0 <= j < dapilabels.Length1 then dapilabels[i, j] else 0);
    for k := 0 to |thresh|
      invariant forall i, j :: 0 <= i < dapilabels.Length0 && 0 <= j < dapilabels.Length1 ==>
        levels[i, j] == if 1 <= dapilabels[i, j] <= k then Trunc(thresh[dapilabels[i, j] - 1]) else dapilabels[i, j]
    {
      AssignWhere(levels, dapilabels, k + 1, Trunc(thresh[k]));
    }
  }

  /** The nucleolus mask: pixels whose intensity is strictly above their
      painted level, except where the level is 0. */
  method ThresholdMask(nucleoli: array2<real>, levels: array2<int>) returns (mask: array2<bool>)
    requires nucleoli.Length0 == levels.Length0 && nucleoli.Length1 == levels.Length1
    ensures mask.Length0 == levels.Length0 && mask.Length1 == levels.Length1
    ensures forall i, j :: 0 <= i < levels.Length0 && 0 <= j < levels.Length1 ==>
      (mask[i, j] <==> levels[i, j] != 0 && nucleoli[i, j] > levels[i, j] as real)
  {
    mask := new bool[levels.Length0, levels.Length1]((i, j) reads nucleoli, levels =>
      0 <= i < levels.Length0 && 0 <= j < levels.Length1 && nucleoli[i, j] > levels[i, j] as real);
    AssignWhere(mask, levels, 0, false);
  }

  /** The pixels that become nucleolus foreground before size filtering. */
  ghost function NucleolusForeground(nucleoli: array2<real>, dapilabels: array2<int>, thresh: seq<real>): set<Pixel>
    requires nucleoli.Length0 == dapilabels.Length0 && nucleoli.Length1 == dapilabels.Length1
    reads nucleoli, dapilabels
  {
    set i, j | 0 <= i < dapilabels.Length0 && 0 <= j < dapilabels.Length1
                 && Level(dapilabels[i, j], thresh) != 0
                 && nucleoli[i, j] > Level(dapilabels[i, j], thresh) as real :: (i, j)
  }

  /** Segments the nucleoli of the smoothed nucleolar image inside the
      nuclei: each nucleus gets the threshold minvals + nuclthresh * (maxvals
      - minvals) of its own intensity range, the mask is labelled, and
      objects smaller than 4 pixels are removed (holes are filled as well). */
  method SegmentNucleoli(nucleoli: array2<real>, dapilabels: array2<int>, nnuclei: nat,
                         minvals: seq<real>, maxvals: seq<real>, nuclthresh: real)
    returns (nucleolilabels: array2<int>, nnucleoli: nat,
             ghost nucleolimask: array2<bool>, ghost maskLabels: array2<int>, ghost nMask: nat)
    requires nucleoli.Length0 == dapilabels.Length0 && nucleoli.Length1 == dapilabels.Length1
    requires |minvals| == nnuclei && |maxvals| == nnuclei
    ensures nucleolimask.Length0 == dapilabels.Length0 && nucleolimask.Length1 == dapilabels.Length1
    ensures MaskSet(nucleolimask) == NucleolusForeground(nucleoli, dapilabels, Thresholds(minvals, maxvals, nuclthresh))
    ensures maskLabels.Length0 == dapilabels.Length0 && maskLabels.Length1 == dapilabels.Length1
    ensures IsLabelling(maskLabels, MaskSet(nucleolimask), nMask)
    ensures nucleolilabels.Length0 == dapilabels.Length0 && nucleolilabels.Length1 == dapilabels.Length1
    ensures IsLabelling(nucleolilabels, HolesFilled(KeptSet(maskLabels, nMask, 4, -1),
                                                     dapilabels.Length0, dapilabels.Length1), nnucleoli)
    ensures KeptSet(maskLabels, nMask, 4, -1) <= Positive(nucleolilabels)
  {
    var thresh := Thresholds(minvals, maxvals, nuclthresh);
    var levels := PaintThresholds(dapilabels, thresh);
    var mask := ThresholdMask(nucleoli, levels);
    nucleolimask := mask;
    ForegroundOfMask(nucleoli, dapilabels, thresh, levels, mask);
    var l, n := Label(mask);
    maskLabels, nMask := l, n;
    nucleolilabels, nnucleoli := FilterObjects(l, n, 4, -1);
  }

  lemma ForegroundOfMask(nucleoli: array2<real>, dapilabels: array2<int>, thresh: seq<real>,
                         levels: array2<int>, mask: array2<bool>)
    requires nucleoli.Length0 == dapilabels.Length0 == levels.Length0 == mask.Length0
    requires nucleoli.Length1 == dapilabels.Length1 == levels.Length1 == mask.Length1
    requires forall i, j :: 0 <= i < dapilabels.Length0 && 0 <= j < dapilabels.Length1 ==>
      levels[i, j] == Level(dapilabels[i, j], thresh)
    requires forall i, j :: 0 <= i < levels.Length0 && 0 <= j < levels.Length1 ==>
      (mask[i, j] <==> levels[i, j] != 0 && nucleoli[i, j] > levels[i, j] as real)
    ensures MaskSet(mask) == NucleolusForeground(nucleoli, dapilabels, thresh)
  {
  }

  /** Nucleolus foreground lies inside the nuclei: a pixel with a nonzero
      level has a nonzero nuclear label, which for a labelling of the nuclear
      foreground puts it in that foreground. */
  lemma ForegroundInsideNuclei(nucleoli: array2<real>, dapilabels: array2<int>, nuclei: set<Pixel>,
                               nnuclei: nat, thresh: seq<real>)
    requires nucleoli.Length0 == dapilabels.Length0 && nucleoli.Length1 == dapilabels.Length1
    requires IsLabelling(dapilabels, nuclei, nnuclei)
    ensures NucleolusForeground(nucleoli, dapilabels, thresh) <= nuclei
  {
    forall p | p in NucleolusForeground(nucleoli, dapilabels, thresh) ensures p in nuclei {
      assert Level(dapilabels[p.0, p.1], thresh) != 0;
    }
  }

  /** Because levels are truncated and a level of 0 excludes the nucleus,
      raising the threshold fraction can add nucleolus pixels: in a nucleus
      with intensity range [0, 2], a pixel of intensity 1.5 is outside the
      foreground at fraction 0.25 (level 0) and inside it at fraction 0.5
      (level 1). */
  lemma TruncationNotMonotone(nucleoli: array2<real>, dapilabels: array2<int>, p: Pixel)
    requires nucleoli.Length0 == dapilabels.Length0 && nucleoli.Length1 == dapilabels.Length1
    requires InBounds(dapilabels.Length0, dapilabels.Length1, p)
    requires dapilabels[p.0, p.1] == 1 && nucleoli[p.0, p.1] == 1.5
    ensures p !in NucleolusForeground(nucleoli, dapilabels, Thresholds([0.0], [2.0], 0.25))
    ensures p in NucleolusForeground(nucleoli, dapilabels, Thresholds([0.0], [2.0], 0.5))
  {
    assert Thresholds([0.0], [2.0], 0.25)[0] == 0.5;
    assert Thresholds([0.0], [2.0], 0.5)[0] == 1.0;
  }

  /** A nucleus whose threshold truncates to 0 contributes no nucleolus
      pixels, however bright it is. */
  lemma ZeroLevelExcluded(nucleoli: array2<real>, dapilabels: array2<int>, thresh: seq<real>, p: Pixel)
    requires nucleoli.Length0 == dapilabels.Length0 && nucleoli.Length1 == dapilabels.Length1
    requires InBounds(dapilabels.Length0, dapilabels.Length1, p)
    requires 1 <= dapilabels[p.0, p.1] <= |thresh|
    requires -1.0 < thresh[dapilabels[p.0, p.1] - 1] < 1.0
    ensures p !in NucleolusForeground(nucleoli, dapilabels, thresh)
  {
  }

  // ---------------------------------------------------------------------
  // Images without objects

  /** An image whose maximum is 0 or less, thresholded at a fraction in
      [0, 1] of that maximum, has an empty mask and so no nuclei: each pixel
      is at most the maximum, which is at most the threshold. */
  lemma NoNucleiWithoutSignal(dapisub: array2<real>, nucthresh: real, minsize: int, maxsize: int,
                              dapimask: array2<bool>, dapilabels: array2<int>, nnuclei: nat,
                              mx: real, edgeLabels: array2<int>, nEdge: nat)
    requires IsMaximum(dapisub, mx) && mx <= 0.0 && 0.0 <= nucthresh <= 1.0
    requires dapimask.Length0 == dapisub.Length0 && dapimask.Length1 == dapisub.Length1
    requires forall i, j :: 0 <= i < dapisub.Length0 && 0 <= j < dapisub.Length1 ==>
      (dapimask[i, j] <==> dapisub[i, j] > nucthresh * mx)
    requires IsLabelling(edgeLabels, ClearedEdges(MaskSet(dapimask), dapisub.Length0, dapisub.Length1, 2), nEdge)
    requires IsLabelling(dapilabels, HolesFilled(KeptSet(edgeLabels, nEdge, minsize, maxsize),
                                                  dapisub.Length0, dapisub.Length1), nnuclei)
    ensures MaskSet(dapimask) == {}
    ensures nnuclei == 0
  {
    var h, w := dapisub.Length0, dapisub.Length1;
    assert (1.0 - nucthresh) * mx <= 0.0;
    assert MaskSet(dapimask) == {};
    EmptyLabelling(edgeLabels, ClearedEdges(MaskSet(dapimask), h, w, 2), nEdge);
    LabellingForeground(edgeLabels, ClearedEdges(MaskSet(dapimask), h, w, 2), nEdge);
    assert KeptSet(edgeLabels, nEdge, minsize, maxsize) == {};
    HolesFilledEmpty(h, w);
    EmptyLabelling(dapilabels, HolesFilled(KeptSet(edgeLabels, nEdge, minsize, maxsize), h, w), nnuclei);
  }

  /** Without nuclei there is no nucleolus foreground, so no nucleoli. */
  lemma NoNucleoliWithoutNuclei(nucleoli: array2<real>, dapilabels: array2<int>, nuclei: set<Pixel>,
                                thresh: seq<real>, nucleolimask: array2<bool>, maskLabels: array2<int>,
                                nMask: nat, nucleolilabels: array2<int>, nnucleoli: nat)
    requires nucleoli.Length0 == dapilabels.Length0 && nucleoli.Length1 == dapilabels.Length1
    requires IsLabelling(dapilabels, nuclei, 0)
    requires MaskSet(nucleolimask) == NucleolusForeground(nucleoli, dapilabels, thresh)
    requires IsLabelling(maskLabels, MaskSet(nucleolimask), nMask)
    requires IsLabelling(nucleolilabels, HolesFilled(KeptSet(maskLabels, nMask, 4, -1),
                                                      dapilabels.Length0, dapilabels.Length1), nnucleoli)
    ensures MaskSet(nucleolimask) == {}
    ensures nnucleoli == 0
  {
    var h, w := dapilabels.Length0, dapilabels.Length1;
    EmptyLabelling(dapilabels, nuclei, 0);
    ForegroundInsideNuclei(nucleoli, dapilabels, nuclei, 0, thresh);
    LabellingForeground(maskLabels, MaskSet(nucleolimask), nMask);
    assert KeptSet(maskLabels, nMask, 4, -1) == {};
    HolesFilledEmpty(h, w);
    EmptyLabelling(nucleolilabels, HolesFilled(KeptSet(maskLabels, nMask, 4, -1), h, w), nnucleoli);
  }
}
