/** Properties of the segmentation pipeline as a whole: the nucleoli lie
    inside the nuclei, each nucleolus lies inside a single nucleus, and so
    the measurement finds every parent and counts every nucleolus once. */
module Pipeline {
  import opened Grid
  import opened Labeling
  import opened Regions
  import opened Edges
  import opened Filters
  import opened Segmentation
  import opened Measurement

  /** The final nucleolus foreground lies inside the nuclear foreground,
      because the nuclei are hole-free and the nucleolus mask lies inside
      them, so the holes filled in the nucleoli are nuclear pixels too. */
  lemma NucleoliInsideNuclei(nucleoli: array2<real>, dapilabels: array2<int>, nnuclei: nat, thresh: seq<real>,
                             nucleolimask: array2<bool>, maskLabels: array2<int>, nMask: nat,
                             nucleolilabels: array2<int>, nnucleoli: nat)
    requires nucleoli.Length0 == dapilabels.Length0 && nucleoli.Length1 == dapilabels.Length1
    requires IsLabelling(dapilabels, Positive(dapilabels), nnuclei)
    requires HoleFree(Positive(dapilabels), dapilabels.Length0, dapilabels.Length1)
    requires MaskSet(nucleolimask) == NucleolusForeground(nucleoli, dapilabels, thresh)
    requires IsLabelling(maskLabels, MaskSet(nucleolimask), nMask)
    requires IsLabelling(nucleolilabels, HolesFilled(KeptSet(maskLabels, nMask, 4, -1),
                                                      dapilabels.Length0, dapilabels.Length1), nnucleoli)
    ensures Positive(nucleolilabels) <= Positive(dapilabels)
  {
    var h, w := dapilabels.Length0, dapilabels.Length1;
    var nuclei := Positive(dapilabels);
    var kept := KeptSet(maskLabels, nMask, 4, -1);
    ForegroundInsideNuclei(nucleoli, dapilabels, nuclei, nnuclei, thresh);
    LabellingForeground(maskLabels, MaskSet(nucleolimask), nMask);
    assert kept <= Positive(maskLabels);
    assert nuclei <= AllPixels(h, w);
    HolesFilledWithin(kept, nuclei, h, w);
    LabellingForeground(nucleolilabels, HolesFilled(kept, h, w), nnucleoli);
  }

  /** A nucleolus inside the nuclear foreground lies within one nucleus: its
      pixels are connected within the nucleoli, hence within the nuclei, and
      so they all carry the same nuclear label d, which is in 1..nnuclei. */
  lemma SingleParent(dapilabels: array2<int>, nuclei: set<Pixel>, nnuclei: nat,
                     nucleolilabels: array2<int>, nucleolar: set<Pixel>, nnucleoli: nat, k: int)
    returns (d: int)
    requires dapilabels.Length0 == nucleolilabels.Length0 && dapilabels.Length1 == nucleolilabels.Length1
    requires IsLabelling(dapilabels, nuclei, nnuclei)
    requires IsLabelling(nucleolilabels, nucleolar, nnucleoli)
    requires nucleolar <= nuclei
    requires 1 <= k <= nnucleoli
    ensures 1 <= d <= nnuclei
    ensures forall i, j :: 0 <= i < dapilabels.Length0 && 0 <= j < dapilabels.Length1 && nucleolilabels[i, j] == k ==>
      dapilabels[i, j] == d
    ensures Area(nucleolilabels, k) > 0
  {
    assert Used(nucleolilabels, k);
    var qi, qj :| 0 <= qi < nucleolilabels.Length0 && 0 <= qj < nucleolilabels.Length1 && nucleolilabels[qi, qj] == k;
    AreaPositive(nucleolilabels, k, (qi, qj));
    assert (qi, qj) in nucleolar;
    d := dapilabels[qi, qj];
    forall i, j | 0 <= i < dapilabels.Length0 && 0 <= j < dapilabels.Length1 && nucleolilabels[i, j] == k
      ensures dapilabels[i, j] == d
    {
      assert Connected(nucleolar, (qi, qj), (i, j));
      ConnectedMono(nucleolar, nuclei, (qi, qj), (i, j));
      assert (i, j) in nucleolar;
    }
  }

  /** With the nucleoli inside the nuclei, the parent of every nucleolus is
      found: its slot is its nuclear label minus one. */
  lemma ParentsFound(dapilabels: array2<int>, nuclei: set<Pixel>, nnuclei: nat,
                     nucleolilabels: array2<int>, nucleolar: set<Pixel>, nnucleoli: nat)
    requires dapilabels.Length0 == nucleolilabels.Length0 && dapilabels.Length1 == nucleolilabels.Length1
    requires IsLabelling(dapilabels, nuclei, nnuclei)
    requires IsLabelling(nucleolilabels, nucleolar, nnucleoli)
    requires nucleolar <= nuclei
    ensures ParentSlots(IdSums(dapilabels, nucleolilabels, nnucleoli), AreaList(nucleolilabels, nnucleoli),
                        nnuclei, nnucleoli).Success?
    ensures forall n, i, j :: 0 <= n < nnucleoli && 0 <= i < dapilabels.Length0 && 0 <= j < dapilabels.Length1
                              && nucleolilabels[i, j] == n + 1 ==>
      && NearestId(IdSums(dapilabels, nucleolilabels, nnucleoli)[n], AreaList(nucleolilabels, nnucleoli)[n])
           == Success(dapilabels[i, j])
      && ParentSlots(IdSums(dapilabels, nucleolilabels, nnucleoli), AreaList(nucleolilabels, nnucleoli),
                     nnuclei, nnucleoli).value[n] == dapilabels[i, j] - 1
  {
    var sums, areas := IdSums(dapilabels, nucleolilabels, nnucleoli), AreaList(nucleolilabels, nnucleoli);
    forall n | 0 <= n < nnucleoli
      ensures Slot(sums[n], areas[n], nnuclei).Success?
      ensures forall i, j :: 0 <= i < dapilabels.Length0 && 0 <= j < dapilabels.Length1 && nucleolilabels[i, j] == n + 1 ==>
        NearestId(sums[n], areas[n]) == Success(dapilabels[i, j]) &&
        Slot(sums[n], areas[n], nnuclei).value == dapilabels[i, j] - 1
    {
      var d := SingleParent(dapilabels, nuclei, nnuclei, nucleolilabels, nucleolar, nnucleoli, n + 1);
      UniformSum(dapilabels, nucleolilabels, n + 1, d);
      MeanOfUniform(d, areas[n]);
      RoundInteger(d);
    }
  }

  lemma MeanOfUniform(d: int, a: int)
    requires a > 0
    ensures (d * a) as real / a as real == d as real
  {
  }

  /** For label maps produced by the pipeline, measurement succeeds; each
      record names the nucleus that contains its nucleolus, its nucleus's
      count is the number of nucleoli with that parent, and those counts add
      up to the number of nucleoli. */
  lemma MeasurementSucceeds(res: Result<seq<Record>>, dapilabels: array2<int>, nuclei: set<Pixel>, nnuclei: nat,
                            nucleolilabels: array2<int>, nucleolar: set<Pixel>, nnucleoli: nat, st: Intensities)
    requires dapilabels.Length0 == nucleolilabels.Length0 && dapilabels.Length1 == nucleolilabels.Length1
    requires Sized(st, nnuclei, nnucleoli)
    requires IsLabelling(dapilabels, nuclei, nnuclei)
    requires IsLabelling(nucleolilabels, nucleolar, nnucleoli)
    requires nucleolar <= nuclei
    requires Measured(res, IdSums(dapilabels, nucleolilabels, nnucleoli), AreaList(nucleolilabels, nnucleoli),
                      AreaList(dapilabels, nnuclei), st, nnuclei, nnucleoli)
    ensures res.Success? && |res.value| == nnucleoli
    ensures forall n, i, j :: 0 <= n < nnucleoli && 0 <= i < dapilabels.Length0 && 0 <= j < dapilabels.Length1
                              && nucleolilabels[i, j] == n + 1 ==>
      res.value[n].nuclearId == dapilabels[i, j]
    ensures Total(Tally(ParentSlots(IdSums(dapilabels, nucleolilabels, nnucleoli), AreaList(nucleolilabels, nnucleoli),
                                    nnuclei, nnucleoli).value, nnuclei)) == nnucleoli
  {
    var sums, areas := IdSums(dapilabels, nucleolilabels, nnucleoli), AreaList(nucleolilabels, nnucleoli);
    ParentsFound(dapilabels, nuclei, nnuclei, nucleolilabels, nucleolar, nnucleoli);
    var s := ParentSlots(sums, areas, nnuclei, nnucleoli).value;
    TallyTotal(s, nnuclei);
    MeasuredRecords(res, sums, areas, AreaList(dapilabels, nnuclei), st, nnuclei, nnucleoli);
  }

  /** An image with no signal above 0 yields no nuclei, no nucleoli and an
      empty measurement table. */
  lemma EmptyImage(dapisub: array2<real>, nucthresh: real, minsize: int, maxsize: int,
                   dapimask: array2<bool>, dapilabels: array2<int>, nnuclei: nat,
                   mx: real, edgeLabels: array2<int>, nEdge: nat,
                   nucleoli: array2<real>, thresh: seq<real>, nucleolimask: array2<bool>,
                   maskLabels: array2<int>, nMask: nat, nucleolilabels: array2<int>, nnucleoli: nat,
                   st: Intensities, res: Result<seq<Record>>)
    requires IsMaximum(dapisub, mx) && mx <= 0.0 && 0.0 <= nucthresh <= 1.0
    requires dapimask.Length0 == dapisub.Length0 && dapimask.Length1 == dapisub.Length1
    requires forall i, j :: 0 <= i < dapisub.Length0 && 0 <= j < dapisub.Length1 ==>
      (dapimask[i, j] <==> dapisub[i, j] > nucthresh * mx)
    requires IsLabelling(edgeLabels, ClearedEdges(MaskSet(dapimask), dapisub.Length0, dapisub.Length1, 2), nEdge)
    requires IsLabelling(dapilabels, HolesFilled(KeptSet(edgeLabels, nEdge, minsize, maxsize),
                                                  dapisub.Length0, dapisub.Length1), nnuclei)
    requires nucleoli.Length0 == dapilabels.Length0 && nucleoli.Length1 == dapilabels.Length1
    requires MaskSet(nucleolimask) == NucleolusForeground(nucleoli, dapilabels, thresh)
    requires IsLabelling(maskLabels, MaskSet(nucleolimask), nMask)
    requires IsLabelling(nucleolilabels, HolesFilled(KeptSet(maskLabels, nMask, 4, -1),
                                                      dapilabels.Length0, dapilabels.Length1), nnucleoli)
    requires Sized(st, nnuclei, nnucleoli)
    requires nucleolilabels.Length0 == dapilabels.Length0 && nucleolilabels.Length1 == dapilabels.Length1
    requires Measured(res, IdSums(dapilabels, nucleolilabels, nnucleoli), AreaList(nucleolilabels, nnucleoli),
                      AreaList(dapilabels, nnuclei), st, nnuclei, nnucleoli)
    ensures nnuclei == 0 && nnucleoli == 0
    ensures res == Success([])
  {
    NoNucleiWithoutSignal(dapisub, nucthresh, minsize, maxsize, dapimask, dapilabels, nnuclei, mx, edgeLabels, nEdge);
    ghost var nuclei := HolesFilled(KeptSet(edgeLabels, nEdge, minsize, maxsize), dapisub.Length0, dapisub.Length1);
    NoNucleoliWithoutNuclei(nucleoli, dapilabels, nuclei,
                            thresh, nucleolimask, maskLabels, nMask, nucleolilabels, nnucleoli);
    EmptyMeasurement(res, IdSums(dapilabels, nucleolilabels, 0), AreaList(nucleolilabels, 0),
                     AreaList(dapilabels, 0), st, 0);
  }
}
