/** Association of each nucleolus with its parent nucleus, the count of
    nucleoli per nucleus, and the assembly of one record per nucleolus.
    Per-label intensity statistics are inputs; areas and the label sums used
    to find parents are computed exactly. */
module Measurement {
  import opened Grid
  import opened Regions

  datatype Option<T> = None | Some(value: T)

  /** The two ways the measurement can fail: rounding the mean of an empty
      region (NaN) and indexing outside the list of nuclei. */
  datatype Error = ValueError | IndexError

  datatype Result<T> = Success(value: T) | Failure(error: Error)

  /** One row of the measurement table. */
  datatype Record = Record(
    id: int,
    nuclearId: int,
    nuclearArea: int,
    nuclearAvg: real,
    nuclearStdev: real,
    numberNucleoli: int,
    nucleolarArea: int,
    nucleolarAvg: real,
    nucleolarStdev: real,
    thirdNucAvg: real,
    thirdNucStdev: real,
    thirdNuclAvg: real,
    thirdNuclStdev: real)

  /** Per-label intensity statistics: means and standard deviations of the
      nucleolar image and of the third image, over each nucleus and over each
      nucleolus. */
  datatype Intensities = Intensities(
    nuclearMeans: seq<real>, nuclearStds: seq<real>,
    thirdNucMeans: seq<real>, thirdNucStds: seq<real>,
    nucleolarMeans: seq<real>, nucleolarStds: seq<real>,
    thirdMeans: seq<real>, thirdStds: seq<real>)

  predicate Sized(st: Intensities, nnuclei: nat, nnucleoli: nat) {
    && |st.nuclearMeans| == nnuclei && |st.nuclearStds| == nnuclei
    && |st.thirdNucMeans| == nnuclei && |st.thirdNucStds| == nnuclei
    && |st.nucleolarMeans| == nnucleoli && |st.nucleolarStds| == nnucleoli
    && |st.thirdMeans| == nnucleoli && |st.thirdStds| == nnucleoli
  }

  /** Rounding to the nearest integer, ties to the even neighbour. */
  function RoundHalfEven(x: real): (r: int)
    ensures x - 0.5 <= r as real <= x + 0.5
    ensures (r as real == x - 0.5 || r as real == x + 0.5) ==> r % 2 == 0
  {
    var f := x.Floor;
    var d := x - f as real;
    if d < 0.5 then f
    else if d > 0.5 then f + 1
    else if f % 2 == 0 then f else f + 1
  }

  /** Rounding leaves integers alone. */
  lemma RoundInteger(k: int)
    ensures RoundHalfEven(k as real) == k
  {
    var r := RoundHalfEven(k as real);
    assert k as real - 0.5 <= r as real <= k as real + 0.5;
  }

  /** A list index as Python reads it: -len..-1 count from the end, and any
      other index outside 0..len-1 is an error. */
  function PyIndex(i: int, len: nat): (r: Option<nat>)
    ensures r.Some? <==> -(len as int) <= i < len
    ensures r.Some? ==> r.value < len && (r.value - i) % len == 0
  {
    if 0 <= i < len then Some(i)
    else if -(len as int) <= i < 0 then Some(i + len)
    else None
  }

  /** The rounded mean of the nuclear labels over a nucleolus: the 1-based
      id of its parent. An empty region has a NaN mean, which cannot be
      converted to an integer. */
  function NearestId(sum: int, area: int): (r: Result<int>)
    ensures r.Failure? <==> area == 0
    ensures r.Failure? ==> r.error == ValueError
  {
    if area == 0 then Failure(ValueError) else Success(RoundHalfEven(sum as real / area as real))
  }

  /** The position of the parent in the per-nucleus lists: the rounded id
      minus one, read as a Python index. */
  function Slot(sum: int, area: int, nnuclei: nat): (r: Result<nat>)
    ensures r.Success? ==> r.value < nnuclei
    ensures r.Success? <==> NearestId(sum, area).Success? && -(nnuclei as int) <= NearestId(sum, area).value - 1 < nnuclei
  {
    match NearestId(sum, area)
    case Failure(e) => Failure(e)
    case Success(id) =>
      match PyIndex(id - 1, nnuclei)
      case None => Failure(IndexError)
      case Some(s) => Success(s)
  }

  /** The parent slots of nucleoli 0..k-1, or the error of the first
      nucleolus whose parent cannot be found. */
  function ParentSlots(sums: seq<int>, areas: seq<int>, nnuclei: nat, k: nat): (r: Result<seq<nat>>)
    requires k <= |sums| && k <= |areas|
    ensures r.Success? <==> forall i :: 0 <= i < k ==> Slot(sums[i], areas[i], nnuclei).Success?
    ensures r.Success? ==> |r.value| == k && forall i :: 0 <= i < k ==> Slot(sums[i], areas[i], nnuclei) == Success(r.value[i])
    ensures r.Failure? ==> exists i :: 0 <= i < k && Slot(sums[i], areas[i], nnuclei) == Failure(r.error)
                                 && forall j :: 0 <= j < i ==> Slot(sums[j], areas[j], nnuclei).Success?
    decreases k
  {
    if k == 0 then Success([])
    else
      match ParentSlots(sums, areas, nnuclei, k - 1)
      case Failure(e) => Failure(e)
      case Success(s) =>
        match Slot(sums[k - 1], areas[k - 1], nnuclei)
        case Failure(e) => Failure(e)
        case Success(x) => Success(s + [x])
  }

  /** The number of times k occurs in s. */
  function Occurrences(s: seq<nat>, k: nat): (c: nat)
    ensures c <= |s|
  {
    if |s| == 0 then 0
    else Occurrences(s[..|s| - 1], k) + (if s[|s| - 1] == k then 1 else 0)
  }

  function Total(s: seq<int>): int {
    if |s| == 0 then 0 else Total(s[..|s| - 1]) + s[|s| - 1]
  }

  /** The per-nucleus counts of a list of parent slots. */
  function Tally(s: seq<nat>, n: nat): (t: seq<int>)
    ensures |t| == n
  {
    seq(n, k requires 0 <= k < n => Occurrences(s, k))
  }

  /** Every nucleolus is counted once: when all slots are below n, the counts
      of nuclei 0..n-1 add up to the number of nucleoli. */
  lemma {:induction false} TallyTotal(s: seq<nat>, n: nat)
    requires forall i :: 0 <= i < |s| ==> s[i] < n
    ensures Total(Tally(s, n)) == |s|
    decreases |s|
  {
    if |s| == 0 {
      TotalOfZeros(Tally(s, n));
    } else {
      var init, x := s[..|s| - 1], s[|s| - 1];
      TallyTotal(init, n);
      assert Tally(s, n) == Tally(init, n)[x := Tally(init, n)[x] + 1];
      TotalIncrement(Tally(init, n), x);
    }
  }

  lemma {:induction false} TotalOfZeros(t: seq<int>)
    requires forall k :: 0 <= k < |t| ==> t[k] == 0
    ensures Total(t) == 0
    decreases |t|
  {
    if |t| > 0 {
      TotalOfZeros(t[..|t| - 1]);
    }
  }

  lemma {:induction false} TotalIncrement(t: seq<int>, x: nat)
    requires x < |t|
    ensures Total(t[x := t[x] + 1]) == Total(t) + 1
    decreases |t|
  {
    var u := t[x := t[x] + 1];
    assert u[..|u| - 1] == if x < |t| - 1 then t[..|t| - 1][x := t[x] + 1] else t[..|t| - 1];
    if x < |t| - 1 {
      TotalIncrement(t[..|t| - 1], x);
    }
  }

  /** The outcome of the measurement, for the given label sums (of the
      nuclear labels over each nucleolus), areas and statistics: the error of
      the first nucleolus whose parent cannot be found, or one record per
      nucleolus in label order, carrying its 0-based id, the rounded parent
      id, the parent's measurements read at the parent's slot, the parent's
      number of nucleoli and its own measurements. */
  ghost predicate Measured(res: Result<seq<Record>>, sums: seq<int>, nucleolarAreas: seq<int>,
                           nuclearAreas: seq<int>, st: Intensities, nnuclei: nat, nnucleoli: nat)
    requires |sums| == nnucleoli && |nucleolarAreas| == nnucleoli && |nuclearAreas| == nnuclei
    requires Sized(st, nnuclei, nnucleoli)
  {
    var slots := ParentSlots(sums, nucleolarAreas, nnuclei, nnucleoli);
    match slots
    case Failure(e) => res == Failure(e)
    case Success(s) =>
      && res.Success?
      && |res.value| == nnucleoli
      && forall i :: 0 <= i < nnucleoli ==>
           var r, p := res.value[i], s[i];
           && r.id == i
           && r.nuclearId == NearestId(sums[i], nucleolarAreas[i]).value
           && r.nuclearArea == nuclearAreas[p]
           && r.nuclearAvg == st.nuclearMeans[p]
           && r.nuclearStdev == st.nuclearStds[p]
           && r.numberNucleoli == Occurrences(s, p)
           && r.nucleolarArea == nucleolarAreas[i]
           && r.nucleolarAvg == st.nucleolarMeans[i]
           && r.nucleolarStdev == st.nucleolarStds[i]
           && r.thirdNucAvg == st.thirdNucMeans[p]
           && r.thirdNucStdev == st.thirdNucStds[p]
           && r.thirdNuclAvg == st.thirdMeans[i]
           && r.thirdNuclStdev == st.thirdStds[i]
  }

  /** When every parent is found, the measurement yields one record per
      nucleolus, carrying the rounded parent id. */
  lemma MeasuredRecords(res: Result<seq<Record>>, sums: seq<int>, nucleolarAreas: seq<int>,
                        nuclearAreas: seq<int>, st: Intensities, nnuclei: nat, nnucleoli: nat)
    requires |sums| == nnucleoli && |nucleolarAreas| == nnucleoli && |nuclearAreas| == nnuclei
    requires Sized(st, nnuclei, nnucleoli)
    requires Measured(res, sums, nucleolarAreas, nuclearAreas, st, nnuclei, nnucleoli)
    requires ParentSlots(sums, nucleolarAreas, nnuclei, nnucleoli).Success?
    ensures res.Success? && |res.value| == nnucleoli
    ensures forall i :: 0 <= i < nnucleoli ==> res.value[i].nuclearId == NearestId(sums[i], nucleolarAreas[i]).value
  {
  }

  /** Without nucleoli the measurement is an empty table, not an error. */
  lemma EmptyMeasurement(res: Result<seq<Record>>, sums: seq<int>, nucleolarAreas: seq<int>,
                         nuclearAreas: seq<int>, st: Intensities, nnuclei: nat)
    requires |sums| == 0 && |nucleolarAreas| == 0 && |nuclearAreas| == nnuclei
    requires Sized(st, nnuclei, 0)
    requires Measured(res, sums, nucleolarAreas, nuclearAreas, st, nnuclei, 0)
    ensures res == Success([])
  {
  }

  /** Counts the nucleoli of each nucleus, stopping at the first nucleolus
      whose parent cannot be found. */
  method CountNucleoli(sums: seq<int>, nucleolarAreas: seq<int>, nnuclei: nat, nnucleoli: nat)
    returns (res: Result<seq<int>>)
    requires |sums| == nnucleoli && |nucleolarAreas| == nnucleoli
    ensures ParentSlots(sums, nucleolarAreas, nnuclei, nnucleoli).Failure? ==>
      res == Failure(ParentSlots(sums, nucleolarAreas, nnuclei, nnucleoli).error)
    ensures ParentSlots(sums, nucleolarAreas, nnuclei, nnucleoli).Success? ==>
      res == Success(Tally(ParentSlots(sums, nucleolarAreas, nnuclei, nnucleoli).value, nnuclei))
  {
    var counts := seq(nnuclei, _ => 0);
    ghost var slots: seq<nat> := [];
    for i := 0 to nnucleoli
      invariant ParentSlots(sums, nucleolarAreas, nnuclei, i) == Success(slots)
      invariant counts == Tally(slots, nnuclei)
    {
      var r := Slot(sums[i], nucleolarAreas[i], nnuclei);
      if r.Failure? {
        FailurePersists(sums, nucleolarAreas, nnuclei, i + 1, nnucleoli);
        return Failure(r.error);
      }
      counts := counts[r.value := counts[r.value] + 1];
      assert (slots + [r.value])[..|slots|] == slots;
      slots := slots + [r.value];
    }
    return Success(counts);
  }

  /** Once a prefix of the nucleoli fails, the whole list fails with the
      same error. */
  lemma {:induction false} FailurePersists(sums: seq<int>, areas: seq<int>, nnuclei: nat, k: nat, m: nat)
    requires k <= m <= |sums| && m <= |areas|
    requires ParentSlots(sums, areas, nnuclei, k).Failure?
    ensures ParentSlots(sums, areas, nnuclei, m) == ParentSlots(sums, areas, nnuclei, k)
    decreases m - k
  {
    if k < m {
      assert ParentSlots(sums, areas, nnuclei, k + 1) == ParentSlots(sums, areas, nnuclei, k);
      FailurePersists(sums, areas, nnuclei, k + 1, m);
    }
  }

  /** Builds the record of every nucleolus from the counts and the per-label
      measurements. */
  method Assemble(sums: seq<int>, nucleolarAreas: seq<int>, nuclearAreas: seq<int>, st: Intensities,
                  nnuclei: nat, nnucleoli: nat)
    returns (res: Result<seq<Record>>)
    requires |sums| == nnucleoli && |nucleolarAreas| == nnucleoli && |nuclearAreas| == nnuclei
    requires Sized(st, nnuclei, nnucleoli)
    ensures Measured(res, sums, nucleolarAreas, nuclearAreas, st, nnuclei, nnucleoli)
  {
    var tally := CountNucleoli(sums, nucleolarAreas, nnuclei, nnucleoli);
    if tally.Failure? {
      return Failure(tally.error);
    }
    var counts := tally.value;
    ghost var s := ParentSlots(sums, nucleolarAreas, nnuclei, nnucleoli).value;
    var measurements: seq<Record> := [];
    for i := 0 to nnucleoli
      invariant |measurements| == i
      invariant forall j :: 0 <= j < i ==>
        var r, p := measurements[j], s[j];
        && r.id == j
        && r.nuclearId == NearestId(sums[j], nucleolarAreas[j]).value
        && r.nuclearArea == nuclearAreas[p]
        && r.nuclearAvg == st.nuclearMeans[p]
        && r.nuclearStdev == st.nuclearStds[p]
        && r.numberNucleoli == Occurrences(s, p)
        && r.nucleolarArea == nucleolarAreas[j]
        && r.nucleolarAvg == st.nucleolarMeans[j]
        && r.nucleolarStdev == st.nucleolarStds[j]
        && r.thirdNucAvg == st.thirdNucMeans[p]
        && r.thirdNucStdev == st.thirdNucStds[p]
        && r.thirdNuclAvg == st.thirdMeans[j]
        && r.thirdNuclStdev == st.thirdStds[j]
    {
      var nid := NearestId(sums[i], nucleolarAreas[i]).value - 1;
      var p := PyIndex(nid, nnuclei).value;
      measurements := measurements + [Record(
        i, nid + 1, nuclearAreas[p], st.nuclearMeans[p], st.nuclearStds[p], counts[p],
        nucleolarAreas[i], st.nucleolarMeans[i], st.nucleolarStds[i],
        st.thirdNucMeans[p], st.thirdNucStds[p], st.thirdMeans[i], st.thirdStds[i])];
    }
    return Success(measurements);
  }

  /** The sum of the nuclear labels over each nucleolus 1..n. */
  ghost function IdSums(dapilabels: array2<int>, nucleolilabels: array2<int>, n: nat): (s: seq<int>)
    requires dapilabels.Length0 == nucleolilabels.Length0 && dapilabels.Length1 == nucleolilabels.Length1
    reads dapilabels, nucleolilabels
    ensures |s| == n
  {
    seq(n, i requires 0 <= i < n reads dapilabels, nucleolilabels => LabelSum(dapilabels, nucleolilabels, i + 1))
  }

  /** The area of each label 1..n. */
  ghost function AreaList(labels: array2<int>, n: nat): (s: seq<int>)
    reads labels
    ensures |s| == n
  {
    seq(n, i requires 0 <= i < n reads labels => Area(labels, i + 1))
  }

  /** Measures every nucleolus against the nuclear and nucleolar label maps. */
  method MeasureAll(dapilabels: array2<int>, nnuclei: nat, nucleolilabels: array2<int>, nnucleoli: nat,
                    st: Intensities)
    returns (res: Result<seq<Record>>)
    requires dapilabels.Length0 == nucleolilabels.Length0 && dapilabels.Length1 == nucleolilabels.Length1
    requires Sized(st, nnuclei, nnucleoli)
    ensures Measured(res, IdSums(dapilabels, nucleolilabels, nnucleoli), AreaList(nucleolilabels, nnucleoli),
                     AreaList(dapilabels, nnuclei), st, nnuclei, nnucleoli)
  {
    var nuclearAreas := Areas(dapilabels, nnuclei);
    var nucleolarAreas := Areas(nucleolilabels, nnucleoli);
    var sums := SumByLabel(dapilabels, nucleolilabels, nnucleoli);
    assert sums == IdSums(dapilabels, nucleolilabels, nnucleoli);
    assert nuclearAreas == AreaList(dapilabels, nnuclei);
    assert nucleolarAreas == AreaList(nucleolilabels, nnucleoli);
    res := Assemble(sums, nucleolarAreas, nuclearAreas, st, nnuclei, nnucleoli);
  }
}
