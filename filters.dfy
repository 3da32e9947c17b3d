/** Size filtering of labelled objects, followed by hole filling and
    relabelling. */
module Filters {
  import opened Grid
  import opened Labeling
  import opened Regions
  import opened Edges

  /** An object is removed when its area is below minsize, or when maxsize
      is positive and its area is above it. An area equal to either bound is
      kept, and a maxsize of 0 or less sets no upper bound. */
  predicate Removed(area: int, minsize: int, maxsize: int) {
    area < minsize || (maxsize > 0 && area > maxsize)
  }

  /** The size bounds are inclusive: an area equal to minsize or to maxsize
      is kept, one pixel less than minsize or more than a positive maxsize is
      removed, and a maxsize of 0 or less removes nothing for being large. */
  lemma SizeBounds(minsize: int, maxsize: int, area: int)
    ensures minsize <= maxsize || maxsize <= 0 ==> !Removed(minsize, minsize, maxsize)
    ensures minsize <= maxsize ==> !Removed(maxsize, minsize, maxsize)
    ensures Removed(minsize - 1, minsize, maxsize)
    ensures maxsize > 0 ==> Removed(maxsize + 1, minsize, maxsize)
    ensures maxsize <= 0 ==> (Removed(area, minsize, maxsize) <==> area < minsize)
  {
  }

  /** The foreground left after removal: positive pixels whose label is
      outside 1..nobj, or is a label whose area passes the size test. */
  ghost function KeptSet(labels: array2<int>, nobj: nat, minsize: int, maxsize: int): set<Pixel>
    reads labels
  {
    set i, j | 0 <= i < labels.Length0 && 0 <= j < labels.Length1 && labels[i, j] > 0
                 && !(labels[i, j] <= nobj && Removed(Area(labels, labels[i, j]), minsize, maxsize)) :: (i, j)
  }

  /** Erases, in a copy of the label map, every object 1..nobj that fails
      the size test. */
  method RemoveBySize(labels: array2<int>, nobj: nat, minsize: int, maxsize: int) returns (filtered: array2<int>)
    ensures filtered.Length0 == labels.Length0 && filtered.Length1 == labels.Length1
    ensures forall i, j :: 0 <= i < labels.Length0 && 0 <= j < labels.Length1 ==>
      filtered[i, j] == if 1 <= labels[i, j] <= nobj && Removed(Area(labels, labels[i, j]), minsize, maxsize)
                        then 0 else labels[i, j]
  {
    var objareas := Areas(labels, nobj);
    filtered := new int[labels.Length0, labels.Length1]((i, j) reads labels =>
      if 0 <= i < labels.Length0 && 0 <= j < labels.Length1 then labels[i, j] else 0);
    for k := 0 to nobj
      invariant forall i, j :: 0 <= i < labels.Length0 && 0 <= j < labels.Length1 ==>
        filtered[i, j] == if 1 <= labels[i, j] <= k && Removed(objareas[labels[i, j] - 1], minsize, maxsize)
                          then 0 else labels[i, j]
    {
      if objareas[k] < minsize {
        AssignWhere(filtered, labels, k + 1, 0);
      } else if maxsize > 0 && objareas[k] > maxsize {
        AssignWhere(filtered, labels, k + 1, 0);
      }
    }
  }

  /** Removes the objects that fail the size test, fills the holes of what
      is left (always: the flag that would turn this off is never read), and
      labels the result. Every kept pixel is still foreground, the only
      pixels added are enclosed holes, and the output has no holes. */
  method FilterObjects(labels: array2<int>, nobj: nat, minsize: int, maxsize: int) returns (lab: array2<int>, n: nat)
    ensures lab.Length0 == labels.Length0 && lab.Length1 == labels.Length1
    ensures IsLabelling(lab, HolesFilled(KeptSet(labels, nobj, minsize, maxsize), labels.Length0, labels.Length1), n)
    ensures KeptSet(labels, nobj, minsize, maxsize) <= Positive(lab)
    ensures HoleFree(Positive(lab), labels.Length0, labels.Length1)
  {
    var h, w := labels.Length0, labels.Length1;
    var filtered := RemoveBySize(labels, nobj, minsize, maxsize);
    var fg := new bool[h, w]((i, j) reads filtered =>
      0 <= i < filtered.Length0 && 0 <= j < filtered.Length1 && filtered[i, j] > 0);
    PositiveMask(fg, filtered);
    KeptIsPositive(labels, nobj, minsize, maxsize, filtered);
    var filled := FillHoles(fg);
    lab, n := Label(filled);
    ghost var kept := KeptSet(labels, nobj, minsize, maxsize);
    LabellingForeground(lab, HolesFilled(kept, h, w), n);
    HolesFilledIsHoleFree(kept, h, w);
  }

  lemma KeptIsPositive(labels: array2<int>, nobj: nat, minsize: int, maxsize: int, filtered: array2<int>)
    requires filtered.Length0 == labels.Length0 && filtered.Length1 == labels.Length1
    requires forall i, j :: 0 <= i < labels.Length0 && 0 <= j < labels.Length1 ==>
      filtered[i, j] == if 1 <= labels[i, j] <= nobj && Removed(Area(labels, labels[i, j]), minsize, maxsize)
                        then 0 else labels[i, j]
    ensures Positive(filtered) == KeptSet(labels, nobj, minsize, maxsize)
    ensures KeptSet(labels, nobj, minsize, maxsize) <= AllPixels(labels.Length0, labels.Length1)
  {
  }

  /** When the input is a labelling with nobj objects, size filtering keeps
      or removes each 8-connected object as a whole. */
  lemma KeptWholeObjects(labels: array2<int>, fg: set<Pixel>, nobj: nat, minsize: int, maxsize: int, p: Pixel, q: Pixel)
    requires IsLabelling(labels, fg, nobj)
    requires Connected(fg, p, q)
    ensures p in KeptSet(labels, nobj, minsize, maxsize) <==> q in KeptSet(labels, nobj, minsize, maxsize)
  {
    ConnectedEnds(fg, p, q);
    assert labels[p.0, p.1] == labels[q.0, q.1];
  }
}
