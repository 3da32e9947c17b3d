/** Clearing the objects that touch a border zone, and hole filling, both
    built from connected-component labelling and a masked clearing loop. */
module Edges {
  import opened Grid
  import opened Labeling
  import opened Regions

  /** The objects of fg none of whose pixels lies in the border zone. */
  ghost function ClearedEdges(fg: set<Pixel>, h: int, w: int, border: nat): (r: set<Pixel>)
    ensures r <= fg
  {
    set p | p in fg && !TouchesZone(fg, h, w, border, p)
  }

  /** The values the label map takes in the border zone: the top and bottom
      `border` rows and the left and right `border` columns. */
  ghost function ZoneValues(labels: array2<int>, border: nat): set<int>
    reads labels
  {
    set i, j | 0 <= i < labels.Length0 && 0 <= j < labels.Length1
                 && InZone(labels.Length0, labels.Length1, border, (i, j)) :: labels[i, j]
  }

  /** The distinct values found in the border zone (the sort order of the
      unique values plays no part in what is done with them). */
  method EdgeValues(labels: array2<int>, border: nat) returns (vals: seq<int>)
    ensures forall v :: v in vals <==> v in ZoneValues(labels, border)
    ensures forall a, b :: 0 <= a < b < |vals| ==> vals[a] != vals[b]
  {
    var h, w := labels.Length0, labels.Length1;
    vals := [];
    for i := 0 to h
      invariant forall v :: v in vals ==> v in ZoneValues(labels, border)
      invariant forall a, b :: 0 <= a < b < |vals| ==> vals[a] != vals[b]
      invariant forall r, c :: 0 <= r < i && 0 <= c < w && InZone(h, w, border, (r, c)) ==> labels[r, c] in vals
    {
      for j := 0 to w
        invariant forall v :: v in vals ==> v in ZoneValues(labels, border)
        invariant forall a, b :: 0 <= a < b < |vals| ==> vals[a] != vals[b]
        invariant forall r, c :: 0 <= r < i && 0 <= c < w && InZone(h, w, border, (r, c)) ==> labels[r, c] in vals
        invariant forall c :: 0 <= c < j && InZone(h, w, border, (i, c)) ==> labels[i, c] in vals
      {
        if InZone(h, w, border, (i, j)) && labels[i, j] !in vals {
          vals := vals + [labels[i, j]];
        }
      }
    }
  }

  /** A copy of the label map in which every object whose label is one of
      the nonzero values in vals is erased. */
  method ClearValues(labels: array2<int>, vals: seq<int>) returns (filtered: array2<int>)
    ensures filtered.Length0 == labels.Length0 && filtered.Length1 == labels.Length1
    ensures forall i, j :: 0 <= i < labels.Length0 && 0 <= j < labels.Length1 ==>
      filtered[i, j] == if labels[i, j] in vals then 0 else labels[i, j]
  {
    filtered := new int[labels.Length0, labels.Length1]((i, j) reads labels =>
      if 0 <= i < labels.Length0 && 0 <= j < labels.Length1 then labels[i, j] else 0);
    for k := 0 to |vals|
      invariant forall i, j :: 0 <= i < labels.Length0 && 0 <= j < labels.Length1 ==>
        filtered[i, j] == if labels[i, j] in vals[..k] then 0 else labels[i, j]
    {
      assert vals[..k + 1] == vals[..k] + [vals[k]];
      if vals[k] != 0 {
        AssignWhere(filtered, labels, vals[k], 0);
      }
    }
    assert vals[..|vals|] == vals;
  }

  /** Erasing the labels found in the zone from a labelling of fg leaves
      exactly the objects of fg that do not touch the zone. */
  lemma ClearedFromLabelling(labels: array2<int>, fg: set<Pixel>, n: int, border: nat, filtered: array2<int>)
    requires IsLabelling(labels, fg, n)
    requires filtered.Length0 == labels.Length0 && filtered.Length1 == labels.Length1
    requires forall i, j :: 0 <= i < labels.Length0 && 0 <= j < labels.Length1 ==>
      filtered[i, j] == if labels[i, j] in ZoneValues(labels, border) then 0 else labels[i, j]
    ensures Positive(filtered) == ClearedEdges(fg, labels.Length0, labels.Length1, border)
  {
    var h, w := labels.Length0, labels.Length1;
    var zv := ZoneValues(labels, border);
    forall p | p in Positive(filtered) ensures p in ClearedEdges(fg, h, w, border) {
      assert labels[p.0, p.1] != 0 && labels[p.0, p.1] !in zv;
    }
    forall p | p in ClearedEdges(fg, h, w, border) ensures p in Positive(filtered) {
      assert labels[p.0, p.1] != 0;
    }
  }

  /** Labels the mask, erases every object with a pixel in the border zone,
      and labels what is left. */
  method LabelClearEdges(mask: array2<bool>, border: nat) returns (lab: array2<int>, n: nat)
    ensures lab.Length0 == mask.Length0 && lab.Length1 == mask.Length1
    ensures IsLabelling(lab, ClearedEdges(MaskSet(mask), mask.Length0, mask.Length1, border), n)
  {
    var labels, n0 := Label(mask);
    var ev := EdgeValues(labels, border);
    var filtered := ClearValues(labels, ev);
    ClearedFromLabelling(labels, MaskSet(mask), n0, border, filtered);
    var kept := new bool[mask.Length0, mask.Length1]((i, j) reads filtered =>
      0 <= i < filtered.Length0 && 0 <= j < filtered.Length1 && filtered[i, j] > 0);
    PositiveMask(kept, filtered);
    lab, n := Label(kept);
  }

  /** Fills the holes of the mask: the background is labelled, and the
      background objects that do not touch the image frame are added. */
  method FillHoles(mask: array2<bool>) returns (filled: array2<bool>)
    ensures filled.Length0 == mask.Length0 && filled.Length1 == mask.Length1
    ensures MaskSet(filled) == HolesFilled(MaskSet(mask), mask.Length0, mask.Length1)
  {
    var h, w := mask.Length0, mask.Length1;
    var bg := new bool[h, w]((i, j) reads mask => 0 <= i < h && 0 <= j < w && !mask[i, j]);
    var bl, bn := Label(bg);
    var ev := EdgeValues(bl, 1);
    var holes := ClearValues(bl, ev);
    ClearedFromLabelling(bl, MaskSet(bg), bn, 1, holes);
    filled := new bool[h, w]((i, j) reads mask, holes =>
      0 <= i < h && 0 <= j < w && (mask[i, j] || holes[i, j] > 0));
    ComplementMask(mask, bg);
    UnionMask(filled, mask, holes);
    HolesAreClearedBackground(MaskSet(mask), MaskSet(bg), Positive(holes), MaskSet(filled), h, w);
  }

  lemma PositiveMask(kept: array2<bool>, filtered: array2<int>)
    requires kept.Length0 == filtered.Length0 && kept.Length1 == filtered.Length1
    requires forall i, j :: 0 <= i < kept.Length0 && 0 <= j < kept.Length1 ==> kept[i, j] == (filtered[i, j] > 0)
    ensures MaskSet(kept) == Positive(filtered)
  {
  }

  lemma ComplementMask(mask: array2<bool>, bg: array2<bool>)
    requires bg.Length0 == mask.Length0 && bg.Length1 == mask.Length1
    requires forall i, j :: 0 <= i < mask.Length0 && 0 <= j < mask.Length1 ==> bg[i, j] == !mask[i, j]
    ensures forall p :: p in MaskSet(bg) <==> InBounds(mask.Length0, mask.Length1, p) && p !in MaskSet(mask)
  {
  }

  lemma UnionMask(filled: array2<bool>, mask: array2<bool>, holes: array2<int>)
    requires filled.Length0 == mask.Length0 == holes.Length0 && filled.Length1 == mask.Length1 == holes.Length1
    requires forall i, j :: 0 <= i < mask.Length0 && 0 <= j < mask.Length1 ==>
      filled[i, j] == (mask[i, j] || holes[i, j] > 0)
    ensures forall p :: p in MaskSet(filled) <==> p in MaskSet(mask) || p in Positive(holes)
  {
  }

  /** The holes of fg are the objects of the background that do not touch
      the frame. */
  lemma HolesAreClearedBackground(fg: set<Pixel>, bg: set<Pixel>, holes: set<Pixel>, filled: set<Pixel>, h: int, w: int)
    requires forall p :: p in fg ==> InBounds(h, w, p)
    requires forall p :: p in bg <==> InBounds(h, w, p) && p !in fg
    requires holes == ClearedEdges(bg, h, w, 1)
    requires forall p :: p in filled <==> p in fg || p in holes
    ensures filled == HolesFilled(fg, h, w)
  {
    var all := AllPixels(h, w);
    assert bg == all - fg;
  }

  // ---------------------------------------------------------------------
  // Properties of edge clearing

  /** Objects are erased whole: pixels connected within fg are both kept or
      both erased. */
  lemma ClearedWholeObjects(fg: set<Pixel>, h: int, w: int, border: nat, p: Pixel, q: Pixel)
    requires Connected(fg, p, q)
    ensures p in ClearedEdges(fg, h, w, border) <==> q in ClearedEdges(fg, h, w, border)
  {
    ConnectedEnds(fg, p, q);
    if TouchesZone(fg, h, w, border, p) {
      var z :| InBounds(h, w, z) && InZone(h, w, border, z) && Connected(fg, z, p);
      ConnectedTrans(fg, z, p, q);
    }
    if TouchesZone(fg, h, w, border, q) {
      var z :| InBounds(h, w, z) && InZone(h, w, border, z) && Connected(fg, z, q);
      ConnectedSym(fg, p, q);
      ConnectedTrans(fg, z, q, p);
    }
  }

  /** No pixel of the zone survives edge clearing. */
  lemma ClearedAvoidsZone(fg: set<Pixel>, h: int, w: int, border: nat, p: Pixel)
    requires InBounds(h, w, p) && InZone(h, w, border, p)
    ensures p !in ClearedEdges(fg, h, w, border)
  {
    if p in fg {
      ConnectedRefl(fg, p);
    }
  }

  /** A border of 0 makes the zone the whole image, so every object is erased. */
  lemma BorderZeroClearsAll(fg: set<Pixel>, h: int, w: int)
    requires forall p :: p in fg ==> InBounds(h, w, p)
    ensures ClearedEdges(fg, h, w, 0) == {}
  {
    forall p | p in fg ensures p !in ClearedEdges(fg, h, w, 0) {
      ClearedAvoidsZone(fg, h, w, 0, p);
    }
  }
}
