/** Connected-component labelling under 8-connectivity (the toolkit's `label`
    with the all-ones 3x3 structure), by flood fill from seeds taken in raster
    order, so objects are numbered in the order their first pixel is met.
    The fill works on a map from labelled pixels to their labels and writes
    the finished labelling into a fresh array. */
module Labeling {
  import opened Grid

  /** The position of q in the 3x3 block centred on p, 0..8 in raster order. */
  function Rank(p: Pixel, q: Pixel): int {
    (q.0 - p.0 + 1) * 3 + (q.1 - p.1 + 1)
  }

  /** p is labelled and every foreground pixel adjacent to it carries its label. */
  ghost predicate Closed(fg: set<Pixel>, g: map<Pixel, int>, p: Pixel) {
    && p in g
    && forall q {:trigger Adjacent(p, q)} :: Adjacent(p, q) && q in fg ==> q in g && g[q] == g[p]
  }

  /** The state of the flood fill once objects 1..n exist: labels 1..n sit on
      foreground pixels only, seeds[v] is a pixel of object v, every labelled
      pixel is connected within fg to its object's seed, and a labelled pixel
      has no unlabelled or differently labelled foreground neighbour unless it
      is still waiting in `open`, where only pixels of object n wait. */
  ghost predicate Flooding(fg: set<Pixel>, g: map<Pixel, int>, n: int, seeds: map<int, Pixel>, open: seq<Pixel>) {
    && 0 <= n
    && (forall p :: p in g ==> p in fg && 1 <= g[p] <= n)
    && (forall v :: 1 <= v <= n ==> v in seeds && seeds[v] in g && g[seeds[v]] == v)
    && (forall p {:trigger Connected(fg, seeds[g[p]], p)} :: p in g && g[p] in seeds ==> Connected(fg, seeds[g[p]], p))
    && (forall p :: p in g && p !in open ==> Closed(fg, g, p))
    && (forall k :: 0 <= k < |open| ==> open[k] in g && g[open[k]] == n)
  }

  /** Between two floods nothing is waiting. */
  ghost predicate Partial(fg: set<Pixel>, g: map<Pixel, int>, n: int, seeds: map<int, Pixel>) {
    Flooding(fg, g, n, seeds, [])
  }

  /** Labels every foreground pixel of `mask` with the number of its
      8-connected component; n is the number of components. */
  method Label(mask: array2<bool>) returns (lab: array2<int>, n: nat)
    ensures lab.Length0 == mask.Length0 && lab.Length1 == mask.Length1
    ensures IsLabelling(lab, MaskSet(mask), n)
  {
    var h, w := mask.Length0, mask.Length1;
    var g: map<Pixel, int> := map[];
    n := 0;
    ghost var seeds: map<int, Pixel> := map[];
    for i := 0 to h
      invariant Partial(MaskSet(mask), g, n, seeds)
      invariant forall r, c {:trigger (r, c) in g} :: 0 <= r < i && 0 <= c < w && mask[r, c] ==> (r, c) in g
    {
      g, n, seeds := ScanRow(mask, g, i, n, seeds);
    }
    lab := new int[h, w]((i, j) => if (i, j) in g then g[(i, j)] else 0);
    LabellingFromPartial(mask, lab, g, n, seeds);
  }

  /** Floods from every foreground pixel of row i that is still unlabelled,
      in column order. */
  method ScanRow(mask: array2<bool>, g: map<Pixel, int>, i: int, n: nat, ghost seeds: map<int, Pixel>)
    returns (g': map<Pixel, int>, n': nat, ghost seeds': map<int, Pixel>)
    requires 0 <= i < mask.Length0 && Partial(MaskSet(mask), g, n, seeds)
    ensures Partial(MaskSet(mask), g', n', seeds')
    ensures forall c {:trigger (i, c) in g'} :: 0 <= c < mask.Length1 && mask[i, c] ==> (i, c) in g'
    ensures forall p :: p in g ==> p in g'
  {
    g', n', seeds' := g, n, seeds;
    for j := 0 to mask.Length1
      invariant Partial(MaskSet(mask), g', n', seeds')
      invariant forall c {:trigger (i, c) in g'} :: 0 <= c < j && mask[i, c] ==> (i, c) in g'
      invariant forall p :: p in g ==> p in g'
    {
      if mask[i, j] && (i, j) !in g' {
        g' := Flood(mask, g', (i, j), n', seeds');
        n' := n' + 1;
        seeds' := seeds'[n' := (i, j)];
      }
    }
  }

  /** With objects 1..n complete, gives label n + 1 to `seed` and to every
      unlabelled foreground pixel 8-connected to it. */
  method Flood(mask: array2<bool>, g: map<Pixel, int>, seed: Pixel, n: nat, ghost seeds: map<int, Pixel>)
    returns (g': map<Pixel, int>)
    requires Partial(MaskSet(mask), g, n, seeds)
    requires seed in MaskSet(mask) && seed !in g
    ensures Partial(MaskSet(mask), g', n + 1, seeds[n + 1 := seed])
    ensures seed in g'
    ensures forall p :: p in g ==> p in g' && g'[p] == g[p]
  {
    ghost var fg := MaskSet(mask);
    StartObject(fg, g, n, seeds, seed);
    g' := g[seed := n + 1];
    var stack := [seed];
    while stack != []
      invariant Flooding(fg, g', n + 1, seeds[n + 1 := seed], stack)
      invariant seed in g'
      invariant forall p :: p in g ==> p in g' && g'[p] == g[p]
      decreases fg - g'.Keys, |stack|
    {
      var p := stack[|stack| - 1];
      ghost var open := stack;
      stack := stack[..|stack| - 1];
      assert open == stack + [p];
      g', stack := Visit(mask, g', n + 1, seeds[n + 1 := seed], p, stack);
    }
  }

  /** Opening object n + 1 at an unlabelled foreground pixel keeps the
      flood-fill invariant, with the seed waiting. */
  lemma StartObject(fg: set<Pixel>, g: map<Pixel, int>, n: nat, seeds: map<int, Pixel>, seed: Pixel)
    requires Partial(fg, g, n, seeds)
    requires seed in fg && seed !in g
    ensures Flooding(fg, g[seed := n + 1], n + 1, seeds[n + 1 := seed], [seed])
  {
    var g', seeds' := g[seed := n + 1], seeds[n + 1 := seed];
    ConnectedRefl(fg, seed);
    forall p | p in g' && p !in [seed] ensures Closed(fg, g', p) {
      assert Closed(fg, g, p);
      forall q | Adjacent(p, q) && q in fg ensures q in g' && g'[q] == g'[p] {
        assert q in g;
      }
    }
    forall p | p in g' && g'[p] in seeds' ensures Connected(fg, seeds'[g'[p]], p) {
      if p != seed {
        assert Connected(fg, seeds[g[p]], p);
      }
    }
  }

  /** Adding the unlabelled foreground neighbour q of a pixel p of object n
      to object n, and to the waiting pixels, keeps the flood-fill invariant. */
  lemma MarkNeighbour(fg: set<Pixel>, g: map<Pixel, int>, n: int, seeds: map<int, Pixel>, open: seq<Pixel>,
                      p: Pixel, q: Pixel)
    requires Flooding(fg, g, n, seeds, open)
    requires p in g && g[p] == n && Adjacent(p, q)
    requires q in fg && q !in g
    ensures Flooding(fg, g[q := n], n, seeds, open + [q])
  {
    var g' := g[q := n];
    assert Connected(fg, seeds[g[p]], p);
    ConnectedStep(fg, seeds[n], p, q);
    forall x | x in g' && x !in open + [q] ensures Closed(fg, g', x) {
      assert Closed(fg, g, x);
      forall y | Adjacent(x, y) && y in fg ensures y in g' && g'[y] == g'[x] {
        assert y in g;
      }
    }
    forall x | x in g' && g'[x] in seeds ensures Connected(fg, seeds[g'[x]], x) {
      if x != q {
        assert Connected(fg, seeds[g[x]], x);
      }
    }
    forall k | 0 <= k < |open + [q]| ensures (open + [q])[k] in g' && g'[(open + [q])[k]] == n {
      if k < |open| {
        assert (open + [q])[k] == open[k];
      }
    }
  }

  /** Only membership in the waiting list matters. */
  lemma ReorderOpen(fg: set<Pixel>, g: map<Pixel, int>, n: int, seeds: map<int, Pixel>, o1: seq<Pixel>, o2: seq<Pixel>)
    requires Flooding(fg, g, n, seeds, o1)
    requires forall x :: x in o2 <==> x in o1
    ensures Flooding(fg, g, n, seeds, o2)
  {
    forall k | 0 <= k < |o2| ensures o2[k] in g && g[o2[k]] == n {
      assert o2[k] in o1;
      var m :| 0 <= m < |o1| && o1[m] == o2[k];
    }
  }

  /** A waiting pixel that is closed stops waiting. */
  lemma Settle(fg: set<Pixel>, g: map<Pixel, int>, n: int, seeds: map<int, Pixel>, open: seq<Pixel>, p: Pixel)
    requires Flooding(fg, g, n, seeds, open + [p])
    requires Closed(fg, g, p)
    ensures Flooding(fg, g, n, seeds, open)
  {
    assert forall x :: x in open ==> x in open + [p];
    assert forall k :: 0 <= k < |open| ==> (open + [p])[k] == open[k];
  }

  /** Handles the neighbour q of the pixel p of object n: an unlabelled
      foreground pixel joins object n and is pushed; any other foreground
      pixel already belongs to object n, because every other object is closed. */
  method Consider(mask: array2<bool>, g: map<Pixel, int>, n: int, ghost seeds: map<int, Pixel>,
                  p: Pixel, q: Pixel, stack: seq<Pixel>)
    returns (g': map<Pixel, int>, stack': seq<Pixel>)
    requires Flooding(MaskSet(mask), g, n, seeds, stack + [p])
    requires p in g && g[p] == n && Adjacent(p, q)
    ensures Flooding(MaskSet(mask), g', n, seeds, stack' + [p])
    ensures q in MaskSet(mask) ==> q in g' && g'[q] == n
    ensures forall x :: x in g ==> x in g' && g'[x] == g[x]
    ensures (g.Keys < g'.Keys) || (g' == g && stack' == stack)
  {
    g', stack' := g, stack;
    if 0 <= q.0 < mask.Length0 && 0 <= q.1 < mask.Length1 && mask[q.0, q.1] {
      if q !in g {
        MarkNeighbour(MaskSet(mask), g, n, seeds, stack + [p], p, q);
        ReorderOpen(MaskSet(mask), g[q := n], n, seeds, stack + [p] + [q], stack + [q] + [p]);
        g' := g[q := n];
        stack' := stack + [q];
      } else if g[q] != n {
        assert Adjacent(q, p);
        assert false;
      }
    }
  }

  /** The rank of an offset in the 3x3 window determines the offset. */
  lemma RankDetermines(p: Pixel, x: Pixel, di: int, dj: int)
    requires -1 <= x.0 - p.0 <= 1 && -1 <= x.1 - p.1 <= 1
    requires -1 <= di <= 1 && -1 <= dj <= 1
    requires Rank(p, x) == (di + 1) * 3 + (dj + 1)
    ensures x == (p.0 + di, p.1 + dj)
  {
  }

  /** Handles the neighbour at offset (di, dj) of p, the t-th cell of the
      3x3 window in raster order; afterwards every foreground neighbour up to
      that cell belongs to object n. */
  method ConsiderOffset(mask: array2<bool>, g: map<Pixel, int>, n: int, ghost seeds: map<int, Pixel>,
                        p: Pixel, di: int, dj: int, ghost t: int, stack: seq<Pixel>)
    returns (g': map<Pixel, int>, stack': seq<Pixel>)
    requires Flooding(MaskSet(mask), g, n, seeds, stack + [p])
    requires p in g && g[p] == n
    requires -1 <= di <= 1 && -1 <= dj <= 1 && t == (di + 1) * 3 + (dj + 1)
    requires forall q :: Adjacent(p, q) && Rank(p, q) < t && q in MaskSet(mask) ==> q in g && g[q] == n
    ensures Flooding(MaskSet(mask), g', n, seeds, stack' + [p])
    ensures p in g' && g'[p] == n
    ensures forall x :: x in g ==> x in g' && g'[x] == g[x]
    ensures (g.Keys < g'.Keys) || (g' == g && stack' == stack)
    ensures forall q :: Adjacent(p, q) && Rank(p, q) <= t && q in MaskSet(mask) ==> q in g' && g'[q] == n
  {
    var q := (p.0 + di, p.1 + dj);
    g', stack' := g, stack;
    if q != p {
      g', stack' := Consider(mask, g, n, seeds, p, q, stack);
    }
    forall x | Adjacent(p, x) && Rank(p, x) == t && x in MaskSet(mask) ensures x in g' && g'[x] == n {
      RankDetermines(p, x, di, dj);
    }
  }

  /** Labels the unlabelled foreground neighbours of p, which was just taken
      off the stack, and pushes them; afterwards p itself is closed. */
  method Visit(mask: array2<bool>, g: map<Pixel, int>, n: int, ghost seeds: map<int, Pixel>,
               p: Pixel, stack: seq<Pixel>)
    returns (g': map<Pixel, int>, stack': seq<Pixel>)
    requires Flooding(MaskSet(mask), g, n, seeds, stack + [p])
    ensures Flooding(MaskSet(mask), g', n, seeds, stack')
    ensures forall x :: x in g ==> x in g' && g'[x] == g[x]
    ensures (MaskSet(mask) - g'.Keys < MaskSet(mask) - g.Keys) || (g' == g && stack' == stack)
  {
    ghost var fg := MaskSet(mask);
    assert (stack + [p])[|stack|] == p;
    g', stack' := g, stack;
    var di, dj := -1, -1;
    for t := 0 to 9
      invariant Flooding(fg, g', n, seeds, stack' + [p])
      invariant p in g' && g'[p] == n
      invariant forall x :: x in g ==> x in g' && g'[x] == g[x]
      invariant (g.Keys < g'.Keys) || (g' == g && stack' == stack)
      invariant forall q :: Adjacent(p, q) && Rank(p, q) < t && q in fg ==> q in g' && g'[q] == n
      invariant t < 9 ==> -1 <= di <= 1 && -1 <= dj <= 1 && t == (di + 1) * 3 + (dj + 1)
    {
      g', stack' := ConsiderOffset(mask, g', n, seeds, p, di, dj, t, stack');
      if dj == 1 {
        di, dj := di + 1, -1;
      } else {
        dj := dj + 1;
      }
    }
    Settle(fg, g', n, seeds, stack', p);
    if g.Keys < g'.Keys {
      var x :| x in g'.Keys && x !in g.Keys;
      assert x in fg - g.Keys && x !in fg - g'.Keys;
    }
  }

  /** Labelled foreground pixels that are 8-connected within fg share a
      label, once every foreground pixel is closed. */
  lemma {:induction false} ConnectedSameLabel(fg: set<Pixel>, g: map<Pixel, int>, p: Pixel, q: Pixel)
    requires forall x :: x in fg ==> Closed(fg, g, x)
    requires Connected(fg, p, q)
    ensures p in g && q in g && g[p] == g[q]
  {
    var path: seq<Pixel> :| IsPath(fg, path) && path[0] == p && path[|path| - 1] == q;
    var k := 1;
    while k < |path|
      invariant 1 <= k <= |path|
      invariant path[k - 1] in g && g[path[k - 1]] == g[p]
    {
      var x, y := path[k - 1], path[k];
      assert x in fg && y in fg && Adjacent(x, y);
      assert Closed(fg, g, x);
      k := k + 1;
    }
  }

  /** A finished flood fill, written out with 0 for unlabelled pixels, is a
      labelling of the mask. */
  lemma LabellingFromPartial(mask: array2<bool>, lab: array2<int>, g: map<Pixel, int>, n: int, seeds: map<int, Pixel>)
    requires Partial(MaskSet(mask), g, n, seeds)
    requires MaskSet(mask) <= g.Keys
    requires lab.Length0 == mask.Length0 && lab.Length1 == mask.Length1
    requires forall i, j :: 0 <= i < lab.Length0 && 0 <= j < lab.Length1 ==>
               lab[i, j] == if (i, j) in g then g[(i, j)] else 0
    ensures IsLabelling(lab, MaskSet(mask), n)
  {
    var S := MaskSet(mask);
    forall v | 1 <= v <= n ensures Used(lab, v) {
      var s := seeds[v];
      assert lab[s.0, s.1] == v;
    }
    forall i, j, k, l |
      0 <= i < lab.Length0 && 0 <= j < lab.Length1 && 0 <= k < lab.Length0 && 0 <= l < lab.Length1 &&
      lab[i, j] != 0 && lab[k, l] != 0
      ensures lab[i, j] == lab[k, l] <==> Connected(S, (i, j), (k, l))
    {
      assert (i, j) in g && (k, l) in g;
      if lab[i, j] == lab[k, l] {
        var s := seeds[g[(i, j)]];
        assert Connected(S, seeds[g[(i, j)]], (i, j));
        assert Connected(S, seeds[g[(k, l)]], (k, l));
        ConnectedSym(S, s, (i, j));
        ConnectedTrans(S, (i, j), s, (k, l));
      }
      if Connected(S, (i, j), (k, l)) {
        forall x | x in S ensures Closed(S, g, x) {
        }
        ConnectedSameLabel(S, g, (i, j), (k, l));
      }
    }
  }
}
