/** Pixels, 8-connectivity and the contracts of the image-processing toolkit
    (connected-component labelling and hole filling), stated over sets of pixels. */
module Grid {

  /** A pixel position (row, column). */
  type Pixel = (int, int)

  predicate InBounds(h: int, w: int, p: Pixel) {
    0 <= p.0 < h && 0 <= p.1 < w
  }

  /** 8-adjacency: distinct pixels whose rows and columns differ by at most one
      (the all-ones 3x3 structuring element). */
  predicate Adjacent(p: Pixel, q: Pixel) {
    p != q && -1 <= p.0 - q.0 <= 1 && -1 <= p.1 - q.1 <= 1
  }

  /** The pixels of an h-by-w image. */
  ghost function AllPixels(h: int, w: int): set<Pixel> {
    set i, j | 0 <= i < h && 0 <= j < w :: (i, j)
  }

  /** The foreground of a boolean mask. */
  ghost function MaskSet(m: array2<bool>): (s: set<Pixel>)
    reads m
    ensures forall p :: p in s <==> InBounds(m.Length0, m.Length1, p) && m[p.0, p.1]
  {
    set i, j | 0 <= i < m.Length0 && 0 <= j < m.Length1 && m[i, j] :: (i, j)
  }

  /** The foreground of a label map: the pixels holding a positive label. */
  ghost function Positive(a: array2<int>): (s: set<Pixel>)
    reads a
    ensures forall p :: p in s <==> InBounds(a.Length0, a.Length1, p) && a[p.0, p.1] > 0
  {
    set i, j | 0 <= i < a.Length0 && 0 <= j < a.Length1 && a[i, j] > 0 :: (i, j)
  }

  /** A non-empty walk through `s` in which consecutive pixels are 8-adjacent. */
  ghost predicate IsPath(s: set<Pixel>, path: seq<Pixel>) {
    && |path| > 0
    && (forall k :: 0 <= k < |path| ==> path[k] in s)
    && (forall k, m :: 0 <= k && m == k + 1 && m < |path| ==> Adjacent(path[k], path[m]))
  }

  /** p and q lie in the same 8-connected component of s. */
  ghost predicate Connected(s: set<Pixel>, p: Pixel, q: Pixel) {
    exists path :: IsPath(s, path) && path[0] == p && path[|path| - 1] == q
  }

  lemma ConnectedRefl(s: set<Pixel>, p: Pixel)
    requires p in s
    ensures Connected(s, p, p)
  {
    assert IsPath(s, [p]);
  }

  lemma ConnectedEnds(s: set<Pixel>, p: Pixel, q: Pixel)
    requires Connected(s, p, q)
    ensures p in s && q in s
  {
    var path: seq<Pixel> :| IsPath(s, path) && path[0] == p && path[|path| - 1] == q;
    assert path[|path| - 1] in s;
  }

  /** A walk can be extended by one adjacent pixel of s. */
  lemma ConnectedStep(s: set<Pixel>, p: Pixel, q: Pixel, r: Pixel)
    requires Connected(s, p, q) && r in s && Adjacent(q, r)
    ensures Connected(s, p, r)
  {
    var path: seq<Pixel> :| IsPath(s, path) && path[0] == p && path[|path| - 1] == q;
    var ext := path + [r];
    assert forall k :: 0 < k < |ext| ==> Adjacent(ext[k - 1], ext[k]) by {
      forall k | 0 < k < |ext| ensures Adjacent(ext[k - 1], ext[k]) {
        if k < |path| {
          assert ext[k - 1] == path[k - 1] && ext[k] == path[k];
        }
      }
    }
    assert IsPath(s, ext);
  }

  lemma ConnectedSym(s: set<Pixel>, p: Pixel, q: Pixel)
    requires Connected(s, p, q)
    ensures Connected(s, q, p)
  {
    var path: seq<Pixel> :| IsPath(s, path) && path[0] == p && path[|path| - 1] == q;
    var n := |path|;
    var rev := seq(n, k requires 0 <= k < n => path[n - 1 - k]);
    assert forall k :: 0 < k < n ==> Adjacent(rev[k - 1], rev[k]) by {
      forall k | 0 < k < n ensures Adjacent(rev[k - 1], rev[k]) {
        assert rev[k - 1] == path[n - k] && rev[k] == path[n - k - 1];
        assert Adjacent(path[n - k - 1], path[n - k]);
      }
    }
    assert IsPath(s, rev);
  }

  lemma ConnectedTrans(s: set<Pixel>, p: Pixel, q: Pixel, r: Pixel)
    requires Connected(s, p, q) && Connected(s, q, r)
    ensures Connected(s, p, r)
  {
    var a: seq<Pixel> :| IsPath(s, a) && a[0] == p && a[|a| - 1] == q;
    var b: seq<Pixel> :| IsPath(s, b) && b[0] == q && b[|b| - 1] == r;
    var c := a + b[1..];
    assert forall k :: 0 <= k < |c| ==> c[k] in s by {
      forall k | 0 <= k < |c| ensures c[k] in s {
        if k >= |a| { assert c[k] == b[k - |a| + 1]; }
      }
    }
    assert forall k :: 0 < k < |c| ==> Adjacent(c[k - 1], c[k]) by {
      forall k | 0 < k < |c| ensures Adjacent(c[k - 1], c[k]) {
        if k < |a| {
          assert c[k - 1] == a[k - 1] && c[k] == a[k];
        } else if k == |a| {
          assert c[k - 1] == b[0] && c[k] == b[1];
        } else {
          assert c[k - 1] == b[k - |a|] && c[k] == b[k - |a| + 1];
        }
      }
    }
    assert c[|c| - 1] == r by {
      if |b| == 1 { assert c == a; } else { assert c[|c| - 1] == b[|b| - 1]; }
    }
    assert IsPath(s, c);
  }

  /** Connectivity is monotone in the set walked through. */
  lemma ConnectedMono(s: set<Pixel>, t: set<Pixel>, p: Pixel, q: Pixel)
    requires Connected(s, p, q) && s <= t
    ensures Connected(t, p, q)
  {
    var path: seq<Pixel> :| IsPath(s, path) && path[0] == p && path[|path| - 1] == q;
    assert IsPath(t, path);
  }

  // ---------------------------------------------------------------------
  // Connected-component labelling

  /** Label v is carried by some pixel of the map. */
  ghost predicate Used(lab: array2<int>, v: int)
    reads lab
  {
    exists i, j :: 0 <= i < lab.Length0 && 0 <= j < lab.Length1 && lab[i, j] == v
  }

  /** The contract of connected-component labelling under 8-connectivity:
      the labels are 0..n, 0 exactly on the pixels outside fg, every value
      1..n is used, and two foreground pixels share a label exactly when they
      are 8-connected within fg. n is therefore the number of components. */
  ghost predicate IsLabelling(lab: array2<int>, fg: set<Pixel>, n: int)
    reads lab
  {
    && 0 <= n
    && (forall p :: p in fg ==> InBounds(lab.Length0, lab.Length1, p))
    && (forall i, j :: 0 <= i < lab.Length0 && 0 <= j < lab.Length1 ==>
          0 <= lab[i, j] <= n && (lab[i, j] != 0 <==> (i, j) in fg))
    && (forall v :: 1 <= v <= n ==> Used(lab, v))
    && (forall i, j, k, l ::
          0 <= i < lab.Length0 && 0 <= j < lab.Length1 &&
          0 <= k < lab.Length0 && 0 <= l < lab.Length1 &&
          lab[i, j] != 0 && lab[k, l] != 0 ==>
            (lab[i, j] == lab[k, l] <==> Connected(fg, (i, j), (k, l))))
  }

  /** The foreground of a labelling is its positive part. */
  lemma LabellingForeground(lab: array2<int>, fg: set<Pixel>, n: int)
    requires IsLabelling(lab, fg, n)
    ensures Positive(lab) == fg
  {
    forall p | p in fg ensures p in Positive(lab) {
      assert lab[p.0, p.1] != 0;
    }
  }

  /** A labelling has no objects exactly when its foreground is empty. */
  lemma EmptyLabelling(lab: array2<int>, fg: set<Pixel>, n: int)
    requires IsLabelling(lab, fg, n)
    ensures n == 0 <==> fg == {}
  {
    if fg != {} {
      var p :| p in fg;
      assert lab[p.0, p.1] != 0;
    }
    if n > 0 {
      assert Used(lab, 1);
      var i, j :| 0 <= i < lab.Length0 && 0 <= j < lab.Length1 && lab[i, j] == 1;
      assert (i, j) in fg;
    }
  }

  // ---------------------------------------------------------------------
  // Border zones and holes

  /** The pixels of the top and bottom `border` rows and the left and right
      `border` columns. A border of 0 makes the zone the whole image, because
      the slice `[-0:]` is the whole axis. A border of 1 is the image frame. */
  predicate InZone(h: int, w: int, border: nat, p: Pixel) {
    border == 0 || p.0 < border || p.0 >= h - border || p.1 < border || p.1 >= w - border
  }

  /** Pixel p of s is 8-connected within s to a pixel of s in the border zone. */
  ghost predicate TouchesZone(s: set<Pixel>, h: int, w: int, border: nat, p: Pixel) {
    exists z :: InBounds(h, w, z) && InZone(h, w, border, z) && Connected(s, z, p)
  }

  /** Pixel p of the background b can be reached from the image frame through b. */
  ghost predicate ReachesFrame(b: set<Pixel>, h: int, w: int, p: Pixel) {
    TouchesZone(b, h, w, 1, p)
  }

  /** The result of filling the holes of fg: fg together with every background
      pixel that cannot be reached from the frame through the background. */
  ghost function HolesFilled(fg: set<Pixel>, h: int, w: int): set<Pixel> {
    set p | p in AllPixels(h, w) && (p in fg || !ReachesFrame(AllPixels(h, w) - fg, h, w, p))
  }

  /** fg has no holes: every background pixel reaches the frame. */
  ghost predicate HoleFree(fg: set<Pixel>, h: int, w: int) {
    forall p :: p in AllPixels(h, w) - fg ==> ReachesFrame(AllPixels(h, w) - fg, h, w, p)
  }

  /** Filling holes leaves a hole-free set: every pixel on a background walk
      from the frame is itself reachable from the frame, so none of it is filled. */
  lemma HolesFilledIsHoleFree(fg: set<Pixel>, h: int, w: int)
    requires fg <= AllPixels(h, w)
    ensures fg <= HolesFilled(fg, h, w)
    ensures HoleFree(HolesFilled(fg, h, w), h, w)
  {
    var all := AllPixels(h, w);
    var f := HolesFilled(fg, h, w);
    var bg := all - fg;
    forall p | p in all - f ensures ReachesFrame(all - f, h, w, p) {
      var z :| InBounds(h, w, z) && InZone(h, w, 1, z) && Connected(bg, z, p);
      var path: seq<Pixel> :| IsPath(bg, path) && path[0] == z && path[|path| - 1] == p;
      forall k | 0 <= k < |path| ensures path[k] in all - f {
        var pre := path[..k + 1];
        assert IsPath(bg, pre);
        assert Connected(bg, z, path[k]);
        assert ReachesFrame(bg, h, w, path[k]);
      }
      assert IsPath(all - f, path);
    }
  }

  /** A set inside a hole-free set has all its holes inside it too. */
  lemma HolesFilledWithin(fg: set<Pixel>, d: set<Pixel>, h: int, w: int)
    requires fg <= d <= AllPixels(h, w)
    requires HoleFree(d, h, w)
    ensures HolesFilled(fg, h, w) <= d
  {
    var all := AllPixels(h, w);
    forall p | p in HolesFilled(fg, h, w) ensures p in d {
      if p !in d {
        assert ReachesFrame(all - d, h, w, p);
        var z :| InBounds(h, w, z) && InZone(h, w, 1, z) && Connected(all - d, z, p);
        ConnectedMono(all - d, all - fg, z, p);
        assert false;
      }
    }
  }

  /** An empty foreground has nothing to fill: every pixel reaches the top
      row of the image straight up its column. */
  lemma HolesFilledEmpty(h: int, w: int)
    ensures HolesFilled({}, h, w) == {}
  {
    var all := AllPixels(h, w);
    forall p | p in all ensures ReachesFrame(all - {}, h, w, p) {
      var path := seq(p.0 + 1, k requires 0 <= k <= p.0 => (k, p.1));
      assert IsPath(all, path);
      assert Connected(all, (0, p.1), p);
      assert all - {} == all;
      assert InBounds(h, w, (0, p.1)) && InZone(h, w, 1, (0, p.1));
    }
  }
}
