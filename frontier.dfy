/** The frontier of the greedy fill and the score of a frontier cell, stated
    over plain sequences: the `seen` mask and the colour buffer of src/lib.rs
    (lines 20-54) and of `main` in src/main.rs (lines 42-76), row by row. */
module Frontiers {
  import opened Arith
  import opened Colors
  import opened Grid
  // ---------------------------------------------------------------------------
  // The frontier, stated over the mask's contents.

  /** Cell `c` is in bounds and marked in the mask of a `w` by `h` grid. */
  predicate Seen(w: nat, h: nat, mask: seq<bool>, c: Cell)
  {
    InBounds(w, h, c) && |mask| == w * h && mask[Index(w, h, c)]
  }

  /** The scoring closure would count at least one seen neighbour of `c`
      (see SeenNeighborWitness for the plain reading). */
  predicate HasSeenNeighbor(t: Topology, w: nat, h: nat, mask: seq<bool>, c: Cell)
  {
    var ns := Neighbors(t, w, h, c);
    SeenCount(w, h, mask, ns, |ns|) > 0
  }

  /** A cell has a seen neighbour exactly when some cell of its neighbour list
      is seen. */
  lemma {:induction false} SeenNeighborWitness(t: Topology, w: nat, h: nat, mask: seq<bool>, c: Cell)
    ensures HasSeenNeighbor(t, w, h, mask, c) <==> exists n :: n in Neighbors(t, w, h, c) && Seen(w, h, mask, n)
  {
    var ns := Neighbors(t, w, h, c);
    SeenCountPositive(w, h, mask, ns, |ns|);
    if n :| n in ns && Seen(w, h, mask, n) {
      var i :| 0 <= i < |ns| && ns[i] == n;
    }
  }

  /** An unseen in-bounds cell with at least one seen neighbour. */
  predicate InFrontier(t: Topology, w: nat, h: nat, mask: seq<bool>, c: Cell)
  {
    InBounds(w, h, c) && !Seen(w, h, mask, c) && HasSeenNeighbor(t, w, h, mask, c)
  }

  /** The set the source keeps in `free`, as it should be after every step. */
  ghost function Frontier(t: Topology, w: nat, h: nat, mask: seq<bool>): (f: set<Cell>)
    ensures forall c :: c in f <==> InFrontier(t, w, h, mask, c)
  {
    set x, y | 0 <= x < w && 0 <= y < h && InFrontier(t, w, h, mask, (x, y)) :: (x, y)
  }

  /** Marking one in-bounds cell seen changes exactly that cell's status. */
  lemma {:induction false} SeenAfterMark(w: nat, h: nat, mask: seq<bool>, c: Cell, d: Cell)
    requires |mask| == w * h && InBounds(w, h, c)
    ensures Seen(w, h, mask[Index(w, h, c) := true], d) <==> Seen(w, h, mask, d) || d == c
  {
    if InBounds(w, h, d) {
      IndexInjective(w, h, c, d);
    }
  }

  /** The incremental update of lines 49-54 of src/lib.rs is exact: after marking
      `c`, the frontier is the old one without `c`, plus the neighbours of `c`
      that are still unseen. */
  lemma {:induction false} FrontierAfterPlace(t: Topology, w: nat, h: nat, mask: seq<bool>, c: Cell)
    requires |mask| == w * h && InBounds(w, h, c)
    ensures Frontier(t, w, h, mask[Index(w, h, c) := true])
         == (Frontier(t, w, h, mask) - {c})
            + (set n | n in Neighbors(t, w, h, c) && !Seen(w, h, mask[Index(w, h, c) := true], n))
  {
    var marked := mask[Index(w, h, c) := true];
    var exposed := set n | n in Neighbors(t, w, h, c) && !Seen(w, h, marked, n);
    forall d
      ensures d in Frontier(t, w, h, marked) <==> d in (Frontier(t, w, h, mask) - {c}) + exposed
    {
      FrontierAfterPlaceAt(t, w, h, mask, c, d);
    }
  }

  /** FrontierAfterPlace for one cell `d`. */
  lemma {:induction false} FrontierAfterPlaceAt(t: Topology, w: nat, h: nat, mask: seq<bool>, c: Cell, d: Cell)
    requires |mask| == w * h && InBounds(w, h, c)
    ensures InFrontier(t, w, h, mask[Index(w, h, c) := true], d)
        <==> (InFrontier(t, w, h, mask, d) && d != c)
             || (d in Neighbors(t, w, h, c) && !Seen(w, h, mask[Index(w, h, c) := true], d))
  {
    var marked := mask[Index(w, h, c) := true];
    SeenAfterMark(w, h, mask, c, d);
    SeenAfterMark(w, h, mask, c, c);
    SeenNeighborWitness(t, w, h, marked, d);
    SeenNeighborWitness(t, w, h, mask, d);
    NeighborsExact(t, w, h, c);
    if InBounds(w, h, d) {
      NeighborsSymmetric(t, w, h, c, d);
    }
    if InFrontier(t, w, h, marked, d) {
      var n :| n in Neighbors(t, w, h, d) && Seen(w, h, marked, n);
      SeenAfterMark(w, h, mask, c, n);
    }
    if InFrontier(t, w, h, mask, d) {
      var n :| n in Neighbors(t, w, h, d) && Seen(w, h, mask, n);
      SeenAfterMark(w, h, mask, c, n);
    }
  }

  /** Before the seed is placed nothing is seen, so nothing borders a seen cell. */
  lemma {:induction false} BlankFrontier(t: Topology, w: nat, h: nat, mask: seq<bool>)
    requires forall i :: 0 <= i < |mask| ==> !mask[i]
    ensures Frontier(t, w, h, mask) == {}
  {
    forall d
      ensures !InFrontier(t, w, h, mask, d)
    {
      var ns := Neighbors(t, w, h, d);
      NothingSeenCount(w, h, mask, ns, |ns|);
    }
  }

  /** Lines 20-23 of src/lib.rs put every neighbour of the seed into `free`
      without looking at `seen`. That yields the frontier because the seed is
      the only cell seen at that point and is not its own neighbour. */
  lemma {:induction false} SeedFrontier(t: Topology, w: nat, h: nat, mask: seq<bool>, s: Cell)
    requires |mask| == w * h && InBounds(w, h, s)
    requires forall i :: 0 <= i < |mask| ==> !mask[i]
    ensures Frontier(t, w, h, mask[Index(w, h, s) := true]) == set n | n in Neighbors(t, w, h, s)
  {
    var marked := mask[Index(w, h, s) := true];
    BlankFrontier(t, w, h, mask);
    FrontierAfterPlace(t, w, h, mask, s);
    NeighborsExact(t, w, h, s);
    forall n | n in Neighbors(t, w, h, s)
      ensures !Seen(w, h, marked, n)
    {
      assert n != s && InBounds(w, h, n);
      assert !mask[Index(w, h, n)];
      SeenAfterMark(w, h, mask, s, n);
    }
  }

  /** The rectangular grid is connected in both topologies: while one cell is
      seen and another is not, the frontier is not empty, so the `unwrap` of
      `min_by_key` never fails. */
  lemma {:induction false} FrontierNonEmpty(t: Topology, w: nat, h: nat, mask: seq<bool>, s: Cell, u: Cell)
    requires Seen(w, h, mask, s) && InBounds(w, h, u) && !Seen(w, h, mask, u)
    ensures Frontier(t, w, h, mask) != {}
    decreases Dist(s.0, u.0) + Dist(s.1, u.1)
  {
    // One step from `s` towards `u`, along the row first.
    var next: Cell :=
      if s.0 < u.0 then (s.0 + 1, s.1)
      else if s.0 > u.0 then (s.0 - 1, s.1)
      else if s.1 < u.1 then (s.0, s.1 + 1)
      else (s.0, s.1 - 1);
    assert InBounds(w, h, next) && Adjacent(t, next, s);
    if Seen(w, h, mask, next) {
      FrontierNonEmpty(t, w, h, mask, next, u);
    } else {
      NeighborsExact(t, w, h, next);
      SeenNeighborWitness(t, w, h, mask, next);
      assert s in Neighbors(t, w, h, next);
      assert InFrontier(t, w, h, mask, next);
    }
  }

  // ---------------------------------------------------------------------------
  // Scoring a frontier cell (the key of `min_by_key`, lines 28-43 of src/lib.rs).

  /** How many of the first `k` cells of `ns` are seen: the closure's
      `neighbors` counter after `k` visits. */
  function SeenCount(w: nat, h: nat, mask: seq<bool>, ns: seq<Cell>, k: nat): nat
    requires k <= |ns|
  {
    if k == 0 then 0
    else SeenCount(w, h, mask, ns, k - 1) + (if Seen(w, h, mask, ns[k - 1]) then 1 else 0)
  }

  /** Sum of the distances from `rgb` to the colours of the seen cells among the
      first `k` of `ns`: the closure's `total_color_dist` after `k` visits. */
  function DistTotal(w: nat, h: nat, pix: seq<Rgb>, mask: seq<bool>, ns: seq<Cell>, k: nat, rgb: Rgb): int
    requires |pix| == w * h && k <= |ns|
  {
    if k == 0 then 0
    else
      DistTotal(w, h, pix, mask, ns, k - 1, rgb)
      + (if Seen(w, h, mask, ns[k - 1]) then ColorDist(rgb, pix[Index(w, h, ns[k - 1])]) else 0)
  }

  /** The count is positive exactly when one of the visited cells is seen. */
  lemma {:induction false} SeenCountPositive(w: nat, h: nat, mask: seq<bool>, ns: seq<Cell>, k: nat)
    requires k <= |ns|
    ensures SeenCount(w, h, mask, ns, k) > 0 <==> exists i :: 0 <= i < k && Seen(w, h, mask, ns[i])
  {
    if k > 0 {
      SeenCountPositive(w, h, mask, ns, k - 1);
    }
  }

  /** On a blank mask nothing is counted. */
  lemma {:induction false} NothingSeenCount(w: nat, h: nat, mask: seq<bool>, ns: seq<Cell>, k: nat)
    requires k <= |ns| && forall i :: 0 <= i < |mask| ==> !mask[i]
    ensures SeenCount(w, h, mask, ns, k) == 0
  {
    if k > 0 {
      NothingSeenCount(w, h, mask, ns, k - 1);
    }
  }

  /** At most one count per visited cell, and each counted cell adds between 0
      and MaxColorDist to the total. */
  lemma {:induction false} DistTotalBounds(w: nat, h: nat, pix: seq<Rgb>, mask: seq<bool>, ns: seq<Cell>, k: nat, rgb: Rgb)
    requires |pix| == w * h && k <= |ns|
    ensures SeenCount(w, h, mask, ns, k) <= k
    ensures 0 <= DistTotal(w, h, pix, mask, ns, k, rgb) <= MaxColorDist * SeenCount(w, h, mask, ns, k)
  {
    if k > 0 {
      DistTotalBounds(w, h, pix, mask, ns, k - 1, rgb);
    }
  }

  /** The integer average distance from `rgb` to the seen neighbours of a
      frontier cell, `total_color_dist / neighbors`. */
  function Score(t: Topology, w: nat, h: nat, pix: seq<Rgb>, mask: seq<bool>, c: Cell, rgb: Rgb): (s: int)
    requires |pix| == w * h && InFrontier(t, w, h, mask, c)
    ensures 0 <= s <= MaxColorDist
  {
    var ns := Neighbors(t, w, h, c);
    var total, count := DistTotal(w, h, pix, mask, ns, |ns|, rgb), SeenCount(w, h, mask, ns, |ns|);
    DistTotalBounds(w, h, pix, mask, ns, |ns|, rgb);
    QuotientAtMost(total, count, MaxColorDist);
    total / count
  }

  /** The i32 running total of a frontier cell never overflows, and its score
      is itself a distance. */
  lemma {:induction false} ScoreBounds(t: Topology, w: nat, h: nat, pix: seq<Rgb>, mask: seq<bool>, c: Cell, rgb: Rgb)
    requires |pix| == w * h && InFrontier(t, w, h, mask, c)
    ensures var ns := Neighbors(t, w, h, c); 0 <= DistTotal(w, h, pix, mask, ns, |ns|, rgb) < I32Limit
    ensures 0 <= Score(t, w, h, pix, mask, c, rgb) <= MaxColorDist
  {
    var ns := Neighbors(t, w, h, c);
    DistTotalBounds(w, h, pix, mask, ns, |ns|, rgb);
    var total, count := DistTotal(w, h, pix, mask, ns, |ns|, rgb), SeenCount(w, h, mask, ns, |ns|);
    MulMonotone(MaxColorDist, count, 8);
    QuotientAtMost(total, count, MaxColorDist);
    assert Score(t, w, h, pix, mask, c, rgb) == total / count;
  }
}
