/** The greedy fill of src/lib.rs (`generate`, 4-connected) and of the loop
    inlined in `main` of src/main.rs (8-connected). One colour seeds one cell;
    every later colour goes to the frontier cell whose already-placed
    neighbours are, on integer average, closest to it. */
module Fill {
  import opened Arith
  import opened Colors
  import opened Grid
  import opened Images
  import opened Frontiers
  import opened Greedy

  datatype FillError =
    | SizeMismatch   // `assert!(colors.len() == width * height)` fails
    | EmptyPalette   // `colors.pop().unwrap()` on an empty palette, for the seed

  datatype Result<T> = Ok(value: T) | Err(error: FillError)

  /** The colour image and the `seen` mask of one run: same dimensions and topology. */
  predicate Compatible(img: Image<Rgb>, seen: Image<bool>)
  {
    img.Valid() && seen.Valid()
    && img.width == seen.width && img.height == seen.height && img.topology == seen.topology
  }

  /** The score of cell `c` in the current state of the two buffers. */
  function ScoreIn(img: Image<Rgb>, seen: Image<bool>, c: Cell, rgb: Rgb): int
    reads img.data, seen.data
    requires Compatible(img, seen) && InFrontier(img.topology, img.width, img.height, seen.data[..], c)
  {
    Score(img.topology, img.width, img.height, img.data[..], seen.data[..], c, rgb)
  }

  /** The closure body of lines 32-39 of src/lib.rs over the cells
      `for_each_neighbor` visits: counts the seen ones and sums their
      distances to `rgb`. */
  method Tally(img: Image<Rgb>, seen: Image<bool>, ns: seq<Cell>, rgb: Rgb) returns (neighbors: nat, total: int)
    requires Compatible(img, seen)
    requires forall i :: 0 <= i < |ns| ==> InBounds(img.width, img.height, ns[i])
    ensures neighbors == SeenCount(img.width, img.height, seen.data[..], ns, |ns|)
    ensures total == DistTotal(img.width, img.height, img.data[..], seen.data[..], ns, |ns|, rgb)
  {
    ghost var (w, h, mask, pix) := (img.width, img.height, seen.data[..], img.data[..]);
    neighbors, total := 0, 0;
    for i := 0 to |ns|
      invariant neighbors == SeenCount(w, h, mask, ns, i)
      invariant total == DistTotal(w, h, pix, mask, ns, i, rgb)
    {
      var (xx, yy) := ns[i];
      if seen.Get(xx, yy) {
        neighbors := neighbors + 1;
        total := total + ColorDist(rgb, img.Get(xx, yy));
      }
    }
  }

  /** The scoring closure of lines 29-43 of src/lib.rs: the integer average
      `total_color_dist / neighbors` over the seen neighbours of `c`. */
  method ScoreOf(img: Image<Rgb>, seen: Image<bool>, c: Cell, rgb: Rgb) returns (score: int)
    requires Compatible(img, seen)
    requires InFrontier(img.topology, img.width, img.height, seen.data[..], c)
    ensures score == ScoreIn(img, seen, c, rgb)
    ensures 0 <= score <= MaxColorDist
  {
    var ns := img.Neighbors(c.0, c.1);
    var neighbors, total := Tally(img, seen, ns, rgb);
    ScoreBounds(img.topology, img.width, img.height, img.data[..], seen.data[..], c, rgb);
    score := total / neighbors;
  }

  /** `min_by_key` over `free`: some cell of `free` whose score no other cell of
      `free` undercuts. The iteration order of the hash set is not modelled;
      among equal scores the first one met is kept, as Rust does. */
  method SelectMin(img: Image<Rgb>, seen: Image<bool>, free: set<Cell>, rgb: Rgb) returns (best: Cell)
    requires Compatible(img, seen) && free != {}
    requires forall c :: c in free ==> InFrontier(img.topology, img.width, img.height, seen.data[..], c)
    ensures best in free
    ensures forall c :: c in free ==> ScoreIn(img, seen, best, rgb) <= ScoreIn(img, seen, c, rgb)
  {
    var rest := free;
    best :| best in rest;
    var bestScore := ScoreOf(img, seen, best, rgb);
    while rest != {}
      invariant rest <= free && best in free
      invariant bestScore == ScoreIn(img, seen, best, rgb)
      invariant forall c :: c in free && c !in rest ==> bestScore <= ScoreIn(img, seen, c, rgb)
      decreases |rest|
    {
      var c :| c in rest;
      var score := ScoreOf(img, seen, c, rgb);
      if score < bestScore {
        best, bestScore := c, score;
      }
      rest := rest - {c};
    }
  }

  /** The unseen cells among the first `k` of `ns`: what the loop of lines 49-54
      of src/lib.rs has added to `free` after `k` neighbours. */
  function Unseen(w: nat, h: nat, mask: seq<bool>, ns: seq<Cell>, k: nat): set<Cell>
    requires k <= |ns|
  {
    if k == 0 then {}
    else Unseen(w, h, mask, ns, k - 1) + (if Seen(w, h, mask, ns[k - 1]) then {} else {ns[k - 1]})
  }

  /** After every neighbour, exactly the unseen ones have been collected. */
  lemma {:induction false} UnseenAll(w: nat, h: nat, mask: seq<bool>, ns: seq<Cell>, k: nat)
    requires k <= |ns|
    ensures forall n :: n in Unseen(w, h, mask, ns, k) <==> n in ns[..k] && !Seen(w, h, mask, n)
  {
    if k > 0 {
      UnseenAll(w, h, mask, ns, k - 1);
      assert ns[..k] == ns[..k - 1] + [ns[k - 1]];
    }
  }

  /** The loop of lines 50-54 of src/lib.rs over the cells `for_each_neighbor`
      visits: adds to `free` every one of them that is not seen. */
  method InsertUnseen(seen: Image<bool>, free: set<Cell>, ns: seq<Cell>) returns (free': set<Cell>)
    requires seen.Valid()
    requires forall i :: 0 <= i < |ns| ==> InBounds(seen.width, seen.height, ns[i])
    ensures free' == free + Unseen(seen.width, seen.height, seen.data[..], ns, |ns|)
  {
    ghost var (w, h, mask) := (seen.width, seen.height, seen.data[..]);
    free' := free;
    for i := 0 to |ns|
      invariant free' == free + Unseen(w, h, mask, ns, i)
    {
      var (nx, ny) := ns[i];
      if !seen.Get(nx, ny) {
        free' := free' + {(nx, ny)};
      }
    }
  }

  /** Lines 49-54 of src/lib.rs: drop the placed cell `c` from `free` and add
      every neighbour of `c` that is not seen yet. */
  method Expand(seen: Image<bool>, free: set<Cell>, c: Cell) returns (free': set<Cell>)
    requires seen.Valid() && InBounds(seen.width, seen.height, c)
    ensures free' == (free - {c})
                     + (set n | n in Neighbors(seen.topology, seen.width, seen.height, c)
                                && !Seen(seen.width, seen.height, seen.data[..], n))
  {
    var ns := seen.Neighbors(c.0, c.1);
    free' := InsertUnseen(seen, free - {c}, ns);
    UnseenAll(seen.width, seen.height, seen.data[..], ns, |ns|);
    assert ns[..|ns|] == ns;
  }

  /** One turn of the fill loop for the popped colour `rgb`: choose a
      minimum-score frontier cell, mark it seen, rebuild the frontier around it,
      and paint it. Nothing else in either buffer changes. */
  method PlaceNext(img: Image<Rgb>, seen: Image<bool>, free: set<Cell>, rgb: Rgb)
    returns (c: Cell, free': set<Cell>)
    requires Compatible(img, seen) && free != {}
    requires free == Frontier(img.topology, img.width, img.height, seen.data[..])
    modifies img.data, seen.data
    ensures c in free
    ensures forall d :: d in free ==> old(ScoreIn(img, seen, c, rgb)) <= old(ScoreIn(img, seen, d, rgb))
    ensures seen.data[..] == old(seen.data[..])[Index(img.width, img.height, c) := true]
    ensures img.data[..] == old(img.data[..])[Index(img.width, img.height, c) := rgb]
    ensures free' == Frontier(img.topology, img.width, img.height, seen.data[..])
  {
    ghost var mask := seen.data[..];
    c := SelectMin(img, seen, free, rgb);
    seen.Set(c.0, c.1, true);
    free' := Expand(seen, free, c);
    FrontierAfterPlace(img.topology, img.width, img.height, mask, c);
    img.Set(c.0, c.1, rgb);
  }

  /** The loop of lines 21-23 of src/lib.rs, given the cells
      `for_each_neighbor` visits: every one of them goes into `free`. */
  method InsertAll(ns: seq<Cell>) returns (free: set<Cell>)
    ensures forall n :: n in free <==> n in ns
  {
    free := {};
    for i := 0 to |ns|
      invariant free == set n | n in ns[..i]
    {
      assert ns[..i + 1] == ns[..i] + [ns[i]];
      free := free + {ns[i]};
    }
    assert ns[..|ns|] == ns;
  }

  /** The seed step, lines 17-23 of src/lib.rs: paint and mark the seed, then
      put every neighbour of it into `free`, which is then the frontier. */
  method PlaceSeed(img: Image<Rgb>, seen: Image<bool>, seed: Cell, rgb: Rgb) returns (free: set<Cell>)
    requires Compatible(img, seen) && InBounds(img.width, img.height, seed)
    requires forall i :: 0 <= i < seen.data.Length ==> !seen.data[i]
    modifies img.data, seen.data
    ensures seen.data[..] == old(seen.data[..])[Index(img.width, img.height, seed) := true]
    ensures img.data[..] == old(img.data[..])[Index(img.width, img.height, seed) := rgb]
    ensures free == Frontier(img.topology, img.width, img.height, seen.data[..])
  {
    ghost var mask := seen.data[..];
    img.Set(seed.0, seed.1, rgb);
    seen.Set(seed.0, seed.1, true);
    var ns := img.Neighbors(seed.0, seed.1);
    free := InsertAll(ns);
    SeedFrontier(img.topology, img.width, img.height, mask, seed);
  }

  /** One turn of the loop of lines 25-57 of src/lib.rs seen from the whole
      run: the turn extends a greedy run by one cell and keeps both buffers
      equal to that run's mask and painting, and `free` equal to its frontier. */
  method RunStep(img: Image<Rgb>, seen: Image<bool>, free: set<Cell>, rgb: Rgb,
                 ghost seed: Cell, ghost colors: seq<Rgb>, ghost placed: seq<Cell>)
    returns (c: Cell, free': set<Cell>)
    requires Compatible(img, seen)
    requires GreedyRun(img.topology, img.width, img.height, seed, colors, placed)
    requires 0 < |placed| < |colors| == img.width * img.height
    requires rgb == colors[|colors| - 1 - |placed|]
    requires seen.data[..] == MaskOf(img.width, img.height, placed)
    requires img.data[..] == Painted(img.width, img.height, colors, placed)
    requires free == Frontier(img.topology, img.width, img.height, seen.data[..])
    modifies img.data, seen.data
    ensures GreedyRun(img.topology, img.width, img.height, seed, colors, placed + [c])
    ensures seen.data[..] == MaskOf(img.width, img.height, placed + [c])
    ensures img.data[..] == Painted(img.width, img.height, colors, placed + [c])
    ensures free' == Frontier(img.topology, img.width, img.height, seen.data[..])
  {
    ghost var (t, w, h) := (img.topology, img.width, img.height);
    ghost var (mask, pix) := (seen.data[..], img.data[..]);
    FrontierWhileColorsRemain(t, w, h, seed, colors, placed);
    c, free' := PlaceNext(img, seen, free, rgb);
    assert GreedyChoice(t, w, h, colors, placed, c) by {
      forall d | InFrontier(t, w, h, mask, d)
        ensures Score(t, w, h, pix, mask, c, rgb) <= Score(t, w, h, pix, mask, d, rgb)
      {
        assert d in free;
      }
    }
    RunExtend(t, w, h, seed, colors, placed, c);
    TakeOneMore(w, h, colors, placed, c);
  }

  /** `generate(colors, (width, height), (sx, sy))`: pops the seed colour,
      then one colour per greedy step until the palette is empty. The result
      is the image of a greedy run over every cell, so it holds each colour
      of the palette exactly once and the seed holds the last one. */
  method Generate(colors: seq<Rgb>, w: nat, h: nat, seed: Cell, t: Topology)
    returns (r: Result<Image<Rgb>>, ghost placed: seq<Cell>)
    requires |colors| == w * h && w * h > 0 ==> InBounds(w, h, seed)
    ensures |colors| != w * h <==> r == Err(SizeMismatch)
    ensures |colors| == w * h == 0 <==> r == Err(EmptyPalette)
    ensures r.Ok? <==> |colors| == w * h > 0
    ensures r.Ok? ==> r.value.Valid() && fresh(r.value.data)
    ensures r.Ok? ==> r.value.width == w && r.value.height == h && r.value.topology == t
    ensures r.Ok? ==> GreedyRun(t, w, h, seed, colors, placed) && |placed| == |colors|
    ensures r.Ok? ==> r.value.data[..] == Painted(w, h, colors, placed)
    ensures r.Ok? ==> multiset(r.value.data[..]) == multiset(colors)
    ensures r.Ok? ==> forall c :: InBounds(w, h, c) ==> Seen(w, h, MaskOf(w, h, placed), c)
    ensures r.Ok? ==> r.value.data[Index(w, h, seed)] == colors[|colors| - 1]
  {
    placed := [];
    if |colors| != w * h {
      return Err(SizeMismatch), placed;
    }
    var img := new Image<Rgb>(Black, w, h, t);
    var seen := new Image<bool>(false, w, h, t);
    var rest := colors;
    if rest == [] {
      return Err(EmptyPalette), placed;
    }
    var rgb := rest[|rest| - 1];
    rest := rest[..|rest| - 1];
    assert seen.data[..] == MaskOf(w, h, placed);
    assert img.data[..] == Painted(w, h, colors, placed);
    var free := PlaceSeed(img, seen, seed, rgb);
    placed := [seed];
    assert placed[..0] == [];

    while rest != []
      invariant Compatible(img, seen) && fresh(img.data) && fresh(seen.data)
      invariant img.width == w && img.height == h && img.topology == t
      invariant |rest| + |placed| == |colors| && rest == colors[..|rest|]
      invariant GreedyRun(t, w, h, seed, colors, placed)
      invariant seen.data[..] == MaskOf(w, h, placed)
      invariant img.data[..] == Painted(w, h, colors, placed)
      invariant free == Frontier(t, w, h, seen.data[..])
      decreases |rest|
    {
      rgb := rest[|rest| - 1];
      rest := rest[..|rest| - 1];
      var c;
      c, free := RunStep(img, seen, free, rgb, seed, colors, placed);
      placed := placed + [c];
    }
    RunStartsAtSeed(t, w, h, seed, colors, placed);
    RunTakesUnseen(t, w, h, seed, colors, placed);
    CompleteRun(w, h, colors, placed);
    SeedKeepsLastColor(w, h, seed, colors, placed);
    r := Ok(img);
  }
}
