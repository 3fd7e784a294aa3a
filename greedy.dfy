/** What a whole run of the greedy fill produces, stated as a function of the
    order in which cells were taken. Colours are popped from the end of the
    palette, so the `j`-th placed cell (the seed is number 0) receives
    `colors[|colors| - 1 - j]`. */
module Greedy {
  import opened Colors
  import opened Grid
  import opened Frontiers

  /** The `seen` mask after marking the cells of `placed`, in order, on a blank grid. */
  function MaskOf(w: nat, h: nat, placed: seq<Cell>): (mask: seq<bool>)
    ensures |mask| == w * h
  {
    if placed == [] then seq(w * h, _ => false)
    else
      var mask := MaskOf(w, h, placed[..|placed| - 1]);
      var c := placed[|placed| - 1];
      if InBounds(w, h, c) then mask[Index(w, h, c) := true] else mask
  }

  /** The colour buffer after painting the cells of `placed`, in order, on a
      black grid, each with the colour popped for it. */
  function Painted(w: nat, h: nat, colors: seq<Rgb>, placed: seq<Cell>): (pix: seq<Rgb>)
    requires |placed| <= |colors|
    ensures |pix| == w * h
  {
    if placed == [] then seq(w * h, _ => Black)
    else
      var pix := Painted(w, h, colors, placed[..|placed| - 1]);
      var c := placed[|placed| - 1];
      if InBounds(w, h, c) then pix[Index(w, h, c) := colors[|colors| - |placed|]] else pix
  }

  /** After the cells of `prefix` are placed, `c` is a frontier cell whose
      score for the next colour no frontier cell beats. */
  ghost predicate GreedyChoice(t: Topology, w: nat, h: nat, colors: seq<Rgb>, prefix: seq<Cell>, c: Cell)
    requires |prefix| < |colors|
  {
    var mask := MaskOf(w, h, prefix);
    var pix := Painted(w, h, colors, prefix);
    var rgb := colors[|colors| - 1 - |prefix|];
    InFrontier(t, w, h, mask, c)
    && forall d :: InFrontier(t, w, h, mask, d) ==> Score(t, w, h, pix, mask, c, rgb) <= Score(t, w, h, pix, mask, d, rgb)
  }

  /** `placed` is a run of the fill from `seed`: the seed comes first, and
      every later cell was a greedy choice when it was taken. */
  ghost predicate GreedyRun(t: Topology, w: nat, h: nat, seed: Cell, colors: seq<Rgb>, placed: seq<Cell>)
  {
    |placed| <= |colors|
    && if |placed| == 0 then true
       else if |placed| == 1 then placed[0] == seed && InBounds(w, h, seed)
       else GreedyRun(t, w, h, seed, colors, placed[..|placed| - 1])
            && GreedyChoice(t, w, h, colors, placed[..|placed| - 1], placed[|placed| - 1])
  }

  /** Every cell of `placed` was in bounds and not yet seen when it was taken. */
  ghost predicate TakenUnseen(w: nat, h: nat, placed: seq<Cell>)
  {
    placed != [] ==>
      var prefix := placed[..|placed| - 1];
      var c := placed[|placed| - 1];
      TakenUnseen(w, h, prefix) && InBounds(w, h, c) && !MaskOf(w, h, prefix)[Index(w, h, c)]
  }

  /** A greedy run only ever takes unseen cells: the seed is taken on a blank
      grid and every later cell is a frontier cell. */
  lemma {:induction false} RunTakesUnseen(t: Topology, w: nat, h: nat, seed: Cell, colors: seq<Rgb>, placed: seq<Cell>)
    requires GreedyRun(t, w, h, seed, colors, placed)
    ensures TakenUnseen(w, h, placed)
  {
    if |placed| == 1 {
      assert placed[..0] == [];
    } else if |placed| > 1 {
      RunTakesUnseen(t, w, h, seed, colors, placed[..|placed| - 1]);
    }
  }

  /** A run grows by exactly one greedy choice. */
  lemma {:induction false} RunExtend(t: Topology, w: nat, h: nat, seed: Cell, colors: seq<Rgb>, placed: seq<Cell>, c: Cell)
    requires GreedyRun(t, w, h, seed, colors, placed) && 0 < |placed| < |colors|
    requires GreedyChoice(t, w, h, colors, placed, c)
    ensures GreedyRun(t, w, h, seed, colors, placed + [c])
  {
    assert (placed + [c])[..|placed|] == placed;
  }

  /** Taking one more in-bounds cell marks exactly that cell and paints it
      with the next colour. */
  lemma {:induction false} TakeOneMore(w: nat, h: nat, colors: seq<Rgb>, placed: seq<Cell>, c: Cell)
    requires |placed| < |colors| && InBounds(w, h, c)
    ensures MaskOf(w, h, placed + [c]) == MaskOf(w, h, placed)[Index(w, h, c) := true]
    ensures Painted(w, h, colors, placed + [c])
            == Painted(w, h, colors, placed)[Index(w, h, c) := colors[|colors| - 1 - |placed|]]
  {
    assert (placed + [c])[..|placed|] == placed;
  }

  /** Every cell taken so far is seen. */
  lemma {:induction false} PlacedAreSeen(w: nat, h: nat, placed: seq<Cell>, j: nat)
    requires TakenUnseen(w, h, placed) && j < |placed|
    ensures Seen(w, h, MaskOf(w, h, placed), placed[j])
  {
    var k := |placed| - 1;
    var prefix := placed[..k];
    if j < k {
      PlacedAreSeen(w, h, prefix, j);
      SeenAfterMark(w, h, MaskOf(w, h, prefix), placed[k], placed[j]);
    }
  }

  /** Every prefix of a list of unseen-when-taken cells is one too. */
  lemma {:induction false} TakenUnseenPrefix(w: nat, h: nat, placed: seq<Cell>, k: nat)
    requires TakenUnseen(w, h, placed) && k <= |placed|
    ensures TakenUnseen(w, h, placed[..k])
  {
    if k < |placed| {
      var prefix := placed[..|placed| - 1];
      TakenUnseenPrefix(w, h, prefix, k);
      assert prefix[..k] == placed[..k];
    } else {
      assert placed[..k] == placed;
    }
  }

  /** No cell is taken twice: a later cell was unseen when it was taken, an
      earlier one was already seen. */
  lemma {:induction false} RunDistinct(w: nat, h: nat, placed: seq<Cell>, i: nat, j: nat)
    requires TakenUnseen(w, h, placed) && i < j < |placed|
    ensures placed[i] != placed[j]
  {
    var prefix := placed[..j + 1];
    assert prefix[..j] == placed[..j];
    TakenUnseenPrefix(w, h, placed, j + 1);
    TakenUnseenPrefix(w, h, placed, j);
    PlacedAreSeen(w, h, placed[..j], i);
  }

  /** A cell that is not yet seen is still black. */
  lemma {:induction false} UnseenIsBlack(w: nat, h: nat, colors: seq<Rgb>, placed: seq<Cell>, d: Cell)
    requires |placed| <= |colors| && InBounds(w, h, d)
    requires !MaskOf(w, h, placed)[Index(w, h, d)]
    ensures Painted(w, h, colors, placed)[Index(w, h, d)] == Black
  {
    if placed != [] {
      var prefix := placed[..|placed| - 1];
      var c := placed[|placed| - 1];
      if InBounds(w, h, c) {
        IndexInjective(w, h, c, d);
      }
      UnseenIsBlack(w, h, colors, prefix, d);
    }
  }

  /** Each cell is painted once: the `j`-th cell taken still holds the colour
      popped for it, however many cells were taken after it. */
  lemma {:induction false} PlacedKeepsColor(w: nat, h: nat, colors: seq<Rgb>, placed: seq<Cell>, j: nat)
    requires TakenUnseen(w, h, placed) && |placed| <= |colors| && j < |placed|
    ensures InBounds(w, h, placed[j])
    ensures Painted(w, h, colors, placed)[Index(w, h, placed[j])] == colors[|colors| - 1 - j]
  {
    var k := |placed| - 1;
    var prefix := placed[..k];
    if j < k {
      PlacedKeepsColor(w, h, colors, prefix, j);
      PlacedAreSeen(w, h, prefix, j);
      IndexInjective(w, h, placed[k], placed[j]);
    }
  }

  /** A run starts at the seed. */
  lemma {:induction false} RunStartsAtSeed(t: Topology, w: nat, h: nat, seed: Cell, colors: seq<Rgb>, placed: seq<Cell>)
    requires GreedyRun(t, w, h, seed, colors, placed) && |placed| > 0
    ensures placed[0] == seed
  {
    if |placed| > 1 {
      RunStartsAtSeed(t, w, h, seed, colors, placed[..|placed| - 1]);
    }
  }

  /** The seed keeps the last colour of the palette, the one popped first. */
  lemma {:induction false} SeedKeepsLastColor(w: nat, h: nat, seed: Cell, colors: seq<Rgb>, placed: seq<Cell>)
    requires TakenUnseen(w, h, placed) && |placed| <= |colors|
    requires |placed| > 0 && placed[0] == seed
    ensures InBounds(w, h, seed)
    ensures Painted(w, h, colors, placed)[Index(w, h, seed)] == colors[|colors| - 1]
  {
    PlacedKeepsColor(w, h, colors, placed, 0);
  }

  /** In a sequence of booleans every element is either true or false. */
  lemma {:induction false} BoolCounts(s: seq<bool>)
    ensures multiset(s)[true] + multiset(s)[false] == |s|
  {
    if s != [] {
      var prefix := s[..|s| - 1];
      BoolCounts(prefix);
      assert s == prefix + [s[|s| - 1]];
      assert multiset(s) == multiset(prefix) + multiset{s[|s| - 1]};
      if s[|s| - 1] {
        assert multiset(s)[true] == multiset(prefix)[true] + 1;
      } else {
        assert multiset(s)[false] == multiset(prefix)[false] + 1;
      }
    }
  }

  /** `n` copies of one value, as a multiset. */
  lemma {:induction false} ConstantMultiset<T>(n: nat, v: T)
    ensures multiset(seq(n, _ => v)) == multiset{}[v := n]
  {
    if n > 0 {
      ConstantMultiset(n - 1, v);
      assert seq(n, _ => v) == seq(n - 1, _ => v) + [v];
    }
  }

  /** After `k` cells are taken exactly `k` cells are seen; so at most
      `width * height` cells can ever be taken. */
  lemma {:induction false} TakenSeenCount(w: nat, h: nat, placed: seq<Cell>)
    requires TakenUnseen(w, h, placed)
    ensures |placed| <= w * h
    ensures multiset(MaskOf(w, h, placed))[true] == |placed|
  {
    if placed == [] {
      var mask := MaskOf(w, h, placed);
      assert true !in mask;
    } else {
      var k := |placed| - 1;
      var prefix := placed[..k];
      TakenSeenCount(w, h, prefix);
      var mask := MaskOf(w, h, prefix);
      var i := Index(w, h, placed[k]);
      assert false in mask by {
        assert mask[i] == false;
      }
      BoolCounts(mask);
    }
  }

  /** Overwriting one black entry of `pix` with `col`: one black fewer,
      and `col` joins the other colours. */
  lemma {:induction false} ReplaceBlack(pix: seq<Rgb>, i: nat, col: Rgb, others: seq<Rgb>, blacks: nat)
    requires i < |pix| && pix[i] == Black && blacks > 0
    requires multiset(pix) == multiset(others) + multiset{}[Black := blacks]
    ensures multiset(pix[i := col]) == multiset([col] + others) + multiset{}[Black := blacks - 1]
  {
    assert multiset(pix[i := col]) == multiset(pix) - multiset{Black} + multiset{col};
    assert multiset{}[Black := blacks] == multiset{}[Black := blacks - 1] + multiset{Black};
  }

  /** Painting one more unseen cell trades one black for the next colour. */
  lemma {:induction false} PaintOneMore(w: nat, h: nat, colors: seq<Rgb>, prefix: seq<Cell>, c: Cell)
    requires |prefix| < |colors| && |prefix| < w * h && InBounds(w, h, c)
    requires !MaskOf(w, h, prefix)[Index(w, h, c)]
    requires multiset(Painted(w, h, colors, prefix))
             == multiset(colors[|colors| - |prefix|..]) + multiset{}[Black := w * h - |prefix|]
    ensures multiset(Painted(w, h, colors, prefix + [c]))
            == multiset(colors[|colors| - |prefix| - 1..]) + multiset{}[Black := w * h - |prefix| - 1]
  {
    var (n, k) := (|colors|, |prefix|);
    UnseenIsBlack(w, h, colors, prefix, c);
    TakeOneMore(w, h, colors, prefix, c);
    ReplaceBlack(Painted(w, h, colors, prefix), Index(w, h, c), colors[n - k - 1], colors[n - k..], w * h - k);
    assert colors[n - k - 1..] == [colors[n - k - 1]] + colors[n - k..];
  }

  /** After `k` cells are taken the image holds the `k` colours popped so far
      and black everywhere else. */
  lemma {:induction false} TakenPaint(w: nat, h: nat, colors: seq<Rgb>, placed: seq<Cell>)
    requires TakenUnseen(w, h, placed) && |placed| <= |colors|
    ensures |placed| <= w * h
    ensures multiset(Painted(w, h, colors, placed))
            == multiset(colors[|colors| - |placed|..]) + multiset{}[Black := w * h - |placed|]
  {
    var n := |colors|;
    TakenSeenCount(w, h, placed);
    if placed == [] {
      var blacks := multiset{}[Black := w * h];
      assert colors[n..] == [];
      assert Painted(w, h, colors, placed) == seq(w * h, _ => Black);
      ConstantMultiset(w * h, Black);
      assert multiset(colors[n..]) + blacks == blacks;
    } else {
      var k := |placed| - 1;
      var prefix := placed[..k];
      TakenPaint(w, h, colors, prefix);
      PaintOneMore(w, h, colors, prefix, placed[k]);
      assert prefix + [placed[k]] == placed;
    }
  }

  /** A complete run (one cell per colour, as many colours as cells) has seen
      every cell and painted the palette exactly: the image is a permutation
      of the colours. */
  lemma {:induction false} CompleteRun(w: nat, h: nat, colors: seq<Rgb>, placed: seq<Cell>)
    requires TakenUnseen(w, h, placed) && |placed| == |colors| == w * h
    ensures forall c :: InBounds(w, h, c) ==> Seen(w, h, MaskOf(w, h, placed), c)
    ensures multiset(Painted(w, h, colors, placed)) == multiset(colors)
  {
    var mask := MaskOf(w, h, placed);
    TakenSeenCount(w, h, placed);
    TakenPaint(w, h, colors, placed);
    BoolCounts(mask);
    assert false !in mask;
    assert colors[0..] == colors;
  }

  /** While colours remain, some cell is still unseen, so (the grid being
      connected) the frontier is not empty. */
  lemma {:induction false} FrontierWhileColorsRemain(t: Topology, w: nat, h: nat, seed: Cell, colors: seq<Rgb>, placed: seq<Cell>)
    requires GreedyRun(t, w, h, seed, colors, placed) && 0 < |placed| < |colors| == w * h
    ensures Frontier(t, w, h, MaskOf(w, h, placed)) != {}
  {
    var mask := MaskOf(w, h, placed);
    RunTakesUnseen(t, w, h, seed, colors, placed);
    TakenSeenCount(w, h, placed);
    BoolCounts(mask);
    assert false in multiset(mask);
    var i :| 0 <= i < |mask| && !mask[i];
    var u := CellAt(w, h, i);
    PlacedAreSeen(w, h, placed, 0);
    FrontierNonEmpty(t, w, h, mask, placed[0], u);
  }
}
