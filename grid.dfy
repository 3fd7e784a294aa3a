/** Coordinates on a width-by-height grid: row-major addressing and the two
    neighbour enumerations of the source, `for_each_neighbor` in src/image.rs
    (4-connected) and in src/main.rs (8-connected). */
module Grid {
  import opened Arith

  /** A coordinate `(x, y)`: column, then row. */
  type Cell = (int, int)

  /** Which cells count as neighbours: edge-sharing only, or corners too. */
  datatype Topology = FourConnected | EightConnected

  predicate InBounds(w: nat, h: nat, c: Cell)
  {
    0 <= c.0 < w && 0 <= c.1 < h
  }

  /** The row-major offset `y * width + x` of an in-bounds cell; it always
      addresses one of the `width * height` cells of the buffer. */
  function Index(w: nat, h: nat, c: Cell): (i: nat)
    requires InBounds(w, h, c)
    ensures i < w * h
  {
    RowBounds(w, c.0, c.1);
    MulMonotone(w, c.1 + 1, h);
    c.1 * w + c.0
  }

  /** Distinct in-bounds cells have distinct offsets, so writing one cell
      never disturbs another. */
  lemma {:induction false} IndexInjective(w: nat, h: nat, a: Cell, b: Cell)
    requires InBounds(w, h, a) && InBounds(w, h, b)
    ensures Index(w, h, a) == Index(w, h, b) <==> a == b
  {
    RowBounds(w, a.0, a.1);
    RowBounds(w, b.0, b.1);
    if a.1 < b.1 {
      RowOrder(w, a.1, b.1);
    } else if b.1 < a.1 {
      RowOrder(w, b.1, a.1);
    }
  }

  /** The cell stored at offset `i`: every offset below `width * height`
      belongs to exactly one in-bounds cell. */
  function CellAt(w: nat, h: nat, i: nat): (c: Cell)
    requires i < w * h
    ensures InBounds(w, h, c) && Index(w, h, c) == i
  {
    QuotientBelow(w, h, i);
    (i % w, i / w)
  }

  function Dist(a: int, b: int): nat
  {
    if a < b then b - a else a - b
  }

  /** The neighbour relation of each topology: Manhattan distance exactly 1 for
      four-connected grids, Chebyshev distance exactly 1 for eight-connected. */
  predicate Adjacent(t: Topology, a: Cell, b: Cell)
  {
    match t
    case FourConnected => Dist(a.0, b.0) + Dist(a.1, b.1) == 1
    case EightConnected => Dist(a.0, b.0) <= 1 && Dist(a.1, b.1) <= 1 && a != b
  }

  /** Lexicographic order on cells, by column and then by row. */
  predicate Before(a: Cell, b: Cell)
  {
    a.0 < b.0 || (a.0 == b.0 && a.1 < b.1)
  }

  /** Strictly increasing in lexicographic order, hence without repetitions. */
  predicate Increasing(ns: seq<Cell>)
  {
    forall i, j :: 0 <= i < j < |ns| ==> Before(ns[i], ns[j])
  }

  /** Joining two increasing runs, the last cell of the first before the first
      cell of the second, gives an increasing run. */
  lemma {:induction false} IncreasingConcat(a: seq<Cell>, b: seq<Cell>)
    requires Increasing(a) && Increasing(b)
    requires |a| == 0 || |b| == 0 || Before(a[|a| - 1], b[0])
    ensures Increasing(a + b)
  {
    forall i, j | 0 <= i < j < |a + b|
      ensures Before((a + b)[i], (a + b)[j])
    {
      if j < |a| {
        assert (a + b)[i] == a[i] && (a + b)[j] == a[j];
      } else if i >= |a| {
        assert (a + b)[i] == b[i - |a|] && (a + b)[j] == b[j - |a|];
      } else {
        assert (a + b)[i] == a[i] && (a + b)[j] == b[j - |a|];
        assert i == |a| - 1 || Before(a[i], a[|a| - 1]);
        assert j == |a| || Before(b[0], b[j - |a|]);
      }
    }
  }

  /** The cells directly above and below `(x, y)`, in that order, leaving out
      the one above on the first row and the one below on the last. */
  function Vertical(x: int, y: int, h: nat): (ns: seq<Cell>)
    ensures |ns| <= 2
  {
    (if y > 0 then [(x, y - 1)] else []) + (if y + 1 < h then [(x, y + 1)] else [])
  }

  /** Column `x` restricted to rows `y - 1`, `y` and `y + 1`, top to bottom,
      leaving out row `y + 1` when it is past the last row. */
  function Column(x: int, y: int, h: nat): (ns: seq<Cell>)
    ensures |ns| <= 3
  {
    (if y > 0 then [(x, y - 1)] else []) + [(x, y)] + (if y + 1 < h then [(x, y + 1)] else [])
  }

  /** Which cells the middle column piece holds. */
  lemma {:induction false} VerticalMember(x: int, y: int, h: nat, n: Cell)
    ensures n in Vertical(x, y, h) <==> n.0 == x && ((0 < y && n.1 == y - 1) || (y + 1 < h && n.1 == y + 1))
  {
  }

  /** Which cells a side column piece holds. */
  lemma {:induction false} ColumnMember(x: int, y: int, h: nat, n: Cell)
    ensures n in Column(x, y, h) <==> n.0 == x && ((0 < y && n.1 == y - 1) || n.1 == y || (y + 1 < h && n.1 == y + 1))
  {
  }

  /** Both column pieces stay in column `x` and run top to bottom. */
  lemma {:induction false} ColumnIncreasing(x: int, y: int, h: nat)
    ensures Increasing(Vertical(x, y, h)) && Increasing(Column(x, y, h))
    ensures forall i :: 0 <= i < |Vertical(x, y, h)| ==> Vertical(x, y, h)[i].0 == x
    ensures forall i :: 0 <= i < |Column(x, y, h)| ==> Column(x, y, h)[i].0 == x
  {
    var up := if y > 0 then [(x, y - 1)] else [];
    var down := if y + 1 < h then [(x, y + 1)] else [];
    IncreasingConcat(up, down);
    IncreasingConcat(up, [(x, y)]);
    IncreasingConcat(up + [(x, y)], down);
  }

  /** `for_each_neighbor` of src/image.rs: left, up, down, right, each only when
      it exists. */
  function Neighbors4(w: nat, h: nat, c: Cell): (ns: seq<Cell>)
    ensures |ns| <= 4
  {
    var (x, y) := c;
    var left := if x > 0 then [(x - 1, y)] else [];
    var right := if x + 1 < w then [(x + 1, y)] else [];
    left + Vertical(x, y, h) + right
  }

  /** `for_each_neighbor` of src/main.rs: the column to the left, the cells above
      and below, the column to the right, each cell only when it exists. */
  function Neighbors8(w: nat, h: nat, c: Cell): (ns: seq<Cell>)
    ensures |ns| <= 8
  {
    var (x, y) := c;
    var left := if x > 0 then Column(x - 1, y, h) else [];
    var right := if x + 1 < w then Column(x + 1, y, h) else [];
    left + Vertical(x, y, h) + right
  }

  /** The four-connected enumeration visits exactly the in-bounds cells that
      share an edge with an in-bounds cell `c`. */
  lemma {:induction false} Neighbors4Exact(w: nat, h: nat, c: Cell)
    requires InBounds(w, h, c)
    ensures forall n :: n in Neighbors4(w, h, c) <==> InBounds(w, h, n) && Adjacent(FourConnected, c, n)
  {
    forall n
      ensures n in Neighbors4(w, h, c) <==> InBounds(w, h, n) && Adjacent(FourConnected, c, n)
    {
      Neighbors4Member(w, h, c, n);
    }
  }

  /** One cell of Neighbors4Exact. */
  lemma {:induction false} Neighbors4Member(w: nat, h: nat, c: Cell, n: Cell)
    requires InBounds(w, h, c)
    ensures n in Neighbors4(w, h, c) <==> InBounds(w, h, n) && Adjacent(FourConnected, c, n)
  {
    var (x, y) := c;
    var left: seq<Cell> := if x > 0 then [(x - 1, y)] else [];
    var right: seq<Cell> := if x + 1 < w then [(x + 1, y)] else [];
    assert Neighbors4(w, h, c) == left + Vertical(x, y, h) + right;
    VerticalMember(x, y, h, n);
  }

  /** The eight-connected enumeration visits exactly the in-bounds cells at
      Chebyshev distance one from an in-bounds cell `c`. */
  lemma {:induction false} Neighbors8Exact(w: nat, h: nat, c: Cell)
    requires InBounds(w, h, c)
    ensures forall n :: n in Neighbors8(w, h, c) <==> InBounds(w, h, n) && Adjacent(EightConnected, c, n)
  {
    forall n
      ensures n in Neighbors8(w, h, c) <==> InBounds(w, h, n) && Adjacent(EightConnected, c, n)
    {
      Neighbors8Member(w, h, c, n);
    }
  }

  /** One cell of Neighbors8Exact. */
  lemma {:induction false} Neighbors8Member(w: nat, h: nat, c: Cell, n: Cell)
    requires InBounds(w, h, c)
    ensures n in Neighbors8(w, h, c) <==> InBounds(w, h, n) && Adjacent(EightConnected, c, n)
  {
    var (x, y) := c;
    Neighbors8Pieces(w, h, c, n);
    VerticalMember(x, y, h, n);
    ColumnMember(x - 1, y, h, n);
    ColumnMember(x + 1, y, h, n);
  }

  /** A cell is among the eight-connected neighbours when it is in one of the
      three column pieces that exist. */
  lemma {:induction false} Neighbors8Pieces(w: nat, h: nat, c: Cell, n: Cell)
    ensures n in Neighbors8(w, h, c)
        <==> (c.0 > 0 && n in Column(c.0 - 1, c.1, h)) || n in Vertical(c.0, c.1, h)
             || (c.0 + 1 < w && n in Column(c.0 + 1, c.1, h))
  {
    var (x, y) := c;
    var left := if x > 0 then Column(x - 1, y, h) else [];
    var right := if x + 1 < w then Column(x + 1, y, h) else [];
    assert Neighbors8(w, h, c) == left + Vertical(x, y, h) + right;
  }

  /** The neighbours of `c` in topology `t`, in the order the source visits them. */
  function Neighbors(t: Topology, w: nat, h: nat, c: Cell): (ns: seq<Cell>)
    ensures |ns| <= 8
  {
    match t
    case FourConnected => Neighbors4(w, h, c)
    case EightConnected => Neighbors8(w, h, c)
  }

  /** Either enumeration visits exactly the in-bounds cells adjacent to `c`. */
  lemma {:induction false} NeighborsExact(t: Topology, w: nat, h: nat, c: Cell)
    requires InBounds(w, h, c)
    ensures forall n :: n in Neighbors(t, w, h, c) <==> InBounds(w, h, n) && Adjacent(t, c, n)
  {
    match t
    case FourConnected => Neighbors4Exact(w, h, c);
    case EightConnected => Neighbors8Exact(w, h, c);
  }

  /** Three increasing runs lying in columns left of `x`, in column `x` and
      right of `x` make one increasing run. */
  lemma {:induction false} IncreasingColumns(left: seq<Cell>, middle: seq<Cell>, right: seq<Cell>, x: int)
    requires Increasing(left) && Increasing(middle) && Increasing(right)
    requires forall i :: 0 <= i < |left| ==> left[i].0 < x
    requires forall i :: 0 <= i < |middle| ==> middle[i].0 == x
    requires forall i :: 0 <= i < |right| ==> right[i].0 > x
    ensures Increasing(left + middle + right)
  {
    var ns := left + middle + right;
    forall i, j | 0 <= i < j < |ns|
      ensures Before(ns[i], ns[j])
    {
      var k := |left| + |middle|;
      if j < |left| {
        assert ns[i] == left[i] && ns[j] == left[j];
      } else if i >= k {
        assert ns[i] == right[i - k] && ns[j] == right[j - k];
      } else if i >= |left| && j < k {
        assert ns[i] == middle[i - |left|] && ns[j] == middle[j - |left|];
      } else {
        assert ns[i].0 < ns[j].0 by {
          if i < |left| {
            assert ns[i] == left[i];
            if j < k {
              assert ns[j] == middle[j - |left|];
            } else {
              assert ns[j] == right[j - k];
            }
          } else {
            assert ns[i] == middle[i - |left|] && ns[j] == right[j - k];
          }
        }
      }
    }
  }

  /** The four-connected enumeration runs in increasing order. */
  lemma {:induction false} Neighbors4Increasing(w: nat, h: nat, c: Cell)
    ensures Increasing(Neighbors4(w, h, c))
  {
    var (x, y) := c;
    var left: seq<Cell> := if x > 0 then [(x - 1, y)] else [];
    var right: seq<Cell> := if x + 1 < w then [(x + 1, y)] else [];
    assert Neighbors4(w, h, c) == left + Vertical(x, y, h) + right;
    ColumnIncreasing(x, y, h);
    IncreasingColumns(left, Vertical(x, y, h), right, x);
  }

  /** The eight-connected enumeration runs in increasing order. */
  lemma {:induction false} Neighbors8Increasing(w: nat, h: nat, c: Cell)
    ensures Increasing(Neighbors8(w, h, c))
  {
    var (x, y) := c;
    var left := if x > 0 then Column(x - 1, y, h) else [];
    var right := if x + 1 < w then Column(x + 1, y, h) else [];
    assert Neighbors8(w, h, c) == left + Vertical(x, y, h) + right;
    ColumnIncreasing(x - 1, y, h);
    ColumnIncreasing(x, y, h);
    ColumnIncreasing(x + 1, y, h);
    IncreasingColumns(left, Vertical(x, y, h), right, x);
  }

  /** Either enumeration visits its cells in increasing order, so it never
      visits a cell twice. */
  lemma {:induction false} NeighborsIncreasing(t: Topology, w: nat, h: nat, c: Cell)
    ensures Increasing(Neighbors(t, w, h, c))
  {
    match t
    case FourConnected => Neighbors4Increasing(w, h, c);
    case EightConnected => Neighbors8Increasing(w, h, c);
  }

  /** Every cell the enumeration visits around an in-bounds cell is in bounds,
      so reading it never leaves the buffer. */
  lemma {:induction false} NeighborsInBounds(t: Topology, w: nat, h: nat, c: Cell)
    requires InBounds(w, h, c)
    ensures forall i :: 0 <= i < |Neighbors(t, w, h, c)| ==> InBounds(w, h, Neighbors(t, w, h, c)[i])
  {
    NeighborsExact(t, w, h, c);
    var ns := Neighbors(t, w, h, c);
    forall i | 0 <= i < |ns|
      ensures InBounds(w, h, ns[i])
    {
      assert ns[i] in ns;
    }
  }

  /** Being a neighbour is symmetric on in-bounds cells, in both topologies. */
  lemma {:induction false} NeighborsSymmetric(t: Topology, w: nat, h: nat, a: Cell, b: Cell)
    requires InBounds(w, h, a) && InBounds(w, h, b)
    ensures a in Neighbors(t, w, h, b) <==> b in Neighbors(t, w, h, a)
  {
    NeighborsExact(t, w, h, a);
    NeighborsExact(t, w, h, b);
  }

  /** A cell away from the border has all of its neighbours: four when
      four-connected, eight when eight-connected. */
  lemma {:induction false} InteriorNeighbors(t: Topology, w: nat, h: nat, c: Cell)
    requires 0 < c.0 && c.0 + 1 < w && 0 < c.1 && c.1 + 1 < h
    ensures |Neighbors(t, w, h, c)| == if t == FourConnected then 4 else 8
  {
    var (x, y) := c;
    assert |Vertical(x, y, h)| == 2;
    if t == EightConnected {
      assert |Column(x - 1, y, h)| == 3 && |Column(x + 1, y, h)| == 3;
    }
  }
}
