/** Positions on a rectangular board and the counting facts that both board
    engines rely on: how many cells a board has, how a row-major scan
    visits them, and which cells are the eight neighbours of a cell. */
module Grids {

  /** A position `(first index, second index)` into a two-dimensional array. */
  type Pos = (int, int)

  /** Every position of a `w` by `h` array. */
  ghost function Grid(w: int, h: int): set<Pos>
  {
    set i, j | 0 <= i < w && 0 <= j < h :: (i, j)
  }

  /** The first `h` positions of row `i`, one at a time. */
  ghost function Row(i: int, h: int): set<Pos>
    decreases h
  {
    if h <= 0 then {} else Row(i, h - 1) + {(i, h - 1)}
  }

  /** The first `w` rows, one row at a time. */
  ghost function Rows(w: int, h: int): set<Pos>
    decreases w
  {
    if w <= 0 then {} else Rows(w - 1, h) + Row(w - 1, h)
  }

  lemma {:induction false} RowMember(i: int, h: int)
    ensures forall p | p in Row(i, h) :: p.0 == i && 0 <= p.1 < h
    ensures forall j | 0 <= j < h :: (i, j) in Row(i, h)
    decreases h
  {
    if h > 0 {
      RowMember(i, h - 1);
    }
  }

  lemma {:induction false} RowsMember(w: int, h: int)
    ensures forall p | p in Rows(w, h) :: 0 <= p.0 < w
    decreases w
  {
    if w > 0 {
      RowsMember(w - 1, h);
      RowMember(w - 1, h);
    }
  }

  lemma RowsStep(w: int, h: int)
    requires w > 0
    ensures Rows(w, h) == Rows(w - 1, h) + Row(w - 1, h)
    ensures Rows(w - 1, h) !! Row(w - 1, h)
  {
    RowsMember(w - 1, h);
    RowMember(w - 1, h);
  }

  /** Taking the rows one at a time gives every position of the array. */
  lemma {:induction false} RowsAreGrid(w: int, h: int)
    ensures Rows(w, h) == Grid(w, h)
    decreases w
  {
    if w > 0 {
      RowsAreGrid(w - 1, h);
      RowMember(w - 1, h);
      forall p | p in Grid(w, h) ensures p in Rows(w, h) {
        if p.0 < w - 1 { assert p in Grid(w - 1, h); } else { assert p in Row(w - 1, h); }
      }
    } else {
      assert Grid(w, h) == {};
    }
  }

  /** Two disjoint sets have as many members together as apart. */
  lemma DisjointCard<T>(a: set<T>, b: set<T>, c: set<T>)
    requires a !! b && c == a + b
    ensures |c| == |a| + |b|
  {
    assert a * b == {};
  }

  /** Counting the members of `s` in two disjoint parts adds up. */
  lemma DisjointUnionCount<T>(s: set<T>, a: set<T>, b: set<T>, c: set<T>)
    requires a !! b && c == a + b
    ensures |s * c| == |s * a| + |s * b|
  {
    assert s * c == s * a + s * b;
    DisjointCard(s * a, s * b, s * c);
  }

  /** `w` rows of `h` cells, added up one row at a time. */
  ghost function Area(w: nat, h: nat): nat
  {
    if w == 0 then 0 else Area(w - 1, h) + h
  }

  lemma {:induction false} AreaIsProduct(w: nat, h: nat)
    ensures Area(w, h) == w * h
    decreases w
  {
    if w > 0 {
      AreaIsProduct(w - 1, h);
      assert (w - 1) * h + h == w * h;
    }
  }

  lemma {:induction false} RowSize(i: int, h: nat)
    ensures |Row(i, h)| == h
    decreases h
  {
    if h > 0 {
      RowSize(i, h - 1);
      RowMember(i, h - 1);
    }
  }

  lemma RowsSizeStep(w: int, h: int)
    requires w > 0
    ensures |Rows(w, h)| == |Rows(w - 1, h)| + |Row(w - 1, h)|
  {
    RowsStep(w, h);
    DisjointCard(Rows(w - 1, h), Row(w - 1, h), Rows(w, h));
  }

  lemma {:induction false} RowsSize(w: nat, h: nat)
    ensures |Rows(w, h)| == Area(w, h)
    decreases w
  {
    if w > 0 {
      calc {
        |Rows(w, h)|;
        { RowsSizeStep(w, h); }
        |Rows(w - 1, h)| + |Row(w - 1, h)|;
        { RowsSize(w - 1, h); RowSize(w - 1, h); }
        Area(w - 1, h) + h;
      }
    }
  }

  /** A `w` by `h` array has `w * h` positions. */
  lemma GridSize(w: nat, h: nat)
    ensures |Grid(w, h)| == w * h
  {
    RowsSize(w, h);
    AreaIsProduct(w, h);
    RowsAreGrid(w, h);
  }

  /** Adding one element to the scanned part adds one to the count of the
      scanned elements of `s` exactly when the element belongs to `s`. */
  lemma CountStep<T>(s: set<T>, a: set<T>, e: T)
    requires e !in a
    ensures |s * (a + {e})| == |s * a| + (if e in s then 1 else 0)
  {
    if e in s {
      assert s * (a + {e}) == s * a + {e};
    } else {
      assert s * (a + {e}) == s * a;
    }
  }

  /** How many of the first `j` cells of row `i` a scan finds in `s`. */
  ghost function RowCount(s: set<Pos>, i: int, j: nat): nat
  {
    if j == 0 then 0 else RowCount(s, i, j - 1) + (if (i, j - 1) in s then 1 else 0)
  }

  /** How many cells of the first `i` rows (each `h` long) a scan finds in `s`. */
  ghost function GridCount(s: set<Pos>, h: nat, i: nat): nat
  {
    if i == 0 then 0 else GridCount(s, h, i - 1) + RowCount(s, i - 1, h)
  }

  lemma {:induction false} RowCountSize(s: set<Pos>, i: int, j: nat)
    ensures RowCount(s, i, j) == |s * Row(i, j)|
    decreases j
  {
    if j > 0 {
      RowCountSize(s, i, j - 1);
      RowMember(i, j - 1);
      CountStep(s, Row(i, j - 1), (i, j - 1));
    }
  }

  lemma RowsCountStep(s: set<Pos>, w: int, h: int)
    requires w > 0
    ensures |s * Rows(w, h)| == |s * Rows(w - 1, h)| + |s * Row(w - 1, h)|
  {
    RowsStep(w, h);
    DisjointUnionCount(s, Rows(w - 1, h), Row(w - 1, h), Rows(w, h));
  }

  lemma {:induction false} RowsCountSize(s: set<Pos>, w: nat, h: nat)
    ensures GridCount(s, h, w) == |s * Rows(w, h)|
    decreases w
  {
    if w > 0 {
      calc {
        GridCount(s, h, w);
        GridCount(s, h, w - 1) + RowCount(s, w - 1, h);
        { RowsCountSize(s, w - 1, h); RowCountSize(s, w - 1, h); }
        |s * Rows(w - 1, h)| + |s * Row(w - 1, h)|;
        { RowsCountStep(s, w, h); }
        |s * Rows(w, h)|;
      }
    }
  }

  /** A finished row-major scan counts exactly the members of `s` on the board. */
  lemma GridCountSize(s: set<Pos>, w: nat, h: nat)
    ensures GridCount(s, h, w) == |s * Grid(w, h)|
  {
    RowsCountSize(s, w, h);
    RowsAreGrid(w, h);
  }

  /** The eight cells around `(x, y)`, whether or not they lie on the board. */
  ghost function Around(x: int, y: int): set<Pos>
  {
    set i, j | x - 1 <= i <= x + 1 && y - 1 <= j <= y + 1 && (i, j) != (x, y) :: (i, j)
  }

  /** How many members of `s` are neighbours of `(x, y)`. */
  ghost function NeighbourCount(s: set<Pos>, x: int, y: int): nat
  {
    |s * Around(x, y)|
  }

  /** A cell has at most eight neighbours. */
  lemma NeighbourCountAtMost8(s: set<Pos>, x: int, y: int)
    ensures NeighbourCount(s, x, y) <= 8
  {
    var a := {(x - 1, y - 1), (x - 1, y), (x - 1, y + 1)};
    var b := {(x, y - 1), (x, y + 1)};
    var c := {(x + 1, y - 1), (x + 1, y), (x + 1, y + 1)};
    assert |a| <= 3 && |b| <= 2 && |c| <= 3;
    assert Around(x, y) == a + b + c;
    assert |a + b + c| <= 8;
    SubsetSize(s * Around(x, y), a + b + c);
  }

  lemma SubsetSize<T>(a: set<T>, b: set<T>)
    requires a <= b
    ensures |a| <= |b|
  {
    assert b == a + (b - a);
    assert a !! (b - a);
  }

  /** The `k`-th cell (0..8) of the 3x3 block around `(x, y)`, scanned by
      rows, then columns. */
  ghost function BlockPos(x: int, y: int, k: int): Pos
  {
    var row := if k < 3 then 0 else if k < 6 then 1 else 2;
    (x - 1 + row, y - 1 + k - 3 * row)
  }

  /** How many of the first `k` cells of that scan, the centre left out, are in `s`. */
  ghost function BlockCount(s: set<Pos>, x: int, y: int, k: nat): nat
  {
    if k == 0 then 0
    else BlockCount(s, x, y, k - 1) +
         (if BlockPos(x, y, k - 1) in s && BlockPos(x, y, k - 1) != (x, y) then 1 else 0)
  }

  ghost function BlockPrefix(x: int, y: int, k: int): set<Pos>
  {
    (set m | 0 <= m < k :: BlockPos(x, y, m)) - {(x, y)}
  }

  lemma BlockPrefixStep(x: int, y: int, k: int)
    requires 0 < k <= 9
    ensures BlockPos(x, y, k - 1) !in BlockPrefix(x, y, k - 1)
    ensures BlockPos(x, y, k - 1) == (x, y) ==> BlockPrefix(x, y, k) == BlockPrefix(x, y, k - 1)
    ensures BlockPos(x, y, k - 1) != (x, y) ==>
              BlockPrefix(x, y, k) == BlockPrefix(x, y, k - 1) + {BlockPos(x, y, k - 1)}
  {
    var e := BlockPos(x, y, k - 1);
    forall m | 0 <= m < k - 1 ensures BlockPos(x, y, m) != e { }
  }

  lemma {:induction false} BlockCountSize(s: set<Pos>, x: int, y: int, k: nat)
    requires k <= 9
    ensures BlockCount(s, x, y, k) == |s * BlockPrefix(x, y, k)|
    decreases k
  {
    if k > 0 {
      BlockCountSize(s, x, y, k - 1);
      BlockPrefixStep(x, y, k);
      if BlockPos(x, y, k - 1) != (x, y) {
        CountStep(s, BlockPrefix(x, y, k - 1), BlockPos(x, y, k - 1));
      }
    } else {
      assert BlockPrefix(x, y, k) == {};
    }
  }

  /** The whole scan of the block counts the neighbours in `s`. */
  lemma BlockCountAll(s: set<Pos>, x: int, y: int)
    ensures BlockCount(s, x, y, 9) == NeighbourCount(s, x, y)
  {
    BlockCountSize(s, x, y, 9);
    assert BlockPrefix(x, y, 9) == Around(x, y) by {
      forall p | p in Around(x, y) ensures p in BlockPrefix(x, y, 9) {
        var m := 3 * (p.0 - x + 1) + (p.1 - y + 1);
        assert BlockPos(x, y, m) == p;
      }
    }
  }

  /** 1 when `p` is in `s`, 0 otherwise. */
  function In(s: set<Pos>, p: Pos): nat
  {
    if p in s then 1 else 0
  }

  /** The neighbour count as eight separate tests, in the order of
      `getNumbersOfMines` in Program.java: left, right, up, down, then the
      four corners. */
  lemma NeighbourSum(s: set<Pos>, x: int, y: int)
    ensures NeighbourCount(s, x, y) ==
              In(s, (x - 1, y)) + In(s, (x + 1, y)) + In(s, (x, y - 1)) + In(s, (x, y + 1)) +
              In(s, (x - 1, y - 1)) + In(s, (x + 1, y - 1)) + In(s, (x - 1, y + 1)) + In(s, (x + 1, y + 1))
  {
    BlockCountAll(s, x, y);
    assert BlockCount(s, x, y, 1) == In(s, (x - 1, y - 1));
    assert BlockCount(s, x, y, 2) == BlockCount(s, x, y, 1) + In(s, (x - 1, y));
    assert BlockCount(s, x, y, 3) == BlockCount(s, x, y, 2) + In(s, (x - 1, y + 1));
    assert BlockCount(s, x, y, 4) == BlockCount(s, x, y, 3) + In(s, (x, y - 1));
    assert BlockCount(s, x, y, 5) == BlockCount(s, x, y, 4);
    assert BlockCount(s, x, y, 6) == BlockCount(s, x, y, 5) + In(s, (x, y + 1));
    assert BlockCount(s, x, y, 7) == BlockCount(s, x, y, 6) + In(s, (x + 1, y - 1));
    assert BlockCount(s, x, y, 8) == BlockCount(s, x, y, 7) + In(s, (x + 1, y));
    assert BlockCount(s, x, y, 9) == BlockCount(s, x, y, 8) + In(s, (x + 1, y + 1));
  }

  /** The four orthogonal neighbours of `(r, c)`. */
  ghost function Orthogonal(p: Pos): set<Pos>
  {
    {(p.0 - 1, p.1), (p.0 + 1, p.1), (p.0, p.1 - 1), (p.0, p.1 + 1)}
  }

  /** Moving one element of `b` into its subset `a` grows `a` by one and
      shrinks what is left of `b` by one. */
  lemma AddOne<T>(b: set<T>, a: set<T>, e: T)
    requires a <= b && e in b && e !in a
    ensures |a + {e}| == |a| + 1
    ensures |b - (a + {e})| == |b - a| - 1
  {
    assert b - a == (b - (a + {e})) + {e};
  }

  /** Taking one element out of a set shrinks it by one when it was there. */
  lemma RemoveCount<T>(a: set<T>, e: T)
    ensures |a - {e}| == |a| - (if e in a then 1 else 0)
  {
    if e in a {
      assert a == (a - {e}) + {e};
    } else {
      assert a - {e} == a;
    }
  }

  /** Splitting the growth of a set in two steps splits its size. */
  lemma GrowthAdds<T>(a: set<T>, b: set<T>, c: set<T>)
    requires a <= b <= c
    ensures |c - a| == |c - b| + |b - a|
  {
    assert c - a == (c - b) + (b - a);
    assert (c - b) !! (b - a);
  }
}
