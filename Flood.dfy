/** What a flood fill may open. Both boards uncover a cell and, when it
    is EMPTY, call `uncoverAdjacent` on its four orthogonal neighbours, which
    uncovers a neighbour only if it lies on the board, is covered and is not
    a mine (and, through `uncover`, is not flagged). A board is seen here
    through the kind of each of its positions and the set of flagged
    positions. */
module Flood {
  import opened CellType
  import opened Grids

  /** After `uncover` has run on an EMPTY cell `p`, each of its four orthogonal
      neighbours is off the board, uncovered, a mine, or flagged. */
  ghost predicate Settled(kinds: map<Pos, CellType>, flagged: set<Pos>, open: set<Pos>, q: Pos)
  {
    q !in kinds || q in open || kinds[q] == MINE || q in flagged
  }

  ghost predicate FloodClosed(kinds: map<Pos, CellType>, flagged: set<Pos>, open: set<Pos>, p: Pos)
  {
    p in kinds && kinds[p] == EMPTY ==>
      Settled(kinds, flagged, open, (p.0, p.1 - 1)) && Settled(kinds, flagged, open, (p.0, p.1 + 1)) &&
      Settled(kinds, flagged, open, (p.0 - 1, p.1)) && Settled(kinds, flagged, open, (p.0 + 1, p.1))
  }

  /** What a call of `uncover` may have opened, from `before` to `after`:
      cells of the board that are not flagged and whose orthogonal
      neighbours have been dealt with if they are EMPTY; none of them a mine
      unless it is in `mineOk`. */
  ghost predicate Opened(kinds: map<Pos, CellType>, flagged: set<Pos>, before: set<Pos>, after: set<Pos>, mineOk: set<Pos>)
  {
    before <= after &&
    forall p | p in after - before ::
      p in kinds && p !in flagged && (p in mineOk || kinds[p] != MINE) && FloodClosed(kinds, flagged, after, p)
  }

  /** Opening more cells keeps a neighbour dealt with. */
  lemma SettledGrows(kinds: map<Pos, CellType>, flagged: set<Pos>, open: set<Pos>, more: set<Pos>, q: Pos)
    requires open <= more && Settled(kinds, flagged, open, q)
    ensures Settled(kinds, flagged, more, q)
  {
  }

  /** Two openings one after the other make one opening, and their sizes add. */
  lemma {:induction false} OpenedTrans(kinds: map<Pos, CellType>, flagged: set<Pos>,
                                       u0: set<Pos>, u1: set<Pos>, u2: set<Pos>, a: set<Pos>, b: set<Pos>)
    requires Opened(kinds, flagged, u0, u1, a) && Opened(kinds, flagged, u1, u2, b)
    ensures Opened(kinds, flagged, u0, u2, a + b)
    ensures |u2 - u0| == |u2 - u1| + |u1 - u0|
  {
    forall p | p in u2 - u0
      ensures p in kinds && p !in flagged && (p in a + b || kinds[p] != MINE) && FloodClosed(kinds, flagged, u2, p)
    {
      if p in u1 - u0 {
        assert FloodClosed(kinds, flagged, u1, p);
        if p in kinds && kinds[p] == EMPTY {
          SettledGrows(kinds, flagged, u1, u2, (p.0, p.1 - 1));
          SettledGrows(kinds, flagged, u1, u2, (p.0, p.1 + 1));
          SettledGrows(kinds, flagged, u1, u2, (p.0 - 1, p.1));
          SettledGrows(kinds, flagged, u1, u2, (p.0 + 1, p.1));
        }
      }
    }
    GrowthAdds(u0, u1, u2);
  }

  /** Opening the target `t` and then, from it, more cells is one opening in
      which only `t` may be a mine; it opened one cell more than the second step. */
  lemma OpenedWithTarget(kinds: map<Pos, CellType>, flagged: set<Pos>, u0: set<Pos>, u1: set<Pos>, u: set<Pos>, t: Pos)
    requires t !in u0 && u1 == u0 + {t}
    requires t in kinds && t !in flagged && FloodClosed(kinds, flagged, u, t)
    requires Opened(kinds, flagged, u1, u, {})
    ensures Opened(kinds, flagged, u0, u, {t})
    ensures |u - u0| == |u - u1| + 1
  {
    assert u - u0 == (u - u1) + {t};
  }
  // ---------------------------------------------------------------------
  // Which cells a flood may reach

  /** `q` is one of the four orthogonal neighbours of `p` that
      `uncoverAdjacent` visits. */
  predicate Adjacent(p: Pos, q: Pos)
  {
    q == (p.0, p.1 - 1) || q == (p.0, p.1 + 1) || q == (p.0 - 1, p.1) || q == (p.0 + 1, p.1)
  }

  /** A walk of the flood inside `region`: consecutive cells are orthogonal
      neighbours, and every cell but the last is EMPTY, because only an
      EMPTY cell passes the flood on to its neighbours. */
  ghost predicate Walk(kinds: map<Pos, CellType>, region: set<Pos>, path: seq<Pos>)
  {
    |path| > 0 &&
    (forall i | 0 <= i < |path| :: path[i] in region) &&
    (forall i | 0 <= i < |path| - 1 :: path[i] in kinds && kinds[path[i]] == EMPTY && Adjacent(path[i], path[i + 1]))
  }

  /** Some walk inside `region` leads from `t` to `p`. */
  ghost predicate Reaches(kinds: map<Pos, CellType>, region: set<Pos>, t: Pos, p: Pos)
  {
    exists path :: Walk(kinds, region, path) && path[0] == t && path[|path| - 1] == p
  }

  /** Every cell opened from `before` to `after` was reached from the target
      `t` by a walk through the cells opened. */
  ghost predicate FromTarget(kinds: map<Pos, CellType>, before: set<Pos>, after: set<Pos>, t: Pos)
  {
    forall p {:trigger Reaches(kinds, after - before, t, p)} | p in after - before :: Reaches(kinds, after - before, t, p)
  }

  /** The cells a call of `uncover` on the covered target `t` may open: on
      the board, not flagged, covered before, and not a mine unless it is
      `t` itself. */
  ghost function Eligible(kinds: map<Pos, CellType>, flagged: set<Pos>, before: set<Pos>, t: Pos): set<Pos>
  {
    set q | q in kinds && q !in flagged && q !in before && (q == t || kinds[q] != MINE)
  }

  /** The flood region of `t`: the eligible cells that a walk through
      eligible cells reaches from `t`. */
  ghost function Region(kinds: map<Pos, CellType>, flagged: set<Pos>, before: set<Pos>, t: Pos): set<Pos>
  {
    set q | q in Eligible(kinds, flagged, before, t) && Reaches(kinds, Eligible(kinds, flagged, before, t), t, q)
  }

  /** A cell of the region reaches itself. */
  lemma ReachesSelf(kinds: map<Pos, CellType>, region: set<Pos>, t: Pos)
    requires t in region
    ensures Reaches(kinds, region, t, t)
  {
    assert Walk(kinds, region, [t]);
  }

  /** A walk from a neighbour `n` of an EMPTY cell `t` extends to a walk
      from `t`, in any larger region that holds `t`. */
  lemma ReachesVia(kinds: map<Pos, CellType>, region: set<Pos>, more: set<Pos>, t: Pos, n: Pos, p: Pos)
    requires Reaches(kinds, region, n, p) && region <= more
    requires t in more && t in kinds && kinds[t] == EMPTY && Adjacent(t, n)
    ensures Reaches(kinds, more, t, p)
  {
    var path :| Walk(kinds, region, path) && path[0] == n && path[|path| - 1] == p;
    var w := [t] + path;
    assert forall i | 1 <= i < |w| :: w[i] == path[i - 1];
    assert Walk(kinds, more, w);
  }

  /** The cells one `uncoverAdjacent` on the neighbour `n` of an EMPTY open
      cell `t` opened are reached from `t` within everything opened since
      `t` was. */
  lemma FromNeighbour(kinds: map<Pos, CellType>, u0: set<Pos>, before: set<Pos>, mid: set<Pos>, after: set<Pos>, t: Pos, n: Pos)
    requires u0 <= before <= mid <= after && t in u0
    requires t in kinds && kinds[t] == EMPTY && Adjacent(t, n)
    requires FromTarget(kinds, before, mid, n)
    ensures forall p | p in mid - before :: Reaches(kinds, after - (u0 - {t}), t, p)
  {
    forall p | p in mid - before
      ensures Reaches(kinds, after - (u0 - {t}), t, p)
    {
      ReachesVia(kinds, mid - before, after - (u0 - {t}), t, n, p);
    }
  }

  /** The four `uncoverAdjacent` calls on the neighbours of an EMPTY open
      cell `t` open only cells reached from `t`. */
  lemma FloodFromTarget(kinds: map<Pos, CellType>, u0: set<Pos>, u1: set<Pos>, u2: set<Pos>, u3: set<Pos>, u4: set<Pos>,
                        y: int, x: int)
    requires u0 <= u1 <= u2 <= u3 <= u4 && (y, x) in u0
    requires (y, x) in kinds && kinds[(y, x)] == EMPTY
    requires FromTarget(kinds, u0, u1, (y, x - 1)) && FromTarget(kinds, u1, u2, (y, x + 1))
    requires FromTarget(kinds, u2, u3, (y - 1, x)) && FromTarget(kinds, u3, u4, (y + 1, x))
    ensures FromTarget(kinds, u0 - {(y, x)}, u4, (y, x))
  {
    var t := (y, x);
    FromNeighbour(kinds, u0, u0, u1, u4, t, (y, x - 1));
    FromNeighbour(kinds, u0, u1, u2, u4, t, (y, x + 1));
    FromNeighbour(kinds, u0, u2, u3, u4, t, (y - 1, x));
    FromNeighbour(kinds, u0, u3, u4, u4, t, (y + 1, x));
    ReachesSelf(kinds, u4 - (u0 - {t}), t);
  }

  /** What one `uncoverAdjacent` on `n` does, from `before` to `after`: an
      opening, reached from `n`, after which `n` is settled. */
  ghost predicate Spread(kinds: map<Pos, CellType>, flagged: set<Pos>, before: set<Pos>, after: set<Pos>, n: Pos)
  {
    Opened(kinds, flagged, before, after, {}) && Settled(kinds, flagged, after, n) && FromTarget(kinds, before, after, n)
  }

  /** What the four `uncoverAdjacent` calls on the neighbours of `[y][x]`
      do together: they open cells as `uncover` may, leave every neighbour
      off the board, open, a mine or flagged, and, when `[y][x]` is EMPTY,
      open only cells joined to it through EMPTY cells. */
  ghost predicate Flooded(kinds: map<Pos, CellType>, flagged: set<Pos>, before: set<Pos>, after: set<Pos>, y: int, x: int)
  {
    Opened(kinds, flagged, before, after, {}) &&
    Settled(kinds, flagged, after, (y, x - 1)) && Settled(kinds, flagged, after, (y, x + 1)) &&
    Settled(kinds, flagged, after, (y - 1, x)) && Settled(kinds, flagged, after, (y + 1, x)) &&
    ((y, x) in kinds && kinds[(y, x)] == EMPTY ==> FromTarget(kinds, before - {(y, x)}, after, (y, x)))
  }

  /** The four `uncoverAdjacent` calls on the neighbours of the open cell
      `(y, x)`, taken together: what they open is one opening, its size is
      the sum of the two halves, each neighbour ends settled, and when the
      cell is EMPTY everything opened is reached from it. */
  lemma FourNeighbours(kinds: map<Pos, CellType>, flagged: set<Pos>,
                       u0: set<Pos>, u1: set<Pos>, u2: set<Pos>, u3: set<Pos>, u4: set<Pos>, y: int, x: int)
    requires (y, x) in u0
    requires Spread(kinds, flagged, u0, u1, (y, x - 1)) && Spread(kinds, flagged, u1, u2, (y, x + 1))
    requires Spread(kinds, flagged, u2, u3, (y - 1, x)) && Spread(kinds, flagged, u3, u4, (y + 1, x))
    ensures Flooded(kinds, flagged, u0, u4, y, x)
    ensures |u4 - u0| == |u2 - u0| + |u4 - u2|
  {
    OpenedTrans(kinds, flagged, u0, u1, u2, {}, {});
    OpenedTrans(kinds, flagged, u0, u2, u3, {}, {});
    OpenedTrans(kinds, flagged, u0, u3, u4, {}, {});
    GrowthAdds(u2, u3, u4);
    SettledGrows(kinds, flagged, u1, u4, (y, x - 1));
    SettledGrows(kinds, flagged, u2, u4, (y, x + 1));
    SettledGrows(kinds, flagged, u3, u4, (y - 1, x));
    if (y, x) in kinds && kinds[(y, x)] == EMPTY {
      FloodFromTarget(kinds, u0, u1, u2, u3, u4, y, x);
    }
  }

  /** After the four calls on the neighbours of an EMPTY cell, its flood is
      closed and every cell opened, the cell itself included, is reached from it. */
  lemma FloodedCell(kinds: map<Pos, CellType>, flagged: set<Pos>, before: set<Pos>, after: set<Pos>, y: int, x: int)
    requires (y, x) in kinds && kinds[(y, x)] == EMPTY
    requires Flooded(kinds, flagged, before, after, y, x)
    ensures Opened(kinds, flagged, before, after, {})
    ensures FloodClosed(kinds, flagged, after, (y, x))
    ensures FromTarget(kinds, before - {(y, x)}, after, (y, x))
  {
  }

  /** An open cell that is not EMPTY passes nothing on: opening nothing
      closes its flood, and the cell alone is reached from itself. */
  lemma NotFlooded(kinds: map<Pos, CellType>, flagged: set<Pos>, open: set<Pos>, y: int, x: int)
    requires (y, x) in open && (y, x) in kinds && kinds[(y, x)] != EMPTY
    ensures Opened(kinds, flagged, open, open, {})
    ensures FloodClosed(kinds, flagged, open, (y, x))
    ensures FromTarget(kinds, open - {(y, x)}, open, (y, x))
  {
    assert open - (open - {(y, x)}) == {(y, x)};
    ReachesSelf(kinds, {(y, x)}, (y, x));
  }

  /** A target that is not EMPTY floods nothing: it is the only cell opened. */
  lemma OnlyTarget(kinds: map<Pos, CellType>, before: set<Pos>, after: set<Pos>, t: Pos)
    requires FromTarget(kinds, before, after, t)
    requires t in kinds && kinds[t] != EMPTY
    ensures after - before <= {t}
  {
    forall p | p in after - before
      ensures p == t
    {
      assert Reaches(kinds, after - before, t, p);
      var path :| Walk(kinds, after - before, path) && path[0] == t && path[|path| - 1] == p;
      assert |path| == 1;
    }
  }

  /** A walk through eligible cells from an opened target stays inside the
      opened cells: each EMPTY cell on it was opened, so its neighbour on
      the walk was settled, which for an eligible cell means opened. */
  lemma {:induction false} WalkInside(kinds: map<Pos, CellType>, flagged: set<Pos>, before: set<Pos>, after: set<Pos>,
                                      t: Pos, path: seq<Pos>, k: nat)
    requires Opened(kinds, flagged, before, after, {t}) && t in after - before
    requires Walk(kinds, Eligible(kinds, flagged, before, t), path) && path[0] == t && k < |path|
    ensures path[k] in after
    decreases k
  {
    if k > 0 {
      WalkInside(kinds, flagged, before, after, t, path, k - 1);
      var p, q := path[k - 1], path[k];
      assert p in Eligible(kinds, flagged, before, t) && q in Eligible(kinds, flagged, before, t);
      assert p in after - before && FloodClosed(kinds, flagged, after, p);
      assert Settled(kinds, flagged, after, q);
    }
  }

  /** What `uncover` opens on a covered, unflagged target of the board is
      exactly the flood region of the target: the opened cells are eligible
      and reached from it, and every eligible cell it reaches is opened. */
  lemma OpenedIsRegion(kinds: map<Pos, CellType>, flagged: set<Pos>, before: set<Pos>, after: set<Pos>, t: Pos)
    requires t in after - before
    requires Opened(kinds, flagged, before, after, {t}) && FromTarget(kinds, before, after, t)
    ensures after - before == Region(kinds, flagged, before, t)
  {
    var e := Eligible(kinds, flagged, before, t);
    forall p | p in after - before
      ensures p in Region(kinds, flagged, before, t)
    {
      assert Reaches(kinds, after - before, t, p) && FloodClosed(kinds, flagged, after, p);
      var path :| Walk(kinds, after - before, path) && path[0] == t && path[|path| - 1] == p;
      assert Walk(kinds, e, path);
    }
    forall p | p in Region(kinds, flagged, before, t)
      ensures p in after - before
    {
      var path :| Walk(kinds, e, path) && path[0] == t && path[|path| - 1] == p;
      WalkInside(kinds, flagged, before, after, t, path, |path| - 1);
    }
  }
}
