// How the board's flat vector of cells represents a grid.
module BoardLayout {
  import opened Grids

  /** board_t::coord_to_index. */
  function Index(w: nat, c: Coord): int
  {
    (c.y - 1) * w + (c.x - 1)
  }

  lemma MulMonotonic(a: int, b: int, w: nat)
    requires a <= b
    ensures a * w <= b * w
  {
  }

  lemma IndexInRange(w: nat, h: nat, c: Coord)
    requires InBounds(w, h, c)
    ensures 0 <= Index(w, c) < w * h
  {
    MulMonotonic(0, c.y - 1, w);
    MulMonotonic(c.y, h, w);
    assert c.y * w == (c.y - 1) * w + w;
  }

  lemma RowBefore(w: nat, h: nat, c: Coord, d: Coord)
    requires InBounds(w, h, c) && InBounds(w, h, d) && c.y < d.y
    ensures Index(w, c) < Index(w, d)
  {
    MulMonotonic(c.y, d.y - 1, w);
    assert c.y * w == (c.y - 1) * w + w;
  }

  lemma IndexInjective(w: nat, h: nat, c: Coord, d: Coord)
    requires InBounds(w, h, c) && InBounds(w, h, d) && Index(w, c) == Index(w, d)
    ensures c == d
  {
    if c.y < d.y {
      RowBefore(w, h, c, d);
    } else if d.y < c.y {
      RowBefore(w, h, d, c);
    }
  }

  function CoordOf(w: nat, i: nat): Coord
    requires w > 0
  {
    Coord(i % w + 1, i / w + 1)
  }

  lemma CoordOfIndex(w: nat, h: nat, i: nat)
    requires i < w * h
    ensures w > 0 && InBounds(w, h, CoordOf(w, i)) && Index(w, CoordOf(w, i)) == i
  {
    NoEmptyRows(w, h, i);
    assert i == i / w * w + i % w;
    if i / w >= h {
      MulMonotonic(h, i / w, w);
    }
  }

  lemma NoEmptyRows(w: nat, h: nat, i: nat)
    requires i < w * h
    ensures w > 0
  {
  }

  function CellAt<T>(w: nat, h: nat, s: seq<T>, c: Coord): T
    requires |s| == w * h && InBounds(w, h, c)
  {
    IndexInRange(w, h, c);
    s[Index(w, c)]
  }

  function GridOf(w: nat, h: nat, s: seq<Cell>): (g: Grid)
    requires |s| == w * h
    ensures Shaped(g)
  {
    Grid(w, h, map c | c in Coords(w, h) :: CellAt(w, h, s, c))
  }

  lemma GridOfUniform(w: nat, h: nat, s: seq<Cell>, cell: Cell)
    requires |s| == w * h && forall i :: 0 <= i < |s| ==> s[i] == cell
    ensures forall c :: c in GridOf(w, h, s).cells ==> GridOf(w, h, s).cells[c] == cell
  {
    forall c | c in Coords(w, h)
      ensures CellAt(w, h, s, c) == cell
    {
      IndexInRange(w, h, c);
    }
  }

  /** Writing one element changes one cell. */
  lemma GridOfUpdate(w: nat, h: nat, s: seq<Cell>, c: Coord, cell: Cell)
    requires |s| == w * h && InBounds(w, h, c)
    ensures 0 <= Index(w, c) < |s|
    ensures GridOf(w, h, s[Index(w, c) := cell]) == GridOf(w, h, s).(cells := GridOf(w, h, s).cells[c := cell])
  {
    IndexInRange(w, h, c);
    var g, g' := GridOf(w, h, s), GridOf(w, h, s[Index(w, c) := cell]);
    forall d | d in g.cells && d != c
      ensures g'.cells[d] == g.cells[d]
    {
      IndexInRange(w, h, d);
      if Index(w, d) == Index(w, c) {
        IndexInjective(w, h, c, d);
      }
    }
    assert g'.cells == g.cells[c := cell];
  }

  // ----- counting over the vector is counting over the grid -----

  ghost function Where(g: Grid, p: Cell -> bool): set<Coord>
  {
    set c | c in g.cells && p(g.cells[c])
  }

  function CountIf(s: seq<Cell>, p: Cell -> bool): nat
  {
    if s == [] then 0 else CountIf(s[..|s| - 1], p) + if p(s[|s| - 1]) then 1 else 0
  }

  /** The coordinates stored below index `k` whose cell satisfies `p`. */
  ghost function Below(w: nat, h: nat, s: seq<Cell>, p: Cell -> bool, k: nat): set<Coord>
    requires |s| == w * h
  {
    set c | c in Coords(w, h) && Index(w, c) < k && p(CellAt(w, h, s, c))
  }

  lemma {:induction false} CountIfBelow(w: nat, h: nat, s: seq<Cell>, p: Cell -> bool, k: nat)
    requires |s| == w * h && k <= |s|
    ensures CountIf(s[..k], p) == |Below(w, h, s, p, k)|
  {
    if k == 0 {
      forall c | c in Coords(w, h)
        ensures Index(w, c) >= 0
      {
        IndexInRange(w, h, c);
      }
      assert Below(w, h, s, p, 0) == {};
    } else {
      CountIfBelow(w, h, s, p, k - 1);
      CoordOfIndex(w, h, k - 1);
      BelowStep(w, h, s, p, k - 1);
      assert s[..k][..k - 1] == s[..k - 1];
    }
  }

  lemma BelowStep(w: nat, h: nat, s: seq<Cell>, p: Cell -> bool, k: nat)
    requires |s| == w * h && k < |s| && w > 0
    ensures |Below(w, h, s, p, k + 1)| == |Below(w, h, s, p, k)| + if p(s[k]) then 1 else 0
  {
    CoordOfIndex(w, h, k);
    var last := CoordOf(w, k);
    forall c | c in Coords(w, h) && Index(w, c) == k
      ensures c == last
    {
      IndexInjective(w, h, c, last);
    }
    if p(s[k]) {
      assert Below(w, h, s, p, k + 1) == Below(w, h, s, p, k) + {last};
    } else {
      assert Below(w, h, s, p, k + 1) == Below(w, h, s, p, k);
    }
  }

  lemma CountIfGrid(w: nat, h: nat, s: seq<Cell>, p: Cell -> bool)
    requires |s| == w * h
    ensures CountIf(s, p) == |Where(GridOf(w, h, s), p)|
  {
    CountIfBelow(w, h, s, p, |s|);
    assert s[..|s|] == s;
    var g := GridOf(w, h, s);
    forall c | c in g.cells
      ensures Index(w, c) < |s|
    {
      IndexInRange(w, h, c);
    }
    assert Below(w, h, s, p, |s|) == Where(g, p);
  }
}
