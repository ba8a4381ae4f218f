// A minesweeper board as a value, and the reachability its flood fill is meant to compute.
module Grids {
  datatype Coord = Coord(x: int, y: int)

  datatype Cell = Cell(boom: bool, flag: bool, revealed: bool, count: int)
  {
    /** board_t::neighbor_bombs_count: the stored count, and -1 for a mine. */
    function Shown(): int
    {
      if boom then -1 else count
    }

    predicate Hidden()
    {
      !flag && !revealed
    }

    /** The cells a flood fill steps out of. */
    predicate Zero()
    {
      Shown() == 0
    }
  }

  datatype Grid = Grid(w: nat, h: nat, cells: map<Coord, Cell>)

  predicate InBounds(w: nat, h: nat, c: Coord)
  {
    1 <= c.x <= w && 1 <= c.y <= h
  }

  function Coords(w: nat, h: nat): set<Coord>
  {
    set x, y | 1 <= x <= w && 1 <= y <= h :: Coord(x, y)
  }

  ghost predicate Shaped(g: Grid)
  {
    g.cells.Keys == Coords(g.w, g.h)
  }

  predicate Adjacent(a: Coord, b: Coord)
  {
    a != b && -1 <= a.x - b.x <= 1 && -1 <= a.y - b.y <= 1
  }

  function Neighbors(g: Grid, c: Coord): set<Coord>
  {
    set n | n in g.cells && Adjacent(c, n)
  }

  function Mines(g: Grid): set<Coord>
  {
    set c | c in g.cells && g.cells[c].boom
  }

  function Flags(g: Grid): set<Coord>
  {
    set c | c in g.cells && g.cells[c].flag
  }

  function Revealed(g: Grid): set<Coord>
  {
    set c | c in g.cells && g.cells[c].revealed
  }

  function Unrevealed(g: Grid): set<Coord>
  {
    set c | c in g.cells && !g.cells[c].revealed
  }

  /** The stored counts are the true numbers of neighbouring mines. */
  ghost predicate WellCounted(g: Grid)
  {
    forall c :: c in g.cells ==> g.cells[c].count == |Neighbors(g, c) * Mines(g)|
  }

  // ----- what one flood fill opens -----

  /** Closed under stepping from a zero-count cell to its unflagged, unrevealed neighbours. */
  ghost predicate Closed(g: Grid, s: set<Coord>)
  {
    forall c, n :: c in s && c in g.cells && g.cells[c].Zero() && n in Neighbors(g, c) && g.cells[n].Hidden() ==> n in s
  }

  /** The least such set that contains the seed. */
  ghost function Reach(g: Grid, seed: Coord): set<Coord>
  {
    set c | c in g.cells && forall s: set<Coord> :: seed in s && Closed(g, s) ==> c in s
  }

  lemma ReachIsLeast(g: Grid, seed: Coord, s: set<Coord>)
    requires seed in s && Closed(g, s)
    ensures Reach(g, seed) <= s
  {
  }

  lemma ReachIsClosed(g: Grid, seed: Coord)
    requires seed in g.cells
    ensures seed in Reach(g, seed) && Closed(g, Reach(g, seed))
  {
    forall c, n | c in Reach(g, seed) && g.cells[c].Zero() && n in Neighbors(g, c) && g.cells[n].Hidden()
      ensures n in Reach(g, seed)
    {
      forall s: set<Coord> | seed in s && Closed(g, s)
        ensures n in s
      {
        assert c in s;
      }
    }
  }

  /** Everything reached, except perhaps the seed, was hidden. */
  lemma ReachIsHidden(g: Grid, seed: Coord, c: Coord)
    requires seed in g.cells && c in Reach(g, seed) && c != seed
    ensures g.cells[c].Hidden()
    ensures exists z :: z in Reach(g, seed) && g.cells[z].Zero() && c in Neighbors(g, z)
  {
    ReachIsClosed(g, seed);
    if !(g.cells[c].Hidden() && exists z :: z in Reach(g, seed) && g.cells[z].Zero() && c in Neighbors(g, z)) {
      var s := Reach(g, seed) - {c};
      assert Closed(g, s);
      ReachIsLeast(g, seed, s);
    }
  }

  /** What reveal_cells opens: nothing unless the seed is hidden. */
  ghost function Opened(g: Grid, seed: Coord): set<Coord>
    requires seed in g.cells
  {
    if g.cells[seed].Hidden() then Reach(g, seed) else {}
  }

  /** The grid with some cells revealed and nothing else changed. */
  function Open(g: Grid, s: set<Coord>): Grid
  {
    g.(cells := map c | c in g.cells :: if c in s then g.cells[c].(revealed := true) else g.cells[c])
  }

  lemma OpenOpen(g: Grid, s: set<Coord>, t: set<Coord>)
    ensures Open(Open(g, s), t) == Open(g, s + t)
  {
  }

  /** With true counts a flood fill never opens a mine, except as its seed. */
  lemma FloodAvoidsMines(g: Grid, seed: Coord, c: Coord)
    requires WellCounted(g) && seed in g.cells && c in Reach(g, seed) && c != seed
    ensures !g.cells[c].boom
  {
    ReachIsHidden(g, seed, c);
    var z :| z in Reach(g, seed) && g.cells[z].Zero() && c in Neighbors(g, z);
    if g.cells[c].boom {
      MineIsCounted(g, z, c);
    }
  }

  /** Exactly when reveal_cells opens a mine: its seed is one, neither flagged nor revealed. */
  lemma FloodOpensMine(g: Grid, seed: Coord)
    requires WellCounted(g) && seed in g.cells
    ensures (exists m :: m in Opened(g, seed) && m in Mines(g)) <==> g.cells[seed].boom && g.cells[seed].Hidden()
  {
    hide WellCounted, Reach;
    if m :| m in Opened(g, seed) && m in Mines(g) {
      if m != seed {
        FloodAvoidsMines(g, seed, m);
      }
    }
    if g.cells[seed].boom && g.cells[seed].Hidden() {
      ReachIsClosed(g, seed);
      assert seed in Opened(g, seed) && seed in Mines(g);
    }
  }

  lemma MineIsCounted(g: Grid, c: Coord, m: Coord)
    requires m in Neighbors(g, c) && g.cells[m].boom
    ensures |Neighbors(g, c) * Mines(g)| > 0
  {
    assert m in Neighbors(g, c) * Mines(g);
  }

  // ----- reach sets do not interfere -----

  lemma ClosedUnion(g: Grid, s: set<Coord>, t: set<Coord>)
    requires Closed(g, s) && Closed(g, t)
    ensures Closed(g, s + t)
  {
  }

  lemma OpenedIsClosed(g: Grid, seed: Coord)
    requires seed in g.cells
    ensures Closed(g, Opened(g, seed)) && Opened(g, seed) <= g.cells.Keys
  {
    ReachIsClosed(g, seed);
  }

  /** After a closed set has been opened, a flood fill opens exactly the part of its original
      reach that is left. */
  lemma OpenedAfter(g: Grid, u: set<Coord>, seed: Coord)
    requires seed in g.cells && Closed(g, u) && u <= g.cells.Keys
    ensures seed in Open(g, u).cells
    ensures u + Opened(Open(g, u), seed) == u + Opened(g, seed)
  {
    var g' := Open(g, u);
    ReachIsClosed(g, seed);
    if seed in u {
      ReachIsLeast(g, seed, u);
    } else if g.cells[seed].Hidden() {
      ReachIsClosed(g', seed);
      var s := Reach(g, seed) - u;
      assert Closed(g', s);
      ReachIsLeast(g', seed, s);
      var t := Reach(g', seed) + u;
      forall c, n | c in t && c in g.cells && g.cells[c].Zero() && n in Neighbors(g, c) && g.cells[n].Hidden()
        ensures n in t
      {
        if c !in u && n !in u {
          assert n in Neighbors(g', c) && g'.cells[n].Hidden() && g'.cells[c].Zero();
        }
      }
      ReachIsLeast(g, seed, t);
    }
  }

  /** The union of what flood fills from several seeds would open in the same state. */
  ghost function OpenedUnion(g: Grid, seeds: seq<Coord>): set<Coord>
    requires forall c :: c in seeds ==> c in g.cells
  {
    if seeds == [] then {} else OpenedUnion(g, seeds[..|seeds| - 1]) + Opened(g, seeds[|seeds| - 1])
  }

  lemma {:induction false} OpenedUnionClosed(g: Grid, seeds: seq<Coord>)
    requires forall c :: c in seeds ==> c in g.cells
    ensures Closed(g, OpenedUnion(g, seeds)) && OpenedUnion(g, seeds) <= g.cells.Keys
  {
    if seeds != [] {
      var n := |seeds| - 1;
      OpenedUnionClosed(g, seeds[..n]);
      OpenedIsClosed(g, seeds[n]);
      ClosedUnion(g, OpenedUnion(g, seeds[..n]), Opened(g, seeds[n]));
    }
  }

  /** As a set, the union is what the seeds open one by one, in any order. */
  lemma {:induction false} OpenedUnionMembers(g: Grid, seeds: seq<Coord>, c: Coord)
    requires forall s :: s in seeds ==> s in g.cells
    ensures c in OpenedUnion(g, seeds) <==> exists s :: s in seeds && c in Opened(g, s)
  {
    if seeds != [] {
      var n := |seeds| - 1;
      OpenedUnionMembers(g, seeds[..n], c);
      assert seeds == seeds[..n] + [seeds[n]];
    }
  }
}
