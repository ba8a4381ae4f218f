// board_t: cells mutated in place in one vector, with the operations the handlers use.
module Boards {
  import opened Grids
  import opened Rules
  import opened BoardLayout
  import opened Flood

  /** How many of the n columns (or rows) lie within one of the `x`-th. */
  function Within(n: nat, x: int): int
  {
    (if x > 1 then 1 else 0) + 1 + (if x < n then 1 else 0)
  }

  function Hit(w: nat, h: nat, c: Coord): nat
  {
    if InBounds(w, h, c) then 1 else 0
  }

  function Hits(w: nat, h: nat, s: seq<Coord>): nat
  {
    if s == [] then 0 else Hits(w, h, s[..|s| - 1]) + Hit(w, h, s[|s| - 1])
  }

  lemma HitsSnoc(w: nat, h: nat, s: seq<Coord>, k: nat)
    requires k <= |s|
    ensures Hits(w, h, s[..k]) == if k == 0 then 0 else Hits(w, h, s[..k - 1]) + if InBounds(w, h, s[k - 1]) then 1 else 0
  {
    if k > 0 {
      assert s[..k][..k - 1] == s[..k - 1];
    }
  }

  lemma HitsOne(w: nat, h: nat, s: seq<Coord>)
    requires |s| == 1
    ensures Hits(w, h, s) == Hit(w, h, s[0])
  {
    assert s[..0] == [];
  }

  lemma HitsEight(w: nat, h: nat, s: seq<Coord>)
    requires |s| == 8
    ensures Hits(w, h, s) == Hit(w, h, s[0]) + Hit(w, h, s[1]) + Hit(w, h, s[2]) + Hit(w, h, s[3])
                             + Hit(w, h, s[4]) + Hit(w, h, s[5]) + Hit(w, h, s[6]) + Hit(w, h, s[7])
  {
    hide Hit;
    assert s[..8] == s && s[..8][..7] == s[..7] && s[..7][..6] == s[..6] && s[..6][..5] == s[..5];
    assert s[..5][..4] == s[..4] && s[..4][..3] == s[..3] && s[..3][..2] == s[..2] && s[..2][..1] == s[..1];
    HitsOne(w, h, s[..1]);
    assert Hits(w, h, s[..2]) == Hits(w, h, s[..1]) + Hit(w, h, s[1]);
    assert Hits(w, h, s[..4]) == Hits(w, h, s[..2]) + Hit(w, h, s[2]) + Hit(w, h, s[3]);
    assert Hits(w, h, s[..6]) == Hits(w, h, s[..4]) + Hit(w, h, s[4]) + Hit(w, h, s[5]);
  }

  lemma HitsAround(w: nat, h: nat, c: Coord)
    requires InBounds(w, h, c)
    ensures Hit(w, h, Coord(c.x - 1, c.y - 1)) + Hit(w, h, Coord(c.x, c.y - 1)) + Hit(w, h, Coord(c.x + 1, c.y - 1))
            + Hit(w, h, Coord(c.x - 1, c.y)) + Hit(w, h, Coord(c.x + 1, c.y))
            + Hit(w, h, Coord(c.x - 1, c.y + 1)) + Hit(w, h, Coord(c.x, c.y + 1)) + Hit(w, h, Coord(c.x + 1, c.y + 1))
            == Within(w, c.x) * Within(h, c.y) - 1
  {
    var n := Within(w, c.x);
    if c.y > 1 && c.y < h {
      assert n * Within(h, c.y) == n + n + n;
    } else if c.y > 1 || c.y < h {
      assert n * Within(h, c.y) == n + n;
    }
  }

  class Board {
    const w: nat
    const h: nat
    const data: array<Cell>

    ghost predicate Valid()
    {
      data.Length == w * h
    }

    /** What the board represents. */
    ghost function View(): (g: Grid)
      requires Valid()
      reads data
      ensures Shaped(g) && g.w == w && g.h == h
      ensures forall c :: c in g.cells <==> InBounds(w, h, c)
    {
      GridOf(w, h, data[..])
    }

    constructor (w: nat, h: nat)
      ensures this.w == w && this.h == h && fresh(data) && Valid()
      ensures forall c :: c in View().cells ==> View().cells[c] == Cell(false, false, false, -1)
    {
      this.w := w;
      this.h := h;
      var cells := new Cell[w * h](_ => Cell(false, false, false, -1));
      data := cells;
      new;
      GridOfUniform(w, h, data[..], Cell(false, false, false, -1));
    }

    /** clone(): a new board over its own copy of the cells. */
    method Clone() returns (b: Board)
      requires Valid()
      ensures fresh(b) && fresh(b.data) && b.Valid() && b.View() == View()
    {
      b := new Board(w, h);
      forall i | 0 <= i < data.Length {
        b.data[i] := data[i];
      }
      assert b.data[..] == data[..];
    }

    method Get(c: Coord) returns (cell: Cell)
      requires Valid() && InBounds(w, h, c)
      ensures c in View().cells && cell == View().cells[c]
    {
      IndexInRange(w, h, c);
      cell := data[Index(w, c)];
    }

    method Set(c: Coord, cell: Cell)
      requires Valid() && InBounds(w, h, c)
      modifies data
      ensures View() == old(View()).(cells := old(View()).cells[c := cell])
    {
      IndexInRange(w, h, c);
      GridOfUpdate(w, h, data[..], c, cell);
      ghost var before := data[..];
      data[Index(w, c)] := cell;
      assert data[..] == before[Index(w, c) := cell];
    }

    // ----- queries -----

    method CountCells(p: Cell -> bool) returns (n: nat)
      requires Valid()
      ensures n == |Where(View(), p)|
    {
      n := 0;
      for i := 0 to data.Length
        invariant n == CountIf(data[..i], p)
      {
        assert data[..i + 1][..i] == data[..i];
        n := n + if p(data[i]) then 1 else 0;
      }
      assert data[..data.Length] == data[..];
      CountIfGrid(w, h, data[..], p);
    }

    method BombsTotal() returns (n: nat)
      requires Valid()
      ensures n == |Mines(View())|
    {
      var p := (c: Cell) => c.boom;
      n := CountCells(p);
      assert Mines(View()) == Where(View(), p);
    }

    method FlagsCount() returns (n: nat)
      requires Valid()
      ensures n == |Flags(View())|
    {
      var p := (c: Cell) => c.flag;
      n := CountCells(p);
      assert Flags(View()) == Where(View(), p);
    }

    method UnrevealedCount() returns (n: nat)
      requires Valid()
      ensures n == |Unrevealed(View())|
    {
      var p := (c: Cell) => !c.revealed;
      n := CountCells(p);
      assert Unrevealed(View()) == Where(View(), p);
    }

    method BombsCount() returns (n: int)
      requires Valid()
      ensures n == Rules.BombsCount(View())
    {
      hide View;
      var total := BombsTotal();
      var flags := FlagsCount();
      n := total as int - flags;
    }

    /** none_of_cell. */
    method NoneOfCell(p: Cell -> bool) returns (r: bool)
      requires Valid()
      ensures r <==> forall c :: c in View().cells ==> !p(View().cells[c])
    {
      for i := 0 to data.Length
        invariant forall k :: 0 <= k < i ==> !p(data[k])
      {
        if p(data[i]) {
          CoordOfIndex(w, h, i);
          assert p(View().cells[CoordOf(w, i)]);
          return false;
        }
      }
      forall c | c in View().cells
        ensures !p(View().cells[c])
      {
        IndexInRange(w, h, c);
      }
      return true;
    }

    /** The neighbours that exist, in the source's order: row above, sides, row below. */
    method NeighborsOf(c: Coord) returns (r: seq<Coord>)
      requires Valid()
      ensures forall n :: n in r <==> n in Neighbors(View(), c)
      ensures forall i, j :: 0 <= i < j < |r| ==> r[i] != r[j]
      ensures InBounds(w, h, c) ==> |r| == Within(w, c.x) * Within(h, c.y) - 1
    {
      hide Hits, Hit, Within;
      var around := [
        Coord(c.x - 1, c.y - 1), Coord(c.x, c.y - 1), Coord(c.x + 1, c.y - 1),
        Coord(c.x - 1, c.y), Coord(c.x + 1, c.y),
        Coord(c.x - 1, c.y + 1), Coord(c.x, c.y + 1), Coord(c.x + 1, c.y + 1)];
      r := OnlyOnBoard(around);
      HitsEight(w, h, around);
      if InBounds(w, h, c) {
        HitsAround(w, h, c);
      }
    }

    /** The loop of neighbors(), over distinct candidates. */
    method OnlyOnBoard(around: seq<Coord>) returns (r: seq<Coord>)
      requires forall j, k :: 0 <= j < k < |around| ==> around[j] != around[k]
      ensures forall n :: n in r <==> n in around && InBounds(w, h, n)
      ensures forall i, j :: 0 <= i < j < |r| ==> r[i] != r[j]
      ensures |r| == Hits(w, h, around)
    {
      hide Hits, Hit, InBounds;
      r := [];
      HitsSnoc(w, h, around, 0);
      for i := 0 to |around|
        invariant forall n :: n in r <==> n in around[..i] && InBounds(w, h, n)
        invariant forall j, k :: 0 <= j < k < |r| ==> r[j] != r[k]
        invariant |r| == Hits(w, h, around[..i])
      {
        HitsSnoc(w, h, around, i + 1);
        assert around[..i + 1] == around[..i] + [around[i]];
        assert around[i] !in r;
        if InBounds(w, h, around[i]) {
          r := r + [around[i]];
        }
      }
      assert around[..|around|] == around;
    }

    /** count_if over the neighbours. */
    method CountNeighbors(c: Coord, p: Cell -> bool) returns (n: nat)
      requires Valid()
      ensures n == |Neighbors(View(), c) * Where(View(), p)|
    {
      hide View, Neighbors;
      var ns := NeighborsOf(c);
      ghost var found: set<Coord> := {};
      n := 0;
      for i := 0 to |ns|
        invariant n == |found|
        invariant forall m :: m in found <==> m in ns[..i] && m in Where(View(), p)
      {
        NeighborInBounds(View(), c, ns[i]);
        var cell := Get(ns[i]);
        assert ns[..i + 1] == ns[..i] + [ns[i]];
        if p(cell) {
          n := n + 1;
          found := found + {ns[i]};
        }
      }
      assert ns[..|ns|] == ns;
      assert found == Neighbors(View(), c) * Where(View(), p);
    }

    method NeighborFlagsCount(c: Coord) returns (n: nat)
      requires Valid()
      ensures n == |Neighbors(View(), c) * Flags(View())|
    {
      var p := (c: Cell) => c.flag;
      n := CountNeighbors(c, p);
      assert Flags(View()) == Where(View(), p);
    }

    method NeighborBoomCount(c: Coord) returns (n: nat)
      requires Valid()
      ensures n == |Neighbors(View(), c) * Mines(View())|
    {
      var p := (c: Cell) => c.boom;
      n := CountNeighbors(c, p);
      assert Mines(View()) == Where(View(), p);
    }

    // ----- revealing -----

    /** reveal(): sets the bit and returns the count to show. */
    method RevealOne(c: Coord) returns (count: int)
      requires Valid() && InBounds(w, h, c)
      modifies data
      ensures View() == old(View()).(cells := old(View()).cells[c := old(View()).cells[c].(revealed := true)])
      ensures count == old(View()).cells[c].Shown()
    {
      hide View;
      var cell := Get(c);
      Set(c, cell.(revealed := true));
      count := cell.Shown();
    }

    /** reveal_cells: opens exactly the least set that contains the seed and is closed under
        stepping out of zero-count cells, and lists each opened cell once with its count. */
    method RevealCells(coord: Coord) returns (revealed: seq<Report>)
      requires Valid() && InBounds(w, h, coord)
      modifies data
      ensures View() == Open(old(View()), Opened(old(View()), coord))
      ensures Reports(old(View()), Opened(old(View()), coord), revealed)
    {
      hide View, Open, Reach, Reports;
      ghost var g := View();
      ReportsNone(g);
      revealed := [];
      var cell := Get(coord);
      if cell.flag || cell.revealed {
        return;
      }
      OpenOne(g, {}, coord);
      var count := RevealOne(coord);
      ReportsSnoc(g, {}, revealed, coord);
      revealed := revealed + [Counted(coord, count)];
      assert {} + {coord} == {coord};
      if count == 0 {
        FloodStart(g, coord);
        revealed := RunQueue(coord, g, revealed);
      } else {
        FloodNothing(g, coord);
      }
    }

    /** The queue loop of reveal_cells. */
    method RunQueue(coord: Coord, ghost g: Grid, start: seq<Report>) returns (revealed: seq<Report>)
      requires Valid() && coord in g.cells && g.w == w && g.h == h && Shaped(g)
      requires Flooding(g, coord, {coord}, {coord}, [coord], {})
      requires View() == Open(g, {coord}) && Reports(g, {coord}, start)
      modifies data
      ensures View() == Open(g, Reach(g, coord)) && Reports(g, Reach(g, coord), revealed)
    {
      hide View, Open, Reach, Reports, Flooding;
      var visited, queue := {coord}, [coord];
      ghost var done := {coord};
      revealed := start;
      while queue != []
        invariant Flooding(g, coord, done, visited, queue, {})
        invariant View() == Open(g, done) && Reports(g, done, revealed)
        invariant visited <= g.cells.Keys
        decreases g.cells.Keys - visited, |queue|
      {
        FloodPop(g, coord, done, visited, queue);
        FlooderIsZero(g, coord, done, visited, queue);
        var q := queue[0];
        queue := queue[1..];
        visited, queue, revealed, done := StepOut(coord, q, g, done, visited, queue, revealed);
      }
      FloodEnd(g, coord, done, visited);
    }

    /** The inner loop of reveal_cells, over the neighbours of one zero-count cell. */
    method StepOut(coord: Coord, q: Coord, ghost g: Grid, ghost done: set<Coord>,
                   visited: set<Coord>, queue: seq<Coord>, revealed: seq<Report>)
      returns (visited': set<Coord>, queue': seq<Coord>, revealed': seq<Report>, ghost done': set<Coord>)
      requires Valid() && coord in g.cells && g.w == w && g.h == h && Shaped(g)
      requires q in done && q in g.cells && g.cells[q].Zero()
      requires Flooding(g, coord, done, visited, queue, {q})
      requires View() == Open(g, done) && Reports(g, done, revealed)
      requires visited <= g.cells.Keys
      modifies data
      ensures Flooding(g, coord, done', visited', queue', {})
      ensures View() == Open(g, done') && Reports(g, done', revealed')
      ensures visited <= visited' <= g.cells.Keys && (visited' == visited ==> queue' == queue)
    {
      hide View, Open, Reach, Reports, Flooding;
      visited', queue', revealed', done' := visited, queue, revealed, done;
      OpenCells(g, done);
      var ns := NeighborsOf(q);
      for i := 0 to |ns|
        invariant done <= done' && Flooding(g, coord, done', visited', queue', {q})
        invariant View() == Open(g, done') && Reports(g, done', revealed')
        invariant visited <= visited' <= g.cells.Keys && (visited' == visited ==> queue' == queue)
        invariant forall n :: n in ns[..i] ==> n in visited'
      {
        assert ns[..i + 1] == ns[..i] + [ns[i]] && ns[i] in ns;
        if ns[i] !in visited' {
          visited', queue', revealed', done' := Visit(coord, q, ns[i], g, done', visited', queue', revealed');
        }
      }
      assert ns[..|ns|] == ns;
      FloodFinish(g, coord, done', visited', queue', q);
    }

    /** The body of the inner loop, for a neighbour seen for the first time. */
    method Visit(coord: Coord, q: Coord, n: Coord, ghost g: Grid, ghost done: set<Coord>,
                 visited: set<Coord>, queue: seq<Coord>, revealed: seq<Report>)
      returns (visited': set<Coord>, queue': seq<Coord>, revealed': seq<Report>, ghost done': set<Coord>)
      requires Valid() && coord in g.cells && g.w == w && g.h == h && Shaped(g)
      requires q in done && q in g.cells && g.cells[q].Zero() && n in Neighbors(g, q) && n !in visited
      requires Flooding(g, coord, done, visited, queue, {q})
      requires View() == Open(g, done) && Reports(g, done, revealed)
      modifies data
      ensures visited' == visited + {n} && done <= done'
      ensures Flooding(g, coord, done', visited', queue', {q})
      ensures View() == Open(g, done') && Reports(g, done', revealed')
    {
      hide View, Open, Reach, Reports, Flooding;
      visited', queue', revealed', done' := visited + {n}, queue, revealed, done;
      DoneIsVisited(g, coord, done, visited, queue, q);
      NeighborInBounds(g, q, n);
      OpenCells(g, done);
      var cell := Get(n);
      if cell.flag || cell.revealed {
        FloodSkip(g, coord, done, visited, queue, q, n);
        return;
      }
      OpenOne(g, done, n);
      var count := RevealOne(n);
      ReportsSnoc(g, done, revealed, n);
      FloodReveal(g, coord, done, visited, queue, q, n);
      revealed' := revealed + [Counted(n, count)];
      done' := done + {n};
      if count == 0 {
        queue' := queue + [n];
      }
    }

    // ----- creating boards -----

    method SetBoom(c: Coord)
      requires Valid() && InBounds(w, h, c)
      modifies data
      ensures View() == WithMines(old(View()), {c})
    {
      var cell := Get(c);
      Set(c, cell.(boom := true));
      assert View().cells == WithMines(old(View()), {c}).cells;
    }

    /** data_[coord_to_index(c)].set_boom(): the cell that the index means, on the board or not. */
    method SetBoomAt(c: Coord)
      requires Valid() && Indexes(w, h, c)
      modifies data
      ensures View() == WithMines(old(View()), {Landing(w, h, c)})
    {
      var i: nat := Index(w, c);
      CoordOfIndex(w, h, i);
      ghost var before := data[..];
      GridOfUpdate(w, h, before, Landing(w, h, c), before[i].(boom := true));
      data[i] := data[i].(boom := true);
      assert data[..] == before[i := before[i].(boom := true)];
      assert View().cells == WithMines(old(View()), {Landing(w, h, c)}).cells;
    }

    /** The constructor's loop over an explicit mine layout. */
    method PlaceMines(mines: seq<Coord>)
      requires Valid() && forall c :: c in mines ==> Indexes(w, h, c)
      modifies data
      ensures View() == WithMines(old(View()), Landings(w, h, mines))
    {
      hide View, WithMines, Landing, Indexes;
      WithNoMines(View());
      assert Landings(w, h, mines[..0]) == {};
      for i := 0 to |mines|
        invariant View() == WithMines(old(View()), Landings(w, h, mines[..i]))
      {
        SetBoomAt(mines[i]);
        LandingsSnoc(w, h, mines, i);
        WithMinesTwice(old(View()), Landings(w, h, mines[..i]), {Landing(w, h, mines[i])});
      }
      assert mines[..|mines|] == mines;
    }

    /** The do-while loop that looks for a cell without a mine. */
    method FindFree(picks: seq<Coord>, start: nat) returns (free: bool, next: nat)
      requires Valid() && start <= |picks| && forall c :: c in picks ==> InBounds(w, h, c)
      ensures start <= next <= |picks|
      ensures free ==> next > 0 && picks[next - 1] in View().cells && picks[next - 1] !in Mines(View())
    {
      hide View;
      free, next := false, start;
      while !free && next < |picks|
        invariant start <= next <= |picks|
        invariant free ==> next > 0 && picks[next - 1] in View().cells && picks[next - 1] !in Mines(View())
        decreases |picks| - next, !free
      {
        var cell := Get(picks[next]);
        free := !cell.boom;
        next := next + 1;
      }
    }

    /** The constructor's random placement, over the column/row pairs that rand() would deliver.
        Running out of them stands for a loop that is still looking for a free cell. */
    method PlaceRandomMines(bombsCount: int, picks: seq<Coord>) returns (finished: bool, ghost mines: set<Coord>)
      requires Valid() && forall c :: c in picks ==> InBounds(w, h, c)
      requires Mines(View()) == {}
      modifies data
      ensures mines <= View().cells.Keys && View() == WithMines(old(View()), mines)
      ensures finished ==> |mines| == if bombsCount > 0 then bombsCount else 0
    {
      hide View, WithMines;
      mines, finished := {}, false;
      var next := 0;
      WithNoMines(View());
      WithMinesAre(View(), {});
      var i := 0;
      while i < bombsCount
        invariant 0 <= i && (bombsCount >= 0 ==> i <= bombsCount) && (bombsCount < 0 ==> i == 0)
        invariant next <= |picks| && |mines| == i && mines <= old(View()).cells.Keys
        invariant View() == WithMines(old(View()), mines)
      {
        WithMinesAre(old(View()), mines);
        var free;
        free, next := FindFree(picks, next);
        if !free {
          return;
        }
        SetBoom(picks[next - 1]);
        WithMinesTwice(old(View()), mines, {picks[next - 1]});
        mines := mines + {picks[next - 1]};
        i := i + 1;
      }
      WithMinesAre(old(View()), mines);
      finished := true;
    }

    method StoreCount(c: Coord, ghost g: Grid, ghost done: set<Coord>)
      requires Valid() && InBounds(w, h, c)
      requires View() == WithCounts(g, done) && c !in done
      modifies data
      ensures View() == WithCounts(g, done + {c})
    {
      hide View, WithCounts;
      WithCountsKeeps(g, done);
      var cnt := NeighborBoomCount(c);
      var cell := Get(c);
      Set(c, cell.(count := cnt));
      WithCountsStep(g, done, c);
    }

    /** compute_neighbor_counts: one pass over all coordinates. */
    method ComputeNeighborCounts()
      requires Valid()
      modifies data
      ensures View() == WithCounts(old(View()), old(View()).cells.Keys)
    {
      hide View, WithCounts;
      ghost var g := View();
      ghost var done: set<Coord> := {};
      WithNoCounts(g);
      for y := 1 to h + 1
        invariant View() == WithCounts(g, done)
        invariant forall c :: c in done <==> InBounds(w, h, c) && c.y < y
      {
        for x := 1 to w + 1
          invariant View() == WithCounts(g, done)
          invariant forall c :: c in done <==> InBounds(w, h, c) && (c.y < y || (c.y == y && c.x < x))
        {
          StoreCount(Coord(x, y), g, done);
          done := done + {Coord(x, y)};
        }
      }
      assert done == g.cells.Keys;
    }
  }

  lemma OpenCells(g: Grid, done: set<Coord>)
    ensures Open(g, done).cells.Keys == g.cells.Keys
    ensures forall c :: Neighbors(Open(g, done), c) == Neighbors(g, c)
    ensures forall c :: c in g.cells && c !in done ==> Open(g, done).cells[c] == g.cells[c]
  {
    forall c
      ensures Neighbors(Open(g, done), c) == Neighbors(g, c)
    {
    }
  }

  lemma DoneIsVisited(g: Grid, seed: Coord, done: set<Coord>, visited: set<Coord>, queue: seq<Coord>, q: Coord)
    requires Flooding(g, seed, done, visited, queue, {q})
    ensures done <= visited
  {
  }

  lemma FlooderIsZero(g: Grid, seed: Coord, done: set<Coord>, visited: set<Coord>, queue: seq<Coord>)
    requires Flooding(g, seed, done, visited, queue, {}) && queue != []
    ensures queue[0] in done && queue[0] in g.cells && g.cells[queue[0]].Zero()
  {
    assert queue[0] in queue;
  }

  function Elements(s: seq<Coord>): set<Coord>
  {
    set c | c in s
  }

  /** The coordinate's index is one of the vector's, which is all that the vector asks for. */
  predicate Indexes(w: nat, h: nat, c: Coord)
  {
    0 <= Index(w, c) < w * h
  }

  /** The place on the board that an index belongs to. */
  function Landing(w: nat, h: nat, c: Coord): (l: Coord)
    requires Indexes(w, h, c)
    ensures InBounds(w, h, l) && Index(w, l) == Index(w, c)
  {
    CoordOfIndex(w, h, Index(w, c));
    CoordOf(w, Index(w, c))
  }

  /** A coordinate off the board by some columns lands as many rows on: the columns of a row are
      followed by those of the next. */
  lemma LandsRowsOn(w: nat, h: nat, c: Coord, k: int)
    requires InBounds(w, h, c)
    ensures var d := Coord(c.x + k * w, c.y - k);
            Indexes(w, h, d) && Landing(w, h, d) == c
  {
    var d := Coord(c.x + k * w, c.y - k);
    assert (c.y - k - 1) * w == (c.y - 1) * w - k * w;
    IndexInRange(w, h, c);
    IndexInjective(w, h, c, Landing(w, h, d));
  }

  function Landings(w: nat, h: nat, mines: seq<Coord>): set<Coord>
    requires forall c :: c in mines ==> Indexes(w, h, c)
  {
    set c | c in mines :: Landing(w, h, c)
  }

  lemma LandingsSnoc(w: nat, h: nat, mines: seq<Coord>, i: nat)
    requires i < |mines| && forall c :: c in mines ==> Indexes(w, h, c)
    ensures Landings(w, h, mines[..i + 1]) == Landings(w, h, mines[..i]) + {Landing(w, h, mines[i])}
  {
    hide Indexes, Landing;
    assert mines[..i + 1] == mines[..i] + [mines[i]];
  }

  /** On the board a mine lands where it says. */
  lemma LandsInPlace(w: nat, h: nat, mines: seq<Coord>)
    requires forall c :: c in mines ==> InBounds(w, h, c)
    ensures forall c :: c in mines ==> Indexes(w, h, c)
    ensures Landings(w, h, mines) == Elements(mines)
  {
    forall c | InBounds(w, h, c)
      ensures Indexes(w, h, c) && Landing(w, h, c) == c
    {
      IndexInRange(w, h, c);
      IndexInjective(w, h, c, Landing(w, h, c));
    }
  }

  lemma NeighborInBounds(g: Grid, c: Coord, n: Coord)
    requires n in Neighbors(g, c)
    ensures n in g.cells
  {
  }

  /** A grid with mines added, and nothing else changed. */
  function WithMines(g: Grid, mines: set<Coord>): Grid
  {
    g.(cells := map c | c in g.cells :: if c in mines then g.cells[c].(boom := true) else g.cells[c])
  }

  lemma WithNoMines(g: Grid)
    ensures WithMines(g, {}) == g
  {
  }

  lemma WithMinesAre(g: Grid, mines: set<Coord>)
    requires mines <= g.cells.Keys && Mines(g) == {}
    ensures Mines(WithMines(g, mines)) == mines && WithMines(g, mines).cells.Keys == g.cells.Keys
  {
    assert forall c :: c in g.cells ==> !g.cells[c].boom by {
      forall c | c in g.cells
        ensures !g.cells[c].boom
      {
        assert c !in Mines(g);
      }
    }
  }

  lemma WithMinesTwice(g: Grid, s: set<Coord>, t: set<Coord>)
    ensures WithMines(WithMines(g, s), t) == WithMines(g, s + t)
  {
  }

  /** A grid with the true count stored in some cells. */
  function WithCounts(g: Grid, s: set<Coord>): Grid
  {
    g.(cells := map c | c in g.cells ::
        if c in s then g.cells[c].(count := |Neighbors(g, c) * Mines(g)|) else g.cells[c])
  }

  lemma WithNoCounts(g: Grid)
    ensures WithCounts(g, {}) == g
  {
  }

  lemma WithCountsKeeps(g: Grid, s: set<Coord>)
    ensures Mines(WithCounts(g, s)) == Mines(g) && WithCounts(g, s).cells.Keys == g.cells.Keys
    ensures forall c :: Neighbors(WithCounts(g, s), c) == Neighbors(g, c)
  {
    forall c
      ensures Neighbors(WithCounts(g, s), c) == Neighbors(g, c)
    {
    }
    assert Mines(WithCounts(g, s)) == Mines(g);
  }

  lemma WithCountsStep(g: Grid, s: set<Coord>, c: Coord)
    requires c in g.cells && c !in s
    ensures var g' := WithCounts(g, s);
            g'.(cells := g'.cells[c := g'.cells[c].(count := |Neighbors(g, c) * Mines(g)|)]) == WithCounts(g, s + {c})
  {
    var g' := WithCounts(g, s);
    assert g'.cells[c := g'.cells[c].(count := |Neighbors(g, c) * Mines(g)|)] == WithCounts(g, s + {c}).cells;
  }

  /** A board made empty, mined and counted is a board as created. */
  lemma CountedIsFresh(g: Grid, mines: set<Coord>)
    requires Shaped(g) && mines <= g.cells.Keys
    requires forall c :: c in g.cells ==> g.cells[c] == Cell(false, false, false, -1)
    ensures var g' := WithMines(g, mines); Fresh(WithCounts(g', g'.cells.Keys)) && Mines(WithCounts(g', g'.cells.Keys)) == mines
  {
    var g' := WithMines(g, mines);
    assert Mines(g) == {};
    WithMinesAre(g, mines);
    WithCountsKeeps(g', g'.cells.Keys);
  }

  /** plugin_api_t::create_fixed_board. */
  method CreateFixedBoard(width: nat, height: nat, mines: seq<Coord>) returns (b: Board)
    requires forall c :: c in mines ==> Indexes(width, height, c)
    ensures fresh(b) && fresh(b.data) && b.Valid() && b.w == width && b.h == height
    ensures Fresh(b.View()) && Mines(b.View()) == Landings(width, height, mines)
    ensures (forall c :: c in mines ==> InBounds(width, height, c)) ==> Mines(b.View()) == Elements(mines)
  {
    hide Board.View, WithCounts, WithMines, Fresh;
    b := new Board(width, height);
    ghost var g := b.View();
    b.PlaceMines(mines);
    assert Landings(width, height, mines) <= g.cells.Keys;
    CountedIsFresh(g, Landings(width, height, mines));
    b.ComputeNeighborCounts();
    if forall c :: c in mines ==> InBounds(width, height, c) {
      LandsInPlace(width, height, mines);
    }
  }

  /** plugin_api_t::create_board. */
  method CreateBoard(width: nat, height: nat, bombsCount: int, picks: seq<Coord>) returns (b: Board, finished: bool)
    requires forall c :: c in picks ==> InBounds(width, height, c)
    ensures fresh(b) && fresh(b.data) && b.Valid() && b.w == width && b.h == height
    ensures Fresh(b.View())
    ensures finished ==> |Mines(b.View())| == if bombsCount > 0 then bombsCount else 0
  {
    hide Board.View, WithCounts, WithMines, Fresh;
    b := new Board(width, height);
    ghost var g := b.View();
    assert Mines(g) == {};
    ghost var mines;
    finished, mines := b.PlaceRandomMines(bombsCount, picks);
    CountedIsFresh(g, mines);
    b.ComputeNeighborCounts();
  }
}
