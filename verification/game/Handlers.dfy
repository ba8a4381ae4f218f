// The board handlers: cell/reveal, cell/flag, cell/check and the board queries.
module Handlers {
  import opened Grids
  import opened Rules
  import opened Flood
  import opened Boards

  /** board_i::coord. */
  method CoordFor(b: Board, x: int, y: int) returns (c: Coord)
    requires b.Valid()
    ensures c == CoordAt(b.View(), x, y)
    ensures c != NOWHERE ==> InBounds(b.w, b.h, c) && c in b.View().cells
  {
    c := if InBounds(b.w, b.h, Coord(x, y)) then Coord(x, y) else NOWHERE;
  }

  /** The loop that turns revealed cells into the response looks for a negative count. */
  method AnyBomb(cells: seq<Report>) returns (boomed: bool)
    ensures boomed <==> exists i :: 0 <= i < |cells| && cells[i].Bomb()
  {
    boomed := false;
    for i := 0 to |cells|
      invariant boomed <==> exists k :: 0 <= k < i && cells[k].Bomb()
    {
      if cells[i].Bomb() {
        boomed := true;
      }
    }
  }

  lemma BombsAnswer(g: Grid, s: set<Coord>, already: bool, cells: seq<Report>, boomed: bool)
    requires Reports(g, s, cells)
    requires boomed <==> exists i :: 0 <= i < |cells| && cells[i].Bomb()
    ensures CellsAnswer(g, s, already, Cells(already, boomed, cells))
  {
    if c :| c in s && c in g.cells && g.cells[c].Shown() < 0 {
      assert ListedIn(cells, c);
      var i :| 0 <= i < |cells| && cells[i].at == c;
      assert ReportOf(g, cells[i]) && cells[i].Bomb();
    }
    if boomed {
      var i :| 0 <= i < |cells| && cells[i].Bomb();
      assert ReportOf(g, cells[i]) && cells[i].at in s;
    }
  }

  method CellReveal(b: Board, x: int, y: int) returns (r: CellsReply)
    requires b.Valid()
    modifies b.data
    ensures b.View() == Step(old(b.View()), Reveal(x, y))
    ensures RevealAnswers(old(b.View()), x, y, r)
  {
    hide Board.View, Open, Opened, Reports, CellsAnswer;
    ghost var g := b.View();
    ReportsNone(g);
    var c := CoordFor(b, x, y);
    if c == NOWHERE {
      return Refused(OutOfRange);
    }
    var cell := b.Get(c);
    if cell.flag {
      FlaggedOpensNothing(g, c);
      return Refused(CantRevealFlagged);
    }
    if cell.boom {
      return Cells(cell.revealed, true, [Bare(c)]);
    }
    var revealed := b.RevealCells(c);
    var boomed := AnyBomb(revealed);
    BombsAnswer(g, Opened(g, c), cell.revealed, revealed, boomed);
    return Cells(cell.revealed, boomed, revealed);
  }

  lemma FlaggedOpensNothing(g: Grid, c: Coord)
    requires c in g.cells && g.cells[c].flag
    ensures Opened(g, c) == {}
  {
  }

  method CellFlag(b: Board, x: int, y: int) returns (r: FlagReply)
    requires b.Valid()
    modifies b.data
    ensures b.View() == Step(old(b.View()), Flag(x, y))
    ensures r == FlagAnswer(old(b.View()), x, y)
  {
    hide Board.View, Open;
    var c := CoordFor(b, x, y);
    if c == NOWHERE {
      return FlagRefused(OutOfRange);
    }
    var cell := b.Get(c);
    if cell.revealed {
      return FlagRefused(CantFlagRevealed);
    }
    if !cell.flag {
      var left := b.BombsCount();
      if left == 0 {
        return FlagRefused(NoBombsLeft);
      }
    }
    b.Set(c, cell.(flag := !cell.flag));
    return Flagged(c, !cell.flag);
  }

  method BoardBombs(b: Board) returns (bombs: int, total: int)
    requires b.Valid()
    ensures bombs == BombsCount(b.View()) && total == |Mines(b.View())|
  {
    bombs := b.BombsCount();
    total := b.BombsTotal();
  }

  method BoardFullyRevealed(b: Board) returns (fully: bool)
    requires b.Valid()
    ensures fully == FullyRevealed(b.View())
  {
    var unrevealed := b.UnrevealedCount();
    var total := b.BombsTotal();
    var flags := b.FlagsCount();
    fully := unrevealed == total && flags == total;
  }

  method BoardChecked(b: Board) returns (v: Verdict)
    requires b.Valid()
    ensures v == BoardCheck(b.View())
  {
    hide Board.View;
    var unrevealed := b.UnrevealedCount();
    var total := b.BombsTotal();
    if unrevealed != total {
      return CheckRefused(CellsLeft);
    }
    var ok := b.NoneOfCell((c: Cell) => c.boom && (!c.flag || c.revealed));
    v := if ok then Win else Lose;
  }

  // ----- cell/check -----

  /** The chord: the sequential loop over the neighbours opens the union of what each neighbour
      would have opened in the state before the loop, and lists every cell once. */
  method RevealNeighbors(b: Board, c: Coord) returns (revealed: seq<Report>)
    requires b.Valid()
    modifies b.data
    ensures b.View() == Open(old(b.View()), ChordOpens(old(b.View()), c))
    ensures Reports(old(b.View()), ChordOpens(old(b.View()), c), revealed)
  {
    hide Board.View, Open, Opened, Reports, ChordOpens, Neighbors;
    ghost var g := b.View();
    ReportsNone(g);
    var ns := b.NeighborsOf(c);
    NeighborsInGrid(g, c, ns);
    revealed := [];
    for i := 0 to |ns|
      invariant b.View() == Open(g, OpenedUnion(g, ns[..i]))
      invariant Reports(g, OpenedUnion(g, ns[..i]), revealed)
    {
      ghost var u := OpenedUnion(g, ns[..i]);
      assert ns[i] in ns;
      OpenCells(g, u);
      OpenedUnionClosed(g, ns[..i]);
      OpenedAfter(g, u, ns[i]);
      UnionStep(g, ns, i);
      ghost var more := Opened(Open(g, u), ns[i]);
      OpenOpen(g, u, more);
      var cell := b.Get(ns[i]);
      var local := [];
      if !cell.revealed && !cell.flag {
        local := b.RevealCells(ns[i]);
      } else {
        NotHiddenOpensNothing(Open(g, u), ns[i]);
        ReportsNone(Open(g, u));
      }
      ReportsAppend(g, u, revealed, ns[i], local);
      revealed := revealed + local;
    }
    assert ns[..|ns|] == ns;
    UnionIsChord(g, c, ns);
  }

  lemma NeighborsInGrid(g: Grid, c: Coord, ns: seq<Coord>)
    requires forall n :: n in ns <==> n in Neighbors(g, c)
    ensures forall n :: n in ns ==> n in g.cells
  {
  }

  lemma NotHiddenOpensNothing(g: Grid, c: Coord)
    requires c in g.cells && !g.cells[c].Hidden()
    ensures Opened(g, c) == {} && Open(g, {}) == g
  {
  }

  lemma UnionStep(g: Grid, ns: seq<Coord>, i: nat)
    requires i < |ns| && forall n :: n in ns ==> n in g.cells
    ensures OpenedUnion(g, ns[..i + 1]) == OpenedUnion(g, ns[..i]) + Opened(g, ns[i])
  {
    assert ns[..i + 1][..i] == ns[..i];
  }

  lemma UnionIsChord(g: Grid, c: Coord, ns: seq<Coord>)
    requires forall n :: n in ns <==> n in Neighbors(g, c)
    ensures OpenedUnion(g, ns) == ChordOpens(g, c)
  {
    OpenedUnionClosed(g, ns);
    forall m | m in g.cells
      ensures m in OpenedUnion(g, ns) <==> m in ChordOpens(g, c)
    {
      OpenedUnionMembers(g, ns, m);
    }
  }

  /** The lists of consecutive flood fills do not overlap. */
  lemma ReportsAppend(g: Grid, u: set<Coord>, cells: seq<Report>, n: Coord, local: seq<Report>)
    requires Reports(g, u, cells) && u <= g.cells.Keys && n in Open(g, u).cells
    requires Reports(Open(g, u), Opened(Open(g, u), n), local)
    ensures Reports(g, u + Opened(Open(g, u), n), cells + local)
  {
    hide Reach;
    var g' := Open(g, u);
    var v := Opened(g', n);
    forall m | m in v
      ensures m !in u
    {
      if m != n {
        ReachIsHidden(g', n, m);
      }
    }
    ListsAppend(g, u, cells, g', v, local);
  }

  lemma ListsAppend(g: Grid, u: set<Coord>, cells: seq<Report>, g': Grid, v: set<Coord>, local: seq<Report>)
    requires Reports(g, u, cells) && Reports(g', v, local) && u !! v
    requires g' == Open(g, u)
    ensures Reports(g, u + v, cells + local)
  {
    var all := cells + local;
    forall i | 0 <= i < |all|
      ensures all[i].at in u + v && ReportOf(g, all[i])
    {
      if i >= |cells| {
        assert ReportOf(g', local[i - |cells|]);
      }
    }
    forall i, j | 0 <= i < j < |all|
      ensures all[i].at != all[j].at
    {
      if i < |cells| <= j {
        assert all[i].at in u && local[j - |cells|].at in v;
      }
    }
    forall c | c in u + v
      ensures ListedIn(all, c)
    {
      if c in u {
        assert ListedIn(cells, c);
        var i :| 0 <= i < |cells| && cells[i].at == c;
        assert all[i].at == c;
      } else {
        assert ListedIn(local, c);
        var i :| 0 <= i < |local| && local[i].at == c;
        assert all[|cells| + i].at == c;
      }
    }
  }

  method CellCheck(b: Board, x: int, y: int) returns (r: CellsReply)
    requires b.Valid()
    modifies b.data
    ensures b.View() == Step(old(b.View()), Check(x, y))
    ensures CheckAnswers(old(b.View()), x, y, r)
  {
    hide Board.View, Open, ChordOpens, Reports, CellsAnswer, Neighbors;
    ghost var g := b.View();
    ReportsNone(g);
    var c := CoordFor(b, x, y);
    if c == NOWHERE {
      return Refused(OutOfRange);
    }
    var cell := b.Get(c);
    if !cell.revealed {
      return Refused(NotRevealed);
    }
    if cell.boom {
      return Refused(CellIsBomb);
    }
    var flagsAround := b.NeighborFlagsCount(c);
    if flagsAround != cell.Shown() {
      return Refused(FlagsDiffer);
    }
    var revealed := RevealNeighbors(b, c);
    var boomed := AnyBomb(revealed);
    BombsAnswer(g, ChordOpens(g, c), false, revealed, boomed);
    return Cells(false, boomed, revealed);
  }
}
