// What holds of every state the game can reach, and of every run.
module Runs {
  import opened Grids
  import opened Rules

  /** The invariant of every run. */
  ghost predicate Inv(g: Grid)
  {
    && Shaped(g)
    && WellCounted(g)
    && Flags(g) !! Revealed(g)
    && |Flags(g)| <= |Mines(g)|
  }

  lemma SubsetSize<T>(a: set<T>, b: set<T>)
    requires a <= b
    ensures |a| <= |b| && (|a| == |b| ==> a == b)
  {
    assert |b| == |a| + |b - a| by {
      assert b == a + (b - a);
    }
    if |a| == |b| {
      assert b - a == {};
    }
  }

  lemma TakeTake<T>(s: seq<T>, k: nat, j: nat)
    requires j <= k <= |s|
    ensures s[..k][..j] == s[..j]
  {
  }

  lemma FreshInv(g: Grid)
    requires Fresh(g)
    ensures Inv(g)
  {
    assert Flags(g) == {};
  }

  /** Two grids that differ in flags and revealed bits only. */
  ghost predicate SameLayout(g: Grid, g': Grid)
  {
    && g'.w == g.w && g'.h == g.h && g'.cells.Keys == g.cells.Keys
    && forall c :: c in g.cells ==> g'.cells[c].boom == g.cells[c].boom && g'.cells[c].count == g.cells[c].count
  }

  lemma LayoutKeeps(g: Grid, g': Grid)
    requires SameLayout(g, g')
    ensures Mines(g') == Mines(g)
    ensures forall c :: Neighbors(g', c) == Neighbors(g, c)
    ensures WellCounted(g) ==> WellCounted(g')
  {
    forall c
      ensures Neighbors(g', c) == Neighbors(g, c)
    {
    }
    assert Mines(g') == Mines(g);
  }

  /** Opening cells changes revealed bits and nothing else. */
  lemma OpenKeeps(g: Grid, s: set<Coord>)
    requires s <= g.cells.Keys
    ensures var g' := Open(g, s);
            && SameLayout(g, g') && Flags(g') == Flags(g)
            && Revealed(g') == Revealed(g) + s && Unrevealed(g') == Unrevealed(g) - s
  {
  }

  /** What a reveal or a check opens: a closed set of cells that were hidden. */
  ghost function Opens(g: Grid, cmd: Command): set<Coord>
    requires Shaped(g)
  {
    match cmd
    case Reveal(x, y) => RevealOpens(g, x, y)
    case Flag(_, _) => {}
    case Check(x, y) => CheckOpens(g, x, y)
  }

  lemma OpensClosed(g: Grid, cmd: Command)
    requires Shaped(g)
    ensures Closed(g, Opens(g, cmd)) && Opens(g, cmd) <= g.cells.Keys
    ensures forall c :: c in Opens(g, cmd) ==> g.cells[c].Hidden()
  {
    match cmd
    case Reveal(x, y) =>
      var c := CoordAt(g, x, y);
      if c != NOWHERE {
        OpenedIsClosed(g, c);
        forall m | m in Opened(g, c)
          ensures g.cells[m].Hidden()
        {
          OpenedHidden(g, c, m);
        }
      }
    case Flag(_, _) =>
    case Check(x, y) =>
      var c := CoordAt(g, x, y);
      ChordClosed(g, c);
      forall m | m in ChordOpens(g, c)
        ensures g.cells[m].Hidden()
      {
        var n :| n in Neighbors(g, c) && m in Opened(g, n);
        OpenedHidden(g, n, m);
      }
  }

  lemma OpenedHidden(g: Grid, seed: Coord, m: Coord)
    requires seed in g.cells && m in Opened(g, seed)
    ensures g.cells[m].Hidden()
  {
    if m != seed {
      ReachIsHidden(g, seed, m);
    }
  }

  /** A flag command changes the flags by one cell, or not at all. */
  lemma FlagStepKeeps(g: Grid, x: int, y: int)
    requires Shaped(g)
    ensures var c, g' := CoordAt(g, x, y), FlagStep(g, x, y);
            && SameLayout(g, g') && Revealed(g') == Revealed(g)
            && Flags(g') == if FlagRefusal(g, c) != [] then Flags(g)
                            else if c in Flags(g) then Flags(g) - {c}
                            else Flags(g) + {c}
  {
    hide WellCounted;
    var g' := FlagStep(g, x, y);
    if g' != g {
      assert g'.cells.Keys == g.cells.Keys;
    }
  }

  lemma StepLayout(g: Grid, cmd: Command)
    requires Shaped(g)
    ensures SameLayout(g, Step(g, cmd))
  {
    hide Open, Opens, FlagStep, SameLayout;
    if cmd.Flag? {
      FlagStepKeeps(g, cmd.x, cmd.y);
    } else {
      OpensClosed(g, cmd);
      StepOpens(g, cmd);
      OpenKeeps(g, Opens(g, cmd));
    }
  }

  lemma StepOpens(g: Grid, cmd: Command)
    requires Shaped(g) && !cmd.Flag?
    ensures Step(g, cmd) == Open(g, Opens(g, cmd))
  {
  }

  lemma LayoutInv(g: Grid, g': Grid)
    requires Inv(g) && SameLayout(g, g')
    requires Flags(g') !! Revealed(g') && |Flags(g')| <= |Mines(g)|
    ensures Inv(g') && Mines(g') == Mines(g)
  {
    LayoutKeeps(g, g');
  }

  lemma FlagInv(g: Grid, x: int, y: int)
    requires Inv(g)
    ensures Flags(FlagStep(g, x, y)) !! Revealed(g) && |Flags(FlagStep(g, x, y))| <= |Mines(g)|
  {
    hide WellCounted, FlagStep;
    FlagStepKeeps(g, x, y);
    var c := CoordAt(g, x, y);
    if FlagRefusal(g, c) == [] && c in Flags(g) {
      SubsetSize(Flags(g) - {c}, Flags(g));
    }
  }

  lemma OpenInv(g: Grid, s: set<Coord>)
    requires Inv(g) && s <= g.cells.Keys && forall c :: c in s ==> g.cells[c].Hidden()
    ensures Inv(Open(g, s)) && Mines(Open(g, s)) == Mines(g) && Revealed(Open(g, s)) == Revealed(g) + s
  {
    hide WellCounted, Open, SameLayout;
    OpenKeeps(g, s);
    assert Flags(g) !! s;
    LayoutInv(g, Open(g, s));
  }

  /** Every step keeps the invariant, the mines and the revealed cells. */
  lemma StepKeeps(g: Grid, cmd: Command)
    requires Inv(g)
    ensures var g' := Step(g, cmd);
            Inv(g') && Mines(g') == Mines(g) && Revealed(g') == Revealed(g) + Opens(g, cmd)
  {
    hide WellCounted, Open, SameLayout, FlagStep, Revealed, Mines, Flags, Neighbors;
    if cmd.Flag? {
      FlagStepKeeps(g, cmd.x, cmd.y);
      FlagInv(g, cmd.x, cmd.y);
      LayoutInv(g, FlagStep(g, cmd.x, cmd.y));
    } else {
      OpensClosed(g, cmd);
      StepOpens(g, cmd);
      OpenInv(g, Opens(g, cmd));
    }
  }

  /** Run invariants: true counts, no cell both flagged and revealed, the bomb counter between 0
      and the total, and mines that never move. */
  lemma {:induction false} RunInvariant(g: Grid, cmds: seq<Command>)
    requires Fresh(g)
    ensures Inv(Run(g, cmds)) && Mines(Run(g, cmds)) == Mines(g)
    ensures 0 <= BombsCount(Run(g, cmds)) <= |Mines(g)|
  {
    if cmds == [] {
      FreshInv(g);
    } else {
      var n := |cmds| - 1;
      RunInvariant(g, cmds[..n]);
      StepKeeps(Run(g, cmds[..n]), cmds[n]);
    }
  }

  /** Revealed bits only grow along a run. */
  lemma {:induction false} RevealedGrow(g: Grid, cmds: seq<Command>, j: nat)
    requires Fresh(g) && j <= |cmds|
    ensures Revealed(Run(g, cmds[..j])) <= Revealed(Run(g, cmds))
  {
    if j == |cmds| {
      assert cmds[..j] == cmds;
    } else {
      var n := |cmds| - 1;
      RunInvariant(g, cmds[..n]);
      StepKeeps(Run(g, cmds[..n]), cmds[n]);
      RevealedGrow(g, cmds[..n], j);
      TakeTake(cmds, n, j);
    }
  }

  /** A mine's revealed bit is set only by a cell/check whose opened cells include a mine: the
      answer "boom". */
  lemma MineRevealedByBoom(g: Grid, cmd: Command, m: Coord)
    requires Inv(g) && m in Mines(g) && m !in Revealed(g) && m in Revealed(Step(g, cmd))
    ensures cmd.Check?
    ensures forall r :: CheckAnswers(g, cmd.x, cmd.y, r) ==> r.Cells? && r.boom
  {
    hide Step, ChordOpens, Opened, Neighbors, WellCounted;
    StepKeeps(g, cmd);
    if cmd.Reveal? {
      RevealOpensNoMine(g, cmd.x, cmd.y, m);
    }
    assert g.cells[m].Shown() < 0;
  }

  lemma RevealOpensNoMine(g: Grid, x: int, y: int, m: Coord)
    requires Inv(g) && m in RevealOpens(g, x, y)
    ensures m !in Mines(g)
  {
    hide WellCounted, Reach;
    var c := CoordAt(g, x, y);
    if m != c {
      FloodAvoidsMines(g, c, m);
    }
  }

  /** A command sets the revealed bit of a mine exactly when it is a check that answers "boom". */
  lemma MineRevealedExactly(g: Grid, cmd: Command, r: CellsReply)
    requires Inv(g) && (cmd.Check? ==> CheckAnswers(g, cmd.x, cmd.y, r))
    ensures (exists m :: NewlyRevealed(g, cmd, m)) <==> cmd.Check? && r.Cells? && r.boom
  {
    hide Step, ChordOpens, Opened, Neighbors, WellCounted, Mines, CellsAnswer, CheckAnswers, HiddenMine;
    StepKeeps(g, cmd);
    if m :| NewlyRevealed(g, cmd, m) {
      MineRevealedByBoom(g, cmd, m);
    }
    if cmd.Check? && r.Cells? && r.boom {
      BoomRevealsMine(g, cmd.x, cmd.y, r);
    }
  }

  ghost predicate NewlyRevealed(g: Grid, cmd: Command, m: Coord)
    requires Shaped(g)
  {
    m in Mines(g) && m !in Revealed(g) && m in Revealed(Step(g, cmd))
  }

  lemma BoomRevealsMine(g: Grid, x: int, y: int, r: CellsReply)
    requires Inv(g) && CheckAnswers(g, x, y, r) && r.Cells? && r.boom
    ensures exists m :: NewlyRevealed(g, Check(x, y), m)
  {
    hide Step, ChordOpens, Opened, Neighbors, WellCounted, CellsAnswer;
    var c := CoordAt(g, x, y);
    BoomMeansMine(g, c, r);
    var m :| m in ChordOpens(g, c) && m in Mines(g);
    OpensClosed(g, Check(x, y));
    StepKeeps(g, Check(x, y));
    assert NewlyRevealed(g, Check(x, y), m);
  }

  // ----- reveals commute -----

  lemma RevealAfter(g: Grid, u: set<Coord>, x: int, y: int)
    requires Shaped(g) && Closed(g, u) && u <= g.cells.Keys
    ensures Step(Open(g, u), Reveal(x, y)) == Open(g, u + RevealOpens(g, x, y))
  {
    var g' := Open(g, u);
    var c := CoordAt(g, x, y);
    assert CoordAt(g', x, y) == c;
    OpenOpen(g, u, RevealOpens(g', x, y));
    if c != NOWHERE && !g.cells[c].boom {
      OpenedAfter(g, u, c);
    }
  }

  /** Any two reveals leave the same board in either order, from any state at all. */
  lemma RevealsCommute(g: Grid, x: int, y: int, x': int, y': int)
    requires Shaped(g)
    ensures Step(Step(g, Reveal(x, y)), Reveal(x', y')) == Step(Step(g, Reveal(x', y')), Reveal(x, y))
  {
    var u, u' := RevealOpens(g, x, y), RevealOpens(g, x', y');
    OpensClosed(g, Reveal(x, y));
    OpensClosed(g, Reveal(x', y'));
    RevealAfter(g, u, x', y');
    RevealAfter(g, u', x, y);
    assert u + u' == u' + u;
  }

  /** Any number of reveals open the union of what each would open first. */
  ghost function RevealUnion(g: Grid, cmds: seq<Command>): set<Coord>
    requires Shaped(g)
  {
    if cmds == [] then {} else RevealUnion(g, cmds[..|cmds| - 1]) + Opens(g, cmds[|cmds| - 1])
  }

  lemma {:induction false} RevealsOpenUnion(g: Grid, cmds: seq<Command>)
    requires Shaped(g) && forall i :: 0 <= i < |cmds| ==> cmds[i].Reveal?
    ensures Run(g, cmds) == Open(g, RevealUnion(g, cmds))
    ensures Closed(g, RevealUnion(g, cmds)) && RevealUnion(g, cmds) <= g.cells.Keys
  {
    if cmds == [] {
      assert Open(g, {}) == g;
    } else {
      hide Open, RevealOpens, Closed, Run, Step;
      RunLast(g, cmds);
      var n := |cmds| - 1;
      RevealsOpenUnion(g, cmds[..n]);
      OpensClosed(g, cmds[n]);
      RevealAfter(g, RevealUnion(g, cmds[..n]), cmds[n].x, cmds[n].y);
      assert cmds[n] == Reveal(cmds[n].x, cmds[n].y) && Opens(g, cmds[n]) == RevealOpens(g, cmds[n].x, cmds[n].y);
      ClosedUnion(g, RevealUnion(g, cmds[..n]), Opens(g, cmds[n]));
    }
  }

  // ----- winning -----

  /** In every reachable state the check answers "win" exactly when the board is fully revealed
      and no mine is; and then the unrevealed cells, the flags and the mines coincide. */
  lemma WinExactly(g: Grid)
    requires Inv(g)
    ensures BoardCheck(g) == Win <==> FullyRevealed(g) && Mines(g) !! Revealed(g)
    ensures BoardCheck(g) == Win ==> Unrevealed(g) == Flags(g) == Mines(g)
  {
    assert Unrevealed(g) !! Revealed(g) && Unrevealed(g) + Revealed(g) == g.cells.Keys;
    if BoardCheck(g) == Win {
      forall c | c in Mines(g)
        ensures c in Flags(g) && c in Unrevealed(g)
      {
        assert !Bad(g.cells[c]);
      }
      SubsetSize(Mines(g), Flags(g));
      SubsetSize(Mines(g), Unrevealed(g));
    }
    if FullyRevealed(g) && Mines(g) !! Revealed(g) {
      assert Mines(g) <= Unrevealed(g) && Flags(g) <= Unrevealed(g);
      SubsetSize(Mines(g), Unrevealed(g));
      SubsetSize(Flags(g), Unrevealed(g));
      forall c | c in g.cells
        ensures !Bad(g.cells[c])
      {
        if g.cells[c].boom {
          assert c in Mines(g);
        }
      }
    }
  }

  // ----- chording -----

  ghost predicate HiddenMine(g: Grid, m: Coord)
  {
    m in g.cells && g.cells[m].boom && g.cells[m].Hidden()
  }

  /** With true counts, what a check opens contains a mine exactly when a neighbouring mine was
      unflagged and unrevealed. */
  lemma ChordMines(g: Grid, c: Coord)
    requires Inv(g)
    ensures (exists m :: m in ChordOpens(g, c) && m in Mines(g))
       <==> (exists m :: m in Neighbors(g, c) && HiddenMine(g, m))
  {
    hide Inv, HiddenMine, ChordOpens, Neighbors, Mines;
    if m :| m in ChordOpens(g, c) && m in Mines(g) {
      ChordMineIsSeed(g, c, m);
    }
    if m :| m in Neighbors(g, c) && HiddenMine(g, m) {
      SeedIsOpened(g, c, m);
    }
  }

  lemma ChordMineIsSeed(g: Grid, c: Coord, m: Coord)
    requires Inv(g) && m in ChordOpens(g, c) && m in Mines(g)
    ensures m in Neighbors(g, c) && HiddenMine(g, m)
  {
    hide WellCounted, Reach;
    var n :| n in Neighbors(g, c) && m in Opened(g, n);
    OpenedHidden(g, n, m);
    if m != n {
      FloodAvoidsMines(g, n, m);
    }
  }

  lemma SeedIsOpened(g: Grid, c: Coord, m: Coord)
    requires m in Neighbors(g, c) && HiddenMine(g, m)
    ensures m in ChordOpens(g, c) && m in Mines(g)
  {
    ReachIsClosed(g, m);
    assert m in Opened(g, m);
  }

  /** Chord safety: in a reachable state with no revealed mine next to the cell, an accepted check
      answers "boom" exactly when some neighbouring flag is wrong. */
  lemma ChordSafety(g: Grid, x: int, y: int, r: CellsReply)
    requires Inv(g) && CheckAnswers(g, x, y, r) && r.Cells?
    requires Neighbors(g, CoordAt(g, x, y)) * Mines(g) !! Revealed(g)
    ensures r.boom <==> exists f :: f in Neighbors(g, CoordAt(g, x, y)) && f in Flags(g) && f !in Mines(g)
  {
    hide ChordOpens, HiddenMine, WellCounted, Reports, CellsAnswer;
    var c := CoordAt(g, x, y);
    ChordCounts(g, c);
    ChordMines(g, c);
    BoomMeansMine(g, c, r);
    Pigeonhole(g, Neighbors(g, c));
  }

  /** As many flags as mines among some cells: a flag is wrong exactly when a mine is missed. */
  lemma Pigeonhole(g: Grid, near: set<Coord>)
    requires near <= g.cells.Keys && |near * Flags(g)| == |near * Mines(g)| && near * Mines(g) !! Revealed(g)
    ensures (exists m :: m in near && HiddenMine(g, m)) <==> (exists f :: f in near && f in Flags(g) && f !in Mines(g))
  {
    var flags, mines := near * Flags(g), near * Mines(g);
    if m :| m in near && HiddenMine(g, m) {
      assert m in mines && m !in flags;
      if flags <= mines {
        SubsetSize(flags, mines);
      }
      var f :| f in flags && f !in mines;
    }
    if f :| f in near && f in Flags(g) && f !in Mines(g) {
      assert f in flags && f !in mines;
      if mines <= flags {
        SubsetSize(mines, flags);
      }
      var m :| m in mines && m !in flags;
      assert HiddenMine(g, m);
    }
  }

  lemma ChordCounts(g: Grid, c: Coord)
    requires Inv(g) && c in g.cells && !g.cells[c].boom
    ensures g.cells[c].Shown() == |Neighbors(g, c) * Mines(g)|
  {
  }

  lemma BoomMeansMine(g: Grid, c: Coord, r: CellsReply)
    requires Inv(g) && CellsAnswer(g, ChordOpens(g, c), false, r)
    ensures r.boom <==> exists m :: m in ChordOpens(g, c) && m in Mines(g)
  {
    hide Reports, ChordOpens;
    forall m | m in g.cells
      ensures g.cells[m].Shown() < 0 <==> m in Mines(g)
    {
      assert g.cells[m].count >= 0;
    }
  }

  // ----- flood closure over history -----

  /** In every run, an unrevealed neighbour of a revealed zero-count cell was flagged at some
      moment of that run. */
  lemma UnrevealedWasFlagged(g: Grid, cmds: seq<Command>, c: Coord, n: Coord)
    requires Fresh(g) && ZeroBeside(Run(g, cmds), c, n)
    ensures exists j :: 0 <= j <= |cmds| && n in Flags(Run(g, cmds[..j]))
  {
    hide ZeroBeside, Run, Flags;
    var j := FlaggedAt(g, cmds, c, n);
  }

  lemma {:induction false} FlaggedAt(g: Grid, cmds: seq<Command>, c: Coord, n: Coord) returns (j: nat)
    requires Fresh(g) && ZeroBeside(Run(g, cmds), c, n)
    ensures j <= |cmds| && n in Flags(Run(g, cmds[..j]))
  {
    hide ZeroBeside, Step, Flags, Run, Inv;
    RunLast(g, cmds);
    if cmds == [] {
      FreshHasNone(g, c, n);
    } else {
      j := |cmds| - 1;
      RunInvariant(g, cmds[..j]);
      StepHistory(Run(g, cmds[..j]), cmds[j], c, n);
      if n !in Flags(Run(g, cmds[..j])) {
        var k := j;
        j := FlaggedAt(g, cmds[..k], c, n);
        TakeTake(cmds, k, j);
      }
    }
  }

  /** A revealed zero-count cell with an unrevealed neighbour. */
  ghost predicate ZeroBeside(g: Grid, c: Coord, n: Coord)
  {
    c in Revealed(g) && g.cells[c].Zero() && n in Neighbors(g, c) && n !in Revealed(g)
  }

  lemma FreshHasNone(g: Grid, c: Coord, n: Coord)
    requires Fresh(g)
    ensures !ZeroBeside(g, c, n)
  {
  }

  lemma StepHistory(g: Grid, cmd: Command, c: Coord, n: Coord)
    requires Inv(g) && ZeroBeside(Step(g, cmd), c, n)
    ensures ZeroBeside(g, c, n) || n in Flags(g)
  {
    hide Step, WellCounted, Opens, Open;
    StepKeeps(g, cmd);
    StepLayout(g, cmd);
    LayoutKeeps(g, Step(g, cmd));
    OpensClosed(g, cmd);
  }
}
