// What the rules amount to, said of coordinates and sets of cells alone: which cells surround a
// cell, which commands are accepted, and what an accepted one changes.
module BoardLaws {
  import opened Grids
  import opened Rules
  import opened Runs

  // ----- neighbours -----

  /** The neighbours are the surrounding coordinates that are on the board, diagonals included, and no
      others: an offset leads to one exactly when it is not (0, 0) and both parts are within -1..1. */
  lemma NeighborsAround(g: Grid, c: Coord, dx: int, dy: int)
    requires Shaped(g)
    ensures Coord(c.x + dx, c.y + dy) in Neighbors(g, c) <==>
              && 1 <= c.x + dx <= g.w && 1 <= c.y + dy <= g.h
              && (dx != 0 || dy != 0) && -1 <= dx <= 1 && -1 <= dy <= 1
  {
    if 1 <= c.x + dx <= g.w && 1 <= c.y + dy <= g.h {
      assert Coord(c.x + dx, c.y + dy) in Coords(g.w, g.h);
    }
  }

  predicate OnBoard(g: Grid, x: int, y: int)
  {
    1 <= x <= g.w && 1 <= y <= g.h
  }

  lemma OnBoardIsCell(g: Grid, x: int, y: int)
    requires Shaped(g)
    ensures OnBoard(g, x, y) <==> Coord(x, y) in g.cells
    ensures CoordAt(g, x, y) == if OnBoard(g, x, y) then Coord(x, y) else NOWHERE
    ensures !OnBoard(g, -1, -1)
  {
    if OnBoard(g, x, y) {
      assert Coord(x, y) in Coords(g.w, g.h);
    }
  }

  // ----- cell/reveal -----

  /** A reveal is accepted exactly on the board and off the flags, and booms exactly on a mine. */
  lemma RevealAccepted(g: Grid, x: int, y: int, r: CellsReply)
    requires Inv(g) && RevealAnswers(g, x, y, r)
    ensures var c := Coord(x, y);
            && (r.Cells? <==> OnBoard(g, x, y) && c !in Flags(g))
            && (r == Refused(OutOfRange) <==> !OnBoard(g, x, y))
            && (r == Refused(CantRevealFlagged) <==> OnBoard(g, x, y) && c in Flags(g))
            && (r.Cells? ==> (r.already <==> c in Revealed(g)) && (r.boom <==> c in Mines(g)))
  {
    hide WellCounted, Reports;
    OnBoardIsCell(g, x, y);
    var c := Coord(x, y);
    if OnBoard(g, x, y) && !g.cells[c].flag && !g.cells[c].boom {
      forall m | m in Opened(g, c) && m in g.cells
        ensures g.cells[m].Shown() >= 0
      {
        RevealOpensNoMine(g, x, y, m);
        CountedShown(g, m);
      }
    }
  }

  lemma CountedShown(g: Grid, m: Coord)
    requires Inv(g) && m in g.cells
    ensures g.cells[m].Shown() == if m in Mines(g) then -1 else |Neighbors(g, m) * Mines(g)|
  {
  }

  /** What an accepted reveal changes: nothing on a mine or a revealed cell; otherwise the cell itself,
      alone if it has neighbouring mines, and with every unflagged neighbour if it has none. */
  lemma RevealChanges(g: Grid, x: int, y: int)
    requires Inv(g) && OnBoard(g, x, y) && Coord(x, y) !in Flags(g)
    ensures var c, g' := Coord(x, y), Step(g, Reveal(x, y));
            && c in g.cells && Flags(g') == Flags(g) && Mines(g') == Mines(g)
            && (c in Mines(g) || c in Revealed(g) ==> g' == g)
            && (c !in Mines(g) ==> c in Revealed(g'))
            && (c !in Mines(g) && Neighbors(g, c) * Mines(g) != {} ==> Revealed(g') == Revealed(g) + {c})
            && (c !in Mines(g) && c !in Revealed(g) && Neighbors(g, c) * Mines(g) == {} ==>
                  Neighbors(g, c) - Flags(g) <= Revealed(g'))
  {
    hide WellCounted, Reach, Open, Neighbors, Closed;
    OnBoardIsCell(g, x, y);
    var c := Coord(x, y);
    StepOpens(g, Reveal(x, y));
    OpensClosed(g, Reveal(x, y));
    OpenKeeps(g, Opens(g, Reveal(x, y)));
    StepKeeps(g, Reveal(x, y));
    OpenNothing(g);
    if c !in Mines(g) && c !in Revealed(g) {
      ReachIsClosed(g, c);
      CountedShown(g, c);
      if Neighbors(g, c) * Mines(g) != {} {
        AloneIsClosed(g, c);
        ReachIsLeast(g, c, {c});
        assert Reach(g, c) == {c};
      } else {
        ZeroOpensNeighbors(g, c);
      }
    }
  }

  lemma OpenNothing(g: Grid)
    ensures Open(g, {}) == g
  {
  }

  lemma AloneIsClosed(g: Grid, c: Coord)
    requires Inv(g) && c in g.cells && c !in Mines(g) && Neighbors(g, c) * Mines(g) != {}
    ensures Closed(g, {c})
  {
    assert |Neighbors(g, c) * Mines(g)| > 0;
  }

  lemma ZeroOpensNeighbors(g: Grid, c: Coord)
    requires Inv(g) && c in g.cells && g.cells[c].Hidden() && g.cells[c].Zero()
    ensures forall n :: n in Neighbors(g, c) && g.cells[n].Hidden() ==> n in Reach(g, c)
    ensures forall n :: n in Neighbors(g, c) ==> n in g.cells && (n in Flags(g) || n in Revealed(g) || g.cells[n].Hidden())
  {
    hide WellCounted, Reach;
    ReachIsClosed(g, c);
  }

  /** An accepted answer that does not boom lists exactly the cells that became revealed, each once and
      with its number of neighbouring mines. */
  lemma ListsWhatChanged(g: Grid, cmd: Command, r: CellsReply)
    requires Inv(g) && !cmd.Flag? && r.Cells? && !r.boom
    requires if cmd.Reveal? then RevealAnswers(g, cmd.x, cmd.y, r) else CheckAnswers(g, cmd.x, cmd.y, r)
    ensures var g' := Step(g, cmd);
            && (forall c :: c in Revealed(g') - Revealed(g) <==> ListedIn(r.cells, c))
            && (forall i, j :: 0 <= i < j < |r.cells| ==> r.cells[i].at != r.cells[j].at)
            && forall i :: 0 <= i < |r.cells| ==>
                 r.cells[i] == Counted(r.cells[i].at, |Neighbors(g, r.cells[i].at) * Mines(g)|)
  {
    hide WellCounted, Reach, Open, Neighbors, Step, ChordOpens, Opened;
    StepKeeps(g, cmd);
    OpensClosed(g, cmd);
    assert Reports(g, Opens(g, cmd), r.cells);
    forall c
      ensures c in Revealed(Step(g, cmd)) - Revealed(g) <==> ListedIn(r.cells, c)
    {
    }
    forall i | 0 <= i < |r.cells|
      ensures r.cells[i] == Counted(r.cells[i].at, |Neighbors(g, r.cells[i].at) * Mines(g)|)
    {
      assert ReportOf(g, r.cells[i]);
      CountedShown(g, r.cells[i].at);
    }
  }

  // ----- cell/flag -----

  /** A flag command is accepted exactly on an unrevealed cell that has a flag, or that may still get
      one of as many flags as there are mines. */
  lemma FlagAccepted(g: Grid, x: int, y: int)
    requires Inv(g)
    ensures var c, r := Coord(x, y), FlagAnswer(g, x, y);
            && (r.Flagged? <==> OnBoard(g, x, y) && c !in Revealed(g) && (c in Flags(g) || |Flags(g)| < |Mines(g)|))
            && (r == FlagRefused(OutOfRange) <==> !OnBoard(g, x, y))
            && (r == FlagRefused(CantFlagRevealed) <==> OnBoard(g, x, y) && c in Revealed(g))
            && (r.Flagged? ==> r.at == c && (r.flagged <==> c !in Flags(g)))
  {
    hide WellCounted;
    OnBoardIsCell(g, x, y);
  }

  /** An accepted flag command moves one cell into the flags or out of them, and changes the bomb
      counter by one the other way; a refused one changes nothing. */
  lemma FlagChanges(g: Grid, x: int, y: int)
    requires Inv(g)
    ensures var c, g' := Coord(x, y), Step(g, Flag(x, y));
            && Revealed(g') == Revealed(g) && Mines(g') == Mines(g)
            && (FlagAnswer(g, x, y).FlagRefused? ==> g' == g)
            && (FlagAnswer(g, x, y).Flagged? ==>
                  && Flags(g') == (if c in Flags(g) then Flags(g) - {c} else Flags(g) + {c})
                  && BombsCount(g') == BombsCount(g) + if c in Flags(g) then 1 else -1)
  {
    hide WellCounted, FlagStep;
    OnBoardIsCell(g, x, y);
    FlagStepKeeps(g, x, y);
    StepKeeps(g, Flag(x, y));
    if FlagAnswer(g, x, y).FlagRefused? {
      FlagRefusedSame(g, x, y);
    }
  }

  lemma FlagRefusedSame(g: Grid, x: int, y: int)
    requires Shaped(g) && FlagAnswer(g, x, y).FlagRefused?
    ensures Step(g, Flag(x, y)) == g
  {
  }

  /** A flag just placed can be taken off again, and the board is as before. */
  lemma FlagTwice(g: Grid, x: int, y: int)
    requires Inv(g) && FlagAnswer(g, x, y) == Flagged(Coord(x, y), true)
    ensures var g' := Step(g, Flag(x, y));
            FlagAnswer(g', x, y) == Flagged(Coord(x, y), false) && Step(g', Flag(x, y)) == g
  {
    hide WellCounted;
    OnBoardIsCell(g, x, y);
    var c, g' := Coord(x, y), Step(g, Flag(x, y));
    assert g'.cells[c] == g.cells[c].(flag := true);
    assert Step(g', Flag(x, y)).cells == g.cells;
  }

  // ----- cell/check -----

  /** A check is accepted exactly on a revealed cell that is no mine and has as many flags around it as
      mines. */
  lemma CheckAccepted(g: Grid, x: int, y: int, r: CellsReply)
    requires Inv(g) && CheckAnswers(g, x, y, r)
    ensures var c := Coord(x, y);
            && (r.Cells? <==>
                  OnBoard(g, x, y) && c in Revealed(g) && c !in Mines(g)
                  && |Neighbors(g, c) * Flags(g)| == |Neighbors(g, c) * Mines(g)|)
            && (r == Refused(OutOfRange) <==> !OnBoard(g, x, y))
            && (r == Refused(NotRevealed) <==> OnBoard(g, x, y) && c !in Revealed(g))
            && (r == Refused(CellIsBomb) <==> OnBoard(g, x, y) && c in Revealed(g) && c in Mines(g))
            && (r.Cells? ==> !r.already)
  {
    hide WellCounted, Reports;
    OnBoardIsCell(g, x, y);
    if OnBoard(g, x, y) {
      CountedShown(g, Coord(x, y));
    }
  }

  /** Then every neighbour without a flag is revealed afterwards; a refused check changes nothing. */
  lemma CheckChanges(g: Grid, x: int, y: int)
    requires Inv(g)
    ensures var c, g' := Coord(x, y), Step(g, Check(x, y));
            && Flags(g') == Flags(g) && Mines(g') == Mines(g)
            && var accepted := OnBoard(g, x, y) && c in Revealed(g) && c !in Mines(g)
                               && |Neighbors(g, c) * Flags(g)| == |Neighbors(g, c) * Mines(g)|;
               && (accepted ==> Neighbors(g, c) - Flags(g) <= Revealed(g'))
               && (!accepted ==> g' == g)
  {
    hide WellCounted, Open, ChordOpens;
    OnBoardIsCell(g, x, y);
    var c := Coord(x, y);
    StepOpens(g, Check(x, y));
    OpensClosed(g, Check(x, y));
    OpenKeeps(g, Opens(g, Check(x, y)));
    StepKeeps(g, Check(x, y));
    OpenNothing(g);
    if OnBoard(g, x, y) {
      CountedShown(g, c);
      forall n | n in Neighbors(g, c) && n !in Flags(g) && n !in Revealed(g)
        ensures n in ChordOpens(g, c)
      {
        SeedOpens(g, c, n);
      }
    }
  }

  lemma SeedOpens(g: Grid, c: Coord, n: Coord)
    requires n in Neighbors(g, c) && n !in Flags(g) && n !in Revealed(g)
    ensures n in ChordOpens(g, c)
  {
    ReachIsClosed(g, n);
    assert n in Opened(g, n);
  }

  // ----- what spreads, and how far -----

  lemma NewlyRevealedAre(g: Grid, cmd: Command)
    requires Inv(g)
    ensures Revealed(Step(g, cmd)) == Revealed(g) + Opens(g, cmd)
    ensures Opens(g, cmd) !! Revealed(g) && Opens(g, cmd) !! Flags(g)
    ensures cmd.Flag? ==> Opens(g, cmd) == {}
  {
    hide WellCounted, Step, Open, ChordOpens, CheckOpens, RevealOpens;
    OpensClosed(g, cmd);
    if cmd.Flag? {
      FlagChanges(g, cmd.x, cmd.y);
    } else {
      StepOpens(g, cmd);
      OpenKeeps(g, Opens(g, cmd));
    }
  }

  /** Revealed cells stay so, and a flag protects its cell. */
  lemma FlagsProtect(g: Grid, cmd: Command)
    requires Inv(g)
    ensures Revealed(g) <= Revealed(Step(g, cmd))
    ensures (Revealed(Step(g, cmd)) - Revealed(g)) * Flags(g) == {}
  {
    hide WellCounted, Step, Opens;
    NewlyRevealedAre(g, cmd);
  }

  /** A newly revealed cell without neighbouring mines takes every covered neighbour with it. */
  lemma ZerosSpread(g: Grid, cmd: Command, z: Coord, n: Coord)
    requires Inv(g) && z in Revealed(Step(g, cmd)) - Revealed(g)
    requires z !in Mines(g) && Neighbors(g, z) * Mines(g) == {} && n in Neighbors(g, z) && n !in Flags(g)
    ensures n in Revealed(Step(g, cmd))
  {
    hide WellCounted, Step, Opens;
    NewlyRevealedAre(g, cmd);
    OpensClosed(g, cmd);
    CountedShown(g, z);
  }

  /** Nothing else is revealed: only the cell itself, the neighbours of a checked cell, and neighbours of
      newly revealed cells that have no neighbouring mines. */
  lemma WhyRevealed(g: Grid, cmd: Command, m: Coord)
    requires Inv(g) && m in Revealed(Step(g, cmd)) - Revealed(g)
    ensures !cmd.Flag?
    ensures || (cmd.Reveal? && m == Coord(cmd.x, cmd.y))
            || (cmd.Check? && m in Neighbors(g, Coord(cmd.x, cmd.y)))
            || exists z :: z in Revealed(Step(g, cmd)) - Revealed(g) && Spreads(g, z, m)
  {
    hide WellCounted, Step, Opens, Spreads, Neighbors;
    NewlyRevealedAre(g, cmd);
    var seed := SeedFor(g, cmd, m);
    if m != seed {
      var z := Spreader(g, seed, m);
      assert z in Opens(g, cmd);
    }
  }

  lemma SeedFor(g: Grid, cmd: Command, m: Coord) returns (seed: Coord)
    requires Inv(g) && m in Opens(g, cmd)
    ensures !cmd.Flag? && seed in g.cells && m in Opened(g, seed) && Opened(g, seed) <= Opens(g, cmd)
    ensures if cmd.Reveal? then seed == Coord(cmd.x, cmd.y) else seed in Neighbors(g, Coord(cmd.x, cmd.y))
  {
    hide WellCounted, Opened;
    seed := Coord(cmd.x, cmd.y);
    OnBoardIsCell(g, cmd.x, cmd.y);
    if cmd.Check? {
      seed := ChordSeed(g, Coord(cmd.x, cmd.y), m);
      ChordHas(g, Coord(cmd.x, cmd.y), seed);
    }
  }

  lemma ChordSeed(g: Grid, c: Coord, m: Coord) returns (n: Coord)
    requires m in ChordOpens(g, c)
    ensures n in Neighbors(g, c) && n in g.cells && m in Opened(g, n)
  {
    hide Opened;
    n :| n in Neighbors(g, c) && m in Opened(g, n);
  }

  lemma ChordHas(g: Grid, c: Coord, n: Coord)
    requires n in Neighbors(g, c)
    ensures n in g.cells && Opened(g, n) <= ChordOpens(g, c)
  {
    OpenedIsClosed(g, n);
    hide Opened;
  }

  ghost predicate Spreads(g: Grid, z: Coord, m: Coord)
  {
    z !in Mines(g) && Neighbors(g, z) * Mines(g) == {} && m in Neighbors(g, z)
  }

  lemma Spreader(g: Grid, seed: Coord, m: Coord) returns (z: Coord)
    requires Inv(g) && seed in g.cells && m in Opened(g, seed) && m != seed
    ensures z in Opened(g, seed) && Spreads(g, z, m)
  {
    hide WellCounted, Neighbors;
    ReachIsHidden(g, seed, m);
    z :| z in Reach(g, seed) && g.cells[z].Zero() && m in Neighbors(g, z);
    hide Reach;
    CountedShown(g, z);
  }

  /** The cells beside `c` that a chord may reveal. */
  function CoveredBeside(g: Grid, c: Coord): set<Coord>
  {
    Neighbors(g, c) - Flags(g) - Revealed(g)
  }

  /** Every covered neighbour is revealed by one of the commands, and they do nothing else. */
  predicate EachBeside(g: Grid, c: Coord, cmds: seq<Command>)
  {
    && (forall i :: 0 <= i < |cmds| ==> cmds[i].Reveal? && Coord(cmds[i].x, cmds[i].y) in CoveredBeside(g, c))
    && forall n :: n in CoveredBeside(g, c) ==> Reveal(n.x, n.y) in cmds
  }

  /** An accepted check with no covered mine beside it is nothing but a reveal of every covered neighbour,
      in any order, with or without repetitions. */
  lemma ChordIsReveals(g: Grid, x: int, y: int, cmds: seq<Command>)
    requires Inv(g) && OnBoard(g, x, y)
    requires var c := Coord(x, y);
             && c in Revealed(g) && c !in Mines(g) && |Neighbors(g, c) * Flags(g)| == |Neighbors(g, c) * Mines(g)|
             && CoveredBeside(g, c) * Mines(g) == {} && EachBeside(g, c, cmds)
    ensures Run(g, cmds) == Step(g, Check(x, y))
  {
    hide WellCounted, Open, Neighbors, ChordOpens, Run, RevealUnion;
    var c := Coord(x, y);
    OnBoardIsCell(g, x, y);
    CountedShown(g, c);
    RevealsOpenUnion(g, cmds);
    forall m
      ensures m in RevealUnion(g, cmds) <==> m in ChordOpens(g, c)
    {
      if m in RevealUnion(g, cmds) {
        UnionInChord(g, c, cmds, m);
      }
      if m in ChordOpens(g, c) {
        ChordInUnion(g, c, cmds, m);
      }
    }
    assert RevealUnion(g, cmds) == ChordOpens(g, c);
  }

  lemma BesideOpens(g: Grid, c: Coord, n: Coord)
    requires Inv(g) && n in CoveredBeside(g, c) && CoveredBeside(g, c) * Mines(g) == {}
    ensures n in g.cells && Opens(g, Reveal(n.x, n.y)) == Opened(g, n)
  {
    hide WellCounted, Opened;
    OnBoardIsCell(g, n.x, n.y);
    assert n !in CoveredBeside(g, c) * Mines(g);
  }

  lemma UnionInChord(g: Grid, c: Coord, cmds: seq<Command>, m: Coord)
    requires Inv(g) && EachBeside(g, c, cmds) && CoveredBeside(g, c) * Mines(g) == {} && m in RevealUnion(g, cmds)
    ensures m in ChordOpens(g, c)
  {
    hide WellCounted, Opens, ChordOpens, EachBeside, Reach;
    var i := UnionSource(g, cmds, m);
    var n := BesideAt(g, c, cmds, i);
    BesideOpens(g, c, n);
    ChordHas(g, c, n);
  }

  lemma BesideAt(g: Grid, c: Coord, cmds: seq<Command>, i: nat) returns (n: Coord)
    requires EachBeside(g, c, cmds) && i < |cmds|
    ensures cmds[i] == Reveal(n.x, n.y) && n in CoveredBeside(g, c) && n in Neighbors(g, c)
  {
    n := Coord(cmds[i].x, cmds[i].y);
  }

  lemma {:induction false} UnionSource(g: Grid, cmds: seq<Command>, m: Coord) returns (i: nat)
    requires Shaped(g) && m in RevealUnion(g, cmds)
    ensures i < |cmds| && m in Opens(g, cmds[i])
  {
    hide Opens, Shaped;
    i := |cmds| - 1;
    if m !in Opens(g, cmds[i]) {
      i := UnionSource(g, cmds[..i], m);
    }
  }

  lemma {:induction false} UnionHas(g: Grid, cmds: seq<Command>, i: nat)
    requires Shaped(g) && i < |cmds|
    ensures Opens(g, cmds[i]) <= RevealUnion(g, cmds)
  {
    hide Opens, Shaped;
    if i < |cmds| - 1 {
      UnionHas(g, cmds[..|cmds| - 1], i);
    }
  }

  lemma ChordInUnion(g: Grid, c: Coord, cmds: seq<Command>, m: Coord)
    requires Inv(g) && EachBeside(g, c, cmds) && CoveredBeside(g, c) * Mines(g) == {} && m in ChordOpens(g, c)
    ensures m in RevealUnion(g, cmds)
  {
    hide WellCounted, Opens, ChordOpens, RevealUnion, Reach;
    var n := ChordSeed(g, c, m);
    assert n in CoveredBeside(g, c);
    BesideOpens(g, c, n);
    var i :| 0 <= i < |cmds| && cmds[i] == Reveal(n.x, n.y);
    UnionHas(g, cmds, i);
  }

  // ----- board/check and board/fully_revealed -----

  /** The verdict: refused unless as many cells are covered as there are mines; then lost exactly when
      some mine lacks its flag or is revealed, and won exactly when none does. */
  lemma Verdicts(g: Grid)
    ensures BoardCheck(g) == CheckRefused(CellsLeft) <==> |Unrevealed(g)| != |Mines(g)|
    ensures BoardCheck(g) == Lose <==> |Unrevealed(g)| == |Mines(g)| && !(Mines(g) <= Flags(g) - Revealed(g))
    ensures BoardCheck(g) == Win <==> |Unrevealed(g)| == |Mines(g)| && Mines(g) <= Flags(g) - Revealed(g)
  {
    if Mines(g) <= Flags(g) - Revealed(g) {
      forall c | c in g.cells
        ensures !Bad(g.cells[c])
      {
        if g.cells[c].boom {
          assert c in Mines(g);
        }
      }
    } else {
      var m :| m in Mines(g) && m !in Flags(g) - Revealed(g);
      assert Bad(g.cells[m]);
    }
  }

  /** With every safe cell open, no mine revealed and some mine without a flag the verdict is "lose". */
  lemma UnflaggedMineLoses(g: Grid, m: Coord)
    requires Unrevealed(g) == Mines(g) && m in Mines(g) && m !in Flags(g)
    ensures BoardCheck(g) == Lose
  {
    Verdicts(g);
  }
}
