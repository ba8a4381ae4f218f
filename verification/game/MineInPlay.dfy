// A run in which a flood fill does open a mine: the smallest board with a wrong flag.
module MineInPlay {
  import opened Grids
  import opened Rules
  import opened Runs

  const MINE := Coord(1, 1)
  const MIDDLE := Coord(2, 1)
  const LAST := Coord(3, 1)

  /** Three cells in a row, the first a mine, in the given states of the other two. */
  function Row(open: bool, flagged: bool): Grid
  {
    Grid(3, 1, map[
      MINE := Cell(true, false, false, 0),
      MIDDLE := Cell(false, false, open, 1),
      LAST := Cell(false, flagged, false, 0)])
  }

  lemma RowFacts(open: bool, flagged: bool)
    ensures var g := Row(open, flagged);
            && Shaped(g) && Mines(g) == {MINE} && Flags(g) == (if flagged then {LAST} else {})
            && Neighbors(g, MINE) == {MIDDLE} && Neighbors(g, MIDDLE) == {MINE, LAST} && Neighbors(g, LAST) == {MIDDLE}
            && Revealed(g) == if open then {MIDDLE} else {}
  {
    var g := Row(open, flagged);
    assert g.cells.Keys == {MINE, MIDDLE, LAST};
    forall c
      ensures c in Coords(3, 1) <==> c in {MINE, MIDDLE, LAST}
    {
    }
  }

  lemma RowIsFresh()
    ensures Fresh(Row(false, false))
  {
    var g := Row(false, false);
    RowFacts(false, false);
    hide Neighbors, Mines, Flags, Revealed, Shaped;
    assert {MIDDLE} * {MINE} == {} && {MINE, LAST} * {MINE} == {MINE};
    forall c | c in g.cells
      ensures g.cells[c].Hidden() && g.cells[c].count == |Neighbors(g, c) * Mines(g)|
    {
      assert c == MINE || c == MIDDLE || c == LAST;
    }
  }

  lemma RevealsMiddle()
    ensures Shaped(Row(false, false)) && Step(Row(false, false), Reveal(2, 1)) == Row(true, false)
  {
    var g := Row(false, false);
    RowFacts(false, false);
    assert Closed(g, {MIDDLE});
    ReachIsLeast(g, MIDDLE, {MIDDLE});
    ReachIsClosed(g, MIDDLE);
    assert Opened(g, MIDDLE) == {MIDDLE};
    assert Open(g, {MIDDLE}).cells == Row(true, false).cells;
  }

  lemma FlagsLast()
    ensures Shaped(Row(true, false)) && Step(Row(true, false), Flag(3, 1)) == Row(true, true)
  {
    RowFacts(true, false);
    assert BombsCount(Row(true, false)) == 1;
    assert FlagStep(Row(true, false), 3, 1).cells == Row(true, true).cells;
  }

  /** A created board, a run of three commands, and a mine that the last of them opens. */
  lemma FloodOpensMineInPlay()
    ensures var g, cmds := Row(false, false), [Reveal(2, 1), Flag(3, 1)];
            && Fresh(g) && Inv(Run(g, cmds))
            && NewlyRevealed(Run(g, cmds), Check(2, 1), MINE)
            && FloodSeeds(Run(g, cmds), MIDDLE, MINE)
  {
    var g, cmds := Row(false, false), [Reveal(2, 1), Flag(3, 1)];
    hide Step, Opened, Fresh, Inv;
    RowIsFresh();
    RunInvariant(g, cmds);
    RevealsMiddle();
    FlagsLast();
    assert cmds[..1] == [Reveal(2, 1)] && cmds[..1][..0] == [];
    RunLast(g, []);
    RunLast(g, cmds[..1]);
    RunLast(g, cmds);
    assert Run(g, cmds) == Row(true, true);
    ChecksMiddle();
  }

  /** The cells that a check of `c` seeds include the mine `m`, and its flood fill opens it. */
  ghost predicate FloodSeeds(g: Grid, c: Coord, m: Coord)
  {
    m in Neighbors(g, c) && m in g.cells && m in Opened(g, m) && m in Mines(g)
  }

  lemma ChecksMiddle()
    ensures var g := Row(true, true);
            Shaped(g) && NewlyRevealed(g, Check(2, 1), MINE) && FloodSeeds(g, MIDDLE, MINE)
  {
    var g := Row(true, true);
    RowFacts(true, true);
    assert {MINE, LAST} * {LAST} == {LAST};
    assert CheckRefusal(g, MIDDLE) == [];
    ReachIsClosed(g, MINE);
    assert MINE in Opened(g, MINE);
    assert MINE in ChordOpens(g, MIDDLE);
    StepOpens(g, Check(2, 1));
  }
}
