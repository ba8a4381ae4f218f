// The game's commands as steps on grids, and what each of them answers.
module Rules {
  import opened Grids

  datatype Refusal =
    | OutOfRange
    | CantRevealFlagged
    | CantFlagRevealed
    | NoBombsLeft
    | NotRevealed
    | CellIsBomb
    | FlagsDiffer
    | CellsLeft

  /** One element of a `cells` array; a mine hit by cell/reveal is listed without a count. */
  datatype Report = Bare(at: Coord) | Counted(at: Coord, count: int)
  {
    predicate Bomb()
    {
      Counted? && count < 0
    }
  }

  datatype CellsReply = Refused(why: Refusal) | Cells(already: bool, boom: bool, cells: seq<Report>)

  datatype FlagReply = FlagRefused(why: Refusal) | Flagged(at: Coord, flagged: bool)

  datatype Verdict = CheckRefused(why: Refusal) | Win | Lose

  datatype Command = Reveal(x: int, y: int) | Flag(x: int, y: int) | Check(x: int, y: int)

  const NOWHERE := Coord(-1, -1)

  /** board_i::coord. */
  function CoordAt(g: Grid, x: int, y: int): (c: Coord)
    ensures Shaped(g) ==> (c in g.cells <==> c != NOWHERE)
  {
    if InBounds(g.w, g.h, Coord(x, y)) then Coord(x, y) else NOWHERE
  }

  // ----- the numbers the queries return -----

  function BombsCount(g: Grid): int
  {
    |Mines(g)| - |Flags(g)|
  }

  predicate FullyRevealed(g: Grid)
  {
    |Unrevealed(g)| == |Mines(g)| && |Flags(g)| == |Mines(g)|
  }

  ghost predicate Bad(cell: Cell)
  {
    cell.boom && (!cell.flag || cell.revealed)
  }

  ghost function BoardCheck(g: Grid): Verdict
  {
    if |Unrevealed(g)| != |Mines(g)| then CheckRefused(CellsLeft)
    else if forall c :: c in g.cells ==> !Bad(g.cells[c]) then Win
    else Lose
  }

  // ----- cell/reveal -----

  ghost function RevealOpens(g: Grid, x: int, y: int): set<Coord>
    requires Shaped(g)
  {
    var c := CoordAt(g, x, y);
    if c == NOWHERE || g.cells[c].boom then {} else Opened(g, c)
  }

  /** `cells` lists each cell of `s` exactly once, with the count it shows. */
  ghost predicate Reports(g: Grid, s: set<Coord>, cells: seq<Report>)
  {
    && (forall i, j :: 0 <= i < j < |cells| ==> cells[i].at != cells[j].at)
    && (forall i :: 0 <= i < |cells| ==> cells[i].at in s && ReportOf(g, cells[i]))
    && (forall c :: c in s ==> ListedIn(cells, c))
  }

  ghost predicate ListedIn(cells: seq<Report>, c: Coord)
  {
    exists i :: 0 <= i < |cells| && cells[i].at == c
  }

  ghost predicate ReportOf(g: Grid, r: Report)
  {
    r.Counted? && r.at in g.cells && r.count == g.cells[r.at].Shown()
  }

  ghost predicate RevealAnswers(g: Grid, x: int, y: int, r: CellsReply)
    requires Shaped(g)
  {
    var c := CoordAt(g, x, y);
    if c == NOWHERE then r == Refused(OutOfRange)
    else if g.cells[c].flag then r == Refused(CantRevealFlagged)
    else if g.cells[c].boom then r == Cells(g.cells[c].revealed, true, [Bare(c)])
    else CellsAnswer(g, Opened(g, c), g.cells[c].revealed, r)
  }

  ghost predicate CellsAnswer(g: Grid, s: set<Coord>, already: bool, r: CellsReply)
  {
    r.Cells? && r.already == already && Reports(g, s, r.cells)
    && (r.boom <==> exists c :: c in s && c in g.cells && g.cells[c].Shown() < 0)
  }

  // ----- cell/flag -----

  function FlagRefusal(g: Grid, c: Coord): (why: seq<Refusal>)
    requires c != NOWHERE ==> c in g.cells
    ensures |why| <= 1
  {
    if c == NOWHERE then [OutOfRange]
    else if g.cells[c].revealed then [CantFlagRevealed]
    else if !g.cells[c].flag && BombsCount(g) == 0 then [NoBombsLeft]
    else []
  }

  function FlagStep(g: Grid, x: int, y: int): Grid
    requires Shaped(g)
  {
    var c := CoordAt(g, x, y);
    if FlagRefusal(g, c) != [] then g
    else g.(cells := g.cells[c := g.cells[c].(flag := !g.cells[c].flag)])
  }

  function FlagAnswer(g: Grid, x: int, y: int): FlagReply
    requires Shaped(g)
  {
    var c := CoordAt(g, x, y);
    var why := FlagRefusal(g, c);
    if why != [] then FlagRefused(why[0]) else Flagged(c, !g.cells[c].flag)
  }

  // ----- cell/check -----

  function CheckRefusal(g: Grid, c: Coord): (why: seq<Refusal>)
    requires c != NOWHERE ==> c in g.cells
    ensures |why| <= 1
  {
    if c == NOWHERE then [OutOfRange]
    else if !g.cells[c].revealed then [NotRevealed]
    else if g.cells[c].boom then [CellIsBomb]
    else if |Neighbors(g, c) * Flags(g)| != g.cells[c].Shown() then [FlagsDiffer]
    else []
  }

  /** The union of what the neighbours, as seeds, reach in the state before the check. */
  ghost function ChordOpens(g: Grid, c: Coord): set<Coord>
  {
    set m | m in g.cells && exists n :: n in Neighbors(g, c) && m in Opened(g, n)
  }

  ghost function CheckOpens(g: Grid, x: int, y: int): set<Coord>
    requires Shaped(g)
  {
    var c := CoordAt(g, x, y);
    if CheckRefusal(g, c) != [] then {} else ChordOpens(g, c)
  }

  ghost predicate CheckAnswers(g: Grid, x: int, y: int, r: CellsReply)
    requires Shaped(g)
  {
    var c := CoordAt(g, x, y);
    var why := CheckRefusal(g, c);
    if why != [] then r == Refused(why[0]) else CellsAnswer(g, ChordOpens(g, c), false, r)
  }

  // ----- steps and runs -----

  ghost function Step(g: Grid, cmd: Command): (g': Grid)
    requires Shaped(g)
    ensures Shaped(g') && g'.w == g.w && g'.h == g.h
  {
    match cmd
    case Reveal(x, y) => Open(g, RevealOpens(g, x, y))
    case Flag(x, y) => FlagStep(g, x, y)
    case Check(x, y) => Open(g, CheckOpens(g, x, y))
  }

  ghost function Run(g: Grid, cmds: seq<Command>): (g': Grid)
    requires Shaped(g)
    ensures Shaped(g') && g'.w == g.w && g'.h == g.h
  {
    if cmds == [] then g else Step(Run(g, cmds[..|cmds| - 1]), cmds[|cmds| - 1])
  }

  lemma RunLast(g: Grid, cmds: seq<Command>)
    requires Shaped(g)
    ensures cmds == [] ==> Run(g, cmds) == g
    ensures cmds != [] ==> Run(g, cmds) == Step(Run(g, cmds[..|cmds| - 1]), cmds[|cmds| - 1])
  {
  }

  lemma RunSnoc(g: Grid, cmds: seq<Command>, cmd: Command)
    requires Shaped(g)
    ensures Run(g, cmds + [cmd]) == Step(Run(g, cmds), cmd)
  {
    assert (cmds + [cmd])[..|cmds|] == cmds;
  }

  /** A board as created: true counts, nothing flagged, nothing revealed. */
  ghost predicate Fresh(g: Grid)
  {
    Shaped(g) && WellCounted(g) && forall c :: c in g.cells ==> g.cells[c].Hidden()
  }

  lemma ChordClosed(g: Grid, c: Coord)
    ensures Closed(g, ChordOpens(g, c)) && ChordOpens(g, c) <= g.cells.Keys
  {
    forall m, n | m in ChordOpens(g, c) && g.cells[m].Zero() && n in Neighbors(g, m) && g.cells[n].Hidden()
      ensures n in ChordOpens(g, c)
    {
      var seed :| seed in Neighbors(g, c) && m in Opened(g, seed);
      OpenedIsClosed(g, seed);
      assert n in Opened(g, seed);
    }
  }
}
