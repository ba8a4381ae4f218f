// What the client's screen says about the server's board, after any run of commands and whatever
// becomes of the requests on the way.
module Screens {
  import opened Grids
  import opened Rules
  import opened Runs
  import opened BoardLaws
  import opened UiBoards

  datatype Outcome = InPlay | YouWin | YouLose | YouBoom | Abandoned

  /** A command's request reaches the server and is answered, or never reaches it, or is obeyed
      while the client gets an error in place of the answer. */
  datatype Delivery = Delivered | Dropped | AnswerLost

  /** The fate of the requests that one key causes: the command, and the queries that follow it. */
  datatype Network = Network(command: Delivery, bombs: bool, fully: bool, check: bool)

  const FAULTLESS := Network(Delivered, true, true, true)

  // ----- what goes off, and what the answers tell the client -----

  /** A mine goes off: an unflagged mine is revealed, or an accepted check has a hidden mine
      beside its cell. */
  ghost predicate Booms(g: Grid, cmd: Command)
    requires Shaped(g)
  {
    var c := CoordAt(g, cmd.x, cmd.y);
    match cmd
    case Reveal(_, _) => c in Mines(g) && c !in Flags(g)
    case Flag(_, _) => false
    case Check(_, _) => CheckRefusal(g, c) == [] && exists m :: m in Neighbors(g, c) && HiddenMine(g, m)
  }

  /** No mine is revealed. */
  ghost predicate Safe(g: Grid)
  {
    Mines(g) !! Revealed(g)
  }

  /** The cells that a "boom" answer lists. */
  ghost function BoomShows(g: Grid, cmd: Command): set<Coord>
    requires Shaped(g)
  {
    var c := CoordAt(g, cmd.x, cmd.y);
    if cmd.Reveal? then {c} else ChordOpens(g, c)
  }

  ghost predicate Answers(g: Grid, cmd: Command, r: CellsReply)
    requires Shaped(g)
  {
    if cmd.Reveal? then RevealAnswers(g, cmd.x, cmd.y, r) else CheckAnswers(g, cmd.x, cmd.y, r)
  }

  ghost predicate Reads(g: Grid, cmd: Command, r: CellsReply)
    requires Shaped(g)
  {
    if r.Refused? then Step(g, cmd) == g && !Booms(g, cmd)
    else if r.boom then
      Booms(g, cmd) && Places(r.cells) == BoomShows(g, cmd)
      && forall i :: 0 <= i < |r.cells| ==> r.cells[i].at in g.cells
    else !Booms(g, cmd) && Reports(g, Opens(g, cmd), r.cells) && Opens(g, cmd) !! Mines(g)
  }

  /** What an answer says is exactly what happened on the server. */
  lemma AnswerReads(g: Grid, cmd: Command, r: CellsReply)
    requires Inv(g) && !cmd.Flag? && Answers(g, cmd, r)
    ensures Reads(g, cmd, r)
  {
    if cmd.Reveal? {
      RevealReads(g, cmd.x, cmd.y, r);
    } else {
      CheckReads(g, cmd.x, cmd.y, r);
    }
  }

  lemma NoneInPlay(g: Grid)
    ensures Open(g, {}) == g
  {
  }

  lemma RevealReads(g: Grid, x: int, y: int, r: CellsReply)
    requires Inv(g) && RevealAnswers(g, x, y, r)
    ensures Reads(g, Reveal(x, y), r)
  {
    hide WellCounted, Reports, Open, Reach;
    var c := CoordAt(g, x, y);
    NoneInPlay(g);
    if c != NOWHERE && !g.cells[c].flag {
      if g.cells[c].boom {
        assert Places(r.cells) == {c} by {
          assert r.cells[0].at == c;
        }
      } else {
        forall m | m in RevealOpens(g, x, y) && m in g.cells
          ensures m !in Mines(g) && g.cells[m].Shown() >= 0
        {
          RevealOpensNoMine(g, x, y, m);
          ShownIsCount(g, m);
        }
      }
    }
  }

  lemma ShownIsCount(g: Grid, m: Coord)
    requires Inv(g) && m in g.cells
    ensures g.cells[m].Shown() < 0 <==> m in Mines(g)
  {
    assert g.cells[m].count >= 0;
  }

  lemma CheckReads(g: Grid, x: int, y: int, r: CellsReply)
    requires Inv(g) && CheckAnswers(g, x, y, r)
    ensures Reads(g, Check(x, y), r)
  {
    hide WellCounted, Reports, Open, HiddenMine, ChordOpens, Neighbors, Places;
    var c := CoordAt(g, x, y);
    NoneInPlay(g);
    if CheckRefusal(g, c) == [] {
      BoomMeansMine(g, c, r);
      ChordMines(g, c);
      ReportedPlaces(g, ChordOpens(g, c), r.cells);
      ChordClosed(g, c);
      ReportedInGrid(g, ChordOpens(g, c), r.cells);
    }
  }

  lemma ReportedInGrid(g: Grid, s: set<Coord>, cells: seq<Report>)
    requires Reports(g, s, cells)
    ensures forall i :: 0 <= i < |cells| ==> cells[i].at in g.cells
  {
    forall i | 0 <= i < |cells|
      ensures cells[i].at in g.cells
    {
      assert ReportOf(g, cells[i]);
    }
  }

  // ----- the screen and the history behind it -----

  datatype Screen = Screen(pic: Picture, bombsLeft: int, bombsTotal: int, outcome: Outcome)

  /** How much the client can rely on: no answer has been lost; the bomb counter has been fetched
      since the last flag; the queries about the end have been answered since the last change. */
  datatype Trust = Trust(synced: bool, counted: bool, asked: bool)

  const FULL_TRUST := Trust(true, true, true)

  /** The client says "boom" exactly for a mine that the last command set off, and unless an answer
      was lost no other command has set one off. */
  ghost predicate History(start: Grid, log: seq<Command>, synced: bool, boomed: bool)
    requires Shaped(start)
  {
    && (boomed ==> log != [] && Booms(Run(start, log[..|log| - 1]), log[|log| - 1]))
    && (synced ==> forall k :: 0 <= k < |log| && Booms(Run(start, log[..k]), log[k]) ==> boomed && k == |log| - 1)
  }

  /** Up to the first boom the client draws exactly what the server's board is, and no mine is
      revealed; a fetched bomb counter is the server's. */
  ghost predicate Mirrors(g: Grid, s: Screen, t: Trust)
  {
    && (t.synced && s.outcome != YouBoom ==> s.pic == PictureOf(g) && Safe(g))
    && (t.counted ==> s.bombsLeft == BombsCount(g) && s.bombsTotal == |Mines(g)|)
  }

  /** The client announces a win only on a won board and a loss only on a lost one, the latter only
      after losing an answer; when its queries have been answered it announces one of them exactly
      on a fully revealed board (one that has cells). */
  ghost predicate Ends(g: Grid, s: Screen, t: Trust)
  {
    && (s.outcome == YouWin ==> BoardCheck(g) == Win)
    && (s.outcome == YouLose ==> BoardCheck(g) == Lose && !t.synced)
    && (t.asked && s.outcome != YouBoom && g.cells != map[] ==>
          (s.outcome == YouWin || s.outcome == YouLose <==> FullyRevealed(g)))
  }

  /** After the boom the screen is the last faithful picture with the answered cells exploded. */
  ghost predicate BoomShown(start: Grid, log: seq<Command>, s: Screen, t: Trust)
    requires Shaped(start)
  {
    t.synced && s.outcome == YouBoom && log != [] ==>
      var g, cmd := Run(start, log[..|log| - 1]), log[|log| - 1];
      s.pic == Exploded(PictureOf(g), BoomShows(g, cmd))
  }

  /** What holds of the screen after the commands of `log` on a fresh board. */
  ghost predicate Faithful(start: Grid, log: seq<Command>, s: Screen, t: Trust)
    requires Shaped(start)
  {
    && Mirrors(Run(start, log), s, t) && Ends(Run(start, log), s, t)
    && History(start, log, t.synced, s.outcome == YouBoom) && BoomShown(start, log, s, t)
  }

  // ----- one command and its answer -----

  /** The picture after an answered command that sets off no mine. */
  ghost function Repaint(g: Grid, cmd: Command, pic: Picture): Picture
    requires Shaped(g)
  {
    if !cmd.Flag? then Painted(pic, g, Opens(g, cmd))
    else
      var c, answer := Coord(cmd.x, cmd.y), FlagAnswer(g, cmd.x, cmd.y);
      if c in pic && answer.Flagged? then pic[c := pic[c].(state := if answer.flagged then UiFlagged else UiHidden)]
      else pic
  }

  /** What check_game_end makes of a board. */
  ghost function EndOf(g: Grid, net: Network): Outcome
  {
    if !(net.fully && FullyRevealed(g) && net.check) then InPlay
    else if BoardCheck(g) == Win then YouWin
    else YouLose
  }

  /** What the client does to its screen for one command that is answered. */
  ghost predicate Shown(g: Grid, cmd: Command, net: Network, refused: bool, s: Screen, s': Screen)
    requires Shaped(g)
  {
    var g' := Step(g, cmd);
    if refused then g' == g && s' == s && !Booms(g, cmd)
    else
      && (if cmd.Flag? && net.bombs then s'.bombsLeft == BombsCount(g') && s'.bombsTotal == |Mines(g')|
          else s'.bombsLeft == s.bombsLeft && s'.bombsTotal == s.bombsTotal)
      && (if Booms(g, cmd) then s'.outcome == YouBoom && s'.pic == Exploded(s.pic, BoomShows(g, cmd))
          else s'.outcome == EndOf(g', net) && s'.pic == Repaint(g, cmd, s.pic))
  }

  /** What a request does to the client's trust. */
  ghost function After(t: Trust, g: Grid, cmd: Command, net: Network, refused: bool): Trust
    requires Shaped(g)
  {
    match net.command
    case Dropped => t
    case AnswerLost => Trust(false, t.counted && !cmd.Flag?, false)
    case Delivered =>
      if refused then t
      else Trust(t.synced, if cmd.Flag? then net.bombs else t.counted,
                 net.fully && (FullyRevealed(Step(g, cmd)) ==> net.check))
  }

  lemma FaultlessKeepsTrust(g: Grid, cmd: Command, refused: bool)
    requires Shaped(g)
    ensures After(FULL_TRUST, g, cmd, FAULTLESS, refused) == FULL_TRUST
  {
  }

  lemma HistorySnoc(start: Grid, log: seq<Command>, cmd: Command, synced: bool, boomed: bool)
    requires Shaped(start) && History(start, log, synced, false)
    requires boomed ==> Booms(Run(start, log), cmd)
    requires synced && Booms(Run(start, log), cmd) ==> boomed
    ensures History(start, log + [cmd], synced, boomed)
  {
    hide Booms, Run;
    var log' := log + [cmd];
    assert log'[..|log|] == log;
    forall k | 0 <= k < |log|
      ensures log'[..k] == log[..k] && log'[k] == log[k]
    {
    }
  }

  /** A command that sets off no mine leaves no mine revealed. */
  lemma StaysSafe(g: Grid, cmd: Command)
    requires Inv(g) && Safe(g) && !Booms(g, cmd)
    ensures Safe(Step(g, cmd))
  {
    hide Step, ChordOpens, Opened, Neighbors, WellCounted, HiddenMine;
    StepKeeps(g, cmd);
    forall m | m in Mines(g) && m in Opens(g, cmd)
      ensures false
    {
      if cmd.Reveal? {
        RevealOpensNoMine(g, cmd.x, cmd.y, m);
      } else {
        ChordMines(g, CoordAt(g, cmd.x, cmd.y));
      }
    }
  }

  lemma KeepsCounters(g: Grid, cmd: Command)
    requires Inv(g) && !cmd.Flag?
    ensures BombsCount(Step(g, cmd)) == BombsCount(g) && Mines(Step(g, cmd)) == Mines(g)
  {
    hide Open, Opens, Mines, WellCounted;
    OpensClosed(g, cmd);
    StepOpens(g, cmd);
    OpenKeeps(g, Opens(g, cmd));
    StepKeeps(g, cmd);
  }

  /** The picture follows the board. */
  lemma RepaintMirrors(g: Grid, cmd: Command)
    requires Shaped(g)
    ensures Repaint(g, cmd, PictureOf(g)) == PictureOf(Step(g, cmd))
  {
    hide Opens, Painted, PictureOf, Shows, FlagAnswer, Step;
    if cmd.Flag? {
      FlagPicture(g, cmd.x, cmd.y);
    } else {
      StepOpens(g, cmd);
      PictureOfOpen(g, Opens(g, cmd));
    }
  }

  lemma FlagPicture(g: Grid, x: int, y: int)
    requires Shaped(g)
    ensures var c, answer, pic := Coord(x, y), FlagAnswer(g, x, y), PictureOf(g);
            PictureOf(Step(g, Flag(x, y)))
            == if c in pic && answer.Flagged? then pic[c := pic[c].(state := if answer.flagged then UiFlagged else UiHidden)]
               else pic
  {
    var c := CoordAt(g, x, y);
    var g' := FlagStep(g, x, y);
    if FlagAnswer(g, x, y).Flagged? {
      assert g'.cells == g.cells[c := g.cells[c].(flag := !g.cells[c].flag)];
      forall d | d in g.cells && d != c
        ensures PictureOf(g')[d] == PictureOf(g)[d]
      {
      }
      assert g'.cells.Keys == g.cells.Keys;
    }
  }

  /** One command, obeyed by the server, answered and shown by the client, keeps the screen faithful. */
  lemma ShownKeepsFaithful(start: Grid, log: seq<Command>, cmd: Command, net: Network, refused: bool,
                           s: Screen, s': Screen, t: Trust)
    requires Fresh(start) && Faithful(start, log, s, t) && s.outcome == InPlay && net.command.Delivered?
    requires Shown(Run(start, log), cmd, net, refused, s, s')
    ensures Faithful(start, log + [cmd], s', After(t, Run(start, log), cmd, net, refused))
    ensures Run(start, log + [cmd]) == Step(Run(start, log), cmd)
  {
    hide WellCounted, History, Booms, Run, Inv, Step, Shown, Mirrors, Ends, BoomShows, BoomShown, After;
    var g := Run(start, log);
    var t' := After(t, g, cmd, net, refused);
    RunInvariant(start, log);
    RunSnoc(start, log, cmd);
    KeepsSynced(t, g, cmd, net, refused);
    ShownMirrors(g, cmd, net, refused, s, s', t);
    ShownEnds(g, cmd, net, refused, s, s', t);
    HistorySnoc(start, log, cmd, t'.synced, s'.outcome == YouBoom);
    ShownBoom(start, log, cmd, net, refused, s, s', t);
  }

  lemma KeepsSynced(t: Trust, g: Grid, cmd: Command, net: Network, refused: bool)
    requires Shaped(g)
    ensures !net.command.AnswerLost? ==> After(t, g, cmd, net, refused).synced == t.synced
  {
  }

  lemma ShownBoom(start: Grid, log: seq<Command>, cmd: Command, net: Network, refused: bool, s: Screen, s': Screen, t: Trust)
    requires Shaped(start) && s.outcome == InPlay && net.command.Delivered? && Mirrors(Run(start, log), s, t)
    requires Shown(Run(start, log), cmd, net, refused, s, s')
    ensures BoomShown(start, log + [cmd], s', After(t, Run(start, log), cmd, net, refused))
  {
    hide Booms, Run, Step, Safe, BoomShows, FullyRevealed, BoardCheck, BombsCount, Mines, Repaint;
    assert (log + [cmd])[..|log|] == log;
  }

  lemma ShownMirrors(g: Grid, cmd: Command, net: Network, refused: bool, s: Screen, s': Screen, t: Trust)
    requires Inv(g) && Mirrors(g, s, t) && s.outcome == InPlay && net.command.Delivered?
    requires Shown(g, cmd, net, refused, s, s')
    ensures Mirrors(Step(g, cmd), s', After(t, g, cmd, net, refused))
    ensures s'.outcome == YouBoom <==> Booms(g, cmd)
  {
    hide WellCounted, Flags, Revealed, Booms, Step, Safe, BombsCount, BoomShows, FullyRevealed, BoardCheck, Mines, Repaint, PictureOf;
    if !cmd.Flag? {
      KeepsCounters(g, cmd);
    }
    if t.synced && !Booms(g, cmd) {
      StaysSafe(g, cmd);
      RepaintMirrors(g, cmd);
    }
  }

  lemma ShownEnds(g: Grid, cmd: Command, net: Network, refused: bool, s: Screen, s': Screen, t: Trust)
    requires Inv(g) && Mirrors(g, s, t) && Ends(g, s, t) && s.outcome == InPlay && net.command.Delivered?
    requires Shown(g, cmd, net, refused, s, s')
    ensures Ends(Step(g, cmd), s', After(t, g, cmd, net, refused))
  {
    hide WellCounted, Flags, Revealed, Booms, Step, Safe, BombsCount, BoomShows, FullyRevealed, BoardCheck, Mines, Repaint, PictureOf;
    StepKeeps(g, cmd);
    StepHasCells(g, cmd);
    FullIsChecked(Step(g, cmd));
    if t.synced && !Booms(g, cmd) {
      StaysSafe(g, cmd);
      SafeWins(Step(g, cmd));
    }
  }

  lemma FullIsChecked(g: Grid)
    ensures FullyRevealed(g) ==> BoardCheck(g) == Win || BoardCheck(g) == Lose
  {
  }

  lemma StepHasCells(g: Grid, cmd: Command)
    requires Shaped(g)
    ensures Step(g, cmd).cells != map[] <==> g.cells != map[]
  {
    hide Step;
    assert Step(g, cmd).cells.Keys == g.cells.Keys;
  }

  /** While no mine is revealed, a fully revealed board is a won one. */
  lemma SafeWins(g: Grid)
    requires Inv(g) && Safe(g)
    ensures BoardCheck(g) == Win <==> FullyRevealed(g)
  {
    hide BoardCheck, FullyRevealed;
    WinExactly(g);
  }

  /** A command that was obeyed but whose answer was lost leaves the screen as it is. */
  lemma LostKeepsFaithful(start: Grid, log: seq<Command>, cmd: Command, net: Network, s: Screen, t: Trust)
    requires Fresh(start) && Faithful(start, log, s, t) && s.outcome == InPlay && net.command.AnswerLost?
    ensures Faithful(start, log + [cmd], s, After(t, Run(start, log), cmd, net, false))
    ensures Run(start, log + [cmd]) == Step(Run(start, log), cmd)
  {
    hide WellCounted, Booms, Run, Inv, Step, BoomShows, Safe, FullyRevealed, BoardCheck, BombsCount, Mines, PictureOf;
    RunInvariant(start, log);
    RunSnoc(start, log, cmd);
    if !cmd.Flag? {
      KeepsCounters(Run(start, log), cmd);
    }
  }

  // ----- how a session starts and how it is left -----

  /** A new session: a board with cells is not fully revealed yet, and everything is hidden. */
  lemma StartsFaithful(start: Grid, s: Screen, counted: bool)
    requires Fresh(start) && s.pic.Keys == start.cells.Keys
    requires forall c :: c in s.pic ==> s.pic[c] == UiCell(UiHidden, 0)
    requires counted ==> s.bombsLeft == BombsCount(start) && s.bombsTotal == |Mines(start)|
    requires s.outcome == InPlay
    ensures Faithful(start, [], s, Trust(true, counted, true))
  {
    hide Fresh, FullyRevealed, Safe, BombsCount, Mines;
    FreshShows(start);
    RunLast(start, []);
    assert s.pic == PictureOf(start);
    if start.cells != map[] {
      FreshNotRevealed(start);
    }
  }

  lemma FreshShows(g: Grid)
    requires Fresh(g)
    ensures Safe(g) && Shaped(g) && forall c :: c in g.cells ==> PictureOf(g)[c] == UiCell(UiHidden, 0)
  {
    forall c | c in g.cells
      ensures Shows(g.cells[c]) == UiCell(UiHidden, 0) && !g.cells[c].revealed
    {
    }
  }

  lemma FreshNotRevealed(g: Grid)
    requires Fresh(g) && g.cells != map[]
    ensures !FullyRevealed(g)
  {
    var c :| c in g.cells;
    assert c in Unrevealed(g);
    assert Flags(g) == {};
  }

  lemma QuitFaithful(start: Grid, log: seq<Command>, s: Screen, t: Trust)
    requires Fresh(start) && Faithful(start, log, s, t) && s.outcome == InPlay
    ensures Faithful(start, log, s.(outcome := Abandoned), t)
  {
    hide Fresh, Run, FullyRevealed, BoardCheck, Safe, BombsCount, Mines, PictureOf, Booms;
  }

  // ----- what the three command keys do to the board and to the screen -----

  /** What a faithful screen shows after a command: the server's board, or, exactly when the command
      set off a mine, the board before with the answered cells exploded. */
  lemma SeenAfter(start: Grid, log: seq<Command>, cmd: Command, s: Screen, t: Trust)
    requires Fresh(start) && Faithful(start, log + [cmd], s, t) && t.synced
    ensures var g := Run(start, log);
            && Inv(g) && Run(start, log + [cmd]) == Step(g, cmd)
            && (s.outcome == YouBoom <==> Booms(g, cmd))
            && s.pic == if Booms(g, cmd) then Exploded(PictureOf(g), BoomShows(g, cmd)) else PictureOf(Step(g, cmd))
  {
    hide WellCounted, Run, Step, Booms, BoomShows, Inv, Exploded, PictureOf, Ends, Safe, History;
    RunInvariant(start, log);
    RunSnoc(start, log, cmd);
    BoomedExactly(start, log, cmd, s.outcome == YouBoom);
    var all := log + [cmd];
    assert all[..|log|] == log && all[|log|] == cmd;
  }

  lemma BoomedExactly(start: Grid, log: seq<Command>, cmd: Command, boomed: bool)
    requires Shaped(start) && History(start, log + [cmd], true, boomed)
    ensures boomed <==> Booms(Run(start, log), cmd)
  {
    hide Booms, Run, Shaped;
    var all := log + [cmd];
    assert all[..|log|] == log && all[|log|] == cmd;
  }

  predicate Covered(g: Grid, c: Coord)
  {
    c in g.cells && c !in Revealed(g) && c !in Flags(g)
  }

  /** Whatever the key, reveals and checks leave the flags alone and flags the revealed cells. */
  lemma LeftAlone(g: Grid, cmd: Command)
    requires Inv(g)
    ensures if cmd.Flag? then Revealed(Step(g, cmd)) == Revealed(g) else Flags(Step(g, cmd)) == Flags(g)
  {
    hide WellCounted, Step, Open;
    if cmd.Flag? {
      FlagChanges(g, cmd.x, cmd.y);
    } else {
      StepOpens(g, cmd);
      OpensClosed(g, cmd);
      OpenKeeps(g, Opens(g, cmd));
    }
  }

  lemma ShowsOf(g: Grid, c: Coord)
    requires Inv(g) && c in g.cells
    ensures c in PictureOf(g)
    ensures c in Revealed(g) && c !in Mines(g) ==> PictureOf(g)[c] == UiCell(UiRevealed, |Neighbors(g, c) * Mines(g)|)
    ensures c !in Revealed(g) ==> PictureOf(g)[c] == UiCell(if c in Flags(g) then UiFlagged else UiHidden, 0)
  {
    CountedShown(g, c);
  }

  lemma SameNeighbors(g: Grid, cmd: Command, c: Coord)
    requires Shaped(g)
    ensures Neighbors(Step(g, cmd), c) == Neighbors(g, c) && (c in Step(g, cmd).cells <==> c in g.cells)
  {
    hide Step;
    assert Step(g, cmd).cells.Keys == g.cells.Keys;
  }

  /** Enter on a covered cell: a safe one is shown as revealed with its number of neighbouring mines,
      a mine as exploded. */
  lemma RevealSeen(start: Grid, log: seq<Command>, x: int, y: int, s: Screen, t: Trust)
    requires Fresh(start) && Faithful(start, log + [Reveal(x, y)], s, t) && t.synced
    requires Covered(Run(start, log), Coord(x, y))
    ensures var g, c := Run(start, log), Coord(x, y);
            && c in s.pic && (s.outcome == YouBoom <==> c in Mines(g))
            && (c !in Mines(g) ==> s.pic[c] == UiCell(UiRevealed, |Neighbors(g, c) * Mines(g)|))
            && (c in Mines(g) ==> s.pic[c] == UiCell(UiBoom, 0))
  {
    hide WellCounted, Faithful, Run, Step, Inv, PictureOf, Neighbors, Mines, Revealed, Flags;
    var g, c, cmd := Run(start, log), Coord(x, y), Reveal(x, y);
    SeenAfter(start, log, cmd, s, t);
    OnBoardIsCell(g, x, y);
    StepKeeps(g, cmd);
    ShowsOf(g, c);
    if c !in Mines(g) {
      RevealChanges(g, x, y);
      SameNeighbors(g, cmd, c);
      ShowsOf(Step(g, cmd), c);
    }
  }

  /** Space: a covered cell becomes flagged and is shown so, if a flag is left; a flagged one is
      covered again. */
  lemma FlagSeen(start: Grid, log: seq<Command>, x: int, y: int, s: Screen, t: Trust)
    requires Fresh(start) && Faithful(start, log + [Flag(x, y)], s, t) && t.synced
    requires Coord(x, y) in Run(start, log).cells
    ensures var g, g', c := Run(start, log), Run(start, log + [Flag(x, y)]), Coord(x, y);
            && c in s.pic
            && (Covered(g, c) && |Flags(g)| < |Mines(g)| ==>
                  Flags(g') == Flags(g) + {c} && s.pic[c] == UiCell(UiFlagged, 0))
            && (Covered(g, c) && |Flags(g)| >= |Mines(g)| ==> g' == g && s.pic[c] == UiCell(UiHidden, 0))
            && (c in Flags(g) && c !in Revealed(g) ==>
                  Flags(g') == Flags(g) - {c} && s.pic[c] == UiCell(UiHidden, 0))
  {
    hide WellCounted, Faithful, Run, Step, Inv, PictureOf, Mines, Revealed, Flags;
    var g, c, cmd := Run(start, log), Coord(x, y), Flag(x, y);
    SeenAfter(start, log, cmd, s, t);
    OnBoardIsCell(g, x, y);
    StepKeeps(g, cmd);
    SameNeighbors(g, cmd, c);
    FlagAccepted(g, x, y);
    FlagChanges(g, x, y);
    ShowsOf(Step(g, cmd), c);
  }

  /** The covered neighbours of a check are revealed on the board; on the screen all of them explode if
      one is a mine. */
  ghost predicate ChordShows(g: Grid, covered: set<Coord>, g': Grid, pic: Picture, outcome: Outcome)
  {
    && covered <= Revealed(g') && (outcome == YouBoom <==> covered * Mines(g) != {})
    && forall n :: n in covered ==>
         n in pic && pic[n] == if covered * Mines(g) != {} then UiCell(UiBoom, 0) else UiCell(UiRevealed, |Neighbors(g, n) * Mines(g)|)
  }

  /** Backspace: an unrevealed cell changes neither the board nor the screen; a revealed one with as
      many flags around it as mines opens every covered neighbour. */
  lemma CheckSeen(start: Grid, log: seq<Command>, x: int, y: int, s: Screen, t: Trust)
    requires Fresh(start) && Faithful(start, log + [Check(x, y)], s, t) && t.synced
    ensures var g, g', c := Run(start, log), Run(start, log + [Check(x, y)]), Coord(x, y);
            && (c !in Revealed(g) ==> g' == g && s.pic == PictureOf(g))
            && (c in Revealed(g) && c !in Mines(g) && |Neighbors(g, c) * Flags(g)| == |Neighbors(g, c) * Mines(g)| ==>
                  ChordShows(g, Neighbors(g, c) - Flags(g) - Revealed(g), g', s.pic, s.outcome))
  {
    hide WellCounted, Faithful, Run, Step, Inv, PictureOf, Mines, Revealed, Flags, Neighbors, Booms, Exploded, ChordShows;
    var g, c, cmd := Run(start, log), Coord(x, y), Check(x, y);
    SeenAfter(start, log, cmd, s, t);
    OnBoardIsCell(g, x, y);
    CheckChanges(g, x, y);
    RevealedOnBoard(g, c);
    if c !in Revealed(g) {
      QuietCheck(g, x, y);
    } else if c !in Mines(g) && |Neighbors(g, c) * Flags(g)| == |Neighbors(g, c) * Mines(g)| {
      LoudCheck(g, x, y);
      var covered := Neighbors(g, c) - Flags(g) - Revealed(g);
      forall n | n in covered
        ensures n in s.pic
        ensures s.pic[n] == if covered * Mines(g) != {} then UiCell(UiBoom, 0) else UiCell(UiRevealed, |Neighbors(g, n) * Mines(g)|)
      {
        ChordCellShows(g, x, y, n);
        if n in Mines(g) {
          assert n in covered * Mines(g);
        }
      }
      ChordIsShown(g, covered, Step(g, cmd), s);
    }
  }

  lemma ChordIsShown(g: Grid, covered: set<Coord>, g': Grid, s: Screen)
    requires covered <= Revealed(g') && (s.outcome == YouBoom <==> covered * Mines(g) != {})
    requires forall n :: n in covered ==>
               n in s.pic && s.pic[n] == if covered * Mines(g) != {} then UiCell(UiBoom, 0) else UiCell(UiRevealed, |Neighbors(g, n) * Mines(g)|)
    ensures ChordShows(g, covered, g', s.pic, s.outcome)
  {
  }

  ghost predicate Chordable(g: Grid, c: Coord)
  {
    c in g.cells && c in Revealed(g) && c !in Mines(g) && |Neighbors(g, c) * Flags(g)| == |Neighbors(g, c) * Mines(g)|
  }

  /** An accepted check booms exactly for a covered mine beside its cell. */
  lemma LoudCheck(g: Grid, x: int, y: int)
    requires Inv(g) && Chordable(g, Coord(x, y))
    ensures var c := Coord(x, y);
            Booms(g, Check(x, y)) <==> (Neighbors(g, c) - Flags(g) - Revealed(g)) * Mines(g) != {}
  {
    hide WellCounted, Neighbors;
    var c := Coord(x, y);
    OnBoardIsCell(g, x, y);
    CountedShown(g, c);
    var hidden := (Neighbors(g, c) - Flags(g) - Revealed(g)) * Mines(g);
    assert CheckRefusal(g, CoordAt(g, x, y)) == [];
    if hidden != {} {
      var m :| m in hidden;
      assert HiddenMine(g, m);
    }
    if m :| m in Neighbors(g, c) && HiddenMine(g, m) {
      assert m in hidden;
    }
  }

  lemma ChordCellShows(g: Grid, x: int, y: int, n: Coord)
    requires Inv(g) && Chordable(g, Coord(x, y)) && n in Neighbors(g, Coord(x, y)) - Flags(g) - Revealed(g)
    ensures n in g.cells && n in PictureOf(Step(g, Check(x, y)))
    ensures n in PictureOf(g) && n in Exploded(PictureOf(g), BoomShows(g, Check(x, y)))
    ensures Exploded(PictureOf(g), BoomShows(g, Check(x, y)))[n] == UiCell(UiBoom, 0)
    ensures n !in Mines(g) ==> PictureOf(Step(g, Check(x, y)))[n] == UiCell(UiRevealed, |Neighbors(g, n) * Mines(g)|)
  {
    hide WellCounted, Step, PictureOf, Neighbors, ChordOpens;
    var cmd := Check(x, y);
    OnBoardIsCell(g, x, y);
    SeedOpens(g, Coord(x, y), n);
    StepKeeps(g, cmd);
    CheckChanges(g, x, y);
    NeighborInside(g, Coord(x, y), n);
    SameNeighbors(g, cmd, n);
    ShowsOf(g, n);
    ShowsOf(Step(g, cmd), n);
  }

  lemma NeighborInside(g: Grid, c: Coord, n: Coord)
    requires n in Neighbors(g, c)
    ensures n in g.cells
  {
  }

  lemma RevealedOnBoard(g: Grid, c: Coord)
    ensures c in Revealed(g) ==> c in g.cells
  {
  }

  lemma QuietCheck(g: Grid, x: int, y: int)
    requires Shaped(g) && Coord(x, y) !in Revealed(g)
    ensures !Booms(g, Check(x, y))
  {
  }
}
