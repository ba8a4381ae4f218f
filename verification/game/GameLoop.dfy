// run_game: the client's loop over keys, next to the server board it plays on.
module GameLoop {
  import opened Grids
  import opened Rules
  import opened Runs
  import opened BoardLaws
  import opened Boards
  import opened Handlers
  import opened UiBoards
  import opened Screens

  datatype Key = Up | Down | Left | Right | Enter | Backspace | Space | Quit | OtherKey

  /** The command a key sends for the cell under the cursor, if it sends one. */
  function CommandOf(key: Key, x: int, y: int): (cmds: seq<Command>)
    ensures |cmds| <= 1
  {
    match key
    case Enter => [Reveal(x, y)]
    case Backspace => [Check(x, y)]
    case Space => [Flag(x, y)]
    case _ => []
  }

  /** The command that the server obeys. */
  function ObeyedOf(key: Key, net: Network, x: int, y: int): (cmds: seq<Command>)
  {
    if net.command.Dropped? then [] else CommandOf(key, x, y)
  }

  /** Where a key moves the cursor on a board of the given size. */
  function Moved(key: Key, x: int, y: int, w: nat, h: nat): (int, int)
  {
    match key
    case Up => (x, if y > 1 then y - 1 else y)
    case Down => (x, if y < h then y + 1 else y)
    case Left => (if x > 1 then x - 1 else x, y)
    case Right => (if x < w then x + 1 else x, y)
    case _ => (x, y)
  }

  datatype Pressed = Pressed(x: int, y: int, cmds: seq<Command>)

  /** The cursor after some keys, and the commands obeyed on the way. */
  function PressedAll(keys: seq<Key>, nets: seq<Network>, x: int, y: int, w: nat, h: nat): Pressed
    requires |nets| == |keys|
  {
    if keys == [] then Pressed(x, y, [])
    else
      var n := |keys| - 1;
      var p := PressedAll(keys[..n], nets[..n], x, y, w, h);
      var (x', y') := Moved(keys[n], p.x, p.y, w, h);
      Pressed(x', y', p.cmds + ObeyedOf(keys[n], nets[n], p.x, p.y))
  }

  class Game {
    const ui: UiBoard
    const server: Board
    var cursorX: int
    var cursorY: int
    var bombsLeft: int
    var bombsTotal: int
    var outcome: Outcome
    ghost const start: Grid
    ghost var log: seq<Command>
    ghost var trust: Trust

    ghost predicate Sized()
    {
      ui.Valid() && server.Valid() && ui.w == server.w && ui.h == server.h && Fresh(start)
    }

    ghost function OnScreen(): Screen
      requires Sized()
      reads this, ui.cells
    {
      Screen(ui.Picture(), bombsLeft, bombsTotal, outcome)
    }

    ghost predicate Valid()
      reads this, ui.cells, server.data
    {
      && Sized() && server.View() == Run(start, log) && Faithful(start, log, OnScreen(), trust)
      && 1 <= cursorX && 1 <= cursorY && (cursorX > 1 ==> cursorX <= ui.w) && (cursorY > 1 ==> cursorY <= ui.h)
    }

    /** The start of run_game; `total` is what its caller knows, `bombs` whether board_bombs answers. */
    constructor (server: Board, total: int, bombs: bool)
      requires server.Valid() && Fresh(server.View())
      ensures this.server == server && fresh(ui) && fresh(ui.cells) && Valid()
      ensures start == server.View() && log == [] && trust == Trust(true, bombs, true)
      ensures outcome == InPlay && cursorX == 1 && cursorY == 1
    {
      hide Fresh, Faithful, Run, UiBoard.Picture, Board.View;
      this.server := server;
      ui := new UiBoard(server.w, server.h);
      cursorX, cursorY := 1, 1;
      bombsLeft, bombsTotal := total, total;
      outcome := InPlay;
      start := server.View();
      log := [];
      trust := Trust(true, bombs, true);
      new;
      if bombs {
        bombsLeft, bombsTotal := BoardBombs(server);
      }
      StartsFaithful(start, OnScreen(), bombs);
      RunLast(start, []);
    }

    /** check_game_end. */
    method CheckGameEnd(net: Network)
      requires server.Valid() && outcome == InPlay
      modifies this`outcome
      ensures outcome == EndOf(server.View(), net)
    {
      hide Board.View, BoardCheck, FullyRevealed;
      FullIsChecked(server.View());
      if !net.fully {
        return;
      }
      var fully := BoardFullyRevealed(server);
      if !fully {
        return;
      }
      if !net.check {
        return;
      }
      var check := BoardChecked(server);
      if check.CheckRefused? {
        return;
      }
      outcome := if check.Win? then YouWin else YouLose;
    }

    /** What the client does with the answer of a reveal or a check. */
    method ShowAnswer(r: CellsReply, net: Network, ghost g: Grid, ghost cmd: Command)
      requires Sized() && outcome == InPlay && Shaped(g) && Inv(g)
      requires !cmd.Flag? && Answers(g, cmd, r) && server.View() == Step(g, cmd)
      modifies this`outcome, ui.cells
      ensures Shown(g, cmd, net, r.Refused?, old(OnScreen()), OnScreen()) && outcome != Abandoned
    {
      hide UiBoard.Picture, Board.View, Fresh, Inv, Answers, Booms, Opens, Reports, Places, BoomShows, EndOf, Step;
      AnswerReads(g, cmd, r);
      SameCells(g, cmd, server, ui);
      if r.Refused? {
        return;
      }
      if r.boom {
        ui.ShowBoom(r.cells);
        outcome := YouBoom;
      } else {
        ui.ShowRevealed(g, Opens(g, cmd), r.cells);
        CheckGameEnd(net);
        EndIsNoQuit(server.View(), net);
      }
    }

    method SendReveal(net: Network)
      requires Valid() && outcome == InPlay
      modifies this, ui.cells, server.data
      ensures Sent(Reveal(cursorX, cursorY), net)
    {
      hide Fresh, UiBoard.Picture, Board.View, Run, Faithful, Shown, After, Inv, Step, RevealAnswers;
      if net.command.Dropped? {
        return;
      }
      ghost var g, cmd, s := server.View(), Reveal(cursorX, cursorY), OnScreen();
      RunInvariant(start, log);
      var r := CellReveal(server, cursorX, cursorY);
      if net.command.AnswerLost? {
        LostKeepsFaithful(start, log, cmd, net, s, trust);
        trust := After(trust, g, cmd, net, false);
      } else {
        ShowAnswer(r, net, g, cmd);
        ShownKeepsFaithful(start, log, cmd, net, r.Refused?, s, OnScreen(), trust);
        TrustAfter(trust, g, cmd, net, r.Refused?);
        trust := After(trust, g, cmd, net, r.Refused?);
      }
      log := log + [cmd];
    }

    method SendCheck(net: Network)
      requires Valid() && outcome == InPlay
      modifies this, ui.cells, server.data
      ensures Sent(Check(cursorX, cursorY), net)
    {
      hide Fresh, UiBoard.Picture, Board.View, Run, Faithful, Shown, After, Inv, Step, CheckAnswers;
      if net.command.Dropped? {
        return;
      }
      ghost var g, cmd, s := server.View(), Check(cursorX, cursorY), OnScreen();
      RunInvariant(start, log);
      var r := CellCheck(server, cursorX, cursorY);
      if net.command.AnswerLost? {
        LostKeepsFaithful(start, log, cmd, net, s, trust);
        trust := After(trust, g, cmd, net, false);
      } else {
        ShowAnswer(r, net, g, cmd);
        ShownKeepsFaithful(start, log, cmd, net, r.Refused?, s, OnScreen(), trust);
        TrustAfter(trust, g, cmd, net, r.Refused?);
        trust := After(trust, g, cmd, net, r.Refused?);
      }
      log := log + [cmd];
    }

    method MarkCell(flagged: bool)
      requires ui.Valid() && InBounds(ui.w, ui.h, Coord(cursorX, cursorY))
      modifies ui.cells
      ensures Coord(cursorX, cursorY) in old(ui.Picture())
      ensures var c := Coord(cursorX, cursorY);
              ui.Picture() == old(ui.Picture())[c := old(ui.Picture())[c].(state := if flagged then UiFlagged else UiHidden)]
    {
      hide UiBoard.Picture;
      var cell := ui.At(Coord(cursorX, cursorY));
      ui.Put(Coord(cursorX, cursorY), cell.(state := if flagged then UiFlagged else UiHidden));
    }

    method ShowFlag(r: FlagReply, net: Network, ghost g: Grid)
      requires Sized() && outcome == InPlay && Shaped(g)
      requires r == FlagAnswer(g, cursorX, cursorY) && server.View() == Step(g, Flag(cursorX, cursorY))
      modifies this`outcome, this`bombsLeft, this`bombsTotal, ui.cells
      ensures Shown(g, Flag(cursorX, cursorY), net, r.FlagRefused?, old(OnScreen()), OnScreen()) && outcome != Abandoned
    {
      hide PictureOf, Shaped, CoordAt, UiBoard.Picture, Board.View, Fresh, EndOf, BombsCount, Mines, Step, FlagAnswer, Shown;
      ghost var cmd, s := Flag(cursorX, cursorY), OnScreen();
      if r.FlagRefused? {
        FlagRefusedIsShown(g, cursorX, cursorY, net, s);
        return;
      }
      SameSize(g, cmd, server);
      FlagPlace(g, cursorX, cursorY);
      MarkCell(r.flagged);
      assert server.View() == Step(g, cmd);
      if net.bombs {
        bombsLeft, bombsTotal := BoardBombs(server);
      }
      CheckGameEnd(net);
      EndIsNoQuit(Step(g, cmd), net);
      FlagIsShown(g, cursorX, cursorY, net, s, OnScreen());
    }

    method SendFlag(net: Network)
      requires Valid() && outcome == InPlay
      modifies this, ui.cells, server.data
      ensures Sent(Flag(cursorX, cursorY), net)
    {
      hide Fresh, UiBoard.Picture, Board.View, Run, Faithful, Shown, After, Inv, Step, FlagAnswer;
      if net.command.Dropped? {
        return;
      }
      ghost var g, cmd, s := server.View(), Flag(cursorX, cursorY), OnScreen();
      var r := CellFlag(server, cursorX, cursorY);
      if net.command.AnswerLost? {
        LostKeepsFaithful(start, log, cmd, net, s, trust);
        trust := After(trust, g, cmd, net, false);
      } else {
        ShowFlag(r, net, g);
        ShownKeepsFaithful(start, log, cmd, net, r.FlagRefused?, s, OnScreen(), trust);
        TrustAfter(trust, g, cmd, net, r.FlagRefused?);
        trust := After(trust, g, cmd, net, r.FlagRefused?);
      }
      log := log + [cmd];
    }

    /** The key sent one command, and the screen is what the answer, if it came, makes of it. */
    twostate predicate Sent(cmd: Command, net: Network)
      reads this, ui.cells, server.data
    {
      && Valid() && log == old(log) + (if net.command.Dropped? then [] else [cmd])
      && cursorX == old(cursorX) && cursorY == old(cursorY) && outcome != Abandoned
      && Trusts(net)
    }

    /** Only a lost answer ends synchrony, and only a fault of some kind costs any trust. */
    twostate predicate Trusts(net: Network)
      reads this
    {
      && (!net.command.AnswerLost? ==> trust.synced == old(trust.synced))
      && (net == FAULTLESS && old(trust) == FULL_TRUST ==> trust == FULL_TRUST)
    }

    /** What a key does to the server's board and, when its command is answered on a synchronous screen,
        to the picture. */
    twostate predicate Does(key: Key, net: Network)
      requires Sized()
      reads this, ui.cells, server.data
    {
      var g, g', c := old(server.View()), server.View(), Coord(cursorX, cursorY);
      var pic, pic', seen := old(ui.Picture()), ui.Picture(), net.command.Delivered? && old(trust.synced);
      && (key != Enter && key != Space && key != Backspace ==> g' == g && pic' == pic)
      && (key != Space ==> Flags(g') == Flags(g))
      && (key == Space ==> Revealed(g') == Revealed(g))
      && (key == Enter && seen ==> EnterDoes(g, c, pic', outcome))
      && (key == Space && seen ==> SpaceDoes(g, c, g', pic'))
      && (key == Backspace && seen ==> BackspaceDoes(g, c, g', pic, pic', outcome))
    }

    /** One iteration of the loop. */
    method PressKey(key: Key, net: Network)
      requires Valid() && outcome == InPlay
      modifies this, ui.cells, server.data
      ensures Valid() && log == old(log) + ObeyedOf(key, net, old(cursorX), old(cursorY)) && Trusts(net)
      ensures (cursorX, cursorY) == Moved(key, old(cursorX), old(cursorY), server.w, server.h)
      ensures outcome == Abandoned <==> key == Quit
      ensures cursorX == old(cursorX) + (if key == Left && old(cursorX) > 1 then -1
                                         else if key == Right && old(cursorX) < server.w then 1 else 0)
      ensures cursorY == old(cursorY) + (if key == Up && old(cursorY) > 1 then -1
                                         else if key == Down && old(cursorY) < server.h then 1 else 0)
      ensures Does(key, net)
    {
      hide Faithful, Run, Fresh, Board.View, UiBoard.Picture, EnterDoes, SpaceDoes, BackspaceDoes, Flags, Revealed;
      match key
      case Up =>
        if cursorY > 1 {
          cursorY := cursorY - 1;
        }
      case Down =>
        if cursorY < server.h {
          cursorY := cursorY + 1;
        }
      case Left =>
        if cursorX > 1 {
          cursorX := cursorX - 1;
        }
      case Right =>
        if cursorX < server.w {
          cursorX := cursorX + 1;
        }
      case Enter =>
        SendReveal(net);
        EnterShows(start, old(log), cursorX, cursorY, OnScreen(), trust, net.command.Dropped?);
      case Backspace =>
        SendCheck(net);
        BackspaceShows(start, old(log), cursorX, cursorY, old(OnScreen()), old(trust), OnScreen(), trust, net.command.Dropped?);
      case Space =>
        SendFlag(net);
        SpaceShows(start, old(log), cursorX, cursorY, OnScreen(), trust, net.command.Dropped?);
      case Quit =>
        QuitFaithful(start, log, OnScreen(), trust);
        outcome := Abandoned;
      case OtherKey =>
    }

    /** The loop of run_game, over the keys that getch delivers and the fates of their requests. */
    method Play(keys: seq<Key>, nets: seq<Network>) returns (used: nat)
      requires Valid() && outcome == InPlay && |nets| == |keys|
      modifies this, ui.cells, server.data
      ensures Valid() && used <= |keys| && (outcome == InPlay ==> used == |keys|)
      ensures var p := PressedAll(keys[..used], nets[..used], old(cursorX), old(cursorY), server.w, server.h);
              cursorX == p.x && cursorY == p.y && log == old(log) + p.cmds
      ensures (forall k :: 0 <= k < used ==> !nets[k].command.AnswerLost?) ==> trust.synced == old(trust.synced)
      ensures (forall k :: 0 <= k < used ==> nets[k] == FAULTLESS) && old(trust) == FULL_TRUST ==> trust == FULL_TRUST
    {
      hide Faithful, Run, Fresh, Board.View, UiBoard.Picture, ObeyedOf, Moved;
      hide Game.Does;
      used := 0;
      assert keys[..0] == [];
      while used < |keys| && outcome == InPlay
        invariant used <= |keys| && Valid()
        invariant var p := PressedAll(keys[..used], nets[..used], old(cursorX), old(cursorY), server.w, server.h);
                  cursorX == p.x && cursorY == p.y && log == old(log) + p.cmds
        invariant (forall k :: 0 <= k < used ==> !nets[k].command.AnswerLost?) ==> trust.synced == old(trust.synced)
        invariant (forall k :: 0 <= k < used ==> nets[k] == FAULTLESS) && old(trust) == FULL_TRUST ==> trust == FULL_TRUST
      {
        label Before:
        PressedStep(keys, nets, used, old(cursorX), old(cursorY), server.w, server.h);
        PressKey(keys[used], nets[used]);
        assert Trusts@Before(nets[used]);
        used := used + 1;
      }
    }
  }

  // ----- what the command keys do -----

  /** Enter on a covered cell shows a safe one as revealed with its number of neighbouring mines, and a
      mine as exploded, which ends the game. */
  ghost predicate EnterDoes(g: Grid, c: Coord, pic: Picture, outcome: Outcome)
  {
    c in g.cells && c !in Revealed(g) && c !in Flags(g) ==>
      && c in pic && (outcome == YouBoom <==> c in Mines(g))
      && pic[c] == if c in Mines(g) then UiCell(UiBoom, 0) else UiCell(UiRevealed, |Neighbors(g, c) * Mines(g)|)
  }

  /** Space adds a covered cell to the flags and shows it so, if there are fewer flags than mines; it
      takes the flag off a flagged one. */
  ghost predicate SpaceDoes(g: Grid, c: Coord, g': Grid, pic: Picture)
  {
    c in g.cells && c !in Revealed(g) ==>
      && c in pic
      && (c !in Flags(g) && |Flags(g)| < |Mines(g)| ==> Flags(g') == Flags(g) + {c} && pic[c] == UiCell(UiFlagged, 0))
      && (c !in Flags(g) && |Flags(g)| >= |Mines(g)| ==> g' == g && pic[c] == UiCell(UiHidden, 0))
      && (c in Flags(g) ==> Flags(g') == Flags(g) - {c} && pic[c] == UiCell(UiHidden, 0))
  }

  /** Backspace on an unrevealed cell changes nothing; on a revealed one with as many flags around it as
      mines it reveals every covered neighbour. If there is a mine among those, which ends the game, they
      are shown as exploded, and otherwise as revealed with their numbers of neighbouring mines. */
  ghost predicate BackspaceDoes(g: Grid, c: Coord, g': Grid, pic: Picture, pic': Picture, outcome: Outcome)
  {
    && (c !in Revealed(g) ==> g' == g && pic' == pic)
    && (c in Revealed(g) && c !in Mines(g) && |Neighbors(g, c) * Flags(g)| == |Neighbors(g, c) * Mines(g)| ==>
          ChordShows(g, Neighbors(g, c) - Flags(g) - Revealed(g), g', pic', outcome))
  }

  lemma EnterShows(start: Grid, log: seq<Command>, x: int, y: int, s: Screen, t: Trust, dropped: bool)
    requires Fresh(start)
    requires Faithful(start, log + (if dropped then [] else [Reveal(x, y)]), s, t)
    ensures dropped ==> log + [] == log
    ensures !dropped ==> Flags(Run(start, log + [Reveal(x, y)])) == Flags(Run(start, log))
    ensures !dropped && t.synced ==> EnterDoes(Run(start, log), Coord(x, y), s.pic, s.outcome)
  {
    hide WellCounted, Faithful, Run, Flags, Revealed, Mines, Neighbors, Inv;
    RunInvariant(start, log);
    RunSnoc(start, log, Reveal(x, y));
    LeftAlone(Run(start, log), Reveal(x, y));
    if !dropped && t.synced && Covered(Run(start, log), Coord(x, y)) {
      RevealSeen(start, log, x, y, s, t);
    }
  }

  lemma SpaceShows(start: Grid, log: seq<Command>, x: int, y: int, s: Screen, t: Trust, dropped: bool)
    requires Fresh(start)
    requires Faithful(start, log + (if dropped then [] else [Flag(x, y)]), s, t)
    ensures dropped ==> log + [] == log
    ensures !dropped ==> Revealed(Run(start, log + [Flag(x, y)])) == Revealed(Run(start, log))
    ensures !dropped && t.synced ==>
              SpaceDoes(Run(start, log), Coord(x, y), Run(start, log + [Flag(x, y)]), s.pic)
  {
    hide WellCounted, Faithful, Run, Flags, Revealed, Mines, Inv;
    RunInvariant(start, log);
    RunSnoc(start, log, Flag(x, y));
    LeftAlone(Run(start, log), Flag(x, y));
    if !dropped && t.synced && Coord(x, y) in Run(start, log).cells {
      FlagSeen(start, log, x, y, s, t);
    }
  }

  lemma BackspaceShows(start: Grid, log: seq<Command>, x: int, y: int, s: Screen, t: Trust, s': Screen, t': Trust, dropped: bool)
    requires Fresh(start) && Faithful(start, log, s, t) && s.outcome == InPlay
    requires Faithful(start, log + (if dropped then [] else [Check(x, y)]), s', t')
    ensures dropped ==> log + [] == log
    ensures !dropped ==> Flags(Run(start, log + [Check(x, y)])) == Flags(Run(start, log))
    ensures !dropped && t.synced && t'.synced ==>
              BackspaceDoes(Run(start, log), Coord(x, y), Run(start, log + [Check(x, y)]), s.pic, s'.pic, s'.outcome)
  {
    RunInvariant(start, log);
    if t.synced {
      SyncedPicture(start, log, s, t);
    }
    hide WellCounted, Faithful, Run, Flags, Revealed, Mines, Neighbors, Inv, ChordShows;
    RunSnoc(start, log, Check(x, y));
    LeftAlone(Run(start, log), Check(x, y));
    if !dropped && t'.synced {
      CheckSeen(start, log, x, y, s', t');
    }
  }

  lemma SyncedPicture(start: Grid, log: seq<Command>, s: Screen, t: Trust)
    requires Fresh(start) && Faithful(start, log, s, t) && s.outcome != YouBoom && t.synced
    ensures s.pic == PictureOf(Run(start, log))
  {
    hide WellCounted, Run, History, Ends, BoomShown, PictureOf;
  }

  lemma PressedStep(keys: seq<Key>, nets: seq<Network>, n: nat, x: int, y: int, w: nat, h: nat)
    requires |nets| == |keys| && n < |keys|
    ensures var p := PressedAll(keys[..n], nets[..n], x, y, w, h);
            var (x', y') := Moved(keys[n], p.x, p.y, w, h);
            PressedAll(keys[..n + 1], nets[..n + 1], x, y, w, h)
            == Pressed(x', y', p.cmds + ObeyedOf(keys[n], nets[n], p.x, p.y))
  {
    hide Moved, ObeyedOf;
    assert keys[..n + 1][..n] == keys[..n] && nets[..n + 1][..n] == nets[..n];
  }

  lemma TrustAfter(t: Trust, g: Grid, cmd: Command, net: Network, refused: bool)
    requires Shaped(g)
    ensures var t' := After(t, g, cmd, net, refused);
            && (!net.command.AnswerLost? ==> t'.synced == t.synced)
            && (net == FAULTLESS && t == FULL_TRUST ==> t' == FULL_TRUST)
  {
    KeepsSynced(t, g, cmd, net, refused);
    FaultlessKeepsTrust(g, cmd, refused);
  }

  lemma EndIsNoQuit(g: Grid, net: Network)
    ensures EndOf(g, net) != Abandoned
  {
  }

  lemma FlagIsShown(g: Grid, x: int, y: int, net: Network, s: Screen, s': Screen)
    requires Shaped(g) && FlagAnswer(g, x, y).Flagged? && Coord(x, y) in s.pic
    requires s'.pic == s.pic[Coord(x, y) := s.pic[Coord(x, y)].(state := if FlagAnswer(g, x, y).flagged then UiFlagged else UiHidden)]
    requires var g' := Step(g, Flag(x, y));
             && s'.outcome == EndOf(g', net)
             && (if net.bombs then s'.bombsLeft == BombsCount(g') && s'.bombsTotal == |Mines(g')|
                 else s'.bombsLeft == s.bombsLeft && s'.bombsTotal == s.bombsTotal)
    ensures Shown(g, Flag(x, y), net, false, s, s')
  {
    hide Step, FlagAnswer, BombsCount, Mines, EndOf;
  }

  lemma FlagPlace(g: Grid, x: int, y: int)
    requires Shaped(g) && FlagAnswer(g, x, y).Flagged?
    ensures Coord(x, y) in g.cells && InBounds(g.w, g.h, Coord(x, y))
  {
  }

  lemma FlagRefusedIsShown(g: Grid, x: int, y: int, net: Network, s: Screen)
    requires Shaped(g) && FlagAnswer(g, x, y).FlagRefused?
    ensures Shown(g, Flag(x, y), net, true, s, s)
  {
  }

  lemma SameSize(g: Grid, cmd: Command, server: Board)
    requires server.Valid() && Shaped(g) && server.View() == Step(g, cmd)
    ensures g.w == server.w && g.h == server.h
  {
  }

  lemma SameCells(g: Grid, cmd: Command, server: Board, ui: UiBoard)
    requires server.Valid() && ui.Valid() && ui.w == server.w && ui.h == server.h && Shaped(g) && server.View() == Step(g, cmd)
    ensures g.cells.Keys == Coords(ui.w, ui.h)
    ensures forall c :: c in g.cells <==> InBounds(ui.w, ui.h, c)
  {
  }
}
