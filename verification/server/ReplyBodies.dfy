// What the answers of cell/reveal and cell/check say in literal keys and texts, in terms of the board.
module ReplyBodies {
  import opened ByteOrder
  import opened Parameters
  import opened Format
  import opened Grids
  import opened Rules
  import opened Runs
  import opened BoardLaws
  import opened Replies
  import Screens

  /** One element of "cells": its place and, unless it is the mine a reveal hit, its count and whether
      it is a mine, which the count of -1 says too. */
  ghost predicate CellReads(g: Grid, p: Param, c: Coord)
    requires -0x8000_0000 <= c.x < 0x8000_0000 && -0x8000_0000 <= c.y < 0x8000_0000
  {
    && p.PMap? && Has(p.fields, "x", PI64(c.x)) && Has(p.fields, "y", PI64(c.y))
    && (Ascii("bomb") in p.fields <==> Ascii("count") in p.fields)
    && (Ascii("bomb") !in p.fields ==> c in Mines(g))
    && (Ascii("bomb") in p.fields ==>
          && Has(p.fields, "bomb", PBool(c in Mines(g)))
          && p.fields[Ascii("count")].PI64?
          && p.fields[Ascii("count")].i == if c in Mines(g) then -1 else |Neighbors(g, c) * Mines(g)|)
  }

  lemma Keys()
    ensures X == Ascii("x") && Y == Ascii("y") && COUNT == Ascii("count") && BOMB == Ascii("bomb")
    ensures CELLS == Ascii("cells") && STATUS == Ascii("status") && INFO == Ascii("info")
    ensures BOOM_TEXT == Ascii("boom") && OK_TEXT == Ascii("ok") && ALREADY_REVEALED == Ascii("Already revealed.")
  {
  }

  ghost predicate ListsMine(g: Grid, cells: seq<Report>)
  {
    exists i :: 0 <= i < |cells| && cells[i].at in Mines(g)
  }

  /** An answer says "boom" exactly when it lists a mine, which is a cell without a count or one whose
      count is -1; every other cell has its number of neighbouring mines. */
  lemma BoomListsMine(g: Grid, cmd: Command, r: CellsReply)
    requires Inv(g) && !cmd.Flag? && Screens.Answers(g, cmd, r) && r.Cells?
    ensures r.boom <==> ListsMine(g, r.cells)
    ensures forall i :: 0 <= i < |r.cells| ==> r.cells[i].at in g.cells && ReportReads(g, r.cells[i])
  {
    hide WellCounted, Neighbors, Opened, ChordOpens;
    if r.boom && cmd.Reveal? && r.cells == [Bare(Coord(cmd.x, cmd.y))] {
      assert r.cells[0].at in Mines(g);
    }
    forall i | 0 <= i < |r.cells| && r.cells[i].Counted?
      ensures r.cells[i].at in g.cells && ReportReads(g, r.cells[i])
    {
      CountedShown(g, r.cells[i].at);
    }
    forall c | c in g.cells
      ensures g.cells[c].Shown() < 0 <==> c in Mines(g)
    {
      CountedShown(g, c);
    }
  }

  ghost predicate ReportReads(g: Grid, r: Report)
  {
    if r.Bare? then r.at in Mines(g)
    else r.count == if r.at in Mines(g) then -1 else |Neighbors(g, r.at) * Mines(g)|
  }

  /** The body of an answer. */
  lemma BodyReads(g: Grid, cmd: Command, r: CellsReply)
    requires Inv(g) && !cmd.Flag? && Screens.Answers(g, cmd, r) && r.Cells? && AllTyped(r.cells)
    ensures var body := BodyOf(r.already, r.boom, r.cells);
            && Has(body, "status", PText(Ascii(if ListsMine(g, r.cells) then "boom" else "ok")))
            && (Ascii("info") in body <==> r.already)
            && (r.already ==> Has(body, "info", PText(Ascii("Already revealed."))))
            && Ascii("cells") in body && body[Ascii("cells")].PList? && |body[Ascii("cells")].items| == |r.cells|
            && forall i :: 0 <= i < |r.cells| ==> CellReads(g, body[Ascii("cells")].items[i], r.cells[i].at)
  {
    hide Inv, Screens.Answers, CellOf, CellReads, ReportReads, Ascii, Neighbors, Mines;
    Keys();
    BoomListsMine(g, cmd, r);
    assert |CELLS| == 5 && |STATUS| == 6 && |INFO| == 4;
    forall i | 0 <= i < |r.cells|
      ensures CellReads(g, CellOf(r.cells[i]), r.cells[i].at)
    {
      CellIsRead(g, r.cells[i]);
    }
  }

  lemma CellIsRead(g: Grid, r: Report)
    requires Typed(r) && r.at in g.cells && ReportReads(g, r)
    ensures CellReads(g, CellOf(r), r.at)
  {
    hide Neighbors, Ascii;
    Keys();
    CellFields(r);
    assert |X| == 1 && |Y| == 1 && |COUNT| == 5 && |BOMB| == 4 && X[0] != Y[0];
  }
}
