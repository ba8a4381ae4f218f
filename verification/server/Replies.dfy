// The answers of cell/reveal and cell/check as the parameter maps the handlers build: the size of
// board up to which they always fit the fixed output buffer of the byte boundary, and the size from
// which they may not.
module Replies {
  import opened Wrappers
  import opened ByteOrder
  import opened Parameters
  import opened Grammar
  import opened ByteStream
  import opened EncodedSize
  import opened HandlerBoundary
  import opened Grids
  import opened Rules
  import opened Runs
  import BoardLayout
  import UiBoards
  import Screens

  // Keys and texts of the answers, as bytes.
  const X: bytes := [120]
  const Y: bytes := [121]
  const COUNT: bytes := [99, 111, 117, 110, 116]
  const BOMB: bytes := [98, 111, 109, 98]
  const CELLS: bytes := [99, 101, 108, 108, 115]
  const STATUS: bytes := [115, 116, 97, 116, 117, 115]
  const INFO: bytes := [105, 110, 102, 111]
  const BOOM_TEXT: bytes := [98, 111, 111, 109]
  const OK_TEXT: bytes := [111, 107]
  const ALREADY_REVEALED: bytes :=
    [65, 108, 114, 101, 97, 100, 121, 32, 114, 101, 118, 101, 97, 108, 101, 100, 46]

  const BAD_REQUEST: int32 := 400

  /** The largest number of cells for which the bound below is within 1 MiB. */
  const MAX_CELLS: nat := 32765

  const CELL_ROOM: nat := 32

  // ----- what the handlers build -----

  /** Coordinates are int, and counts are those of a board. */
  predicate Typed(r: Report)
  {
    0 <= r.at.x < 0x8000_0000 && 0 <= r.at.y < 0x8000_0000 && (r.Counted? ==> -1 <= r.count <= 8)
  }

  predicate AllTyped(cells: seq<Report>)
  {
    forall i :: 0 <= i < |cells| ==> Typed(cells[i])
  }

  function CellOf(r: Report): Param
    requires Typed(r)
  {
    match r
    case Bare(at) => PMap(map[X := PI64(at.x), Y := PI64(at.y)])
    case Counted(at, count) =>
      PMap(map[X := PI64(at.x), Y := PI64(at.y), COUNT := PI64(count), BOMB := PBool(count < 0)])
  }

  function CellsOf(cells: seq<Report>): (ps: seq<Param>)
    requires AllTyped(cells)
    ensures |ps| == |cells| && forall i :: 0 <= i < |cells| ==> ps[i] == CellOf(cells[i])
  {
    seq(|cells|, i requires 0 <= i < |cells| => CellOf(cells[i]))
  }

  function BodyOf(already: bool, boom: bool, cells: seq<Report>): Fields
    requires AllTyped(cells)
  {
    var body := map[CELLS := PList(CellsOf(cells)), STATUS := PText(if boom then BOOM_TEXT else OK_TEXT)];
    if already then body[INFO := PText(ALREADY_REVEALED)] else body
  }

  /** The handler's result; `message` is the text that goes with a refusal. */
  function ResultOf(r: CellsReply, message: bytes): HandlerResult
    requires r.Cells? ==> AllTyped(r.cells)
  {
    match r
    case Refused(_) => Failure(HandlerError(BAD_REQUEST, message))
    case Cells(already, boom, cells) => Success(BodyOf(already, boom, cells))
  }

  // ----- sizes -----

  predicate Small(r: Report)
  {
    Typed(r) && r.at.x < 0x1_0000 && r.at.y < 0x1_0000
  }

  predicate AllSmall(cells: seq<Report>)
  {
    forall i :: 0 <= i < |cells| ==> Small(cells[i])
  }

  lemma SmallIsTyped(cells: seq<Report>)
    requires AllSmall(cells)
    ensures AllTyped(cells)
  {
    forall i | 0 <= i < |cells|
      ensures Typed(cells[i])
    {
      assert Small(cells[i]);
    }
  }

  lemma RoomFor(slots: seq<Slot>, i: nat, size: nat)
    requires i < |slots| && size <= slots[i].room
    ensures HasRoom(slots, slots[i].key, size)
  {
  }

  const CELL_SLOTS: seq<Slot> := [Slot(X, 6), Slot(Y, 6), Slot(COUNT, 9), Slot(BOMB, 8)]

  lemma CellSlots()
    ensures Total(CELL_SLOTS) == 29
  {
    assert Total(CELL_SLOTS[3..]) == 8;
    assert Total(CELL_SLOTS[2..]) == 17;
    assert Total(CELL_SLOTS[1..]) == 23;
  }

  lemma CellFields(r: Report)
    requires Typed(r)
    ensures var p := CellOf(r);
            && p.PMap? && p.fields.Keys == (if r.Bare? then {X, Y} else {X, Y, COUNT, BOMB})
            && p.fields[X] == PI64(r.at.x) && p.fields[Y] == PI64(r.at.y)
            && (r.Counted? ==> p.fields[COUNT] == PI64(r.count) && p.fields[BOMB] == PBool(r.count < 0))
  {
    assert |X| == 1 && |Y| == 1 && |COUNT| == 5 && |BOMB| == 4 && X[0] != Y[0];
  }

  lemma CellRoomy(r: Report)
    requires Small(r)
    ensures var fields := CellOf(r).fields; |fields| <= 4 && Roomy(CELL_SLOTS, fields)
  {
    CellFields(r);
    hide CellOf, Enc, EncText, IterationOf, HasRoom;
    var fields := CellOf(r).fields;
    FourKeys(fields, X, Y, COUNT, BOMB);
    forall k, u | k in fields && IterationOf(u, fields[k])
      ensures HasRoom(CELL_SLOTS, k, |EncText(k)| + |Enc(u)|)
    {
      CellEntryRoom(r, k, u);
    }
  }

  lemma CellEntryRoom(r: Report, k: bytes, u: Value)
    requires Small(r) && k in CellOf(r).fields && IterationOf(u, CellOf(r).fields[k])
    ensures HasRoom(CELL_SLOTS, k, |EncText(k)| + |Enc(u)|)
  {
    CellFields(r);
    hide CellOf, Enc, EncText, IterationOf, HasRoom;
    TextSize(k);
    if k == X {
      NumberSize(u, r.at.x);
      RoomFor(CELL_SLOTS, 0, |EncText(k)| + |Enc(u)|);
    } else if k == Y {
      NumberSize(u, r.at.y);
      RoomFor(CELL_SLOTS, 1, |EncText(k)| + |Enc(u)|);
    } else if k == COUNT {
      NumberSize(u, r.count);
      RoomFor(CELL_SLOTS, 2, |EncText(k)| + |Enc(u)|);
    } else {
      BoolSize(u, r.count < 0);
      RoomFor(CELL_SLOTS, 3, |EncText(k)| + |Enc(u)|);
    }
  }

  lemma FourKeys(fields: Fields, a: bytes, b: bytes, c: bytes, d: bytes)
    requires fields.Keys <= {a, b, c, d}
    ensures |fields| <= 4
  {
    SubsetSize(fields.Keys, {a, b, c, d});
    assert |fields| == |fields.Keys|;
  }

  lemma CellSize(v: Value, r: Report)
    requires Small(r) && IterationOf(v, CellOf(r))
    ensures |Enc(v)| <= CELL_ROOM
  {
    hide Enc, IterationOf, Roomy, Total;
    CellRoomy(r);
    CellSlots();
    MapSize(v, CellOf(r).fields, CELL_SLOTS);
  }

  lemma CellsWithin(cells: seq<Report>)
    requires AllTyped(cells) && AllSmall(cells)
    ensures AllWithin(CellsOf(cells), CELL_ROOM)
  {
    hide Enc, IterationOf, CellOf, Small;
    forall i, u | 0 <= i < |cells| && IterationOf(u, CellsOf(cells)[i])
      ensures |Enc(u)| <= CELL_ROOM
    {
      CellSize(u, cells[i]);
    }
  }

  function BodySlots(n: nat): seq<Slot>
  {
    [Slot(CELLS, 11 + CELL_ROOM * n), Slot(STATUS, 14), Slot(INFO, 25)]
  }

  lemma BodySlotsTotal(n: nat)
    ensures Total(BodySlots(n)) == 50 + CELL_ROOM * n
  {
    assert Total(BodySlots(n)[2..]) == 25;
    assert Total(BodySlots(n)[1..]) == 39;
  }

  lemma BodyRoomy(already: bool, boom: bool, cells: seq<Report>)
    requires AllTyped(cells) && AllSmall(cells) && |cells| < 0x1_0000
    ensures var body := BodyOf(already, boom, cells); |body| <= 4 && Roomy(BodySlots(|cells|), body)
  {
    var body := BodyOf(already, boom, cells);
    var slots := BodySlots(|cells|);
    assert |CELLS| == 5 && |STATUS| == 6 && |INFO| == 4 && |ALREADY_REVEALED| == 17;
    FourKeys(body, CELLS, STATUS, INFO, INFO);
    CellsWithin(cells);
    hide Enc, EncText, IterationOf, HasRoom, AllWithin, AllSmall;
    forall k, u | k in body && IterationOf(u, body[k])
      ensures HasRoom(slots, k, |EncText(k)| + |Enc(u)|)
    {
      TextSize(k);
      if k == CELLS {
        ListSize(u, CellsOf(cells), CELL_ROOM);
        RoomFor(slots, 0, |EncText(k)| + |Enc(u)|);
      } else if k == STATUS {
        TextValueSize(u, if boom then BOOM_TEXT else OK_TEXT);
        RoomFor(slots, 1, |EncText(k)| + |Enc(u)|);
      } else {
        TextValueSize(u, ALREADY_REVEALED);
        RoomFor(slots, 2, |EncText(k)| + |Enc(u)|);
      }
    }
  }

  lemma BodySize(v: Value, already: bool, boom: bool, cells: seq<Report>)
    requires AllTyped(cells) && AllSmall(cells) && |cells| < 0x1_0000 && IterationOf(v, PMap(BodyOf(already, boom, cells)))
    ensures |Enc(v)| <= 53 + CELL_ROOM * |cells|
  {
    hide Enc, IterationOf, Roomy, Total, BodyOf, BodySlots, AllSmall;
    BodyRoomy(already, boom, cells);
    BodySlotsTotal(|cells|);
    MapSize(v, BodyOf(already, boom, cells), BodySlots(|cells|));
  }

  function WireSlots(room: nat): seq<Slot>
  {
    [Slot(OK, 6), Slot(BODY, 6 + room)]
  }

  ghost predicate BodyWithin(body: Fields, room: nat)
  {
    forall u :: IterationOf(u, PMap(body)) ==> |Enc(u)| <= room
  }

  lemma WireRoomy(body: Fields, room: nat)
    requires BodyWithin(body, room)
    ensures var fields := ToWire(Success(body)).fields; |fields| <= 4 && Roomy(WireSlots(room), fields)
  {
    var slots, fields := WireSlots(room), ToWire(Success(body)).fields;
    assert |OK| == 2 && |BODY| == 4;
    assert fields.Keys == {OK, BODY} && fields[OK] == PBool(true) && fields[BODY] == PMap(body);
    hide Enc, EncText, IterationOf, HasRoom, ToWire;
    FourKeys(fields, OK, BODY, BODY, BODY);
    forall k, u | k in fields && IterationOf(u, fields[k])
      ensures HasRoom(slots, k, |EncText(k)| + |Enc(u)|)
    {
      TextSize(k);
      if k == OK {
        BoolSize(u, true);
        RoomFor(slots, 0, |EncText(k)| + |Enc(u)|);
      } else {
        RoomFor(slots, 1, |EncText(k)| + |Enc(u)|);
      }
    }
  }

  /** The envelope of an answer. */
  lemma AnswerSize(v: Value, already: bool, boom: bool, cells: seq<Report>)
    requires AllTyped(cells) && AllSmall(cells) && |cells| < 0x1_0000
    requires IterationOf(v, ToWire(Success(BodyOf(already, boom, cells))))
    ensures |Frame(v)| <= 81 + CELL_ROOM * |cells|
  {
    hide Enc, IterationOf, BodyOf, AllSmall, Total, Roomy, WireSlots;
    var body, room := BodyOf(already, boom, cells), 53 + CELL_ROOM * |cells|;
    forall u | IterationOf(u, PMap(body))
      ensures |Enc(u)| <= room
    {
      BodySize(u, already, boom, cells);
    }
    WireRoomy(body, room);
    MapSize(v, ToWire(Success(body)).fields, WireSlots(room));
    WireSlotsTotal(room);
  }

  lemma WireSlotsTotal(room: nat)
    ensures Total(WireSlots(room)) == 12 + room
  {
    assert Total(WireSlots(room)[1..]) == 6 + room;
  }

  function ErrorSlots(room: nat): seq<Slot>
  {
    [Slot(OK, 6), Slot(HTTP_CODE, 14), Slot(MESSAGE, 9 + room)]
  }

  lemma RefusalSize(v: Value, message: bytes)
    requires |message| < 0x1_0000 && IterationOf(v, ToWire(Failure(HandlerError(BAD_REQUEST, message))))
    ensures |Frame(v)| <= 48 + |message|
  {
    var slots := ErrorSlots(3 + |message|);
    var fields := map[OK := PBool(false), HTTP_CODE := PI64(BAD_REQUEST), MESSAGE := PText(message)];
    hide Enc, EncText, IterationOf, HasRoom, Total;
    assert |OK| == 2 && |HTTP_CODE| == 9 && |MESSAGE| == 7;
    FourKeys(fields, OK, HTTP_CODE, MESSAGE, MESSAGE);
    forall k, u | k in fields && IterationOf(u, fields[k])
      ensures HasRoom(slots, k, |EncText(k)| + |Enc(u)|)
    {
      TextSize(k);
      if k == OK {
        BoolSize(u, false);
        RoomFor(slots, 0, |EncText(k)| + |Enc(u)|);
      } else if k == HTTP_CODE {
        NumberSize(u, BAD_REQUEST);
        RoomFor(slots, 1, |EncText(k)| + |Enc(u)|);
      } else {
        TextValueSize(u, message);
        RoomFor(slots, 2, |EncText(k)| + |Enc(u)|);
      }
    }
    MapSize(v, fields, slots);
    ErrorSlotsTotal(3 + |message|);
  }

  lemma ErrorSlotsTotal(room: nat)
    ensures Total(ErrorSlots(room)) == 29 + room
  {
    assert Total(ErrorSlots(room)[2..]) == 9 + room;
    assert Total(ErrorSlots(room)[1..]) == 23 + room;
  }

  // ----- what the game can answer -----

  lemma CellsOnBoard(g: Grid)
    requires Shaped(g)
    ensures |g.cells| == g.w * g.h
  {
    var s := seq(g.w * g.h, _ => Cell(false, false, false, 0));
    var all := (c: Cell) => true;
    BoardLayout.CountIfGrid(g.w, g.h, s, all);
    CountAll(s);
    assert BoardLayout.Where(BoardLayout.GridOf(g.w, g.h, s), all) == g.cells.Keys;
  }

  lemma {:induction false} CountAll(s: seq<Cell>)
    ensures BoardLayout.CountIf(s, (c: Cell) => true) == |s|
  {
    if s != [] {
      CountAll(s[..|s| - 1]);
    }
  }

  lemma {:induction false} DistinctPlaces(cells: seq<Report>)
    requires forall i, j :: 0 <= i < j < |cells| ==> cells[i].at != cells[j].at
    ensures |UiBoards.Places(cells)| == |cells|
  {
    if cells == [] {
      assert UiBoards.Places(cells) == {};
    } else {
      var n := |cells| - 1;
      DistinctPlaces(cells[..n]);
      UiBoards.PlacesSnoc(cells, n);
      assert cells[..n + 1] == cells;
      assert cells[n].at !in UiBoards.Places(cells[..n]);
    }
  }

  /** At most eight cells are adjacent to one. */
  lemma EightNeighbors(g: Grid, c: Coord)
    ensures |Neighbors(g, c)| <= 8
  {
    var around := [
      Coord(c.x - 1, c.y - 1), Coord(c.x, c.y - 1), Coord(c.x + 1, c.y - 1),
      Coord(c.x - 1, c.y), Coord(c.x + 1, c.y),
      Coord(c.x - 1, c.y + 1), Coord(c.x, c.y + 1), Coord(c.x + 1, c.y + 1)];
    forall n | n in Neighbors(g, c)
      ensures n in around
    {
      assert n == Coord(n.x, n.y) && -1 <= c.x - n.x <= 1 && -1 <= c.y - n.y <= 1;
      InAround(around, c, n);
    }
    SubsetSize(Neighbors(g, c), ElementsOf(around));
    ElementsBound(around);
  }

  lemma InAround(around: seq<Coord>, c: Coord, n: Coord)
    requires Adjacent(c, n)
    requires around == [
      Coord(c.x - 1, c.y - 1), Coord(c.x, c.y - 1), Coord(c.x + 1, c.y - 1),
      Coord(c.x - 1, c.y), Coord(c.x + 1, c.y),
      Coord(c.x - 1, c.y + 1), Coord(c.x, c.y + 1), Coord(c.x + 1, c.y + 1)]
    ensures n in around
  {
    var i := (n.y - c.y + 1) * 3 + (n.x - c.x + 1);
    var k := if i < 4 then i else i - 1;
    assert around[k] == n;
  }

  function ElementsOf(s: seq<Coord>): set<Coord>
  {
    set c | c in s
  }

  lemma {:induction false} ElementsBound(s: seq<Coord>)
    ensures |ElementsOf(s)| <= |s|
  {
    if s == [] {
      assert ElementsOf(s) == {};
    } else {
      ElementsBound(s[1..]);
      assert ElementsOf(s) == {s[0]} + ElementsOf(s[1..]);
    }
  }

  lemma ShownBound(g: Grid, c: Coord)
    requires WellCounted(g) && c in g.cells
    ensures -1 <= g.cells[c].Shown() <= 8
  {
    EightNeighbors(g, c);
    SubsetSize(Neighbors(g, c) * Mines(g), Neighbors(g, c));
  }

  lemma SideBelowArea(w: nat, h: nat, c: Coord)
    requires InBounds(w, h, c)
    ensures c.x <= w * h && c.y <= w * h
  {
    assert w * h >= w && w * h >= h by {
      ProductAtLeast(w, h);
      ProductAtLeast(h, w);
    }
  }

  lemma SmallAt(g: Grid, c: Coord)
    requires Shaped(g) && g.w * g.h <= MAX_CELLS && c in g.cells
    ensures 0 <= c.x < 0x1_0000 && 0 <= c.y < 0x1_0000
  {
    SideBelowArea(g.w, g.h, c);
  }

  /** A list of opened cells is no longer than the board, and all its numbers are small. */
  lemma ReportsSmall(g: Grid, s: set<Coord>, cells: seq<Report>)
    requires Inv(g) && g.w * g.h <= MAX_CELLS && Reports(g, s, cells)
    ensures AllTyped(cells) && AllSmall(cells) && |cells| <= g.w * g.h
  {
    hide WellCounted, Shaped;
    forall i | 0 <= i < |cells|
      ensures Small(cells[i]) && cells[i].at in g.cells
    {
      assert ReportOf(g, cells[i]);
      SmallAt(g, cells[i].at);
      ShownBound(g, cells[i].at);
    }
    DistinctPlaces(cells);
    CellsOnBoard(g);
    SubsetSize(UiBoards.Places(cells), g.cells.Keys);
  }

  lemma AnswerSmall(g: Grid, cmd: Command, r: CellsReply)
    requires Inv(g) && g.w * g.h <= MAX_CELLS && !cmd.Flag? && Screens.Answers(g, cmd, r) && r.Cells?
    ensures AllTyped(r.cells) && AllSmall(r.cells) && |r.cells| <= MAX_CELLS
  {
    hide WellCounted, Reports, Opened, ChordOpens, Neighbors;
    var c := CoordAt(g, cmd.x, cmd.y);
    if cmd.Check? {
      ReportsSmall(g, ChordOpens(g, c), r.cells);
    } else if g.cells[c].boom {
      SmallAt(g, c);
    } else {
      ReportsSmall(g, Opened(g, c), r.cells);
    }
  }

  /** On a board of up to 32765 cells every answer of a reveal or a check fits the 1 MiB output
      buffer, in whichever order its maps are iterated. */
  lemma AnswerFits(g: Grid, cmd: Command, r: CellsReply, message: bytes, v: Value)
    requires Inv(g) && g.w * g.h <= MAX_CELLS && !cmd.Flag? && Screens.Answers(g, cmd, r)
    requires |message| < 0x1_0000
    ensures r.Cells? ==> AllTyped(r.cells)
    ensures IterationOf(v, ToWire(ResultOf(r, message))) ==> |Frame(v)| <= OUTPUT_CAPACITY
  {
    hide Inv, Screens.Answers, Frame, IterationOf, ToWire, BodyOf, AllSmall;
    if r.Cells? {
      AnswerSmall(g, cmd, r);
      if IterationOf(v, ToWire(ResultOf(r, message))) {
        AnswerSize(v, r.already, r.boom, r.cells);
      }
    } else if IterationOf(v, ToWire(ResultOf(r, message))) {
      RefusalSize(v, message);
    }
  }

  // ----- and arrives as it was -----

  lemma CellNorm(r: Report)
    requires Typed(r)
    ensures NormParam(CellOf(r)) == CellOf(r)
  {
    var fields := CellOf(r).fields;
    forall k | k in fields
      ensures NormParam(fields[k]) == fields[k]
    {
    }
    assert NormParam(CellOf(r)).fields == fields;
  }

  lemma ListNorm(cells: seq<Report>)
    requires AllTyped(cells)
    ensures NormParam(PList(CellsOf(cells))) == PList(CellsOf(cells))
  {
    hide CellOf;
    forall i | 0 <= i < |cells|
      ensures NormParam(CellsOf(cells)[i]) == CellsOf(cells)[i]
    {
      CellNorm(cells[i]);
    }
    assert NormParam(PList(CellsOf(cells))).items == CellsOf(cells);
  }

  lemma ResultNorm(r: CellsReply, message: bytes)
    requires r.Cells? ==> AllTyped(r.cells)
    ensures NormResult(ResultOf(r, message)) == ResultOf(r, message)
  {
    if r.Cells? {
      var body := BodyOf(r.already, r.boom, r.cells);
      ListNorm(r.cells);
      hide CellsOf, AllTyped;
      forall k | k in body
        ensures NormParam(body[k]) == body[k]
      {
      }
      assert NormFields(body) == body;
    }
  }

  /** What dispatch() reads back of what the handler stored is the very answer: on such boards the
      500 result for an output that does not fit never replaces it. */
  lemma AnswerArrives(g: Grid, cmd: Command, r: CellsReply, message: bytes, order: Param -> Value)
    requires Inv(g) && g.w * g.h <= MAX_CELLS && !cmd.Flag? && Screens.Answers(g, cmd, r)
    requires |message| < 0x1_0000
    ensures r.Cells? ==> AllTyped(r.cells)
    ensures var result := ResultOf(r, message);
            OrdersResult(order, result) ==> Unwrap(EncodeResult(order, result, OUTPUT_CAPACITY)) == result
  {
    hide Inv, Screens.Answers, Frame, IterationOf, ToWire, ResultOf, AllSmall, Unwrap, EncodeResult, NormResult;
    AnswerFits(g, cmd, r, message, Value.Text([]));
    var result := ResultOf(r, message);
    if OrdersResult(order, result) {
      AnswerFits(g, cmd, r, message, order(ToWire(result)));
      UnwrapEncoded(order, result, OUTPUT_CAPACITY);
      ResultNorm(r, message);
    }
  }

  // ----- a board whose first reveal does not fit -----

  /** The least number of cells for which a list of all of them is certain not to fit. */
  const OVERFLOW_CELLS: nat := 34951

  const CELL_LEAST: nat := 30

  const CELL_FILL: seq<Slot> := [Slot(X, 5), Slot(Y, 5), Slot(COUNT, 9), Slot(BOMB, 8)]

  lemma CellFill()
    ensures Total(CELL_FILL) == 27 && DistinctSlots(CELL_FILL)
  {
    assert Total(CELL_FILL[3..]) == 8;
    assert Total(CELL_FILL[2..]) == 17;
    assert Total(CELL_FILL[1..]) == 22;
    assert |X| == 1 && |Y| == 1 && |COUNT| == 5 && |BOMB| == 4 && X[0] != Y[0];
  }

  lemma KeySize(k: bytes)
    ensures |EncText(k)| >= 2 + |k|
  {
    hide Width;
  }

  lemma CellFilling(r: Report)
    requires Typed(r) && r.Counted?
    ensures Filling(CELL_FILL, CellOf(r).fields)
  {
    CellFields(r);
    hide CellOf, Enc, EncText, IterationOf;
    var fields := CellOf(r).fields;
    forall i, u | 0 <= i < |CELL_FILL| && CELL_FILL[i].key in fields && IterationOf(u, fields[CELL_FILL[i].key])
      ensures CELL_FILL[i].room <= |EncText(CELL_FILL[i].key)| + |Enc(u)|
    {
      KeySize(CELL_FILL[i].key);
      ScalarAtLeast(u, fields[CELL_FILL[i].key]);
    }
  }

  lemma CellAtLeast(v: Value, r: Report)
    requires Typed(r) && r.Counted? && IterationOf(v, CellOf(r))
    ensures |Enc(v)| >= CELL_LEAST
  {
    hide Enc, IterationOf, Filling, Total, DistinctSlots;
    CellFill();
    CellFilling(r);
    MapAtLeast(v, CellOf(r).fields, CELL_FILL);
  }

  predicate AllCounted(cells: seq<Report>)
  {
    forall i :: 0 <= i < |cells| ==> cells[i].Counted?
  }

  function BodyFill(n: nat): seq<Slot>
  {
    [Slot(CELLS, 10 + CELL_LEAST * n), Slot(STATUS, 12)]
  }

  lemma BodyFillTotal(n: nat)
    ensures Total(BodyFill(n)) == 22 + CELL_LEAST * n && DistinctSlots(BodyFill(n))
  {
    assert Total(BodyFill(n)[1..]) == 12;
    assert |CELLS| == 5 && |STATUS| == 6;
  }

  lemma CellsAtLeast(cells: seq<Report>)
    requires AllTyped(cells) && AllCounted(cells)
    ensures AllAtLeast(CellsOf(cells), CELL_LEAST)
  {
    hide Enc, IterationOf, CellOf, Typed;
    forall i, u | 0 <= i < |cells| && IterationOf(u, CellsOf(cells)[i])
      ensures CELL_LEAST <= |Enc(u)|
    {
      CellAtLeast(u, cells[i]);
    }
  }

  lemma BodyAtLeast(v: Value, already: bool, boom: bool, cells: seq<Report>)
    requires AllTyped(cells) && AllCounted(cells) && IterationOf(v, PMap(BodyOf(already, boom, cells)))
    ensures |Enc(v)| >= 25 + CELL_LEAST * |cells|
  {
    var body, slots := BodyOf(already, boom, cells), BodyFill(|cells|);
    assert |CELLS| == 5 && |STATUS| == 6 && |INFO| == 4;
    CellsAtLeast(cells);
    BodyFillTotal(|cells|);
    hide Enc, EncText, IterationOf, AllAtLeast, AllTyped, AllCounted, Total;
    forall i, u | 0 <= i < |slots| && slots[i].key in body && IterationOf(u, body[slots[i].key])
      ensures slots[i].room <= |EncText(slots[i].key)| + |Enc(u)|
    {
      KeySize(slots[i].key);
      if i == 0 {
        ListAtLeast(u, CellsOf(cells), CELL_LEAST);
      } else {
        ScalarAtLeast(u, body[STATUS]);
      }
    }
    MapAtLeast(v, body, slots);
  }

  function WireFill(room: nat): seq<Slot>
  {
    [Slot(OK, 6), Slot(BODY, 6 + room)]
  }

  lemma WireFillTotal(room: nat)
    ensures Total(WireFill(room)) == 12 + room && DistinctSlots(WireFill(room))
  {
    assert Total(WireFill(room)[1..]) == 6 + room;
    assert |OK| == 2 && |BODY| == 4;
  }

  /** An answer with `n` counted cells takes at least this much. */
  lemma AnswerAtLeast(v: Value, already: bool, boom: bool, cells: seq<Report>)
    requires AllTyped(cells) && AllCounted(cells)
    requires IterationOf(v, ToWire(Success(BodyOf(already, boom, cells))))
    ensures |Frame(v)| >= 53 + CELL_LEAST * |cells|
  {
    var body, room := BodyOf(already, boom, cells), 25 + CELL_LEAST * |cells|;
    var fields, slots := ToWire(Success(body)).fields, WireFill(room);
    assert |OK| == 2 && |BODY| == 4;
    WireFillTotal(room);
    hide Enc, EncText, IterationOf, BodyOf, AllTyped, AllCounted, Total;
    forall i, u | 0 <= i < |slots| && slots[i].key in fields && IterationOf(u, fields[slots[i].key])
      ensures slots[i].room <= |EncText(slots[i].key)| + |Enc(u)|
    {
      KeySize(slots[i].key);
      if i == 0 {
        ScalarAtLeast(u, fields[OK]);
      } else {
        BodyAtLeast(u, already, boom, cells);
      }
    }
    MapAtLeast(v, fields, slots);
  }

  function Distance(c: Coord, d: Coord): nat
  {
    (if c.x < d.x then d.x - c.x else c.x - d.x) + (if c.y < d.y then d.y - c.y else c.y - d.y)
  }

  /** One step from `c` towards another coordinate. */
  function Towards(c: Coord, seed: Coord): Coord
  {
    if c.x != seed.x then Coord(if c.x < seed.x then c.x + 1 else c.x - 1, c.y)
    else if c.y != seed.y then Coord(c.x, if c.y < seed.y then c.y + 1 else c.y - 1)
    else c
  }

  lemma MinelessIsZero(g: Grid, c: Coord)
    requires Fresh(g) && Mines(g) == {} && c in g.cells
    ensures g.cells[c].Zero() && g.cells[c].Hidden() && !g.cells[c].boom
  {
    assert c !in Mines(g);
    assert Neighbors(g, c) * Mines(g) == {};
  }

  lemma {:induction false} EverythingReached(g: Grid, seed: Coord, c: Coord)
    requires Fresh(g) && Mines(g) == {} && seed in g.cells && c in g.cells
    ensures c in Reach(g, seed)
    decreases Distance(c, seed)
  {
    hide Reach, Fresh, Mines;
    ReachIsClosed(g, seed);
    if c != seed {
      var d := Towards(c, seed);
      OnBoard(g, c, seed);
      EverythingReached(g, seed, d);
      MinelessIsZero(g, c);
      MinelessIsZero(g, d);
      assert c in Neighbors(g, d);
    }
  }

  lemma OnBoard(g: Grid, c: Coord, seed: Coord)
    requires Fresh(g) && c in g.cells && seed in g.cells && c != seed
    ensures var d := Towards(c, seed); d in g.cells && Distance(d, seed) < Distance(c, seed) && Adjacent(d, c)
  {
    hide WellCounted;
    assert InBounds(g.w, g.h, c) && InBounds(g.w, g.h, seed);
    var d := Towards(c, seed);
    assert d in Coords(g.w, g.h) by {
      assert d == Coord(d.x, d.y);
    }
  }

  lemma ReachesAll(g: Grid, c: Coord)
    requires Fresh(g) && Mines(g) == {} && c in g.cells
    ensures Opened(g, c) == g.cells.Keys && !g.cells[c].boom && !g.cells[c].flag
  {
    hide Fresh, Mines, Reach;
    MinelessIsZero(g, c);
    forall d | d in g.cells
      ensures d in Reach(g, c)
    {
      EverythingReached(g, c, d);
    }
    OpenedIsClosed(g, c);
  }

  lemma SeedOnBoard(g: Grid, x: int, y: int)
    requires Shaped(g) && InBounds(g.w, g.h, Coord(x, y))
    ensures Coord(x, y) == CoordAt(g, x, y) && Coord(x, y) in g.cells
  {
    assert Coord(x, y) in Coords(g.w, g.h);
  }

  lemma FirstRevealOpensAll(g: Grid, x: int, y: int)
    requires Fresh(g) && Mines(g) == {} && InBounds(g.w, g.h, Coord(x, y))
    ensures var c := Coord(x, y); c == CoordAt(g, x, y) && c in g.cells && Opened(g, c) == g.cells.Keys
    ensures !g.cells[Coord(x, y)].boom && !g.cells[Coord(x, y)].flag
    ensures Revealed(Step(g, Reveal(x, y))) == g.cells.Keys
  {
    SeedOnBoard(g, x, y);
    ReachesAll(g, Coord(x, y));
    hide Fresh, Mines, Opened, Open, Revealed, SameLayout, Flags, Unrevealed;
    OpenKeeps(g, g.cells.Keys);
    NothingBeyond(g);
  }

  lemma NothingBeyond(g: Grid)
    ensures Revealed(g) + g.cells.Keys == g.cells.Keys
  {
  }

  /** On a board without mines of at least 34951 cells the first reveal opens every cell, and its
      answer never reaches the host: what dispatch() makes of the output is the 500 result. */
  lemma FirstAnswerLost(g: Grid, x: int, y: int, r: CellsReply, message: bytes, order: Param -> Value)
    requires Fresh(g) && Mines(g) == {} && InBounds(g.w, g.h, Coord(x, y)) && RevealAnswers(g, x, y, r)
    requires g.w < 0x8000_0000 && g.h < 0x8000_0000 && g.w * g.h >= OVERFLOW_CELLS
    ensures r.Cells? && AllTyped(r.cells) && |r.cells| == g.w * g.h
    ensures Revealed(Step(g, Reveal(x, y))) == g.cells.Keys
    ensures OrdersResult(order, ResultOf(r, message)) ==>
              Unwrap(EncodeResult(order, ResultOf(r, message), OUTPUT_CAPACITY)) == Failure(NO_RESPONSE)
  {
    FirstRevealOpensAll(g, x, y);
    AllReported(g, x, y, r);
    hide Fresh, Mines, Opened, Step, RevealAnswers, Frame, Unwrap, EncodeResult, IterationOf, AllTyped, AllCounted, BodyOf;
    if OrdersResult(order, ResultOf(r, message)) {
      AnswerAtLeast(order(ToWire(ResultOf(r, message))), r.already, r.boom, r.cells);
      UnwrapEncoded(order, ResultOf(r, message), OUTPUT_CAPACITY);
    }
  }

  lemma AllReported(g: Grid, x: int, y: int, r: CellsReply)
    requires Fresh(g) && g.w < 0x8000_0000 && g.h < 0x8000_0000 && RevealAnswers(g, x, y, r)
    requires var c := Coord(x, y);
             c == CoordAt(g, x, y) && c in g.cells && Opened(g, c) == g.cells.Keys && !g.cells[c].boom && !g.cells[c].flag
    ensures r.Cells? && AllTyped(r.cells) && AllCounted(r.cells) && |r.cells| == g.w * g.h
  {
    hide Opened, WellCounted;
    assert Reports(g, g.cells.Keys, r.cells);
    forall i | 0 <= i < |r.cells|
      ensures Typed(r.cells[i]) && r.cells[i].Counted?
    {
      assert ReportOf(g, r.cells[i]);
      assert InBounds(g.w, g.h, r.cells[i].at);
      ShownBound(g, r.cells[i].at);
    }
    DistinctPlaces(r.cells);
    UiBoards.ReportedPlaces(g, g.cells.Keys, r.cells);
    CellsOnBoard(g);
  }
}
