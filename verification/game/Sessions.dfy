// plugin_api_t's board and client tables: templates, sessions on clones of them, and requests of
// many clients in any order.
module Sessions {
  import opened Wrappers
  import opened Grids
  import opened Rules
  import opened Runs
  import opened Boards
  import opened Handlers

  /** session/new with its parsed board_id (none: the number drawn by rand), or a command with the
      client id its token carries. */
  datatype Request = NewSession(boardId: nat) | Play(client: nat, cmd: Command)

  datatype Response =
    | Token(client: nat)
    | BoardOutOfRange
    | ClientNotFound
    | CellsResponse(cells: CellsReply)
    | FlagResponse(flag: FlagReply)

  // ----- the tables as values -----

  datatype Session = Session(boardId: nat, log: seq<Command>)

  datatype Table = Table(next: nat, sessions: map<nat, Session>)

  /** One request, on a server with `count` templates. */
  function Served(t: Table, count: nat, q: Request): Table
  {
    match q
    case NewSession(b) =>
      if b == 0 || b > count then t else Table(t.next + 1, t.sessions[t.next := Session(b, [])])
    case Play(id, cmd) =>
      if id !in t.sessions then t
      else t.(sessions := t.sessions[id := t.sessions[id].(log := t.sessions[id].log + [cmd])])
  }

  function ServedAll(t: Table, count: nat, qs: seq<Request>): Table
  {
    if qs == [] then t else Served(ServedAll(t, count, qs[..|qs| - 1]), count, qs[|qs| - 1])
  }

  /** The requests without the commands of every other client. */
  function Only(qs: seq<Request>, id: nat): seq<Request>
  {
    if qs == [] then []
    else
      var front, q := Only(qs[..|qs| - 1], id), qs[|qs| - 1];
      if q.Play? && q.client != id then front else front + [q]
  }

  /** What is left holds no other client's command, still holds all of this client's in their order, and
      is everything if there was no other client's. */
  lemma {:induction false} OnlyIsOwn(qs: seq<Request>, id: nat)
    ensures forall k :: 0 <= k < |Only(qs, id)| ==> Only(qs, id)[k].NewSession? || Only(qs, id)[k].client == id
    ensures CommandsOf(Only(qs, id), id) == CommandsOf(qs, id)
    ensures (forall k :: 0 <= k < |qs| ==> qs[k].NewSession? || qs[k].client == id) ==> Only(qs, id) == qs
  {
    if qs != [] {
      var n := |qs| - 1;
      var front := Only(qs[..n], id);
      OnlyIsOwn(qs[..n], id);
      assert (front + [qs[n]])[..|front|] == front;
      assert qs[..n] + [qs[n]] == qs;
    }
  }

  /** The same next id and, for one client, the same session. */
  predicate AgreeOn(t: Table, u: Table, id: nat)
  {
    && t.next == u.next && (id in t.sessions <==> id in u.sessions)
    && (id in t.sessions ==> t.sessions[id] == u.sessions[id])
  }

  lemma ServedAgree(t: Table, u: Table, count: nat, q: Request, id: nat)
    requires AgreeOn(t, u, id)
    ensures q.NewSession? || q.client == id ==> AgreeOn(Served(t, count, q), Served(u, count, q), id)
    ensures q.Play? && q.client != id ==> AgreeOn(Served(t, count, q), u, id)
  {
  }

  /** Session isolation: for every interleaving, a client's session is what it would have been
      had no other client ever sent a command. */
  lemma {:induction false} Isolation(t: Table, count: nat, qs: seq<Request>, id: nat)
    ensures AgreeOn(ServedAll(t, count, qs), ServedAll(t, count, Only(qs, id)), id)
  {
    hide AgreeOn, Served;
    if qs == [] {
      assert AgreeOn(t, t, id) by {
        ReflexiveAgree(t, id);
      }
    } else {
      var n := |qs| - 1;
      Isolation(t, count, qs[..n], id);
      var front := Only(qs[..n], id);
      ServedAgree(ServedAll(t, count, qs[..n]), ServedAll(t, count, front), count, qs[n], id);
      assert (front + [qs[n]])[..|front|] == front;
    }
  }

  function CommandsOf(qs: seq<Request>, id: nat): seq<Command>
  {
    if qs == [] then []
    else
      var front, q := CommandsOf(qs[..|qs| - 1], id), qs[|qs| - 1];
      if q.Play? && q.client == id then front + [q.cmd] else front
  }

  /** From the moment a client exists, its log grows by exactly the commands it sends. */
  lemma {:induction false} OwnLog(t: Table, count: nat, qs: seq<Request>, id: nat)
    requires id in t.sessions && id < t.next
    ensures var u := ServedAll(t, count, qs);
            && id in u.sessions && id < u.next
            && u.sessions[id] == Session(t.sessions[id].boardId, t.sessions[id].log + CommandsOf(qs, id))
  {
    if qs == [] {
      assert t.sessions[id].log + [] == t.sessions[id].log;
    } else {
      var n := |qs| - 1;
      OwnLog(t, count, qs[..n], id);
      assert t.sessions[id].log + CommandsOf(qs[..n], id) + [] == t.sessions[id].log + CommandsOf(qs[..n], id);
      if qs[n].Play? && qs[n].client == id {
        assert t.sessions[id].log + CommandsOf(qs, id) == t.sessions[id].log + CommandsOf(qs[..n], id) + [qs[n].cmd];
      }
    }
  }

  lemma ReflexiveAgree(t: Table, id: nat)
    ensures AgreeOn(t, t, id)
  {
  }

  // ----- the server -----

  datatype Context = Context(boardId: nat, board: Board)

  /** What a command is answered on a board. */
  ghost predicate Answered(g: Grid, cmd: Command, r: Response)
    requires Shaped(g)
  {
    match cmd
    case Reveal(x, y) => r.CellsResponse? && RevealAnswers(g, x, y, r.cells)
    case Flag(x, y) => r == FlagResponse(FlagAnswer(g, x, y))
    case Check(x, y) => r.CellsResponse? && CheckAnswers(g, x, y, r.cells)
  }

  /** The handler that a command's route names. */
  method Obey(b: Board, cmd: Command) returns (r: Response)
    requires b.Valid()
    modifies b.data
    ensures b.View() == Step(old(b.View()), cmd) && Answered(old(b.View()), cmd, r)
  {
    hide Board.View, Step, RevealAnswers, CheckAnswers, FlagAnswer;
    match cmd
    case Reveal(x, y) =>
      var cells := CellReveal(b, x, y);
      r := CellsResponse(cells);
    case Flag(x, y) =>
      var flag := CellFlag(b, x, y);
      r := FlagResponse(flag);
    case Check(x, y) =>
      var cells := CellCheck(b, x, y);
      r := CellsResponse(cells);
  }

  /** Board ids run from 1 without gaps. */
  ghost predicate Numbered(boards: map<nat, Board>)
  {
    forall b :: b in boards <==> 1 <= b <= |boards|
  }

  lemma NumberedNext(boards: map<nat, Board>, board: Board)
    requires Numbered(boards)
    ensures |boards| + 1 !in boards && Numbered(boards[|boards| + 1 := board])
  {
    assert |boards[|boards| + 1 := board]| == |boards| + 1;
  }

  /** The tables agree on their keys. */
  ghost predicate Indexed(boards: map<nat, Board>, clients: map<nat, Context>, templates: map<nat, Grid>, t: Table)
  {
    && Numbered(boards)
    && templates.Keys == boards.Keys && (forall b :: b in templates ==> Shaped(templates[b]))
    && t.sessions.Keys == clients.Keys
    && (forall i :: i in clients ==>
          i < t.next && clients[i].boardId in boards && t.sessions[i].boardId == clients[i].boardId)
  }

  /** A number for a client that is no board's number. */
  function ClientCode(id: nat): int
  {
    -1 - (id as int)
  }

  /** No two boards of the server share their cells: each vector has one owner, board `b` or client `i`. */
  ghost predicate Separate(boards: map<nat, Board>, clients: map<nat, Context>, owner: map<array<Cell>, int>)
  {
    && (forall b :: b in boards ==> boards[b].data in owner && owner[boards[b].data] == b)
    && (forall i :: i in clients ==> clients[i].board.data in owner && owner[clients[i].board.data] == ClientCode(i))
  }

  ghost predicate Holds(b: Board, g: Grid)
    reads b.data
  {
    b.Valid() && b.View() == g
  }

  lemma HoldsView(b: Board)
    requires b.Valid()
    ensures Holds(b, b.View()) && Shaped(b.View())
  {
  }

  lemma HoldsIs(b: Board, g: Grid)
    requires Holds(b, g)
    ensures b.Valid() && b.View() == g
  {
  }

  ghost predicate Known(templates: map<nat, Grid>, t: Table, id: nat)
  {
    id in t.sessions && t.sessions[id].boardId in templates && Shaped(templates[t.sessions[id].boardId])
  }

  /** A client's template after the client's own commands. */
  ghost function Replay(templates: map<nat, Grid>, t: Table, id: nat): Grid
    requires Known(templates, t, id)
  {
    Run(templates[t.sessions[id].boardId], t.sessions[id].log)
  }

  /** The answer a request gets from a server in state `t`: a command's answer is that of the board
      that the client's own commands have made of its template. */
  ghost predicate Responds(templates: map<nat, Grid>, t: Table, count: nat, q: Request, r: Response)
  {
    match q
    case NewSession(b) => r == if 1 <= b <= count then Token(t.next) else BoardOutOfRange
    case Play(id, cmd) =>
      if id !in t.sessions then r == ClientNotFound
      else Known(templates, t, id) && Answered(Replay(templates, t, id), cmd, r)
  }

  /** For every interleaving, a client's board and the answers it gets are what they would have been
      had no other client ever sent a command. */
  lemma BoardIsolation(templates: map<nat, Grid>, t: Table, count: nat, qs: seq<Request>, id: nat)
    requires Known(templates, ServedAll(t, count, qs), id)
    ensures var all, own := ServedAll(t, count, qs), ServedAll(t, count, Only(qs, id));
            && Known(templates, own, id) && Replay(templates, all, id) == Replay(templates, own, id)
            && forall cmd, r :: Responds(templates, all, count, Play(id, cmd), r)
                           <==> Responds(templates, own, count, Play(id, cmd), r)
  {
    hide Run, Answered, ServedAll, Only;
    Isolation(t, count, qs, id);
  }

  /** Everything the runs of one board promise holds of every client's board. */
  lemma ReplayKeepsInv(templates: map<nat, Grid>, t: Table, id: nat)
    requires Known(templates, t, id) && Fresh(templates[t.sessions[id].boardId])
    ensures Inv(Replay(templates, t, id))
    ensures Mines(Replay(templates, t, id)) == Mines(templates[t.sessions[id].boardId])
  {
    RunInvariant(templates[t.sessions[id].boardId], t.sessions[id].log);
  }

  // ----- how the tables' invariants survive each operation -----

  lemma BoardIndexed(boards: map<nat, Board>, clients: map<nat, Context>, templates: map<nat, Grid>, t: Table,
                     board: Board, g: Grid)
    requires Indexed(boards, clients, templates, t) && Shaped(g)
    ensures var id := |boards| + 1;
            && id !in boards && Indexed(boards[id := board], clients, templates[id := g], t)
            && forall i :: i in clients ==> Replay(templates[id := g], t, i) == Replay(templates, t, i)
  {
    hide Numbered, Shaped, Run;
    NumberedNext(boards, board);
  }

  lemma BoardSeparate(boards: map<nat, Board>, clients: map<nat, Context>, owner: map<array<Cell>, int>, id: nat, board: Board)
    requires Separate(boards, clients, owner) && board.data !in owner && id !in boards
    ensures Separate(boards[id := board], clients, owner[board.data := id])
  {
  }

  lemma ClientIndexed(boards: map<nat, Board>, clients: map<nat, Context>, templates: map<nat, Grid>, t: Table,
                      boardId: nat, board: Board)
    requires Indexed(boards, clients, templates, t) && boardId in boards
    ensures var t' := Table(t.next + 1, t.sessions[t.next := Session(boardId, [])]);
            && t.next !in clients && boardId in templates
            && Indexed(boards, clients[t.next := Context(boardId, board)], templates, t')
            && Replay(templates, t', t.next) == templates[boardId]
            && forall i :: i in clients ==> Replay(templates, t', i) == Replay(templates, t, i)
  {
    RunLast(templates[boardId], []);
    hide Numbered, Shaped, Run;
  }

  lemma ClientSeparate(boards: map<nat, Board>, clients: map<nat, Context>, owner: map<array<Cell>, int>, id: nat, context: Context)
    requires Separate(boards, clients, owner) && context.board.data !in owner && id !in clients
    ensures Separate(boards, clients[id := context], owner[context.board.data := ClientCode(id)])
  {
  }

  lemma IdUsedUp(boards: map<nat, Board>, clients: map<nat, Context>, templates: map<nat, Grid>, t: Table)
    requires Indexed(boards, clients, templates, t)
    ensures var t' := t.(next := t.next + 1);
            && Indexed(boards, clients, templates, t')
            && forall i :: i in clients ==> Replay(templates, t', i) == Replay(templates, t, i)
  {
    hide Numbered, Shaped, Run;
  }

  lemma CommandIndexed(boards: map<nat, Board>, clients: map<nat, Context>, templates: map<nat, Grid>, t: Table,
                       id: nat, cmd: Command)
    requires Indexed(boards, clients, templates, t) && id in clients
    ensures var t' := Served(t, |boards|, Play(id, cmd));
            && t'.next == t.next && Indexed(boards, clients, templates, t')
            && Known(templates, t, id) && Known(templates, t', id)
            && Shaped(Replay(templates, t, id)) && Replay(templates, t', id) == Step(Replay(templates, t, id), cmd)
            && forall i :: i in clients && i != id ==> Replay(templates, t', i) == Replay(templates, t, i)
  {
    RunSnoc(templates[t.sessions[id].boardId], t.sessions[id].log, cmd);
    hide Numbered, Shaped, Run, Step;
  }

  lemma CommandNotFound(boards: map<nat, Board>, clients: map<nat, Context>, templates: map<nat, Grid>, t: Table,
                        id: nat, cmd: Command)
    requires Indexed(boards, clients, templates, t) && id !in clients
    ensures Served(t, |boards|, Play(id, cmd)) == t
  {
  }

  lemma CommandApart(boards: map<nat, Board>, clients: map<nat, Context>, owner: map<array<Cell>, int>, id: nat)
    requires Separate(boards, clients, owner) && id in clients
    ensures clients[id].board.data in owner
    ensures forall b :: b in boards ==> boards[b].data != clients[id].board.data
    ensures forall i :: i in clients && i != id ==> clients[i].board.data != clients[id].board.data
  {
  }

  class Server {
    var boards: map<nat, Board>
    var clients: map<nat, Context>
    var nextClientId: nat
    ghost var table: Table
    ghost var owner: map<array<Cell>, int>
    ghost var templates: map<nat, Grid>

    /** Every template is what it was when it was added, and every client's board is its template
        after the client's own commands. */
    ghost predicate Stored()
      requires Indexed(boards, clients, templates, table) && Separate(boards, clients, owner)
      reads this, owner.Keys
    {
      && (forall b :: b in boards ==> Holds(boards[b], templates[b]))
      && (forall i :: i in clients ==> Holds(clients[i].board, Replay(templates, table, i)))
    }

    ghost predicate Valid()
      reads this, owner.Keys
    {
      && Indexed(boards, clients, templates, table) && table.next == nextClientId
      && Separate(boards, clients, owner) && Stored()
    }

    constructor ()
      ensures Valid() && boards == map[] && clients == map[] && nextClientId == 1
    {
      boards, clients, nextClientId := map[], map[], 1;
      table := Table(1, map[]);
      owner, templates := map[], map[];
    }

    /** add_board: the table takes over the board. */
    method AddBoard(board: Board) returns (id: nat)
      requires Valid() && board.Valid() && board.data !in owner
      modifies this`boards, this`owner, this`templates
      ensures Valid() && id == |old(boards)| + 1 && boards == old(boards)[id := board] && id !in old(boards)
      ensures templates == old(templates)[id := board.View()]
    {
      hide Indexed, Separate, Holds, Replay, Board.View, Board.Valid, Shaped;
      ghost var g := board.View();
      HoldsView(board);
      id := |boards| + 1;
      BoardIndexed(boards, clients, templates, table, board, g);
      BoardSeparate(boards, clients, owner, id, board);
      boards := boards[id := board];
      owner := owner[board.data := id];
      templates := templates[id := g];
    }

    method CloneBoard(boardId: nat) returns (board: Board)
      requires Indexed(boards, clients, templates, table) && Separate(boards, clients, owner) && Stored()
      requires boardId in boards
      ensures fresh(board.data) && boardId in templates && Holds(board, templates[boardId])
    {
      hide Board.View, Numbered, Shaped, Replay;
      assert Holds(boards[boardId], templates[boardId]);
      board := boards[boardId].Clone();
    }

    /** add_new_client: an id is used up even when the board does not exist. */
    method AddNewClient(boardId: nat) returns (r: Option<nat>)
      requires Valid()
      modifies this`clients, this`nextClientId, this`table, this`owner
      ensures Valid() && nextClientId == old(nextClientId) + 1
      ensures r == if boardId in boards then Some(old(nextClientId)) else None
      ensures table == Table(old(table).next + 1,
                             if boardId in boards then old(table).sessions[old(nextClientId) := Session(boardId, [])]
                             else old(table).sessions)
      ensures forall i :: i in old(clients) ==> i in clients && clients[i] == old(clients)[i]
      ensures boardId in boards ==>
                && boardId in templates && old(nextClientId) !in old(clients) && old(nextClientId) in clients
                && Holds(clients[old(nextClientId)].board, templates[boardId])
      ensures fresh(owner.Keys - old(owner.Keys))
    {
      hide Indexed, Separate, Holds, Replay, Board.View, Board.Valid, Shaped;
      var id := nextClientId;
      nextClientId := nextClientId + 1;
      if boardId !in boards {
        IdUsedUp(boards, clients, templates, table);
        table := table.(next := id + 1);
        return None;
      }
      var board := CloneBoard(boardId);
      ClientIndexed(boards, clients, templates, table, boardId, board);
      ClientSeparate(boards, clients, owner, id, Context(boardId, board));
      if id in clients {
        return None;
      }
      clients := clients[id := Context(boardId, board)];
      owner := owner[board.data := ClientCode(id)];
      table := Table(id + 1, table.sessions[id := Session(boardId, [])]);
      r := Some(id);
    }

    /** session_new_handler, after its parameter has been read. */
    method StartSession(boardId: nat) returns (r: Response)
      requires Valid()
      modifies this`clients, this`nextClientId, this`table, this`owner
      ensures Valid() && table == Served(old(table), |boards|, NewSession(boardId))
      ensures r == if 1 <= boardId <= |boards| then Token(old(table).next) else BoardOutOfRange
      ensures 1 <= boardId <= |boards| ==>
                && boardId in templates && old(nextClientId) !in old(clients) && old(nextClientId) in clients
                && Holds(clients[old(nextClientId)].board, templates[boardId])
      ensures forall i :: i in old(clients) ==> i in clients && clients[i] == old(clients)[i]
      ensures fresh(owner.Keys - old(owner.Keys))
    {
      hide Stored, Separate, Holds;
      if boardId == 0 || boardId > |boards| {
        return BoardOutOfRange;
      }
      var id := AddNewClient(boardId);
      r := Token(id.value);
    }

    /** board_for_client and the handler on the board it finds. */
    method PlayCommand(id: nat, cmd: Command) returns (r: Response)
      requires Valid()
      modifies this`table, owner.Keys
      ensures Valid() && table == Served(old(table), |boards|, Play(id, cmd))
      ensures id !in clients ==> r == ClientNotFound
      ensures id in clients ==> Answered(Replay(templates, old(table), id), cmd, r)
      ensures id in clients ==> clients[id].board.Valid() && clients[id].board.View() == Step(old(clients[id].board.View()), cmd)
      ensures forall i :: i in clients && i != id ==> unchanged(clients[i].board.data)
    {
      hide Indexed, Separate, Holds, Replay, Board.View, Board.Valid, Shaped, Known, Step, Answered, Served;
      if id !in clients {
        CommandNotFound(boards, clients, templates, table, id, cmd);
        return ClientNotFound;
      }
      CommandIndexed(boards, clients, templates, table, id, cmd);
      CommandApart(boards, clients, owner, id);
      ghost var g := Replay(templates, table, id);
      var board := clients[id].board;
      HoldsIs(board, g);
      r := Obey(board, cmd);
      HoldsView(board);
      table := Served(table, |boards|, Play(id, cmd));
    }

    /** One request of whichever client comes next. */
    method Serve(q: Request) returns (r: Response)
      requires Valid()
      modifies this`clients, this`nextClientId, this`table, this`owner, owner.Keys
      ensures Valid() && table == Served(old(table), |boards|, q)
      ensures Responds(templates, old(table), |boards|, q, r)
      ensures fresh(owner.Keys - old(owner.Keys))
    {
      hide Stored, Served, Separate, Numbered, Answered, Replay;
      match q
      case NewSession(b) => r := StartSession(b);
      case Play(id, cmd) => r := PlayCommand(id, cmd);
    }

    /** Any interleaving of requests, and what each of them is answered. */
    method ServeAll(qs: seq<Request>) returns (rs: seq<Response>)
      requires Valid()
      modifies this`clients, this`nextClientId, this`table, this`owner, owner.Keys
      ensures Valid() && table == ServedAll(old(table), |boards|, qs)
      ensures RespondsAll(templates, old(table), |boards|, qs, rs)
    {
      hide Stored, Served, RespondsAll, Responds, Indexed, Separate;
      rs := [];
      assert qs[..0] == [];
      NothingResponds(templates, table, |boards|);
      for k := 0 to |qs|
        invariant Valid() && table == ServedAll(old(table), |boards|, qs[..k])
        invariant RespondsAll(templates, old(table), |boards|, qs[..k], rs)
        invariant fresh(owner.Keys - old(owner.Keys))
      {
        assert qs[..k + 1][..k] == qs[..k] && qs[..k + 1] == qs[..k] + [qs[k]];
        var r := Serve(qs[k]);
        RespondsSnoc(templates, old(table), |boards|, qs[..k], rs, qs[k], r);
        rs := rs + [r];
      }
      assert qs[..|qs|] == qs;
    }

    /** Boards created by the server stay sound in every client's hands. */
    lemma EveryClientSound()
      requires Valid() && forall b :: b in templates ==> Fresh(templates[b])
      ensures forall i :: i in clients ==> clients[i].board.Valid() && Inv(clients[i].board.View())
    {
      hide Fresh, Inv, Run;
      forall i | i in clients
        ensures clients[i].board.Valid() && Inv(clients[i].board.View())
      {
        assert Holds(clients[i].board, Replay(templates, table, i));
        ReplayKeepsInv(templates, table, i);
      }
    }
  }

  ghost predicate RespondsAll(templates: map<nat, Grid>, t: Table, count: nat, qs: seq<Request>, rs: seq<Response>)
  {
    |rs| == |qs| && forall k :: 0 <= k < |qs| ==> Responds(templates, ServedAll(t, count, qs[..k]), count, qs[k], rs[k])
  }

  lemma NothingResponds(templates: map<nat, Grid>, t: Table, count: nat)
    ensures RespondsAll(templates, t, count, [], [])
  {
  }

  lemma RespondsSnoc(templates: map<nat, Grid>, t: Table, count: nat, qs: seq<Request>, rs: seq<Response>, q: Request, r: Response)
    requires RespondsAll(templates, t, count, qs, rs) && Responds(templates, ServedAll(t, count, qs), count, q, r)
    ensures RespondsAll(templates, t, count, qs + [q], rs + [r])
  {
    hide Responds, ServedAll;
    forall k | 0 <= k < |qs| + 1
      ensures Responds(templates, ServedAll(t, count, (qs + [q])[..k]), count, (qs + [q])[k], (rs + [r])[k])
    {
      assert (qs + [q])[..k] == qs[..k];
      if k == |qs| {
        assert qs[..k] == qs;
      }
    }
  }
}
