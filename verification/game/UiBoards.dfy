// ui::board_t: the client's own picture of the board, and what it should show of the server's.
module UiBoards {
  import opened Grids
  import opened Rules
  import opened BoardLayout

  datatype UiState = UiHidden | UiFlagged | UiRevealed | UiBoom

  datatype UiCell = UiCell(state: UiState, count: int)

  type Picture = map<Coord, UiCell>

  /** How the client shows a cell of a board on which no mine has gone off. */
  function Shows(cell: Cell): UiCell
  {
    if cell.revealed then UiCell(UiRevealed, cell.Shown())
    else UiCell(if cell.flag then UiFlagged else UiHidden, 0)
  }

  function PictureOf(g: Grid): Picture
  {
    map c | c in g.cells :: Shows(g.cells[c])
  }

  /** The picture after the cells of `s` have been shown as revealed. */
  function Painted(pic: Picture, g: Grid, s: set<Coord>): Picture
  {
    map c | c in pic :: if c in s && c in g.cells then UiCell(UiRevealed, g.cells[c].Shown()) else pic[c]
  }

  /** The picture after the cells of `s` have been shown as exploded. */
  function Exploded(pic: Picture, s: set<Coord>): Picture
  {
    map c | c in pic :: if c in s then pic[c].(state := UiBoom) else pic[c]
  }

  function Places(cells: seq<Report>): set<Coord>
  {
    set i | 0 <= i < |cells| :: cells[i].at
  }

  lemma InCoords(w: nat, h: nat, c: Coord)
    ensures c in Coords(w, h) <==> InBounds(w, h, c)
  {
  }

  lemma PlacesSnoc(cells: seq<Report>, i: nat)
    requires i < |cells|
    ensures Places(cells[..i + 1]) == Places(cells[..i]) + {cells[i].at}
  {
    var before, after := cells[..i], cells[..i + 1];
    assert after == before + [cells[i]];
    forall c
      ensures c in Places(after) <==> c in Places(before) + {cells[i].at}
    {
      if c in Places(before) {
        var k :| 0 <= k < |before| && before[k].at == c;
        assert after[k].at == c;
      }
      if c == cells[i].at {
        assert after[i].at == c;
      }
    }
  }

  lemma ReportedPlaces(g: Grid, s: set<Coord>, cells: seq<Report>)
    requires Reports(g, s, cells)
    ensures Places(cells) == s
  {
    forall c | c in s
      ensures c in Places(cells)
    {
      assert ListedIn(cells, c);
    }
  }

  class UiBoard {
    const w: nat
    const h: nat
    const cells: array<UiCell>

    ghost predicate Valid()
    {
      cells.Length == w * h
    }

    ghost function Picture(): (pic: Picture)
      requires Valid()
      reads cells
      ensures pic.Keys == Coords(w, h)
    {
      map c | c in Coords(w, h) :: CellAt(w, h, cells[..], c)
    }

    constructor (w: nat, h: nat)
      ensures this.w == w && this.h == h && fresh(cells) && Valid()
      ensures forall c :: c in Picture() ==> Picture()[c] == UiCell(UiHidden, 0)
    {
      this.w := w;
      this.h := h;
      var all := new UiCell[w * h](_ => UiCell(UiHidden, 0));
      cells := all;
      new;
      forall c | c in Coords(w, h)
        ensures CellAt(w, h, cells[..], c) == UiCell(UiHidden, 0)
      {
        IndexInRange(w, h, c);
      }
    }

    method At(c: Coord) returns (cell: UiCell)
      requires Valid() && InBounds(w, h, c)
      ensures c in Picture() && cell == Picture()[c]
    {
      IndexInRange(w, h, c);
      cell := cells[Index(w, c)];
    }

    method Put(c: Coord, cell: UiCell)
      requires Valid() && InBounds(w, h, c)
      modifies cells
      ensures Picture() == old(Picture())[c := cell]
    {
      IndexInRange(w, h, c);
      ghost var before := cells[..];
      cells[Index(w, c)] := cell;
      assert cells[..] == before[Index(w, c) := cell];
      forall d | d in Coords(w, h) && d != c
        ensures CellAt(w, h, cells[..], d) == CellAt(w, h, before, d)
      {
        IndexInRange(w, h, d);
        if Index(w, d) == Index(w, c) {
          IndexInjective(w, h, c, d);
        }
      }
    }

    /** The loop that shows the cells of an answer as revealed. */
    method ShowRevealed(ghost g: Grid, ghost s: set<Coord>, list: seq<Report>)
      requires Valid() && Reports(g, s, list) && g.cells.Keys == Coords(w, h)
      modifies cells
      ensures Picture() == Painted(old(Picture()), g, s)
      ensures forall i :: 0 <= i < |list| ==>
                list[i].at in Picture() && Picture()[list[i].at] == UiCell(UiRevealed, list[i].count)
      ensures forall c :: c in Picture() && (forall i :: 0 <= i < |list| ==> list[i].at != c) ==>
                Picture()[c] == old(Picture())[c]
    {
      hide Picture;
      ghost var pic := Picture();
      assert Places(list[..0]) == {};
      assert Painted(pic, g, {}) == pic;
      for i := 0 to |list|
        invariant Picture() == Painted(pic, g, Places(list[..i]))
      {
        PlacesSnoc(list, i);
        assert ReportOf(g, list[i]);
        Put(list[i].at, UiCell(UiRevealed, list[i].count));
      }
      assert list[..|list|] == list;
      ReportedPlaces(g, s, list);
      forall i | 0 <= i < |list|
        ensures list[i].at in Picture() && Picture()[list[i].at] == UiCell(UiRevealed, list[i].count)
      {
        assert ReportOf(g, list[i]);
      }
    }

    /** The loop that shows the cells of a "boom" answer. */
    method ShowBoom(list: seq<Report>)
      requires Valid() && forall i :: 0 <= i < |list| ==> InBounds(w, h, list[i].at)
      modifies cells
      ensures Picture() == Exploded(old(Picture()), Places(list))
      ensures forall i :: 0 <= i < |list| ==>
                list[i].at in Picture() && Picture()[list[i].at] == UiCell(UiBoom, old(Picture())[list[i].at].count)
      ensures forall c :: c in Picture() && (forall i :: 0 <= i < |list| ==> list[i].at != c) ==>
                Picture()[c] == old(Picture())[c]
    {
      hide Picture;
      ghost var pic := Picture();
      assert Places(list[..0]) == {};
      assert Exploded(pic, {}) == pic;
      for i := 0 to |list|
        invariant Picture() == Exploded(pic, Places(list[..i]))
      {
        PlacesSnoc(list, i);
        var cell := At(list[i].at);
        Put(list[i].at, cell.(state := UiBoom));
      }
      assert list[..|list|] == list;
      forall i | 0 <= i < |list|
        ensures list[i].at in pic
      {
        InCoords(w, h, list[i].at);
      }
    }
  }

  /** Opening cells and showing them as revealed agree. */
  lemma PictureOfOpen(g: Grid, s: set<Coord>)
    ensures PictureOf(Open(g, s)) == Painted(PictureOf(g), g, s)
  {
  }
}
