// The invariant of reveal_cells' queue loop, and why it ends with exactly the reach set.
module Flood {
  import opened Grids
  import opened Rules

  /** What the loop has done so far, in terms of the grid `g` it started from: `done` is what it
      revealed, `visited` what it looked at, `queue` the zero-count cells still to be stepped out
      of, and `current` the one being stepped out of, whose neighbours may be half visited. */
  ghost predicate Flooding(g: Grid, seed: Coord, done: set<Coord>, visited: set<Coord>, queue: seq<Coord>, current: set<Coord>)
  {
    && seed in done && done <= Reach(g, seed) && done <= visited <= g.cells.Keys
    && (forall v :: v in visited && v !in done ==> !g.cells[v].Hidden())
    && (forall q :: q in queue ==> q in done && g.cells[q].Zero())
    && (forall c :: c in done && g.cells[c].Zero() && c !in queue && c !in current ==> Neighbors(g, c) <= visited)
  }

  lemma FloodStart(g: Grid, seed: Coord)
    requires seed in g.cells && g.cells[seed].Zero()
    ensures Flooding(g, seed, {seed}, {seed}, [seed], {})
  {
    ReachIsClosed(g, seed);
  }

  lemma FloodPop(g: Grid, seed: Coord, done: set<Coord>, visited: set<Coord>, queue: seq<Coord>)
    requires queue != [] && Flooding(g, seed, done, visited, queue, {})
    ensures Flooding(g, seed, done, visited, queue[1..], {queue[0]})
  {
    assert queue == [queue[0]] + queue[1..];
  }

  lemma FloodFinish(g: Grid, seed: Coord, done: set<Coord>, visited: set<Coord>, queue: seq<Coord>, q: Coord)
    requires Flooding(g, seed, done, visited, queue, {q}) && Neighbors(g, q) <= visited
    ensures Flooding(g, seed, done, visited, queue, {})
  {
  }

  /** A neighbour that is flagged, or was revealed before, is only marked as visited. */
  lemma FloodSkip(g: Grid, seed: Coord, done: set<Coord>, visited: set<Coord>, queue: seq<Coord>, q: Coord, n: Coord)
    requires Flooding(g, seed, done, visited, queue, {q})
    requires n in g.cells && !g.cells[n].Hidden()
    ensures Flooding(g, seed, done, visited + {n}, queue, {q})
  {
  }

  /** A hidden neighbour of a zero-count cell is revealed, and queued if it is itself a zero. */
  lemma FloodReveal(g: Grid, seed: Coord, done: set<Coord>, visited: set<Coord>, queue: seq<Coord>, q: Coord, n: Coord)
    requires seed in g.cells && Flooding(g, seed, done, visited, queue, {q})
    requires q in done && g.cells[q].Zero() && n in Neighbors(g, q) && g.cells[n].Hidden()
    ensures var queue' := if g.cells[n].Zero() then queue + [n] else queue;
            Flooding(g, seed, done + {n}, visited + {n}, queue', {q})
  {
    hide Reach;
    ReachIsClosed(g, seed);
    assert n in Reach(g, seed);
    if g.cells[n].Zero() {
      assert (queue + [n])[|queue|] == n;
    }
  }

  /** With the queue empty, what was revealed is the reach set. */
  lemma FloodEnd(g: Grid, seed: Coord, done: set<Coord>, visited: set<Coord>)
    requires seed in g.cells && Flooding(g, seed, done, visited, [], {})
    ensures done == Reach(g, seed)
  {
    hide Reach;
    assert Closed(g, done);
    ReachIsLeast(g, seed, done);
  }

  /** A seed that shows a mine or a positive count reaches only itself. */
  lemma FloodNothing(g: Grid, seed: Coord)
    requires seed in g.cells && !g.cells[seed].Zero()
    ensures Reach(g, seed) == {seed}
  {
    ReachIsClosed(g, seed);
    assert Closed(g, {seed});
  }

  lemma OpenOne(g: Grid, done: set<Coord>, n: Coord)
    requires n in g.cells
    ensures var g' := Open(g, done);
            g'.(cells := g'.cells[n := g'.cells[n].(revealed := true)]) == Open(g, done + {n})
  {
    var g' := Open(g, done);
    assert g'.cells[n := g'.cells[n].(revealed := true)] == Open(g, done + {n}).cells;
  }

  lemma ReportsNone(g: Grid)
    ensures Reports(g, {}, []) && Open(g, {}) == g
  {
  }

  lemma ReportsSnoc(g: Grid, done: set<Coord>, cells: seq<Report>, n: Coord)
    requires Reports(g, done, cells) && n !in done && n in g.cells
    ensures Reports(g, done + {n}, cells + [Counted(n, g.cells[n].Shown())])
  {
    var all := cells + [Counted(n, g.cells[n].Shown())];
    forall c | c in done + {n}
      ensures ListedIn(all, c)
    {
      if c == n {
        assert all[|cells|].at == c;
      } else {
        assert ListedIn(cells, c);
        var i :| 0 <= i < |cells| && cells[i].at == c;
        assert all[i].at == c;
      }
    }
  }
}
