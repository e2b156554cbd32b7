/** What the exhaustive solver computes, as functions on board values: the solutions
    Esplora records from a state and those Risolvi records from every start cell, and
    the replay of a recorded solution through Click from the empty board. */
module Search {
  import opened Geometry
  import opened Rules

  /** A recorded solution: the start cell followed by the direction of every move. */
  datatype Solution = Solution(start: Pos, moves: seq<Dir>)

  /** Esplora: record the path if the board is solved, otherwise try every direction of
      DIREZIONI in turn from the last turn point. */
  ghost function Explored(g: Game): seq<Solution>
    requires Legal(g) && |g.path| > 0
    decreases FreeCount(g), 2, 0
  {
    if IsSolved(g) then [Solution(g.path[0], g.dirs)]
    else ExploredDirs(g, Directions)
  }

  /** The solutions found by trying the directions ds, in order. */
  ghost function ExploredDirs(g: Game, ds: seq<Dir>): seq<Solution>
    requires Legal(g) && |g.path| > 0
    decreases FreeCount(g), 1, |ds|
  {
    if ds == [] then []
    else ExploredDirs(g, ds[..|ds| - 1]) + Branch(g, ds[|ds| - 1])
  }

  /** The solutions found by clicking the neighbour in direction d and exploring on. */
  ghost function Branch(g: Game, d: Dir): seq<Solution>
    requires Legal(g) && |g.path| > 0
    decreases FreeCount(g), 0, 0
  {
    var r := Clicked(g, Step(Last(g), d));
    if r.Some? then
      ClickedIsLegal(g, Step(Last(g), d));
      Explored(r.value)
    else []
  }

  lemma AppendAssoc<T>(a: seq<T>, b: seq<T>, c: seq<T>)
    ensures a + b + c == a + (b + c)
  {
  }

  /** Esplora records the path of a solved board and otherwise tries every direction. */
  lemma ExploredCases(g: Game)
    requires Legal(g) && |g.path| > 0
    ensures IsSolved(g) ==> Explored(g) == [Solution(g.path[0], g.dirs)]
    ensures !IsSolved(g) ==> Explored(g) == ExploredDirs(g, Directions)
  {
  }

  /** Trying the first i + 1 directions of ds is trying the first i, then ds[i]. */
  lemma ExploredDirsStep(g: Game, ds: seq<Dir>, i: int)
    requires Legal(g) && |g.path| > 0 && 0 <= i < |ds|
    ensures ExploredDirs(g, ds[..i + 1]) == ExploredDirs(g, ds[..i]) + Branch(g, ds[i])
  {
    assert ds[..i + 1][..i] == ds[..i];
  }

  /** Branch in terms of the click on the neighbour in direction d. */
  lemma BranchClicked(g: Game, d: Dir, target: Pos)
    requires Legal(g) && |g.path| > 0 && target == Step(Last(g), d)
    ensures Clicked(g, target).None? ==> Branch(g, d) == []
    ensures Clicked(g, target).Some? ==>
              Legal(Clicked(g, target).value) && FreeCount(Clicked(g, target).value) < FreeCount(g) &&
              |Clicked(g, target).value.path| > 0 && Branch(g, d) == Explored(Clicked(g, target).value)
  {
    if Clicked(g, target).Some? {
      ClickedIsLegal(g, target);
    }
  }

  /** The solutions found from start cell p of the empty board of side dim with the
      given blocked cells. */
  ghost function FromStart(dim: nat, blocked: seq<Pos>, p: Pos): seq<Solution> {
    var g0 := Game(dim, blocked, [], []);
    var r := Clicked(g0, p);
    if r.Some? then
      ClickedIsLegal(g0, p);
      Explored(r.value)
    else []
  }

  /** FromStart in terms of the click on p. */
  lemma StartClicked(dim: nat, blocked: seq<Pos>, p: Pos)
    ensures var g0 := Game(dim, blocked, [], []);
      && (Clicked(g0, p).None? ==> FromStart(dim, blocked, p) == [])
      && (Clicked(g0, p).Some? ==>
            Legal(Clicked(g0, p).value) && |Clicked(g0, p).value.path| > 0 &&
            FromStart(dim, blocked, p) == Explored(Clicked(g0, p).value))
  {
    var g0 := Game(dim, blocked, [], []);
    if Clicked(g0, p).Some? {
      ClickedIsLegal(g0, p);
    }
  }

  /** The solutions found from the start cells (x, 0) .. (x, n - 1). */
  ghost function Column(dim: nat, blocked: seq<Pos>, x: int, n: nat): seq<Solution> {
    if n == 0 then [] else Column(dim, blocked, x, n - 1) + FromStart(dim, blocked, Pos(x, n - 1))
  }

  /** The solutions found from the start cells of the first n columns, x outer, y inner. */
  ghost function Columns(dim: nat, blocked: seq<Pos>, n: nat): seq<Solution> {
    if n == 0 then [] else Columns(dim, blocked, n - 1) + Column(dim, blocked, n - 1, dim)
  }

  /** Risolvi: every solution the search records, in the order it records them. */
  ghost function AllSolutions(dim: nat, blocked: seq<Pos>): seq<Solution> {
    Columns(dim, blocked, dim)
  }

  /** Replays a solution on the empty board g0: a click on the start cell, then for
      each move a click on the neighbour of the last turn point in that direction. */
  ghost function Replay(g0: Game, s: Solution): (r: Option<Game>)
    requires g0.path == [] && g0.dirs == []
    ensures r.Some? ==> WellShaped(r.value) && |r.value.path| == |s.moves| + 1
    ensures r.Some? ==> r.value.dim == g0.dim && r.value.blocked == g0.blocked
    decreases |s.moves|
  {
    if |s.moves| == 0 then Clicked(g0, s.start)
    else
      match Replay(g0, Solution(s.start, s.moves[..|s.moves| - 1]))
      case None => None
      case Some(g) => Clicked(g, Step(Last(g), s.moves[|s.moves| - 1]))
  }

  /** s replays without a refused click and leaves the board solved. */
  ghost predicate Solves(g0: Game, s: Solution)
    requires g0.path == [] && g0.dirs == []
  {
    var r := Replay(g0, s);
    r.Some? && IsSolved(r.value)
  }

  /** Clicking the neighbour in the direction of the next move of a legal board
      reproduces that move. */
  lemma {:induction false} ClickNeighbour(g: Game)
    requires Legal(g) && |g.path| >= 2
    ensures var h := Pop(g);
      Clicked(h, Step(Last(h), g.dirs[|g.dirs| - 1])) == Some(g)
  {
    var h := Pop(g);
    var d := g.dirs[|g.dirs| - 1];
    RayFromNeighbour(Last(h), d, 0);
    DirectionToRay(Last(h), d, 1);
    RunIsMaximal(h, Last(h), d);
    assert g.path == h.path + [Last(g)];
    assert g.dirs == h.dirs + [d];
  }

  /** Every legal board is what its start cell and its moves replay to. */
  lemma {:induction false} ReplayReproduces(g: Game)
    requires Legal(g) && |g.path| > 0
    ensures Replay(Empty(g), Solution(g.path[0], g.dirs)) == Some(g)
    decreases |g.path|
  {
    if |g.path| == 1 {
      assert Empty(g).(path := [g.path[0]]) == g;
    } else {
      var h := Pop(g);
      ReplayReproduces(h);
      assert Empty(h) == Empty(g);
      assert h.path[0] == g.path[0];
      assert Solution(g.path[0], g.dirs[..|g.dirs| - 1]) == Solution(h.path[0], h.dirs);
      ClickNeighbour(g);
    }
  }

  /** Every solution Esplora records from g starts at g's start cell, continues g's
      moves, and replays to a solved board. */
  lemma {:induction false} ExploredSound(g: Game, s: Solution)
    requires Legal(g) && |g.path| > 0 && s in Explored(g)
    ensures s.start == g.path[0] && g.dirs <= s.moves
    ensures Solves(Empty(g), s)
    decreases FreeCount(g), 2, 0
  {
    if IsSolved(g) {
      ReplayReproduces(g);
    } else {
      ExploredDirsSound(g, Directions, s);
    }
  }

  lemma {:induction false} ExploredDirsSound(g: Game, ds: seq<Dir>, s: Solution)
    requires Legal(g) && |g.path| > 0 && s in ExploredDirs(g, ds)
    ensures s.start == g.path[0] && g.dirs <= s.moves
    ensures Solves(Empty(g), s)
    decreases FreeCount(g), 1, |ds|
  {
    var d := ds[|ds| - 1];
    if s in ExploredDirs(g, ds[..|ds| - 1]) {
      ExploredDirsSound(g, ds[..|ds| - 1], s);
    } else {
      var h := Clicked(g, Step(Last(g), d)).value;
      ClickedIsLegal(g, Step(Last(g), d));
      ExploredSound(h, s);
      assert Empty(h) == Empty(g);
      assert h.path[0] == g.path[0];
      assert g.dirs <= h.dirs by {
        if |g.path| >= 2 {
          assert h.dirs[..|g.dirs|] == g.dirs;
        }
      }
    }
  }

  /** Every solution Risolvi records replays from the empty board to a solved board. */
  lemma {:induction false} AllSolutionsSound(dim: nat, blocked: seq<Pos>, s: Solution)
    requires s in AllSolutions(dim, blocked)
    ensures Solves(Game(dim, blocked, [], []), s)
  {
    ColumnsSound(dim, blocked, dim, s);
  }

  lemma {:induction false} ColumnsSound(dim: nat, blocked: seq<Pos>, n: nat, s: Solution)
    requires s in Columns(dim, blocked, n)
    ensures Solves(Game(dim, blocked, [], []), s)
  {
    if s in Columns(dim, blocked, n - 1) {
      ColumnsSound(dim, blocked, n - 1, s);
    } else {
      ColumnSound(dim, blocked, n - 1, dim, s);
    }
  }

  lemma {:induction false} ColumnSound(dim: nat, blocked: seq<Pos>, x: int, n: nat, s: Solution)
    requires s in Column(dim, blocked, x, n)
    ensures Solves(Game(dim, blocked, [], []), s)
  {
    if s in Column(dim, blocked, x, n - 1) {
      ColumnSound(dim, blocked, x, n - 1, s);
    } else {
      var g0 := Game(dim, blocked, [], []);
      var p := Pos(x, n - 1);
      var h := Clicked(g0, p).value;
      ClickedIsLegal(g0, p);
      ExploredSound(h, s);
      assert Empty(h) == g0;
    }
  }
}
