/** The rules of the puzzle on board values: which cells a path occupies, which cells
    are traversable, how far a slide goes, and what a click and an undo do. The class
    Engine.Board is proved against these functions. */
module Rules {
  import opened Geometry

  /** Cell codes CASELLA_BIANCA, CASELLA_NERA and CASELLA_OCCUPATA. */
  datatype Cell = Free | Blocked | Occupied

  /** A board as a value: its side, its blocked cells (posizioni_nere), the turn points
      of the path (posizioni) and the direction of each move (direzioni). */
  datatype Game = Game(dim: nat, blocked: seq<Pos>, path: seq<Pos>, dirs: seq<Dir>)

  predicate InBounds(dim: int, p: Pos) {
    0 <= p.x < dim && 0 <= p.y < dim
  }

  /** One direction per completed move: none before the start cell is chosen, then
      one fewer than there are turn points. */
  predicate WellShaped(g: Game) {
    if |g.path| == 0 then |g.dirs| == 0 else |g.dirs| == |g.path| - 1
  }

  function Last(g: Game): Pos
    requires |g.path| > 0
  {
    g.path[|g.path| - 1]
  }

  /** The same board with no path. */
  function Empty(g: Game): Game {
    g.(path := [], dirs := [])
  }

  /** The board before its last move. */
  function Pop(g: Game): (h: Game)
    requires WellShaped(g) && |g.path| >= 2
    ensures WellShaped(h) && |h.path| == |g.path| - 1
    ensures h.dim == g.dim && h.blocked == g.blocked
  {
    g.(path := g.path[..|g.path| - 1], dirs := g.dirs[..|g.dirs| - 1])
  }

  /** p is one of the cells lo..hi steps from `from` in direction d. */
  predicate OnRay(from: Pos, d: Dir, lo: int, hi: int, p: Pos) {
    match d
    case North => p.x == from.x && from.y - hi <= p.y <= from.y - lo
    case East => p.y == from.y && from.x + lo <= p.x <= from.x + hi
    case South => p.x == from.x && from.y + lo <= p.y <= from.y + hi
    case West => p.y == from.y && from.x - hi <= p.x <= from.x - lo
  }

  /** OnRay holds exactly of the cells Ray(from, d, i) with lo <= i <= hi. */
  lemma {:induction false} OnRayIsRay(from: Pos, d: Dir, lo: int, hi: int, p: Pos)
    requires 0 <= lo
    ensures OnRay(from, d, lo, hi, p) <==>
              lo <= Dist(from, p) <= hi && p == Ray(from, d, Dist(from, p))
    ensures forall i :: OnRay(from, d, lo, hi, Ray(from, d, i)) <==> lo <= i <= hi
  {
  }

  /** Growing a segment of a ray by one cell at its far end adds exactly that cell. */
  lemma {:induction false} OnRayGrow(from: Pos, d: Dir, lo: int, hi: int, p: Pos)
    requires lo <= hi + 1
    ensures OnRay(from, d, lo, hi + 1, p) <==> OnRay(from, d, lo, hi, p) || p == Ray(from, d, hi + 1)
  {
  }

  /** Growing a segment of a ray by one cell at its near end adds exactly that cell. */
  lemma {:induction false} OnRayGrowBack(from: Pos, d: Dir, lo: int, hi: int, p: Pos)
    requires lo <= hi + 1
    ensures OnRay(from, d, lo - 1, hi, p) <==> OnRay(from, d, lo, hi, p) || p == Ray(from, d, lo - 1)
  {
  }

  /** p is traced by the path: the start cell, or a cell passed over by one of the
      moves (excluding the turn point the move starts from, including the one it ends at). */
  predicate Covered(g: Game, p: Pos)
    requires WellShaped(g)
    decreases |g.path|
  {
    if |g.path| == 0 then false
    else if |g.path| == 1 then p == g.path[0]
    else
      var h := Pop(g);
      Covered(h, p) || OnRay(Last(h), g.dirs[|g.dirs| - 1], 1, Dist(Last(h), Last(g)), p)
  }

  /** Percorribile: in bounds, not blocked and not yet occupied. */
  predicate Open(g: Game, p: Pos)
    requires WellShaped(g)
  {
    InBounds(g.dim, p) && p !in g.blocked && !Covered(g, p)
  }

  /** The code the board stores for p. */
  function CellAt(g: Game, p: Pos): (c: Cell)
    requires WellShaped(g)
  {
    if Covered(g, p) then Occupied
    else if p in g.blocked then Blocked
    else Free
  }

  /** Cells left inside the board when moving from p in direction d. */
  function Room(dim: int, p: Pos, d: Dir): nat {
    match d
    case North => if p.y > 0 then p.y else 0
    case South => if p.y < dim then dim - p.y else 0
    case West => if p.x > 0 then p.x else 0
    case East => if p.x < dim then dim - p.x else 0
  }

  /** A step onto the board in direction d leaves less room in that direction. */
  lemma RoomShrinks(dim: int, p: Pos, d: Dir)
    requires InBounds(dim, Step(p, d))
    ensures Room(dim, Step(p, d), d) < Room(dim, p, d)
  {
  }

  /** The number of cells a slide from `from` in direction d passes over: the length of
      the run of traversable cells that follows it. */
  function Run(g: Game, from: Pos, d: Dir): nat
    requires WellShaped(g)
    decreases Room(g.dim, from, d)
  {
    var next := Step(from, d);
    if Open(g, next) then 1 + Run(g, next, d) else 0
  }

  /** A slide is maximal: every cell of the run is traversable and the cell just past
      it is not. */
  lemma {:induction false} RunIsMaximal(g: Game, from: Pos, d: Dir)
    requires WellShaped(g)
    ensures forall i :: 1 <= i <= Run(g, from, d) ==> Open(g, Ray(from, d, i))
    ensures !Open(g, Ray(from, d, Run(g, from, d) + 1))
    decreases Room(g.dim, from, d)
  {
    var next := Step(from, d);
    RayFromNeighbour(from, d, 0);
    if Open(g, next) {
      RunIsMaximal(g, next, d);
      forall i | 1 <= i <= Run(g, from, d)
        ensures Open(g, Ray(from, d, i))
      {
        RayFromNeighbour(from, d, i - 1);
      }
      RayFromNeighbour(from, d, Run(g, from, d));
    }
  }

  /** Conversely, a run of count traversable cells followed by one that is not is the
      run of the slide. */
  lemma {:induction false} RunIsExact(g: Game, from: Pos, d: Dir, count: nat)
    requires WellShaped(g)
    requires forall i :: 1 <= i <= count ==> Open(g, Ray(from, d, i))
    requires !Open(g, Ray(from, d, count + 1))
    ensures Run(g, from, d) == count
    decreases count
  {
    RayFromNeighbour(from, d, 0);
    if count > 0 {
      var next := Step(from, d);
      forall i | 1 <= i <= count - 1
        ensures Open(g, Ray(next, d, i))
      {
        RayFromNeighbour(from, d, i);
      }
      RayFromNeighbour(from, d, count);
      RunIsExact(g, next, d, count - 1);
    }
  }

  /** The effect of Percorri: the board after sliding as far as possible in direction d
      from the last turn point. */
  function Slid(g: Game, d: Dir): (h: Game)
    requires WellShaped(g) && |g.path| > 0
    ensures WellShaped(h) && h.dim == g.dim && h.blocked == g.blocked
  {
    var k := Run(g, Last(g), d);
    if k == 0 then g
    else g.(path := g.path + [Ray(Last(g), d, k)], dirs := g.dirs + [d])
  }

  /** The effect of Click(p); None when the click is refused. */
  function Clicked(g: Game, p: Pos): (r: Option<Game>)
    requires WellShaped(g)
    ensures r.Some? ==> Open(g, p)
    ensures r.Some? ==> WellShaped(r.value) && r.value.dim == g.dim && r.value.blocked == g.blocked
    ensures r.Some? ==> |r.value.path| == |g.path| + 1 && r.value.path[..|g.path|] == g.path
  {
    if !Open(g, p) then None
    else if |g.path| == 0 then Some(g.(path := [p]))
    else
      match DirectionTo(Last(g), p)
      case None => None
      case Some(d) => if Run(g, Last(g), d) > 0 then Some(Slid(g, d)) else None
  }

  /** After the start cell, a click is accepted exactly when the clicked cell is
      traversable, aligned with the last turn point and distinct from it, and the first
      cell in its direction is traversable; the board then slides as far as it can, so
      any traversable aligned cell in one direction has the same effect. */
  lemma {:induction false} ClickedAccepts(g: Game, p: Pos)
    requires WellShaped(g) && |g.path| > 0
    ensures Clicked(g, p).Some? <==>
              Open(g, p) && p != Last(g) && (p.x == Last(g).x || p.y == Last(g).y) &&
              Open(g, Step(Last(g), DirectionTo(Last(g), p).value))
    ensures Clicked(g, p).Some? ==> Clicked(g, p).value == Slid(g, DirectionTo(Last(g), p).value)
  {
    if Open(g, p) && DirectionTo(Last(g), p).Some? {
      var d := DirectionTo(Last(g), p).value;
      assert Run(g, Last(g), d) > 0 <==> Open(g, Step(Last(g), d));
    }
  }

  /** The effect of Annulla; None when there is nothing to undo. */
  function Undone(g: Game): (r: Option<Game>)
    requires WellShaped(g)
    ensures r.Some? <==> |g.path| > 0
    ensures r.Some? ==> WellShaped(r.value) && r.value.dim == g.dim && r.value.blocked == g.blocked
    ensures r.Some? ==> r.value.path == g.path[..|g.path| - 1]
  {
    if |g.dirs| > 0 then Some(Pop(g))
    else if |g.path| > 0 then Some(Empty(g))
    else None
  }

  /** A state reachable by clicks from the empty board: the start cell was traversable
      and every move is a maximal slide of at least one cell from the previous turn point. */
  ghost predicate Legal(g: Game)
    decreases |g.path|
  {
    WellShaped(g) &&
    if |g.path| == 0 then true
    else if |g.path| == 1 then Open(Empty(g), g.path[0])
    else
      var h := Pop(g);
      var d := g.dirs[|g.dirs| - 1];
      var k := Run(h, Last(h), d);
      Legal(h) && k >= 1 && Last(g) == Ray(Last(h), d, k)
  }

  /** Risolta: no cell of the board is left traversable. */
  ghost predicate IsSolved(g: Game)
    requires WellShaped(g)
  {
    forall x, y :: 0 <= x < g.dim && 0 <= y < g.dim ==> !Open(g, Pos(x, y))
  }

  /** PuntoMorto: none of the four neighbours of the last turn point is traversable. */
  ghost predicate Stuck(g: Game)
    requires WellShaped(g) && |g.path| > 0
  {
    forall d: Dir :: !Open(g, Step(Last(g), d))
  }

  /** The traversable cells of the board. */
  ghost function OpenCells(g: Game): set<Pos>
    requires WellShaped(g)
  {
    set x, y | 0 <= x < g.dim && 0 <= y < g.dim && Open(g, Pos(x, y)) :: Pos(x, y)
  }

  ghost function FreeCount(g: Game): nat
    requires WellShaped(g)
  {
    |OpenCells(g)|
  }

  /** A slide occupies exactly the cells of its run and nothing else. */
  lemma {:induction false} SlidCovers(g: Game, d: Dir, p: Pos)
    requires WellShaped(g) && |g.path| > 0
    ensures Covered(Slid(g, d), p) <==> Covered(g, p) || OnRay(Last(g), d, 1, Run(g, Last(g), d), p)
  {
    var k := Run(g, Last(g), d);
    if k > 0 {
      var h := Slid(g, d);
      assert Pop(h).path == g.path;
      assert Pop(h).dirs == g.dirs;
    }
  }

  /** The cells of a slide were traversable before it: no cell is visited twice. */
  lemma {:induction false} SlidCellsWereFree(g: Game, d: Dir, p: Pos)
    requires WellShaped(g) && |g.path| > 0
    requires OnRay(Last(g), d, 1, Run(g, Last(g), d), p)
    ensures Open(g, p) && CellAt(g, p) == Free
  {
    RunIsMaximal(g, Last(g), d);
    OnRayIsRay(Last(g), d, 1, Run(g, Last(g), d), p);
  }

  /** How a successful slide changes the stored board. */
  lemma {:induction false} SlidCells(g: Game, d: Dir, p: Pos)
    requires WellShaped(g) && |g.path| > 0
    ensures CellAt(Slid(g, d), p) ==
              if OnRay(Last(g), d, 1, Run(g, Last(g), d), p) then Occupied else CellAt(g, p)
  {
    SlidCovers(g, d, p);
  }

  /** Undoing the last move frees exactly the cells of that move. */
  lemma {:induction false} PopCells(g: Game, p: Pos)
    requires Legal(g) && |g.path| >= 2
    ensures var h := Pop(g);
      CellAt(h, p) ==
        if OnRay(Last(h), g.dirs[|g.dirs| - 1], 1, Dist(Last(h), Last(g)), p) then Free
        else CellAt(g, p)
  {
    var h := Pop(g);
    var d := g.dirs[|g.dirs| - 1];
    if OnRay(Last(h), d, 1, Dist(Last(h), Last(g)), p) {
      SlidCellsWereFree(h, d, p);
    }
  }

  /** A slide that moves at least one cell keeps the board legal. */
  lemma {:induction false} SlidIsLegal(g: Game, d: Dir)
    requires Legal(g) && |g.path| > 0 && Run(g, Last(g), d) >= 1
    ensures Legal(Slid(g, d))
  {
    var h := Slid(g, d);
    assert Pop(h) == g;
  }

  /** A successful click yields a legal board with strictly fewer traversable cells. */
  lemma {:induction false} ClickedIsLegal(g: Game, p: Pos)
    requires Legal(g) && Clicked(g, p).Some?
    ensures Legal(Clicked(g, p).value)
    ensures FreeCount(Clicked(g, p).value) < FreeCount(g)
  {
    var h := Clicked(g, p).value;
    var gone: Pos;
    if |g.path| == 0 {
      assert Empty(h) == g;
      gone := p;
    } else {
      var d := DirectionTo(Last(g), p).value;
      assert h == Slid(g, d);
      assert Pop(h) == g;
      gone := Step(Last(g), d);
      RayFromNeighbour(Last(g), d, 0);
      forall q ensures Covered(g, q) ==> Covered(h, q) {
        SlidCovers(g, d, q);
      }
      SlidCovers(g, d, gone);
    }
    assert OpenCells(h) <= OpenCells(g);
    assert gone in OpenCells(g) - OpenCells(h);
    SubsetSmaller(OpenCells(h), OpenCells(g), gone);
  }

  lemma {:induction false} SubsetSmaller<T>(a: set<T>, b: set<T>, x: T)
    requires a <= b && x in b && x !in a
    ensures |a| < |b|
  {
    assert b == a + (b - a);
    assert x in b - a;
  }

  /** Annulla is the exact inverse of a successful Click. */
  lemma {:induction false} UndoneClicked(g: Game, p: Pos)
    requires Legal(g) && Clicked(g, p).Some?
    ensures Undone(Clicked(g, p).value) == Some(g)
  {
    var h := Clicked(g, p).value;
    if |g.path| > 0 {
      assert Pop(h).path == g.path;
    }
  }

  /** Annulla keeps the board legal. */
  lemma {:induction false} UndoneIsLegal(g: Game)
    requires Legal(g) && |g.path| > 0
    ensures Legal(Undone(g).value)
  {
  }

  /** The board after n undos in a row; None once an undo is refused. */
  ghost function UndoneTimes(g: Game, n: nat): Option<Game>
    requires WellShaped(g)
    decreases n
  {
    if n == 0 then Some(g)
    else
      match Undone(g)
      case None => None
      case Some(h) => UndoneTimes(h, n - 1)
  }

  /** One undo per turn point takes a legal board back to the empty board. */
  lemma {:induction false} UndoAllEmpties(g: Game)
    requires Legal(g)
    ensures UndoneTimes(g, |g.path|) == Some(Empty(g))
    decreases |g.path|
  {
    if |g.path| > 0 {
      var h := Undone(g).value;
      UndoneIsLegal(g);
      UndoAllEmpties(h);
      assert Empty(h) == Empty(g);
    }
  }

  /** A solved board admits no further move. */
  lemma {:induction false} SolvedIsStuck(g: Game, d: Dir)
    requires WellShaped(g) && |g.path| > 0 && IsSolved(g)
    ensures Stuck(g) && Run(g, Last(g), d) == 0
  {
    forall e: Dir ensures !Open(g, Step(Last(g), e)) {
      var q := Step(Last(g), e);
      assert !Open(g, Pos(q.x, q.y));
    }
  }

  /** A dead end is exactly a state from which every slide is empty. */
  lemma {:induction false} StuckIffNoSlide(g: Game)
    requires WellShaped(g) && |g.path| > 0
    ensures Stuck(g) ==> forall d: Dir :: Run(g, Last(g), d) == 0
    ensures (forall d: Dir :: Run(g, Last(g), d) == 0) ==> Stuck(g)
  {
    if Stuck(g) {
      forall d: Dir ensures Run(g, Last(g), d) == 0 {
        assert !Open(g, Step(Last(g), d));
      }
    }
    if forall d: Dir :: Run(g, Last(g), d) == 0 {
      forall d: Dir ensures !Open(g, Step(Last(g), d)) {
        assert Run(g, Last(g), d) == 0;
      }
    }
  }
}
