/** The game board (Scacchiera): the matrix of cell codes, the path being traced, the
    player's moves and undo, the solved and dead-end queries, and the backtracking
    solver that drives the same board through clicks and undos. */
module Engine {
  import opened Geometry
  import opened Rules
  import opened Search

  class Board {
    /** dimensione: the side of the square board. */
    var dim: nat
    /** posizioni_nere: the blocked cells. */
    var blocked: seq<Pos>
    /** matrice, stored column-first: cells[x, y] is the code of cell (x, y). */
    var cells: array2<Cell>
    /** posizioni: the turn points of the path, the start cell first. */
    var path: seq<Pos>
    /** direzioni: the direction of each completed move. */
    var dirs: seq<Dir>
    /** soluzioni: the solutions the solver has recorded. */
    var solutions: seq<Solution>

    /** The board as a value. */
    ghost function Model(): Game
      reads this`dim, this`blocked, this`path, this`dirs
    {
      Game(dim, blocked, path, dirs)
    }

    /** The path is a legal sequence of moves, and the matrix stores exactly the cells
        it traces as occupied, the blocked cells as blocked and every other cell as free. */
    ghost predicate Valid()
      reads this`dim, this`blocked, this`path, this`dirs, this`cells, cells
    {
      Stores(cells, Model())
    }

    /** Builds the board of the given side with the given blocked cells, and resets it. */
    constructor (dimension: nat, blackCells: seq<Pos>)
      requires forall b :: b in blackCells ==> InBounds(dimension, b)
      ensures Valid() && fresh(cells)
      ensures dim == dimension && blocked == blackCells
      ensures path == [] && dirs == [] && solutions == []
    {
      dim := dimension;
      blocked := blackCells;
      cells := new Cell[0, 0];
      path := [];
      dirs := [];
      solutions := [];
      new;
      Reset();
    }

    /** Reset: a fresh matrix in which exactly the blocked cells are NERA and all others
        BIANCA, and an empty path. */
    method Reset()
      requires forall b :: b in blocked ==> InBounds(dim, b)
      modifies this`cells, this`path, this`dirs
      ensures Valid() && fresh(cells) && path == [] && dirs == []
      ensures forall x, y :: 0 <= x < dim && 0 <= y < dim ==>
                cells[x, y] == if Pos(x, y) in blocked then Blocked else Free
    {
      var m := new Cell[dim, dim];
      for x := 0 to dim
        invariant forall i, j :: 0 <= i < x && 0 <= j < dim ==> m[i, j] == Free
      {
        for y := 0 to dim
          invariant forall i, j :: 0 <= i < x && 0 <= j < dim ==> m[i, j] == Free
          invariant forall j :: 0 <= j < y ==> m[x, j] == Free
        {
          m[x, y] := Free;
        }
      }
      for i := 0 to |blocked|
        invariant forall x, y :: 0 <= x < dim && 0 <= y < dim ==>
                    m[x, y] == if Pos(x, y) in blocked[..i] then Blocked else Free
      {
        var b := blocked[i];
        assert b in blocked;
        m[b.x, b.y] := Blocked;
        assert blocked[..i + 1] == blocked[..i] + [b];
      }
      assert blocked[..|blocked|] == blocked;
      cells := m;
      path := [];
      dirs := [];
      EmptyMirrors(cells, Model());
    }

    /** Percorribile: p lies on the board and its cell is free. */
    function Traversable(p: Pos): bool
      reads this`dim, this`cells, cells
      requires cells.Length0 == dim && cells.Length1 == dim
    {
      0 <= p.x < dim && 0 <= p.y < dim && cells[p.x, p.y] == Free
    }

    /** On a valid board a cell is traversable exactly when it is open: on the board,
        not blocked and not traced by the path. */
    lemma TraversableIsOpen(p: Pos)
      requires Valid()
      ensures Traversable(p) <==> Open(Model(), p)
    {
      MirrorsAll(cells, Model());
      if InBounds(dim, p) {
        assert cells[p.x, p.y] == CellAt(Model(), p);
      }
    }

    /** Occupa: marks the cell of p occupied. */
    method Occupy(p: Pos)
      requires cells.Length0 == dim && cells.Length1 == dim && InBounds(dim, p)
      modifies cells
      ensures cells[p.x, p.y] == Occupied
      ensures forall x, y :: 0 <= x < dim && 0 <= y < dim && Pos(x, y) != p ==>
                cells[x, y] == old(cells[x, y])
    {
      cells[p.x, p.y] := Occupied;
    }

    /** Libera: marks the cell of p free. */
    method Release(p: Pos)
      requires cells.Length0 == dim && cells.Length1 == dim && InBounds(dim, p)
      modifies cells
      ensures cells[p.x, p.y] == Free
      ensures forall x, y :: 0 <= x < dim && 0 <= y < dim && Pos(x, y) != p ==>
                cells[x, y] == old(cells[x, y])
    {
      cells[p.x, p.y] := Free;
    }

    /** Risolta: scans the matrix, x outer and y inner, for a traversable cell. */
    method Solved() returns (r: bool)
      requires Valid()
      ensures r == IsSolved(Model())
    {
      for x := 0 to dim
        invariant forall i, j :: 0 <= i < x && 0 <= j < dim ==> cells[i, j] != Free
      {
        for y := 0 to dim
          invariant forall i, j :: 0 <= i < x && 0 <= j < dim ==> cells[i, j] != Free
          invariant forall j :: 0 <= j < y ==> cells[x, j] != Free
        {
          if Traversable(Pos(x, y)) {
            TraversableIsOpen(Pos(x, y));
            return false;
          }
        }
      }
      NoneFreeIsSolved(cells, Model());
      return true;
    }

    /** PuntoMorto: tries the neighbours of the last turn point in DIREZIONI order. */
    method DeadEnd() returns (r: bool)
      requires Valid() && |path| > 0
      ensures r == Stuck(Model())
    {
      var last := path[|path| - 1];
      assert last == Last(Model());
      for i := 0 to |Directions|
        invariant forall j :: 0 <= j < i ==> !Traversable(Step(last, Directions[j]))
      {
        if Traversable(Step(last, Directions[i])) {
          TraversableIsOpen(Step(last, Directions[i]));
          return false;
        }
      }
      forall d: Dir
        ensures !Open(Model(), Step(last, d))
      {
        TraversableIsOpen(Step(last, d));
        assert d == Directions[if d == North then 0 else if d == East then 1 else if d == South then 2 else 3];
      }
      return true;
    }

    /** Percorri: slides in direction d from the last turn point as far as the cells
        are traversable, then records the move if it passed over at least one cell, and
        returns the number of cells it passed over. */
    method Slide(d: Dir) returns (count: nat)
      requires Valid() && |path| > 0
      modifies this`path, this`dirs, cells
      ensures Valid()
      ensures count == Run(old(Model()), old(Last(Model())), d)
      ensures Model() == Slid(old(Model()), d)
    {
      ghost var g := Model();
      MirrorsAll(cells, g);
      LastInBounds(g);
      var from := path[|path| - 1];
      var current;
      count, current := Advance(from, d);
      forall x, y | 0 <= x < g.dim && 0 <= y < g.dim
        ensures cells[x, y] == if OnRay(from, d, 1, count, Pos(x, y)) then Occupied else CellAt(g, Pos(x, y))
        ensures OnRay(from, d, 1, count, Pos(x, y)) ==> CellAt(g, Pos(x, y)) == Free
      {
      }
      assert !Open(g, Step(current, d)) by {
        var q := Step(current, d);
        if InBounds(dim, q) {
          assert old(cells[q.x, q.y]) == CellAt(g, q);
        }
      }
      AdvanceIsRun(cells, g, d, from, count, current);
      if count > 0 {
        SlidIsLegal(g, d);
      }
      assert Stores(cells, Slid(g, d));
      if count > 0 {
        dirs := dirs + [d];
        path := path + [current];
      }
      assert Model() == Slid(g, d);
    }

    /** The loop of Percorri: occupies cell after cell in direction d from `from` while
        the next cell is traversable; returns how many cells it occupied and the last of
        them. Every cell it occupied was free and the cell after the last is not. */
    method Advance(from: Pos, d: Dir) returns (count: nat, current: Pos)
      requires cells.Length0 == dim && cells.Length1 == dim && InBounds(dim, from)
      modifies cells
      ensures current == Ray(from, d, count) && InBounds(dim, current)
      ensures var q := Step(current, d); InBounds(dim, q) ==> old(cells[q.x, q.y]) != Free
      ensures forall x, y :: 0 <= x < dim && 0 <= y < dim ==>
                cells[x, y] == (if OnRay(from, d, 1, count, Pos(x, y)) then Occupied else old(cells[x, y])) &&
                (OnRay(from, d, 1, count, Pos(x, y)) ==> old(cells[x, y]) == Free)
    {
      current := from;
      count := 0;
      while true
        invariant current == Ray(from, d, count) && InBounds(dim, current)
        invariant forall x, y :: 0 <= x < dim && 0 <= y < dim ==>
                    cells[x, y] == (if OnRay(from, d, 1, count, Pos(x, y)) then Occupied else old(cells[x, y])) &&
                    (OnRay(from, d, 1, count, Pos(x, y)) ==> old(cells[x, y]) == Free)
        decreases Room(dim, current, d)
      {
        var next := Step(current, d);
        StepAlongRay(from, d, count);
        OnRayIsRay(from, d, 1, count, next);
        if !Traversable(next) {
          return;
        }
        RoomShrinks(dim, current, d);
        label Iter:
        count := count + 1;
        current := next;
        Occupy(current);
        forall x, y | 0 <= x < dim && 0 <= y < dim
          ensures cells[x, y] == (if OnRay(from, d, 1, count, Pos(x, y)) then Occupied else old(cells[x, y]))
          ensures OnRay(from, d, 1, count, Pos(x, y)) ==> old(cells[x, y]) == Free
        {
          OnRayGrow(from, d, 1, count - 1, Pos(x, y));
          if Pos(x, y) != current {
            assert cells[x, y] == old@Iter(cells[x, y]);
          }
        }
      }
    }

    /** Click: on an empty path, occupies a traversable p as the start cell; otherwise,
        when p is traversable and aligned with the last turn point, slides towards it.
        Reports whether a move was made; a refused click changes nothing. */
    method Click(p: Pos) returns (ok: bool)
      requires Valid()
      modifies this`path, this`dirs, cells
      ensures Valid()
      ensures ok == Clicked(old(Model()), p).Some?
      ensures Model() == if ok then Clicked(old(Model()), p).value else old(Model())
    {
      ghost var g := Model();
      TraversableIsOpen(p);
      if Traversable(p) {
        if |path| == 0 {
          MirrorsAll(cells, g);
          Occupy(p);
          StartedMirrors(cells, g, p);
          path := path + [p];
          assert Empty(Model()) == g;
          return true;
        }
        var direction := DirectionTo(path[|path| - 1], p);
        if direction.Some? {
          var count := Slide(direction.value);
          if count > 0 {
            return true;
          }
        }
      }
      return false;
    }

    /** Annulla: takes back the last move, freeing its cells from its end back to the
        previous turn point, or frees the start cell when it is the only one. Reports
        whether there was anything to undo. */
    method Undo() returns (ok: bool)
      requires Valid()
      modifies this`path, this`dirs, cells
      ensures Valid()
      ensures ok == Undone(old(Model())).Some?
      ensures Model() == if ok then Undone(old(Model())).value else old(Model())
    {
      if |dirs| > 0 {
        ghost var g := Model();
        MirrorsAll(cells, g);
        ghost var from := Last(Pop(g));
        ghost var forward := dirs[|dirs| - 1];
        ghost var k := Dist(from, Last(g));
        LastMove(g, from, forward, k);
        var d := Opposite(dirs[|dirs| - 1]);
        dirs := dirs[..|dirs| - 1];
        var current := path[|path| - 1];
        path := path[..|path| - 1];
        Retreat(from, current, d, forward, k);
        forall x, y | 0 <= x < dim && 0 <= y < dim
          ensures cells[x, y] == if OnRay(from, forward, 1, k, Pos(x, y)) then Free else CellAt(g, Pos(x, y))
        {
        }
        PoppedMirrors(cells, g);
        return true;
      } else if |path| > 0 {
        ghost var g := Model();
        MirrorsAll(cells, g);
        Release(path[|path| - 1]);
        path := path[..|path| - 1];
        StartMirrors(cells, g);
        return true;
      }
      return false;
    }

    /** The loop of Annulla: frees cell after cell from current in direction d until
        the next cell is the last remaining turn point. The move being taken back went
        k cells in direction forward from that turn point. */
    method Retreat(ghost from: Pos, current: Pos, d: Dir, ghost forward: Dir, ghost k: nat)
      requires cells.Length0 == dim && cells.Length1 == dim && |path| > 0 && from == path[|path| - 1]
      requires k >= 1 && current == Ray(from, forward, k) && d == Opposite(forward)
      requires forall i :: 1 <= i <= k ==> InBounds(dim, Ray(from, forward, i))
      modifies cells
      ensures forall x, y :: 0 <= x < dim && 0 <= y < dim ==>
                cells[x, y] == if OnRay(from, forward, 1, k, Pos(x, y)) then Free else old(cells[x, y])
    {
      ghost var j := k;
      var here := current;
      while true
        invariant 1 <= j <= k && here == Ray(from, forward, j)
        invariant forall x, y :: 0 <= x < dim && 0 <= y < dim ==>
                    cells[x, y] == if OnRay(from, forward, j + 1, k, Pos(x, y)) then Free else old(cells[x, y])
        decreases j
      {
        Release(here);
        forall x, y | 0 <= x < dim && 0 <= y < dim
          ensures cells[x, y] == if OnRay(from, forward, j, k, Pos(x, y)) then Free else old(cells[x, y])
        {
          OnRayGrowBack(from, forward, j + 1, k, Pos(x, y));
        }
        var next := Step(here, d);
        StepAlongRay(from, forward, j);
        RayDist(from, forward, j - 1);
        if next == path[|path| - 1] {
          assert j == 1;
          return;
        }
        here := next;
        j := j - 1;
      }
    }

    /** Esplora: records the path when the board is solved; otherwise, for each direction
        of DIREZIONI, clicks the neighbour of the last turn point and, when the click
        succeeds, explores on and undoes it. Returns the board as it found it. */
    method Explore()
      requires Valid() && |path| > 0
      modifies this`path, this`dirs, this`solutions, cells
      ensures Valid() && Model() == old(Model())
      ensures solutions == old(solutions) + Explored(old(Model()))
      decreases FreeCount(Model()), 1
    {
      ghost var g := Model();
      ExploredCases(g);
      var solved := Solved();
      if solved {
        solutions := solutions + [Solution(path[0], dirs)];
        return;
      }
      for i := 0 to |Directions|
        invariant Valid() && Model() == g
        invariant solutions == old(solutions) + ExploredDirs(g, Directions[..i])
      {
        ExploredDirsStep(g, Directions, i);
        AppendAssoc(old(solutions), ExploredDirs(g, Directions[..i]), Branch(g, Directions[i]));
        TryDirection(Directions[i]);
      }
      assert Directions[..|Directions|] == Directions;
    }

    /** One turn of the loop of Esplora: clicks the neighbour of the last turn point in
        direction d and, when the click succeeds, explores on and undoes it. */
    method TryDirection(d: Dir)
      requires Valid() && |path| > 0
      modifies this`path, this`dirs, this`solutions, cells
      ensures Valid() && Model() == old(Model())
      ensures solutions == old(solutions) + Branch(old(Model()), d)
      decreases FreeCount(Model()), 0
    {
      ghost var g := Model();
      var target := Step(path[|path| - 1], d);
      BranchClicked(g, d, target);
      var ok := Click(target);
      if ok {
        Explore();
        UndoneClicked(g, target);
        var undone := Undo();
      }
    }

    /** Risolvi: resets the board, then tries every cell as the start, x outer and y inner,
        exploring from each accepted start and undoing it; returns every solution the search records. */
    method Solve() returns (found: seq<Solution>)
      requires forall b :: b in blocked ==> InBounds(dim, b)
      modifies this`cells, this`path, this`dirs, this`solutions
      ensures Valid() && path == [] && dirs == []
      ensures forall x, y :: 0 <= x < dim && 0 <= y < dim ==>
                cells[x, y] == if Pos(x, y) in blocked then Blocked else Free
      ensures found == solutions == AllSolutions(dim, blocked)
    {
      Reset();
      solutions := [];
      for x: nat := 0 to dim
        invariant fresh(cells)
        invariant Valid() && path == [] && dirs == []
        invariant solutions == Columns(dim, blocked, x)
      {
        TryColumn(x);
      }
      EmptyMirrors(cells, Model());
      found := solutions;
    }

    /** The inner loop of Risolvi: tries the start cells (x, 0) .. (x, dim - 1) in turn. */
    method TryColumn(x: nat)
      requires Valid() && path == [] && dirs == []
      modifies this`path, this`dirs, this`solutions, cells
      ensures Valid() && path == [] && dirs == []
      ensures solutions == old(solutions) + Column(dim, blocked, x, dim)
    {
      for y: nat := 0 to dim
        invariant Valid() && path == [] && dirs == []
        invariant solutions == old(solutions) + Column(dim, blocked, x, y)
      {
        AppendAssoc(old(solutions), Column(dim, blocked, x, y), FromStart(dim, blocked, Pos(x, y)));
        TryStart(Pos(x, y));
      }
    }

    /** One turn of the loops of Risolvi: clicks p on the empty board and, when the click
        succeeds, explores from p as the start cell and undoes it. */
    method TryStart(p: Pos)
      requires Valid() && path == [] && dirs == []
      modifies this`path, this`dirs, this`solutions, cells
      ensures Valid() && path == [] && dirs == []
      ensures solutions == old(solutions) + FromStart(dim, blocked, p)
    {
      ghost var g0 := Model();
      StartClicked(dim, blocked, p);
      var ok := Click(p);
      if ok {
        Explore();
        UndoneClicked(g0, p);
        var undone := Undo();
      }
    }
  }

  /** The blocked cells of g lie on the board, its path is legal, and the matrix stores
      its cells. */
  ghost predicate Stores(cells: array2<Cell>, g: Game)
    reads cells
  {
    (forall b :: b in g.blocked ==> InBounds(g.dim, b)) && Legal(g) && Mirrors(cells, g)
  }

  /** The matrix has the side of g and stores its cells, compared column by column.
      The comparison is a recursion over columns and rows rather than a quantifier so
      that the verifier unfolds it only where a proof asks for it (through MirrorsAll);
      a quantified form in Valid() would be instantiated at every array update, which
      makes the loops of Slide and Undo costly to verify. */
  ghost predicate Mirrors(cells: array2<Cell>, g: Game)
    reads cells
    requires WellShaped(g)
  {
    cells.Length0 == g.dim && cells.Length1 == g.dim && ColumnsMirror(cells, g, 0)
  }

  /** Columns x .. g.dim - 1 of the matrix store those of g. */
  ghost predicate ColumnsMirror(cells: array2<Cell>, g: Game, x: nat)
    reads cells
    requires WellShaped(g) && cells.Length0 == g.dim && cells.Length1 == g.dim
    decreases g.dim - x
  {
    x < g.dim ==> ColumnMirrors(cells, g, x, 0) && ColumnsMirror(cells, g, x + 1)
  }

  /** Rows y .. g.dim - 1 of column x of the matrix store those of g. */
  ghost predicate ColumnMirrors(cells: array2<Cell>, g: Game, x: nat, y: nat)
    reads cells
    requires WellShaped(g) && cells.Length0 == g.dim && cells.Length1 == g.dim && x < g.dim
    decreases g.dim - y
  {
    y < g.dim ==> cells[x, y] == CellAt(g, Pos(x, y)) && ColumnMirrors(cells, g, x, y + 1)
  }

  lemma {:induction false} ColumnMirrorsAll(cells: array2<Cell>, g: Game, x: nat, y: nat)
    requires WellShaped(g) && cells.Length0 == g.dim && cells.Length1 == g.dim && x < g.dim
    ensures ColumnMirrors(cells, g, x, y) <==>
              forall j :: y <= j < g.dim ==> cells[x, j] == CellAt(g, Pos(x, j))
    decreases g.dim - y
  {
    if y < g.dim {
      ColumnMirrorsAll(cells, g, x, y + 1);
    }
  }

  lemma {:induction false} ColumnsMirrorAll(cells: array2<Cell>, g: Game, x: nat)
    requires WellShaped(g) && cells.Length0 == g.dim && cells.Length1 == g.dim
    ensures ColumnsMirror(cells, g, x) <==>
              forall i, j :: x <= i < g.dim && 0 <= j < g.dim ==> cells[i, j] == CellAt(g, Pos(i, j))
    decreases g.dim - x
  {
    if x < g.dim {
      ColumnMirrorsAll(cells, g, x, 0);
      ColumnsMirrorAll(cells, g, x + 1);
    }
  }

  /** Mirrors holds exactly when every cell (x, y) of the matrix stores CellAt(g, (x, y)). */
  lemma MirrorsAll(cells: array2<Cell>, g: Game)
    requires WellShaped(g)
    ensures Mirrors(cells, g) <==>
              cells.Length0 == g.dim && cells.Length1 == g.dim &&
              forall x, y :: 0 <= x < g.dim && 0 <= y < g.dim ==> cells[x, y] == CellAt(g, Pos(x, y))
  {
    if cells.Length0 == g.dim && cells.Length1 == g.dim {
      ColumnsMirrorAll(cells, g, 0);
    }
  }

  /** A matrix that stores g with the run of a slide marked occupied stores the slid board. */
  lemma SlidRunMirrors(cells: array2<Cell>, g: Game, d: Dir)
    requires WellShaped(g) && |g.path| > 0
    requires cells.Length0 == g.dim && cells.Length1 == g.dim
    requires forall x, y :: 0 <= x < g.dim && 0 <= y < g.dim ==>
               cells[x, y] == if OnRay(Last(g), d, 1, Run(g, Last(g), d), Pos(x, y)) then Occupied else CellAt(g, Pos(x, y))
    ensures Mirrors(cells, Slid(g, d))
  {
    forall x, y | 0 <= x < g.dim && 0 <= y < g.dim
      ensures cells[x, y] == CellAt(Slid(g, d), Pos(x, y))
    {
      SlidCells(g, d, Pos(x, y));
    }
    MirrorsAll(cells, Slid(g, d));
  }

  /** The last move of a legal board ends one or more cells from the turn point before it. */
  lemma {:induction false} LastMove(g: Game, from: Pos, forward: Dir, k: int)
    requires Legal(g) && |g.dirs| > 0
    requires from == Last(Pop(g)) && forward == g.dirs[|g.dirs| - 1] && k == Dist(from, Last(g))
    ensures |g.path| >= 2 && k >= 1 && Last(g) == Ray(from, forward, k)
    ensures forall i :: 1 <= i <= k ==> InBounds(g.dim, Ray(from, forward, i))
  {
    RunIsMaximal(Pop(g), Last(Pop(g)), g.dirs[|g.dirs| - 1]);
  }

  /** A matrix that stores g with the cells of its last move freed stores the board
      before that move. */
  lemma PoppedMirrors(cells: array2<Cell>, g: Game)
    requires Legal(g) && |g.path| >= 2
    requires cells.Length0 == g.dim && cells.Length1 == g.dim
    requires forall x, y :: 0 <= x < g.dim && 0 <= y < g.dim ==>
               cells[x, y] == if OnRay(Last(Pop(g)), g.dirs[|g.dirs| - 1], 1, Dist(Last(Pop(g)), Last(g)), Pos(x, y))
                              then Free else CellAt(g, Pos(x, y))
    ensures Mirrors(cells, Pop(g))
  {
    forall x, y | 0 <= x < g.dim && 0 <= y < g.dim
      ensures cells[x, y] == CellAt(Pop(g), Pos(x, y))
    {
      PopCells(g, Pos(x, y));
    }
    MirrorsAll(cells, Pop(g));
  }

  /** A matrix that stores a board whose path is only its start cell, with that cell
      freed, stores the empty board. */
  lemma StartMirrors(cells: array2<Cell>, g: Game)
    requires Legal(g) && |g.path| == 1
    requires cells.Length0 == g.dim && cells.Length1 == g.dim
    requires forall x, y :: 0 <= x < g.dim && 0 <= y < g.dim ==>
               cells[x, y] == if Pos(x, y) == g.path[0] then Free else CellAt(g, Pos(x, y))
    ensures Mirrors(cells, Empty(g))
  {
    MirrorsAll(cells, Empty(g));
  }

  /** A matrix that stores a board with no path, with the cell p marked occupied, stores
      the board whose path is the start cell p. */
  lemma StartedMirrors(cells: array2<Cell>, g: Game, p: Pos)
    requires g.path == [] && g.dirs == []
    requires cells.Length0 == g.dim && cells.Length1 == g.dim
    requires forall x, y :: 0 <= x < g.dim && 0 <= y < g.dim ==>
               cells[x, y] == if Pos(x, y) == p then Occupied else CellAt(g, Pos(x, y))
    ensures Mirrors(cells, g.(path := [p]))
  {
    MirrorsAll(cells, g.(path := [p]));
  }

  /** A matrix storing no free cell stores a solved board. */
  lemma NoneFreeIsSolved(cells: array2<Cell>, g: Game)
    requires WellShaped(g) && Mirrors(cells, g)
    requires forall x, y :: 0 <= x < g.dim && 0 <= y < g.dim ==> cells[x, y] != Free
    ensures IsSolved(g)
  {
    MirrorsAll(cells, g);
    forall x, y | 0 <= x < g.dim && 0 <= y < g.dim
      ensures !Open(g, Pos(x, y))
    {
      assert cells[x, y] == CellAt(g, Pos(x, y));
    }
  }

  /** A board with no path is legal, and a matrix stores it exactly when its blocked
      cells are NERA and all others BIANCA. */
  lemma EmptyMirrors(cells: array2<Cell>, g: Game)
    requires g.path == [] && g.dirs == []
    requires cells.Length0 == g.dim && cells.Length1 == g.dim
    ensures Legal(g)
    ensures Mirrors(cells, g) <==>
              forall x, y :: 0 <= x < g.dim && 0 <= y < g.dim ==>
                cells[x, y] == if Pos(x, y) in g.blocked then Blocked else Free
  {
    MirrorsAll(cells, g);
  }

  /** The last turn point of a path lies on the board. */
  lemma {:induction false} LastInBounds(g: Game)
    requires Legal(g) && |g.path| > 0
    ensures InBounds(g.dim, Last(g))
  {
    if |g.path| >= 2 {
      var h := Pop(g);
      RunIsMaximal(h, Last(h), g.dirs[|g.dirs| - 1]);
    }
  }

  /** A matrix that stores g with count cells from the last turn point in direction d
      marked occupied, all of them free in g and the next one not open, stores the
      board slid in direction d, and count is the run of that slide. */
  lemma {:induction false} AdvanceIsRun(cells: array2<Cell>, g: Game, d: Dir, from: Pos, count: nat, current: Pos)
    requires WellShaped(g) && |g.path| > 0 && from == Last(g) && InBounds(g.dim, from)
    requires cells.Length0 == g.dim && cells.Length1 == g.dim
    requires current == Ray(from, d, count) && InBounds(g.dim, current) && !Open(g, Step(current, d))
    requires forall x, y :: 0 <= x < g.dim && 0 <= y < g.dim ==>
               cells[x, y] == if OnRay(from, d, 1, count, Pos(x, y)) then Occupied else CellAt(g, Pos(x, y))
    requires forall x, y :: 0 <= x < g.dim && 0 <= y < g.dim ==>
               OnRay(from, d, 1, count, Pos(x, y)) ==> CellAt(g, Pos(x, y)) == Free
    ensures count == Run(g, from, d)
    ensures count == 0 ==> Slid(g, d) == g
    ensures count > 0 ==> Slid(g, d) == Game(g.dim, g.blocked, g.path + [current], g.dirs + [d])
    ensures Mirrors(cells, Slid(g, d))
  {
    forall i | 1 <= i <= count
      ensures Open(g, Ray(from, d, i))
    {
      var q := Ray(from, d, i);
      OnRayIsRay(from, d, 1, count, q);
      assert InBounds(g.dim, q);
      assert CellAt(g, Pos(q.x, q.y)) == Free;
    }
    StepAlongRay(from, d, count);
    RunIsExact(g, from, d, count);
    SlidRunMirrors(cells, g, d);
  }

}

