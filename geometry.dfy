/** Directions of movement and positions on the board plane
    (the Direzione and Posizione classes of the engine). */
module Geometry {

  datatype Option<T> = None | Some(value: T)

  /** One of the four cardinal directions NORD, EST, SUD, OVEST. */
  datatype Dir = North | East | South | West

  /** A cell coordinate: x grows towards East, y grows towards South. */
  datatype Pos = Pos(x: int, y: int)

  /** DIREZIONI: the fixed order in which the solver tries directions. */
  const Directions: seq<Dir> := [North, East, South, West]

  /** The x component of the direction's delta pair. */
  function DeltaX(d: Dir): int {
    match d
    case East => 1
    case West => -1
    case _ => 0
  }

  /** The y component of the direction's delta pair. */
  function DeltaY(d: Dir): int {
    match d
    case North => -1
    case South => 1
    case _ => 0
  }

  /** Opposta: the inverse direction. */
  function Opposite(d: Dir): (r: Dir)
    ensures DeltaX(r) == -DeltaX(d) && DeltaY(r) == -DeltaY(d)
    ensures r != d
  {
    match d
    case North => South
    case South => North
    case East => West
    case West => East
  }

  /** Contigua: the neighbouring cell in direction d. */
  function Step(p: Pos, d: Dir): Pos {
    Pos(p.x + DeltaX(d), p.y + DeltaY(d))
  }

  function Abs(n: int): nat {
    if n < 0 then -n else n
  }

  /** Manhattan distance; for aligned cells it is the number of steps between them. */
  function Dist(p: Pos, q: Pos): nat {
    Abs(p.x - q.x) + Abs(p.y - q.y)
  }

  /** The cell reached from p by k steps in direction d. */
  function Ray(p: Pos, d: Dir, k: int): Pos {
    match d
    case North => Pos(p.x, p.y - k)
    case East => Pos(p.x + k, p.y)
    case South => Pos(p.x, p.y + k)
    case West => Pos(p.x - k, p.y)
  }

  /** Posizione.Direzione: the direction leading from p towards an aligned q, or None
      when q is p itself or shares neither coordinate with p. */
  function DirectionTo(p: Pos, q: Pos): (r: Option<Dir>)
    ensures r.None? <==> p == q || (p.x != q.x && p.y != q.y)
    ensures r.Some? ==> Dist(p, q) >= 1 && q == Ray(p, r.value, Dist(p, q))
  {
    if q.x == p.x then
      if q.y > p.y then Some(South)
      else if q.y < p.y then Some(North)
      else None
    else if q.y == p.y then
      if q.x > p.x then Some(East)
      else if q.x < p.x then Some(West)
      else None
    else None
  }

  /** k steps along a ray lead k cells away, and only zero steps lead back to p. */
  lemma RayDist(p: Pos, d: Dir, k: int)
    ensures k >= 0 ==> Dist(p, Ray(p, d, k)) == k
    ensures (Ray(p, d, k) == p) == (k == 0)
  {
  }

  /** Opposta is an involution: NORD and SUD, EST and OVEST are swapped. */
  lemma OppositeIsInvolution(d: Dir)
    ensures Opposite(Opposite(d)) == d
    ensures Opposite(North) == South && Opposite(East) == West
  {
  }

  /** Stepping by d and then by Opposite(d) returns to the start. */
  lemma StepThenBack(p: Pos, d: Dir)
    ensures Step(Step(p, d), Opposite(d)) == p
  {
  }

  /** A step forwards or backwards moves one cell along the ray. */
  lemma StepAlongRay(p: Pos, d: Dir, k: int)
    ensures Step(Ray(p, d, k), d) == Ray(p, d, k + 1)
    ensures Step(Ray(p, d, k), Opposite(d)) == Ray(p, d, k - 1)
  {
  }

  /** The ray from the neighbour in direction d is the ray from p, one cell on. */
  lemma RayFromNeighbour(p: Pos, d: Dir, k: int)
    ensures Ray(Step(p, d), d, k) == Ray(p, d, k + 1)
    ensures Step(p, d) == Ray(p, d, 1)
  {
  }

  /** The direction returned by DirectionTo is the unique one leading to a cell one or
      more steps away. */
  lemma DirectionToRay(p: Pos, d: Dir, k: int)
    requires k >= 1
    ensures DirectionTo(p, Ray(p, d, k)) == Some(d)
  {
  }
}
