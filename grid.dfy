/** Geometry of the simulation grid: cells, the four headings, containment and distance. */
module Grid {

  /** The grid is GridWidth x GridHeight cells; these are the program's fixed settings. */
  const GridWidth: int := 30
  const GridHeight: int := 30

  /** The number of apples the arena keeps on the board when it can. */
  const NumApples: nat := 5

  /** A grid cell (x, y); x grows to the right and y grows downwards, as on screen. */
  datatype Cell = Cell(x: int, y: int)

  /** The four headings, each standing for a unit vector (dx, dy). */
  datatype Dir = Up | Down | Left | Right

  /** The order in which the heuristic tries the headings: up, down, left, right. */
  const Directions: seq<Dir> := [Up, Down, Left, Right]

  function Dx(d: Dir): int
  {
    match d
    case Left => -1
    case Right => 1
    case _ => 0
  }

  function Dy(d: Dir): int
  {
    match d
    case Up => -1
    case Down => 1
    case _ => 0
  }

  /** The heading pointing the other way: (-dx, -dy). */
  function Opposite(d: Dir): (r: Dir)
    ensures Dx(r) == -Dx(d) && Dy(r) == -Dy(d)
  {
    match d
    case Up => Down
    case Down => Up
    case Left => Right
    case Right => Left
  }

  /** The position of a heading in `Directions`. */
  function Rank(d: Dir): (k: nat)
    ensures k < |Directions| && Directions[k] == d
  {
    match d
    case Up => 0
    case Down => 1
    case Left => 2
    case Right => 3
  }

  /** The cell one step from `c` along `d`. */
  function Step(c: Cell, d: Dir): Cell
  {
    Cell(c.x + Dx(d), c.y + Dy(d))
  }

  predicate InBounds(c: Cell)
  {
    0 <= c.x < GridWidth && 0 <= c.y < GridHeight
  }

  function Abs(n: int): nat
  {
    if n < 0 then -n else n
  }

  function Manhattan(a: Cell, b: Cell): nat
  {
    Abs(a.x - b.x) + Abs(a.y - b.y)
  }

  /** The target used when there is no apple: (GridWidth // 2, GridHeight // 2). */
  const Center: Cell := Cell(GridWidth / 2, GridHeight / 2)

  /** No element of `s` occurs twice. */
  predicate Distinct<T(==)>(s: seq<T>)
  {
    forall i, j :: 0 <= i < j < |s| ==> s[i] != s[j]
  }

  function Last<T>(s: seq<T>): T
    requires |s| > 0
  {
    s[|s| - 1]
  }
}
