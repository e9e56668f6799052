/** A snake: its body (head first), its heading and whether it is alive. */
module Snakes {
  import opened Grid

  /** A value copy of a snake's state, as the tick reads it. */
  datatype SnakeView = SnakeView(body: seq<Cell>, direction: Dir, alive: bool)

  /** The body after one step along `d`: the new head in front, and the old body kept whole
    * when the snake ate, or without its tail otherwise. This is the rule of `Snake.move`
    * and of the tentative bodies the tick computes. */
  function Moved(body: seq<Cell>, d: Dir, ate: bool): (r: seq<Cell>)
    requires |body| > 0
    ensures |r| == |body| + (if ate then 1 else 0)
    ensures r[0] == Step(body[0], d)
    ensures r[1..] <= body
  {
    if ate then [Step(body[0], d)] + body
    else [Step(body[0], d)] + body[..|body| - 1]
  }

  /** The starting body of a snake whose head is `head`: it is extended opposite to the
    * heading `d`, the second cell only if it is on the grid and the third only if the
    * second was added and it is on the grid too. */
  function InitialBody(head: Cell, d: Dir): (r: seq<Cell>)
    ensures 1 <= |r| <= 3 && r[0] == head
    ensures forall k :: 1 <= k < |r| ==> r[k] == Step(r[k - 1], Opposite(d)) && InBounds(r[k])
    ensures |r| < 3 ==> !InBounds(Step(r[|r| - 1], Opposite(d)))
    ensures Distinct(r)
  {
    var back := Opposite(d);
    var second := Step(head, back);
    var third := Step(second, back);
    if InBounds(second) then
      if InBounds(third) then [head, second, third] else [head, second]
    else [head]
  }

  class Snake {
    var body: seq<Cell>
    var direction: Dir
    var alive: bool

    /** A new snake is alive. The display colour is not modelled. */
    constructor (body: seq<Cell>, direction: Dir)
      ensures this.body == body && this.direction == direction && alive
    {
      this.body := body;
      this.direction := direction;
      alive := true;
    }

    function Head(): Cell
      reads this
      requires |body| > 0
    {
      body[0]
    }

    function View(): SnakeView
      reads this
    {
      SnakeView(body, direction, alive)
    }

    /** Takes one step along `newDirection`: inserts the new head at the front and, unless
      * the snake ate, pops the tail; the heading becomes `newDirection`. */
    method Move(newDirection: Dir, ateApple: bool)
      requires |body| > 0
      modifies this
      ensures body == Moved(old(body), newDirection, ateApple)
      ensures |body| == |old(body)| + (if ateApple then 1 else 0)
      ensures direction == newDirection && alive == old(alive)
    {
      var head := Head();
      var newHead := Step(head, newDirection);
      direction := newDirection;
      body := [newHead] + body;
      if !ateApple {
        body := body[..|body| - 1];
      }
    }
  }
}
