/** The arena: the snakes in creation order and the apples, advanced one tick at a time in
  * place, as the main loop does. */
module Arena {
  import opened Grid
  import opened Snakes
  import opened Heuristic
  import opened Apples
  import opened Simulation

  /** Where a snake starts: the cell of its head and its heading. */
  datatype Start = Start(head: Cell, heading: Dir)

  // ---- The phases of the main loop that only compute values from the tick's snapshot ----

  /** Every live snake picks its move on the same snapshot; a dead snake has none (its
    * heading stands in as a placeholder). */
  method Intents(pre: seq<SnakeView>, apples: seq<Cell>) returns (moves: seq<Dir>)
    requires HasHeads(pre)
    ensures moves == Moves(pre, apples)
  {
    moves := [];
    for i := 0 to |pre|
      invariant |moves| == i && forall k :: 0 <= k < i ==> moves[k] == Intent(pre, apples, k)
    {
      var d;
      if pre[i].alive {
        d := ChooseDirection(pre, i, apples);
      } else {
        d := pre[i].direction;
      }
      moves := moves + [d];
    }
  }

  /** Which live snakes move onto an apple, and the set of apples so claimed. */
  method Feeding(pre: seq<SnakeView>, moves: seq<Dir>, apples: seq<Cell>) returns (ate: seq<bool>, eaten: set<Cell>)
    requires |pre| == |moves| && HasHeads(pre)
    ensures ate == AteFlags(pre, moves, apples)
    ensures eaten == Claimed(pre, moves, apples)
  {
    ate := [];
    eaten := {};
    for i := 0 to |pre|
      invariant |ate| == i && forall k :: 0 <= k < i ==> (ate[k] <==> pre[k].alive && NewHead(pre, moves, k) in apples)
      invariant eaten == set k | 0 <= k < i && pre[k].alive && NewHead(pre, moves, k) in apples :: NewHead(pre, moves, k)
    {
      if pre[i].alive {
        var newHead := Step(pre[i].body[0], moves[i]);
        assert newHead == NewHead(pre, moves, i);
        if newHead in apples {
          ate := ate + [true];
          eaten := eaten + {newHead};
        } else {
          ate := ate + [false];
        }
      } else {
        ate := ate + [false];
      }
    }
  }

  /** The body every live snake would have after its move; a dead snake's stands at its
    * current body. */
  method NewBodies(pre: seq<SnakeView>, moves: seq<Dir>, ate: seq<bool>) returns (newBodies: seq<seq<Cell>>)
    requires |pre| == |moves| == |ate| && HasHeads(pre)
    ensures newBodies == Tentative(pre, moves, ate)
  {
    newBodies := [];
    for i := 0 to |pre|
      invariant |newBodies| == i
      invariant forall k :: 0 <= k < i ==>
        newBodies[k] == if pre[k].alive then Moved(pre[k].body, moves[k], ate[k]) else pre[k].body
    {
      var body := pre[i].body;
      if pre[i].alive {
        var newHead := Step(body[0], moves[i]);
        if ate[i] {
          newBodies := newBodies + [[newHead] + body];
        } else {
          newBodies := newBodies + [[newHead] + body[..|body| - 1]];
        }
      } else {
        newBodies := newBodies + [body];
      }
    }
  }

  // ---- Placement of the starting snakes ----

  /** The snakes of the set-up as values: one live snake per start, with its initial body. */
  function Initial(starts: seq<Start>): (v: seq<SnakeView>)
    ensures |v| == |starts|
    ensures forall i :: 0 <= i < |starts| ==>
      v[i] == SnakeView(InitialBody(starts[i].head, starts[i].heading), starts[i].heading, true)
  {
    seq(|starts|, i requires 0 <= i < |starts| =>
      SnakeView(InitialBody(starts[i].head, starts[i].heading), starts[i].heading, true))
  }

  /** The cells the set-up records as taken once the snakes of `starts` are placed. */
  function Taken(starts: seq<Start>): (t: set<Cell>)
    ensures forall c :: c in t <==>
      exists k :: 0 <= k < |starts| && c in InitialBody(starts[k].head, starts[k].heading)
  {
    if starts == [] then {}
    else
      var prev := starts[..|starts| - 1];
      var last := starts[|starts| - 1];
      var t := Taken(prev) + set c | c in InitialBody(last.head, last.heading);
      assert forall k :: 0 <= k < |prev| ==> prev[k] == starts[k];
      t
  }

  /** The placement check as written: each start is accepted when its head is on no cell
    * taken by the snakes placed before it; the rest of its body is not checked. */
  predicate PlacedAsWritten(starts: seq<Start>)
  {
    forall i :: 0 <= i < |starts| ==> starts[i].head !in Taken(starts[..i])
  }

  /** The head-only check lets two starting bodies overlap: a snake with head (5, 5) heading
    * up takes (5, 6) and (5, 7), and a snake with head (4, 6) heading left then passes the
    * check although its body runs through (5, 6). */
  lemma HeadCheckOverlap()
    ensures var starts := [Start(Cell(5, 5), Up), Start(Cell(4, 6), Left)];
      && (forall i :: 0 <= i < |starts| ==> InBounds(starts[i].head))
      && PlacedAsWritten(starts)
      && !LiveDisjoint(Initial(starts))
  {
    var starts := [Start(Cell(5, 5), Up), Start(Cell(4, 6), Left)];
    var a := InitialBody(Cell(5, 5), Up);
    var b := InitialBody(Cell(4, 6), Left);
    assert a == [Cell(5, 5), Cell(5, 6), Cell(5, 7)];
    assert b == [Cell(4, 6), Cell(5, 6), Cell(6, 6)];
    assert starts[..0] == [] && starts[..1] == [starts[0]];
    assert Cell(4, 6) !in Taken(starts[..1]);
    var v := Initial(starts);
    assert Cell(5, 6) in v[0].body && Cell(5, 6) in v[1].body;
  }

  /** The placement check the set-up evidently intends: no cell of a start's initial body
    * is taken by the snakes placed before it. */
  predicate PlacedApart(starts: seq<Start>)
  {
    forall i :: 0 <= i < |starts| ==>
      forall c :: c in InitialBody(starts[i].head, starts[i].heading) ==> c !in Taken(starts[..i])
  }

  /** With the whole-body check, no two starting snakes share a cell. */
  lemma PlacedApartDisjoint(starts: seq<Start>)
    requires PlacedApart(starts)
    ensures LiveDisjoint(Initial(starts))
  {
    var v := Initial(starts);
    forall i, j | 0 <= i < j < |starts| ensures Disjoint(v[i].body, v[j].body) && Disjoint(v[j].body, v[i].body) {
      var prefix := starts[..j];
      assert prefix[i] == starts[i];
      forall c | c in v[i].body ensures c !in v[j].body {
        assert c in Taken(prefix);
      }
    }
  }

  /** The snakes of the set-up, one per start and in that order, each a new live object with
    * its initial body. */
  method CreateSnakes(starts: seq<Start>) returns (created: seq<Snake>)
    requires forall i :: 0 <= i < |starts| ==> InBounds(starts[i].head)
    ensures |created| == |starts|
    ensures forall i :: 0 <= i < |starts| ==>
      fresh(created[i]) && created[i].View() == SnakeView(InitialBody(starts[i].head, starts[i].heading), starts[i].heading, true)
    ensures forall i, j :: 0 <= i < j < |created| ==> created[i] != created[j]
    ensures forall i :: 0 <= i < |created| ==> BodyOk(created[i].body)
  {
    created := [];
    for i := 0 to |starts|
      invariant |created| == i
      invariant forall k :: 0 <= k < i ==>
        fresh(created[k]) && created[k].View() == SnakeView(InitialBody(starts[k].head, starts[k].heading), starts[k].heading, true)
      invariant forall k, l :: 0 <= k < l < i ==> created[k] != created[l]
      invariant forall k :: 0 <= k < i ==> BodyOk(created[k].body)
    {
      var body := InitialBody(starts[i].head, starts[i].heading);
      var snake := new Snake(body, starts[i].heading);
      created := created + [snake];
    }
  }

  /** The phases before the collision pass: intents, growth flags and claimed apples, and
    * the tentative bodies. */
  method PlanMoves(pre: seq<SnakeView>, apples: seq<Cell>) returns (eaten: set<Cell>, newBodies: seq<seq<Cell>>)
    requires HasHeads(pre)
    ensures eaten == PlanOf(World(pre, apples)).claimed
    ensures newBodies == PlanOf(World(pre, apples)).tentative
  {
    var moves := Intents(pre, apples);
    var ate;
    ate, eaten := Feeding(pre, moves, apples);
    newBodies := NewBodies(pre, moves, ate);
  }

  class Arena {
    var snakes: seq<Snake>
    var apples: seq<Cell>

    /** The snakes' current state, read off the objects. */
    function Views(): (v: seq<SnakeView>)
      reads this, snakes
      ensures |v| == |snakes| && forall i :: 0 <= i < |snakes| ==> v[i] == snakes[i].View()
    {
      seq(|snakes|, i reads this, snakes requires 0 <= i < |snakes| => snakes[i].View())
    }

    function State(): World
      reads this, snakes
    {
      World(Views(), apples)
    }

    /** No snake object appears twice. */
    predicate Separate()
      reads this
    {
      forall i, j :: 0 <= i < j < |snakes| ==> snakes[i] != snakes[j]
    }

    /** The snakes are distinct objects and the arena's state is well formed. */
    ghost predicate Valid()
      reads this, snakes
    {
      Separate() && WellFormed(State())
    }

    /** The set-up: one live snake per start, with its initial body, in the order given; then
      * up to `NumApples` apples, spawned one by one while free cells remain. */
    constructor (starts: seq<Start>, rng: nat -> nat)
      requires forall i :: 0 <= i < |starts| ==> InBounds(starts[i].head)
      ensures Valid()
      ensures |snakes| == |starts|
      ensures forall i :: 0 <= i < |starts| ==>
        fresh(snakes[i]) && snakes[i].View() == SnakeView(InitialBody(starts[i].head, starts[i].heading), starts[i].heading, true)
      ensures apples == Refill(Bodies(Views()), [], rng)
      ensures PlacedApart(starts) ==> LiveDisjoint(Views())
    {
      var created := CreateSnakes(starts);
      snakes := created;
      apples := [];
      new;
      var v := Views();
      var bodies := Bodies(v);
      apples := FillApples(bodies, rng);
      assert Views() == v;
      InitialWellFormed(v, rng);
      assert v == Initial(starts);
      if PlacedApart(starts) {
        PlacedApartDisjoint(starts);
      }
    }

    /** Whether the new head of snake `i` lies in the tentative body of another snake alive
      * now; the scan stops at the first such snake. */
    method PeerHit(i: nat, newBodies: seq<seq<Cell>>) returns (hit: bool)
      requires i < |snakes| == |newBodies| && AllHeaded(newBodies) && Separate()
      ensures hit <==> HitsPeer(newBodies, AliveFlags(Views()), i)
    {
      var snake := snakes[i];
      var head := newBodies[i][0];
      for j := 0 to |snakes|
        invariant forall k :: 0 <= k < j && k != i && snakes[k].alive ==> head !in newBodies[k]
      {
        var other := snakes[j];
        if other == snake || !other.alive {
          continue;
        }
        if head in newBodies[j] {
          assert AliveFlags(Views())[j];
          return true;
        }
      }
      return false;
    }

    /** The collision checks of snake `i`, if it is alive: the grid's edges, its own tentative
      * body, then the other live snakes. Only its liveness flag may change. */
    method Judge(i: nat, newBodies: seq<seq<Cell>>)
      requires i < |snakes| == |newBodies| && AllHeaded(newBodies) && Separate()
      modifies snakes[i]
      ensures snakes[i].body == old(snakes[i].body) && snakes[i].direction == old(snakes[i].direction)
      ensures snakes[i].alive == (old(snakes[i].alive) && !Crashes(newBodies, old(AliveFlags(Views())), i))
    {
      var snake := snakes[i];
      if !snake.alive {
        return;
      }
      var newBody := newBodies[i];
      var head := newBody[0];
      if !InBounds(head) {
        snake.alive := false;
        return;
      }
      if head in newBody[1..] {
        snake.alive := false;
        return;
      }
      var hit := PeerHit(i, newBodies);
      if hit {
        snake.alive := false;
      }
    }

    /** The collision pass: snakes in creation order, each live one killed when its new head is
      * off the grid, on its own tentative body, or on that of a snake still alive. Only the
      * liveness flags change. */
    method Collide(newBodies: seq<seq<Cell>>)
      requires |newBodies| == |snakes| && AllHeaded(newBodies) && Separate()
      modifies snakes
      ensures forall k :: 0 <= k < |snakes| ==>
        snakes[k].body == old(snakes[k].body) && snakes[k].direction == old(snakes[k].direction)
      ensures AliveFlags(Views()) == Resolve(old(Views()), newBodies, |snakes|)
    {
      ghost var pre := Views();
      for i := 0 to |snakes|
        invariant forall k :: 0 <= k < |snakes| ==>
          snakes[k].body == pre[k].body && snakes[k].direction == pre[k].direction
        invariant forall k :: 0 <= k < |snakes| ==> snakes[k].alive == Resolve(pre, newBodies, i)[k]
      {
        assert AliveFlags(Views()) == Resolve(pre, newBodies, i);
        Judge(i, newBodies);
      }
      assert AliveFlags(Views()) == Resolve(pre, newBodies, |snakes|);
    }

    /** Survivors that had a tentative body take it; everything else stays. */
    method CommitBodies(pre: seq<SnakeView>, newBodies: seq<seq<Cell>>)
      requires |pre| == |newBodies| == |snakes| && Separate()
      requires forall k :: 0 <= k < |snakes| ==>
        snakes[k].body == pre[k].body && snakes[k].direction == pre[k].direction
      modifies snakes
      ensures Views() == Commit(pre, newBodies, old(AliveFlags(Views())))
    {
      ghost var survivors := AliveFlags(Views());
      for i := 0 to |snakes|
        invariant forall k :: 0 <= k < |snakes| ==>
          snakes[k].alive == survivors[k] && snakes[k].direction == pre[k].direction
        invariant forall k :: 0 <= k < i ==>
          snakes[k].body == if survivors[k] && pre[k].alive then newBodies[k] else pre[k].body
        invariant forall k :: i <= k < |snakes| ==> snakes[k].body == pre[k].body
      {
        if snakes[i].alive && pre[i].alive {
          snakes[i].body := newBodies[i];
        }
      }
    }

    /** The snake phases of a tick: intents, growth flags and claimed apples, tentative
      * bodies, the collision pass and the commit. Returns the claimed apples. */
    method AdvanceSnakes() returns (eaten: set<Cell>)
      requires Separate() && HasHeads(Views())
      modifies snakes
      ensures Views() == Advanced(old(State()))
      ensures eaten == PlanOf(old(State())).claimed
    {
      var pre := Views();
      var newBodies;
      eaten, newBodies := PlanMoves(pre, apples);
      Collide(newBodies);
      CommitBodies(pre, newBodies);
    }

    /** One tick of the main loop. The heading field is never written. */
    method Tick(rng: nat -> nat)
      requires Valid()
      modifies this, snakes
      ensures Valid()
      ensures snakes == old(snakes)
      ensures State() == TickWorld(old(State()), rng)
    {
      ghost var w := State();
      var eaten := AdvanceSnakes();
      var moved := Views();
      var kept := RemoveEaten(apples, eaten);
      assert kept == Kept(w);
      apples := TopUp(Bodies(moved), kept, rng);
      assert Views() == moved;
      TickWellFormed(w, rng);
    }
  }
}
