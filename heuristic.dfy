/** The greedy one-step heuristic a live snake uses to pick its next heading.
  * The snakes are read from a value snapshot; snake `me` is the one choosing, so
  * "another snake" is any index other than `me`. */
module Heuristic {
  import opened Grid
  import opened Snakes

  /** The choosing snake exists and has a head. */
  predicate WellPosed(views: seq<SnakeView>, me: nat)
  {
    me < |views| && |views[me].body| > 0
  }

  /** The index of the first apple nearest to `head` by Manhattan distance
    * (a later apple replaces the current best only when strictly nearer). */
  function NearestIndex(head: Cell, apples: seq<Cell>): (k: nat)
    requires |apples| > 0
    ensures k < |apples|
    ensures forall j :: 0 <= j < |apples| ==> Manhattan(head, apples[k]) <= Manhattan(head, apples[j])
    ensures forall j :: 0 <= j < k ==> Manhattan(head, apples[k]) < Manhattan(head, apples[j])
    decreases |apples|
  {
    if |apples| == 1 then 0
    else
      var k := NearestIndex(head, apples[..|apples| - 1]);
      if Manhattan(head, apples[|apples| - 1]) < Manhattan(head, apples[k]) then |apples| - 1 else k
  }

  /** What the snake aims at: the first nearest apple, or the grid centre when there is none. */
  function Target(head: Cell, apples: seq<Cell>): (t: Cell)
    ensures |apples| == 0 ==> t == Center
    ensures |apples| > 0 ==> t in apples && forall a :: a in apples ==> Manhattan(head, t) <= Manhattan(head, a)
    ensures |apples| > 0 ==>
      exists k :: 0 <= k < |apples| && t == apples[k] && forall j :: 0 <= j < k ==> Manhattan(head, t) < Manhattan(head, apples[j])
  {
    if |apples| == 0 then Center
    else
      var k := NearestIndex(head, apples);
      assert apples[k] == apples[k];
      apples[k]
  }

  /** A cell of the snake's own body blocks it, unless it is the tail and not an apple
    * (the tail moves away when the snake does not grow). */
  predicate SelfBlocks(body: seq<Cell>, apples: seq<Cell>, c: Cell)
    requires |body| > 0
  {
    c in body && !(c == Last(body) && c !in apples)
  }

  /** Snake `j` is another snake that is alive. */
  predicate IsPeer(views: seq<SnakeView>, me: nat, j: int)
  {
    0 <= j < |views| && j != me && views[j].alive
  }

  /** A cell of another snake's body blocks, unless that snake is longer than one cell and
    * the cell is its tail. */
  predicate PeerBlocks(v: SnakeView, c: Cell)
  {
    c in v.body && !(|v.body| > 1 && c == Last(v.body))
  }

  /** The heuristic rejects `c` as the next head. */
  predicate Rejected(views: seq<SnakeView>, me: nat, apples: seq<Cell>, c: Cell)
    requires WellPosed(views, me)
  {
    || !InBounds(c)
    || SelfBlocks(views[me].body, apples, c)
    || exists j :: 0 <= j < |views| && IsPeer(views, me, j) && PeerBlocks(views[j], c)
  }

  /** Cell `c` lies in the body of the peer `j`. */
  predicate Hazard(views: seq<SnakeView>, me: nat, c: Cell, j: int)
  {
    IsPeer(views, me, j) && c in views[j].body
  }

  /** The number of peers among the first `k` snakes whose body holds `c`. */
  function HazardsBelow(views: seq<SnakeView>, me: nat, c: Cell, k: nat): nat
    requires k <= |views|
  {
    if k == 0 then 0
    else HazardsBelow(views, me, c, k - 1) + (if Hazard(views, me, c, k - 1) then 1 else 0)
  }

  /** `HazardsBelow` counts exactly the peers whose body holds `c`. */
  lemma {:induction false} HazardsCount(views: seq<SnakeView>, me: nat, c: Cell, k: nat)
    requires k <= |views|
    ensures HazardsBelow(views, me, c, k) == |set j | 0 <= j < k && Hazard(views, me, c, j)|
  {
    if k > 0 {
      HazardsCount(views, me, c, k - 1);
      var below := set j | 0 <= j < k - 1 && Hazard(views, me, c, j);
      var upTo := set j | 0 <= j < k && Hazard(views, me, c, j);
      OneMore(below, upTo, k - 1, Hazard(views, me, c, k - 1));
    }
  }

  /** Adding at most one fresh element grows a set's size by at most one. */
  lemma OneMore(below: set<int>, upTo: set<int>, x: int, b: bool)
    requires x !in below
    requires forall j :: j in upTo <==> j in below || (b && j == x)
    ensures |upTo| == |below| + (if b then 1 else 0)
  {
    if b {
      forall j ensures j in upTo <==> j in below + {x} {
      }
      assert upTo == below + {x};
    } else {
      forall j ensures j in upTo <==> j in below {
      }
      assert upTo == below;
    }
  }

  /** The number of (neighbour, peer) pairs over the first `u` neighbours of `c`, in the
    * order of `Directions`, where the peer's body holds the neighbour. */
  function NeighbourHazards(views: seq<SnakeView>, me: nat, c: Cell, u: nat): nat
    requires u <= |Directions|
  {
    if u == 0 then 0
    else NeighbourHazards(views, me, c, u - 1) + HazardsBelow(views, me, Step(c, Directions[u - 1]), |views|)
  }

  /** Two points for every (neighbour, peer) pair where the peer occupies the neighbour. */
  function Penalty(views: seq<SnakeView>, me: nat, c: Cell): nat
  {
    2 * NeighbourHazards(views, me, c, |Directions|)
  }

  /** No peer among the first `k` holds `c` exactly when the count is zero. */
  lemma {:induction false} HazardsZero(views: seq<SnakeView>, me: nat, c: Cell, k: nat)
    requires k <= |views|
    ensures HazardsBelow(views, me, c, k) == 0 <==> forall j :: 0 <= j < k ==> !Hazard(views, me, c, j)
  {
    if k > 0 {
      HazardsZero(views, me, c, k - 1);
    }
  }

  /** There is no penalty exactly when no neighbour of `c` lies in a peer's body. */
  lemma PenaltyZero(views: seq<SnakeView>, me: nat, c: Cell)
    ensures Penalty(views, me, c) == 0 <==>
      forall t, j :: 0 <= t < |Directions| && 0 <= j < |views| ==> !Hazard(views, me, Step(c, Directions[t]), j)
  {
    NeighbourHazardsZero(views, me, c, |Directions|);
  }

  lemma {:induction false} NeighbourHazardsZero(views: seq<SnakeView>, me: nat, c: Cell, u: nat)
    requires u <= |Directions|
    ensures NeighbourHazards(views, me, c, u) == 0 <==>
      forall t, j :: 0 <= t < u && 0 <= j < |views| ==> !Hazard(views, me, Step(c, Directions[t]), j)
  {
    if u > 0 {
      NeighbourHazardsZero(views, me, c, u - 1);
      HazardsZero(views, me, Step(c, Directions[u - 1]), |views|);
    }
  }

  /** The cell the head would move to along `d`. */
  function NextCell(views: seq<SnakeView>, me: nat, d: Dir): Cell
    requires WellPosed(views, me)
  {
    Step(views[me].body[0], d)
  }

  /** Heading `d` survives the rejection rules. */
  predicate Viable(views: seq<SnakeView>, me: nat, apples: seq<Cell>, d: Dir)
    requires WellPosed(views, me)
  {
    !Rejected(views, me, apples, NextCell(views, me, d))
  }

  /** The total cost of heading `d`: distance from the next cell to the target plus the penalty. */
  function MoveCost(views: seq<SnakeView>, me: nat, apples: seq<Cell>, d: Dir): nat
    requires WellPosed(views, me)
  {
    var next := NextCell(views, me, d);
    Manhattan(next, Target(views[me].body[0], apples)) + Penalty(views, me, next)
  }

  datatype Candidate = Candidate(cost: int, dir: Dir)

  /** The candidates collected from the first `t` headings of `Directions`, in that order. */
  function CandidatesUpTo(views: seq<SnakeView>, me: nat, apples: seq<Cell>, t: nat): seq<Candidate>
    requires WellPosed(views, me) && t <= |Directions|
  {
    if t == 0 then []
    else
      var d := Directions[t - 1];
      CandidatesUpTo(views, me, apples, t - 1)
        + (if Viable(views, me, apples, d) then [Candidate(MoveCost(views, me, apples, d), d)] else [])
  }

  /** One more heading tried keeps the earlier candidates and adds one when it is viable. */
  lemma CandidatesStep(views: seq<SnakeView>, me: nat, apples: seq<Cell>, t: nat)
    requires WellPosed(views, me) && 0 < t <= |Directions|
    ensures var prev := CandidatesUpTo(views, me, apples, t - 1);
      var cs := CandidatesUpTo(views, me, apples, t);
      var d := Directions[t - 1];
      && Rank(d) == t - 1
      && (forall k :: 0 <= k < |prev| ==> cs[k] == prev[k])
      && (Viable(views, me, apples, d) ==> |cs| == |prev| + 1 && cs[|prev|] == Candidate(MoveCost(views, me, apples, d), d))
      && (!Viable(views, me, apples, d) ==> cs == prev)
  {
  }

  /** Every collected candidate is a viable heading among the first `t`, with its cost. */
  lemma {:induction false} CandidatesSound(views: seq<SnakeView>, me: nat, apples: seq<Cell>, t: nat)
    requires WellPosed(views, me) && t <= |Directions|
    ensures forall k :: 0 <= k < |CandidatesUpTo(views, me, apples, t)| ==>
      var c := CandidatesUpTo(views, me, apples, t)[k];
      Rank(c.dir) < t && Viable(views, me, apples, c.dir) && c.cost == MoveCost(views, me, apples, c.dir)
  {
    if t > 0 {
      CandidatesSound(views, me, apples, t - 1);
      CandidatesStep(views, me, apples, t);
    }
  }

  /** The candidates come in strictly increasing rank. */
  lemma {:induction false} CandidatesOrdered(views: seq<SnakeView>, me: nat, apples: seq<Cell>, t: nat)
    requires WellPosed(views, me) && t <= |Directions|
    ensures var cs := CandidatesUpTo(views, me, apples, t);
      forall k1, k2 :: 0 <= k1 < k2 < |cs| ==> Rank(cs[k1].dir) < Rank(cs[k2].dir)
  {
    if t > 0 {
      CandidatesOrdered(views, me, apples, t - 1);
      CandidatesSound(views, me, apples, t - 1);
      CandidatesStep(views, me, apples, t);
    }
  }

  /** Every viable heading among the first `t` is collected. */
  lemma {:induction false} CandidatesComplete(views: seq<SnakeView>, me: nat, apples: seq<Cell>, t: nat, e: Dir)
    requires WellPosed(views, me) && t <= |Directions|
    requires Rank(e) < t && Viable(views, me, apples, e)
    ensures var cs := CandidatesUpTo(views, me, apples, t);
      exists k :: 0 <= k < |cs| && cs[k].dir == e
  {
    var prev := CandidatesUpTo(views, me, apples, t - 1);
    var cs := CandidatesUpTo(views, me, apples, t);
    CandidatesStep(views, me, apples, t);
    if Rank(e) == t - 1 {
      assert Directions[t - 1] == e;
      assert cs[|prev|].dir == e;
    } else {
      CandidatesComplete(views, me, apples, t - 1, e);
      var k :| 0 <= k < |prev| && prev[k].dir == e;
      assert cs[k].dir == e;
    }
  }

  /** The position of the first cheapest candidate: what a stable sort by cost puts first. */
  function FirstMin(cs: seq<Candidate>): (k: nat)
    requires |cs| > 0
    ensures k < |cs|
    ensures forall j :: 0 <= j < |cs| ==> cs[k].cost <= cs[j].cost
    ensures forall j :: 0 <= j < k ==> cs[k].cost < cs[j].cost
    decreases |cs|
  {
    if |cs| == 1 then 0
    else
      var k := FirstMin(cs[..|cs| - 1]);
      if cs[|cs| - 1].cost < cs[k].cost then |cs| - 1 else k
  }

  /** The heading the heuristic picks: the first cheapest candidate, or the snake's own
    * heading when there is no candidate. */
  function Choice(views: seq<SnakeView>, me: nat, apples: seq<Cell>): (d: Dir)
    requires WellPosed(views, me)
    ensures (exists e :: Viable(views, me, apples, e)) ==>
      && Viable(views, me, apples, d)
      && (forall e :: Viable(views, me, apples, e) ==>
            MoveCost(views, me, apples, d) <= MoveCost(views, me, apples, e))
      && (forall e :: Viable(views, me, apples, e) && Rank(e) < Rank(d) ==>
            MoveCost(views, me, apples, d) < MoveCost(views, me, apples, e))
    ensures (forall e :: !Viable(views, me, apples, e)) ==> d == views[me].direction
  {
    ChoiceFacts(views, me, apples);
    var cs := CandidatesUpTo(views, me, apples, |Directions|);
    if |cs| == 0 then views[me].direction else cs[FirstMin(cs)].dir
  }

  /** When some heading is viable, the first cheapest candidate is a viable heading of least
    * cost, and every viable heading tried before it costs strictly more; when none is, there
    * is no candidate. */
  lemma {:induction false} ChoiceFacts(views: seq<SnakeView>, me: nat, apples: seq<Cell>)
    requires WellPosed(views, me)
    ensures var cs := CandidatesUpTo(views, me, apples, |Directions|);
      && (|cs| == 0 <==> forall e :: !Viable(views, me, apples, e))
      && (|cs| > 0 ==>
            var d := cs[FirstMin(cs)].dir;
            && Viable(views, me, apples, d)
            && (forall e :: Viable(views, me, apples, e) ==>
                  MoveCost(views, me, apples, d) <= MoveCost(views, me, apples, e))
            && (forall e :: Viable(views, me, apples, e) && Rank(e) < Rank(d) ==>
                  MoveCost(views, me, apples, d) < MoveCost(views, me, apples, e)))
  {
    var cs := CandidatesUpTo(views, me, apples, |Directions|);
    if |cs| == 0 {
      NoCandidates(views, me, apples);
    } else {
      BestCandidate(views, me, apples);
    }
    CandidatesSound(views, me, apples, |Directions|);
  }

  /** With no candidate, no heading is viable. */
  lemma NoCandidates(views: seq<SnakeView>, me: nat, apples: seq<Cell>)
    requires WellPosed(views, me) && |CandidatesUpTo(views, me, apples, |Directions|)| == 0
    ensures forall e :: !Viable(views, me, apples, e)
  {
    forall e | Viable(views, me, apples, e) ensures false {
      CandidatesComplete(views, me, apples, |Directions|, e);
    }
  }

  /** The first cheapest candidate costs no more than any viable heading, and strictly less
    * than any viable heading tried before it. */
  lemma BestCandidate(views: seq<SnakeView>, me: nat, apples: seq<Cell>)
    requires WellPosed(views, me) && |CandidatesUpTo(views, me, apples, |Directions|)| > 0
    ensures var cs := CandidatesUpTo(views, me, apples, |Directions|);
      var d := cs[FirstMin(cs)].dir;
      && Viable(views, me, apples, d)
      && (forall e :: Viable(views, me, apples, e) ==>
            MoveCost(views, me, apples, d) <= MoveCost(views, me, apples, e))
      && (forall e :: Viable(views, me, apples, e) && Rank(e) < Rank(d) ==>
            MoveCost(views, me, apples, d) < MoveCost(views, me, apples, e))
  {
    var cs := CandidatesUpTo(views, me, apples, |Directions|);
    CandidatesSound(views, me, apples, |Directions|);
    CandidatesOrdered(views, me, apples, |Directions|);
    var k := FirstMin(cs);
    var d := cs[k].dir;
    assert Viable(views, me, apples, d);
    forall e | Viable(views, me, apples, e)
      ensures MoveCost(views, me, apples, d) <= MoveCost(views, me, apples, e)
      ensures Rank(e) < Rank(d) ==> MoveCost(views, me, apples, d) < MoveCost(views, me, apples, e)
    {
      CandidatesComplete(views, me, apples, |Directions|, e);
      var j :| 0 <= j < |cs| && cs[j].dir == e;
      assert Rank(e) < Rank(d) ==> j < k;
    }
  }

  /** The scan over the other live snakes: whether `next` is a non-tail cell of one of them.
    * The scan stops at the first such snake. */
  method PeerBlocked(views: seq<SnakeView>, me: nat, next: Cell) returns (unsafe: bool)
    ensures unsafe <==> exists j :: 0 <= j < |views| && IsPeer(views, me, j) && PeerBlocks(views[j], next)
  {
    for j := 0 to |views|
      invariant forall i :: 0 <= i < j ==> !(IsPeer(views, me, i) && PeerBlocks(views[i], next))
    {
      if j == me || !views[j].alive {
        continue;
      }
      if next in views[j].body {
        if |views[j].body| > 1 && next == views[j].body[|views[j].body| - 1] {
        } else {
          assert IsPeer(views, me, j) && PeerBlocks(views[j], next);
          return true;
        }
      }
    }
    return false;
  }

  /** The penalty loops: two points for each neighbour of `next` and each other live snake
    * whose body holds that neighbour. */
  method PenaltyOf(views: seq<SnakeView>, me: nat, next: Cell) returns (penalty: nat)
    ensures penalty == Penalty(views, me, next)
  {
    penalty := 0;
    for u := 0 to |Directions|
      invariant penalty == 2 * NeighbourHazards(views, me, next, u)
    {
      var neighbor := Step(next, Directions[u]);
      for j := 0 to |views|
        invariant penalty == 2 * NeighbourHazards(views, me, next, u) + 2 * HazardsBelow(views, me, neighbor, j)
      {
        if j == me || !views[j].alive {
          continue;
        }
        if neighbor in views[j].body {
          penalty := penalty + 2;
        }
      }
    }
  }

  /** `Snake.choose_direction`: the next heading of snake `me`, read off the snapshot. */
  method ChooseDirection(views: seq<SnakeView>, me: nat, apples: seq<Cell>) returns (d: Dir)
    requires WellPosed(views, me)
    ensures d == Choice(views, me, apples)
  {
    var body := views[me].body;
    var head := body[0];
    var closest := if |apples| > 0 then apples[NearestIndex(head, apples)] else Center;
    var candidates: seq<Candidate> := [];
    for t := 0 to |Directions|
      invariant candidates == CandidatesUpTo(views, me, apples, t)
    {
      var dir := Directions[t];
      var next := Step(head, dir);
      CandidatesStep(views, me, apples, t + 1);
      assert next == NextCell(views, me, dir);
      // the grid's edges
      if !InBounds(next) {
        continue;
      }
      // the snake's own body
      if next in body {
        if next == body[|body| - 1] && next !in apples {
        } else {
          assert SelfBlocks(body, apples, next);
          continue;
        }
      }
      assert !SelfBlocks(body, apples, next);
      // the other live snakes
      var unsafe := PeerBlocked(views, me, next);
      if unsafe {
        continue;
      }
      assert Viable(views, me, apples, dir);
      // distance to the target and the penalty for standing next to other snakes
      var cost := Manhattan(next, closest);
      var penalty := PenaltyOf(views, me, next);
      assert cost + penalty == MoveCost(views, me, apples, dir);
      candidates := candidates + [Candidate(cost + penalty, dir)];
    }
    if |candidates| > 0 {
      d := candidates[FirstMin(candidates)].dir;
    } else {
      d := views[me].direction;
    }
  }
}
