/** One tick of the arena, stated on values: a snapshot of all snakes (in creation order)
  * and the apple list goes to the next snapshot. The phases are those of the main loop:
  * intents, growth flags and claimed apples, tentative bodies, the collision pass in
  * creation order, the commit, and the removal of claimed apples followed by the refill. */
module Simulation {
  import opened Grid
  import opened Snakes
  import opened Heuristic
  import opened Apples

  datatype World = World(snakes: seq<SnakeView>, apples: seq<Cell>)

  /** Every snake has a head. */
  predicate HasHeads(views: seq<SnakeView>)
  {
    forall i :: 0 <= i < |views| ==> |views[i].body| > 0
  }

  function Bodies(views: seq<SnakeView>): (b: seq<seq<Cell>>)
    ensures |b| == |views| && forall i :: 0 <= i < |views| ==> b[i] == views[i].body
  {
    seq(|views|, i requires 0 <= i < |views| => views[i].body)
  }

  /** A body that is not empty, lies on the grid and does not cross itself. */
  predicate BodyOk(body: seq<Cell>)
  {
    |body| > 0 && Distinct(body) && forall c :: c in body ==> InBounds(c)
  }

  /** The invariant of the arena: every body (of a live or a dead snake) is sound; the apples
    * are on the grid, pairwise distinct, at most `NumApples`, and on no snake's body. */
  predicate WellFormed(w: World)
  {
    && (forall i :: 0 <= i < |w.snakes| ==> BodyOk(w.snakes[i].body))
    && Distinct(w.apples) && |w.apples| <= NumApples
    && (forall a :: a in w.apples ==> InBounds(a) && !InSomeBody(Bodies(w.snakes), a))
  }

  // ---- Phase 1: intents ----

  /** The heading snake `i` moves along: the heuristic's choice when it is alive. A dead snake
    * gets no move; its own heading stands in for it and is never used. */
  function Intent(views: seq<SnakeView>, apples: seq<Cell>, i: nat): Dir
    requires i < |views| && HasHeads(views)
  {
    if views[i].alive then Choice(views, i, apples) else views[i].direction
  }

  function Moves(views: seq<SnakeView>, apples: seq<Cell>): (m: seq<Dir>)
    requires HasHeads(views)
    ensures |m| == |views| && forall i :: 0 <= i < |views| ==> m[i] == Intent(views, apples, i)
  {
    seq(|views|, i requires 0 <= i < |views| => Intent(views, apples, i))
  }

  // ---- Phase 2: growth flags and claimed apples ----

  function NewHead(views: seq<SnakeView>, moves: seq<Dir>, i: nat): Cell
    requires i < |views| == |moves| && HasHeads(views)
  {
    Step(views[i].body[0], moves[i])
  }

  /** A live snake grows exactly when its new head is an apple. */
  function AteFlags(views: seq<SnakeView>, moves: seq<Dir>, apples: seq<Cell>): (ate: seq<bool>)
    requires |views| == |moves| && HasHeads(views)
    ensures |ate| == |views|
    ensures forall i :: 0 <= i < |views| ==> (ate[i] <==> views[i].alive && NewHead(views, moves, i) in apples)
  {
    seq(|views|, i requires 0 <= i < |views| => views[i].alive && NewHead(views, moves, i) in apples)
  }

  /** The apples some live snake moves its head onto. */
  function Claimed(views: seq<SnakeView>, moves: seq<Dir>, apples: seq<Cell>): (claimed: set<Cell>)
    requires |views| == |moves| && HasHeads(views)
    ensures forall a :: a in claimed <==>
      a in apples && exists i :: 0 <= i < |views| && views[i].alive && NewHead(views, moves, i) == a
  {
    set i | 0 <= i < |views| && views[i].alive && NewHead(views, moves, i) in apples :: NewHead(views, moves, i)
  }

  // ---- Phase 3: tentative bodies ----

  /** The body each live snake would have after its move; a dead snake keeps its body (the
    * value the collision pass falls back to for a snake without a tentative body). */
  function Tentative(views: seq<SnakeView>, moves: seq<Dir>, ate: seq<bool>): (tent: seq<seq<Cell>>)
    requires |views| == |moves| == |ate| && HasHeads(views)
    ensures |tent| == |views|
    ensures forall i :: 0 <= i < |views| ==> |tent[i]| > 0
    ensures forall i :: 0 <= i < |views| ==>
      tent[i] == if views[i].alive then Moved(views[i].body, moves[i], ate[i]) else views[i].body
  {
    seq(|views|, i requires 0 <= i < |views| =>
      if views[i].alive then Moved(views[i].body, moves[i], ate[i]) else views[i].body)
  }

  // ---- Phase 4: the collision pass ----

  predicate AllHeaded(tent: seq<seq<Cell>>)
  {
    forall i :: 0 <= i < |tent| ==> |tent[i]| > 0
  }

  /** The new head of snake `i` lies in the tentative body of another snake marked alive in `alive`. */
  predicate HitsPeer(tent: seq<seq<Cell>>, alive: seq<bool>, i: nat)
    requires i < |tent| == |alive| && AllHeaded(tent)
  {
    exists j :: 0 <= j < |tent| && j != i && alive[j] && tent[i][0] in tent[j]
  }

  /** Snake `i` dies: its new head is off the grid, on the rest of its own tentative body,
    * or on the tentative body of a snake still alive in `alive`. */
  predicate Crashes(tent: seq<seq<Cell>>, alive: seq<bool>, i: nat)
    requires i < |tent| == |alive| && AllHeaded(tent)
  {
    || !InBounds(tent[i][0])
    || tent[i][0] in tent[i][1..]
    || HitsPeer(tent, alive, i)
  }

  function AliveFlags(views: seq<SnakeView>): (a: seq<bool>)
    ensures |a| == |views| && forall i :: 0 <= i < |views| ==> a[i] == views[i].alive
  {
    seq(|views|, i requires 0 <= i < |views| => views[i].alive)
  }

  /** The liveness flags after the pass has visited snakes 0 .. k - 1 in creation order; a
    * snake killed earlier in the pass no longer counts as a peer. */
  function Resolve(views: seq<SnakeView>, tent: seq<seq<Cell>>, k: nat): (a: seq<bool>)
    requires |tent| == |views| && k <= |views| && AllHeaded(tent)
    ensures |a| == |views|
  {
    if k == 0 then AliveFlags(views)
    else
      var a := Resolve(views, tent, k - 1);
      if a[k - 1] && Crashes(tent, a, k - 1) then a[k - 1 := false] else a
  }

  /** What the pass sees when it reaches snake `i`: the final flags of the snakes before it
    * and the flags at the start of the tick for the others. */
  function SeenAt(views: seq<SnakeView>, survivors: seq<bool>, i: nat): (a: seq<bool>)
    requires |survivors| == |views|
    ensures |a| == |views|
  {
    seq(|views|, j requires 0 <= j < |views| => if j < i then survivors[j] else views[j].alive)
  }

  lemma {:induction false} ResolveUntouched(views: seq<SnakeView>, tent: seq<seq<Cell>>, k: nat, j: nat)
    requires |tent| == |views| && k <= j < |views| && AllHeaded(tent)
    ensures Resolve(views, tent, k)[j] == views[j].alive
  {
    if k > 0 {
      ResolveUntouched(views, tent, k - 1, j);
    }
  }

  lemma {:induction false} ResolveSettled(views: seq<SnakeView>, tent: seq<seq<Cell>>, k: nat, k': nat, j: nat)
    requires |tent| == |views| && j < k <= k' <= |views| && AllHeaded(tent)
    ensures Resolve(views, tent, k')[j] == Resolve(views, tent, k)[j]
    decreases k'
  {
    if k' > k {
      ResolveSettled(views, tent, k, k' - 1, j);
    }
  }

  /** Midway through the pass, the flags are the final ones for the snakes already visited
    * and the starting ones for the rest. */
  lemma ResolveMidway(views: seq<SnakeView>, tent: seq<seq<Cell>>, k: nat)
    requires |tent| == |views| && k <= |views| && AllHeaded(tent)
    ensures Resolve(views, tent, k) == SeenAt(views, Resolve(views, tent, |views|), k)
  {
    var a := Resolve(views, tent, k);
    var s := Resolve(views, tent, |views|);
    forall j | 0 <= j < |views| ensures a[j] == SeenAt(views, s, k)[j] {
      if j < k {
        ResolveSettled(views, tent, k, |views|, j);
      } else {
        ResolveUntouched(views, tent, k, j);
      }
    }
  }

  /** The outcome of the pass, snake by snake: snake `i` survives exactly when it was alive
    * and does not crash against what the pass sees when it reaches it. */
  lemma Survival(views: seq<SnakeView>, tent: seq<seq<Cell>>, i: nat)
    requires |tent| == |views| && i < |views| && AllHeaded(tent)
    ensures var s := Resolve(views, tent, |views|);
      s[i] <==> views[i].alive && !Crashes(tent, SeenAt(views, s, i), i)
  {
    var s := Resolve(views, tent, |views|);
    ResolveMidway(views, tent, i);
    ResolveSettled(views, tent, i + 1, |views|, i);
    ResolveUntouched(views, tent, i, i);
  }

  /** A snake dead at the start of the tick stays dead. */
  lemma StaysDead(views: seq<SnakeView>, tent: seq<seq<Cell>>, i: nat)
    requires |tent| == |views| && i < |views| && AllHeaded(tent)
    ensures Resolve(views, tent, |views|)[i] ==> views[i].alive
  {
    Survival(views, tent, i);
  }

  /** The pass is order-dependent: when the new head of snake `i` lies in the tentative body of
    * a later snake `j` that was alive, snake `i` dies, whatever then happens to `j`. In
    * particular, of two snakes whose new heads meet, the earlier one dies. */
  lemma EarlierDies(views: seq<SnakeView>, tent: seq<seq<Cell>>, i: nat, j: nat)
    requires |tent| == |views| && i < j < |views| && AllHeaded(tent)
    requires views[j].alive && tent[i][0] in tent[j]
    ensures !Resolve(views, tent, |views|)[i]
  {
    var s := Resolve(views, tent, |views|);
    Survival(views, tent, i);
    assert SeenAt(views, s, i)[j];
  }

  /** Two live snakes whose new heads meet: the earlier one in creation order dies, so when the
    * pass reaches the later one it no longer counts the earlier one as a peer, and the later one
    * survives exactly when it crashes against nothing else. */
  lemma HeadOnMeeting(views: seq<SnakeView>, tent: seq<seq<Cell>>, i: nat, j: nat)
    requires |tent| == |views| && i < j < |views| && AllHeaded(tent)
    requires views[i].alive && views[j].alive && tent[i][0] == tent[j][0]
    ensures var s := Resolve(views, tent, |views|);
      && !s[i]
      && !SeenAt(views, s, j)[i]
      && (s[j] <==> !Crashes(tent, SeenAt(views, s, j), j))
  {
    EarlierDies(views, tent, i, j);
    Survival(views, tent, j);
  }

  // ---- Phase 5: commit ----

  /** Snakes killed in the pass keep their last body; survivors take their tentative body;
    * the heading is never written. */
  function Commit(views: seq<SnakeView>, tent: seq<seq<Cell>>, survivors: seq<bool>): (c: seq<SnakeView>)
    requires |tent| == |views| == |survivors|
    ensures |c| == |views|
  {
    seq(|views|, i requires 0 <= i < |views| =>
      SnakeView(if survivors[i] && views[i].alive then tent[i] else views[i].body, views[i].direction, survivors[i]))
  }

  // ---- The whole tick ----

  /** The intermediate results of one tick. */
  datatype Plan = Plan(moves: seq<Dir>, ate: seq<bool>, claimed: set<Cell>, tentative: seq<seq<Cell>>, survivors: seq<bool>)

  function PlanOf(w: World): (p: Plan)
    requires HasHeads(w.snakes)
    ensures |p.moves| == |p.ate| == |p.tentative| == |p.survivors| == |w.snakes|
    ensures AllHeaded(p.tentative)
  {
    var moves := Moves(w.snakes, w.apples);
    var ate := AteFlags(w.snakes, moves, w.apples);
    var tent := Tentative(w.snakes, moves, ate);
    Plan(moves, ate, Claimed(w.snakes, moves, w.apples), tent, Resolve(w.snakes, tent, |w.snakes|))
  }

  /** The snakes after the snake phases of a tick. */
  function Advanced(w: World): (s: seq<SnakeView>)
    requires HasHeads(w.snakes)
    ensures |s| == |w.snakes|
  {
    var p := PlanOf(w);
    Commit(w.snakes, p.tentative, p.survivors)
  }

  /** The apples left once every claimed apple is removed. */
  function Kept(w: World): seq<Cell>
    requires HasHeads(w.snakes)
  {
    Without(w.apples, PlanOf(w).claimed)
  }

  /** The snakes and apples after one tick; `rng` supplies the oracle picks of the refill. */
  function TickWorld(w: World, rng: nat -> nat): World
    requires HasHeads(w.snakes)
  {
    var snakes := Advanced(w);
    World(snakes, Refill(Bodies(snakes), Kept(w), rng))
  }

  /** What a tick does to each snake: the heading never changes; a dead snake is untouched; a
    * snake that ends the tick alive was alive, and its body is the old body moved along its
    * intent, grown by one cell exactly when the new head was an apple; a snake killed in the
    * tick keeps its body. */
  lemma TickSnake(w: World, rng: nat -> nat, i: nat)
    requires HasHeads(w.snakes) && i < |w.snakes|
    ensures var v := w.snakes[i];
      var v' := TickWorld(w, rng).snakes[i];
      var d := Intent(w.snakes, w.apples, i);
      var grew := Step(v.body[0], d) in w.apples;
      && |TickWorld(w, rng).snakes| == |w.snakes|
      && v'.direction == v.direction
      && (!v.alive ==> v' == v)
      && (v'.alive ==> v.alive && v'.body == Moved(v.body, d, grew)
                       && |v'.body| == |v.body| + (if grew then 1 else 0))
      && (v.alive && !v'.alive ==> v'.body == v.body)
  {
    var p := PlanOf(w);
    StaysDead(w.snakes, p.tentative, i);
  }

  /** A live snake dies in a tick exactly when its new head is off the grid, on the rest of
    * its own tentative body, or on the tentative body of another snake that is still alive
    * when the creation-order pass reaches it (already visited: alive after the pass; not yet
    * visited: alive at the start of the tick). */
  lemma TickDeath(w: World, rng: nat -> nat, i: nat)
    requires HasHeads(w.snakes) && i < |w.snakes| && w.snakes[i].alive
    ensures var p := PlanOf(w);
      var tent := p.tentative;
      var after := TickWorld(w, rng).snakes;
      var h := tent[i][0];
      !after[i].alive <==>
        || !InBounds(h)
        || h in tent[i][1..]
        || exists j :: 0 <= j < |w.snakes| && j != i && h in tent[j]
             && (if j < i then after[j].alive else w.snakes[j].alive)
  {
    var p := PlanOf(w);
    var s := p.survivors;
    var tent := p.tentative;
    var after := TickWorld(w, rng).snakes;
    Survival(w.snakes, tent, i);
    var seen := SeenAt(w.snakes, s, i);
    assert forall j :: 0 <= j < |w.snakes| ==> seen[j] == (if j < i then after[j].alive else w.snakes[j].alive);
  }

  /** The apples after a tick: the unclaimed apples in their order, then the refill. Every
    * claimed apple is gone from the kept part, even when the snake that claimed it died. */
  lemma TickApples(w: World, rng: nat -> nat)
    requires HasHeads(w.snakes) && |w.apples| <= NumApples
    ensures var p := PlanOf(w);
      var kept := Without(w.apples, p.claimed);
      var w' := TickWorld(w, rng);
      && kept <= w'.apples
      && (forall a :: a in kept <==> a in w.apples && a !in p.claimed)
      && (forall i :: 0 <= i < |w.snakes| && w.snakes[i].alive && Step(w.snakes[i].body[0], p.moves[i]) in w.apples ==>
            Step(w.snakes[i].body[0], p.moves[i]) !in kept)
      && |w'.apples| <= NumApples
      && (|w'.apples| == NumApples || forall c :: InBounds(c) ==> Occupied(Bodies(w'.snakes), w'.apples, c))
  {
    var p := PlanOf(w);
    var w' := TickWorld(w, rng);
    RefillFacts(Bodies(w'.snakes), Without(w.apples, p.claimed), rng);
    forall i | 0 <= i < |w.snakes| && w.snakes[i].alive && Step(w.snakes[i].body[0], p.moves[i]) in w.apples
      ensures Step(w.snakes[i].body[0], p.moves[i]) in p.claimed
    {
      assert NewHead(w.snakes, p.moves, i) == Step(w.snakes[i].body[0], p.moves[i]);
    }
  }

  lemma DistinctPrefix(a: seq<Cell>, b: seq<Cell>)
    requires Distinct(b) && a <= b
    ensures Distinct(a)
  {
    forall i, j | 0 <= i < j < |a| ensures a[i] != a[j] {
      assert a[i] == b[i] && a[j] == b[j];
    }
  }

  /** A survivor's new body is sound when its old body was. */
  lemma SurvivorBodyOk(body: seq<Cell>, moved: seq<Cell>)
    requires BodyOk(body) && |moved| > 0 && moved[1..] <= body
    requires InBounds(moved[0]) && moved[0] !in moved[1..]
    ensures BodyOk(moved)
  {
    DistinctPrefix(moved[1..], body);
    forall i, j | 0 <= i < j < |moved| ensures moved[i] != moved[j] {
      assert moved[j] == moved[1..][j - 1];
      if i > 0 {
        assert moved[i] == moved[1..][i - 1];
      }
    }
    forall c | c in moved ensures InBounds(c) {
      if c != moved[0] {
        var k :| 0 <= k < |moved| && moved[k] == c;
        assert c == moved[1..][k - 1];
      }
    }
  }

  /** A tick keeps the arena's invariant: every body stays on the grid and free of
    * self-overlap, and the apples stay distinct, on the grid, at most `NumApples` and off
    * every snake. */
  lemma TickWellFormed(w: World, rng: nat -> nat)
    requires WellFormed(w)
    ensures WellFormed(TickWorld(w, rng))
  {
    var s := Advanced(w);
    var kept := Kept(w);
    var r := Refill(Bodies(s), kept, rng);
    AdvancedBodiesOk(w);
    KeptOffBodies(w);
    RefillFacts(Bodies(s), kept, rng);
    forall a | a in r ensures InBounds(a) && !InSomeBody(Bodies(s), a) {
      var k :| 0 <= k < |r| && r[k] == a;
      if k < |kept| {
        assert a == kept[k];
      }
    }
  }

  /** After the snake phases every body is still sound. */
  lemma AdvancedBodiesOk(w: World)
    requires WellFormed(w)
    ensures forall i :: 0 <= i < |w.snakes| ==> BodyOk(Advanced(w)[i].body)
  {
    var p := PlanOf(w);
    var s := Advanced(w);
    forall i | 0 <= i < |w.snakes| ensures BodyOk(s[i].body) {
      if p.survivors[i] && w.snakes[i].alive {
        Survival(w.snakes, p.tentative, i);
        SurvivorBodyOk(w.snakes[i].body, p.tentative[i]);
      }
    }
  }

  /** The apples kept after the removal are distinct, on the grid, and off every body after
    * the snake phases: a snake that moved onto an apple claimed it. */
  lemma KeptOffBodies(w: World)
    requires WellFormed(w)
    ensures Distinct(Kept(w)) && |Kept(w)| <= NumApples
    ensures forall a :: a in Kept(w) ==> InBounds(a) && !InSomeBody(Bodies(Advanced(w)), a)
  {
    var p := PlanOf(w);
    var tent := p.tentative;
    var s := Advanced(w);
    var kept := Kept(w);
    forall a, j | a in kept && 0 <= j < |s| ensures a !in s[j].body {
      assert !InSomeBody(Bodies(w.snakes), a);
      assert a !in w.snakes[j].body;
      if p.survivors[j] && w.snakes[j].alive {
        var moved := tent[j];
        assert moved[0] == NewHead(w.snakes, p.moves, j);
        assert moved[0] in w.apples ==> moved[0] in p.claimed;
        assert a != moved[0];
        assert forall k :: 0 <= k < |moved[1..]| ==> moved[1..][k] == w.snakes[j].body[k];
        assert a !in moved[1..];
        assert moved == [moved[0]] + moved[1..];
      }
    }
  }

  /** The set-up is well formed: sound bodies and the initial fill of apples. */
  lemma InitialWellFormed(views: seq<SnakeView>, rng: nat -> nat)
    requires forall i :: 0 <= i < |views| ==> BodyOk(views[i].body)
    ensures WellFormed(World(views, Refill(Bodies(views), [], rng)))
  {
    var r := Refill(Bodies(views), [], rng);
    RefillFacts(Bodies(views), [], rng);
    forall a | a in r ensures InBounds(a) && !InSomeBody(Bodies(views), a) {
      var k :| 0 <= k < |r| && r[k] == a;
    }
  }

  /** No cell of `a` is in `b`. */
  predicate Disjoint(a: seq<Cell>, b: seq<Cell>)
  {
    forall c :: c in a ==> c !in b
  }

  /** No two live snakes share a cell. */
  predicate LiveDisjoint(views: seq<SnakeView>)
  {
    forall i, j :: 0 <= i < |views| && 0 <= j < |views| && i != j && views[i].alive && views[j].alive ==>
      Disjoint(views[i].body, views[j].body)
  }

  /** When no two live snakes overlap before a tick, none overlap after it. */
  lemma TickLiveDisjoint(w: World, rng: nat -> nat)
    requires HasHeads(w.snakes) && LiveDisjoint(w.snakes)
    ensures LiveDisjoint(TickWorld(w, rng).snakes)
  {
    var p := PlanOf(w);
    var tent := p.tentative;
    var s := p.survivors;
    var after := TickWorld(w, rng).snakes;
    forall i, j | 0 <= i < j < |after| && after[i].alive && after[j].alive
      ensures Disjoint(after[i].body, after[j].body) && Disjoint(after[j].body, after[i].body)
    {
      Survival(w.snakes, tent, i);
      Survival(w.snakes, tent, j);
      assert SeenAt(w.snakes, s, i)[j] && SeenAt(w.snakes, s, j)[i];
      var ti, tj := tent[i], tent[j];
      assert ti[0] !in tj && tj[0] !in ti;
      assert Disjoint(w.snakes[i].body, w.snakes[j].body);
      forall c | c in ti ensures c !in tj {
        if c != ti[0] && c in tj {
          assert c in ti[1..] by { assert ti == [ti[0]] + ti[1..]; }
          assert c in w.snakes[i].body by { PrefixMember(ti[1..], w.snakes[i].body, c); }
          if c != tj[0] {
            assert c in tj[1..] by { assert tj == [tj[0]] + tj[1..]; }
            PrefixMember(tj[1..], w.snakes[j].body, c);
          }
        }
      }
    }
  }

  lemma PrefixMember(a: seq<Cell>, b: seq<Cell>, c: Cell)
    requires a <= b && c in a
    ensures c in b
  {
    var k :| 0 <= k < |a| && a[k] == c;
    assert b[k] == c;
  }
}
