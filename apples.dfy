/** Apples: picking a free cell for a new apple, removing claimed apples, and refilling the
  * board up to `NumApples`. The random choice among free cells is an oracle pick: the cell at
  * position `pick % |free|` of the free-cell list. */
module Apples {
  import opened Grid

  datatype Option<T> = None | Some(value: T)

  /** Cell `c` lies in one of the bodies (of any snake, alive or dead). */
  predicate InSomeBody(bodies: seq<seq<Cell>>, c: Cell)
  {
    exists j :: 0 <= j < |bodies| && c in bodies[j]
  }

  /** Cell `c` is taken by a snake or by an apple. */
  predicate Occupied(bodies: seq<seq<Cell>>, apples: seq<Cell>, c: Cell)
  {
    InSomeBody(bodies, c) || c in apples
  }

  /** The free cells (x, 0), ..., (x, n - 1) of column `x`, in increasing y. */
  function FreeColumn(bodies: seq<seq<Cell>>, apples: seq<Cell>, x: int, n: nat): seq<Cell>
  {
    if n == 0 then []
    else
      var c := Cell(x, n - 1);
      FreeColumn(bodies, apples, x, n - 1) + (if Occupied(bodies, apples, c) then [] else [c])
  }

  /** The free cells of columns 0, ..., m - 1, column by column. */
  function FreeColumns(bodies: seq<seq<Cell>>, apples: seq<Cell>, m: nat): seq<Cell>
  {
    if m == 0 then []
    else FreeColumns(bodies, apples, m - 1) + FreeColumn(bodies, apples, m - 1, GridHeight)
  }

  lemma DistinctConcat<T>(a: seq<T>, b: seq<T>)
    requires Distinct(a) && Distinct(b)
    requires forall x :: x in a ==> x !in b
    ensures Distinct(a + b)
  {
    forall i, j | 0 <= i < j < |a + b| ensures (a + b)[i] != (a + b)[j] {
      if j >= |a| && i < |a| {
        assert (a + b)[i] in a && (a + b)[j] in b;
      }
    }
  }

  lemma {:induction false} FreeColumnFacts(bodies: seq<seq<Cell>>, apples: seq<Cell>, x: int, n: nat)
    ensures forall c :: c in FreeColumn(bodies, apples, x, n) <==>
      c.x == x && 0 <= c.y < n && !Occupied(bodies, apples, c)
    ensures Distinct(FreeColumn(bodies, apples, x, n))
  {
    if n > 0 {
      FreeColumnFacts(bodies, apples, x, n - 1);
      var c := Cell(x, n - 1);
      DistinctConcat(FreeColumn(bodies, apples, x, n - 1), if Occupied(bodies, apples, c) then [] else [c]);
    }
  }

  lemma {:induction false} FreeColumnsFacts(bodies: seq<seq<Cell>>, apples: seq<Cell>, m: nat)
    ensures forall c :: c in FreeColumns(bodies, apples, m) <==>
      0 <= c.x < m && 0 <= c.y < GridHeight && !Occupied(bodies, apples, c)
    ensures Distinct(FreeColumns(bodies, apples, m))
  {
    if m > 0 {
      FreeColumnsFacts(bodies, apples, m - 1);
      FreeColumnFacts(bodies, apples, m - 1, GridHeight);
      DistinctConcat(FreeColumns(bodies, apples, m - 1), FreeColumn(bodies, apples, m - 1, GridHeight));
    }
  }

  /** The free cells of the grid, in the order x-major, y-minor: exactly the in-bounds cells
    * that no snake and no apple holds, each once. */
  function FreeCells(bodies: seq<seq<Cell>>, apples: seq<Cell>): (r: seq<Cell>)
    ensures forall c :: c in r <==> InBounds(c) && !Occupied(bodies, apples, c)
    ensures Distinct(r)
  {
    FreeColumnsFacts(bodies, apples, GridWidth);
    FreeColumns(bodies, apples, GridWidth)
  }

  /** `spawn_apple`: a cell on the grid held by no snake (alive or dead) and by no apple,
    * or None exactly when there is no such cell. */
  function Spawn(bodies: seq<seq<Cell>>, apples: seq<Cell>, pick: nat): (r: Option<Cell>)
    ensures r.None? <==> forall c :: InBounds(c) ==> Occupied(bodies, apples, c)
    ensures r.Some? ==> InBounds(r.value) && !InSomeBody(bodies, r.value) && r.value !in apples
  {
    var free := FreeCells(bodies, apples);
    if |free| == 0 then None
    else
      assert InBounds(free[0]) && !Occupied(bodies, apples, free[0]);
      Some(free[pick % |free|])
  }

  lemma SmallRemainder(k: nat, n: nat)
    requires k < n
    ensures k % n == k
  {
  }

  /** Every free cell is the outcome of some pick, so the oracle can stand for any random
    * choice among the free cells. */
  lemma SpawnCovers(bodies: seq<seq<Cell>>, apples: seq<Cell>, c: Cell)
    requires InBounds(c) && !Occupied(bodies, apples, c)
    ensures exists pick: nat :: Spawn(bodies, apples, pick) == Some(c)
  {
    var free := FreeCells(bodies, apples);
    var k :| 0 <= k < |free| && free[k] == c;
    SmallRemainder(k, |free|);
    assert Spawn(bodies, apples, k) == Some(c);
  }

  /** `spawn_apple` as the source runs it: gather the occupied cells, list the free ones, pick. */
  method SpawnApple(bodies: seq<seq<Cell>>, existing: seq<Cell>, pick: nat) returns (r: Option<Cell>)
    ensures r == Spawn(bodies, existing, pick)
  {
    var occupied: set<Cell> := {};
    for j := 0 to |bodies|
      invariant forall c :: c in occupied <==> exists i :: 0 <= i < j && c in bodies[i]
    {
      for k := 0 to |bodies[j]|
        invariant forall c :: c in occupied <==>
          (exists i :: 0 <= i < j && c in bodies[i]) || c in bodies[j][..k]
      {
        assert bodies[j][..k + 1] == bodies[j][..k] + [bodies[j][k]];
        occupied := occupied + {bodies[j][k]};
      }
      assert bodies[j][..|bodies[j]|] == bodies[j];
    }
    for k := 0 to |existing|
      invariant forall c :: c in occupied <==> InSomeBody(bodies, c) || c in existing[..k]
    {
      assert existing[..k + 1] == existing[..k] + [existing[k]];
      occupied := occupied + {existing[k]};
    }
    assert existing[..|existing|] == existing;
    var free: seq<Cell> := [];
    for x := 0 to GridWidth
      invariant free == FreeColumns(bodies, existing, x)
    {
      for y := 0 to GridHeight
        invariant free == FreeColumns(bodies, existing, x) + FreeColumn(bodies, existing, x, y)
      {
        if Cell(x, y) !in occupied {
          free := free + [Cell(x, y)];
        }
      }
    }
    r := if |free| > 0 then Some(free[pick % |free|]) else None;
  }

  /** The apples after refilling: new apples are spawned one at a time, the oracle pick for
    * the new apple being `rng(|apples|)`, until there are `NumApples` or no free cell is left. */
  function Refill(bodies: seq<seq<Cell>>, apples: seq<Cell>, rng: nat -> nat): seq<Cell>
    decreases NumApples - |apples|
  {
    if |apples| >= NumApples then apples
    else
      match Spawn(bodies, apples, rng(|apples|))
      case None => apples
      case Some(c) => Refill(bodies, apples + [c], rng)
  }

  /** Refilling keeps the old apples in front, adds only free on-grid cells not on the board
    * yet, never goes past `NumApples`, and stops short of it only when the grid is full. */
  lemma RefillFacts(bodies: seq<seq<Cell>>, apples: seq<Cell>, rng: nat -> nat)
    ensures var r := Refill(bodies, apples, rng);
      && apples <= r
      && (|apples| <= NumApples ==> |r| <= NumApples)
      && (forall k :: |apples| <= k < |r| ==>
            InBounds(r[k]) && !InSomeBody(bodies, r[k]) && r[k] !in r[..k])
      && (Distinct(apples) ==> Distinct(r))
      && (|r| >= NumApples || forall c :: InBounds(c) ==> Occupied(bodies, r, c))
  {
    RefillExtends(bodies, apples, rng);
    RefillFresh(bodies, apples, rng);
  }

  /** The old apples stay in front, the quota is kept, and a short board means a full grid. */
  lemma {:induction false} RefillExtends(bodies: seq<seq<Cell>>, apples: seq<Cell>, rng: nat -> nat)
    ensures var r := Refill(bodies, apples, rng);
      && apples <= r
      && (|apples| <= NumApples ==> |r| <= NumApples)
      && (|r| >= NumApples || forall c :: InBounds(c) ==> Occupied(bodies, r, c))
    decreases NumApples - |apples|
  {
    if |apples| < NumApples {
      match Spawn(bodies, apples, rng(|apples|))
      case None =>
      case Some(c) =>
        var next := apples + [c];
        RefillExtends(bodies, next, rng);
        assert apples <= next;
    }
  }

  /** Each added apple is a free on-grid cell not already on the board. */
  lemma {:induction false} RefillFresh(bodies: seq<seq<Cell>>, apples: seq<Cell>, rng: nat -> nat)
    ensures var r := Refill(bodies, apples, rng);
      && (forall k :: |apples| <= k < |r| ==>
            InBounds(r[k]) && !InSomeBody(bodies, r[k]) && r[k] !in r[..k])
      && (Distinct(apples) ==> Distinct(r))
    decreases NumApples - |apples|
  {
    if |apples| < NumApples {
      match Spawn(bodies, apples, rng(|apples|))
      case None =>
      case Some(c) =>
        var next := apples + [c];
        RefillFresh(bodies, next, rng);
        RefillExtends(bodies, next, rng);
        var r := Refill(bodies, next, rng);
        assert r[|apples|] == c;
        assert r[..|apples|] == apples;
        if Distinct(apples) {
          DistinctConcat(apples, [c]);
        }
    }
  }

  /** The apples that are not claimed, in their order. */
  function Without(apples: seq<Cell>, claimed: set<Cell>): (r: seq<Cell>)
    ensures forall a :: a in r <==> a in apples && a !in claimed
    ensures |r| <= |apples|
    ensures Distinct(apples) ==> Distinct(r)
  {
    if apples == [] then []
    else
      var rest := Without(apples[1..], claimed);
      assert Distinct(apples) ==> apples[0] !in apples[1..];
      if apples[0] in claimed then rest else [apples[0]] + rest
  }

  /** Nothing claimed, nothing removed. */
  lemma {:induction false} WithoutNothing(apples: seq<Cell>)
    ensures Without(apples, {}) == apples
  {
    if apples != [] {
      WithoutNothing(apples[1..]);
    }
  }

  /** Python's `list.remove`: drops the first occurrence of `a`. */
  function RemoveFirst(s: seq<Cell>, a: Cell): (r: seq<Cell>)
    requires a in s
    ensures |r| == |s| - 1
    ensures multiset(r) == multiset(s) - multiset{a}
  {
    assert s == [s[0]] + s[1..];
    if s[0] == a then s[1..]
    else [s[0]] + RemoveFirst(s[1..], a)
  }

  /** Slicing a list behind its first element. */
  lemma TailSlices(s: seq<Cell>, k: nat)
    requires 0 < k < |s|
    ensures s[..k] == [s[0]] + s[1..][..k - 1]
    ensures s[k + 1..] == s[1..][k..]
  {
  }

  /** The position of the first occurrence of `a`. */
  lemma {:induction false} FirstOccurrence(s: seq<Cell>, a: Cell) returns (k: nat)
    requires a in s
    ensures k < |s| && s[k] == a && a !in s[..k]
  {
    if s[0] == a {
      k := 0;
    } else {
      var t := s[1..];
      assert a in t by { assert s == [s[0]] + t; }
      var k' := FirstOccurrence(t, a);
      k := k' + 1;
      TailSlices(s, k);
    }
  }

  /** Removing the first occurrence of `a`, at position `k`, cuts out exactly that element. */
  lemma {:induction false} RemoveAt(s: seq<Cell>, a: Cell, k: nat)
    requires k < |s| && s[k] == a && a !in s[..k]
    ensures RemoveFirst(s, a) == s[..k] + s[k + 1..]
  {
    if k == 0 {
      assert s[..k] + s[k + 1..] == s[1..];
    } else {
      var t := s[1..];
      TailSlices(s, k);
      assert s[0] in s[..k];
      RemoveAt(t, a, k - 1);
      assert [s[0]] + (t[..k - 1] + t[k..]) == ([s[0]] + t[..k - 1]) + t[k..];
    }
  }

  /** `list.remove` keeps the order of the rest: it cuts out the first occurrence of `a`. */
  lemma RemoveFirstOrder(s: seq<Cell>, a: Cell) returns (k: nat)
    requires a in s
    ensures k < |s| && s[k] == a && a !in s[..k]
    ensures RemoveFirst(s, a) == s[..k] + s[k + 1..]
  {
    k := FirstOccurrence(s, a);
    RemoveAt(s, a, k);
  }

  /** On a list without repetitions, removing the claimed apples one at a time, each only
    * when it is still there, leaves exactly the unclaimed ones. */
  lemma {:induction false} RemoveClaimed(s: seq<Cell>, claimed: set<Cell>, a: Cell)
    requires Distinct(s)
    ensures var w := Without(s, claimed);
      (if a in w then RemoveFirst(w, a) else w) == Without(s, claimed + {a})
  {
    if s != [] {
      RemoveClaimed(s[1..], claimed, a);
      assert s[0] !in s[1..];
      var w := Without(s, claimed);
      var w1 := Without(s[1..], claimed);
      if s[0] !in claimed && s[0] == a {
        assert a !in w1;
      }
    }
  }

  /** The initial apple fill: up to `NumApples` rounds, each spawning one apple, stopping early
    * when the grid has no free cell. */
  method FillApples(bodies: seq<seq<Cell>>, rng: nat -> nat) returns (apples: seq<Cell>)
    ensures apples == Refill(bodies, [], rng)
  {
    apples := [];
    for t := 0 to NumApples
      invariant |apples| == t
      invariant Refill(bodies, apples, rng) == Refill(bodies, [], rng)
    {
      var next := SpawnApple(bodies, apples, rng(|apples|));
      if next.None? {
        return;
      }
      apples := apples + [next.value];
    }
  }

  /** The refill at the end of a tick: spawn while there are fewer than `NumApples` apples,
    * stopping early when the grid has no free cell. */
  method TopUp(bodies: seq<seq<Cell>>, existing: seq<Cell>, rng: nat -> nat) returns (apples: seq<Cell>)
    ensures apples == Refill(bodies, existing, rng)
  {
    apples := existing;
    while |apples| < NumApples
      invariant Refill(bodies, apples, rng) == Refill(bodies, existing, rng)
      decreases NumApples - |apples|
    {
      var next := SpawnApple(bodies, apples, rng(|apples|));
      if next.None? {
        return;
      }
      apples := apples + [next.value];
    }
  }

  /** The removal of claimed apples: each claimed apple, visited in any order, is removed when
    * it is still on the board. On a board without repetitions this leaves the unclaimed
    * apples in their order. */
  method RemoveEaten(existing: seq<Cell>, eaten: set<Cell>) returns (apples: seq<Cell>)
    requires Distinct(existing)
    ensures apples == Without(existing, eaten)
  {
    apples := existing;
    var pending := eaten;
    WithoutNothing(existing);
    assert eaten - pending == {};
    while pending != {}
      invariant pending <= eaten
      invariant apples == Without(existing, eaten - pending)
      decreases |pending|
    {
      var apple :| apple in pending;
      RemoveClaimed(existing, eaten - pending, apple);
      if apple in apples {
        apples := RemoveFirst(apples, apple);
      }
      assert (eaten - pending) + {apple} == eaten - (pending - {apple});
      pending := pending - {apple};
    }
    assert eaten - pending == eaten;
  }
}
