/**
 * What the recursive flood fill of the game computes: reachability along
 * the guarded four-neighbour steps of `checkNeighbours` through a set of
 * tiles (in the game: the tiles that have no mine around them and are not
 * played yet).
 */
module Cascade {
  import opened Grid

  /** `p` is a walk of cascade steps that stays inside `a`. */
  ghost predicate IsPath(n: int, a: set<int>, p: seq<int>)
  {
    n > 0 && |p| > 0 &&
    (forall k :: 0 <= k < |p| ==> p[k] in a) &&
    (forall k :: 0 <= k < |p| - 1 ==> Step(n, p[k], p[k + 1]))
  }

  /** The tiles reachable from `x` by cascade steps through `a`; empty when
    * `x` is not in `a` itself. */
  ghost function Reach(n: int, a: set<int>, x: int): set<int>
  {
    if x !in a then {}
    else set z | z in a && exists p :: IsPath(n, a, p) && p[0] == x && p[|p| - 1] == z
  }

  /** `r` swallows every `a`-tile one step away from it. */
  ghost predicate Closed(n: int, a: set<int>, r: set<int>)
  {
    n > 0 && forall u, v :: u in r && v in a && Step(n, u, v) ==> v in r
  }

  /** The cascade towards one neighbour, taken only when its guard holds. */
  ghost function ReachIf(g: bool, n: int, a: set<int>, y: int): set<int>
  {
    if g then Reach(n, a, y) else {}
  }

  /** What `checkNeighbours(id)` can sweep: the cascades towards the tile
    * above, below, to the right and to the left of `id`, each behind the
    * guard `checkColNeighbours` or `checkRowNeighbours` applies. */
  ghost function Spread(n: int, a: set<int>, id: int): set<int>
    requires n > 0
  {
    ReachIf(ColInside(n, id - n), n, a, id - n) +
    ReachIf(ColInside(n, id + n), n, a, id + n) +
    ReachIf(SameRow(n, id, id + 1), n, a, id + 1) +
    ReachIf(SameRow(n, id, id - 1), n, a, id - 1)
  }

  /** The guard of the `k`-th sweep of `checkNeighbours` (0 up, 1 down,
    * 2 right, 3 left). */
  ghost function Guard(n: int, id: int, k: int): bool
    requires n > 0
  {
    if k == 0 then ColInside(n, id - n)
    else if k == 1 then ColInside(n, id + n)
    else if k == 2 then SameRow(n, id, id + 1)
    else SameRow(n, id, id - 1)
  }

  /** The tile the `k`-th sweep of `checkNeighbours` starts from. */
  ghost function Target(n: int, id: int, k: int): int
  {
    if k == 0 then id - n else if k == 1 then id + n else if k == 2 then id + 1 else id - 1
  }

  /** The first `k` guarded sweeps of `checkNeighbours`, all through `a`. */
  ghost function SpreadUpTo(n: int, a: set<int>, id: int, k: nat): set<int>
    requires n > 0
  {
    if k == 0 then {}
    else SpreadUpTo(n, a, id, k - 1) + ReachIf(Guard(n, id, k - 1), n, a, Target(n, id, k - 1))
  }

  /** All four sweeps make up `Spread`. */
  lemma SpreadAll(n: int, a: set<int>, id: int)
    requires n > 0
    ensures SpreadUpTo(n, a, id, 4) == Spread(n, a, id)
  {
    var r0 := ReachIf(ColInside(n, id - n), n, a, id - n);
    var r1 := ReachIf(ColInside(n, id + n), n, a, id + n);
    var r2 := ReachIf(SameRow(n, id, id + 1), n, a, id + 1);
    var r3 := ReachIf(SameRow(n, id, id - 1), n, a, id - 1);
    assert SpreadUpTo(n, a, id, 1) == {} + r0;
    assert SpreadUpTo(n, a, id, 2) == {} + r0 + r1;
    assert SpreadUpTo(n, a, id, 3) == {} + r0 + r1 + r2;
    assert SpreadUpTo(n, a, id, 4) == {} + r0 + r1 + r2 + r3;
  }

  /** A reach set lies in the set it is taken through and holds its start. */
  lemma ReachBounds(n: int, a: set<int>, x: int)
    requires n > 0
    ensures Reach(n, a, x) <= a
    ensures x in a ==> x in Reach(n, a, x)
  {
    if x in a {
      assert IsPath(n, a, [x]);
    }
  }

  /** A reach set cannot be left by one more step inside `a`. */
  lemma ReachClosed(n: int, a: set<int>, x: int)
    requires n > 0
    ensures Closed(n, a, Reach(n, a, x))
  {
    forall u, v | u in Reach(n, a, x) && v in a && Step(n, u, v)
      ensures v in Reach(n, a, x)
    {
      var p :| IsPath(n, a, p) && p[0] == x && p[|p| - 1] == u;
      assert IsPath(n, a, p + [v]);
    }
  }

  /** A walk through `a` that ends outside a closed set never entered it. */
  lemma AvoidClosed(n: int, a: set<int>, r: set<int>, p: seq<int>)
    requires Closed(n, a, r) && IsPath(n, a, p) && p[|p| - 1] !in r
    ensures forall k :: 0 <= k < |p| ==> p[k] !in r
  {
    var k := |p| - 1;
    while k > 0
      invariant 0 <= k < |p|
      invariant forall j :: k <= j < |p| ==> p[j] !in r
    {
      assert Step(n, p[k - 1], p[k]) && p[k] in a;
      k := k - 1;
    }
  }

  /** Sweeping from `x` after a closed set `r` has been swept reaches, on
    * top of `r`, what sweeping from `x` in the first place would: swept
    * tiles become ineligible, and that only cuts off tiles already swept. */
  lemma Compose(n: int, a: set<int>, r: set<int>, x: int)
    requires Closed(n, a, r)
    ensures r + Reach(n, a - r, x) == r + Reach(n, a, x)
  {
    forall z | z in Reach(n, a - r, x)
      ensures z in Reach(n, a, x)
    {
      var p :| IsPath(n, a - r, p) && p[0] == x && p[|p| - 1] == z;
      assert IsPath(n, a, p);
    }
    forall z | z in Reach(n, a, x) && z !in r
      ensures z in Reach(n, a - r, x)
    {
      var p :| IsPath(n, a, p) && p[0] == x && p[|p| - 1] == z;
      AvoidClosed(n, a, r, p);
      assert IsPath(n, a - r, p);
    }
  }

  /** One guarded sweep after a closed set: `Compose`, and the union is
    * closed again. */
  lemma ComposeStep(n: int, a: set<int>, u: set<int>, g: bool, y: int)
    requires Closed(n, a, u)
    ensures u + ReachIf(g, n, a - u, y) == u + ReachIf(g, n, a, y)
    ensures Closed(n, a, u + ReachIf(g, n, a, y))
  {
    if g {
      Compose(n, a, u, y);
      ReachClosed(n, a, y);
    }
  }

  /** The first `k` sweeps of `checkNeighbours` together leave no tile of
    * `a` one step away from them. */
  lemma {:induction false} SpreadUpToClosed(n: int, a: set<int>, id: int, k: nat)
    requires n > 0
    ensures Closed(n, a, SpreadUpTo(n, a, id, k))
  {
    if k > 0 {
      SpreadUpToClosed(n, a, id, k - 1);
      ComposeStep(n, a, SpreadUpTo(n, a, id, k - 1), Guard(n, id, k - 1), Target(n, id, k - 1));
    }
  }

  /** The last visit of `x` on a walk that starts at `x`. */
  lemma LastVisit(p: seq<int>, x: int) returns (k: nat)
    requires |p| > 0 && p[0] == x
    ensures k < |p| && p[k] == x
    ensures forall j :: k < j < |p| ==> p[j] != x
  {
    k := |p| - 1;
    while p[k] != x
      invariant 0 <= k < |p|
      invariant forall j :: k < j < |p| ==> p[j] != x
      decreases k
    {
      k := k - 1;
    }
  }

  /** A sweep from a neighbour `y` of an eligible `x`, with `x` itself no
    * longer eligible, stays within the sweep from `x`. */
  lemma ExtendBack(n: int, a: set<int>, x: int, y: int, z: int)
    requires x in a && n > 0 && Step(n, x, y) && z in Reach(n, a - {x}, y)
    ensures z in Reach(n, a, x)
  {
    var p :| IsPath(n, a - {x}, p) && p[0] == y && p[|p| - 1] == z;
    var q := [x] + p;
    assert q[1..] == p;
    assert IsPath(n, a, q);
  }

  /** A tile other than `x` swept from `x` is swept, with `x` no longer
    * eligible, from a neighbour of `x`: cut the walk after its last visit
    * of `x`. */
  lemma SplitAtLastVisit(n: int, a: set<int>, x: int, z: int) returns (y: int)
    requires z in Reach(n, a, x) && z != x
    ensures n > 0 && Step(n, x, y) && z in Reach(n, a - {x}, y)
  {
    var p :| IsPath(n, a, p) && p[0] == x && p[|p| - 1] == z;
    var k := LastVisit(p, x);
    var q := p[k + 1..];
    y := p[k + 1];
    assert Step(n, p[k], p[k + 1]);
    assert IsPath(n, a - {x}, q);
  }

  /** `Unfold` as the caller of `checkNeighbours` sees it: playing `x`
    * first and then the four sweeps from it plays the sweep from `x`. */
  lemma UnfoldPlayed(n: int, a: set<int>, x: int, p0: set<int>, p: set<int>)
    requires n > 0 && x in a && p == p0 + {x} + Spread(n, a - {x}, x)
    ensures p == p0 + Reach(n, a, x)
  {
    Unfold(n, a, x);
  }

  /** The recursion of `checkItemNoBombs`: sweeping from an eligible `x`
    * reaches `x` itself and, with `x` no longer eligible, whatever the four
    * guarded sweeps from its neighbours reach. */
  lemma Unfold(n: int, a: set<int>, x: int)
    requires n > 0 && x in a
    ensures Reach(n, a, x) == {x} + Spread(n, a - {x}, x)
  {
    ReachBounds(n, a, x);
    forall z | z in Spread(n, a - {x}, x)
      ensures z in Reach(n, a, x)
    {
      if ColInside(n, x - n) && z in Reach(n, a - {x}, x - n) {
        ExtendBack(n, a, x, x - n, z);
      } else if ColInside(n, x + n) && z in Reach(n, a - {x}, x + n) {
        ExtendBack(n, a, x, x + n, z);
      } else if SameRow(n, x, x + 1) && z in Reach(n, a - {x}, x + 1) {
        ExtendBack(n, a, x, x + 1, z);
      } else {
        ExtendBack(n, a, x, x - 1, z);
      }
    }
    forall z | z in Reach(n, a, x) && z != x
      ensures z in Spread(n, a - {x}, x)
    {
      var y := SplitAtLastVisit(n, a, x, z);
    }
  }
}
