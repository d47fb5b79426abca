/**
 * The board engine of `class Game`: building the board, counting the
 * mines around each tile, the recursive flood fill and the click handler.
 * The tiles live in an array of tile records that the methods update in
 * place; the rendering, logging and event wiring of the source are not
 * part of the model.
 */
module Minesweeper {
  import opened Grid
  import opened Tiles
  import opened Cascade
  import opened Rules

  /** The distinct tiles among the first `k` draws. */
  ghost function Drawn(picks: seq<int>, k: int): set<int>
    requires 0 <= k <= |picks|
  {
    set x | x in picks[..k]
  }

  /** One more draw adds its tile to the drawn ones, and one more distinct
    * tile exactly when it had not been drawn before. */
  lemma DrawnStep(picks: seq<int>, k: int)
    requires 0 <= k < |picks|
    ensures Drawn(picks, k + 1) == Drawn(picks, k) + {picks[k]}
    ensures picks[k] in Drawn(picks, k) ==> |Drawn(picks, k + 1)| == |Drawn(picks, k)|
    ensures picks[k] !in Drawn(picks, k) ==> |Drawn(picks, k + 1)| == |Drawn(picks, k)| + 1
  {
    assert picks[..k + 1] == picks[..k] + [picks[k]];
    if picks[k] in Drawn(picks, k) {
      assert Drawn(picks, k) + {picks[k]} == Drawn(picks, k);
    }
  }

  /** A board as `setTilesList` leaves it: `n` unplayed tiles with ids
    * `0..n-1` and no count yet, the tiles in `mines` being mines. */
  ghost function FreshBoard(n: nat, mines: set<int>): seq<Tile>
  {
    seq(n, i => Tile(i, i in mines, 0, false))
  }

  /** Drawing tile `x` on a fresh board makes it a mine, if it was not one
    * already, and changes nothing else. */
  lemma FreshBoardAdd(n: nat, mines: set<int>, x: int)
    requires 0 <= x < n
    ensures FreshBoard(n, mines)[x].isBomb <==> x in mines
    ensures x in mines ==> FreshBoard(n, mines + {x}) == FreshBoard(n, mines)
    ensures x !in mines ==>
      FreshBoard(n, mines + {x}) == FreshBoard(n, mines)[x := FreshBoard(n, mines)[x].SetIsBomb()]
  {
    if x in mines {
      assert mines + {x} == mines;
    }
  }

  /** The mines of a fresh board are the drawn tiles, and none of its tiles
    * is played. */
  lemma FreshBoardViews(n: nat, picks: seq<int>, k: int)
    requires 0 <= k <= |picks| && forall j :: 0 <= j < |picks| ==> 0 <= picks[j] < n
    ensures MinesOf(FreshBoard(n, Drawn(picks, k))) == Drawn(picks, k)
    ensures PlayedOf(FreshBoard(n, Drawn(picks, k))) == {}
  {
    var s := FreshBoard(n, Drawn(picks, k));
    forall x | x in Drawn(picks, k)
      ensures x in MinesOf(s)
    {
      var j :| 0 <= j < k && picks[j] == x;
    }
  }

  /** The mines among the first `k` of the candidates `points`. */
  ghost function MinesAmong(points: seq<int>, k: int, mines: set<int>): set<int>
    requires 0 <= k <= |points|
  {
    set j | j in points[..k] && j in mines
  }

  /** Looking at one more candidate, never seen before since the candidates
    * are distinct, adds one mine exactly when that candidate is a mine. */
  lemma CountOneMore(points: seq<int>, k: int, mines: set<int>)
    requires 0 <= k < |points|
    requires forall a, b :: 0 <= a < b < |points| ==> points[a] != points[b]
    ensures points[k] in mines ==> |MinesAmong(points, k + 1, mines)| == |MinesAmong(points, k, mines)| + 1
    ensures points[k] !in mines ==> |MinesAmong(points, k + 1, mines)| == |MinesAmong(points, k, mines)|
  {
    var x := points[k];
    assert points[..k + 1] == points[..k] + [x];
    assert x !in points[..k];
    if x in mines {
      assert MinesAmong(points, k + 1, mines) == MinesAmong(points, k, mines) + {x};
    } else {
      assert MinesAmong(points, k + 1, mines) == MinesAmong(points, k, mines);
    }
  }

  /** All the candidates, when they are exactly the tiles of `around`, hold
    * the mines of `around`. */
  lemma MinesAmongAll(points: seq<int>, mines: set<int>, around: set<int>)
    requires forall j :: j in points <==> j in around
    ensures MinesAmong(points, |points|, mines) == mines * around
  {
    assert points[..|points|] == points;
    forall j
      ensures j in MinesAmong(points, |points|, mines) <==> j in mines * around
    {
      assert j in points <==> j in around;
    }
  }

  /** The `k`-th of the four sweeps of `checkNeighbours`, taken from board
    * `s1` to board `s2`, where the first `k` sweeps through the tiles
    * eligible on the starting board `s0` had been played: the first `k + 1`
    * sweeps through those tiles are then played. */
  lemma Advance(n: int, s0: seq<Tile>, s1: seq<Tile>, s2: seq<Tile>, id: int, k: nat, g: bool, y: int)
    requires n > 0 && SameLayout(s0, s1) && SameLayout(s1, s2)
    requires g == Guard(n, id, k) && y == Target(n, id, k)
    requires PlayedOf(s1) == PlayedOf(s0) + SpreadUpTo(n, EligibleOf(s0), id, k)
    requires PlayedOf(s2) == PlayedOf(s1) + ReachIf(g, n, EligibleOf(s1), y)
    ensures SameLayout(s0, s2)
    ensures PlayedOf(s2) == PlayedOf(s0) + SpreadUpTo(n, EligibleOf(s0), id, k + 1)
  {
    var a := EligibleOf(s0);
    var u := SpreadUpTo(n, a, id, k);
    SameLayoutViews(s0, s1, n);
    assert EligibleOf(s1) == a - u;
    SpreadUpToClosed(n, a, id, k);
    ComposeStep(n, a, u, Guard(n, id, k), Target(n, id, k));
  }

  /** The first two sweeps of `checkNeighbours`, each through the tiles
    * eligible when it starts, play the first two sweeps through the tiles
    * eligible on `s0`. */
  lemma TwoSweeps(n: int, s0: seq<Tile>, s1: seq<Tile>, s2: seq<Tile>, id: int)
    requires n > 0 && SameLayout(s0, s1) && SameLayout(s1, s2)
    requires PlayedOf(s1) == PlayedOf(s0) + ReachIf(ColInside(n, id + n * -1), n, EligibleOf(s0), id + n * -1)
    requires PlayedOf(s2) == PlayedOf(s1) + ReachIf(ColInside(n, id + n * 1), n, EligibleOf(s1), id + n * 1)
    ensures SameLayout(s0, s2)
    ensures PlayedOf(s2) == PlayedOf(s0) + SpreadUpTo(n, EligibleOf(s0), id, 2)
  {
    var k: nat := 0;
    Advance(n, s0, s0, s1, id, k, ColInside(n, id + n * -1), id + n * -1);
    k := k + 1;
    Advance(n, s0, s1, s2, id, k, ColInside(n, id + n * 1), id + n * 1);
  }

  /** The four sweeps of `checkNeighbours`, each through the tiles eligible
    * when it starts, play together the four sweeps through the tiles
    * eligible at the start: a sweep only makes ineligible the tiles it has
    * itself played, and those the later sweeps would have reached anyway.
    * The vertical targets are written `id + n * upDown`, as the source
    * computes them. */
  lemma FourSweeps(n: int, s0: seq<Tile>, s1: seq<Tile>, s2: seq<Tile>, s3: seq<Tile>, s4: seq<Tile>, id: int)
    requires n > 0
    requires SameLayout(s0, s1) && SameLayout(s1, s2) && SameLayout(s2, s3) && SameLayout(s3, s4)
    requires PlayedOf(s1) == PlayedOf(s0) + ReachIf(ColInside(n, id + n * -1), n, EligibleOf(s0), id + n * -1)
    requires PlayedOf(s2) == PlayedOf(s1) + ReachIf(ColInside(n, id + n * 1), n, EligibleOf(s1), id + n * 1)
    requires PlayedOf(s3) == PlayedOf(s2) + ReachIf(SameRow(n, id, id + 1), n, EligibleOf(s2), id + 1)
    requires PlayedOf(s4) == PlayedOf(s3) + ReachIf(SameRow(n, id, id + -1), n, EligibleOf(s3), id + -1)
    ensures SameLayout(s0, s4)
    ensures PlayedOf(s4) == PlayedOf(s0) + Spread(n, EligibleOf(s0), id)
  {
    TwoSweeps(n, s0, s1, s2, id);
    var k: nat := 2;
    Advance(n, s0, s2, s3, id, k, SameRow(n, id, id + 1), id + 1);
    k := k + 1;
    Advance(n, s0, s3, s4, id, k, SameRow(n, id, id + -1), id + -1);
    SpreadAll(n, EligibleOf(s0), id);
  }

  class Game {
    /** Tiles per row (the source fixes 10). */
    var tilesLine: int
    /** Number of mines (the source defaults to 10). */
    var bombs: int
    /** `Math.pow(tilesLine, 2)`. */
    var totalTiles: int
    /** The board, in row-major order. */
    var tilesList: array<Tile>

    /** The configuration: a non-empty square board with at least one mine
      * and at least one tile without a mine. */
    ghost predicate Config()
      reads this
    {
      tilesLine > 0 && totalTiles == tilesLine * tilesLine && 0 < bombs < totalTiles
    }

    /** The board has been built: `totalTiles` tiles. */
    ghost predicate Valid()
      reads this
    {
      Config() && tilesList.Length == totalTiles
    }

    /** The invariant of a game in progress or over: the board is built and
      * ready (tile `i` at index `i`, `bombs` mines, every count right), and
      * either no mine is played or every tile is. */
    ghost predicate Playing()
      reads this, tilesList
    {
      Valid() && GameInvariant(tilesLine, bombs, tilesList[..])
    }

    ghost function Played(): set<int>
      reads this, tilesList
    {
      PlayedOf(tilesList[..])
    }

    ghost function Unplayed(): set<int>
      reads this, tilesList
    {
      UnplayedOf(tilesList[..])
    }

    ghost function Eligible(): set<int>
      reads this, tilesList
    {
      EligibleOf(tilesList[..])
    }

    /** A game as the constructor leaves it: configured, with an empty tile
      * list (the board is built by `InitGame`).  The side length and the
      * number of mines come in as parameters; reading them from the page is
      * not modelled. */
    constructor (tilesLine: int, bombs: int)
      requires tilesLine > 0 && 0 < bombs < tilesLine * tilesLine
      ensures Config() && this.tilesLine == tilesLine && this.bombs == bombs
      ensures tilesList.Length == 0
    {
      this.tilesLine := tilesLine;
      this.bombs := bombs;
      this.totalTiles := tilesLine * tilesLine;
      this.tilesList := new Tile[0];
    }

    // -------------------------------------------------------------------
    // Building the board
    // -------------------------------------------------------------------

    /** `setTilesList`: a fresh list of `totalTiles` tiles with ids
      * `0..totalTiles-1`, then random draws until exactly `bombs` distinct
      * tiles are mines.  The draws of `Math.random` come in as `picks`;
      * `draws` is how many of them the loop consumed.  The mines are the
      * tiles drawn, and the loop stops at the first draw that makes `bombs`
      * of them.  (With `bombs >= 1` the source's `do ... while` runs its body
      * exactly as often as this `while`.) */
    method SetTilesList(picks: seq<int>) returns (draws: nat)
      requires Config()
      requires forall k :: 0 <= k < |picks| ==> 0 <= picks[k] < totalTiles
      requires |Drawn(picks, |picks|)| >= bombs
      modifies this
      ensures Valid() && fresh(tilesList)
      ensures tilesLine == old(tilesLine) && bombs == old(bombs) && totalTiles == old(totalTiles)
      ensures 0 < draws <= |picks|
      ensures tilesList[..] == FreshBoard(totalTiles, Drawn(picks, draws))
      ensures |Drawn(picks, draws)| == bombs
      ensures |Drawn(picks, draws - 1)| < bombs
    {
      var list := new Tile[totalTiles](i => NewTile(i));
      var bombsSetted := 0;
      draws := 0;
      ghost var drawn: set<int> := {};
      assert list[..] == FreshBoard(totalTiles, drawn);
      while bombsSetted < bombs
        invariant 0 <= draws <= |picks| && drawn == Drawn(picks, draws)
        invariant list[..] == FreshBoard(totalTiles, drawn)
        invariant bombsSetted == |drawn| <= bombs
        invariant draws > 0 ==> |Drawn(picks, draws - 1)| < bombs
        modifies list
        decreases |picks| - draws
      {
        var newBomb := picks[draws];
        DrawnStep(picks, draws);
        FreshBoardAdd(totalTiles, drawn, newBomb);
        if !list[newBomb].isBomb {
          list[newBomb] := list[newBomb].SetIsBomb();
          bombsSetted := bombsSetted + 1;
        }
        drawn := drawn + {newBomb};
        draws := draws + 1;
      }
      tilesList := list;
    }

    /** The mines among the tiles `setNearBombs` checks around `index`: the
      * source's accumulator loop over the de-duplicated candidates. */
    method CountNearBombs(index: int) returns (bombsFound: nat)
      requires Valid() && 0 <= index < totalTiles
      ensures bombsFound == |MinesOf(tilesList[..]) * NeighbourSet(tilesLine, index)|
    {
      var points := CheckedPoints(tilesLine, index);
      PointsAreNeighbours(tilesLine, index);
      ghost var mines := MinesOf(tilesList[..]);
      bombsFound := 0;
      for k := 0 to |points|
        invariant bombsFound == |MinesAmong(points, k, mines)|
      {
        var i := points[k];
        assert i in NeighbourSet(tilesLine, index);
        CountOneMore(points, k, mines);
        if tilesList[i].isBomb {
          bombsFound := bombsFound + 1;
        }
      }
      MinesAmongAll(points, mines, NeighbourSet(tilesLine, index));
    }

    /** `setNearBombs`: every tile gets the number of mines among its in-grid
      * eight neighbours; nothing else changes. */
    method SetNearBombs()
      requires Valid()
      modifies tilesList
      ensures Valid()
      ensures forall i :: 0 <= i < totalTiles ==>
        tilesList[i] == old(tilesList[i]).SetNearBombs(|MinesOf(old(tilesList[..])) * NeighbourSet(tilesLine, i)|)
      ensures MinesOf(tilesList[..]) == MinesOf(old(tilesList[..]))
      ensures CountsCorrect(tilesLine, tilesList[..])
    {
      ghost var mines := MinesOf(tilesList[..]);
      for index := 0 to totalTiles
        invariant forall i :: 0 <= i < index ==>
          tilesList[i] == old(tilesList[i]).SetNearBombs(|mines * NeighbourSet(tilesLine, i)|)
        invariant forall i :: index <= i < totalTiles ==> tilesList[i] == old(tilesList[i])
        invariant MinesOf(tilesList[..]) == mines
      {
        var bombsFound := CountNearBombs(index);
        tilesList[index] := tilesList[index].SetNearBombs(bombsFound);
        assert MinesOf(tilesList[..]) == mines;
      }
    }

    /** `initGame` without the rendering: build the board and count the mines.
      * No tile is played yet. */
    method InitGame(picks: seq<int>) returns (draws: nat)
      requires Config()
      requires forall k :: 0 <= k < |picks| ==> 0 <= picks[k] < totalTiles
      requires |Drawn(picks, |picks|)| >= bombs
      modifies this
      ensures Playing() && fresh(tilesList)
      ensures tilesLine == old(tilesLine) && bombs == old(bombs)
      ensures 0 < draws <= |picks|
      ensures MinesOf(tilesList[..]) == Drawn(picks, draws)
      ensures Played() == {}
      ensures forall i :: 0 <= i < totalTiles ==> tilesList[i].id == i
    {
      draws := SetTilesList(picks);
      FreshBoardViews(totalTiles, picks, draws);
      SetNearBombs();
      assert PlayedOf(tilesList[..]) == {};
    }

    // -------------------------------------------------------------------
    // The flood fill
    // -------------------------------------------------------------------

    /** `getPlayedNoBombs`: the tile has no mine around it and is not played,
      * i.e. the cascade may still sweep it. */
    function GetPlayedNoBombs(id: int): (r: bool)
      reads this, tilesList
      requires Valid() && 0 <= id < totalTiles
      ensures r <==> id in Eligible()
    {
      tilesList[id].nearBombs == 0 && !tilesList[id].played
    }

    /** `checkItemNoBombs`: sweeps `id` and recurses into its neighbours when
      * it is eligible.  The tiles it plays are exactly those reachable from
      * `id` by cascade steps through the tiles eligible when it is called. */
    method CheckItemNoBombs(id: int, ghost left: set<int>)
      requires Valid() && 0 <= id < totalTiles && Unplayed() <= left
      modifies tilesList
      ensures Valid() && SameLayout(old(tilesList[..]), tilesList[..])
      ensures Played() == old(Played()) + Reach(tilesLine, old(Eligible()), id)
      ensures Unplayed() <= old(Unplayed())
      decreases left, 0
    {
      if GetPlayedNoBombs(id) {
        ghost var s0 := tilesList[..];
        PlayOne(s0, id);
        tilesList[id] := tilesList[id].SetIsPlayed();
        assert tilesList[..] == s0[id := s0[id].SetIsPlayed()];
        CheckNeighbours(id, left - {id});
        UnfoldPlayed(tilesLine, EligibleOf(s0), id, PlayedOf(s0), Played());
      }
    }

    /** `checkRowNeighbours`: the tile `direction` (+1 or -1) along the row,
      * only when it is in the same row. */
    method CheckRowNeighbours(id: int, direction: int, ghost left: set<int>)
      requires Valid() && 0 <= id < totalTiles && (direction == 1 || direction == -1) && Unplayed() <= left
      modifies tilesList
      ensures Valid() && SameLayout(old(tilesList[..]), tilesList[..])
      ensures Played() == old(Played()) +
        ReachIf(SameRow(tilesLine, id, id + direction), tilesLine, old(Eligible()), id + direction)
      ensures Unplayed() <= old(Unplayed())
      decreases left, 1
    {
      var newId := id + direction;
      if Row(tilesLine, id) == Row(tilesLine, newId) {
        RowInside(tilesLine, id);
        RowInside(tilesLine, newId);
        CheckItemNoBombs(newId, left);
      }
    }

    /** `checkColNeighbours`: the tile `upDown` (+1 or -1) rows away, only
      * when its row is on the board. */
    method CheckColNeighbours(id: int, upDown: int, ghost left: set<int>)
      requires Valid() && 0 <= id < totalTiles && (upDown == 1 || upDown == -1) && Unplayed() <= left
      modifies tilesList
      ensures Valid() && SameLayout(old(tilesList[..]), tilesList[..])
      ensures Played() == old(Played()) +
        ReachIf(ColInside(tilesLine, id + tilesLine * upDown), tilesLine, old(Eligible()), id + tilesLine * upDown)
      ensures Unplayed() <= old(Unplayed())
      decreases left, 1
    {
      var newId := id + tilesLine * upDown;
      var isInside := Row(tilesLine, newId) >= 0 && Row(tilesLine, newId) < tilesLine;
      if isInside {
        RowInside(tilesLine, newId);
        CheckItemNoBombs(newId, left);
      }
    }

    /** `checkNeighbours`: up, down, right, left, in that order.  Whatever
      * the order, the result is the union of the four sweeps taken from the
      * tiles eligible at the start: a sweep only makes ineligible the tiles
      * it has itself played. */
    method CheckNeighbours(id: int, ghost left: set<int>)
      requires Valid() && 0 <= id < totalTiles && Unplayed() <= left
      modifies tilesList
      ensures Valid() && SameLayout(old(tilesList[..]), tilesList[..])
      ensures Played() == old(Played()) + Spread(tilesLine, old(Eligible()), id)
      ensures Unplayed() <= old(Unplayed())
      decreases left, 2
    {
      ghost var s0 := tilesList[..];
      CheckColNeighbours(id, -1, left);
      ghost var s1 := tilesList[..];
      CheckColNeighbours(id, 1, left);
      ghost var s2 := tilesList[..];
      CheckRowNeighbours(id, 1, left);
      ghost var s3 := tilesList[..];
      CheckRowNeighbours(id, -1, left);
      FourSweeps(tilesLine, s0, s1, s2, s3, tilesList[..], id);
    }

    // -------------------------------------------------------------------
    // Clicks
    // -------------------------------------------------------------------

    /** The number of tiles still to play, `tilesList.filter(i =>
      * !i.getIsPlayed()).length`. */
    method CountUnplayed() returns (count: nat)
      requires Valid()
      ensures count == |Unplayed()|
    {
      count := 0;
      for k := 0 to totalTiles
        invariant count == |set i | 0 <= i < k && !tilesList[i].played|
      {
        if !tilesList[k].played {
          assert (set i | 0 <= i < k + 1 && !tilesList[i].played) == (set i | 0 <= i < k && !tilesList[i].played) + {k};
          count := count + 1;
        } else {
          assert (set i | 0 <= i < k + 1 && !tilesList[i].played) == (set i | 0 <= i < k && !tilesList[i].played);
        }
      }
      assert (set i | 0 <= i < totalTiles && !tilesList[i].played) == Unplayed();
    }

    /** `forEach(t => t.setIsPlayed())`: every tile becomes played, nothing
      * else changes. */
    method PlayAll()
      requires Valid()
      modifies tilesList
      ensures Valid() && SameLayout(old(tilesList[..]), tilesList[..])
      ensures forall i :: 0 <= i < totalTiles ==> tilesList[i] == old(tilesList[i]).SetIsPlayed()
      ensures AllPlayed(tilesList[..])
    {
      for k := 0 to totalTiles
        invariant forall i :: 0 <= i < k ==> tilesList[i] == old(tilesList[i]).SetIsPlayed()
        invariant forall i :: k <= i < totalTiles ==> tilesList[i] == old(tilesList[i])
      {
        tilesList[k] := tilesList[k].SetIsPlayed();
      }
      LayoutByTiles(old(tilesList[..]), tilesList[..]);
      assert Unplayed() == {};
    }

    /** `checkItemPlayed` without the rendering: a mine plays every tile (the
      * game is lost); a played tile is inert; otherwise the tile is played,
      * the cascade runs when it has no mine around it, and when exactly
      * `bombs` tiles are then unplayed, every tile is played (the game is
      * won).  Only played flags change. */
    method CheckItemPlayed(id: int)
      requires Valid() && 0 <= id < totalTiles
      modifies tilesList
      ensures Valid() && SameLayout(old(tilesList[..]), tilesList[..])
      ensures Played() == ClickPlayed(tilesLine, bombs, old(tilesList[..]), id)
      ensures old(tilesList[id].isBomb) ==> AllPlayed(tilesList[..])
      ensures !old(tilesList[id].isBomb) && old(tilesList[id].played) ==> tilesList[..] == old(tilesList[..])
      ensures old(Playing()) ==> Playing()
    {
      ghost var s0 := tilesList[..];
      if tilesList[id].isBomb {
        PlayAll();
        AllPlayedIsIndices(s0, tilesList[..]);
      } else if !tilesList[id].played {
        OwnSweep(id);
        var unplayed := CountUnplayed();
        if unplayed == bombs {
          PlayAll();
          AllPlayedIsIndices(s0, tilesList[..]);
        }
      }
      if old(Playing()) {
        ClickKeepsInvariant(tilesLine, bombs, s0, tilesList[..], id);
      }
    }

    /** Playing the unplayed mine-free tile `id` and running the cascade when
      * it has no mine around it plays exactly the sweep of the click. */
    method OwnSweep(id: int)
      requires Valid() && 0 <= id < totalTiles
      requires !tilesList[id].isBomb && !tilesList[id].played
      modifies tilesList
      ensures Valid() && SameLayout(old(tilesList[..]), tilesList[..])
      ensures Played() == old(Played()) + Sweep(tilesLine, old(tilesList[..]), id)
      ensures Unplayed() == old(Unplayed()) - Sweep(tilesLine, old(tilesList[..]), id)
    {
      ghost var s0 := tilesList[..];
      PlayOne(s0, id);
      tilesList[id] := tilesList[id].SetIsPlayed();
      assert tilesList[..] == s0[id := s0[id].SetIsPlayed()];
      if tilesList[id].nearBombs == 0 {
        CheckNeighbours(id, Unplayed());
        UnfoldPlayed(tilesLine, EligibleOf(s0), id, PlayedOf(s0), Played());
      }
      PlayMore(s0, tilesList[..], Sweep(tilesLine, s0, id));
    }
  }
}
