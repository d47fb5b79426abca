/**
 * The effect of one click (`Game.checkItemPlayed`) as a function of the
 * board before it, and the rules of the game proved about that function.
 * A board is a sequence of tiles; after a click only the set of played
 * tiles has changed.
 */
module Rules {
  import opened Grid
  import opened Tiles
  import opened Cascade

  /** No mine has been played. */
  ghost predicate MinesHidden(s: seq<Tile>)
  {
    MinesOf(s) * PlayedOf(s) == {}
  }

  /** The game is over: every tile is played. */
  ghost predicate AllPlayed(s: seq<Tile>)
  {
    UnplayedOf(s) == {}
  }

  /** A board ready to play: tile `i` has id `i`, there are exactly `bombs`
    * mines and every count is right. */
  ghost predicate BoardReady(n: int, bombs: int, s: seq<Tile>)
  {
    (forall i :: 0 <= i < |s| ==> s[i].id == i) && |MinesOf(s)| == bombs && CountsCorrect(n, s)
  }

  /** The invariant of a game in progress or over: the board is ready, and
    * either no mine has been played or every tile has. */
  ghost predicate GameInvariant(n: int, bombs: int, s: seq<Tile>)
  {
    BoardReady(n, bombs, s) && (MinesHidden(s) || AllPlayed(s))
  }

  /** A board on which every tile is played has every index of a board of
    * the same layout played. */
  lemma AllPlayedIsIndices(s: seq<Tile>, t: seq<Tile>)
    requires SameLayout(s, t) && AllPlayed(t)
    ensures PlayedOf(t) == IndicesOf(s)
  {
    SameLayoutViews(s, t, 0);
    IndicesRange(s);
    IndicesRange(t);
  }

  /** The tiles a click on the unplayed, mine-free tile `id` plays before the
    * win check: `id` itself, and when it has no mine around it, every tile
    * the cascade reaches from it through unplayed tiles with no mine around
    * them. */
  ghost function Sweep(n: int, s: seq<Tile>, id: int): set<int>
    requires 0 <= id < |s|
  {
    if s[id].nearBombs == 0 then Reach(n, EligibleOf(s), id) else {id}
  }

  /** The played tiles after `checkItemPlayed(id)` on board `s` with `bombs`
    * mines: a mine plays everything (the game is lost); a played tile is
    * inert; otherwise the sweep is played, and if then exactly `bombs`
    * tiles are left unplayed, everything is played (the game is won). */
  ghost function ClickPlayed(n: int, bombs: int, s: seq<Tile>, id: int): set<int>
    requires 0 <= id < |s|
  {
    if s[id].isBomb then IndicesOf(s)
    else if s[id].played then PlayedOf(s)
    else if |UnplayedOf(s) - Sweep(n, s, id)| == bombs then IndicesOf(s)
    else PlayedOf(s) + Sweep(n, s, id)
  }

  /** A cascade step from a tile with no mine around it never lands on a
    * mine: every step lands on one of the tile's eight neighbours. */
  lemma StepFromZeroAvoidsMines(n: int, s: seq<Tile>, u: int, z: int)
    requires CountsCorrect(n, s) && 0 <= u < |s| && s[u].nearBombs == 0 && Step(n, u, z)
    ensures z !in MinesOf(s)
  {
    StepIsNeighbour(n, u, z);
    var around := MinesOf(s) * NeighbourSet(n, u);
    assert |around| == 0;
    assert z !in around;
  }

  /** The sweep from an unplayed mine-free tile holds that tile, only holds
    * unplayed tiles, and never holds a mine: it only steps on from tiles
    * with no mine among their eight neighbours. */
  lemma SweepAvoidsMines(n: int, s: seq<Tile>, id: int)
    requires CountsCorrect(n, s) && 0 <= id < |s| && !s[id].isBomb && !s[id].played
    ensures id in Sweep(n, s, id)
    ensures Sweep(n, s, id) <= UnplayedOf(s)
    ensures Sweep(n, s, id) * MinesOf(s) == {}
  {
    var e := EligibleOf(s);
    if s[id].nearBombs == 0 {
      ReachBounds(n, e, id);
      forall z | z in Reach(n, e, id)
        ensures z !in MinesOf(s)
      {
        var p :| IsPath(n, e, p) && p[0] == id && p[|p| - 1] == z;
        if |p| > 1 {
          var u := p[|p| - 2];
          assert u in e && Step(n, u, z);
          StepFromZeroAvoidsMines(n, s, u, z);
        }
      }
    }
  }

  /** Played tiles stay played. */
  lemma ClickMonotone(n: int, bombs: int, s: seq<Tile>, id: int)
    requires n > 0 && 0 <= id < |s|
    ensures PlayedOf(s) <= ClickPlayed(n, bombs, s, id) <= IndicesOf(s)
  {
    if !s[id].isBomb && !s[id].played && s[id].nearBombs == 0 {
      ReachBounds(n, EligibleOf(s), id);
    }
  }

  /** Once every tile is played, a click changes nothing: with no game
    * status in the source, a finished game is still inert. */
  lemma FinishedIsInert(n: int, bombs: int, s: seq<Tile>, id: int)
    requires 0 <= id < |s| && AllPlayed(s)
    ensures ClickPlayed(n, bombs, s, id) == PlayedOf(s)
  {
    assert id !in UnplayedOf(s);
  }

  /** With `bombs` mines in all and none of them in `p`, at least `bombs`
    * tiles lie outside `p`, and exactly `bombs` only when `p` holds every
    * tile that is not a mine. */
  lemma LeftAtLeastBombs(s: seq<Tile>, bombs: int, p: set<int>)
    requires |MinesOf(s)| == bombs && MinesOf(s) * p == {}
    ensures |IndicesOf(s) - p| >= bombs
    ensures |IndicesOf(s) - p| == bombs <==> forall i :: 0 <= i < |s| && !s[i].isBomb ==> i in p
  {
    var left := IndicesOf(s) - p;
    assert MinesOf(s) <= left;
    assert |left| == |left - MinesOf(s)| + |MinesOf(s)|;
    if |left| != bombs {
      var i :| i in left - MinesOf(s);
      assert 0 <= i < |s| && !s[i].isBomb && i !in p;
    } else {
      assert left - MinesOf(s) == {};
      forall i | 0 <= i < |s| && !s[i].isBomb
        ensures i in p
      {
        assert i in IndicesOf(s) && i !in MinesOf(s);
      }
    }
  }

  /** What the win check of a click on an unplayed mine-free tile sees: every
    * mine is still unplayed after the sweep, so at least `bombs` tiles are
    * left, and exactly `bombs` when every other tile is played. */
  lemma LeftAfterSweep(n: int, bombs: int, s: seq<Tile>, id: int)
    requires CountsCorrect(n, s) && |MinesOf(s)| == bombs && MinesHidden(s)
    requires 0 <= id < |s| && !s[id].isBomb && !s[id].played
    ensures var left := UnplayedOf(s) - Sweep(n, s, id);
      left == IndicesOf(s) - (PlayedOf(s) + Sweep(n, s, id)) && |left| >= bombs &&
      (|left| == bombs <==> forall i :: 0 <= i < |s| && !s[i].isBomb ==> i in PlayedOf(s) + Sweep(n, s, id))
  {
    var sw := Sweep(n, s, id);
    SweepAvoidsMines(n, s, id);
    assert MinesOf(s) * (PlayedOf(s) + sw) == {};
    LeftAtLeastBombs(s, bombs, PlayedOf(s) + sw);
    assert UnplayedOf(s) - sw == IndicesOf(s) - (PlayedOf(s) + sw);
  }

  /** The win rule is exact: on a board whose mines are hidden and counted
    * right, a click on an unplayed mine-free tile plays every tile exactly
    * when every tile without a mine has then been swept, and otherwise
    * plays no mine and leaves more than `bombs` tiles unplayed. */
  lemma WinIsExact(n: int, bombs: int, s: seq<Tile>, id: int)
    requires CountsCorrect(n, s) && |MinesOf(s)| == bombs && MinesHidden(s)
    requires 0 <= id < |s| && !s[id].isBomb && !s[id].played
    ensures ClickPlayed(n, bombs, s, id) == IndicesOf(s) <==>
      forall i :: 0 <= i < |s| && !s[i].isBomb ==> i in PlayedOf(s) + Sweep(n, s, id)
    ensures ClickPlayed(n, bombs, s, id) != IndicesOf(s) ==>
      MinesOf(s) * ClickPlayed(n, bombs, s, id) == {} &&
      |IndicesOf(s) - ClickPlayed(n, bombs, s, id)| > bombs
  {
    var sw := Sweep(n, s, id);
    LeftAfterSweep(n, bombs, s, id);
    SweepAvoidsMines(n, s, id);
    var left := UnplayedOf(s) - sw;
    if |left| == bombs {
      assert ClickPlayed(n, bombs, s, id) == IndicesOf(s);
    } else {
      assert ClickPlayed(n, bombs, s, id) == PlayedOf(s) + sw;
      assert IndicesOf(s) - (PlayedOf(s) + sw) == left;
      assert left != {} by {
        assert |left| > bombs >= 0;
      }
    }
  }

  /** What a click plays on a board that keeps the game invariant: either
    * no mine, or every tile. */
  lemma ClickIsSafeOrFinal(n: int, bombs: int, s: seq<Tile>, id: int)
    requires GameInvariant(n, bombs, s) && 0 <= id < |s|
    ensures var p := ClickPlayed(n, bombs, s, id);
      MinesOf(s) * p == {} || p == IndicesOf(s)
  {
    if AllPlayed(s) {
      FinishedIsInert(n, bombs, s, id);
    } else if !s[id].isBomb && !s[id].played {
      WinIsExact(n, bombs, s, id);
    }
  }

  /** The game invariant is kept by every click: the board `t` a click on
    * `s` leaves behind still has its ids and counts right and `bombs`
    * mines, and either no mine is played or every tile is. */
  lemma ClickKeepsInvariant(n: int, bombs: int, s: seq<Tile>, t: seq<Tile>, id: int)
    requires GameInvariant(n, bombs, s) && 0 <= id < |s|
    requires SameLayout(s, t) && PlayedOf(t) == ClickPlayed(n, bombs, s, id)
    ensures GameInvariant(n, bombs, t)
  {
    ClickIsSafeOrFinal(n, bombs, s, id);
    SameLayoutViews(s, t, n);
    IndicesRange(s);
    IndicesRange(t);
    if PlayedOf(t) == IndicesOf(s) {
      assert UnplayedOf(t) == {};
    } else {
      assert MinesOf(t) * PlayedOf(t) == {};
    }
  }
}
