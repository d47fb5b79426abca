/**
 * The state of one tile (`class Tile` of the game) and views of a whole
 * board, a sequence of tiles in index order, as sets of indices.
 */
module Tiles {
  import opened Grid

  /** One tile: its index in the board, whether it holds a mine, how many
    * mines surround it and whether it has been played (uncovered).  The
    * rendering-only state of the source tile (its element id, the
    * `updated` flag, the colour table) is not part of the model. */
  datatype Tile = Tile(id: int, isBomb: bool, nearBombs: int, played: bool)
  {
    /** `setIsBomb`: one-way, the flag only ever becomes true. */
    function SetIsBomb(): (t: Tile)
      ensures t.isBomb && t.(isBomb := isBomb) == this
    {
      this.(isBomb := true)
    }

    /** `setIsPlayed`: one-way, the flag only ever becomes true. */
    function SetIsPlayed(): (t: Tile)
      ensures t.played && t.(played := played) == this
    {
      this.(played := true)
    }

    /** `setNearBombs`. */
    function SetNearBombs(value: int): (t: Tile)
      ensures t.nearBombs == value && t.(nearBombs := nearBombs) == this
    {
      this.(nearBombs := value)
    }
  }

  /** `new Tile(id)`: the id, and the class-field defaults of the tile: no
    * mine, no neighbouring mine counted, not played. */
  function NewTile(id: int): (t: Tile)
    ensures t.id == id && !t.isBomb && t.nearBombs == 0 && !t.played
  {
    Tile(id, false, 0, false)
  }

  /** Indices of the played tiles. */
  ghost function PlayedOf(s: seq<Tile>): set<int>
  {
    set i | 0 <= i < |s| && s[i].played
  }

  /** Indices of the tiles still to play. */
  ghost function UnplayedOf(s: seq<Tile>): set<int>
  {
    set i | 0 <= i < |s| && !s[i].played
  }

  /** Every index of the board: each tile is either played or not. */
  ghost function IndicesOf(s: seq<Tile>): set<int>
  {
    PlayedOf(s) + UnplayedOf(s)
  }

  /** Indices of the mines. */
  ghost function MinesOf(s: seq<Tile>): set<int>
  {
    set i | 0 <= i < |s| && s[i].isBomb
  }

  /** Indices of the tiles with no mine around them. */
  ghost function ZeroOf(s: seq<Tile>): set<int>
  {
    set i | 0 <= i < |s| && s[i].nearBombs == 0
  }

  /** Indices for which `getPlayedNoBombs` holds: no mine around and not
    * played yet.  These are the tiles the cascade may still sweep. */
  ghost function EligibleOf(s: seq<Tile>): set<int>
  {
    ZeroOf(s) - PlayedOf(s)
  }

  /** The layout of a board: its tiles with the played flags cleared. */
  ghost function Layout(s: seq<Tile>): seq<Tile>
  {
    seq(|s|, i requires 0 <= i < |s| => s[i].(played := false))
  }

  /** `s` and `t` differ at most in which tiles are played. */
  ghost predicate SameLayout(s: seq<Tile>, t: seq<Tile>)
  {
    Layout(s) == Layout(t)
  }

  /** Every tile's `nearBombs` is the number of mines among its in-grid
    * eight neighbours. */
  ghost predicate CountsCorrect(n: int, s: seq<Tile>)
  {
    n > 0 && |s| == n * n &&
    forall i :: 0 <= i < |s| ==> s[i].nearBombs == |MinesOf(s) * NeighbourSet(n, i)|
  }

  /** Boards of the same layout have the same length and agree on every
    * tile's id, mine and count, so everything computed from those agrees. */
  lemma SameLayoutViews(s: seq<Tile>, t: seq<Tile>, n: int)
    requires SameLayout(s, t)
    ensures |s| == |t|
    ensures forall i :: 0 <= i < |s| ==>
      s[i].id == t[i].id && s[i].isBomb == t[i].isBomb && s[i].nearBombs == t[i].nearBombs
    ensures MinesOf(s) == MinesOf(t) && ZeroOf(s) == ZeroOf(t)
    ensures CountsCorrect(n, s) <==> CountsCorrect(n, t)
  {
    assert |Layout(s)| == |s| && |Layout(t)| == |t|;
    forall i | 0 <= i < |s|
      ensures s[i].id == t[i].id && s[i].isBomb == t[i].isBomb && s[i].nearBombs == t[i].nearBombs
    {
      assert Layout(s)[i] == Layout(t)[i];
    }
  }

  /** Boards of the same layout with the same played tiles are equal. */
  lemma SamePlayedSameBoard(s: seq<Tile>, t: seq<Tile>)
    requires SameLayout(s, t) && PlayedOf(s) == PlayedOf(t)
    ensures s == t
  {
    SameLayoutViews(s, t, 0);
    forall i | 0 <= i < |s|
      ensures s[i] == t[i]
    {
      assert s[i].played <==> i in PlayedOf(s);
      assert t[i].played <==> i in PlayedOf(t);
    }
  }

  /** Boards that agree tile by tile up to the played flag have the same
    * layout. */
  lemma LayoutByTiles(s: seq<Tile>, t: seq<Tile>)
    requires |s| == |t|
    requires forall i :: 0 <= i < |s| ==> s[i].(played := false) == t[i].(played := false)
    ensures SameLayout(s, t)
  {
    assert Layout(s) == Layout(t);
  }

  /** The indices of a board are [0, |s|); the unplayed ones are those not
    * played. */
  lemma IndicesRange(s: seq<Tile>)
    ensures forall i :: i in IndicesOf(s) <==> 0 <= i < |s|
    ensures UnplayedOf(s) == IndicesOf(s) - PlayedOf(s)
  {
  }

  /** Playing more tiles `r` on a board leaves those tiles out of the
    * unplayed ones and out of those the cascade may still sweep. */
  lemma PlayMore(s: seq<Tile>, t: seq<Tile>, r: set<int>)
    requires SameLayout(s, t) && PlayedOf(t) == PlayedOf(s) + r
    ensures UnplayedOf(t) == UnplayedOf(s) - r
    ensures EligibleOf(t) == EligibleOf(s) - r
  {
    SameLayoutViews(s, t, 0);
    IndicesRange(s);
    IndicesRange(t);
  }

  /** Playing tile `i` adds exactly `i` to the played tiles and keeps the
    * layout. */
  lemma PlayOne(s: seq<Tile>, i: int)
    requires 0 <= i < |s|
    ensures SameLayout(s, s[i := s[i].SetIsPlayed()])
    ensures PlayedOf(s[i := s[i].SetIsPlayed()]) == PlayedOf(s) + {i}
    ensures UnplayedOf(s[i := s[i].SetIsPlayed()]) == UnplayedOf(s) - {i}
    ensures EligibleOf(s[i := s[i].SetIsPlayed()]) == EligibleOf(s) - {i}
  {
    var t := s[i := s[i].SetIsPlayed()];
    LayoutByTiles(s, t);
    assert ZeroOf(t) == ZeroOf(s);
  }
}
