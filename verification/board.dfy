/** The board: a row of tile kinds whose first tile is the start, whose last
    tile is the final challenge and whose interior tiles are drawn from the
    five event kinds. */
module Board {
  import opened Rules

  /** The kinds an interior tile is drawn from, in the source's order. */
  const InteriorKinds: seq<Tile> := [Danger, Healing, Mystery, Comedy, GoBack]

  /** A board of `size` tiles with the start and final tiles in place and an
      event kind on every other tile. */
  predicate WellFormed(board: seq<Tile>, size: int) {
    && size >= 2
    && |board| == size
    && board[0] == Start
    && board[size - 1] == Final
    && forall i :: 0 < i < size - 1 ==> IsEventTile(board[i])
  }

  /** One draw in [0, 5) for each interior tile, first interior tile first. */
  predicate ValidDraws(size: int, draws: seq<nat>) {
    && size >= 2
    && |draws| == size - 2
    && forall k :: 0 <= k < |draws| ==> draws[k] < |InteriorKinds|
  }

  /** The board laid out from the interior draws. */
  function Generate(size: int, draws: seq<nat>): (board: seq<Tile>)
    requires ValidDraws(size, draws)
    ensures WellFormed(board, size)
    ensures forall i :: 0 < i < size - 1 ==> board[i] == InteriorKinds[draws[i - 1]]
  {
    seq(size, i requires 0 <= i < size =>
      if i == 0 then Start
      else if i == size - 1 then Final
      else InteriorKinds[draws[i - 1]])
  }

  /** The draw that yields an event kind. */
  function KindIndex(t: Tile): (k: nat)
    requires IsEventTile(t)
    ensures k < |InteriorKinds| && InteriorKinds[k] == t
  {
    match t
    case Danger => 0
    case Healing => 1
    case Mystery => 2
    case Comedy => 3
    case GoBack => 4
  }

  /** Every well-formed board is the layout of some draws: the generator
      reaches exactly the well-formed boards. */
  lemma GenerateIsOnto(board: seq<Tile>, size: int)
    requires WellFormed(board, size)
    ensures exists draws :: ValidDraws(size, draws) && Generate(size, draws) == board
  {
    var draws := seq(size - 2, k requires 0 <= k < size - 2 => KindIndex(board[k + 1]));
    assert ValidDraws(size, draws);
    var g := Generate(size, draws);
    assert forall i :: 0 <= i < size ==> g[i] == board[i];
  }
}
