/**
 * The entry point (`solve`): parse the grid, then search the board.
 *
 * A grid that does not keep 81 entries fails the parser's assertion, which
 * is modelled as `None`; otherwise the outcome is the outcome of `search`.
 */
module Solver {
  import opened Topology
  import opened Domains
  import opened Boards
  import opened ReduceLoop
  import opened SearchEngine
  import opened GridCodec

  /** The outcome of `solve` on a grid: `None` where parsing fails, otherwise what `search` returns. */
  ghost function Solution(grid: string): (r: Option<SearchResult>)
    ensures r.None? <==> |Tokens(grid)| != 81
    ensures r.Some? && r.value.Found? ==> Solved(r.value.board)
  {
    match GridBoard(grid)
    case None => None
    case Some(b) =>
      GridBoardMeaning(grid);
      Some(Searched(b))
  }

  /** `solve`, with the assignment log the search writes. */
  method Solve(grid: string, log: seq<Board>) returns (res: Option<SearchResult>, log': seq<Board>)
    ensures res == Solution(grid)
    ensures log <= log'
  {
    var sudoku := GridValues(grid);
    if sudoku.None? {
      return None, log;
    }
    GridBoardMeaning(grid);
    var found;
    found, log' := Search(sudoku.value, log);
    res := Some(found);
  }

  /**
   * `solve` fails exactly on grids that do not keep 81 entries, never
   * returns `None` from the search, and a board it finds is decided
   * everywhere, with no two peers alike, a digit in every box, and every
   * given of the grid in its place.
   */
  lemma {:induction false} SolutionMeaning(grid: string)
    ensures Solution(grid).None? <==> |Tokens(grid)| != 81
    ensures Solution(grid) != Some(NotFound)
    ensures Solution(grid).Some? && Solution(grid).value.Found? ==>
      var b := Solution(grid).value.board;
      Settled(b) && WellFormed(b) &&
      forall s :: IsBox(s) && |Tokens(grid)[Position(s)]| == 1 ==> b[s] == Tokens(grid)[Position(s)]
  {
    GridBoardMeaning(grid);
    if GridBoard(grid).Some? {
      var parsed := GridBoard(grid).value;
      NeverNotFound(parsed);
      if Searched(parsed).Found? {
        var b := Searched(parsed).board;
        SearchedFound(parsed);
        forall s | IsBox(s) && |Tokens(grid)[Position(s)]| == 1 ensures b[s] == Tokens(grid)[Position(s)] {
          GivenKept(b[s], parsed[s]);
        }
      }
    }
  }

  /** A decided box that only narrows a decided box holds the same digit. */
  lemma {:induction false} GivenKept(u: string, v: string)
    requires |u| == 1 && |v| == 1 && Narrower(u, v)
    ensures u == v
  {
    assert u[0] in v;
  }
}
