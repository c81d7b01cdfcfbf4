/**
 * Depth-first search (`search`).
 *
 * `search` reduces the board, returns it if every box is decided, and
 * otherwise branches on the undecided box with the fewest candidates (ties
 * broken by name), trying its digits in the order of its candidate string
 * and keeping the first result that is not `None`.
 *
 * When `reduce_puzzle` returns `False`, the next line of `search` indexes
 * that boolean and raises; the exception leaves every enclosing call.  So a
 * branch never fails back to its caller: the search either finds a board on
 * its first digit at every level or stops with the error.  `Aborted` stands
 * for that error, and `NotFound` (the `return None` of the program) turns out
 * to be unreachable.
 */
module SearchEngine {
  import opened Topology
  import opened Domains
  import opened Boards
  import opened EliminateRule
  import opened OnlyChoiceRule
  import opened ReduceLoop

  datatype SearchResult = Found(board: Board) | NotFound | Aborted

  /** Python's `(len(values[a]), a) <= (len(values[b]), b)` on two boxes. */
  predicate Before(values: Board, a: string, b: string)
    requires a in values && b in values && |a| == 2 && |b| == 2
  {
    |values[a]| < |values[b]| || (|values[a]| == |values[b]| && (a == b || NameBefore(a, b)))
  }

  /**
   * The first element of the sorted list of `(len, box)` pairs for the
   * undecided boxes of xs: the undecided box with the fewest candidates,
   * ties broken by name.
   */
  function Fewest(values: Board, xs: seq<string>): (r: Option<string>)
    requires forall x :: x in xs ==> |x| == 2 && x in values
    ensures r.Some? ==> r.value in xs && |values[r.value]| > 1 &&
                        forall b :: b in xs && |values[b]| > 1 ==> Before(values, r.value, b)
    ensures r.None? <==> forall b :: b in xs ==> |values[b]| <= 1
  {
    if xs == [] then None
    else
      var rest := Fewest(values, xs[1..]);
      assert forall b :: b in xs ==> b == xs[0] || b in xs[1..];
      if |values[xs[0]]| <= 1 then rest
      else if rest.None? || Before(values, xs[0], rest.value) then Some(xs[0])
      else
        NameOrderTotal(xs[0], rest.value);
        rest
  }

  /** The box `search` branches on: `unfilled_squares[0][1]` after sorting. */
  function Selected(values: Board): (s: string)
    requires IsBoard(values) && !Solved(values) && !HasEmpty(values)
    ensures IsBox(s) && |values[s]| > 1
    ensures forall b :: b in values && |values[b]| > 1 ==> Before(values, s, b)
  {
    BoxesMembers();
    var b :| b in values && |values[b]| != 1;
    assert b in Boxes;
    assert forall x :: x in Boxes ==> |x| == 2 && x in values;
    Fewest(values, Boxes).value
  }

  /** The outcome of `search` on a board. */
  ghost function Searched(values: Board): (res: SearchResult)
    requires IsBoard(values)
    ensures res.Found? ==> IsBoard(res.board) && Solved(res.board)
    decreases Size(values), 1
  {
    match Reduced(values)
    case None => Aborted
    case Some(r) =>
      if HasEmpty(r) then NotFound
      else if Solved(r) then Found(r)
      else
        ReducedNarrows(values);
        RefinesSize(r, values, "");
        var s := Selected(r);
        TryDigits(r, s, r[s])
  }

  /** The loop of `search` over the remaining digits ds of the selected box s. */
  ghost function TryDigits(r: Board, s: string, ds: string): (res: SearchResult)
    requires IsBoard(r) && IsBox(s) && |r[s]| > 1
    ensures res.Found? ==> IsBoard(res.board) && Solved(res.board)
    ensures ds == [] ==> res == NotFound
    decreases Size(r), 0, |ds|
  {
    if ds == [] then NotFound
    else
      var branch := r[s := [ds[0]]];
      SizeShrinks(branch, r, s);
      match Searched(branch)
      case Found(b) => Found(b)
      case Aborted => Aborted
      case NotFound => TryDigits(r, s, ds[1..])
  }

  /** `search`, with the assignment log its passes write. */
  method Search(values: Board, log: seq<Board>) returns (res: SearchResult, log': seq<Board>)
    requires IsBoard(values)
    ensures res == Searched(values)
    ensures log <= log'
    decreases Size(values), 2
  {
    var reduced;
    reduced, log' := ReducePuzzle(values, log);
    if reduced.None? {
      return Aborted, log';
    }
    var r := reduced.value;
    if HasEmpty(r) {
      return NotFound, log';
    }
    if Solved(r) {
      return Found(r), log';
    }
    ReducedNarrows(values);
    RefinesSize(r, values, "");
    var selected := Selected(r);
    res, log' := TryEach(r, selected, log');
  }

  /**
   * The loop of `search` over the digits of the selected box: each branch
   * searches a copy of the board with the box set to one digit, and the
   * first result that is not `None` is kept.
   */
  method TryEach(r: Board, selected: string, log: seq<Board>) returns (res: SearchResult, log': seq<Board>)
    requires IsBoard(r) && IsBox(selected) && |r[selected]| > 1
    ensures res == TryDigits(r, selected, r[selected])
    ensures log <= log'
    decreases Size(r), 1
  {
    var oldValue := r[selected];
    assert oldValue[0..] == oldValue;
    log' := log;
    for i := 0 to |oldValue|
      invariant log <= log'
      invariant TryDigits(r, selected, oldValue) == TryDigits(r, selected, oldValue[i..])
    {
      var s, log2 := TryBranch(r, selected, oldValue, i, log');
      log' := log2;
      if !s.NotFound? {
        return s, log';
      }
    }
    res := NotFound;
  }

  /** One pass of the digit loop: search a copy of the board with the box set to its i-th digit. */
  method TryBranch(r: Board, selected: string, ds: string, i: int, log: seq<Board>) returns (res: SearchResult, log': seq<Board>)
    requires IsBoard(r) && IsBox(selected) && |r[selected]| > 1 && 0 <= i < |ds|
    ensures res == Searched(r[selected := [ds[i]]])
    ensures TryDigits(r, selected, ds[i..]) == if res.NotFound? then TryDigits(r, selected, ds[i + 1..]) else res
    ensures log <= log'
    decreases Size(r), 0
  {
    var branch := r[selected := [ds[i]]];
    SizeShrinks(branch, r, selected);
    res, log' := Search(branch, log);
    TryDigitsStep(r, selected, ds, i);
  }

  /** One step of the digit loop: search the branch of the i-th digit, and go on only if it returned `None`. */
  lemma {:induction false} TryDigitsStep(r: Board, s: string, ds: string, i: int)
    requires IsBoard(r) && IsBox(s) && |r[s]| > 1 && 0 <= i < |ds|
    ensures IsBoard(r[s := [ds[i]]])
    ensures TryDigits(r, s, ds[i..]) ==
      if Searched(r[s := [ds[i]]]).NotFound? then TryDigits(r, s, ds[i + 1..]) else Searched(r[s := [ds[i]]])
  {
    assert ds[i..][0] == ds[i] && ds[i..][1..] == ds[i + 1..];
  }

  /** What every board `search` returns satisfies, relative to the board it started from. */
  ghost predicate GoodResult(b: Board, values: Board)
    requires IsBoard(values)
  {
    Settled(b) && Narrows(b, values)
  }

  /** Every box decided, no two peers alike, and neither rule changes anything. */
  ghost predicate Settled(b: Board) {
    IsBoard(b) && Solved(b) && PeerConsistent(b) && Eliminated(b) == b && OnlyChosen(b) == b
  }

  /** `b` only narrows `values`, and keeps it well formed. */
  ghost predicate Narrows(b: Board, values: Board)
    requires IsBoard(values)
  {
    IsBoard(b) && Refines(b, values) && (WellFormed(values) ==> WellFormed(b))
  }

  /** A decided board that reduction returns is a good result. */
  lemma {:induction false} ReducedGood(values: Board)
    requires IsBoard(values) && Reduced(values).Some? && Solved(Reduced(values).value)
    ensures GoodResult(Reduced(values).value, values)
  {
    ReducedResult(values);
  }

  /**
   * A board `search` returns has every box decided, no two peers decided
   * alike, is left unchanged by both rules, and narrows the board it was
   * given.
   */
  lemma {:induction false} SearchedFound(values: Board)
    requires IsBoard(values) && Searched(values).Found?
    ensures GoodResult(Searched(values).board, values)
    decreases Size(values), 1
  {
    var r := Reduced(values).value;
    if Solved(r) {
      ReducedGood(values);
    } else {
      UndecidedFound(values);
    }
  }

  /** The same, when reduction leaves some box undecided and the search branches. */
  lemma {:induction false} UndecidedFound(values: Board)
    requires IsBoard(values) && Searched(values).Found? && !Solved(Reduced(values).value)
    ensures GoodResult(Searched(values).board, values)
    decreases Size(values), 0
  {
    var r, s := Descend(values);
    BranchFound(r, s, r[s][0]);
    GoodResultWeakens(Searched(values).board, r, values);
  }

  /** The board `search` branches from, and the box it branches on. */
  lemma {:induction false} Descend(values: Board) returns (r: Board, s: string)
    requires IsBoard(values) && Reduced(values).Some? && !Solved(Reduced(values).value)
    ensures r == Reduced(values).value && IsBoard(r) && Narrows(r, values) && Size(r) <= Size(values)
    ensures IsBox(s) && |r[s]| > 1 && Size(r[s := [r[s][0]]]) < Size(r)
    ensures Searched(values) == Searched(r[s := [r[s][0]]])
  {
    r := Reduced(values).value;
    FirstDigitOnly(values);
    ReducedNarrows(values);
    RefinesSize(r, values, "");
    s := Selected(r);
    BranchRefines(r, s, r[s][0]);
    RefinesSize(r[s := [r[s][0]]], r, s);
  }

  lemma {:induction false} BranchFound(r: Board, s: string, d: char)
    requires IsBoard(r) && IsBox(s) && |r[s]| > 1 && d in r[s]
    requires Size(r[s := [d]]) < Size(r)
    requires Searched(r[s := [d]]).Found?
    ensures GoodResult(Searched(r[s := [d]]).board, r)
    decreases Size(r), -1
  {
    var branch := r[s := [d]];
    SearchedFound(branch);
    BranchRefines(r, s, d);
    GoodResultWeakens(Searched(branch).board, branch, r);
  }

  /** Setting a box to one of its candidates narrows the board. */
  lemma {:induction false} BranchRefines(r: Board, s: string, d: char)
    requires IsBoard(r) && IsBox(s) && d in r[s]
    ensures Narrows(r[s := [d]], r)
  {
    if WellFormed(r) {
      DomainDigit(r[s], d);
    }
  }

  lemma {:induction false} GoodResultWeakens(b: Board, u: Board, v: Board)
    requires IsBoard(u) && IsBoard(v) && GoodResult(b, u) && Narrows(u, v)
    ensures GoodResult(b, v)
  {
    RefinesTransitive(b, u, v);
  }

  /** `search` never returns `None`: every branch either finds a board or aborts. */
  lemma {:induction false} NeverNotFound(values: Board)
    requires IsBoard(values)
    ensures Searched(values) != NotFound
    decreases Size(values), 1
  {
    if Reduced(values).Some? {
      var r := Reduced(values).value;
      ReducedNarrows(values);
      if !Solved(r) {
        RefinesSize(r, values, "");
        var s := Selected(r);
        TryDigitsFirst(r, s, r[s]);
      }
    }
  }

  /** The digit loop returns what the search of its first branch returns: later digits are never tried. */
  lemma {:induction false} TryDigitsFirst(r: Board, s: string, ds: string)
    requires IsBoard(r) && IsBox(s) && |r[s]| > 1 && ds != []
    ensures TryDigits(r, s, ds) == Searched(r[s := [ds[0]]]) != NotFound
    decreases Size(r), 0, |ds|
  {
    var branch := r[s := [ds[0]]];
    SizeShrinks(branch, r, s);
    NeverNotFound(branch);
  }

  /**
   * No backtracking: on a board that reduction leaves undecided, `search`
   * is the search of that board with the selected box set to its first
   * candidate.
   */
  lemma {:induction false} FirstDigitOnly(values: Board)
    requires IsBoard(values) && Reduced(values).Some?
    requires !Solved(Reduced(values).value)
    ensures var r := Reduced(values).value;
      IsBoard(r) && !HasEmpty(r) &&
      Searched(values) == Searched(r[Selected(r) := [r[Selected(r)][0]]])
  {
    var r := Reduced(values).value;
    ReducedNarrows(values);
    RefinesSize(r, values, "");
    var s := Selected(r);
    TryDigitsFirst(r, s, r[s]);
  }

  /** Two peers decided to the same digit make `search` fail with the error. */
  lemma {:induction false} SearchedClash(values: Board, s: string, p: string)
    requires IsBoard(values) && IsBox(s) && IsBox(p) && p in Peers(s)
    requires |values[s]| == 1 && values[p] == values[s]
    ensures Searched(values) == Aborted
  {
    ReducedClash(values, s, p);
  }
}
