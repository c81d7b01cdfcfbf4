/**
 * The propagation loop (`reduce_puzzle`): apply elimination and then
 * only-choice until a round decides no new box.  The loop gives up with
 * `False` as soon as a round leaves some box without candidates.
 *
 * The loop stops because a round that leaves no box empty never undecides
 * a box, so the number of decided boxes, at most 81, grows with every round
 * that does not stall.
 */
module ReduceLoop {
  import opened Topology
  import opened Domains
  import opened Boards
  import opened EliminateRule
  import opened OnlyChoiceRule

  /** One round of the loop: elimination, then only-choice on its result. */
  ghost function Round(values: Board): (r: Board)
    requires IsBoard(values)
    ensures IsBoard(r)
  {
    OnlyChosen(Eliminated(values))
  }

  /**
   * Per box, a round never lengthens a box, never wipes out a box that
   * elimination left non-empty, and leaves a decided box decided unless it
   * is wiped out.
   */
  lemma {:induction false} RoundAt(values: Board, s: string)
    requires IsBoard(values) && IsBox(s)
    ensures var e := Eliminated(values);
      (Round(values)[s] == "" <==> e[s] == "") &&
      (|e[s]| <= 1 ==> Round(values)[s] == e[s]) &&
      (|e[s]| == 1 || Round(values)[s] != e[s] ==> |Round(values)[s]| == 1)
    ensures |values[s]| == 1 && Round(values)[s] != "" ==> Round(values)[s] == values[s]
  {
    var e := Eliminated(values);
    EliminatedDecided(values, s);
    if Round(values)[s] != e[s] {
      OnlyChosenChanged(e, s);
    }
  }

  /** A round that decides a box exactly when elimination did leaves that box as elimination did. */
  lemma {:induction false} RoundSame(values: Board, s: string)
    requires IsBoard(values) && IsBox(s)
    requires |Round(values)[s]| == 1 <==> |Eliminated(values)[s]| == 1
    ensures Round(values)[s] == Eliminated(values)[s]
  {
    RoundAt(values, s);
  }

  /** A round that leaves no box empty keeps every decided box as it was. */
  lemma {:induction false} RoundKeepsDecided(values: Board)
    requires IsBoard(values) && !HasEmpty(Round(values))
    ensures forall s :: s in values && |values[s]| == 1 ==> Round(values)[s] == values[s]
    ensures Count(values) <= Count(Round(values))
  {
    var r := Round(values);
    forall s | s in values && |values[s]| == 1 ensures r[s] == values[s] {
      RoundAt(values, s);
    }
    CountGrow(r, values);
  }

  /**
   * The result of `reduce_puzzle`: `None` for its `False`, otherwise the
   * board after the first round that decides no new box.
   */
  ghost function Reduced(values: Board): (r: Option<Board>)
    requires IsBoard(values)
    ensures r.Some? ==> IsBoard(r.value) && !HasEmpty(r.value)
    decreases 81 - Count(values)
  {
    var next := Round(values);
    if HasEmpty(next) then None
    else if Count(values) == Count(next) then Some(next)
    else
      RoundKeepsDecided(values);
      Reduced(next)
  }

  /** `reduce_puzzle`, with the assignment log its passes write. */
  method ReducePuzzle(values: Board, log: seq<Board>) returns (res: Option<Board>, log': seq<Board>)
    requires IsBoard(values)
    ensures res == Reduced(values)
    ensures log <= log'
  {
    var current := values;
    log' := log;
    var stalled := false;
    while !stalled
      invariant IsBoard(current) && log <= log'
      invariant !stalled ==> Reduced(current) == Reduced(values)
      invariant stalled ==> Reduced(values) == Some(current)
      decreases 81 - Count(current), !stalled
    {
      var before := Count(current);
      var afterEliminate, log1 := Eliminate(current, log');
      var afterChoice, log2 := OnlyChoice(afterEliminate, log1);
      var after := Count(afterChoice);
      stalled := before == after;
      if HasEmpty(afterChoice) {
        return None, log2;
      }
      RoundKeepsDecided(current);
      current, log' := afterChoice, log2;
    }
    res := Some(current);
  }

  /** In a round that leaves no box empty, elimination and then only-choice each keep the decided boxes. */
  lemma {:induction false} RoundSteps(values: Board)
    requires IsBoard(values) && !HasEmpty(Round(values))
    ensures forall s :: s in values && |values[s]| == 1 ==> Eliminated(values)[s] == values[s]
    ensures forall s :: s in values && |Eliminated(values)[s]| == 1 ==> Round(values)[s] == Eliminated(values)[s]
    ensures Count(values) <= Count(Eliminated(values)) <= Count(Round(values))
  {
    var e := Eliminated(values);
    var r := Round(values);
    forall s | s in values ensures (|values[s]| == 1 ==> e[s] == values[s]) && (|e[s]| == 1 ==> r[s] == e[s]) {
      RoundAt(values, s);
    }
    CountGrow(e, values);
    CountGrow(r, e);
  }

  /** A stalled round decides exactly the boxes that were decided before, after each of its two passes. */
  lemma {:induction false} StallDecided(values: Board)
    requires IsBoard(values) && !HasEmpty(Round(values)) && Count(values) == Count(Round(values))
    ensures forall s :: s in values ==> (|Eliminated(values)[s]| == 1 <==> |values[s]| == 1)
    ensures forall s :: s in values ==> (|Round(values)[s]| == 1 <==> |Eliminated(values)[s]| == 1)
  {
    RoundSteps(values);
    CountGrow(Eliminated(values), values);
    CountGrow(Round(values), Eliminated(values));
  }

  /** A stalled round is elimination alone: only-choice decided nothing. */
  lemma {:induction false} StallIsElimination(values: Board)
    requires IsBoard(values) && !HasEmpty(Round(values)) && Count(values) == Count(Round(values))
    ensures Round(values) == Eliminated(values)
  {
    var e, r := Eliminated(values), Round(values);
    StallDecided(values);
    forall s | s in values ensures r[s] == e[s] {
      RoundSame(values, s);
    }
    SameBoard(r, e);
  }

  /**
   * When a round leaves no box empty and decides no new box, it changed
   * nothing but what elimination struck, and its result is left unchanged
   * by both rules.
   */
  lemma {:induction false} Stall(values: Board)
    requires IsBoard(values) && !HasEmpty(Round(values)) && Count(values) == Count(Round(values))
    ensures Round(values) == Eliminated(values)
    ensures Eliminated(Round(values)) == Round(values)
    ensures OnlyChosen(Round(values)) == Round(values)
  {
    RoundSteps(values);
    StallDecided(values);
    StallIsElimination(values);
    EliminatedStable(values);
  }

  /**
   * A board `reduce_puzzle` returns has no empty box, is left unchanged by
   * both rules, has no two peers decided alike, and narrows the board it was
   * given; candidate strings stay candidate strings.
   */
  lemma {:induction false} ReducedResult(values: Board)
    requires IsBoard(values) && Reduced(values).Some?
    ensures var r := Reduced(values).value;
      IsBoard(r) && !HasEmpty(r) && Eliminated(r) == r && OnlyChosen(r) == r && PeerConsistent(r) &&
      Refines(r, values) && (WellFormed(values) ==> WellFormed(r))
    decreases 81 - Count(values)
  {
    var next := Round(values);
    EliminatedRefines(values);
    OnlyChosenRefines(Eliminated(values));
    RefinesTransitive(next, Eliminated(values), values);
    if Count(values) == Count(next) {
      Stall(values);
      EliminatedFixpointConsistent(next);
    } else {
      RoundKeepsDecided(values);
      ReducedResult(next);
      RefinesTransitive(Reduced(values).value, next, values);
    }
  }

  /** The part of `ReducedResult` that the search needs to branch: no empty box, and narrower. */
  lemma {:induction false} ReducedNarrows(values: Board)
    requires IsBoard(values) && Reduced(values).Some?
    ensures var r := Reduced(values).value;
      IsBoard(r) && !HasEmpty(r) && Refines(r, values) && (WellFormed(values) ==> WellFormed(r))
  {
    ReducedResult(values);
  }

  /** Two peers decided to the same digit make `reduce_puzzle` return `False`. */
  lemma {:induction false} ReducedClash(values: Board, s: string, p: string)
    requires IsBoard(values) && IsBox(s) && IsBox(p) && p in Peers(s)
    requires |values[s]| == 1 && values[p] == values[s]
    ensures Reduced(values) == None
  {
    PeersOf(s);
    EliminatedClash(values, s, p);
    RoundAt(values, s);
  }
}
