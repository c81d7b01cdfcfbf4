/**
 * Boards, the assignment log, and `assign_value`.
 *
 * A board maps each of the 81 box names to its candidate string.  The
 * program keeps a process-wide list `assignments` to which `assign_value`
 * appends a copy of the board whenever it writes a one-character value;
 * here that list travels with the board as a `Trace`, so every operation
 * that can write the log takes the log in and hands the new log back.
 *
 * Every rule pass of the solver is a fixed list of writes, computed from
 * the board the pass starts from, each carried out by `assign_value` on
 * the board being built: a `Strike` deletes one digit from a box, a `Fix`
 * sets a box to one digit.  `Run` carries out such a list.
 */
module Boards {
  import opened Topology
  import opened Domains

  datatype Option<T> = None | Some(value: T)

  type Board = map<string, string>

  /** A board has exactly the 81 boxes as keys. */
  ghost predicate IsBoard(b: Board) {
    forall s :: s in b <==> IsBox(s)
  }

  /** ... and every box holds a candidate string. */
  ghost predicate WellFormed(b: Board) {
    IsBoard(b) && forall s :: s in b ==> IsDomain(b[s])
  }

  /** A board together with the assignment log written so far. */
  datatype Trace = Trace(board: Board, log: seq<Board>)

  /** `assign_value`: write the box, and log a snapshot if the value is a single character. */
  function Assign(t: Trace, box: string, value: string): (r: Trace)
    ensures box in r.board && r.board[box] == value
    ensures forall s :: s != box ==> (s in r.board <==> s in t.board)
    ensures forall s :: s in t.board && s != box ==> r.board[s] == t.board[s]
    ensures |value| == 1 ==> r.log == t.log + [r.board]
    ensures |value| != 1 ==> r.log == t.log
  {
    var b := t.board[box := value];
    Trace(b, if |value| == 1 then t.log + [b] else t.log)
  }

  method AssignValue(values: Board, log: seq<Board>, box: string, value: string)
    returns (res: Board, log': seq<Board>)
    ensures Trace(res, log') == Assign(Trace(values, log), box, value)
    ensures res.Keys == values.Keys + {box} && res[box] == value
    ensures forall s :: s in values && s != box ==> res[s] == values[s]
    ensures log' == if |value| == 1 then log + [res] else log
  {
    res := values[box := value];
    if |value| == 1 {
      log' := log + [res];
    } else {
      log' := log;
    }
  }

  /** One write of a rule pass. */
  datatype Edit = Strike(box: string, digit: char) | Fix(box: string, digit: char)

  /**
   * Carry out one write.  Every write of the solver aims at a box of the
   * board; a write aimed elsewhere is taken to change nothing, which keeps
   * `Run` total.
   */
  function Apply(t: Trace, e: Edit): Trace {
    if e.box !in t.board then t
    else match e
      case Strike(p, d) => Assign(t, p, Remove(t.board[p], d))
      case Fix(p, d) => Assign(t, p, [d])
  }

  /** Carry out a list of writes in order, each with `assign_value`. */
  function Run(t: Trace, edits: seq<Edit>): (r: Trace)
    ensures r.board.Keys == t.board.Keys
    decreases |edits|
  {
    if edits == [] then t
    else Apply(Run(t, edits[..|edits| - 1]), edits[|edits| - 1])
  }

  lemma {:induction false} RunSnoc(t: Trace, edits: seq<Edit>, e: Edit)
    ensures Run(t, edits + [e]) == Apply(Run(t, edits), e)
  {
    assert (edits + [e])[..|edits|] == edits;
  }

  /** Carrying out two lists of writes one after the other is carrying out their concatenation. */
  lemma {:induction false} RunAppend(t: Trace, a: seq<Edit>, b: seq<Edit>)
    ensures Run(t, a + b) == Run(Run(t, a), b)
    decreases |b|
  {
    if b == [] {
      assert a + b == a;
    } else {
      var init := b[..|b| - 1];
      var last := b[|b| - 1];
      RunAppend(t, a, init);
      var ab := a + b;
      assert ab[..|ab| - 1] == a + init && ab[|ab| - 1] == last;
    }
  }

  /**
   * The log only grows: the old log is a prefix of the new one, at most one
   * snapshot is added per write, and every snapshot is a board with the
   * same boxes.  A pass of fixes aimed at boxes of the board logs once per write.
   */
  lemma {:induction false} RunLog(t: Trace, edits: seq<Edit>)
    ensures t.log <= Run(t, edits).log
    ensures |Run(t, edits).log| <= |t.log| + |edits|
    ensures forall i :: |t.log| <= i < |Run(t, edits).log| ==> Run(t, edits).log[i].Keys == t.board.Keys
    ensures (forall e :: e in edits ==> e.Fix? && e.box in t.board) ==> |Run(t, edits).log| == |t.log| + |edits|
    decreases |edits|
  {
    if edits != [] {
      var init := edits[..|edits| - 1];
      var last := edits[|edits| - 1];
      assert forall e :: e in init ==> e in edits;
      RunLog(t, init);
      var r0 := Run(t, init);
      if last.box in r0.board {
        var value := if last.Strike? then Remove(r0.board[last.box], last.digit) else [last.digit];
        assert Apply(r0, last) == Assign(r0, last.box, value);
        assert r0.board[last.box := value].Keys == t.board.Keys;
        if forall e :: e in edits ==> e.Fix? && e.box in t.board {
          assert last in edits && |value| == 1;
        }
      } else {
        assert last in edits && last.box !in t.board;
      }
    }
  }

  /** The digits a list of writes strikes from box p. */
  function Struck(edits: seq<Edit>, p: string): set<char> {
    set e | e in edits && e.Strike? && e.box == p :: e.digit
  }

  /** When a pass only strikes, each box ends up with exactly the digits struck from it deleted. */
  lemma {:induction false} RunStrikes(t: Trace, edits: seq<Edit>, p: string)
    requires p in t.board
    requires forall e :: e in edits ==> e.Strike?
    ensures Run(t, edits).board[p] == Without(t.board[p], Struck(edits, p))
    decreases |edits|
  {
    if edits == [] {
      assert Struck(edits, p) == {};
      WithoutMissing(t.board[p], {});
    } else {
      var init := edits[..|edits| - 1];
      var last := edits[|edits| - 1];
      assert forall e :: e in init ==> e in edits;
      assert edits == init + [last];
      RunStrikes(t, init, p);
      if last.box == p {
        RemoveAfterWithout(t.board[p], Struck(init, p), last.digit);
        assert Struck(edits, p) == Struck(init, p) + {last.digit};
      } else {
        assert Struck(edits, p) == Struck(init, p);
      }
    }
  }

  /** The digit of the last `Fix` aimed at box p, if there is one. */
  function LastFix(edits: seq<Edit>, p: string): (r: Option<char>)
    ensures r.Some? ==> Fix(p, r.value) in edits
    ensures r.None? ==> forall e :: e in edits && e.Fix? ==> e.box != p
  {
    if edits == [] then None
    else
      var last := edits[|edits| - 1];
      if last.Fix? && last.box == p then Some(last.digit)
      else
        var r := LastFix(edits[..|edits| - 1], p);
        assert forall e :: e in edits ==> e in edits[..|edits| - 1] || e == last;
        r
  }

  /** When a pass only fixes, each box holds the digit of the last fix aimed at it, or is untouched. */
  lemma {:induction false} RunFixes(t: Trace, edits: seq<Edit>, p: string)
    requires p in t.board
    requires forall e :: e in edits ==> e.Fix?
    ensures Run(t, edits).board[p] == match LastFix(edits, p) case None => t.board[p] case Some(d) => [d]
    decreases |edits|
  {
    if edits != [] {
      var init := edits[..|edits| - 1];
      assert forall e :: e in init ==> e in edits;
      RunFixes(t, init, p);
    }
  }

  /** The last fix at p in a concatenation comes from the second part if it has one. */
  lemma {:induction false} LastFixAppend(a: seq<Edit>, b: seq<Edit>, p: string)
    ensures LastFix(a + b, p) == if LastFix(b, p).Some? then LastFix(b, p) else LastFix(a, p)
    decreases |b|
  {
    if b == [] {
      assert a + b == a;
    } else {
      var ab := a + b;
      assert ab[..|ab| - 1] == a + b[..|b| - 1] && ab[|ab| - 1] == b[|b| - 1];
      LastFixAppend(a, b[..|b| - 1], p);
    }
  }

  /** Number of boxes of xs that are decided (hold one candidate). */
  function CountSingles(b: Board, xs: seq<string>): (n: nat)
    requires forall s :: s in xs ==> s in b
    ensures n <= |xs|
  {
    if xs == [] then 0
    else (if |b[xs[0]]| == 1 then 1 else 0) + CountSingles(b, xs[1..])
  }

  /** `len([box for box in values.keys() if len(values[box]) == 1])` on a board. */
  function Count(b: Board): (n: nat)
    requires IsBoard(b)
    ensures n <= 81
  {
    BoxesFacts();
    CountSingles(b, Boxes)
  }

  /**
   * If every box decided in v is decided in u, u has at least as many decided
   * boxes, and when the counts agree the decided boxes are the same.
   */
  lemma {:induction false} CountSinglesGrow(u: Board, v: Board, xs: seq<string>)
    requires forall s :: s in xs ==> s in u && s in v
    requires forall s :: s in xs && |v[s]| == 1 ==> |u[s]| == 1
    ensures CountSingles(v, xs) <= CountSingles(u, xs)
    ensures CountSingles(v, xs) == CountSingles(u, xs) ==> forall s :: s in xs ==> (|u[s]| == 1 <==> |v[s]| == 1)
  {
    if xs != [] {
      CountSinglesGrow(u, v, xs[1..]);
      assert forall s :: s in xs ==> s == xs[0] || s in xs[1..];
    }
  }

  lemma {:induction false} CountGrow(u: Board, v: Board)
    requires IsBoard(u) && IsBoard(v)
    requires forall s :: s in v && |v[s]| == 1 ==> |u[s]| == 1
    ensures Count(v) <= Count(u)
    ensures Count(v) == Count(u) ==> forall s :: s in v ==> (|u[s]| == 1 <==> |v[s]| == 1)
  {
    BoxesFacts();
    CountSinglesGrow(u, v, Boxes);
  }

  /** Total number of candidates of the boxes of xs. */
  function SizeOf(b: Board, xs: seq<string>): nat
    requires forall s :: s in xs ==> s in b
  {
    if xs == [] then 0 else |b[xs[0]]| + SizeOf(b, xs[1..])
  }

  function Size(b: Board): nat
    requires IsBoard(b)
  {
    BoxesFacts();
    SizeOf(b, Boxes)
  }

  lemma {:induction false} SizeOfShrinks(u: Board, v: Board, xs: seq<string>, k: string)
    requires forall s :: s in xs ==> s in u && s in v
    requires forall s :: s in xs ==> |u[s]| <= |v[s]|
    ensures SizeOf(u, xs) <= SizeOf(v, xs)
    ensures k in xs && |u[k]| < |v[k]| ==> SizeOf(u, xs) < SizeOf(v, xs)
  {
    if xs != [] {
      SizeOfShrinks(u, v, xs[1..], k);
      assert forall s :: s in xs ==> s == xs[0] || s in xs[1..];
    }
  }

  /** A board no box of which grows has no more candidates in total; fewer, if one box shrinks. */
  lemma {:induction false} SizeShrinks(u: Board, v: Board, k: string)
    requires IsBoard(u) && IsBoard(v)
    requires forall s :: s in v ==> |u[s]| <= |v[s]|
    ensures Size(u) <= Size(v)
    ensures k in v && |u[k]| < |v[k]| ==> Size(u) < Size(v)
  {
    BoxesFacts();
    SizeOfShrinks(u, v, Boxes, k);
  }

  /** A narrower board has no more candidates in total; fewer, if box k lost one. */
  lemma {:induction false} RefinesSize(u: Board, v: Board, k: string)
    requires IsBoard(u) && IsBoard(v) && Refines(u, v)
    ensures Size(u) <= Size(v)
    ensures k in v && |u[k]| < |v[k]| ==> Size(u) < Size(v)
  {
    SizeShrinks(u, v, k);
  }

  /** Some box has no candidate left: the puzzle as it stands has no solution. */
  predicate HasEmpty(b: Board) {
    exists s :: s in b && b[s] == ""
  }

  /** Boards with the same boxes holding the same candidates are equal. */
  lemma {:induction false} SameBoard(u: Board, v: Board)
    requires IsBoard(u) && IsBoard(v)
    requires forall s :: s in u ==> u[s] == v[s]
    ensures u == v
  {}

  /** Every box of u narrows the same box of v. */
  predicate Refines(u: Board, v: Board) {
    u.Keys == v.Keys && forall s :: s in v ==> Narrower(u[s], v[s])
  }

  lemma {:induction false} RefinesTransitive(u: Board, v: Board, w: Board)
    requires Refines(u, v) && Refines(v, w)
    ensures Refines(u, w)
  {}

  /** Every box is decided. */
  predicate Solved(b: Board) {
    forall s :: s in b ==> |b[s]| == 1
  }

  /** No two peers are decided to the same digit. */
  ghost predicate PeerConsistent(b: Board)
    requires IsBoard(b)
  {
    forall s, p {:trigger p in Peers(s)} :: IsBox(s) && p in Peers(s) && |b[s]| == 1 ==> p in b && b[p] != b[s]
  }
}
