/**
 * The elimination rule (`eliminate`): for every decided box, strike its
 * digit from each of its peers.  The pass reads the digits to strike from
 * the board it was given and writes to a copy, one `assign_value` per
 * peer, so the result does not depend on the order of the writes: each box
 * loses exactly the digits of its decided peers.
 *
 * The program also strikes from the box's diagonal peers, but its
 * `diagonal_peers` always returns the empty set, so the diagonals play no
 * part in elimination.
 */
module EliminateRule {
  import opened Topology
  import opened Domains
  import opened Boards

  /** The boxes a decided `block` strikes from, in row-major order. */
  function StrikeTargets(block: string): (r: seq<string>)
    ensures forall p :: p in r <==> IsBox(p) && (p in Peers(block) || p in DiagonalPeers(block))
  {
    BoxesMembers();
    Ordered(Boxes, Peers(block) + DiagonalPeers(block))
  }

  function StrikeEach(ps: seq<string>, d: char): (r: seq<Edit>)
    ensures |r| == |ps|
    ensures forall e :: e in r <==> e.Strike? && e.box in ps && e.digit == d
  {
    var r := seq(|ps|, i requires 0 <= i < |ps| => Strike(ps[i], d));
    assert forall p :: p in ps ==> Strike(p, d) in r by {
      forall p | p in ps ensures Strike(p, d) in r {
        var i :| 0 <= i < |ps| && ps[i] == p;
        assert r[i] == Strike(p, d);
      }
    }
    r
  }

  /** The writes for one box: its digit struck from each target if it is decided, nothing otherwise. */
  function BlockEdits(values: Board, block: string): (r: seq<Edit>)
    requires block in values
    ensures forall e :: e in r ==> e.Strike? && IsBox(e.box)
  {
    if |values[block]| == 1 then StrikeEach(StrikeTargets(block), values[block][0]) else []
  }

  /** The writes of the pass over the boxes xs, in the order the pass makes them. */
  function EditsOver(values: Board, xs: seq<string>): (r: seq<Edit>)
    requires forall x :: x in xs ==> x in values
    ensures forall e :: e in r ==> e.Strike? && IsBox(e.box)
  {
    if xs == [] then []
    else
      var init := xs[..|xs| - 1];
      assert forall x :: x in init ==> x in xs;
      EditsOver(values, init) + BlockEdits(values, xs[|xs| - 1])
  }

  /** The writes of the whole pass: the boxes are visited in the board's key order, row-major. */
  function EliminateEdits(values: Board): (r: seq<Edit>)
    requires IsBoard(values)
    ensures forall e :: e in r ==> e.Strike? && IsBox(e.box)
  {
    BoxesMembers();
    EditsOver(values, Boxes)
  }

  /** The digits of the decided peers of s. */
  function PeerDigits(values: Board, s: string): set<char> {
    set q | q in Peers(s) && q in values && |values[q]| == 1 :: values[q][0]
  }

  /** The board after elimination, box by box. */
  function Eliminated(values: Board): (r: Board)
    requires IsBoard(values)
    ensures IsBoard(r)
  {
    map s | s in values :: Without(values[s], PeerDigits(values, s))
  }

  /** `eliminate`: the pass itself, with the writes and the log it makes. */
  method Eliminate(values: Board, log: seq<Board>) returns (res: Board, log': seq<Board>)
    requires IsBoard(values)
    ensures Trace(res, log') == Run(Trace(values, log), EliminateEdits(values))
    ensures res == Eliminated(values)
    ensures log <= log'
  {
    BoxesMembers();
    res, log' := EliminateOver(values, log, Boxes);
    EliminateClosedForm(values, log);
    RunLog(Trace(values, log), EliminateEdits(values));
  }

  /** The outer loop of `eliminate`, over the keys of the board in the order given. */
  method EliminateOver(values: Board, log: seq<Board>, keys: seq<string>) returns (res: Board, log': seq<Board>)
    requires IsBoard(values)
    requires forall x :: x in keys <==> IsBox(x)
    ensures Trace(res, log') == Run(Trace(values, log), EditsOver(values, keys))
  {
    res, log' := values, log;
    for k := 0 to |keys|
      invariant Trace(res, log') == Run(Trace(values, log), EditsOver(values, keys[..k]))
    {
      var block := keys[k];
      var blockValue := values[block];
      assert keys[..k + 1][..k] == keys[..k];
      if |blockValue| == 1 {
        res, log' := StrikeFromAll(res, log', StrikeTargets(block), blockValue[0]);
        RunAppend(Trace(values, log), EditsOver(values, keys[..k]), BlockEdits(values, block));
      } else {
        assert EditsOver(values, keys[..k]) + [] == EditsOver(values, keys[..k]);
      }
    }
    assert keys[..|keys|] == keys;
  }

  /** The inner loop of `eliminate`: strike one digit from each of the given boxes, in order. */
  method StrikeFromAll(values: Board, log: seq<Board>, ps: seq<string>, d: char)
    returns (res: Board, log': seq<Board>)
    requires forall p :: p in ps ==> p in values
    ensures Trace(res, log') == Run(Trace(values, log), StrikeEach(ps, d))
  {
    res, log' := values, log;
    for j := 0 to |ps|
      invariant Trace(res, log') == Run(Trace(values, log), StrikeEach(ps[..j], d))
      invariant res.Keys == values.Keys
    {
      ghost var before := Trace(res, log');
      res, log' := AssignValue(res, log', ps[j], Remove(res[ps[j]], d));
      StrikeStep(Trace(values, log), ps, d, j, before, Trace(res, log'));
    }
    assert ps[..|ps|] == ps;
  }

  /** Striking from one more box of ps is one more write after the earlier ones. */
  lemma {:induction false} StrikeStep(t: Trace, ps: seq<string>, d: char, j: int, cur: Trace, next: Trace)
    requires 0 <= j < |ps| && cur == Run(t, StrikeEach(ps[..j], d))
    requires next == Apply(cur, Strike(ps[j], d))
    ensures next == Run(t, StrikeEach(ps[..j + 1], d))
  {
    assert ps[..j + 1][..j] == ps[..j];
    StrikeEachSnoc(ps[..j + 1], d);
    RunSnoc(t, StrikeEach(ps[..j], d), Strike(ps[j], d));
  }

  lemma {:induction false} StrikeEachSnoc(ps: seq<string>, d: char)
    requires ps != []
    ensures StrikeEach(ps, d) == StrikeEach(ps[..|ps| - 1], d) + [Strike(ps[|ps| - 1], d)]
  {
    var a, b := StrikeEach(ps, d), StrikeEach(ps[..|ps| - 1], d) + [Strike(ps[|ps| - 1], d)];
    forall i | 0 <= i < |ps| ensures a[i] == b[i] {
      if i < |ps| - 1 {
        assert b[i] == StrikeEach(ps[..|ps| - 1], d)[i];
      }
    }
  }

  lemma {:induction false} StruckAppend(a: seq<Edit>, b: seq<Edit>, p: string)
    ensures Struck(a + b, p) == Struck(a, p) + Struck(b, p)
  {
    assert forall e :: e in a + b <==> e in a || e in b;
  }

  /** The digits struck from p by the writes of one box. */
  lemma {:induction false} StruckByBlock(values: Board, block: string, p: string)
    requires IsBoard(values) && IsBox(block) && IsBox(p)
    ensures Struck(BlockEdits(values, block), p) ==
      if |values[block]| == 1 && block in Peers(p) then {values[block][0]} else {}
  {
    PeersSymmetric(block, p);
    PeersSymmetric(p, block);
    if |values[block]| == 1 {
      var ts := StrikeTargets(block);
      assert p in ts <==> block in Peers(p);
      StruckByStrikes(ts, values[block][0], p);
    }
  }

  /** Striking one digit from each box of ps strikes it from p exactly when p is among them. */
  lemma {:induction false} StruckByStrikes(ps: seq<string>, d: char, p: string)
    ensures Struck(StrikeEach(ps, d), p) == if p in ps then {d} else {}
  {
    if p in ps {
      assert Strike(p, d) in StrikeEach(ps, d);
    }
  }

  /** The digits of the decided peers of p among the boxes xs. */
  function DecidedPeerDigits(values: Board, p: string, xs: seq<string>): set<char>
    requires forall x :: x in xs ==> x in values
  {
    if xs == [] then {}
    else
      var init, x := xs[..|xs| - 1], xs[|xs| - 1];
      assert forall y :: y in init ==> y in xs;
      DecidedPeerDigits(values, p, init) + (if |values[x]| == 1 && x in Peers(p) then {values[x][0]} else {})
  }

  lemma {:induction false} DecidedPeerDigitsMembers(values: Board, p: string, xs: seq<string>, c: char)
    requires forall x :: x in xs ==> x in values
    ensures c in DecidedPeerDigits(values, p, xs) <==>
      exists x :: x in xs && |values[x]| == 1 && x in Peers(p) && values[x][0] == c
  {
    if xs != [] {
      var init := xs[..|xs| - 1];
      assert forall y :: y in init ==> y in xs;
      assert forall y :: y in xs ==> y in init || y == xs[|xs| - 1];
      DecidedPeerDigitsMembers(values, p, init, c);
    }
  }

  /** The pass over the boxes xs strikes from p the digits of the decided peers of p among them. */
  lemma {:induction false} StruckOver(values: Board, xs: seq<string>, p: string)
    requires IsBoard(values) && IsBox(p)
    requires forall x :: x in xs ==> IsBox(x)
    ensures Struck(EditsOver(values, xs), p) == DecidedPeerDigits(values, p, xs)
  {
    if xs != [] {
      var init := xs[..|xs| - 1];
      assert forall y :: y in init ==> y in xs;
      StruckOver(values, init, p);
      StruckAppend(EditsOver(values, init), BlockEdits(values, xs[|xs| - 1]), p);
      StruckByBlock(values, xs[|xs| - 1], p);
    } else {
      assert Struck([], p) == {};
    }
  }

  /** A pass over all the boxes, in any order, strikes from p exactly the digits of p's decided peers. */
  lemma {:induction false} StruckByPass(values: Board, p: string, xs: seq<string>)
    requires IsBoard(values) && IsBox(p)
    requires forall x :: x in xs <==> IsBox(x)
    ensures Struck(EditsOver(values, xs), p) == PeerDigits(values, p)
  {
    StruckOver(values, xs, p);
    PeersOf(p);
    forall c ensures c in DecidedPeerDigits(values, p, xs) <==> c in PeerDigits(values, p) {
      DecidedPeerDigitsMembers(values, p, xs, c);
    }
  }

  /** Carrying out the writes of a pass over all the boxes, in any order, yields `Eliminated`, whatever the log. */
  lemma {:induction false} EliminateOverClosedForm(values: Board, log: seq<Board>, xs: seq<string>)
    requires IsBoard(values)
    requires forall x :: x in xs <==> IsBox(x)
    ensures Run(Trace(values, log), EditsOver(values, xs)).board == Eliminated(values)
  {
    var r := Run(Trace(values, log), EditsOver(values, xs)).board;
    var e := Eliminated(values);
    forall p | p in r ensures r[p] == e[p] {
      RunStrikes(Trace(values, log), EditsOver(values, xs), p);
      StruckByPass(values, p, xs);
    }
    SameBoard(r, e);
  }

  lemma {:induction false} EliminateClosedForm(values: Board, log: seq<Board>)
    requires IsBoard(values)
    ensures Run(Trace(values, log), EliminateEdits(values)).board == Eliminated(values)
  {
    BoxesMembers();
    EliminateOverClosedForm(values, log, Boxes);
  }

  /** A candidate survives exactly when it was there and no decided peer holds it. */
  lemma {:induction false} EliminatedMeaning(values: Board, s: string, c: char)
    requires IsBoard(values) && IsBox(s)
    ensures c in Eliminated(values)[s] <==>
      c in values[s] && forall q :: q in Peers(s) && q in values && |values[q]| == 1 ==> values[q][0] != c
  {
  }

  /** Elimination only narrows, and keeps candidate strings candidate strings. */
  lemma {:induction false} EliminatedRefines(values: Board)
    requires IsBoard(values)
    ensures Refines(Eliminated(values), values)
    ensures WellFormed(values) ==> WellFormed(Eliminated(values))
  {
    if WellFormed(values) {
      forall s | s in values ensures IsDomain(Eliminated(values)[s]) {
        WithoutKeepsDomain(values[s], PeerDigits(values, s));
      }
    }
  }

  /** Two peers decided to the same digit wipe each other out. */
  lemma {:induction false} EliminatedClash(values: Board, s: string, p: string)
    requires IsBoard(values) && IsBox(s) && IsBox(p) && p in Peers(s)
    requires |values[s]| == 1 && values[p] == values[s]
    ensures Eliminated(values)[s] == ""
  {
    assert values[s] == [values[s][0]];
    assert values[p][0] in PeerDigits(values, s);
  }

  /** A decided box whose digit no peer shares keeps its value. */
  lemma {:induction false} EliminatedKeepsDecided(values: Board, s: string)
    requires IsBoard(values) && IsBox(s) && |values[s]| == 1
    requires forall q :: q in Peers(s) && q in values && |values[q]| == 1 ==> values[q] != values[s]
    ensures Eliminated(values)[s] == values[s]
  {
    var d := values[s][0];
    assert values[s] == [d];
    forall q | q in Peers(s) && q in values && |values[q]| == 1 ensures values[q][0] != d {
      assert values[q] == [values[q][0]];
    }
    assert d !in PeerDigits(values, s);
    WithoutMissing(values[s], PeerDigits(values, s));
  }

  /** Elimination changes nothing exactly when no box still offers a digit of a decided peer. */
  lemma {:induction false} EliminatedFixpoint(values: Board)
    requires IsBoard(values)
    ensures Eliminated(values) == values <==>
      forall s, q {:trigger q in Peers(s)} :: IsBox(s) && q in Peers(s) && q in values && |values[q]| == 1 ==> values[q][0] !in values[s]
  {
    var e := Eliminated(values);
    if e == values {
      forall s, q | IsBox(s) && q in Peers(s) && q in values && |values[q]| == 1 ensures values[q][0] !in values[s] {
        EliminatedMeaning(values, s, values[q][0]);
      }
    }
    if forall s, q {:trigger q in Peers(s)} :: IsBox(s) && q in Peers(s) && q in values && |values[q]| == 1 ==> values[q][0] !in values[s] {
      forall s | s in values ensures e[s] == values[s] {
        WithoutMissing(values[s], PeerDigits(values, s));
      }
      SameBoard(e, values);
    }
  }

  /**
   * Elimination never lengthens a box, and a decided box either keeps its
   * digit or is wiped out.
   */
  lemma {:induction false} EliminatedDecided(values: Board, s: string)
    requires IsBoard(values) && IsBox(s)
    ensures |Eliminated(values)[s]| <= |values[s]|
    ensures |values[s]| == 1 ==> Eliminated(values)[s] == values[s] || Eliminated(values)[s] == ""
  {
    if |values[s]| == 1 {
      var P := PeerDigits(values, s);
      assert values[s] == [values[s][0]];
      assert Without(values[s], P) == if values[s][0] in P then [] else [values[s][0]] + Without([], P);
    }
  }

  /** The digits a peer set offers depend only on its decided boxes. */
  lemma {:induction false} PeerDigitsAgree(u: Board, v: Board, s: string)
    requires IsBoard(u) && IsBoard(v) && IsBox(s)
    requires forall q :: q in u && |u[q]| == 1 ==> v[q] == u[q]
    requires forall q :: q in v && |v[q]| == 1 ==> |u[q]| == 1
    ensures PeerDigits(u, s) == PeerDigits(v, s)
  {
    PeersOf(s);
  }

  /**
   * Eliminating a second time changes nothing when the first pass kept
   * every decided box and decided no new one.
   */
  lemma {:induction false} EliminatedStable(values: Board)
    requires IsBoard(values)
    requires forall s :: s in values && |values[s]| == 1 ==> Eliminated(values)[s] == values[s]
    requires forall s :: s in values && |Eliminated(values)[s]| == 1 ==> |values[s]| == 1
    ensures Eliminated(Eliminated(values)) == Eliminated(values)
  {
    var e := Eliminated(values);
    forall s | s in e ensures Eliminated(e)[s] == e[s] {
      PeerDigitsAgree(values, e, s);
      WithoutMissing(e[s], PeerDigits(e, s));
    }
    SameBoard(Eliminated(e), e);
  }

  /** A board that elimination leaves unchanged and with no empty box has no two peers decided alike. */
  lemma {:induction false} EliminatedFixpointConsistent(values: Board)
    requires IsBoard(values) && Eliminated(values) == values && !HasEmpty(values)
    ensures PeerConsistent(values)
  {
    forall s, p {:trigger p in Peers(s)}
      ensures IsBox(s) && p in Peers(s) && |values[s]| == 1 ==> p in values && values[p] != values[s]
    {
      if IsBox(s) && p in Peers(s) && |values[s]| == 1 {
        PeersOf(s);
        var c := values[s][0];
        EliminatedMeaning(values, s, c);
        assert |values[p]| == 1 ==> values[p][0] != c;
      }
    }
  }
}
