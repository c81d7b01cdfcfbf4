/**
 * The naked-twins rule (`naked_twins`).
 *
 * Two peer boxes holding the same two-candidate string are twins: those two
 * digits must go into those two boxes, so every box that is a peer of both
 * loses them.  The program first collects the twin pairs, popping boxes off
 * the end of the row-major list of two-candidate boxes and pairing each with
 * its peers still in the list; then it strips each pair's value from the
 * common peers whose string differs from it, one pair after another, reading
 * the first box of each pair as it stands at that moment.  It never calls
 * `assign_value`, so it writes nothing to the assignment log.
 */
module NakedTwinsRule {
  import opened Topology
  import opened Domains
  import opened Boards

  /** A recorded pair `(box, p)`: `box` is the popped box, `p` its twin. */
  type Pair = (string, string)

  /** `[box for box in boxes if len(values[box]) == 2]`, over the boxes xs. */
  function TwoCandidates(values: Board, xs: seq<string>): (r: seq<string>)
    requires forall x :: x in xs ==> x in values
    ensures forall x :: x in r <==> x in xs && |values[x]| == 2
  {
    if xs == [] then []
    else (if |values[xs[0]]| == 2 then [xs[0]] else []) + TwoCandidates(values, xs[1..])
  }

  /** The peers of a box in the order of keys: with keys = `Boxes`, the order in which the model visits them. */
  function PeerOrder(keys: seq<string>, box: string): (r: seq<string>)
    requires IsBox(box) && KeyOrder(keys)
    ensures forall p :: p in r <==> p in Peers(box)
    ensures forall p :: p in r ==> IsBox(p)
    ensures Distinct(r)
  {
    PeersOf(box);
    Ordered(keys, Peers(box))
  }

  /**
   * The pairs the inner loop records for `box`: each peer among ps that is
   * still pending and holds the same string.
   */
  function TwinsAmong(values: Board, box: string, ps: seq<string>, pending: seq<string>): (r: seq<Pair>)
    requires box in values && forall p :: p in ps ==> p in values
    ensures forall t :: t in r <==> t.0 == box && t.1 in ps && t.1 in pending && values[t.1] == values[box]
    ensures Distinct(ps) ==> Distinct(r)
    decreases |ps|
  {
    if ps == [] then []
    else
      var init := ps[..|ps| - 1];
      var p := ps[|ps| - 1];
      assert forall x :: x in ps <==> x in init || x == p;
      TwinsAmong(values, box, init, pending) + (if p in pending && values[p] == values[box] then [(box, p)] else [])
  }

  /**
   * `all_twins` after the `while` loop has emptied the pending list: the
   * pairs of the last pending box first, then those of the boxes before it.
   */
  function FoundTwins(values: Board, keys: seq<string>, pending: seq<string>): (r: seq<Pair>)
    requires IsBoard(values) && KeyOrder(keys)
    requires forall x :: x in pending ==> IsBox(x)
    ensures forall t :: t in r ==> IsBox(t.0) && IsBox(t.1)
    decreases |pending|
  {
    if pending == [] then []
    else
      var box := pending[|pending| - 1];
      var rest := pending[..|pending| - 1];
      TwinsAmong(values, box, PeerOrder(keys, box), rest) + FoundTwins(values, keys, rest)
  }

  /** The twin pairs `naked_twins` records. */
  function Twins(values: Board): (r: seq<Pair>)
    requires IsBoard(values)
    ensures forall t :: t in r ==> IsBox(t.0) && IsBox(t.1)
  {
    BoxesFacts();
    FoundTwins(values, Boxes, TwoCandidates(values, Boxes))
  }

  /** Phase one of `naked_twins`: collect the twin pairs. */
  method FindTwins(values: Board) returns (allTwins: seq<Pair>)
    requires IsBoard(values)
    ensures allTwins == Twins(values)
  {
    BoxesFacts();
    allTwins := PopPending(values, Boxes, TwoCandidates(values, Boxes));
  }

  /** The `while boxes_to_search` loop, over the pending list it starts from. */
  method PopPending(values: Board, keys: seq<string>, pending: seq<string>) returns (allTwins: seq<Pair>)
    requires IsBoard(values) && KeyOrder(keys)
    requires forall x :: x in pending ==> IsBox(x)
    ensures allTwins == FoundTwins(values, keys, pending)
  {
    var boxesToSearch := pending;
    allTwins := [];
    while boxesToSearch != []
      invariant forall x :: x in boxesToSearch ==> IsBox(x)
      invariant allTwins + FoundTwins(values, keys, boxesToSearch) == FoundTwins(values, keys, pending)
      decreases |boxesToSearch|
    {
      var box := boxesToSearch[|boxesToSearch| - 1];
      ghost var before := boxesToSearch;
      boxesToSearch := boxesToSearch[..|boxesToSearch| - 1];
      var found := PairsOfBox(values, box, PeerOrder(keys, box), boxesToSearch);
      PopStep(values, keys, before, allTwins, found, FoundTwins(values, keys, pending));
      allTwins := allTwins + found;
    }
    assert allTwins + [] == allTwins;
  }

  /** Popping the last pending box adds its pairs to the list and leaves the rest pending. */
  lemma {:induction false} PopStep(values: Board, keys: seq<string>, pending: seq<string>, acc: seq<Pair>, found: seq<Pair>, target: seq<Pair>)
    requires IsBoard(values) && KeyOrder(keys)
    requires pending != [] && forall x :: x in pending ==> IsBox(x)
    requires found == TwinsAmong(values, pending[|pending| - 1], PeerOrder(keys, pending[|pending| - 1]), pending[..|pending| - 1])
    requires acc + FoundTwins(values, keys, pending) == target
    ensures forall x :: x in pending[..|pending| - 1] ==> IsBox(x)
    ensures (acc + found) + FoundTwins(values, keys, pending[..|pending| - 1]) == target
  {
    var rest := pending[..|pending| - 1];
    assert forall x :: x in rest ==> x in pending;
    assert FoundTwins(values, keys, pending) == found + FoundTwins(values, keys, rest);
    AppendAssoc(acc, found, FoundTwins(values, keys, rest));
  }

  lemma {:induction false} AppendAssoc<T>(a: seq<T>, b: seq<T>, c: seq<T>)
    ensures (a + b) + c == a + (b + c)
  {}

  /** The `for p in peers[box]` loop: record each pending peer with the same string. */
  method PairsOfBox(values: Board, box: string, ps: seq<string>, pending: seq<string>) returns (found: seq<Pair>)
    requires IsBoard(values) && IsBox(box) && forall p :: p in ps ==> IsBox(p)
    ensures found == TwinsAmong(values, box, ps, pending)
  {
    found := [];
    for k := 0 to |ps|
      invariant found == TwinsAmong(values, box, ps[..k], pending)
    {
      assert ps[..k + 1][..k] == ps[..k];
      var p := ps[k];
      if p in pending && values[p] == values[box] {
        found := found + [(box, p)];
      }
    }
    assert ps[..|ps|] == ps;
  }

  lemma {:induction false} TwoCandidatesSorted(values: Board, xs: seq<string>)
    requires forall x :: x in xs ==> |x| == 2 && x in values
    requires SortedNames(xs)
    ensures SortedNames(TwoCandidates(values, xs))
  {
    if xs != [] {
      var tail := xs[1..];
      assert SortedNames(tail) by {
        forall i, j | 0 <= i < j < |tail| ensures NameBefore(tail[i], tail[j]) {
          assert tail[i] == xs[i + 1] && tail[j] == xs[j + 1];
        }
      }
      TwoCandidatesSorted(values, tail);
      var r := TwoCandidates(values, tail);
      var head := if |values[xs[0]]| == 2 then [xs[0]] else [];
      forall u, y | u in head && y in r ensures NameBefore(u, y) {
        var k :| 0 <= k < |tail| && tail[k] == y;
        assert xs[k + 1] == y;
      }
      SortedAppend(head, r);
    }
  }

  /** t pairs two pending peers with the same string, the second before the first in name order. */
  predicate Twin(values: Board, pending: seq<string>, t: Pair)
    requires IsBoard(values) && forall x :: x in pending ==> IsBox(x)
  {
    t.0 in pending && t.1 in pending && t.1 in Peers(t.0) && values[t.1] == values[t.0] && NameBefore(t.1, t.0)
  }

  /**
   * What the pending-list loop records: the ordered pairs (a, b) of pending
   * peers with the same string, b before a in name order.
   */
  lemma {:induction false} FoundTwinsMeaning(values: Board, keys: seq<string>, pending: seq<string>)
    requires IsBoard(values) && KeyOrder(keys)
    requires (forall x :: x in pending ==> IsBox(x)) && SortedNames(pending)
    ensures forall t :: t in FoundTwins(values, keys, pending) <==> Twin(values, pending, t)
  {
    if pending != [] {
      var box := pending[|pending| - 1];
      var rest := pending[..|pending| - 1];
      assert forall x :: x in pending <==> x in rest || x == box;
      assert IsBox(box);
      assert forall x :: x in rest ==> IsBox(x) && NameBefore(x, box) by {
        forall x | x in rest ensures IsBox(x) && NameBefore(x, box) {
          var k :| 0 <= k < |rest| && rest[k] == x;
          assert pending[k] == x;
        }
      }
      FoundTwinsMeaning(values, keys, rest);
      var seg := TwinsAmong(values, box, PeerOrder(keys, box), rest);
      var found := FoundTwins(values, keys, pending);
      assert found == seg + FoundTwins(values, keys, rest);
      forall t ensures t in found <==> Twin(values, pending, t) {
        if t.0 == box {
          assert t !in FoundTwins(values, keys, rest);
        }
        if t.1 == box && t.0 in rest {
          assert NameBefore(t.0, box);
        }
      }
    }
  }

  /** The pairs of `Twins` are exactly the twins, each in one orientation, later box first. */
  lemma {:induction false} TwinsMeaning(values: Board)
    requires IsBoard(values)
    ensures forall t :: t in Twins(values) <==>
      IsBox(t.0) && IsBox(t.1) && t.1 in Peers(t.0) && |values[t.0]| == 2 && values[t.1] == values[t.0] &&
      NameBefore(t.1, t.0)
  {
    BoxesFacts();
    BoxesSorted();
    TwoCandidatesSorted(values, Boxes);
    FoundTwinsMeaning(values, Boxes, TwoCandidates(values, Boxes));
  }

  /** Two peers with the same two-candidate string are recorded in exactly one orientation. */
  lemma {:induction false} TwinsOnce(values: Board, a: string, b: string)
    requires IsBoard(values) && IsBox(a) && IsBox(b) && b in Peers(a)
    requires |values[a]| == 2 && values[b] == values[a]
    ensures ((a, b) in Twins(values)) != ((b, a) in Twins(values))
  {
    PeersOf(a);
    assert (a, b) in Twins(values) <==> NameBefore(b, a) by {
      TwinsMeaning(values);
    }
    assert (b, a) in Twins(values) <==> NameBefore(a, b) by {
      TwinsMeaning(values);
    }
    NameOrderTotal(a, b);
  }

  /** Joining two lists without repeats and with no element in common gives a list without repeats. */
  lemma {:induction false} DistinctAppend<T>(x: seq<T>, y: seq<T>)
    requires Distinct(x) && Distinct(y) && forall u :: u in x ==> u !in y
    ensures Distinct(x + y)
  {
    var c := x + y;
    forall i, j | 0 <= i < j < |c| ensures c[i] != c[j] {
      if j < |x| {
        assert c[i] == x[i] && c[j] == x[j];
      } else if i < |x| {
        assert c[i] in x && c[j] == y[j - |x|];
      } else {
        assert c[i] == y[i - |x|] && c[j] == y[j - |x|];
      }
    }
  }

  /**
   * Over pending boxes without repeats, no pair is found twice: each popped
   * box heads only its own pairs, and the pairs found later are headed by
   * boxes still pending.
   */
  lemma {:induction false} FoundTwinsDistinct(values: Board, keys: seq<string>, pending: seq<string>)
    requires IsBoard(values) && KeyOrder(keys)
    requires (forall x :: x in pending ==> IsBox(x)) && Distinct(pending)
    ensures forall t :: t in FoundTwins(values, keys, pending) ==> t.0 in pending
    ensures Distinct(FoundTwins(values, keys, pending))
  {
    if pending != [] {
      var n := |pending| - 1;
      var box, rest := pending[n], pending[..n];
      assert forall x :: x in rest ==> x in pending;
      assert box !in rest;
      assert Distinct(rest) by {
        forall i, j | 0 <= i < j < n ensures rest[i] != rest[j] {
          assert rest[i] == pending[i] && rest[j] == pending[j];
        }
      }
      FoundTwinsDistinct(values, keys, rest);
      var segment := TwinsAmong(values, box, PeerOrder(keys, box), rest);
      var later := FoundTwins(values, keys, rest);
      assert forall u :: u in segment ==> u !in later;
      DistinctAppend(segment, later);
    }
  }

  /** `all_twins` holds no pair twice. */
  lemma {:induction false} TwinsDistinct(values: Board)
    requires IsBoard(values)
    ensures Distinct(Twins(values))
  {
    BoxesFacts();
    BoxesSorted();
    var pending := TwoCandidates(values, Boxes);
    TwoCandidatesSorted(values, Boxes);
    assert Distinct(pending) by {
      forall i, j | 0 <= i < j < |pending| ensures pending[i] != pending[j] {
        assert NameBefore(pending[i], pending[j]);
      }
    }
    FoundTwinsDistinct(values, Boxes, pending);
  }

  /** The first box of a later pair never comes after the first box of an earlier pair. */
  predicate LaterFirst(r: seq<Pair>) {
    forall i, j :: 0 <= i < j < |r| ==>
      r[i].0 == r[j].0 || (|r[i].0| == 2 && |r[j].0| == 2 && NameBefore(r[j].0, r[i].0))
  }

  /** A run of pairs headed by `box`, followed by pairs headed by earlier boxes, keeps `LaterFirst`. */
  lemma {:induction false} LaterFirstJoin(segment: seq<Pair>, later: seq<Pair>, box: string, rest: seq<string>)
    requires IsBox(box) && forall t :: t in segment ==> t.0 == box
    requires forall x :: x in rest ==> IsBox(x) && NameBefore(x, box)
    requires (forall t :: t in later ==> t.0 in rest) && LaterFirst(later)
    ensures forall t :: t in segment + later ==> IsBox(t.0) && (t.0 == box || t.0 in rest)
    ensures LaterFirst(segment + later)
  {
    var r := segment + later;
    forall t | t in r ensures IsBox(t.0) && (t.0 == box || t.0 in rest) {
      assert t in segment || t in later;
    }
    forall i, j | 0 <= i < j < |r|
      ensures r[i].0 == r[j].0 || (|r[i].0| == 2 && |r[j].0| == 2 && NameBefore(r[j].0, r[i].0))
    {
      assert r[i] in r && r[j] in r;
      if j < |segment| {
        assert r[i] in segment && r[j] in segment;
      } else if i < |segment| {
        assert r[i] in segment && r[j] == later[j - |segment|] && r[j] in later;
      } else {
        assert r[i] == later[i - |segment|] && r[j] == later[j - |segment|];
      }
    }
  }

  /**
   * The pairs are recorded box by box, from the last pending box back to the
   * first: over sorted pending boxes, the first box of a later pair never
   * comes after the first box of an earlier one.
   */
  lemma {:induction false} FoundTwinsOrder(values: Board, keys: seq<string>, pending: seq<string>)
    requires IsBoard(values) && KeyOrder(keys)
    requires (forall x :: x in pending ==> IsBox(x)) && SortedNames(pending)
    ensures forall t :: t in FoundTwins(values, keys, pending) ==> t.0 in pending
    ensures LaterFirst(FoundTwins(values, keys, pending))
  {
    if pending != [] {
      var n := |pending| - 1;
      var box, rest := pending[n], pending[..n];
      assert box in pending;
      assert forall x :: x in rest ==> IsBox(x) && NameBefore(x, box) by {
        forall x | x in rest ensures IsBox(x) && NameBefore(x, box) {
          var k :| 0 <= k < n && rest[k] == x;
          assert pending[k] == x;
        }
      }
      assert SortedNames(rest) by {
        forall i, j | 0 <= i < j < n ensures NameBefore(rest[i], rest[j]) {
          assert rest[i] == pending[i] && rest[j] == pending[j];
        }
      }
      FoundTwinsOrder(values, keys, rest);
      var segment := TwinsAmong(values, box, PeerOrder(keys, box), rest);
      var later := FoundTwins(values, keys, rest);
      assert FoundTwins(values, keys, pending) == segment + later;
      assert forall x :: x in rest ==> x in pending;
      LaterFirstJoin(segment, later, box, rest);
    }
  }

  /** `all_twins` lists the pairs of later boxes first. */
  lemma {:induction false} TwinsOrder(values: Board)
    requires IsBoard(values)
    ensures LaterFirst(Twins(values))
  {
    BoxesFacts();
    BoxesSorted();
    TwoCandidatesSorted(values, Boxes);
    FoundTwinsOrder(values, Boxes, TwoCandidates(values, Boxes));
  }

  /**
   * One pair of phase two: every common peer of the pair whose string is not
   * the first box's string loses the characters of that string.
   */
  function StripPair(values: Board, t: Pair): (r: Board)
    requires t.0 in values
    ensures r.Keys == values.Keys
  {
    var value := values[t.0];
    map x | x in values :: if x in Peers(t.0) && x in Peers(t.1) && values[x] != value then Without(values[x], Chars(value)) else values[x]
  }

  /** Phase two over the pairs, one after another, each reading the board the previous one left. */
  function StripAll(values: Board, pairs: seq<Pair>): (r: Board)
    requires IsBoard(values) && forall t :: t in pairs ==> IsBox(t.0)
    ensures IsBoard(r)
    decreases |pairs|
  {
    if pairs == [] then values
    else StripPair(StripAll(values, pairs[..|pairs| - 1]), pairs[|pairs| - 1])
  }

  /** Stripping one more pair continues the fold over the pairs. */
  lemma {:induction false} StripAllStep(values: Board, pairs: seq<Pair>, i: int, cur: Board, next: Board)
    requires IsBoard(values) && 0 <= i < |pairs| && forall t :: t in pairs ==> IsBox(t.0)
    requires cur == StripAll(values, pairs[..i]) && next == StripPair(cur, pairs[i])
    ensures IsBoard(next) && next == StripAll(values, pairs[..i + 1])
  {
    var prefix := pairs[..i + 1];
    assert prefix[..i] == pairs[..i] && prefix[i] == pairs[i];
    assert forall t :: t in prefix ==> t in pairs;
    StripAllLast(values, prefix);
  }

  /** The fold over a non-empty list of pairs strips its last pair from the fold over the others. */
  lemma {:induction false} StripAllLast(values: Board, pairs: seq<Pair>)
    requires IsBoard(values) && pairs != [] && forall t :: t in pairs ==> IsBox(t.0)
    ensures forall t :: t in pairs[..|pairs| - 1] ==> IsBox(t.0)
    ensures StripAll(values, pairs) == StripPair(StripAll(values, pairs[..|pairs| - 1]), pairs[|pairs| - 1])
  {
    assert forall t :: t in pairs[..|pairs| - 1] ==> t in pairs;
  }

  /** `naked_twins`: the board after both phases. */
  method NakedTwins(values: Board) returns (res: Board)
    requires IsBoard(values)
    ensures res == StripAll(values, Twins(values))
  {
    var allTwins := FindTwins(values);
    BoxesKeyOrder();
    res := StripEach(values, Boxes, allTwins);
  }

  /** The `for box, twin in all_twins` loop. */
  method StripEach(values: Board, keys: seq<string>, pairs: seq<Pair>) returns (res: Board)
    requires IsBoard(values) && forall t :: t in pairs ==> IsBox(t.0) && IsBox(t.1)
    requires KeyOrder(keys)
    ensures res == StripAll(values, pairs)
  {
    res := values;
    for i := 0 to |pairs|
      invariant IsBoard(res) && res == StripAll(values, pairs[..i])
    {
      ghost var before := res;
      res := StripCommonPeers(res, keys, pairs[i]);
      StripAllStep(values, pairs, i, before, res);
    }
    assert pairs[..|pairs|] == pairs;
  }

  /** The loop over `peers[box].intersection(peers[twin])`, visited in the order of keys. */
  method StripCommonPeers(values: Board, keys: seq<string>, t: Pair) returns (res: Board)
    requires IsBoard(values) && IsBox(t.0) && IsBox(t.1)
    requires KeyOrder(keys)
    ensures res == StripPair(values, t)
  {
    PeersOf(t.0);
    var common := Ordered(keys, Peers(t.0) * Peers(t.1));
    assert forall x :: x in common <==> x in Peers(t.0) && x in Peers(t.1);
    res := StripPeers(values, values[t.0], common);
    var stripped := StripPair(values, t);
    forall x | x in res ensures res[x] == stripped[x] {
      assert x in common <==> x in Peers(t.0) && x in Peers(t.1);
    }
    SameBoard(res, stripped);
  }

  /** Strip value from each box of common whose string differs from it. */
  method StripPeers(values: Board, value: string, common: seq<string>) returns (res: Board)
    requires IsBoard(values) && Distinct(common) && forall x :: x in common ==> IsBox(x)
    ensures IsBoard(res)
    ensures forall x :: x in values ==>
      res[x] == if x in common && values[x] != value then Without(values[x], Chars(value)) else values[x]
  {
    res := values;
    for k := 0 to |common|
      invariant StrippedUpTo(values, value, common[..k], res)
    {
      var p := common[k];
      ghost var before := res;
      if res[p] != value {
        var stripped := RemoveAll(res[p], value);
        res := res[p := stripped];
      }
      StripStep(values, value, common, k, before, res);
    }
    assert common[..|common|] == common;
  }

  /** The boxes of `done` whose string differs from value have been stripped, and no other box has changed. */
  ghost predicate StrippedUpTo(values: Board, value: string, done: seq<string>, res: Board) {
    IsBoard(values) && IsBoard(res) &&
    forall x :: x in values ==>
      res[x] == if x in done && values[x] != value then Without(values[x], Chars(value)) else values[x]
  }

  /** Stripping the next box of common extends the stripped prefix by one. */
  lemma {:induction false} StripStep(values: Board, value: string, common: seq<string>, k: int, res: Board, res': Board)
    requires Distinct(common) && 0 <= k < |common| && IsBox(common[k])
    requires StrippedUpTo(values, value, common[..k], res)
    requires res' == if res[common[k]] != value then res[common[k] := Without(res[common[k]], Chars(value))] else res
    ensures StrippedUpTo(values, value, common[..k + 1], res')
  {
    assert IsBoard(res');
    forall x | x in values
      ensures res'[x] == if x in common[..k + 1] && values[x] != value then Without(values[x], Chars(value)) else values[x]
    {
      StripStepAt(values, value, common, k, res, res', x);
    }
  }

  /** The same, for one box x. */
  lemma {:induction false} StripStepAt(values: Board, value: string, common: seq<string>, k: int, res: Board, res': Board, x: string)
    requires Distinct(common) && 0 <= k < |common| && IsBox(common[k]) && x in values
    requires StrippedUpTo(values, value, common[..k], res)
    requires res' == if res[common[k]] != value then res[common[k] := Without(res[common[k]], Chars(value))] else res
    ensures res'[x] == if x in common[..k + 1] && values[x] != value then Without(values[x], Chars(value)) else values[x]
  {
    var p, done, done' := common[k], common[..k], common[..k + 1];
    assert p !in done;
    assert x in done' <==> x in done || x == p;
    if x != p {
      assert res'[x] == res[x];
    }
  }

  /** `for c in value: s = s.replace(c, '')`. */
  method RemoveAll(s: string, value: string) returns (r: string)
    ensures r == Without(s, Chars(value))
  {
    r := s;
    WithoutMissing(s, {});
    assert Chars(value[..0]) == {};
    for i := 0 to |value|
      invariant r == Without(s, Chars(value[..i]))
    {
      RemoveAfterWithout(s, Chars(value[..i]), value[i]);
      assert Chars(value[..i + 1]) == Chars(value[..i]) + {value[i]};
      r := Remove(r, value[i]);
    }
    assert value[..|value|] == value;
  }

  /** One pair of phase two only narrows boxes, and keeps candidate strings candidate strings. */
  lemma {:induction false} StripPairNarrows(values: Board, t: Pair)
    requires IsBoard(values) && IsBox(t.0)
    ensures Refines(StripPair(values, t), values)
    ensures WellFormed(values) ==> WellFormed(StripPair(values, t))
  {
    if WellFormed(values) {
      forall x | x in values ensures IsDomain(Without(values[x], Chars(values[t.0]))) {
        WithoutKeepsDomain(values[x], Chars(values[t.0]));
      }
    }
  }

  /**
   * One pair changes only the common peers of the pair whose string differs
   * from the first box's, and leaves both boxes of the pair as they are.
   */
  lemma {:induction false} StripPairAt(values: Board, t: Pair, x: string)
    requires IsBoard(values) && IsBox(t.0) && IsBox(t.1) && x in values
    ensures StripPair(values, t)[x] != values[x] ==>
      x in Peers(t.0) && x in Peers(t.1) && values[x] != values[t.0]
    ensures StripPair(values, t)[t.0] == values[t.0] && StripPair(values, t)[t.1] == values[t.1]
  {
    PeersOf(t.0);
    PeersOf(t.1);
  }

  /** `naked_twins` never adds a candidate and keeps candidate strings candidate strings. */
  lemma {:induction false} StripAllNarrows(values: Board, pairs: seq<Pair>)
    requires IsBoard(values) && forall t :: t in pairs ==> IsBox(t.0)
    ensures Refines(StripAll(values, pairs), values)
    ensures WellFormed(values) ==> WellFormed(StripAll(values, pairs))
    decreases |pairs|
  {
    if pairs != [] {
      var init := pairs[..|pairs| - 1];
      var before := StripAll(values, init);
      StripAllNarrows(values, init);
      StripPairNarrows(before, pairs[|pairs| - 1]);
      RefinesTransitive(StripAll(values, pairs), before, values);
    }
  }

  /** A box `naked_twins` changes is a common peer of some recorded pair. */
  lemma {:induction false} StripAllChanges(values: Board, pairs: seq<Pair>, x: string)
    requires IsBoard(values) && (forall t :: t in pairs ==> IsBox(t.0) && IsBox(t.1)) && x in values
    ensures StripAll(values, pairs)[x] != values[x] ==>
      exists t :: t in pairs && x in Peers(t.0) && x in Peers(t.1)
    decreases |pairs|
  {
    if pairs != [] {
      var init := pairs[..|pairs| - 1];
      var last := pairs[|pairs| - 1];
      StripAllChanges(values, init, x);
      StripPairAt(StripAll(values, init), last, x);
      if StripAll(values, pairs)[x] != values[x] {
        if StripAll(values, init)[x] != values[x] {
          var t :| t in init && x in Peers(t.0) && x in Peers(t.1);
          assert t in pairs;
        } else {
          assert last in pairs;
        }
      }
    }
  }

  /** t is a pair of peer twins of the board `naked_twins` started from. */
  ghost predicate TwinPair(values: Board, t: Pair)
    requires IsBoard(values)
  {
    IsBox(t.0) && IsBox(t.1) && t.1 in Peers(t.0) && |values[t.0]| == 2 && values[t.1] == values[t.0]
  }

  /**
   * Stripping a twin pair keeps every solution the board admits: the two
   * twins take the two digits between them, so no common peer can take
   * either.  The pair's current string may already be narrower than the
   * twins' original one; it is still a subset of it.
   */
  lemma {:induction false} StripPairSound(values: Board, current: Board, t: Pair, sol: Board)
    requires WellFormed(values) && IsBoard(current) && Refines(current, values) && TwinPair(values, t)
    requires IsBoard(sol) && Solved(sol) && PeerConsistent(sol) && Refines(sol, current)
    ensures Refines(sol, StripPair(current, t))
  {
    TwinDigits(values, current, t, sol);
    forall x | x in sol ensures Narrower(sol[x], StripPair(current, t)[x]) {
      StripPairKeeps(current, t, sol, x);
    }
  }

  lemma {:induction false} StripPairKeeps(current: Board, t: Pair, sol: Board, x: string)
    requires IsBoard(current) && IsBox(t.0) && IsBox(t.1) && x in current
    requires IsBoard(sol) && Solved(sol) && PeerConsistent(sol) && Refines(sol, current)
    requires forall c :: c in current[t.0] ==> c == sol[t.0][0] || c == sol[t.1][0]
    ensures Narrower(sol[x], StripPair(current, t)[x])
  {
    var stripped := StripPair(current, t);
    assert x in sol && |sol[x]| == 1;
    var d := sol[x][0];
    assert sol[x] == [d];
    if x in Peers(t.0) && x in Peers(t.1) && current[x] != current[t.0] {
      CommonPeerKeeps(current, t, sol, x);
      assert stripped[x] == Without(current[x], Chars(current[t.0]));
    } else {
      assert stripped[x] == current[x];
    }
  }

  /** Every candidate left in the first twin is the solution's digit of one of the two twins. */
  lemma {:induction false} TwinDigits(values: Board, current: Board, t: Pair, sol: Board)
    requires WellFormed(values) && IsBoard(current) && Refines(current, values) && TwinPair(values, t)
    requires IsBoard(sol) && Solved(sol) && PeerConsistent(sol) && Refines(sol, current)
    ensures forall c :: c in current[t.0] ==> c == sol[t.0][0] || c == sol[t.1][0]
  {
    var v := values[t.0];
    var a, b := sol[t.0][0], sol[t.1][0];
    assert sol[t.1] != sol[t.0];
    assert sol[t.0] == [a] && sol[t.1] == [b];
    assert a in v && b in v;
    TwoDigits(v, a, b);
  }

  /** A candidate string of two digits holds no digit but two different digits it contains. */
  lemma {:induction false} TwoDigits(v: string, a: char, b: char)
    requires IsDomain(v) && |v| == 2 && a in v && b in v && a != b
    ensures forall c :: c in v ==> c == a || c == b
  {
    assert v[0] < v[1];
  }

  /** A common peer of the twins keeps its solution digit when the first twin's candidates are struck. */
  lemma {:induction false} CommonPeerKeeps(current: Board, t: Pair, sol: Board, x: string)
    requires IsBoard(current) && IsBox(t.0) && IsBox(t.1) && x in Peers(t.0) && x in Peers(t.1)
    requires IsBoard(sol) && Solved(sol) && PeerConsistent(sol) && Refines(sol, current)
    requires forall c :: c in current[t.0] ==> c == sol[t.0][0] || c == sol[t.1][0]
    ensures x in current && sol[x][0] in Without(current[x], Chars(current[t.0]))
  {
    PeersSymmetric(t.0, x);
    assert x in sol && |sol[x]| == 1 && |sol[t.0]| == 1 && |sol[t.1]| == 1;
    var d, a, b := sol[x][0], sol[t.0][0], sol[t.1][0];
    assert sol[x] == [d] && sol[t.0] == [a] && sol[t.1] == [b];
    assert sol[x] != sol[t.0] && sol[x] != sol[t.1];
    assert d != a && d != b;
    assert d !in Chars(current[t.0]);
    assert Narrower(sol[x], current[x]);
  }

  /** Phase two over pairs of twins keeps every solution the board admits. */
  lemma {:induction false} StripAllSound(values: Board, pairs: seq<Pair>, sol: Board)
    requires WellFormed(values) && forall t :: t in pairs ==> IsBox(t.0) && TwinPair(values, t)
    requires IsBoard(sol) && Solved(sol) && PeerConsistent(sol) && Refines(sol, values)
    ensures Refines(sol, StripAll(values, pairs))
    decreases |pairs|
  {
    if pairs != [] {
      var init := pairs[..|pairs| - 1];
      StripAllSound(values, init, sol);
      StripAllNarrows(values, init);
      StripPairSound(values, StripAll(values, init), pairs[|pairs| - 1], sol);
    }
  }

  /**
   * `naked_twins` only narrows the board, and every solution (every box
   * decided, no two peers alike) that the board admits, it still admits.
   */
  lemma {:induction false} NakedTwinsSound(values: Board, sol: Board)
    requires WellFormed(values)
    ensures Refines(StripAll(values, Twins(values)), values)
    ensures WellFormed(StripAll(values, Twins(values)))
    ensures IsBoard(sol) && Solved(sol) && PeerConsistent(sol) && Refines(sol, values) ==>
      Refines(sol, StripAll(values, Twins(values)))
  {
    StripAllNarrows(values, Twins(values));
    if IsBoard(sol) && Solved(sol) && PeerConsistent(sol) && Refines(sol, values) {
      TwinsMeaning(values);
      forall t | t in Twins(values) ensures TwinPair(values, t) {
      }
      StripAllSound(values, Twins(values), sol);
    }
  }

  /** Stripping more pairs only narrows further what a prefix of them left. */
  lemma {:induction false} StripAllPrefix(values: Board, pairs: seq<Pair>, k: nat)
    requires IsBoard(values) && (forall t :: t in pairs ==> IsBox(t.0)) && k <= |pairs|
    ensures forall t :: t in pairs[..k] ==> IsBox(t.0)
    ensures Refines(StripAll(values, pairs), StripAll(values, pairs[..k]))
    decreases |pairs|
  {
    assert forall t :: t in pairs[..k] ==> t in pairs;
    if k == |pairs| {
      assert pairs[..k] == pairs;
    } else {
      var init := pairs[..|pairs| - 1];
      assert init[..k] == pairs[..k];
      assert forall t :: t in init ==> t in pairs;
      StripAllPrefix(values, init, k);
      StripPairNarrows(StripAll(values, init), pairs[|pairs| - 1]);
      RefinesTransitive(StripAll(values, pairs), StripAll(values, init), StripAll(values, pairs[..k]));
    }
  }

  /**
   * The first recorded pair reads the board as it was given: every common
   * peer of that pair whose string differs from the twins' loses both twin
   * digits, and later pairs never give them back.
   */
  lemma {:induction false} FirstPairStrips(values: Board, x: string)
    requires IsBoard(values) && Twins(values) != [] && x in values
    requires var t := Twins(values)[0]; x in Peers(t.0) && x in Peers(t.1) && values[x] != values[t.0]
    ensures var t := Twins(values)[0];
      forall c :: c in values[t.0] ==> c !in StripAll(values, Twins(values))[x]
  {
    var pairs := Twins(values);
    var t := pairs[0];
    TwinsMeaning(values);
    assert t in pairs;
    StripAllPrefix(values, pairs, 1);
    var first := pairs[..1];
    StripAllLast(values, first);
    assert first[..0] == [] && first[0] == t;
    var once, all := StripPair(values, t), StripAll(values, pairs);
    assert StripAll(values, first) == once;
    assert once[x] == Without(values[x], Chars(values[t.0]));
    assert Narrower(all[x], once[x]);
  }

  /**
   * A board on which later pairs read a narrowed first twin: A1 and A2 hold
   * "12", E2 and F2 hold "23", every other box holds all nine digits.
   */
  function CrossedTwinsBoard(): (v: Board)
    ensures IsCrossedTwinsBoard(v)
  {
    var v := map s | s in Boxes :: CrossedValue(s);
    KeyedByBoxes(v);
    v
  }

  /** A map whose keys are the members of `boxes` is a board. */
  lemma {:induction false} KeyedByBoxes(v: Board)
    requires forall s :: s in v <==> s in Boxes
    ensures IsBoard(v)
  {
    BoxesMembers();
  }

  /** v is `CrossedTwinsBoard`: every box holds its `CrossedValue`. */
  ghost predicate IsCrossedTwinsBoard(v: Board) {
    IsBoard(v) && forall s :: s in v ==> v[s] == CrossedValue(s)
  }

  /** The string of a box of `CrossedTwinsBoard`. */
  function CrossedValue(s: string): (r: string)
    ensures r == "12" <==> s == "A1" || s == "A2"
    ensures r == "23" <==> s == "E2" || s == "F2"
    ensures |r| == 2 ==> r == "12" || r == "23"
  {
    assert |Digits| == 9 && Digits != "12" && Digits != "23";
    if s == "A1" || s == "A2" then "12" else if s == "E2" || s == "F2" then "23" else Digits
  }

  /** On `CrossedTwinsBoard`, `all_twins` holds exactly the pairs (F2, E2) and (A2, A1). */
  lemma {:induction false} CrossedTwinsMembers(v: Board)
    requires IsCrossedTwinsBoard(v)
    ensures forall t :: t in Twins(v) <==> t == ("F2", "E2") || t == ("A2", "A1")
  {
    TwinsMeaning(v);
    forall t | t in Twins(v) ensures t == ("F2", "E2") || t == ("A2", "A1") {
      CrossedTwinsOnly(v, t);
    }
    CrossedTwinPresent(v, "F2", "E2");
    CrossedTwinPresent(v, "A2", "A1");
  }

  /** A pair of `CrossedTwinsBoard` that `all_twins` records. */
  lemma {:induction false} CrossedTwinPresent(v: Board, a: string, b: string)
    requires IsCrossedTwinsBoard(v)
    requires (a, b) == ("F2", "E2") || (a, b) == ("A2", "A1")
    ensures (a, b) in Twins(v)
  {
    PeersOfBox(a, b);
    assert IsBox(a) && IsBox(b) && NameBefore(b, a);
    assert v[a] == CrossedValue(a) && v[b] == CrossedValue(b);
    TwinRecorded(v, a, b);
  }

  /** Two peer twins are recorded, the later box first. */
  lemma {:induction false} TwinRecorded(values: Board, a: string, b: string)
    requires IsBoard(values) && IsBox(a) && IsBox(b) && b in Peers(a)
    requires |values[a]| == 2 && values[b] == values[a] && NameBefore(b, a)
    ensures (a, b) in Twins(values)
  {
    TwinsMeaning(values);
  }

  /** A pair of twins of `CrossedTwinsBoard`, later box first, is one of the two. */
  lemma {:induction false} CrossedTwinsOnly(v: Board, t: Pair)
    requires IsCrossedTwinsBoard(v)
    requires IsBox(t.0) && IsBox(t.1) && t.1 in Peers(t.0) && |v[t.0]| == 2 && v[t.1] == v[t.0]
    requires NameBefore(t.1, t.0)
    ensures t == ("F2", "E2") || t == ("A2", "A1")
  {
    assert v[t.0] == CrossedValue(t.0) && v[t.1] == CrossedValue(t.1);
    assert t.1 != t.0;
    if v[t.0] == "12" {
      assert t.0 == "A2" && t.1 == "A1";
    } else {
      assert t.0 == "F2" && t.1 == "E2";
    }
  }

  /** On `CrossedTwinsBoard`, `all_twins` is the list [(F2, E2), (A2, A1)]. */
  lemma {:induction false} CrossedTwinsList(v: Board)
    requires IsCrossedTwinsBoard(v)
    ensures Twins(v) == [("F2", "E2"), ("A2", "A1")]
  {
    CrossedTwinsMembers(v);
    TwinsDistinct(v);
    TwinsOrder(v);
    assert IsBox("A2") && IsBox("F2") && NameBefore("A2", "F2");
    TwoPairList(Twins(v), ("F2", "E2"), ("A2", "A1"));
  }

  /** A list without repeats, in `LaterFirst` order, that holds just two pairs with different heads. */
  lemma {:induction false} TwoPairList(r: seq<Pair>, p: Pair, q: Pair)
    requires (forall t :: t in r ==> IsBox(t.0)) && Distinct(r) && LaterFirst(r)
    requires forall t :: t in r <==> t == p || t == q
    requires IsBox(p.0) && IsBox(q.0) && p.0 != q.0 && NameBefore(q.0, p.0)
    ensures r == [p, q]
  {
    assert p in r && q in r;
    var i :| 0 <= i < |r| && r[i] == p;
    var j :| 0 <= j < |r| && r[j] == q;
    DistinctCard(r);
    assert (set x | x in r) == {p, q};
    assert |r| == 2;
    assert i != j;
    assert |r| == 2 && i == 0 && j == 1;
  }

  /**
   * On `CrossedTwinsBoard`, `naked_twins` leaves a twin digit in a common peer
   * of the twins A1 and A2.  The pair (F2, E2) comes first and narrows A2 to
   * "1"; the pair (A2, A1) then strips only '1', so A3 keeps '2'.
   */
  lemma {:induction false} NakedTwinsKeepsTwinDigit(v: Board)
    requires IsCrossedTwinsBoard(v)
    ensures var kept := StripAll(v, Twins(v)); IsBox("A3") && '2' in kept["A3"]
    ensures ("A2", "A1") in Twins(v) && "A3" in Peers("A1") && "A3" in Peers("A2")
  {
    CrossedTwinsList(v);
    CrossedBoardAt(v);
    CrossedPeers();
    var p1, p2 := ("F2", "E2"), ("A2", "A1");
    assert p2 in Twins(v);
    CrossedTwinsRun(v, p1, p2);
    var w := StripPair(v, p1);
    StripPairAtCommon(v, p1, "A2");
    StripPairAtOther(v, p1, "A3");
    assert '2' !in w["A2"] && '2' in w["A3"];
    StripPairAtCommon(w, p2, "A3");
  }

  /**
   * Taking the pairs of `CrossedTwinsBoard` the other way round, (A2, A1)
   * first, would have removed '2' from A3.
   */
  lemma {:induction false} SwappedTwinsStripDigit(v: Board)
    requires IsCrossedTwinsBoard(v)
    ensures var swapped := StripAll(v, [("A2", "A1"), ("F2", "E2")]); IsBox("A3") && '2' !in swapped["A3"]
  {
    CrossedBoardAt(v);
    CrossedPeers();
    var p1, p2 := ("F2", "E2"), ("A2", "A1");
    CrossedTwinsRun(v, p2, p1);
    var u := StripPair(v, p2);
    StripPairAtCommon(v, p2, "A3");
    StripPairAtOther(u, p1, "A3");
  }

  /** The strings of `CrossedTwinsBoard` at the boxes the counterexample uses. */
  lemma {:induction false} CrossedBoardAt(v: Board)
    requires IsCrossedTwinsBoard(v)
    ensures "A1" in v && "A2" in v && "A3" in v
    ensures v["A1"] == "12" && v["A2"] == "12" && v["A3"] == Digits
  {
    CrossedBoxAt(v, "A1");
    CrossedBoxAt(v, "A2");
    CrossedBoxAt(v, "A3");
    assert CrossedValue("A3") == Digits;
  }

  /** Each box of `CrossedTwinsBoard` holds its `CrossedValue`. */
  lemma {:induction false} CrossedBoxAt(v: Board, s: string)
    requires IsCrossedTwinsBoard(v)
    ensures IsBox(s) ==> s in v && v[s] == CrossedValue(s)
  {
  }

  /** The peer facts the counterexample uses. */
  lemma {:induction false} CrossedPeers()
    ensures "A3" in Peers("A1") && "A3" in Peers("A2") && "A3" !in Peers("F2")
    ensures "A2" in Peers("F2") && "A2" in Peers("E2") && "A1" in Peers("A2")
  {
    PeersOfBox("A1", "A3");
    PeersOfBox("A2", "A3");
    PeersOfBox("F2", "A3");
    PeersOfBox("F2", "A2");
    PeersOfBox("E2", "A2");
    PeersOfBox("A2", "A1");
  }

  /** A common peer of a pair whose string differs from the first box's loses that string's characters. */
  lemma {:induction false} StripPairAtCommon(values: Board, t: Pair, x: string)
    requires t.0 in values && x in values
    requires x in Peers(t.0) && x in Peers(t.1) && values[x] != values[t.0]
    ensures StripPair(values, t)[x] == Without(values[x], Chars(values[t.0]))
  {
  }

  /** A box that is not a peer of the pair's first box keeps its string. */
  lemma {:induction false} StripPairAtOther(values: Board, t: Pair, x: string)
    requires t.0 in values && x in values && x !in Peers(t.0)
    ensures StripPair(values, t)[x] == values[x]
  {
  }

  /** Two pairs in a row: the fold is one `StripPair` after the other. */
  lemma {:induction false} CrossedTwinsRun(v: Board, p: Pair, q: Pair)
    requires IsBoard(v) && IsBox(p.0) && IsBox(q.0)
    ensures StripAll(v, [p, q]) == StripPair(StripPair(v, p), q)
  {
    var both, first := [p, q], [p];
    StripAllLast(v, both);
    StripAllLast(v, first);
    assert both[..1] == first && both[1] == q;
    assert first[..0] == [] && first[0] == p;
  }
}
