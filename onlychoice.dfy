/**
 * The only-choice rule (`only_choice`): an undecided box that is the only
 * box of one of its units still offering some digit is decided to that
 * digit.  The units scanned are the box's row, column and square and then
 * the diagonals through it.  Every test reads the board the pass was given;
 * the writes go to a copy, so the result does not depend on the order of
 * the boxes.  When several units of a box single out a digit, the write for
 * the last of them is the one that stays.
 */
module OnlyChoiceRule {
  import opened Topology
  import opened Domains
  import opened Boards

  /** The units scanned for a box: row, column and square, then the diagonals through it. */
  function BoxUnits(s: string): (r: seq<seq<string>>)
    ensures forall u :: u in r ==> s in u
    ensures forall u, x :: u in r && x in u ==> IsBox(x)
  {
    UnitListBoxes();
    DiagonalBoxes();
    Units(s) + DiagonalUnitsSearch(s)
  }

  /** The candidates offered by the boxes of unit u other than s (`b_square_values`). */
  function Others(values: Board, u: seq<string>, s: string): (r: set<char>)
    requires forall x :: x in u ==> x in values
    ensures forall p :: p in u && p != s ==> Chars(values[p]) <= r
  {
    if u == [] then {}
    else
      var init, p := u[..|u| - 1], u[|u| - 1];
      assert forall x :: x in init ==> x in u;
      Others(values, init, s) + (if p != s then Chars(values[p]) else {})
  }

  /** The digits of s that no other box of unit u offers (`choices`). */
  function Choices(values: Board, s: string, u: seq<string>): (r: set<char>)
    requires s in values
    requires forall x :: x in u ==> x in values
    ensures r <= Chars(values[s])
    ensures forall p :: p in u && p != s ==> r !! Chars(values[p])
  {
    Chars(values[s]) - Others(values, u, s)
  }

  /** A digit is among the others exactly when some other box of the unit offers it. */
  lemma {:induction false} OthersMeaning(values: Board, u: seq<string>, s: string, c: char)
    requires forall x :: x in u ==> x in values
    ensures c in Others(values, u, s) <==> exists p :: p in u && p != s && c in values[p]
  {
    if u != [] {
      var init, p := u[..|u| - 1], u[|u| - 1];
      assert forall x :: x in u <==> x in init || x == p;
      OthersMeaning(values, init, s, c);
    }
  }

  /** A choice of s in unit u is a candidate of s that no other box of u offers. */
  lemma {:induction false} ChoicesMeaning(values: Board, s: string, u: seq<string>, c: char)
    requires s in values
    requires forall x :: x in u ==> x in values
    ensures c in Choices(values, s, u) <==> c in values[s] && forall p :: p in u && p != s ==> c !in values[p]
  {
    OthersMeaning(values, u, s, c);
  }

  /** The choices of s in each unit of us, in scan order. */
  function ChoiceSets(values: Board, s: string, us: seq<seq<string>>): (r: seq<set<char>>)
    requires s in values
    requires forall u, x :: u in us && x in u ==> x in values
    ensures |r| == |us|
  {
    seq(|us|, k requires 0 <= k < |us| => Choices(values, s, us[k]))
  }

  /** The element of the last singleton in css, if there is one. */
  ghost function LastSingle(css: seq<set<char>>): Option<char> {
    if css == [] then None
    else if |css[|css| - 1]| == 1 then Some(TheElement(css[|css| - 1]))
    else LastSingle(css[..|css| - 1])
  }

  /** `LastSingle` finds the last singleton, and finds nothing exactly when there is none. */
  lemma {:induction false} LastSingleIsLast(css: seq<set<char>>)
    ensures LastSingle(css).Some? ==>
      exists k :: 0 <= k < |css| && css[k] == {LastSingle(css).value} &&
                  (forall j :: k < j < |css| ==> |css[j]| != 1)
    ensures LastSingle(css).None? <==> forall k :: 0 <= k < |css| ==> |css[k]| != 1
  {
    if css != [] {
      var n := |css| - 1;
      if |css[n]| == 1 {
        assert css[n] == {LastSingle(css).value};
      } else {
        LastSingleIsLast(css[..n]);
        LastSingleSkip(css);
      }
    }
  }

  /** A last set that is not a singleton is skipped: the search goes on in the sets before it. */
  lemma {:induction false} LastSingleSkip(css: seq<set<char>>)
    requires css != [] && |css[|css| - 1]| != 1
    requires var init := css[..|css| - 1];
      (LastSingle(init).Some? ==>
        exists k :: 0 <= k < |init| && init[k] == {LastSingle(init).value} &&
                    (forall j :: k < j < |init| ==> |init[j]| != 1)) &&
      (LastSingle(init).None? <==> forall k :: 0 <= k < |init| ==> |init[k]| != 1)
    ensures LastSingle(css).Some? ==>
      exists k :: 0 <= k < |css| && css[k] == {LastSingle(css).value} &&
                  (forall j :: k < j < |css| ==> |css[j]| != 1)
    ensures LastSingle(css).None? <==> forall k :: 0 <= k < |css| ==> |css[k]| != 1
  {
    var n := |css| - 1;
    var init := css[..n];
    assert LastSingle(css) == LastSingle(init);
    if LastSingle(css).Some? {
      var k :| 0 <= k < n && init[k] == {LastSingle(css).value} &&
               (forall j :: k < j < n ==> |init[j]| != 1);
      assert css[k] == init[k];
      forall j | k < j < |css| ensures |css[j]| != 1 {
        if j < n {
          assert css[j] == init[j];
        }
      }
    } else {
      forall k | 0 <= k < |css| ensures |css[k]| != 1 {
        if k < n {
          assert css[k] == init[k];
        }
      }
    }
  }

  /** The writes for box s, one per singleton in css, in order: `assign_value(new_values, box, choices.pop())`. */
  ghost function Fixes(s: string, css: seq<set<char>>): (r: seq<Edit>)
    ensures forall e :: e in r ==> e.Fix? && e.box == s
  {
    if css == [] then []
    else
      var init, cs := css[..|css| - 1], css[|css| - 1];
      Fixes(s, init) + (if |cs| == 1 then [Fix(s, TheElement(cs))] else [])
  }

  /** The last of the writes for s is the element of the last singleton. */
  lemma {:induction false} FixesLast(s: string, css: seq<set<char>>)
    ensures LastFix(Fixes(s, css), s) == LastSingle(css)
  {
    if css != [] {
      var init, cs := css[..|css| - 1], css[|css| - 1];
      FixesLast(s, init);
      var tail := if |cs| == 1 then [Fix(s, TheElement(cs))] else [];
      LastFixAppend(Fixes(s, init), tail, s);
      assert tail == [] || tail[..0] == [];
    }
  }

  /** The writes of the pass for one box. */
  ghost function BoxEdits(values: Board, s: string): (r: seq<Edit>)
    requires IsBoard(values) && IsBox(s)
    ensures forall e :: e in r ==> e.Fix? && e.box == s
  {
    Fixes(s, ChoiceSets(values, s, BoxUnits(s)))
  }

  /** The digit the last unit of s with exactly one choice singles out, if some unit does. */
  ghost function Chosen(values: Board, s: string): Option<char>
    requires IsBoard(values) && IsBox(s)
  {
    LastSingle(ChoiceSets(values, s, BoxUnits(s)))
  }

  /** The boxes of xs with more than one candidate, in order (the program's `boxes`). */
  function Undecided(values: Board, xs: seq<string>): (r: seq<string>)
    requires forall x :: x in xs ==> x in values
    ensures forall x :: x in r <==> x in xs && |values[x]| > 1
  {
    if xs == [] then []
    else (if |values[xs[0]]| > 1 then [xs[0]] else []) + Undecided(values, xs[1..])
  }

  /** Filtering keeps the order of xs: sorted keys give sorted undecided boxes. */
  lemma {:induction false} UndecidedSorted(values: Board, xs: seq<string>)
    requires forall x :: x in xs ==> |x| == 2 && x in values
    requires SortedNames(xs)
    ensures SortedNames(Undecided(values, xs))
  {
    if xs != [] {
      var tail := xs[1..];
      assert SortedNames(tail) by {
        forall i, j | 0 <= i < j < |tail| ensures NameBefore(tail[i], tail[j]) {
          assert tail[i] == xs[i + 1] && tail[j] == xs[j + 1];
        }
      }
      UndecidedSorted(values, tail);
      var r := Undecided(values, tail);
      var head := if |values[xs[0]]| > 1 then [xs[0]] else [];
      forall u, y | u in head && y in r ensures NameBefore(u, y) {
        var k :| 0 <= k < |tail| && tail[k] == y;
        assert xs[k + 1] == y;
      }
      SortedAppend(head, r);
    }
  }

  /** The writes of the pass over the boxes xs. */
  ghost function EditsOver(values: Board, xs: seq<string>): (r: seq<Edit>)
    requires IsBoard(values)
    requires forall x :: x in xs ==> IsBox(x)
    ensures forall e :: e in r ==> e.Fix? && e.box in xs
  {
    if xs == [] then []
    else
      var init, x := xs[..|xs| - 1], xs[|xs| - 1];
      assert forall y :: y in init ==> y in xs;
      EditsOver(values, init) + BoxEdits(values, x)
  }

  /** The writes of the whole pass, over the undecided boxes in key order. */
  ghost function OnlyChoiceEdits(values: Board): (r: seq<Edit>)
    requires IsBoard(values)
    ensures forall e :: e in r ==> e.Fix? && IsBox(e.box)
  {
    BoxesMembers();
    EditsOver(values, Undecided(values, Boxes))
  }

  /** The board after the pass, box by box. */
  ghost function OnlyChosen(values: Board): (r: Board)
    requires IsBoard(values)
    ensures IsBoard(r)
  {
    map s | s in values ::
      if |values[s]| > 1 then
        match Chosen(values, s)
        case None => values[s]
        case Some(d) => [d]
      else values[s]
  }

  /** `only_choice`: the pass itself, with the writes and the log it makes. */
  method OnlyChoice(values: Board, log: seq<Board>) returns (res: Board, log': seq<Board>)
    requires IsBoard(values)
    ensures Trace(res, log') == Run(Trace(values, log), OnlyChoiceEdits(values))
    ensures res == OnlyChosen(values)
    ensures log <= log' && |log'| == |log| + |OnlyChoiceEdits(values)|
  {
    BoxesMembers();
    var boxes := Undecided(values, Boxes);
    res, log' := OnlyChoiceOver(values, log, boxes);
    OnlyChoiceClosedForm(values, log);
    RunLog(Trace(values, log), OnlyChoiceEdits(values));
  }

  /** The outer loop of `only_choice`, over the undecided boxes in the order given. */
  method OnlyChoiceOver(values: Board, log: seq<Board>, boxes: seq<string>) returns (res: Board, log': seq<Board>)
    requires IsBoard(values)
    requires forall x :: x in boxes ==> IsBox(x)
    ensures Trace(res, log') == Run(Trace(values, log), EditsOver(values, boxes))
  {
    res, log' := values, log;
    for k := 0 to |boxes|
      invariant Trace(res, log') == Run(Trace(values, log), EditsOver(values, boxes[..k]))
    {
      var box := boxes[k];
      assert boxes[..k + 1][..k] == boxes[..k];
      res, log' := ChooseForBox(values, res, log', box, BoxUnits(box));
      RunAppend(Trace(values, log), EditsOver(values, boxes[..k]), BoxEdits(values, box));
    }
    assert boxes[..|boxes|] == boxes;
  }

  /**
   * The loop over the units of one box: every unit whose choices are a
   * single digit writes that digit to the board being built.
   */
  method ChooseForBox(values: Board, current: Board, log: seq<Board>, box: string, boxUnits: seq<seq<string>>)
    returns (res: Board, log': seq<Board>)
    requires IsBoard(values) && IsBox(box) && box in current
    requires forall u, x :: u in boxUnits && x in u ==> IsBox(x)
    ensures Trace(res, log') == Run(Trace(current, log), Fixes(box, ChoiceSets(values, box, boxUnits)))
  {
    ghost var css := ChoiceSets(values, box, boxUnits);
    res, log' := current, log;
    for i := 0 to |boxUnits|
      invariant Trace(res, log') == Run(Trace(current, log), Fixes(box, css[..i]))
    {
      FixesSnoc(box, css, i);
      var others := OthersInUnit(values, boxUnits[i], box);
      var choices := Chars(values[box]) - others;
      assert choices == css[i];
      if |choices| == 1 {
        var c :| c in choices;
        SingletonSet(choices, c);
        RunSnoc(Trace(current, log), Fixes(box, css[..i]), Fix(box, c));
        res, log' := AssignValue(res, log', box, [c]);
      }
    }
    assert css[..|css|] == css;
  }

  /** One more unit adds its write, if its choice set is a singleton, after the writes of the units before it. */
  lemma {:induction false} FixesSnoc(s: string, css: seq<set<char>>, i: int)
    requires 0 <= i < |css|
    ensures |css[i]| == 1 ==> Fixes(s, css[..i + 1]) == Fixes(s, css[..i]) + [Fix(s, TheElement(css[i]))]
    ensures |css[i]| != 1 ==> Fixes(s, css[..i + 1]) == Fixes(s, css[..i])
  {
    assert css[..i + 1][..i] == css[..i] && css[..i + 1][i] == css[i];
    assert Fixes(s, css[..i]) + [] == Fixes(s, css[..i]);
  }

  /** The innermost loop: the union of the candidates of the other boxes of a unit. */
  method OthersInUnit(values: Board, u: seq<string>, s: string) returns (others: set<char>)
    requires forall x :: x in u ==> x in values
    ensures others == Others(values, u, s)
  {
    others := {};
    for j := 0 to |u|
      invariant others == Others(values, u[..j], s)
    {
      assert u[..j + 1][..j] == u[..j];
      if u[j] != s {
        others := others + Chars(values[u[j]]);
      }
    }
    assert u[..|u| - 0] == u;
  }

  /** The last write aimed at p in a pass over xs is p's own choice, if p is among xs. */
  lemma {:induction false} EditsOverLast(values: Board, xs: seq<string>, p: string)
    requires IsBoard(values) && IsBox(p)
    requires forall x :: x in xs ==> IsBox(x)
    ensures LastFix(EditsOver(values, xs), p) == if p in xs then Chosen(values, p) else None
  {
    if xs != [] {
      var init, x := xs[..|xs| - 1], xs[|xs| - 1];
      assert forall y :: y in xs <==> y in init || y == x;
      EditsOverLast(values, init, p);
      LastFixAppend(EditsOver(values, init), BoxEdits(values, x), p);
      if x == p {
        FixesLast(p, ChoiceSets(values, p, BoxUnits(p)));
      } else {
        assert LastFix(BoxEdits(values, x), p) == None;
      }
    }
  }

  /** Carrying out the writes of a pass over the undecided boxes, in any key order, yields `OnlyChosen`. */
  lemma {:induction false} OnlyChoiceOverClosedForm(values: Board, log: seq<Board>, keys: seq<string>)
    requires IsBoard(values)
    requires forall x :: x in keys <==> IsBox(x)
    ensures Run(Trace(values, log), EditsOver(values, Undecided(values, keys))).board == OnlyChosen(values)
  {
    var xs := Undecided(values, keys);
    var r := Run(Trace(values, log), EditsOver(values, xs)).board;
    forall p | p in values ensures r[p] == OnlyChosen(values)[p] {
      RunFixes(Trace(values, log), EditsOver(values, xs), p);
      EditsOverLast(values, xs, p);
    }
  }

  lemma {:induction false} OnlyChoiceClosedForm(values: Board, log: seq<Board>)
    requires IsBoard(values)
    ensures Run(Trace(values, log), OnlyChoiceEdits(values)).board == OnlyChosen(values)
  {
    BoxesMembers();
    OnlyChoiceOverClosedForm(values, log, Boxes);
  }

  /** Over any units us: the last singleton choice set, if any, and none exactly when no unit has one. */
  lemma {:induction false} ChoiceSetsLast(values: Board, s: string, us: seq<seq<string>>)
    requires s in values
    requires forall u, x :: u in us && x in u ==> x in values
    ensures var c := LastSingle(ChoiceSets(values, s, us));
      (c.None? <==> forall k :: 0 <= k < |us| ==> |Choices(values, s, us[k])| != 1) &&
      (c.Some? ==> exists k :: 0 <= k < |us| && Choices(values, s, us[k]) == {c.value} &&
                               (forall j :: k < j < |us| ==> |Choices(values, s, us[j])| != 1))
  {
    var css := ChoiceSets(values, s, us);
    LastSingleIsLast(css);
    assert forall k :: 0 <= k < |us| ==> css[k] == Choices(values, s, us[k]);
  }

  /** `Chosen` is the single choice of the last unit that has exactly one, if any unit does. */
  lemma {:induction false} ChosenIsLast(values: Board, s: string)
    requires IsBoard(values) && IsBox(s)
    ensures var us := BoxUnits(s);
      (Chosen(values, s).None? <==> forall k :: 0 <= k < |us| ==> |Choices(values, s, us[k])| != 1)
    ensures var us := BoxUnits(s);
      Chosen(values, s).Some? ==>
        exists k :: 0 <= k < |us| && Choices(values, s, us[k]) == {Chosen(values, s).value} &&
                    (forall j :: k < j < |us| ==> |Choices(values, s, us[j])| != 1)
  {
    ChoiceSetsLast(values, s, BoxUnits(s));
  }

  /**
   * What the pass does to one undecided box s: if no unit of s has exactly
   * one choice the box keeps its candidates; otherwise it is decided to the
   * single choice of the last unit of `BoxUnits(s)` that has one.
   */
  lemma {:induction false} OnlyChosenAt(values: Board, s: string)
    requires IsBoard(values) && IsBox(s) && |values[s]| > 1
    ensures var us := BoxUnits(s);
      (OnlyChosen(values)[s] == values[s] <==> forall k :: 0 <= k < |us| ==> |Choices(values, s, us[k])| != 1)
    ensures var us := BoxUnits(s);
      OnlyChosen(values)[s] != values[s] ==>
        |OnlyChosen(values)[s]| == 1 &&
        exists k :: 0 <= k < |us| && Choices(values, s, us[k]) == {OnlyChosen(values)[s][0]} &&
                    (forall j :: k < j < |us| ==> |Choices(values, s, us[j])| != 1)
  {
    ChosenIsLast(values, s);
    var c := Chosen(values, s);
    assert OnlyChosen(values)[s] == if c.None? then values[s] else [c.value];
  }

  /** A box the pass changes is decided to one of its own candidates that no other box of some unit offers. */
  lemma {:induction false} OnlyChosenChanged(values: Board, s: string)
    requires IsBoard(values) && IsBox(s)
    requires OnlyChosen(values)[s] != values[s]
    ensures |values[s]| > 1 && |OnlyChosen(values)[s]| == 1
    ensures var d := OnlyChosen(values)[s][0];
      d in values[s] && exists u :: u in BoxUnits(s) && forall p :: p in u && p != s ==> d !in values[p]
  {
    OnlyChosenAt(values, s);
    var us := BoxUnits(s);
    var d := OnlyChosen(values)[s][0];
    var k :| 0 <= k < |us| && Choices(values, s, us[k]) == {d};
    SingleChoiceUnit(values, s, us, k, d);
  }

  /** A unit in which s alone offers d witnesses that d is a candidate of s no other box of the unit offers. */
  lemma {:induction false} SingleChoiceUnit(values: Board, s: string, us: seq<seq<string>>, k: int, d: char)
    requires s in values && forall u, x :: u in us && x in u ==> x in values
    requires 0 <= k < |us| && Choices(values, s, us[k]) == {d}
    ensures d in values[s] && exists u :: u in us && forall p :: p in u && p != s ==> d !in values[p]
  {
    var u := us[k];
    ChoicesMeaning(values, s, u, d);
    assert u in us;
  }

  /** Only boxes with more than one candidate can change; decided and empty boxes stay as they are. */
  lemma {:induction false} OnlyChosenKeepsSmall(values: Board, s: string)
    requires IsBoard(values) && IsBox(s) && |values[s]| <= 1
    ensures OnlyChosen(values)[s] == values[s]
  {}

  lemma {:induction false} OnlyChosenNarrows(values: Board, s: string)
    requires IsBoard(values) && IsBox(s)
    ensures Narrower(OnlyChosen(values)[s], values[s])
    ensures IsDomain(values[s]) ==> IsDomain(OnlyChosen(values)[s])
  {
    var r := OnlyChosen(values)[s];
    if r != values[s] {
      OnlyChosenChanged(values, s);
      assert r == [r[0]];
      if IsDomain(values[s]) {
        DomainDigit(values[s], r[0]);
      }
    }
  }

  /** The pass only narrows boxes, and keeps candidate strings candidate strings. */
  lemma {:induction false} OnlyChosenRefines(values: Board)
    requires IsBoard(values)
    ensures Refines(OnlyChosen(values), values)
    ensures WellFormed(values) ==> WellFormed(OnlyChosen(values))
  {
    forall s | s in values ensures Narrower(OnlyChosen(values)[s], values[s]) && (IsDomain(values[s]) ==> IsDomain(OnlyChosen(values)[s])) {
      OnlyChosenNarrows(values, s);
    }
  }

  /** The pass changes nothing exactly when no undecided box has a unit with exactly one choice. */
  lemma {:induction false} OnlyChosenFixpoint(values: Board)
    requires IsBoard(values)
    ensures OnlyChosen(values) == values <==>
      forall s, u {:trigger u in BoxUnits(s)} :: IsBox(s) && |values[s]| > 1 && u in BoxUnits(s) ==> |Choices(values, s, u)| != 1
  {
    if OnlyChosen(values) == values {
      FixpointNoSingle(values);
    }
    if forall s, u {:trigger u in BoxUnits(s)} :: IsBox(s) && |values[s]| > 1 && u in BoxUnits(s) ==> |Choices(values, s, u)| != 1 {
      NoSingleFixpoint(values);
    }
  }

  /** A board the pass leaves unchanged has no undecided box with a unit offering it exactly one choice. */
  lemma {:induction false} FixpointNoSingle(values: Board)
    requires IsBoard(values) && OnlyChosen(values) == values
    ensures forall s, u {:trigger u in BoxUnits(s)} :: IsBox(s) && |values[s]| > 1 && u in BoxUnits(s) ==> |Choices(values, s, u)| != 1
  {
    forall s, u | IsBox(s) && |values[s]| > 1 && u in BoxUnits(s) ensures |Choices(values, s, u)| != 1 {
      OnlyChosenAt(values, s);
      var k :| 0 <= k < |BoxUnits(s)| && BoxUnits(s)[k] == u;
    }
  }

  /** Without such a box, the pass changes nothing. */
  lemma {:induction false} NoSingleFixpoint(values: Board)
    requires IsBoard(values)
    requires forall s, u {:trigger u in BoxUnits(s)} :: IsBox(s) && |values[s]| > 1 && u in BoxUnits(s) ==> |Choices(values, s, u)| != 1
    ensures OnlyChosen(values) == values
  {
    var r := OnlyChosen(values);
    forall s | s in r ensures r[s] == values[s] {
      if |values[s]| > 1 {
        OnlyChosenAt(values, s);
        var us := BoxUnits(s);
        assert forall k :: 0 <= k < |us| ==> us[k] in BoxUnits(s);
      }
    }
    SameBoard(r, values);
  }
}
