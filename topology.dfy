/**
 * The fixed geometry of the diagonal sudoku: the 81 boxes, the row, column
 * and square units, the unit list, the units and peers of each box, and the
 * two diagonals.  Boxes are named by two-character strings such as "A1"
 * (row letter, column digit), exactly as the program names them.
 */
module Topology {

  const Rows: string := "ABCDEFGHI"
  const Cols: string := "123456789"
  const Digits: string := "123456789"

  /** The row and column groups that make up the nine 3x3 squares. */
  const Bands: seq<string> := ["ABC", "DEF", "GHI"]
  const Stacks: seq<string> := ["123", "456", "789"]

  predicate Distinct<T(==)>(xs: seq<T>) {
    forall i, j :: 0 <= i < j < |xs| ==> xs[i] != xs[j]
  }

  /** Every two-character name s + t, s from `a` and t from `b`, `a` varying slowest. */
  function Cross(a: string, b: string): (r: seq<string>)
    ensures |r| == |a| * |b|
  {
    if a == [] then []
    else
      assert |a| * |b| == |b| + (|a| - 1) * |b|;
      seq(|b|, j requires 0 <= j < |b| => [a[0], b[j]]) + Cross(a[1..], b)
  }

  lemma {:induction false} CrossMembership(a: string, b: string)
    ensures forall s :: s in Cross(a, b) <==> |s| == 2 && s[0] in a && s[1] in b
  {
    if a != [] {
      CrossMembership(a[1..], b);
      var first := seq(|b|, j requires 0 <= j < |b| => [a[0], b[j]]);
      assert Cross(a, b) == first + Cross(a[1..], b);
      forall s | |s| == 2 && s[0] == a[0] && s[1] in b ensures s in first {
        var j :| 0 <= j < |b| && b[j] == s[1];
        assert s == first[j];
      }
    }
  }

  lemma {:induction false} CrossDistinct(a: string, b: string)
    requires Distinct(a) && Distinct(b)
    ensures Distinct(Cross(a, b))
  {
    if a != [] {
      CrossDistinct(a[1..], b);
      CrossMembership(a[1..], b);
      var r := Cross(a, b);
      var tail := Cross(a[1..], b);
      assert r[|b|..] == tail;
      forall i, j | 0 <= i < j < |r| ensures r[i] != r[j] {
        if j < |b| {
          assert r[i] == [a[0], b[i]] && r[j] == [a[0], b[j]];
        } else if i < |b| {
          assert r[i][0] == a[0];
          assert r[j] in tail;
          assert r[j][0] in a[1..];
        } else {
          assert r[i] == tail[i - |b|] && r[j] == tail[j - |b|];
        }
      }
    }
  }

  /** A box name: a row letter followed by a column digit. */
  predicate IsBox(s: string) {
    |s| == 2 && s[0] in Rows && s[1] in Cols
  }

  /** Zero-based row and column of a box. */
  function RowOf(s: string): int
    requires |s| == 2
  {
    s[0] as int - 'A' as int
  }

  function ColOf(s: string): int
    requires |s| == 2
  {
    s[1] as int - '1' as int
  }

  lemma {:induction false} RowsAndCols()
    ensures forall i :: 0 <= i < |Rows| ==> Rows[i] as int == 'A' as int + i
    ensures forall i :: 0 <= i < |Cols| ==> Cols[i] as int == '1' as int + i
    ensures forall c :: c in Rows <==> 'A' <= c <= 'I'
    ensures forall c :: c in Cols <==> '1' <= c <= '9'
    ensures Distinct(Rows) && Distinct(Cols)
  {}

  /** All 81 boxes in row-major order, the order of the program's `boxes`. */
  const Boxes: seq<string> := Cross(Rows, Cols)

  lemma {:induction false} BoxesFacts()
    ensures |Boxes| == 81 && Distinct(Boxes)
    ensures forall s :: s in Boxes <==> IsBox(s)
  {
    RowsAndCols();
    CrossDistinct(Rows, Cols);
    CrossMembership(Rows, Cols);
  }

  lemma {:induction false} BoxesLength()
    ensures |Boxes| == 81
  {
    BoxesFacts();
  }

  lemma {:induction false} BoxesMembers()
    ensures |Boxes| == 81
    ensures forall s :: s in Boxes <==> IsBox(s)
  {
    BoxesFacts();
  }

  lemma {:induction false} DistinctCard<T>(xs: seq<T>)
    requires Distinct(xs)
    ensures |set x | x in xs| == |xs|
  {
    if xs != [] {
      DistinctCard(xs[1..]);
      var rest := set x | x in xs[1..];
      assert (set x | x in xs) == {xs[0]} + rest;
      assert xs[0] !in rest;
    }
  }

  /** The name built from `a[i]` and `b[j]` sits at index `i * |b| + j` of `cross(a, b)`. */
  lemma {:induction false} CrossAt(a: string, b: string, i: int, j: int)
    requires 0 <= i < |a| && 0 <= j < |b|
    ensures i * |b| + j < |Cross(a, b)| && Cross(a, b)[i * |b| + j] == [a[i], b[j]]
  {
    if i > 0 {
      CrossAt(a[1..], b, i - 1, j);
      assert i * |b| + j == |b| + ((i - 1) * |b| + j);
    }
  }

  /** The box at position k of `Boxes`: row k / 9, column k % 9. */
  lemma {:induction false} BoxAt(k: int)
    requires 0 <= k < 81
    ensures Boxes[k] == [Rows[k / 9], Cols[k % 9]]
  {
    CrossAt(Rows, Cols, k / 9, k % 9);
  }

  /** The row-major position of a box in `boxes`. */
  function Position(s: string): (k: int)
    requires IsBox(s)
    ensures 0 <= k < 81
  {
    RowsAndCols();
    9 * RowOf(s) + ColOf(s)
  }

  /** `boxes` lists each box at its row-major position. */
  lemma {:induction false} BoxAtPosition(s: string)
    requires IsBox(s)
    ensures |Boxes| == 81 && Boxes[Position(s)] == s
  {
    BoxesLength();
    RowsAndCols();
    var k := Position(s);
    BoxAt(k);
    assert k / 9 == RowOf(s) && k % 9 == ColOf(s);
    SameName(Boxes[k], s);
  }

  /** Python's `<` on two box names: the row letter first, then the column digit. */
  predicate NameBefore(s: string, t: string)
    requires |s| == 2 && |t| == 2
  {
    s[0] < t[0] || (s[0] == t[0] && s[1] < t[1])
  }

  /** Two box names are equal, or one comes before the other. */
  lemma {:induction false} NameOrderTotal(a: string, b: string)
    requires |a| == 2 && |b| == 2
    ensures a == b || NameBefore(a, b) || NameBefore(b, a)
  {
    if a[0] == b[0] && a[1] == b[1] {
      SameName(a, b);
    }
  }

  /** Strictly ascending characters, as in `rows` and `cols`. */
  predicate Ascending(s: string) {
    forall i, j :: 0 <= i < j < |s| ==> s[i] < s[j]
  }

  /** Two-character names in strictly ascending name order. */
  predicate SortedNames(xs: seq<string>)
    requires forall x :: x in xs ==> |x| == 2
  {
    forall i, j :: 0 <= i < j < |xs| ==> NameBefore(xs[i], xs[j])
  }

  lemma {:induction false} SortedAppend(x: seq<string>, y: seq<string>)
    requires forall u :: u in x + y ==> |u| == 2
    requires SortedNames(x) && SortedNames(y)
    requires forall u, v :: u in x && v in y ==> NameBefore(u, v)
    ensures SortedNames(x + y)
  {
    var c := x + y;
    forall i, j | 0 <= i < j < |c| ensures NameBefore(c[i], c[j]) {
      if j < |x| {
        assert c[i] == x[i] && c[j] == x[j];
      } else if i < |x| {
        assert c[i] in x && c[j] in y;
      } else {
        assert c[i] == y[i - |x|] && c[j] == y[j - |x|];
      }
    }
  }

  /** `cross` of two ascending strings lists its names in ascending order. */
  lemma {:induction false} CrossSorted(a: string, b: string)
    requires Ascending(a) && Ascending(b)
    ensures forall x :: x in Cross(a, b) ==> |x| == 2
    ensures SortedNames(Cross(a, b))
  {
    CrossMembership(a, b);
    if a != [] {
      var first := seq(|b|, j requires 0 <= j < |b| => [a[0], b[j]]);
      var rest := Cross(a[1..], b);
      assert Cross(a, b) == first + rest;
      CrossSorted(a[1..], b);
      CrossMembership(a[1..], b);
      forall u, v | u in first && v in rest ensures NameBefore(u, v) {
        var k :| 0 <= k < |a[1..]| && a[1..][k] == v[0];
        assert a[k + 1] == v[0];
      }
      SortedAppend(first, rest);
    }
  }

  /** `boxes` is in ascending name order. */
  lemma {:induction false} BoxesSorted()
    ensures forall x :: x in Boxes ==> |x| == 2
    ensures SortedNames(Boxes)
  {
    RowsAndCols();
    CrossSorted(Rows, Cols);
  }

  /** A list of all the boxes, each once: the key order in which the program visits a board. */
  ghost predicate KeyOrder(keys: seq<string>) {
    Distinct(keys) && forall x :: x in keys <==> IsBox(x)
  }

  lemma {:induction false} BoxesKeyOrder()
    ensures KeyOrder(Boxes)
  {
    BoxesFacts();
  }

  /** The boxes of a set in row-major order: the order in which the model visits a set of boxes. */
  function Ordered(xs: seq<string>, S: set<string>): (r: seq<string>)
    ensures forall x :: x in r <==> x in xs && x in S
    ensures Distinct(xs) ==> Distinct(r)
  {
    if xs == [] then []
    else if xs[0] in S then [xs[0]] + Ordered(xs[1..], S)
    else Ordered(xs[1..], S)
  }

  function RowUnits(): (r: seq<seq<string>>)
    ensures |r| == 9
  {
    seq(|Rows|, i requires 0 <= i < |Rows| => Cross([Rows[i]], Cols))
  }

  function ColumnUnits(): (r: seq<seq<string>>)
    ensures |r| == 9
  {
    seq(|Cols|, i requires 0 <= i < |Cols| => Cross(Rows, [Cols[i]]))
  }

  function SquareUnits(): (r: seq<seq<string>>)
    ensures |r| == 9
  {
    seq(|Bands| * |Stacks|, k requires 0 <= k < |Bands| * |Stacks| => Cross(Bands[k / |Stacks|], Stacks[k % |Stacks|]))
  }

  /** Rows, then columns, then squares: 27 units.  The diagonals are not in it. */
  const UnitList: seq<seq<string>> := RowUnits() + ColumnUnits() + SquareUnits()

  /** The units that contain `s`, in unit-list order. */
  function Containing(us: seq<seq<string>>, s: string): (r: seq<seq<string>>)
    ensures forall u :: u in r <==> u in us && s in u
  {
    if us == [] then []
    else (if s in us[0] then [us[0]] else []) + Containing(us[1..], s)
  }

  function Units(s: string): (r: seq<seq<string>>)
    ensures forall u :: u in r <==> u in UnitList && s in u
  {
    Containing(UnitList, s)
  }

  /** The concatenation of a list of units (the program's `sum(units[s], [])`). */
  function Flatten(us: seq<seq<string>>): (r: seq<string>)
    ensures forall x :: x in r <==> exists u :: u in us && x in u
  {
    if us == [] then []
    else
      assert forall u :: u in us <==> u == us[0] || u in us[1..];
      us[0] + Flatten(us[1..])
  }

  /** Every other box in some unit of `s`. */
  function Peers(s: string): (r: set<string>)
    ensures s !in r
  {
    (set x | x in Flatten(Units(s))) - {s}
  }

  predicate SameSquare(s: string, p: string)
    requires |s| == 2 && |p| == 2
  {
    RowOf(s) / 3 == RowOf(p) / 3 && ColOf(s) / 3 == ColOf(p) / 3
  }

  /** Index of the square unit of a box in `SquareUnits()`. */
  function SquareOf(s: string): int
    requires |s| == 2
  {
    3 * (RowOf(s) / 3) + ColOf(s) / 3
  }

  lemma {:induction false} BandsAndStacks()
    ensures forall b, c :: 0 <= b < 3 ==> (c in Bands[b] <==> c in Rows && (c as int - 'A' as int) / 3 == b)
    ensures forall b, c :: 0 <= b < 3 ==> (c in Stacks[b] <==> c in Cols && (c as int - '1' as int) / 3 == b)
    ensures forall b :: 0 <= b < 3 ==> |Bands[b]| == 3 && |Stacks[b]| == 3 && Distinct(Bands[b]) && Distinct(Stacks[b])
  {}

  lemma {:induction false} InRowUnit(x: string, i: int)
    requires 0 <= i < 9
    ensures x in RowUnits()[i] <==> IsBox(x) && RowOf(x) == i
  {
    var r := Rows[i];
    assert r as int == 'A' as int + i by {
      RowsAndCols();
    }
    assert RowUnits()[i] == Cross([r], Cols);
    CrossMembership([r], Cols);
    if IsBox(x) && RowOf(x) == i {
      SameChar(x[0], r);
    }
  }

  lemma {:induction false} InColumnUnit(x: string, j: int)
    requires 0 <= j < 9
    ensures x in ColumnUnits()[j] <==> IsBox(x) && ColOf(x) == j
  {
    ColumnMembership(ColumnUnits()[j], Cols[j], j, x);
  }

  lemma {:induction false} ColumnMembership(u: seq<string>, d: char, j: int, x: string)
    requires 0 <= j < 9 && u == ColumnUnits()[j] && d == Cols[j]
    ensures x in u <==> IsBox(x) && ColOf(x) == j
  {
    assert d as int == '1' as int + j by {
      RowsAndCols();
    }
    assert x in u <==> |x| == 2 && x[0] in Rows && x[1] == d by {
      assert u == Cross(Rows, [d]);
      CrossMembership(Rows, [d]);
    }
    if IsBox(x) && ColOf(x) == j {
      SameChar(x[1], d);
    }
  }

  lemma {:induction false} SameChar(a: char, b: char)
    requires a as int == b as int
    ensures a == b
  {}

  lemma {:induction false} SquareIndex(r: int, c: int, k: int)
    requires 0 <= r < 9 && 0 <= c < 9 && 0 <= k < 9
    ensures 3 * (r / 3) + c / 3 == k <==> r / 3 == k / 3 && c / 3 == k % 3
  {}

  lemma {:induction false} InSquareUnit(x: string, k: int)
    requires 0 <= k < 9
    ensures x in SquareUnits()[k] <==> IsBox(x) && SquareOf(x) == k
  {
    SquareMembership(SquareUnits()[k], Bands[k / 3], Stacks[k % 3], k, x);
  }

  lemma {:induction false} SquareMembership(u: seq<string>, band: string, stack: string, k: int, x: string)
    requires 0 <= k < 9 && u == SquareUnits()[k] && band == Bands[k / 3] && stack == Stacks[k % 3]
    ensures x in u <==> IsBox(x) && SquareOf(x) == k
  {
    assert x in u <==> |x| == 2 && x[0] in band && x[1] in stack by {
      assert u == Cross(band, stack);
      CrossMembership(band, stack);
    }
    BandsAndStacks();
    RowsAndCols();
    if IsBox(x) {
      SquareIndex(RowOf(x), ColOf(x), k);
    }
  }

  /** `Containing` distributes over concatenation. */
  lemma {:induction false} ContainingAppend(a: seq<seq<string>>, b: seq<seq<string>>, s: string)
    ensures Containing(a + b, s) == Containing(a, s) + Containing(b, s)
  {
    if a != [] {
      assert (a + b)[0] == a[0];
      assert (a + b)[1..] == a[1..] + b;
      ContainingAppend(a[1..], b, s);
      var head := if s in a[0] then [a[0]] else [];
      calc {
        Containing(a + b, s);
        head + Containing(a[1..] + b, s);
        head + (Containing(a[1..], s) + Containing(b, s));
        (head + Containing(a[1..], s)) + Containing(b, s);
        Containing(a, s) + Containing(b, s);
      }
    } else {
      assert a + b == b;
    }
  }

  /** When exactly the unit at index i contains s, the filter keeps just that unit. */
  lemma {:induction false} ContainingOne(us: seq<seq<string>>, s: string, i: int)
    requires 0 <= i < |us|
    requires forall k :: 0 <= k < |us| ==> (s in us[k] <==> k == i)
    ensures Containing(us, s) == [us[i]]
  {
    if i == 0 {
      ContainingNone(us[1..], s);
    } else {
      ContainingOne(us[1..], s, i - 1);
    }
  }

  lemma {:induction false} ContainingNone(us: seq<seq<string>>, s: string)
    requires forall k :: 0 <= k < |us| ==> s !in us[k]
    ensures Containing(us, s) == []
  {
    if us != [] {
      ContainingNone(us[1..], s);
    }
  }

  lemma {:induction false} RowUnitsOf(s: string)
    requires IsBox(s)
    ensures 0 <= RowOf(s) < 9
    ensures Containing(RowUnits(), s) == [RowUnits()[RowOf(s)]]
  {
    RowsAndCols();
    forall k | 0 <= k < 9 ensures s in RowUnits()[k] <==> k == RowOf(s) {
      InRowUnit(s, k);
    }
    ContainingOne(RowUnits(), s, RowOf(s));
  }

  lemma {:induction false} ColumnUnitsOf(s: string)
    requires IsBox(s)
    ensures 0 <= ColOf(s) < 9
    ensures Containing(ColumnUnits(), s) == [ColumnUnits()[ColOf(s)]]
  {
    RowsAndCols();
    forall k | 0 <= k < 9 ensures s in ColumnUnits()[k] <==> k == ColOf(s) {
      InColumnUnit(s, k);
    }
    ContainingOne(ColumnUnits(), s, ColOf(s));
  }

  lemma {:induction false} SquareUnitsOf(s: string)
    requires IsBox(s)
    ensures 0 <= SquareOf(s) < 9
    ensures Containing(SquareUnits(), s) == [SquareUnits()[SquareOf(s)]]
  {
    RowsAndCols();
    forall k | 0 <= k < 9 ensures s in SquareUnits()[k] <==> k == SquareOf(s) {
      InSquareUnit(s, k);
    }
    ContainingOne(SquareUnits(), s, SquareOf(s));
  }

  /** Every box lies in exactly three units: its row, its column and its square, in that order. */
  lemma {:induction false} UnitsOfBox(s: string)
    requires IsBox(s)
    ensures 0 <= RowOf(s) < 9 && 0 <= ColOf(s) < 9 && 0 <= SquareOf(s) < 9
    ensures Units(s) == [RowUnits()[RowOf(s)], ColumnUnits()[ColOf(s)], SquareUnits()[SquareOf(s)]]
    ensures |Units(s)| == 3
  {
    var R, C, S := RowUnits(), ColumnUnits(), SquareUnits();
    ContainingAppend(R + C, S, s);
    ContainingAppend(R, C, s);
    RowUnitsOf(s);
    ColumnUnitsOf(s);
    SquareUnitsOf(s);
    var x, y, z := R[RowOf(s)], C[ColOf(s)], S[SquareOf(s)];
    assert UnitList == R + C + S;
    assert Units(s) == Containing(R + C, s) + Containing(S, s);
    assert Containing(R + C, s) == [x] + [y];
    ThreeElements(x, y, z);
  }

  lemma {:induction false} ThreeElements<T>(x: T, y: T, z: T)
    ensures [x] + [y] + [z] == [x, y, z]
  {}

  /** The peer relation in terms of rows, columns and squares. */
  lemma {:induction false} PeersOfBox(s: string, p: string)
    requires IsBox(s)
    ensures p in Peers(s) <==> IsBox(p) && p != s && (p[0] == s[0] || p[1] == s[1] || SameSquare(s, p))
  {
    PeersAsUnits(s, p);
    InRowUnit(p, RowOf(s));
    InColumnUnit(p, ColOf(s));
    InSquareUnit(p, SquareOf(s));
    if IsBox(p) {
      SameLines(s, p);
    }
  }

  /** The peers of a box are the other members of its row, column and square units. */
  lemma {:induction false} PeersAsUnits(s: string, p: string)
    requires IsBox(s)
    ensures 0 <= RowOf(s) < 9 && 0 <= ColOf(s) < 9 && 0 <= SquareOf(s) < 9
    ensures p in Peers(s) <==>
      p != s && (p in RowUnits()[RowOf(s)] || p in ColumnUnits()[ColOf(s)] || p in SquareUnits()[SquareOf(s)])
  {
    UnitsOfBox(s);
    var a, b, c := RowUnits()[RowOf(s)], ColumnUnits()[ColOf(s)], SquareUnits()[SquareOf(s)];
    FlattenThree(a, b, c);
  }

  /** Two boxes share a row, a column or a square exactly when their indices agree. */
  lemma {:induction false} SameLines(s: string, p: string)
    requires IsBox(s) && IsBox(p)
    ensures RowOf(p) == RowOf(s) <==> p[0] == s[0]
    ensures ColOf(p) == ColOf(s) <==> p[1] == s[1]
    ensures SquareOf(p) == SquareOf(s) <==> SameSquare(s, p)
  {
    if RowOf(p) == RowOf(s) {
      SameChar(p[0], s[0]);
    }
    if ColOf(p) == ColOf(s) {
      SameChar(p[1], s[1]);
    }
    RowsAndCols();
    SameSquareIndex(RowOf(s), ColOf(s), RowOf(p), ColOf(p));
  }

  lemma {:induction false} SameSquareIndex(r: int, c: int, r': int, c': int)
    requires 0 <= r < 9 && 0 <= c < 9 && 0 <= r' < 9 && 0 <= c' < 9
    ensures 3 * (r' / 3) + c' / 3 == 3 * (r / 3) + c / 3 <==> r / 3 == r' / 3 && c / 3 == c' / 3
  {
    var k := 3 * (r / 3) + c / 3;
    SquareIndex(r, c, k);
    SquareIndex(r', c', k);
  }

  /** The peer relation is irreflexive and symmetric, and relates boxes only. */
  lemma {:induction false} PeersSymmetric(s: string, p: string)
    requires IsBox(s)
    ensures s !in Peers(s)
    ensures p in Peers(s) ==> IsBox(p) && s in Peers(p)
  {
    PeersOfBox(s, p);
    if p in Peers(s) {
      PeersOfBox(p, s);
    }
  }

  /** The peers of a box are other boxes, each of which has the box among its own peers. */
  lemma {:induction false} PeersOf(s: string)
    requires IsBox(s)
    ensures s !in Peers(s)
    ensures forall p :: p in Peers(s) ==> IsBox(p) && s in Peers(p)
  {
    forall p | p in Peers(s) ensures IsBox(p) && s in Peers(p) {
      PeersSymmetric(s, p);
    }
    PeersSymmetric(s, s);
  }

  lemma {:induction false} AllPeersSymmetric()
    ensures forall s, p {:trigger p in Peers(s)} :: IsBox(s) && p in Peers(s) ==> s in Peers(p)
  {
    forall s, p | IsBox(s) && p in Peers(s) ensures s in Peers(p) {
      PeersSymmetric(s, p);
    }
  }

  lemma {:induction false} CrossCard(a: string, b: string)
    requires Distinct(a) && Distinct(b)
    ensures |set x | x in Cross(a, b)| == |a| * |b|
  {
    CrossDistinct(a, b);
    DistinctCard(Cross(a, b));
  }

  /** Two box names with the same row letter and column digit are the same name. */
  lemma {:induction false} SameName(x: string, s: string)
    requires |x| == 2 && |s| == 2 && x[0] == s[0] && x[1] == s[1]
    ensures x == s
  {
    assert x == [x[0], x[1]] && s == [s[0], s[1]];
  }

  /** Two crosses meet in the cross of the common row letters and common column digits. */
  lemma {:induction false} CrossMeet(a1: string, b1: string, a2: string, b2: string, a: string, b: string)
    requires forall c :: c in a <==> c in a1 && c in a2
    requires forall c :: c in b <==> c in b1 && c in b2
    ensures (set x | x in Cross(a1, b1)) * (set x | x in Cross(a2, b2)) == set x | x in Cross(a, b)
  {
    CrossMembership(a1, b1);
    CrossMembership(a2, b2);
    CrossMembership(a, b);
  }

  lemma {:induction false} CrossOfOne(r: char, c: char)
    ensures (set x | x in Cross([r], [c])) == {[r, c]}
  {
    CrossMembership([r], [c]);
    forall x | x in Cross([r], [c]) ensures x == [r, c] {
      SameName(x, [r, c]);
    }
  }

  /** Inclusion and exclusion for three units of nine boxes that overlap like a row, a column and a square. */
  lemma {:induction false} ThreeUnitsCard(s: string, R: set<string>, C: set<string>, S: set<string>)
    requires |R| == 9 && |C| == 9 && |S| == 9
    requires R * C == {s} && |R * S| == 3 && |C * S| == 3 && (R * S) * (C * S) == {s}
    ensures |R + C + S| == 21
  {
    assert (R + C) * S == R * S + C * S;
    assert |R + C| == 17;
    assert |R * S + C * S| == 5;
  }

  lemma {:induction false} FlattenThree(a: seq<string>, b: seq<string>, c: seq<string>)
    ensures (set x | x in Flatten([a, b, c])) == (set x | x in a) + (set x | x in b) + (set x | x in c)
  {
    var us := [a, b, c];
    assert us[1..] == [b, c] && us[1..][1..] == [c] && us[1..][1..][1..] == [];
    assert Flatten([c]) == c + Flatten([]);
    assert Flatten([b, c]) == b + Flatten([c]);
    assert Flatten(us) == a + Flatten([b, c]);
  }

  /** The three units of a box, written as crosses of its own row letter, column digit, band and stack. */
  lemma {:induction false} UnitCrosses(s: string)
    requires IsBox(s)
    ensures 0 <= RowOf(s) < 9 && 0 <= ColOf(s) < 9 && 0 <= SquareOf(s) < 9
    ensures RowUnits()[RowOf(s)] == Cross([s[0]], Cols)
    ensures ColumnUnits()[ColOf(s)] == Cross(Rows, [s[1]])
    ensures SquareUnits()[SquareOf(s)] == Cross(Bands[RowOf(s) / 3], Stacks[ColOf(s) / 3])
  {
    RowsAndCols();
    var i, j := RowOf(s), ColOf(s);
    assert Rows[i] == s[0];
    assert Cols[j] == s[1];
    SquareIndex(i, j, SquareOf(s));
  }

  /** The union of the three units of a box, as sets of crosses. */
  lemma {:induction false} UnitsUnion(s: string) returns (R: set<string>, C: set<string>, S: set<string>)
    requires IsBox(s)
    ensures R == set x | x in Cross([s[0]], Cols)
    ensures C == set x | x in Cross(Rows, [s[1]])
    ensures S == set x | x in Cross(Bands[RowOf(s) / 3], Stacks[ColOf(s) / 3])
    ensures Peers(s) == (R + C + S) - {s} && s in R
  {
    UnitsOfBox(s);
    UnitCrosses(s);
    var a, b, c := RowUnits()[RowOf(s)], ColumnUnits()[ColOf(s)], SquareUnits()[SquareOf(s)];
    R := set x | x in a;
    C := set x | x in b;
    S := set x | x in c;
    FlattenThree(a, b, c);
    InRowUnit(s, RowOf(s));
  }

  /** Every box has exactly 20 peers: 8 in its row, 8 in its column, 4 more in its square. */
  lemma {:induction false} PeerCount(s: string)
    requires IsBox(s)
    ensures |Peers(s)| == 20
  {
    var R, C, S := UnitsUnion(s);
    UnitsCard(s, R, C, S);
    RemoveOne(R + C + S, s);
  }

  lemma {:induction false} RemoveOne<T>(U: set<T>, s: T)
    requires s in U
    ensures |U - {s}| == |U| - 1
  {}

  /** The row, column and square of a box cover 21 boxes. */
  lemma {:induction false} UnitsCard(s: string, R: set<string>, C: set<string>, S: set<string>)
    requires IsBox(s)
    requires R == set x | x in Cross([s[0]], Cols)
    requires C == set x | x in Cross(Rows, [s[1]])
    requires S == set x | x in Cross(Bands[RowOf(s) / 3], Stacks[ColOf(s) / 3])
    ensures |R + C + S| == 21
  {
    RowsAndCols();
    BandsAndStacks();
    var r, c := s[0], s[1];
    var band, stack := Bands[RowOf(s) / 3], Stacks[ColOf(s) / 3];
    CrossCard([r], Cols);
    CrossCard(Rows, [c]);
    CrossCard(band, stack);
    CrossCard([r], stack);
    CrossCard(band, [c]);
    CrossMeet([r], Cols, Rows, [c], [r], [c]);
    CrossMeet([r], Cols, band, stack, [r], stack);
    CrossMeet(Rows, [c], band, stack, band, [c]);
    CrossMeet([r], stack, band, [c], [r], [c]);
    CrossOfOne(r, c);
    SameName([r, c], s);
    assert |R| == 9;
    assert |C| == 9;
    assert |S| == 9;
    assert R * C == {s};
    assert |band| == 3 && |stack| == 3;
    assert |set x | x in Cross([r], stack)| == 3;
    assert |set x | x in Cross(band, [c])| == 3;
    assert R * S == set x | x in Cross([r], stack);
    assert C * S == set x | x in Cross(band, [c]);
    assert |R * S| == 3;
    assert |C * S| == 3;
    assert (R * S) * (C * S) == {s};
    ThreeUnitsCard(s, R, C, S);
  }

  /** The two diagonals, as the program builds them by zipping rows (forwards, then reversed) with columns. */
  function Zip(a: string, b: string): (r: seq<string>)
    requires |a| == |b|
    ensures |r| == |a|
  {
    seq(|a|, i requires 0 <= i < |a| => [a[i], b[i]])
  }

  function Reverse(s: string): (r: string)
    ensures |r| == |s|
  {
    seq(|s|, i requires 0 <= i < |s| => s[|s| - 1 - i])
  }

  const Diagonal1: seq<string> := Zip(Rows, Cols)
  const Diagonal2: seq<string> := Zip(Reverse(Rows), Cols)

  /** Diagonal1 runs A1, B2, ..., I9; Diagonal2 runs I1, H2, ..., A9. */
  lemma {:induction false} DiagonalMembership(x: string)
    ensures x in Diagonal1 <==> IsBox(x) && RowOf(x) == ColOf(x)
    ensures x in Diagonal2 <==> IsBox(x) && RowOf(x) + ColOf(x) == 8
    ensures Diagonal1[0] == "A1" && Diagonal1[8] == "I9"
    ensures Diagonal2[0] == "I1" && Diagonal2[8] == "A9"
  {
    RowsAndCols();
    if IsBox(x) && RowOf(x) == ColOf(x) {
      assert x == Diagonal1[RowOf(x)];
    }
    if IsBox(x) && RowOf(x) + ColOf(x) == 8 {
      assert x == Diagonal2[ColOf(x)];
    }
  }

  /** The diagonals cross only at the centre box E5, and neither is a unit of the unit list. */
  lemma {:induction false} DiagonalsShape(x: string)
    ensures x in Diagonal1 && x in Diagonal2 <==> x == "E5"
    ensures |Diagonal1| == 9 && |Diagonal2| == 9
    ensures Diagonal1 !in UnitList && Diagonal2 !in UnitList
  {
    DiagonalMembership(x);
    if x in Diagonal1 && x in Diagonal2 {
      SameName(x, "E5");
    }
    DiagonalMembership("E5");
    NoUnitHolds("A1", "I9");
    NoUnitHolds("I1", "A9");
  }

  /** Two boxes in different rows, columns and squares share no unit. */
  lemma {:induction false} NoUnitHolds(a: string, b: string)
    requires IsBox(a) && IsBox(b)
    requires RowOf(a) != RowOf(b) && ColOf(a) != ColOf(b) && SquareOf(a) != SquareOf(b)
    ensures forall u :: u in UnitList ==> !(a in u && b in u)
  {
    forall u | u in UnitList ensures !(a in u && b in u) {
      if u in RowUnits() {
        var i :| 0 <= i < 9 && RowUnits()[i] == u;
        InRowUnit(a, i);
        InRowUnit(b, i);
      } else if u in ColumnUnits() {
        var j :| 0 <= j < 9 && ColumnUnits()[j] == u;
        InColumnUnit(a, j);
        InColumnUnit(b, j);
      } else {
        var k :| 0 <= k < 9 && SquareUnits()[k] == u;
        InSquareUnit(a, k);
        InSquareUnit(b, k);
      }
    }
  }

  /** Diagonal neighbours need not be peers: A1 and I9 share a diagonal but no unit. */
  lemma {:induction false} DiagonalNotPeers()
    ensures "A1" in Diagonal1 && "I9" in Diagonal1 && "I9" !in Peers("A1")
    ensures "I1" in Diagonal2 && "A9" in Diagonal2 && "A9" !in Peers("I1")
  {
    DiagonalMembership("A1");
    DiagonalMembership("I1");
    PeersOfBox("A1", "I9");
    PeersOfBox("I1", "A9");
  }

  /** `res.union(set(d))` when the block lies on diagonal d: the set Python builds and returns. */
  function DiagonalUnion(res: set<string>, block: string, d: seq<string>): (r: set<string>)
    ensures forall x :: x in r <==> x in res || (block in d && x in d)
  {
    if block in d then res + (set x | x in d) else res
  }

  /**
   * The program's diagonal-peer set.  Each `res.union(...)` builds a new set
   * that is never stored, so `res` stays empty and so does the result.
   */
  function DiagonalPeers(block: string): (res: set<string>)
    ensures res == {}
  {
    var res: set<string> := {};
    var discarded1 := DiagonalUnion(res, block, Diagonal1);
    var discarded2 := DiagonalUnion(res, block, Diagonal2);
    if res != {} then res - {block} else res
  }

  /**
   * What the discarded unions would have given: every box on a diagonal has
   * another box of that diagonal in the union, yet none of them is returned.
   * For A1 the union holds I9, which is neither a peer nor a diagonal peer.
   */
  lemma {:induction false} DiagonalPeersLost(block: string)
    requires block in Diagonal1 || block in Diagonal2
    ensures DiagonalPeers(block) == {}
    ensures exists x :: x != block && x in DiagonalUnion(DiagonalUnion({}, block, Diagonal1), block, Diagonal2)
    ensures var lost := DiagonalUnion(DiagonalUnion({}, "A1", Diagonal1), "A1", Diagonal2);
      "I9" in lost && "I9" !in Peers("A1") && "I9" !in DiagonalPeers("A1")
  {
    DiagonalNotPeers();
    DiagonalMembership("A1");
    DiagonalMembership("I1");
    var union := DiagonalUnion(DiagonalUnion({}, block, Diagonal1), block, Diagonal2);
    if block in Diagonal1 {
      var x := if block == Diagonal1[0] then Diagonal1[8] else Diagonal1[0];
      assert x in union;
    } else {
      var x := if block == Diagonal2[0] then Diagonal2[8] else Diagonal2[0];
      assert x in union;
    }
  }

  /** The diagonals that contain a box (zero, one, or both for E5). */
  function DiagonalUnitsSearch(block: string): (res: seq<seq<string>>)
    ensures forall u :: u in res <==> (u == Diagonal1 && block in Diagonal1) || (u == Diagonal2 && block in Diagonal2)
    ensures |res| <= 2
  {
    (if block in Diagonal1 then [Diagonal1] else []) + (if block in Diagonal2 then [Diagonal2] else [])
  }

  /** Every member of a unit is a box. */
  lemma {:induction false} UnitListBoxes()
    ensures forall u, x :: u in UnitList && x in u ==> IsBox(x)
  {
    forall u, x | u in UnitList && x in u ensures IsBox(x) {
      if u in RowUnits() {
        var i :| 0 <= i < 9 && RowUnits()[i] == u;
        InRowUnit(x, i);
      } else if u in ColumnUnits() {
        var j :| 0 <= j < 9 && ColumnUnits()[j] == u;
        InColumnUnit(x, j);
      } else {
        var k :| 0 <= k < 9 && SquareUnits()[k] == u;
        InSquareUnit(x, k);
      }
    }
  }

  /** Every member of a diagonal is a box. */
  lemma {:induction false} DiagonalBoxes()
    ensures forall x :: x in Diagonal1 ==> IsBox(x)
    ensures forall x :: x in Diagonal2 ==> IsBox(x)
  {
    forall x | x in Diagonal1 || x in Diagonal2 ensures IsBox(x) {
      DiagonalMembership(x);
    }
  }
}
