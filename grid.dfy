/**
 * The grid parser (`grid_values`).
 *
 * A puzzle is written as a string read in row-major order: a digit is a
 * given, a '.' an open box, and every other character is skipped.  The
 * parser keeps one entry per digit or '.', insists on exactly 81 of them,
 * and pairs the k-th entry with the k-th box; an open box gets the full
 * candidate string "123456789".  The `assert` that fails on any other count
 * is modelled as the result `None`.
 */
module GridCodec {
  import opened Topology
  import opened Domains
  import opened Boards

  /** What one character adds to the parser's list: a digit itself, '.' the full string, anything else nothing. */
  function Token(c: char): (r: seq<string>)
    ensures |r| <= 1
    ensures |r| == 1 <==> c in Digits || c == '.'
    ensures c == '.' ==> r == [Digits]
  {
    (if c in Digits then [[c]] else []) + (if c == '.' then [Digits] else [])
  }

  /** The parser's list `chars` for a grid. */
  function Tokens(grid: string): (r: seq<string>)
    ensures |r| <= |grid|
    decreases |grid|
  {
    if grid == [] then []
    else Tokens(grid[..|grid| - 1]) + Token(grid[|grid| - 1])
  }

  /** `dict(zip(keys, chars))`. */
  function ZipBoard(keys: seq<string>, chars: seq<string>): (r: Board)
    requires |keys| == |chars|
    ensures forall x :: x in r <==> x in keys
    decreases |keys|
  {
    if keys == [] then map[]
    else ZipBoard(keys[..|keys| - 1], chars[..|chars| - 1])[keys[|keys| - 1] := chars[|chars| - 1]]
  }

  /** `grid_values`: the board of a grid, or `None` where the program's assertion fails. */
  function GridBoard(grid: string): (r: Option<Board>)
    ensures r.Some? <==> |Tokens(grid)| == 81
    ensures r.Some? ==> forall x :: x in r.value <==> x in Boxes
  {
    var chars := Tokens(grid);
    BoxesLength();
    if |chars| != 81 then None else Some(ZipBoard(Boxes, chars))
  }

  /** `grid_values`, with its loop over the characters of the grid. */
  method GridValues(grid: string) returns (res: Option<Board>)
    ensures res == GridBoard(grid)
  {
    var chars: seq<string> := [];
    for i := 0 to |grid|
      invariant chars == Tokens(grid[..i])
    {
      assert grid[..i + 1][..i] == grid[..i];
      var c := grid[i];
      if c in Digits {
        chars := chars + [[c]];
      }
      if c == '.' {
        chars := chars + [Digits];
      }
    }
    assert grid[..|grid|] == grid;
    if |chars| != 81 {
      return None;
    }
    BoxesLength();
    res := Some(ZipBoard(Boxes, chars));
  }

  /** With distinct keys, the k-th key is paired with the k-th entry. */
  lemma {:induction false} ZipBoardAt(keys: seq<string>, chars: seq<string>, k: int)
    requires |keys| == |chars| && Distinct(keys) && 0 <= k < |keys|
    ensures ZipBoard(keys, chars)[keys[k]] == chars[k]
    decreases |keys|
  {
    if k < |keys| - 1 {
      ZipBoardAt(keys[..|keys| - 1], chars[..|chars| - 1], k);
    }
  }

  /** Every box of a zipped board holds one of the entries. */
  lemma {:induction false} ZipBoardValues(keys: seq<string>, chars: seq<string>)
    requires |keys| == |chars|
    ensures forall x :: x in ZipBoard(keys, chars) ==> ZipBoard(keys, chars)[x] in chars
    decreases |keys|
  {
    if keys != [] {
      ZipBoardValues(keys[..|keys| - 1], chars[..|chars| - 1]);
    }
  }

  /** Zipping a board's own keys with its own entries gives the board back. */
  lemma {:induction false} ZipBoardOf(b: Board, keys: seq<string>, chars: seq<string>)
    requires |keys| == |chars| && Distinct(keys) && forall x :: x in b <==> x in keys
    requires forall k :: 0 <= k < |keys| ==> chars[k] == b[keys[k]]
    ensures ZipBoard(keys, chars) == b
  {
    var z := ZipBoard(keys, chars);
    forall x | x in z ensures z[x] == b[x] {
      var k :| 0 <= k < |keys| && keys[k] == x;
      ZipBoardAt(keys, chars, k);
    }
    assert z.Keys == b.Keys;
  }

  /** The list of a concatenation is the concatenation of the lists. */
  lemma {:induction false} TokensAppend(a: string, b: string)
    ensures Tokens(a + b) == Tokens(a) + Tokens(b)
    decreases |b|
  {
    if b != [] {
      var init := b[..|b| - 1];
      assert (a + b)[..|a + b| - 1] == a + init;
      assert (a + b)[|a + b| - 1] == b[|b| - 1];
      TokensAppend(a, init);
      assert Tokens(a + b) == Tokens(a + init) + Token(b[|b| - 1]);
      assert Tokens(b) == Tokens(init) + Token(b[|b| - 1]);
    } else {
      assert a + b == a;
    }
  }

  /** "123456789" is a candidate string, and its characters are the digits. */
  lemma {:induction false} DigitsFacts()
    ensures IsDomain(Digits)
    ensures forall c :: c in Digits <==> '1' <= c <= '9'
  {
    RowsAndCols();
    assert Digits == Cols;
  }

  /** Each entry of the list is a candidate string: one digit, or all nine. */
  lemma {:induction false} TokensAreDomains(grid: string)
    ensures forall t :: t in Tokens(grid) ==> IsDomain(t) && (t == Digits || |t| == 1)
    decreases |grid|
  {
    if grid != [] {
      TokensAreDomains(grid[..|grid| - 1]);
      DigitsFacts();
    }
  }

  /**
   * A parsed grid is a well-formed board in which each box holds the entry
   * kept at its row-major position; the parser fails exactly when it does
   * not keep 81 entries.
   */
  lemma {:induction false} GridBoardMeaning(grid: string)
    ensures GridBoard(grid).Some? <==> |Tokens(grid)| == 81
    ensures GridBoard(grid).Some? ==>
      WellFormed(GridBoard(grid).value) &&
      forall s :: IsBox(s) ==> GridBoard(grid).value[s] == Tokens(grid)[Position(s)]
  {
    if |Tokens(grid)| == 81 {
      BoxesFacts();
      TokensAreDomains(grid);
      var b := ZipBoard(Boxes, Tokens(grid));
      forall s | IsBox(s) ensures b[s] == Tokens(grid)[Position(s)] {
        BoxAtPosition(s);
        ZipBoardAt(Boxes, Tokens(grid), Position(s));
      }
      ZipBoardValues(Boxes, Tokens(grid));
    }
  }

  /** The character a box contributes to a grid string: its digit when decided, '.' otherwise. */
  function Cell(v: string): string {
    if |v| == 1 then v else "."
  }

  /** The grid string of the boxes xs of a board. */
  function Render(b: Board, xs: seq<string>): (r: string)
    requires forall x :: x in xs ==> x in b
    ensures |r| == |xs|
    decreases |xs|
  {
    if xs == [] then []
    else
      var init := xs[..|xs| - 1];
      assert forall x :: x in init ==> x in xs;
      Render(b, init) + Cell(b[xs[|xs| - 1]])
  }

  /** The grid string of a board, the inverse of `grid_values` on the boards it produces. */
  function GridString(b: Board): (r: string)
    requires IsBoard(b)
    ensures |r| == 81
  {
    BoxesMembers();
    Render(b, Boxes)
  }

  /** A board `grid_values` can produce: every box a single digit or all nine. */
  ghost predicate IsPuzzle(b: Board) {
    IsBoard(b) && forall s :: s in b ==> b[s] == Digits || (|b[s]| == 1 && b[s][0] in Digits)
  }

  /** A grid written only with digits and '.'. */
  predicate Clean(grid: string) {
    forall i :: 0 <= i < |grid| ==> grid[i] in Digits || grid[i] == '.'
  }

  /** The entries of the boxes xs of a board, in order. */
  function Values(b: Board, xs: seq<string>): (r: seq<string>)
    requires forall x :: x in xs ==> x in b
    ensures |r| == |xs| && forall k :: 0 <= k < |xs| ==> r[k] == b[xs[k]]
  {
    seq(|xs|, k requires 0 <= k < |xs| => b[xs[k]])
  }

  lemma {:induction false} ValuesSnoc(b: Board, xs: seq<string>)
    requires (forall x :: x in xs ==> x in b) && xs != []
    ensures var init := xs[..|xs| - 1];
      (forall x :: x in init ==> x in b) && Values(b, xs) == Values(b, init) + [b[xs[|xs| - 1]]]
  {
    var init := xs[..|xs| - 1];
    assert forall x :: x in init ==> x in xs;
  }

  /** Rendering the boxes xs and parsing back gives their entries in order. */
  lemma {:induction false} RenderTokens(b: Board, xs: seq<string>)
    requires forall x :: x in xs ==> x in b && (b[x] == Digits || (|b[x]| == 1 && b[x][0] in Digits))
    ensures Tokens(Render(b, xs)) == Values(b, xs)
    decreases |xs|
  {
    if xs != [] {
      var init := xs[..|xs| - 1];
      var v := b[xs[|xs| - 1]];
      RenderTokens(b, init);
      TokensAppend(Render(b, init), Cell(v));
      if |v| == 1 {
        assert v == [v[0]];
        assert Tokens(Cell(v)) == Tokens([] + [v[0]]);
      } else {
        assert Tokens(Cell(v)) == Tokens([] + ['.']);
      }
      assert Tokens(Cell(v)) == [v];
      ValuesSnoc(b, xs);
    }
  }

  /** Every character of a clean grid keeps one entry, and rendering that entry gives the character back. */
  lemma {:induction false} CleanTokens(grid: string)
    requires Clean(grid)
    ensures |Tokens(grid)| == |grid|
    ensures forall k :: 0 <= k < |grid| ==> Cell(Tokens(grid)[k]) == [grid[k]]
    decreases |grid|
  {
    if grid != [] {
      var init := grid[..|grid| - 1];
      assert Clean(init) by {
        forall i | 0 <= i < |init| ensures init[i] in Digits || init[i] == '.' {
          assert init[i] == grid[i];
        }
      }
      CleanTokens(init);
      var c := grid[|grid| - 1];
      TokenCell(c);
      assert grid == init + [c];
      CellsSnoc(Tokens(init), Token(c)[0], init, c);
    }
  }

  /** A digit or '.' keeps one entry, whose cell is the character itself. */
  lemma {:induction false} TokenCell(c: char)
    requires c in Digits || c == '.'
    ensures |Token(c)| == 1 && Token(c) == [Token(c)[0]] && Cell(Token(c)[0]) == [c]
  {
  }

  /** Extending entries and characters that agree cell by cell by one agreeing pair keeps them agreeing. */
  lemma {:induction false} CellsSnoc(ts: seq<string>, t: string, s: string, c: char)
    requires |ts| == |s| && forall k :: 0 <= k < |s| ==> Cell(ts[k]) == [s[k]]
    requires Cell(t) == [c]
    ensures forall k :: 0 <= k < |s| + 1 ==> Cell((ts + [t])[k]) == [(s + [c])[k]]
  {
  }

  /** Rendering a zipped board over its own keys renders the entries in order. */
  lemma {:induction false} RenderZip(keys: seq<string>, chars: seq<string>)
    requires |keys| == |chars| && Distinct(keys)
    ensures forall k :: 0 <= k < |keys| ==> Render(ZipBoard(keys, chars), keys)[k] == Cell(chars[k])[0]
  {
    var b := ZipBoard(keys, chars);
    forall k | 0 <= k < |keys| ensures Render(b, keys)[k] == Cell(chars[k])[0] {
      ZipBoardAt(keys, chars, k);
      RenderAt(b, keys, k);
    }
  }

  /** The k-th character of a rendering is the cell of the k-th box. */
  lemma {:induction false} RenderAt(b: Board, xs: seq<string>, k: int)
    requires (forall x :: x in xs ==> x in b) && 0 <= k < |xs|
    ensures Render(b, xs)[k] == Cell(b[xs[k]])[0]
    decreases |xs|
  {
    var init := xs[..|xs| - 1];
    assert forall x :: x in init ==> x in xs;
    if k < |xs| - 1 {
      RenderAt(b, init, k);
    }
  }

  /** Writing a puzzle board as a grid and parsing it gives the board back. */
  lemma {:induction false} ParseRendered(b: Board)
    requires IsPuzzle(b)
    ensures GridBoard(GridString(b)) == Some(b)
  {
    BoxesFacts();
    var chars := Tokens(GridString(b));
    RenderTokens(b, Boxes);
    ZipBoardOf(b, Boxes, chars);
  }

  /** Parsing a clean 81-character grid and writing the board back gives the grid back. */
  lemma {:induction false} RenderParsed(grid: string)
    requires Clean(grid) && |grid| == 81
    ensures GridBoard(grid).Some? && IsBoard(GridBoard(grid).value) && GridString(GridBoard(grid).value) == grid
  {
    BoxesFacts();
    CleanTokens(grid);
    GridBoardMeaning(grid);
    RenderCells(grid, Tokens(grid));
  }

  /** Rendering the board zipped from entries whose cells are the characters of grid gives grid. */
  lemma {:induction false} RenderCells(grid: string, tokens: seq<string>)
    requires |grid| == 81 && |tokens| == 81
    requires forall k :: 0 <= k < 81 ==> Cell(tokens[k]) == [grid[k]]
    ensures IsBoard(ZipBoard(Boxes, tokens)) && GridString(ZipBoard(Boxes, tokens)) == grid
  {
    BoxesFacts();
    var b := ZipBoard(Boxes, tokens);
    RenderZip(Boxes, tokens);
    var r := GridString(b);
    forall k | 0 <= k < 81 ensures r[k] == grid[k] {
      assert Cell(tokens[k])[0] == grid[k];
    }
  }
}
