# Diagonal Sudoku solver, modelled in Dafny

This project models `solution.py`, a constraint-propagation solver for
diagonal Sudoku, and proves properties of the model. A board maps each of
the 81 boxes ("A1" … "I9") to its candidate string: the digits still
possible for that box. Right after parsing, a given box holds its one digit
and an open box holds "123456789"; propagation then shortens the strings,
and an empty string marks a contradiction.

The model covers:
- the fixed topology: `cross`, `boxes`, the row, column and square units, `units`, `peers`, and the two diagonals;
- the logged write `assign_value`;
- the two propagation passes `eliminate` and `only_choice`, and the `naked_twins` rule;
- the propagation loop `reduce_puzzle`;
- the depth-first `search`;
- the parser `grid_values` and the entry point `solve`.

Modules, one per file:

| file | module | models |
|---|---|---|
| topology.dfy | `Topology` | `cross`, `boxes`, units, peers, diagonals, `diagonal_peers`, `diagonal_units_search` |
| domains.dfy | `Domains` | candidate strings and `str.replace` on them |
| boards.dfy | `Boards` | boards, `assign_value`, and a pass as an ordered list of writes |
| eliminate.dfy | `EliminateRule` | `eliminate` |
| onlychoice.dfy | `OnlyChoiceRule` | `only_choice` |
| twins.dfy | `NakedTwinsRule` | `naked_twins` |
| grid.dfy | `GridCodec` | `grid_values` and its inverse |
| reduce.dfy | `ReduceLoop` | `reduce_puzzle` |
| search.dfy | `SearchEngine` | `search` |
| solve.dfy | `Solver` | `solve` |

How the model is built:
- Each loop of the program is a method with a `while` or `for` loop.
  - The method is proved equal to a specification function.
  - The properties the program relies on are proved about those functions.
- The global list `assignments` becomes a log threaded through the methods as a `seq<Board>` parameter.
- A pass of `eliminate` or `only_choice` is modelled as the ordered list of writes it makes, each carried out by `assign_value`.
  - Each pass is shown to equal a box-by-box closed form, `Eliminated` or `OnlyChosen`.

Where the code and its own docstrings and names differ (`solve` promises "False if no solution exists", `diagonal_peers` names a set it never fills, `naked_twins` promises the twins "eliminated from peers", and `search` loops over every digit), the model follows the code:
- `diagonal_peers` calls `set.union` and discards the result, so it always returns the empty set. Elimination therefore never uses the diagonals; only `only_choice` does.
- `reduce_puzzle` never calls `naked_twins`.
- `naked_twins` reads `values[box]` afresh for each recorded pair, after earlier pairs have already stripped the board. A pair whose first twin an earlier pair has narrowed strips only what is left of it, so a common peer of the twins can keep a twin digit. `NakedTwinsKeepsTwinDigit` shows this on a concrete board.
- `search` cannot backtrack. When propagation fails, `reduce_puzzle` returns `False`, and the next line of `search` indexes that boolean and raises. The exception leaves every enclosing call. The model calls this outcome `Aborted` and proves that `search`'s own `return None` is unreachable.

## Model

| member | source | states |
|---|---|---|
| Topology.Cross | solution.py:1-2 | `cross(a, b)` has `len(a) * len(b)` names |
| Topology.CrossMembership | solution.py:1-2 | a name is in `cross(a, b)` iff it is a character of `a` followed by a character of `b` |
| Topology.CrossDistinct | solution.py:1-2 | crossing two strings without repeats gives names without repeats |
| Topology.BoxesFacts | solution.py:4-8 | `boxes` lists 81 distinct names, and they are exactly the box names (a row letter A-I, then a column digit 1-9) |
| Topology.BoxesSorted | solution.py:8 | `boxes` is in ascending name order, row-major |
| Topology.BoxAtPosition | solution.py:8 | the box at row-major index `9 * row + column` of `boxes` is that box |
| Topology.UnitsOfBox | solution.py:10-15 | `units[s]` is exactly the row, the column and the square of `s`, in that order |
| Topology.Units | solution.py:15 | `units[s]` holds exactly the units of `unitlist` that contain `s` |
| Topology.Peers | solution.py:16 | a box is never its own peer (which boxes are peers is stated by `PeersOfBox`) |
| Topology.PeersOfBox | solution.py:16 | `p` is a peer of `s` iff `p` is another box with the same row letter, the same column digit, or in the same 3x3 square |
| Topology.PeersOf | solution.py:16 | no box is its own peer; peers are boxes, and the peer relation is symmetric |
| Topology.AllPeersSymmetric | solution.py:16 | symmetry of `peers`, for all boxes at once |
| Topology.PeerCount | solution.py:16 | every box has exactly 20 peers |
| Topology.UnitListBoxes | solution.py:14 | every member of every unit of `unitlist` is a box |
| Topology.DiagonalMembership | solution.py:18-22 | `Diagonal1` (`diagonal_units`, line 19) and `Diagonal2` (`diagonal_units2`, line 22): the first diagonal holds the boxes with row index equal to column index, from A1 to I9; the second holds those with row + column = 8, from I1 to A9 |
| Topology.DiagonalsShape | solution.py:14-22 | the diagonals have 9 boxes each and meet only at E5; neither is a unit of `unitlist` |
| Topology.DiagonalNotPeers | solution.py:16-22 | A1 and I9 share a diagonal but are not peers, and likewise I1 and A9 |
| Topology.DiagonalUnion | solution.py:111-115 | `res.union(set(d))` holds `res` and, when the block lies on diagonal `d`, every box of `d` |
| Topology.DiagonalPeers | solution.py:108-120 | both unions are computed and discarded, so `diagonal_peers` returns the empty set for every block |
| Topology.DiagonalPeersLost | solution.py:111-118 | for a box on a diagonal the discarded unions hold another box, yet none is returned; for A1 the union holds I9, which is neither a peer of A1 nor one of its diagonal peers |
| Topology.DiagonalUnitsSearch | solution.py:122-131 | the result holds a diagonal iff the block lies on it; it has at most two units |
| Domains.Remove | solution.py:70 | `s.replace(c, '')` keeps exactly the characters other than `c`, and is shorter when `c` occurs |
| Domains.Without | solution.py:69-70 | deleting a set of characters keeps exactly the characters outside it |
| Domains.RemoveAfterWithout | solution.py:69-70 | deleting the characters of a value one by one is deleting the whole set |
| Domains.WithoutKeepsDomain | solution.py:69-70 | deleting characters from a candidate string leaves a candidate string |
| Domains.RemoveKeepsDomain | solution.py:143 | deleting one digit from a candidate string leaves a candidate string |
| Domains.TheElement | solution.py:171 | `choices.pop()` on a one-element set returns its only element |
| Boards.Assign | solution.py:28-35 | `assign_value` sets the box and leaves every other box alone; it appends a snapshot of the new board iff the value has one character |
| Boards.AssignValue | solution.py:28-35 | the method does what `Assign` describes: the new board and the new log |
| Boards.RunLog | solution.py:28-35 | a sequence of writes only extends the log, by at most one snapshot per write; each snapshot has the board's boxes; fixes each add exactly one |
| Boards.RunStrikes | solution.py:143 | after a pass of deletions, each box holds its old candidates minus exactly the digits deleted from it |
| Boards.RunFixes | solution.py:171 | after a pass of fixes, each box holds the digit of the last fix aimed at it, or is untouched |
| Boards.CountGrow | solution.py:180-192 | if no decided box becomes undecided, the count of decided boxes does not drop; an equal count means the same boxes are decided |
| Boards.Count | solution.py:180-189 | the number of decided boxes of a board is at most 81 |
| Boards.SizeShrinks | solution.py:223-229 | a board none of whose boxes grows has no more candidates in total, and fewer if one box shrinks; a branch of `search` therefore has fewer candidates than the board it came from |
| EliminateRule.StrikeTargets | solution.py:142 | the boxes visited for a block are exactly its peers together with its diagonal peers |
| EliminateRule.Eliminate | solution.py:133-145 | the loop makes exactly the writes of the pass, in order and with their log entries, and its board is `Eliminated` |
| EliminateRule.EliminateOver | solution.py:138-143 | the loop over the keys makes exactly the writes of the pass |
| EliminateRule.StrikeFromAll | solution.py:142-143 | the inner loop deletes a block's digit from each of its peers in turn |
| EliminateRule.StruckByBlock | solution.py:139-143 | a block deletes a digit from `p` iff it is decided and `p` is its peer, and then only its own digit |
| EliminateRule.StruckByPass | solution.py:138-143 | the whole pass deletes from `p` exactly the digits of `p`'s decided peers |
| EliminateRule.EliminateClosedForm | solution.py:133-145 | the board after the pass is `Eliminated`, box by box, whatever the log was |
| EliminateRule.EliminatedMeaning | solution.py:133-145 | a digit survives in `s` iff it was a candidate of `s` and no decided peer of `s` holds it |
| EliminateRule.EliminatedRefines | solution.py:133-145 | elimination only removes candidates, and keeps candidate strings well formed |
| EliminateRule.EliminatedClash | solution.py:133-145 | two peers decided to the same digit leave a box with no candidate |
| EliminateRule.EliminatedKeepsDecided | solution.py:133-145 | a decided box that no decided peer contradicts keeps its digit |
| EliminateRule.EliminatedFixpoint | solution.py:133-145 | elimination changes nothing iff no decided peer's digit is a candidate of any box |
| EliminateRule.EliminatedStable | solution.py:133-145 | after a pass that undecides nothing and decides nothing new, a second pass changes nothing |
| EliminateRule.EliminatedFixpointConsistent | solution.py:133-145 | a board that elimination leaves unchanged, with no empty box, has no two peers decided to the same digit |
| OnlyChoiceRule.BoxUnits | solution.py:158-159 | every unit scanned for a box contains it and holds only boxes |
| OnlyChoiceRule.OthersInUnit | solution.py:163-166 | the loop collects the candidates of the other boxes of the unit |
| OnlyChoiceRule.Others | solution.py:163-166 | the set collected holds the candidates of every other box of the unit |
| OnlyChoiceRule.Choices | solution.py:168 | the choices are candidates of the box that no other box of the unit offers |
| OnlyChoiceRule.ChoicesMeaning | solution.py:163-168 | a digit is a choice of `s` in `u` iff it is a candidate of `s` and of no other box of `u` |
| OnlyChoiceRule.LastSingleIsLast | solution.py:161-171 | the digit kept is the one from the last unit with exactly one choice; nothing is kept iff there is no such unit |
| OnlyChoiceRule.FixesLast | solution.py:161-171 | the last fix the unit loop writes for a box is that last single choice |
| OnlyChoiceRule.Undecided | solution.py:154 | the boxes visited are exactly the undecided keys |
| OnlyChoiceRule.UndecidedSorted | solution.py:154 | filtering keeps the order of the keys: over sorted keys the boxes visited are in name order |
| OnlyChoiceRule.OnlyChoice | solution.py:148-173 | the method makes exactly the writes of the pass, with their log entries, and one log entry per write; its board is `OnlyChosen` |
| OnlyChoiceRule.OnlyChoiceOver | solution.py:154-171 | the loop over the undecided boxes makes exactly the pass's writes |
| OnlyChoiceRule.ChooseForBox | solution.py:158-171 | the unit loop for one box writes one fix per unit with exactly one choice, in unit order |
| OnlyChoiceRule.OnlyChoiceClosedForm | solution.py:148-173 | the board after the pass is `OnlyChosen`, box by box, whatever the log was |
| OnlyChoiceRule.OnlyChosenAt | solution.py:156-171 | an undecided box changes iff one of its units offers exactly one choice; it then holds the single choice of the last such unit |
| OnlyChoiceRule.OnlyChosenChanged | solution.py:148-173 | a box that changes was undecided and becomes a candidate digit that no other box of one of its units holds |
| OnlyChoiceRule.OnlyChosenKeepsSmall | solution.py:154 | boxes with at most one candidate are left as they are |
| OnlyChoiceRule.OnlyChosenRefines | solution.py:148-173 | only-choice only narrows boxes, and keeps candidate strings well formed |
| OnlyChoiceRule.OnlyChosenFixpoint | solution.py:148-173 | the pass changes nothing iff no undecided box has a unit with exactly one choice |
| NakedTwinsRule.TwoCandidates | solution.py:52 | `boxes_to_search` holds exactly the boxes with two candidates |
| NakedTwinsRule.TwoCandidatesSorted | solution.py:52 | `boxes_to_search` keeps row-major order |
| NakedTwinsRule.PeerOrder | solution.py:58 | the peers are visited once each, and they are exactly the peers |
| NakedTwinsRule.TwinsAmong | solution.py:58-60 | a pair is recorded for `box` iff the peer is still pending and holds the same value |
| NakedTwinsRule.FindTwins | solution.py:49-60 | the detection loop returns `Twins` |
| NakedTwinsRule.PopPending | solution.py:54-60 | the `while` loop over the popped boxes returns the pairs `FoundTwins` lists |
| NakedTwinsRule.PairsOfBox | solution.py:58-60 | the loop over the peers of the popped box returns `TwinsAmong` |
| NakedTwinsRule.FoundTwinsMeaning | solution.py:54-60 | with the pending boxes sorted by name, `(a, b)` is found iff both are pending, `b` is a peer of `a` with the same value, and `b` comes before `a` by name |
| NakedTwinsRule.TwinsMeaning | solution.py:49-60 | a pair `(a, b)` is recorded iff `b` is a peer of `a`, both hold the same two candidates, and `b` comes before `a` by name |
| NakedTwinsRule.TwinsOnce | solution.py:54-60 | every twin pair of peers is recorded in exactly one of its two orders |
| NakedTwinsRule.FoundTwinsDistinct | solution.py:54-60 | over pending boxes without repeats, the `while` loop records no pair twice, and every pair it records is headed by a box that was pending |
| NakedTwinsRule.TwinsDistinct | solution.py:49-60 | `all_twins` holds no pair twice; with `TwinsOnce`, each twin pair is recorded exactly once |
| NakedTwinsRule.FoundTwinsOrder | solution.py:54-60 | popping sorted pending boxes from the end records the pairs of later boxes first |
| NakedTwinsRule.TwinsOrder | solution.py:49-60 | in `all_twins`, the first box of a later pair never comes after the first box of an earlier pair |
| NakedTwinsRule.TwinRecorded | solution.py:49-60 | two peers with the same two candidates are recorded, the later box first |
| NakedTwinsRule.NakedTwins | solution.py:38-72 | the method returns the twins of the board stripped in recorded order |
| NakedTwinsRule.StripEach | solution.py:64-70 | the loop over the recorded pairs applies `StripPair` to each in order |
| NakedTwinsRule.StripCommonPeers | solution.py:65-70 | one pair deletes its value's digits from the common peers whose value differs |
| NakedTwinsRule.StripPeers | solution.py:67-70 | after the loop, each listed box whose value differs from the twins' loses the twins' digits; every other box is unchanged |
| NakedTwinsRule.RemoveAll | solution.py:69-70 | the character loop deletes every character of the value |
| NakedTwinsRule.StripPairAt | solution.py:64-70 | only common peers of the two twins whose value differs change; the twins themselves do not |
| NakedTwinsRule.StripPair | solution.py:64-70 | one recorded pair leaves the set of boxes unchanged |
| NakedTwinsRule.StripAll | solution.py:64-70 | the pairs, one after another, leave a board over the 81 boxes |
| NakedTwinsRule.StripAllNarrows | solution.py:64-72 | naked twins only removes candidates and keeps candidate strings well formed |
| NakedTwinsRule.StripAllChanges | solution.py:64-70 | a box that changes is a common peer of some recorded pair |
| NakedTwinsRule.StripAllSound | solution.py:64-72 | every solution consistent with the board is still consistent after stripping |
| NakedTwinsRule.NakedTwinsSound | solution.py:38-72 | `naked_twins` narrows a well-formed board, and never removes a digit of a solution consistent with it |
| NakedTwinsRule.StripAllPrefix | solution.py:64-70 | stripping further pairs only narrows the board that a prefix of the pairs left |
| NakedTwinsRule.StripPairAtCommon | solution.py:67-70 | a common peer of a pair whose value differs from the first twin's ends up with exactly that twin's digits deleted |
| NakedTwinsRule.StripPairAtOther | solution.py:67 | a box that is not a peer of the pair's first box keeps its value |
| NakedTwinsRule.FirstPairStrips | solution.py:45-70 | the first recorded pair does what the docstring promises: no common peer with a different value keeps a digit of the twins after the whole loop |
| NakedTwinsRule.CrossedPeers | solution.py:16 | A3 is a peer of A1 and of A2 but not of F2; A2 is a peer of A1, E2 and F2 |
| NakedTwinsRule.CrossedTwinsMembers | solution.py:49-60 | on the board `CrossedTwinsBoard` (A1 and A2 hold "12", E2 and F2 hold "23", every other box all nine digits), `all_twins` holds exactly (F2, E2) and (A2, A1) |
| NakedTwinsRule.CrossedTwinsList | solution.py:49-60 | on that board, `all_twins` is the list [(F2, E2), (A2, A1)] |
| NakedTwinsRule.NakedTwinsKeepsTwinDigit | solution.py:45-70 | on that board, (A2, A1) are twins and A3 is a common peer of both, yet A3 still holds '2' after `naked_twins`, against the docstring |
| NakedTwinsRule.SwappedTwinsStripDigit | solution.py:64-70 | had the pairs come in the other order, A3 would have lost '2' |
| GridCodec.GridValues | solution.py:74-92 | the parser's loop computes `GridBoard` |
| GridCodec.Token | solution.py:87-90 | a digit or '.' adds one entry, '.' the full string "123456789"; any other character adds nothing |
| GridCodec.Tokens | solution.py:84-90 | the list keeps at most one entry per character of the grid |
| GridCodec.GridBoard | solution.py:91-92 | the parser yields a board exactly when it keeps 81 entries, and that board is keyed by the 81 boxes |
| GridCodec.TokensAreDomains | solution.py:84-90 | every entry kept is a single digit or the full string "123456789" |
| GridCodec.GridBoardMeaning | solution.py:84-92 | parsing succeeds iff 81 entries are kept; the board is well formed, and each box holds the entry at its row-major position |
| GridCodec.ZipBoardAt | solution.py:92 | `dict(zip(boxes, chars))` maps the k-th box to the k-th entry |
| GridCodec.ParseRendered | solution.py:74-92 | writing a board of digits and full boxes as a grid and parsing it gives the board back |
| GridCodec.RenderParsed | solution.py:74-92 | parsing an 81-character grid of digits and dots and writing it back gives the grid back |
| ReduceLoop.Round | solution.py:183-186 | a round of elimination then only-choice leaves a board over the 81 boxes |
| ReduceLoop.RoundAt | solution.py:183-186 | per box, a round empties a box iff elimination did, and never undecides a box unless it empties it |
| ReduceLoop.RoundKeepsDecided | solution.py:180-192 | a round that leaves no box empty keeps every decided box, so the count of decided boxes never drops |
| ReduceLoop.ReducePuzzle | solution.py:176-198 | the loop returns `Reduced`: `False` when a round leaves an empty box, otherwise the board after the first round that decides nothing new |
| ReduceLoop.Reduced | solution.py:176-198 | a board returned is over the 81 boxes and has no empty box |
| ReduceLoop.Stall | solution.py:192 | at the stop, only-choice changed nothing, and a further pass of either rule changes nothing |
| ReduceLoop.ReducedResult | solution.py:176-198 | a returned board has no empty box, is a fixpoint of both rules, has no two peers decided alike, and narrows the input while staying well formed |
| ReduceLoop.ReducedClash | solution.py:176-198 | two peers decided to the same digit make the loop return `False` |
| SearchEngine.Fewest | solution.py:215-220 | the first entry after sorting is an undecided box with the fewest candidates, ties going to the smallest name; there is none iff no box is undecided |
| SearchEngine.Selected | solution.py:215-220 | the box branched on is undecided, and comes first by `(len, name)` among the undecided boxes |
| SearchEngine.Search | solution.py:201-234 | the method returns `Searched`, the outcome of the recursive search |
| SearchEngine.Searched | solution.py:201-234 | a board the search finds is solved: every box holds one digit |
| SearchEngine.TryDigits | solution.py:225-234 | a board found over the digits is solved; with no digits left the loop ends in `None` |
| SearchEngine.TryEach | solution.py:225-234 | the loop over the digits returns the first branch result that is not `None` |
| SearchEngine.TryBranch | solution.py:226-229 | one pass searches the board with the box set to that digit, and the loop goes on only after `None` |
| SearchEngine.SearchedFound | solution.py:201-234 | a board `search` returns has every box decided, no two peers alike, is a fixpoint of both rules, and narrows the input while staying well formed |
| SearchEngine.NeverNotFound | solution.py:201-234 | `search` never returns `None`: it finds a board or raises |
| SearchEngine.FirstDigitOnly | solution.py:225-234 | on an undecided reduced board, `search` is the search of its first branch; later digits are never tried |
| SearchEngine.SearchedClash | solution.py:202-205 | two peers decided alike make `reduce_puzzle` return `False`, and the next line raises |
| Solver.Solve | solution.py:237-253 | `solve` returns `Solution`: a parse failure, or the outcome of `search` on the parsed board |
| Solver.Solution | solution.py:237-253 | `solve` fails in parsing exactly when the grid does not give 81 entries, and a board it finds is solved |
| Solver.SolutionMeaning | solution.py:237-253 | `solve` fails to parse iff the grid does not keep 81 entries; it never returns `None` from the search; a board it finds is decided everywhere, consistent, well formed, and keeps every given digit of the grid |

## Left out

- `display` and the `__main__` block print to the terminal. They are not part of this model.
- Python set iteration order depends on string hashing. The model visits peer sets and their intersections in row-major order. The order in which a box's peers are visited decides which intermediate boards the log holds and in what order, and the order of the recorded twin pairs. It does not decide the number of snapshots a pass logs, the set of recorded twin pairs, or the board `eliminate` and `only_choice` return.
- The module-level `assignments` list is passed explicitly as the log parameter, not kept as global state.
- ReduceLoop.ReducePuzzle: its log is only stated to extend the input log; the exact entries are stated for each pass (`Eliminate`, `OnlyChoice`).
- SearchEngine.Search: its log is likewise only stated to extend the input log.
- SearchEngine.TryEach: its log is likewise only stated to extend the input log.
- SearchEngine.TryBranch: its log is likewise only stated to extend the input log.
- Solver.Solve: its log is likewise only stated to extend the input log.
- The exception `search` raises after a failed reduction is the value `Aborted`, and it ends the whole search. The failed `assert` in `grid_values` is `None`. No other exception is modelled.
- NakedTwinsRule.NakedTwins: does not meet the docstring's promise that every twin pair is eliminated from its common peers. A later pair reads its first twin's value after earlier pairs may have narrowed it, and strips only what is left. The model keeps this behaviour; `FirstPairStrips` states the promise for the first pair, and `NakedTwinsKeepsTwinDigit` shows it failing for a later one.
- `naked_twins` updates the caller's dictionary in place. The model returns the updated board instead, so aliasing is not captured.
- `search` sets the selected box, copies the board, and restores the box afterwards. The model builds the copy directly. After a branch returns a board, later digits only evaluate `s or …` without a call, so the model's loop returns at once.
- `search` sorts the `(len, box)` pairs; the model takes the least pair, which is the sort's first element.
- A write to a key that is not on the board is ignored by the model's pass semantics. The program never makes one, since every target is a box.
- The diagonal constraint is enforced only where the program enforces it, in `only_choice`. No solution found is proved to satisfy the diagonals.
- The example grid of `__main__` is not solved within the model.
