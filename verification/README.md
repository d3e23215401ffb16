# Chess challenge: placing non-attacking pieces

The program lists the ways to put a given multiset of chess pieces (kings,
queens, rooks, bishops, knights) on an `m`-column by `n`-row board so that no
piece attacks another. Each way is returned as the set of occupied squares, in
one list that may hold the same set more than once (once for each valid way
of assigning the requested kinds to its squares). Its core is in `main.py`:

- a coordinate mapper between a row-major linear index and `(col, row)`;
- one `get_targets` per piece kind, giving the set of `(row, col)` squares the
  piece attacks, and the `piece_to_class` registry from one-letter tags to kinds;
- `place_piece`, a backtracking search that walks the cells in scan order and
  appends every completed placement to one shared list;
- `get_unique_configurations`, which seeds that search.

The Dafny project has six modules:

- `Coordinates` (`coordinates.dfy`) models the mapper. `pos / m` in the source
  is Python 2 integer division on non-negative integers, which is `nat` `/`.
- `Pieces` (`pieces.dfy`) holds the kinds, the registry and the five attack
  functions with the guards exactly as written. Chess geometry is stated
  independently as `Threatens`. Corrected Knight and King functions go with the
  findings below, and `Geometry` picks between the source's guards (`AsWritten`)
  and the corrected ones (`Corrected`).
- `PieceExamples` (`piece_examples.dfy`) holds the attack sets the repository's
  unit tests expect, and the concrete inputs behind the findings.
- `Enumeration` (`enumeration.dfy`) is a pure specification of the search.
  `Configs` returns, in the order the search appends them, the placements that
  one call of `place_piece` completes. Each placement records which kind stands
  on each square, and `Occupancies` drops the kinds, as the source does. The
  soundness, completeness, distinctness, boundary and threat-freedom lemmas are stated about
  `Configs`.
- `Search` (`search.dfy`) is the search as the source runs it:
  - a `ConfigCollector` class holds the shared, append-only result list;
  - the recursive method `PlacePiece` makes the skip/place/skip-again calls;
  - `PlaceEachKind` is the `while` loop over the remaining kinds, and `PlaceKind` is that loop's body;
  - `GetUniqueConfigurations` is the entry point.

  Each method's `ensures` ties what it appends to `Configs`. `GetUniqueConfigurations` then inherits the `Enumeration` lemmas.
- `SearchExamples` (`search_examples.dfy`) states, for concrete boards,
  configurations that the whole search returns: each of the four configurations
  the 3x3 unit test expects is among the results (membership only), and so is a
  King and Rook pair on a 2-column, 3-row board that the source's King guards
  let stand together although the King attacks the Rook.

The search's termination measure is "rows left, then columns left". It orders
cells the same way as the linear index `row * m + col` that the source compares
against `m * n`. `ScanAdvancesIndex` and `ScanDoneAtEnd` connect the two.

## Model

| member | source | states |
|---|---|---|
| Coordinates.ColRowToPos | main.py:10-15 | for a column below `m`, the index lies in its row's block of `m` consecutive indices, `row * m <= pos < (row + 1) * m` |
| Coordinates.PosToColRow | main.py:18-25 | the column is below `m`, and mapping the pair back gives the same linear index |
| Coordinates.ColRowRoundTrip | main.py:10-25 | for a column below `m`, `pos_to_col_row(col_row_to_pos(col, row, m), m)` is `(col, row)` |
| Coordinates.NextColRow | main.py:219-221 | the next cell's column is below `m`; from an on-board column it is one column right, or the start of the next row |
| Coordinates.NextColRowAdvances | main.py:219-221 | the next cell's linear index is exactly one greater, from any cell |
| Coordinates.ScanAdvancesIndex | main.py:219-221 | stepping one cell in scan order raises the linear index by exactly one and keeps the column below `m` |
| Coordinates.ScanDoneAtEnd | main.py:191-192 | the test `col_row_to_pos(col, row, m) >= m * n` holds exactly when the board has no columns or the cursor's row is past the last row |
| Pieces.KindOf | main.py:161-167 | a registered tag maps to the kind with that symbol; an unregistered tag is no kind's symbol |
| Pieces.SymbolRegistered | main.py:161-167 | every kind is registered under its own symbol (`SYMBOL` at main.py:45, 81, 112, 129, 146: `n`, `k`, `r`, `q`, `b`), so no two kinds share a tag |
| Pieces.KnightTargets | main.py:47-74 | every listed square is a knight's move from the origin (so never the origin), even where the guards misjudge the board |
| Pieces.KingTargets | main.py:83-105 | every listed square is a king's step from the origin, and never the origin itself |
| Pieces.RookTargets | main.py:114-122 | every target shares the origin's row or column and is not the origin |
| Pieces.RookTargetsExact | main.py:114-122 | from an on-board square, the targets are exactly the on-board squares in its row or column other than itself |
| Pieces.BishopTargets | main.py:148-158 | every target is on a diagonal of the origin at nonzero distance; from an on-board square every target is on the board |
| Pieces.BishopTargetsExact | main.py:148-158 | from an on-board square, the targets are exactly the on-board squares on its diagonals other than itself |
| Pieces.QueenTargets | main.py:131-139 | the targets are the union of the Rook and Bishop targets at the same square, and each is a queen's move away |
| Pieces.QueenTargetsExact | main.py:131-139 | from an on-board square, the targets are exactly the on-board squares a queen attacks |
| Pieces.CorrectedKnightTargets | main.py:47-74 | with the guards `row + 2 < n` and `col + 1 < m`, every target is a knight's move away |
| Pieces.CorrectedKnightExact | main.py:47-74 | with the corrected guards, the Knight targets from an on-board square are exactly the on-board knight moves |
| Pieces.CorrectedKingTargets | main.py:83-105 | with the guards `row + 1 < n` and `col + 1 < m`, every target is a king's step away |
| Pieces.CorrectedKingExact | main.py:83-105 | with the corrected guards, the King targets from an on-board square are exactly the on-board neighbours |
| Pieces.Targets | main.py:161-167 | dispatching a kind through the registry lists only squares that kind attacks in chess geometry |
| Pieces.CorrectedTargetsExact | main.py:47-167 | with the corrected guards, every kind's targets from an on-board square are exactly the on-board squares it attacks |
| Pieces.SquareBoardAgrees | main.py:47-105 | on a square board, the source's Knight and King guards list exactly the same on-board squares as the corrected guards (which `CorrectedTargetsExact` ties to chess geometry) |
| PieceExamples.KnightFromCorner | tests.py:30-31 | Knight on a 3x3 board at (0, 0) attacks {(1, 2), (2, 1)} |
| PieceExamples.KnightFromCentre | tests.py:32-36 | Knight at (1, 1) attacks nothing on 3x3, and {(3, 0), (0, 3), (2, 3), (3, 2)} on 4x4 |
| PieceExamples.KingFromCorner | tests.py:43-45 | King on 3x3 at (0, 0) attacks {(0, 1), (1, 1), (1, 0)} |
| PieceExamples.KingFromCentre | tests.py:46-48 | King on 3x3 at (1, 1) attacks all eight other squares |
| PieceExamples.QueenFromCorner | tests.py:55-57 | Queen on 3x3 at (0, 0) attacks the six squares in its row, column and diagonal |
| PieceExamples.QueenFromCentre | tests.py:58-60 | Queen on 3x3 at (1, 1) attacks all eight other squares |
| PieceExamples.RookFromCorner | tests.py:67-69 | Rook on 3x3 at (0, 0) attacks {(0, 1), (0, 2), (1, 0), (2, 0)} |
| PieceExamples.RookFromCentre | tests.py:70-71 | Rook on 3x3 at (1, 1) attacks {(0, 1), (1, 0), (1, 2), (2, 1)} |
| PieceExamples.BishopFromCorner | tests.py:79 | Bishop on 3x3 at (0, 0) attacks {(1, 1), (2, 2)} |
| PieceExamples.BishopFromCentre | tests.py:80-81 | Bishop on 3x3 at (1, 1) attacks the four corners |
| PieceExamples.KnightRowGuardMissesMove | main.py:69-73 | with 2 columns and 3 rows, the on-board knight move (0, 0) to (2, 1) is missing from the Knight targets and present in the corrected ones |
| PieceExamples.KnightColumnGuardLeavesBoard | main.py:64-73 | on 3x3, a Knight at (0, 2) lists the off-board square (2, 3); the corrected guards do not |
| PieceExamples.KingGuardsSwapDimensions | main.py:95-104 | on boards of one row or one column, the King misses on-board neighbours and lists an off-board square |
| Enumeration.Live | main.py:186 | dropping the zero counts keeps only positive counts, changes no kind's count, and leaves nothing exactly when no piece is left |
| Enumeration.Configs | main.py:170-216 | every placement one call emits keeps every square already occupied: the search only ever adds pieces |
| Enumeration.TryKinds | main.py:200-211 | every placement the loop over kinds yields occupies the current cell as well as every square already occupied |
| Enumeration.TryKind | main.py:201-211 | the same for one pass of the loop, with one kind |
| Enumeration.ConfigsOnCell | main.py:194-216 | the one-step unfolding of `Configs` on a board cell with pieces left, used as a proof step: the skip branch if the cell is prohibited, otherwise the per-kind branches followed by the skip branch |
| Enumeration.TryKindsStep | main.py:200-211 | after one more pass of the loop over kinds, the output gains that kind's placements, appended after those of the earlier kinds |
| Enumeration.OccupanciesAppend | main.py:188 | the emitted square sets of two runs of output, concatenated, are the square sets of the concatenation |
| Enumeration.KindCountAdd | main.py:204-207 | putting a piece on a free square adds one to the count of its kind and changes no other kind's count |
| Enumeration.TotalDecrement | main.py:206-207 | decrementing one kind's count lowers the number of pieces still to place by one and leaves the other kinds alone |
| Enumeration.CompletesAfterPlacing | main.py:204-211 | a completion reached after placing a piece also completes the placement before it, counting that piece back in |
| Enumeration.SkipKeepsReachable | main.py:194-198 | passing over a cell keeps the search invariant: placed pieces on the board, before the cursor, mutually unattacked, their targets all prohibited |
| Enumeration.PlaceKeepsReachable | main.py:200-211 | placing a piece on a free, unprohibited cell whose targets avoid the occupied squares keeps that invariant at the next cell |
| Enumeration.NothingLeftCompletes | main.py:186-189 | when no pieces are left, the current placement is itself a completion |
| Enumeration.CompletesLive | main.py:186 | a completion for the counts with zeros dropped is a completion for the original counts |
| Enumeration.ConfigsSound | main.py:170-216 | from any state satisfying the invariant, every emitted placement has the placed pieces plus the remaining counts, all on the board, none listing another among its targets |
| Enumeration.TryKindsSound | main.py:200-211 | the same for the placements produced by the loop over kinds at a free cell |
| Enumeration.NothingLeftEmitsOnce | main.py:186-189 | with no pieces left the search emits the current placement once and nothing else |
| Enumeration.OverfullEmitsNothing | main.py:191-192 | with more pieces left than cells from the cursor to the end, the search emits nothing |
| Enumeration.OverfullTriesNothing | main.py:200-211 | the same for the loop over kinds at a cell |
| Enumeration.SearchSound | main.py:170-216 | every placement of the whole search holds exactly the requested number of each kind, on the board, attack-free |
| Enumeration.KeysAmongOccupancies | main.py:188 | a placement among those emitted has its square set among the emitted square sets |
| Enumeration.ExtraSquares | main.py:204-207 | a completion that agrees with the current placement holds, of each kind, the current count plus its new squares of that kind |
| Enumeration.CountsAfterPlacing | main.py:204-207 | placing a piece of a kind that has a count left keeps "completion's count = placed count + remaining count" for every kind |
| Enumeration.NothingLeftIsPlaced | main.py:186-189 | with no pieces left, the only completion that extends the current placement is that placement |
| Enumeration.PendingSquareAhead | main.py:191-192 | while a completion still needs a piece, the cursor has not run past the last cell |
| Enumeration.ExtendsLive | main.py:186 | dropping the zero counts keeps a completion reachable |
| Enumeration.SkipKeepsExtends | main.py:194-198 | passing over a cell that the completion leaves empty, or already holds, keeps the completion reachable from the next cell |
| Enumeration.PlaceAllowed | main.py:194-203 | when a completion puts a new piece on the cell, the cell is not prohibited, a piece of that kind is left and its targets avoid every occupied square, so the loop does not skip it |
| Enumeration.PlaceKeepsExtends | main.py:204-211 | placing the completion's piece on the cell keeps the completion reachable from the next cell |
| Enumeration.EveryKindTried | main.py:200 | the loop over kinds tries every kind |
| Enumeration.TryKindInTryKinds | main.py:200-211 | what one kind's pass yields is part of the loop's output whenever that kind is in the list |
| Enumeration.ConfigsComplete | main.py:170-216 | every attack-free completion of the current placement that uses the remaining counts on unprohibited squares at or after the cursor is emitted |
| Enumeration.PlacedComplete | main.py:200-211 | such a completion that puts a new piece on the current cell is emitted by the loop over kinds |
| Enumeration.SearchComplete | main.py:224-233 | every attack-free placement on the board with exactly the requested count of each kind is emitted by the whole search |
| Enumeration.EmittedAreValid | main.py:224-233 | every emitted square set is a valid configuration |
| Enumeration.ValidAreEmitted | main.py:224-233 | every valid configuration is emitted |
| Enumeration.NewAtOrAfter | main.py:170-216 | from a state whose pieces all stand before the cursor, every emitted placement keeps those pieces and adds pieces only at or after the cursor |
| Enumeration.NewAtOrAfterKinds | main.py:200-211 | the same for the loop over kinds, whose placements also put one of the tried kinds on the cursor |
| Enumeration.ConfigsDistinct | main.py:170-216 | from a state whose pieces all stand before the cursor, one call emits no placement twice |
| Enumeration.TryKindsDistinct | main.py:200-211 | the loop over distinct kinds yields no placement twice |
| Enumeration.SearchDistinct | main.py:224-233 | the whole search emits no placement twice |
| Enumeration.RepeatsAreOtherKinds | main.py:224-233 | a square set that occurs twice among the results carries two different valid kind assignments |
| Enumeration.OtherKindsRepeat | main.py:224-233 | a valid square set with two different valid kind assignments occurs at least twice among the results |
| Enumeration.TwoTaggingsTwice | main.py:224-233 | two different valid kind assignments of one on-board square set put it at two positions of the results |
| Enumeration.SearchBoundaries | main.py:186-192 | the whole search gives exactly `[{}]` for zero pieces and `[]` for more pieces than cells |
| Enumeration.SearchResults | main.py:224-233 | a square set is emitted if and only if it is a valid configuration: exactly the requested number of squares, all on the board, carrying an attack-free assignment of the requested kinds; zero pieces give exactly `[{}]`; more pieces than cells give `[]` |
| Enumeration.CorrectedSearchThreatFree | main.py:200-211 | with the corrected guards, no two pieces of an emitted placement attack each other in chess geometry |
| Enumeration.SquareSearchThreatFree | main.py:200-211 | on a square board, with the source's own guards, no two pieces of an emitted placement attack each other in chess geometry |
| Search.ConfigCollector.constructor | main.py:230 | the result list starts empty |
| Search.ConfigCollector.Add | main.py:188 | appending a configuration keeps everything before it and puts the configuration last |
| Search.PlacePiece | main.py:170-216 | one call appends, after what the list already held, the square sets of exactly the placements `Configs` describes for that call, in order |
| Search.PlaceEachKind | main.py:200-211 | the loop over the remaining kinds appends the placements of each kind in turn, in the fixed kind order |
| Search.PlaceKind | main.py:201-211 | one pass of that loop appends the placements with that kind on the cell, or nothing when it is used up or its targets hit an occupied square |
| Search.CountsOf | main.py:161-167 | each registered tag's count becomes its kind's count, and a kind whose tag is absent has count zero |
| Search.GetUniqueConfigurations | main.py:224-233 | returns the square sets of the whole search in order; a square set is in the result if and only if it has the requested size, lies on the board and carries an attack-free assignment of the requested kinds; a square set is repeated exactly when it carries two different such assignments; zero pieces give `[{}]`; more pieces than cells give `[]` |
| SearchExamples.TwoKingsOneRook | tests.py:7 | the tags `{'k': 2, 'r': 1}` of the 3x3 unit test ask for two Kings and one Rook |
| SearchExamples.OneKingOneRook | main.py:161-167 | the tags `{'k': 1, 'r': 1}` ask for one King and one Rook |
| SearchExamples.KingFromOtherCorners | main.py:83-105 | on 3x3 the King at (0, 2), (2, 0) and (2, 2) attacks its three neighbours |
| SearchExamples.Emitted | main.py:224-233 | an attack-free placement on the board with the requested counts has its square set among the results |
| SearchExamples.KingsAndRookFound | main.py:170-216 | two Kings and a Rook on distinct board squares, none listing another among its targets, are found by the search |
| SearchExamples.FirstApart | main.py:83-122 | the source's guards on 3x3 keep Kings on (0, 0), (0, 2) and a Rook on (2, 1) clear of each other |
| SearchExamples.SecondApart | main.py:83-122 | the same for Kings on (2, 0), (0, 0) and a Rook on (1, 2) |
| SearchExamples.ThirdApart | main.py:83-122 | the same for Kings on (2, 0), (2, 2) and a Rook on (0, 1) |
| SearchExamples.FourthApart | main.py:83-122 | the same for Kings on (0, 2), (2, 2) and a Rook on (1, 0) |
| SearchExamples.ThreeByThreeFound | tests.py:7 | such a trio is among the results for `{'k': 2, 'r': 1}` on 3x3 |
| SearchExamples.FirstExpectedFound | tests.py:8 | `{(0, 0), (0, 2), (2, 1)}` is among the results for two Kings and a Rook on 3x3 |
| SearchExamples.SecondExpectedFound | tests.py:9 | `{(1, 2), (2, 0), (0, 0)}` is among them |
| SearchExamples.ThirdExpectedFound | tests.py:10 | `{(0, 1), (2, 0), (2, 2)}` is among them |
| SearchExamples.FourthExpectedFound | tests.py:11 | `{(1, 0), (0, 2), (2, 2)}` is among them |
| SearchExamples.KingAndRookFound | main.py:170-216 | a King and a Rook on distinct board squares, neither listing the other among its targets, are found by the search |
| SearchExamples.KingRookApart | main.py:95-122 | with 2 columns and 3 rows, the King on (1, 0) does not list (2, 1), and the Rook on (2, 1) does not list (1, 0) |
| SearchExamples.KingThreatenedRookFound | main.py:95-100 | with 2 columns and 3 rows, a King on (1, 0) and a Rook on (2, 1) are returned together although the King attacks the Rook |

## Left out

- The `__main__` driver (main.py:236-243), which does wall-clock timing and printing. It is I/O.
- The abstract `Piece.get_targets` that raises `RuntimeError` (main.py:33-38). The closed `Kind` datatype cannot reach it.
- Search.GetUniqueConfigurations: requires every tag with a nonzero count to be registered. The source raises `KeyError` at main.py:201 for an unregistered tag; that error path is not modelled. Tags with a zero count are dropped at main.py:186 before any lookup, and the model ignores them too.
- Search.GetUniqueConfigurations: counts are `nat`. A negative count is truthy in Python and would be kept at main.py:186; that case is not modelled.
- The order in which kinds are tried. At main.py:200 it is Python 2 dict iteration order, which depends on hashing. The model fixes the order Knight, King, Rook, Bishop, Queen.
- The exact lists expected at tests.py:6-24. For the 3x3 test, each of the four expected sets (tests.py:8-11) is proved to be among the results, but not that nothing else is returned: that needs every attack-free placement of two Kings and a Rook on 3x3 ruled out, or the whole search unfolded on the concrete board, which is beyond what the verifier does in reasonable time. The 4x4 test (tests.py:14-24) is not stated for the same reason, and its list order depends on the dict order above.
- Uniqueness of square sets. The source does not de-duplicate (main.py:188). The model proves that no kind assignment is emitted twice, and that a square set repeats exactly when it has several valid kind assignments; it does not count how many times a given square set occurs.
- Recursion depth. `place_piece` nests one call per cell it passes, so on boards of more than roughly a thousand cells Python 2's default recursion limit raises `RuntimeError` (maximum recursion depth exceeded). The model has no such limit.
- The `.copy()` calls (main.py:196-198, 206, 214-216). Dafny's sets and maps are values, which gives the same branch isolation. The one shared mutable object, the result list, is the `ConfigCollector` field.
- Coordinates.PosToColRow and Coordinates.NextColRow: require `m > 0`. The source raises `ZeroDivisionError` when `m == 0`, but the search never reaches `get_next_col_row` in that case, because `m * n == 0` ends it first; the model's search does the same.
- Search.PlacePiece: requires the cursor's column to be below `m` (or `m == 0`). Every call the search makes itself satisfies this.
- Search.PlaceKind: computes the next cell for each kind that is placed. The source computes it in the same way inside the loop body (main.py:208) and again for the final skip (main.py:213); the values are the same.

## Findings

| source | as written | input that shows it | evidently intended | confidence | as-written member | corrected member |
|---|---|---|---|---|---|---|
| main.py:69 | Knight's downward two-row moves are guarded by `row + 2 < m`, the column count | m=2, n=3, Knight at (0, 0): the on-board move to (2, 1) is not listed | `row + 2 < n` | high (not executed) | PieceExamples.KnightRowGuardMissesMove | Pieces.CorrectedKnightExact |
| main.py:67, main.py:72 | the rightward one-column moves are guarded by `col < m`, always true on the board | m=3, n=3, Knight at (0, 2): lists (2, 3), in column 3 of a 3-column board | `col + 1 < m` | high (not executed) | PieceExamples.KnightColumnGuardLeavesBoard | Pieces.CorrectedKnightExact |
| main.py:95, main.py:103 | the King's downward guard uses `m` and its rightward guard uses `n`, swapping the dimensions | m=2, n=1, King at (0, 0) misses (0, 1); m=1, n=2 misses (1, 0); m=1, n=3 lists the off-board (0, 1) | `row + 1 < n` and `col + 1 < m` | high (not executed) | PieceExamples.KingGuardsSwapDimensions | Pieces.CorrectedKingExact |
| main.py:95-100 | through the King's downward guard, `get_unique_configurations` returns configurations in which one piece attacks another | m=2, n=3, `{'k': 1, 'r': 1}`: `{(1, 0), (2, 1)}` is returned, with the King on (1, 0) diagonally next to the Rook on (2, 1) | no returned configuration has a piece attacking another | high (not executed) | SearchExamples.KingThreatenedRookFound | Enumeration.CorrectedSearchThreatFree |

The search itself is proved for any attack query, so its soundness holds for both
geometries. `GetUniqueConfigurations` keeps the source's guards, as the program
does. `CorrectedSearchThreatFree` gives the chess-exact guarantee for the
corrected guards. `SquareSearchThreatFree` shows that on square boards, which are
all the tests use, the source's guards already give it.
