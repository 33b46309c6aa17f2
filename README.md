# Cube state engine, move notation and solver — a Dafny model

This project models the puzzle core of a 3×3 cube solver written in
JavaScript:

- **The cube state engine of `modules/rubik.js`** (modules `Rubik` and
  `RubikLaws`). A cube is a buffer of 54 colour values, 9 per face, faces in
  the order Up, Left, Front, Right, Back, Down. Cell (face, row, col) is at
  `face*9 + row*3 + col`. A move is a signed integer code. An odd base code
  `b` (F=1, B=3, …, Z=23) turns clockwise, `-b` turns counter-clockwise and
  `2b` is a half turn. The table `rotate_data` names, for each base, the face
  turned with the move, the face turned against it (X, Y, Z only) and a strip
  of cells that `rotate` cycles by a quarter, half or three quarters of its
  length. The in-place operations are methods on `array<int>`. Each is
  specified by a function on `seq<int>` (`Rotated`, `FaceTurned`,
  `StripCycled`, `Create`), and the laws are proved about those functions.
- **The move notation codec of `modules/rubik.js`** (module `Notation`):
  `parse_rotations`, `rotation_to_string`, `rotations_to_string` and
  `base_rotation`.
- **The solver of `modules/solver.js`** (module `Solver`). It holds the
  pruning predicate `move_allowed`/`get_axis` and the move graph built by
  `construct_move_set`, which is a map from the previous move (`None` for the
  root) to the moves allowed next. It also holds the memoised walk count of
  `count_moves` and the bounded depth-first search of `solve`/`solve_impl`.
  The search writes one scratch cube per depth. The callback's messages are
  returned as a sequence of events.
- **The earlier engine of `modules/cube.js`** (module `LegacyCube`). It has its
  own colour numbering and codes 1..12. Only the F turn is implemented there;
  the other eleven moves are empty functions.

`Counting` is a helper module. It proves that a buffer read through an
injective index map keeps its multiset of values, which is what "rotate only
moves colours" needs. `Wrappers` holds `Option`, which stands for
JavaScript's `null`/`undefined`.

Two behaviours of the source are reproduced as written, and both are listed
under "## Findings" below:

- The X/Y/Z half turn leaves the counter-turned face untouched, so
  `rotate(2*X)` is not `rotate(X)` applied twice.
- The counter-clockwise F of `cube.js` writes one cell to LEFT+3 instead of
  LEFT+2, so F followed by F' is not the identity there.

## Model

| member | source | states |
|---|---|---|
| `Rubik.RotateData` | modules/rubik.js:60-166 | The table has an entry exactly at the twelve base codes. Every entry's strip has distinct cells in 0..53 and a length divisible by 4, and it avoids the faces the entry turns. |
| `Rubik.Create` | modules/rubik.js:171-198 | `create(cs)` has 54 cells, and cell i holds `cs[i/9]`. |
| `Rubik.GetCenters` | modules/rubik.js:279-281 | `get_centers` returns six values; value f is cell `9f+4`. |
| `RubikLaws.CentersOfCreate` | modules/rubik.js:279-281 | `get_centers(create(cs)) == cs`. |
| `RubikLaws.CreateIsSolved` | modules/rubik.js:171-198 | A created cube equals the cube created from its own centres. |
| `Rubik.BaseRotation` | modules/rubik.js:369-377 | `base_rotation` returns the code's magnitude or half of it, never negative, and 0 only for code 0. |
| `Rubik.Clear` | modules/rubik.js:207-209 | After `clear`, every cell is DONT_CARE. |
| `Rubik.Reset` | modules/rubik.js:201-204 | After `reset`, the cube equals the default `create()`, whatever its centres were before. |
| `Rubik.Copy` | modules/rubik.js:222-224 | `copy` returns a new array with the same cells. |
| `Rubik.CopyInto` | modules/rubik.js:226-230 | `copy_into(src, dest)` gives dest the cells of src at src's indices and keeps the rest of dest. |
| `Rubik.GetAt` | modules/rubik.js:270-272 | On a 54-cell cube, `get_at` with row and column in 0..2 reads one of the face's nine cells. Row 1, column 1 reads the face's centre, as `get_centers` does. |
| `Rubik.SetAt` | modules/rubik.js:274-276 | `set_at` changes exactly the cell `face*9+row*3+col`, to the value. |
| `RubikLaws.SetThenGet` | modules/rubik.js:270-276 | `get_at` after `set_at` at the same place reads the value; every other place reads what it held before. |
| `Rubik.IsEqual` | modules/rubik.js:212-214 | `is_equal(c1, c2)` holds iff c1 is a prefix of c2 (a cell missing from c2 equals nothing). |
| `Rubik.IsEqualWithIgnored` | modules/rubik.js:215-219 | Exact equality implies wildcard equality. A cube of DONT_CAREs matches anything. On cubes without DONT_CARE, wildcard equality is exact equality. |
| `RubikLaws.IgnoredIffNoClash` | modules/rubik.js:215-219 | `is_equal_with_ignored(a, b)` holds iff no position holds two different concrete colours. |
| `RubikLaws.IgnoredReflexiveSymmetric` | modules/rubik.js:215-219 | Wildcard equality is reflexive, and symmetric on cubes of one size. |
| `RubikLaws.ClearedMatchesAll` | modules/rubik.js:207-219 | A cleared cube wildcard-matches any cube, on either side. |
| `RubikLaws.EqualImpliesIgnored` | modules/rubik.js:212-219 | Exact equality implies wildcard equality. |
| `Rubik.RotateFace` | modules/rubik.js:382-416 | `rotate_face` leaves the buffer equal to `FaceTurned` of the old one: the face's cells are rearranged by the (possibly reversed) list, and nothing else changes. |
| `RubikLaws.FaceOrderValues` | modules/rubik.js:385-412 | The four lists `rotate_face` uses. Clockwise is `[6,3,0,7,4,1,8,5,2]`, counter-clockwise is its reverse and the half turn is `[8..0]`. A reversed half turn is the identity. |
| `Rubik.CycleStrip` | modules/rubik.js:308-315 | The strip loop moves every strip cell `offset` places along the strip and changes no cell off the strip. |
| `Rubik.Rotate` | modules/rubik.js:284-316 | `rotate` leaves the buffer equal to `Rotated(old, code)`. |
| `Rubik.Rotated` | modules/rubik.js:284-316 | The effect of `rotate` as a function: 54 cells out. Code 0 and any code whose base has no table entry leave the cube unchanged. |
| `Rubik.RotateInto` | modules/solver.js:51 | `rotate_into(src, dest, code)` writes `Rotated(src, code)` into dest. |
| `RubikLaws.RotatedNoOp` | modules/rubik.js:285-300 | Code 0, and any code whose base has no table entry, leaves the cube unchanged. |
| `RubikLaws.DecodedBase` | modules/rubik.js:289-298 | `rotate` decodes a code to the same base that `base_rotation` returns. |
| `RubikLaws.RotatedChangesOnly` | modules/rubik.js:302-315 | A cell that `rotate` changes lies in the base's strip or on its `face` or `ccw_face`. |
| `RubikLaws.RotatedPermutes` | modules/rubik.js:302-315 | `rotate` keeps the multiset of colours. |
| `RubikLaws.RotatedCodes` | modules/rubik.js:289-312 | How `b`, `-b`, `2b` and `-2b` decode: clockwise, counter-clockwise, and the half turn for both doubles. |
| `RubikLaws.InverseLaw` | modules/rubik.js:289-315 | `rotate(b)` then `rotate(-b)` restores the cube, and so does the other order. |
| `RubikLaws.PeriodLaw` | modules/rubik.js:289-315 | Four applications of `rotate(b)` restore the cube. |
| `RubikLaws.DoublePeriodLaw` | modules/rubik.js:289-315 | Two applications of `rotate(2b)` restore the cube. |
| `RubikLaws.CounterTurnedBases` | modules/rubik.js:130-166 | Only X, Y and Z have a counter-turned face. |
| `RubikLaws.DoubleLaw` | modules/rubik.js:302-307 | `rotate(2b)` equals `rotate(b)` twice on every cube iff b is not X, Y or Z. |
| `RubikLaws.TurnedDoubleSplitFails` | modules/rubik.js:386-411 | In a double turn, the counter-turned face keeps its cells, because the reversed half-turn list is the identity. |
| `RubikLaws.IntendedDoubleLaw` | modules/rubik.js:305-307 | Corrected: with the counter-turned face given a half turn, `rotate(2b)` is `rotate(b)` twice for every base. |
| `RubikLaws.IntendedAgrees` | modules/rubik.js:284-316 | The correction changes nothing except the X/Y/Z half turns. |
| `Notation.ParseRotations` | modules/rubik.js:318-343 | `parse_rotations` yields at most one code per character, and every code is b, -b or 2b for a base b. |
| `Notation.RotationToString` | modules/rubik.js:348-366 | `rotation_to_string` gives one or two characters. A name other than "?" is the letter of the code's base, then a prime exactly for a negative code, a 2 exactly for a positive even code, and nothing otherwise. |
| `Notation.RotationsToString` | modules/rubik.js:345-347 | `rotations_to_string` is empty iff there are no codes; n codes give between 2n-1 and 3n-1 characters. |
| `Notation.Matches` | modules/rubik.js:319-343 | The regular-expression scan yields at most one code per character, and every code is b, -b or 2b for a base b. |
| `Notation.NameLetter` | modules/rubik.js:23-36 | The letter of each table entry reads back as that entry's base code. |
| `Notation.ToStringDefined` | modules/rubik.js:348-366 | `rotation_to_string` names a code (anything but "?") iff the code is b, -b or 2b. |
| `Notation.ToStringUnnamed` | modules/rubik.js:348-366 | `rotation_to_string(0) == "?"`. A negative double `-2b` is also "?", because the sign is stripped before the doubling is tested. |
| `Notation.BaseOfCodes` | modules/rubik.js:369-377 | `base_rotation` maps b, -b, 2b and -2b to b. |
| `Notation.MatchesOfFormatted` | modules/rubik.js:345-347 | Scanning the space-joined names of codes b, -b, 2b gives the codes back. |
| `Notation.ParseRoundTrip` | modules/rubik.js:318-366 | `parse_rotations(rotations_to_string(rs)) == rs` for codes b, -b, 2b. |
| `Notation.ParseIgnoresCase` | modules/rubik.js:321 | For an ASCII string, parsing its lower-cased form gives the same codes. |
| `Notation.ParseSkips` | modules/rubik.js:319-321 | A leading ASCII character that is not a move letter in either case is skipped. |
| `Notation.ParseEmpty` | modules/rubik.js:321-324 | For an ASCII string, the parse is `[]` iff no character upper-cases to a move letter. |
| `Solver.GetAxis` | modules/solver.js:167-180 | `get_axis` returns an axis in 0..2 or `undefined`. |
| `Solver.AxisOfBases` | modules/solver.js:167-180 | F/B map to 0, R/L to 1, U/D to 2. Every slice and whole-cube base has no axis. |
| `Solver.AxisOfCodes` | modules/solver.js:167-180 | b, -b and 2b have the same axis. |
| `Solver.MoveAllowed` | modules/solver.js:142-165 | An allowed move never has the base of the move before it. On the same axis it is allowed only when the previous base is greater. On another axis it is always allowed. |
| `Solver.AllowedFirstNotSame` | modules/solver.js:142-159 | Any move is allowed first. A move on the previous move's base never is. |
| `Solver.AllowedOrder` | modules/solver.js:154-164 | A move on another axis is always allowed. For two bases on one axis, the move is allowed iff the last base is greater, so exactly one order of two different bases is allowed. |
| `Solver.FollowersMembers` | modules/solver.js:129-131 | The moves linked from a node are the allowed moves that `move_allowed` lets follow it. |
| `Solver.MoveSetBuilder.GetMoveData` | modules/solver.js:115-123 | `get_move_data` returns the node, creating it empty if absent. |
| `Solver.MoveSetBuilder.ConstructImpl` | modules/solver.js:125-136 | `construct_impl` updates the graph as the recursive definition `Construct` says. |
| `Solver.ConstructMoveSet` | modules/solver.js:112-140 | `construct_move_set` builds a graph with nodes for the root and every allowed move. The root's edges are the allowed moves. Node r has edge r2 iff r2 is allowed and `move_allowed(r2, r)`. No node lists an edge twice. |
| `Solver.MoveSetCharacterised` | modules/solver.js:112-140 | The same shape, as a fact about the graph-building function. |
| `Solver.WalkIsAllowed` | modules/solver.js:112-164 | A move sequence is a walk of the graph iff every move is allowed and may follow the one before it. |
| `Solver.Count` | modules/solver.js:85-106 | `count_moves_impl(node, depth)` below `max_depth` counts at least one move per edge, and at the last level exactly the number of edges. |
| `Solver.CountIsWalks` | modules/solver.js:82-110 | `count(node, d)` is the number of walks of 1 to `max_depth - d` edges from node. |
| `Solver.MoveCounter.CountImpl` | modules/solver.js:85-106 | The memoised `count_moves_impl` returns the un-memoised count. The cache only grows, and every entry is the count for its node and depth. |
| `Solver.CountMoves` | modules/solver.js:82-110 | `count_moves` leaves a sound memo table holding the root's count at depth 0 when `max_depth > 0`, and an empty table otherwise. |
| `Solver.Copies` | modules/solver.js:27 | `max_moves + 1` fresh, pairwise distinct copies of the cube. |
| `Solver.Search.SolveImpl` | modules/solver.js:40-77 | Writes only the cubes from its own depth down. Progress counts never decrease, and below the fifth level from the bottom the counter grows by at most the node's count. Each solution sent extends the current path and is valid. After a solution is sent, the `break` skips the rest of its parent's subtree: no later solution starts with that parent and is at least as long. Nothing is missed: every valid solution that runs through the current path is sent or lies in a part that such a `break` skipped (`Covered`). |
| `Solver.Search.TryMove` | modules/solver.js:49-76 | One loop pass: make the move, report or descend, then report progress at depth `max_moves - 5`. `solved` is whether the move solves the cube. If it does, every longer sequence through the path is covered by the solution sent; if not, every valid solution through the move is covered. |
| `Solver.Search.Advance` | modules/solver.js:50-55 | The move is written into the next depth's cube and recorded in `moves`. `solved` is whether that state wildcard-matches the target. |
| `Solver.Search.ReportSolution` | modules/solver.js:56-60 | Sends `moves[..depth]`, which is a valid, new solution. |
| `Solver.Search.ReportProgress` | modules/solver.js:64-72 | Adds the count below the move to `progress.count` and sends it with the total. The new count is at most the total. |
| `Solver.SolutionSkips` | modules/solver.js:56-75 | A solution one move below the path covers every longer sequence through the path, which is what the `break` leaves unsearched. |
| `Solver.FoundViaStep` | modules/solver.js:49-76 | A loop pass that did not solve the cube extends the covered solutions to those whose next move is this edge; the one-move extension itself is no solution. |
| `Solver.WalkAt` | modules/solver.js:49 | Each move of a walk is an edge of the node reached by the moves before it, so the loop over the node's edges meets the next move of every valid solution. |
| `Solver.FoundFromRoot` | modules/solver.js:79 | Coverage below the empty path is coverage of every valid solution. |
| `Solver.SentEvents` | modules/solver.js:40-75 | Every solution sent has 1 to `max_moves` moves along the graph, ends wildcard-equal to the target and passes no solved state on the way. No solution starts with the parent of an earlier solution and is at least as long as it (so it is no repeat, no sibling and nothing below a sibling of it). Progress reports carry the total, never decrease and never exceed the total. |
| `Solver.StartSearch` | modules/solver.js:35-79 | The search from the root at depth 1 with the root count as total. Its events satisfy `SentEvents`, and every valid solution is covered: it is sent, or it begins like a sent solution without its last move and is at least as long. |
| `Solver.Solve` | modules/solver.js:16-80 | `solve` returns `[[]]` iff the cube wildcard-equals `create(get_centers(cube))`. An unsolved cube with `max_moves <= 0` throws. Otherwise every event satisfies `SentEvents`, and every valid solution is covered by some solution sent. So when no solution is sent, none of 1 to `max_moves` moves exists. The caller's cube is never written. |
| `LegacyCube.Create` | modules/cube.js:37-61 | 54 cells in blocks of nine: GREEN, BLUE, RED, ORANGE, YELLOW, WHITE (cell i holds colour i/9). |
| `LegacyCube.Copy` | modules/cube.js:64-66 | `copy` returns a new array with the same cells. |
| `LegacyCube.GetAt` | modules/cube.js:110-112 | On a 54-cell cube, `get_at` with row and column in 0..2 reads one of the face's nine cells. On a new cube it reads the face's colour. |
| `LegacyCube.SetAt` | modules/cube.js:110-116 | `set_at` changes exactly the cell `face*9+row*3+col`. |
| `LegacyCube.RotateFace` | modules/cube.js:142-161 | The face's cells are rearranged by the clockwise list or its reverse; nothing else changes. |
| `LegacyCube.FaceTurnCells` | modules/cube.js:142-161 | Clockwise, face cell i receives old cell `[6,3,0,7,4,1,8,5,2][i]`; counter-clockwise uses the reversed list. |
| `LegacyCube.FaceTurnFrame` | modules/cube.js:142-161 | Only the face's cells change, and its centre is fixed. |
| `LegacyCube.FaceTurnInverse` | modules/cube.js:142-161 | A clockwise turn then a counter-clockwise turn restores the face, in either order. |
| `LegacyCube.FaceTurnPeriod` | modules/cube.js:142-161 | Four clockwise face turns restore the cube. |
| `LegacyCube.FTurnedAsWritten` | modules/cube.js:164-198 | Clockwise, `rotate_f` as written is the intended F turn. Counter-clockwise, it differs from the intended F' only at LEFT+2 and LEFT+3. |
| `LegacyCube.RotateF` | modules/cube.js:164-198 | `rotate_f` leaves the buffer equal to `FTurnedAsWritten(old, ccw)`. |
| `LegacyCube.ClockwiseBranch` | modules/cube.js:184-197 | The clockwise copies are the intended quarter cycle of the ring. |
| `LegacyCube.CounterBranch` | modules/cube.js:171-184 | The counter-clockwise copies, with the write to LEFT+3. |
| `LegacyCube.FRingClockwise` | modules/cube.js:185-196 | Clockwise F: U6-8 ← L8,5,2 ← D2,1,0 ← R0,3,6 ← old U6-8. |
| `LegacyCube.FRingCounter` | modules/cube.js:172-183 | The intended counter-clockwise F, cell by cell. |
| `LegacyCube.FFrame` | modules/cube.js:164-198 | F changes no cell off the front face and the ring. |
| `LegacyCube.FTurnedIsRubikF` | modules/cube.js:164-198 | The intended F is rubik.js's F (`1`) and F' (`-1`). |
| `LegacyCube.FInverse` | modules/cube.js:171-184 | Corrected: F and F' undo each other. |
| `LegacyCube.FPeriod` | modules/cube.js:185-196 | Four clockwise F turns restore the cube. |
| `LegacyCube.AsWrittenRoundTrip` | modules/cube.js:183 | As written, F then F' leaves LEFT+2 with the old D0 and LEFT+3 with the old LEFT+2. |
| `LegacyCube.AsWrittenCounterForgets` | modules/cube.js:183 | As written, F' discards LEFT+3's value, so no move sequence can undo it. |
| `LegacyCube.AsWrittenRoundTripFails` | modules/cube.js:183 | On a new cube, F then F' as written leaves WHITE where BLUE was. |
| `LegacyCube.Rotate` | modules/cube.js:119-137 | `rotate` succeeds iff `1 <= abs(code) <= 12`. `abs(code) == 1` is F (as written); every other code leaves the cube unchanged. |

## Left out

- The presentation layer (`main.js`): DOM, themes, local storage, timers, the time estimate and the sorted insertion of solutions. Worker plumbing (`worker.js`) and cancellation by terminating the worker are left out too. These are I/O and concurrency.
- `to_string` in both engines: display-only string building.
- The `range` helper: the X, Y and Z strips it builds are written out as literal sequences.
- The centre-orientation functions that the solver and the UI call (`get_center_orientations`, `set_center_orientation`, `set_at_index`, `for_each`): `modules/rubik.js` does not define them, so there is no code to model. `rotate_into` is not defined there either; it is modelled as "dest receives the rotated copy of src" (`Rubik.RotateInto`).
- JavaScript object keys: `for...in` yields string keys, and integer-like keys come before others in ascending order. The model keeps numeric codes and visits edges in insertion order. Every property proved about the graph and the search holds whatever the order.
- Solver.Solve: the callback is modelled as the returned sequence of events. The thrown exceptions for `max_moves <= 0` become the `Crashed` outcome, without the exception's kind.
- Notation.ParseRotations: upper-casing is modelled for ASCII letters only. JavaScript's `toUpperCase` also maps some other characters to move letters, some of them to two letters ('ſ' to "S", 'ß' to "SS", 'ﬀ' to "FF"), and the model does not. On such strings the model's parse differs from the program's.
- Notation.ParseIgnoresCase: stated for ASCII strings only, because of the upper-casing above ('ẞ' lower-cases to 'ß', which upper-cases to "SS").
- Notation.ParseSkips: stated for an ASCII first character only, because of the upper-casing above.
- Notation.ParseEmpty: stated for ASCII strings only, because of the upper-casing above.
- Codes and bounds are integers. JavaScript numbers with fractions, `NaN` and strings passed as codes are not modelled.

## Findings

| source | as written | input that shows it | evidently intended | confidence | as-written member | corrected member |
|---|---|---|---|---|---|---|
| modules/rubik.js:305-307 | The double turn of X/Y/Z calls `rotate_face(ccw_face, !ccw, twice)` with `ccw` false. `rotate_face` then reverses the half-turn list, which is the identity, so `ccw_face` does not turn. | `rotate(2*X)` on the numbered cube (cell i holds i): LEFT keeps its cells, while `rotate(X); rotate(X)` turns LEFT by 180°. | Every face a double turn touches is turned 180°, so `rotate(2b)` is `rotate(b)` twice. | high (proved; not executed) | `RubikLaws.DoubleLaw` | `RubikLaws.IntendedDoubleLaw` |
| modules/cube.js:183 | The counter-clockwise F writes `save[2]` to LEFT+3. | `create()`, then F, then F': LEFT+2 holds WHITE instead of BLUE. | `save[2]` goes to LEFT+2, so F' undoes F. | high (proved; not executed) | `LegacyCube.AsWrittenRoundTrip` | `LegacyCube.FInverse` |

The operations `Rubik.Rotate` and `LegacyCube.RotateF` keep the as-written behaviour, because the solver in this model applies moves exactly as the program does. The corrected definitions (`RubikLaws.RotatedIntended`, `LegacyCube.FTurned`) carry the intended laws and are proved equal to the as-written ones everywhere else (`RubikLaws.IntendedAgrees`). For F, the contract of `LegacyCube.FTurnedAsWritten` states how the two differ: they agree clockwise, and counter-clockwise they agree everywhere except LEFT+2 and LEFT+3.
