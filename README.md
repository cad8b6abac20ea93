# Puzzle games: Lights Out and the sliding fifteen puzzle

This project models the game logic of three small browser puzzles and proves
properties of that logic.

- **Lights Out** (`03-lights-out/main.js`) is an N×N board of lights. Pressing a
  cell toggles it and its in-bounds orthogonal neighbours. A new game starts
  from all-off and applies `3·N²` random presses. The game keeps a move history
  (`moveStack`, `movePtr`, `moves`) with undo and redo. There is a
  "chase the lights" hint, and a best-moves record.
- **Fifteen** (`05-fifteen/src/main.js`) is the sliding puzzle on a `size×size`
  board that holds a permutation of `0 .. size²-1`, with 0 as the blank. It
  covers the row-major index helpers, the solved layout, the inversion count
  and the parity solvability test. A new board comes from a Fisher-Yates
  shuffle repeated until the board is solvable and not solved. Clicks and arrow
  keys slide tiles, and per-size best-moves and best-time records are kept.
- **The placeholder board** (`04-fifteen/src/main.js`) has only `resetBoard` and
  the same `formatTime`, which is modelled once, for both files.

Modules follow the program's structure:

- `Js`: the JavaScript built-ins the code relies on. It covers floor division,
  `%` that truncates toward zero, `Math.abs`, `indexOf`, `String(n)` and
  `padStart`.
- `RowMajor`: index arithmetic for `r * size + c`.
- `LightsOutBoard`: the board rules as functions.
- `LightsOut`: the Lights Out session. Each handler is first a function on a
  `Session` value. The class `Game` then holds the same state in fields (the
  board is an `array<bool>` toggled in place), and its methods are proved to
  perform those steps.
- `Bests`: the fifteen puzzle's record rule.
- `TimeFormat`: `formatTime`.
- `FifteenBoard`: the fifteen puzzle's board as values.
- `FifteenParity`: the proof that a slide never changes the verdict of
  `isSolvable`.
- `Fifteen`: the game object, with its loops kept as loops. These are the
  inversion count, the solved checks and the in-place Fisher-Yates round on an
  `array<int>`.
- `FifteenPlaceholder`: `resetBoard`.

The Lights Out code has no linear-algebra solver. Its hint is the cell one row
below the first ON cell, wrapping from the last row to the first, and the model
follows that. It proves that following this hint, outside the wrap-around row,
clears the first ON cell and keeps every earlier cell off.

Inputs that come from outside the program are parameters of the model:

- `Math.random` draws: the Lights Out presses, and one sequence of draws per
  Fisher-Yates round.
- The elapsed time, in whole milliseconds.
- What `localStorage` holds: `Option<int>`, where `None` stands for `null`.
- Whether focus is inside the board.

## Model

| member | source | states |
|---|---|---|
| `LightsOutBoard.Idx` | 03-lights-out/main.js:27-29 | `idx(r, c)`. It has no contract of its own; `LightsOutBoard.GetRCOfIdx` states that `get_rc` inverts it. |
| `LightsOutBoard.InBounds` | 03-lights-out/main.js:31-33 | `inBounds(r, c)`. It has no contract of its own; `LightsOutBoard.GetRC` and `LightsOutBoard.GetRCOfIdx` carry its meaning. |
| `LightsOutBoard.Press` | 03-lights-out/main.js:45-62 | `applyMove(i)` as a function. Its contract keeps the board's length; `LightsOutBoard.PressAt`, `LightsOutBoard.PressTwice` and `LightsOutBoard.PressAllAt` carry what it does. |
| `LightsOutBoard.FirstOn` | 03-lights-out/main.js:131-132 | The scan of `showHint` for the first ON tile: every earlier cell is off and, when one is found, it is on. |
| `LightsOutBoard.GetRC` | 03-lights-out/main.js:34-39 | Gives `{-1,-1}` exactly for indices off the board; otherwise an in-bounds row and column whose `idx` is the index. |
| `LightsOutBoard.GetRCOfIdx` | 03-lights-out/main.js:27-39 | `get_rc(idx(r, c))` is `(r, c)` for every in-bounds cell, using `idx` and `inBounds`. |
| `LightsOutBoard.Toggle` | 03-lights-out/main.js:40-43 | `toggle(i)` negates cell `i` and leaves every other cell unchanged. |
| `LightsOutBoard.PressAt` | 03-lights-out/main.js:45-62 | `applyMove(i)` flips cell `j` exactly when `j` is `i` or an orthogonal neighbour of `i`. |
| `LightsOutBoard.PressTwice` | 03-lights-out/main.js:45-62 | Applying the same move twice restores the board. |
| `LightsOutBoard.PressAllAt` | 03-lights-out/main.js:45-62 | After any sequence of moves, a cell is flipped exactly when an odd number of those moves affect it, whatever their order. |
| `LightsOutBoard.IsWin` | 03-lights-out/main.js:64-67 | `isWin()` holds exactly when every cell is off. |
| `LightsOutBoard.IsWinIffAllOff` | 03-lights-out/main.js:64-67 | The win test accepts the all-off board and no other. |
| `LightsOutBoard.ReplaySolvesShuffle` | 03-lights-out/main.js:93-107 | Replaying the random presses of `shuffle` turns the board off again. |
| `LightsOutBoard.ShuffleIsSolvable` | 03-lights-out/main.js:93-107 | Every board `shuffle` produces can be solved by some sequence of presses. |
| `LightsOutBoard.HintTarget` | 03-lights-out/main.js:128-143 | There is no hint exactly when the board is won; otherwise the hint is a cell of the board. |
| `LightsOutBoard.HintIsBelowFirstOn` | 03-lights-out/main.js:128-143 | The hint is in the column of the first ON cell, one row down modulo the size. |
| `LightsOutBoard.HintInNextRow` | 03-lights-out/main.js:128-143 | Outside the last row, the hint is the cell directly below the first ON cell. |
| `LightsOutBoard.FollowingHintClearsFirstOn` | 03-lights-out/main.js:128-143 | Pressing a hint outside the wrap-around row turns off the first ON cell and every cell before it. |
| `LightsOut.BestAfterWin` | 03-lights-out/main.js:201 | `Math.min(bestMoves, moves)` with `null` read as 0. It has no contract of its own; `LightsOut.FirstWinRecordsZero` and `LightsOut.AfterClick` carry it. |
| `LightsOut.Trimmed` | 03-lights-out/main.js:177-183 | `trimHistory()` keeps exactly the entries up to and including the pointer, as a prefix of the old stack. |
| `LightsOut.AfterShuffle` | 03-lights-out/main.js:93-107 | A new game of `3·N²` presses clears the history, keeps the best, and yields a solvable board. |
| `LightsOut.AfterClick` | 03-lights-out/main.js:186-206 | A click applies the move, truncates the redo tail, records the cell at the new pointer and counts the move. It keeps the earlier history, and on a win stores `Math.min(bestMoves, moves)` with `null` read as 0. |
| `LightsOut.AfterKey` | 03-lights-out/main.js:209-226 | Space/Enter performs one click, counting one move and storing the click's best on a win, and records the cell twice, moving the pointer by two. |
| `LightsOut.AfterUndo` | 03-lights-out/main.js:147-154 | With `moves > 0`, undo toggles the single cell at the pointer and moves the pointer and the counter back. Otherwise it does nothing. |
| `LightsOut.AfterRedo` | 03-lights-out/main.js:167-174 | With entries past the pointer, redo toggles the single cell at the old pointer (none at -1) and then advances. Otherwise it does nothing. |
| `LightsOut.ClickClearsRedo` | 03-lights-out/main.js:167-193 | Right after a click there is nothing to redo. |
| `LightsOut.UndoNeverRestores` | 03-lights-out/main.js:147-154 | On every board of two or more rows, a click followed by undo leaves a board different from the one before the click. |
| `LightsOut.RedoDoesNotReplay` | 03-lights-out/main.js:167-174 | Undoing the first move of a game and redoing it leaves the undo's board unchanged, which differs from the board the move produced. |
| `LightsOut.KeyRecordsTwice` | 03-lights-out/main.js:218-226 | A Space/Enter press grows the gap between recorded entries and counted moves by one. |
| `LightsOut.FirstWinRecordsZero` | 03-lights-out/main.js:201 | With no stored best, the first win records 0, and every later win keeps 0. |
| `LightsOut.IntendedClick` | 03-lights-out/main.js:186-206 | The corrected click keeps the counter equal to the entries up to the pointer; on a win it records the move count when no best exists, otherwise the smaller value. |
| `LightsOut.IntendedUndo` | 03-lights-out/main.js:147-154 | The corrected undo re-applies the whole move at the pointer. |
| `LightsOut.IntendedRedo` | 03-lights-out/main.js:167-174 | The corrected redo re-applies the whole move just past the pointer. |
| `LightsOut.IntendedUndoRestores` | 03-lights-out/main.js:147-154 | A corrected undo after a click restores the board, the pointer and the counter. |
| `LightsOut.IntendedRedoRestores` | 03-lights-out/main.js:167-174 | A corrected redo after an undo restores the session exactly. |
| `LightsOut.IntendedNewMoveDropsRedo` | 03-lights-out/main.js:177-195 | After an undo and a new move, the history holds only up to the new move and redo has nothing to replay. |
| `LightsOut.Game.constructor` | 03-lights-out/main.js:248-267 | `init()` at size 3 with the stored best is the model's new game. |
| `LightsOut.Game.Toggle` | 03-lights-out/main.js:40-43 | The array after `toggle(i)` is the board with cell `i` negated. |
| `LightsOut.Game.ApplyMove` | 03-lights-out/main.js:45-62 | The loop over the four offsets leaves the array equal to the pressed board. |
| `LightsOut.Game.Shuffle` | 03-lights-out/main.js:93-107 | The fresh array after `3·N²` presses and the cleared history equal the new-game session. |
| `LightsOut.Game.ChangeSize` | 03-lights-out/main.js:243-246 | A new size followed by `shuffle()` gives the new-game session at that size. |
| `LightsOut.Game.TrimHistory` | 03-lights-out/main.js:177-183 | The pop loop leaves the trimmed history. |
| `LightsOut.Game.Undo` | 03-lights-out/main.js:147-154 | The fields after `undo()` are the model's undo step. |
| `LightsOut.Game.Redo` | 03-lights-out/main.js:167-174 | The fields after `redo()` are the model's redo step. |
| `LightsOut.Game.Click` | 03-lights-out/main.js:186-206 | The fields after the click handler are the model's click step. |
| `LightsOut.Game.KeySelect` | 03-lights-out/main.js:209-226 | The fields after Space/Enter are the model's key step. |
| `LightsOut.Game.ShowHint` | 03-lights-out/main.js:128-143 | The scan for the first ON tile returns the model's hint, which is absent exactly on a won board. |
| `Js.Rem` | 05-fifteen/src/main.js:77 | JavaScript `%` agrees with the mathematical remainder for non-negative operands; for a negative dividend it is the negated remainder of the dividend's magnitude, in `(-b, 0]`. |
| `Js.IndexOf` | 05-fifteen/src/main.js:82-84 | `indexOf` gives -1 exactly when the value is absent, and otherwise its first position. |
| `Js.Decimal` | 05-fifteen/src/main.js:36 | `String(n)` is a non-empty digit string without leading zeros, one digit exactly below ten. |
| `Js.DecimalRoundTrip` | 05-fifteen/src/main.js:36 | Reading back the digits of `String(n)` gives `n`. |
| `Js.PadZero` | 05-fifteen/src/main.js:36 | `padStart(w, "0")` prefixes zeros up to width `w`, keeps the original as suffix and never truncates. |
| `Js.PaddedDecimalValue` | 05-fifteen/src/main.js:36 | A zero-padded decimal still denotes the number. |
| `TimeFormat.Total` | 05-fifteen/src/main.js:32 | `Math.max(0, Math.floor(ms))` is the floor for non-negative input and 0 for negative input. |
| `TimeFormat.Fields` | 05-fifteen/src/main.js:31-37 | Tenths are at most 9, seconds at most 59, and minutes, seconds, tenths and the remainder recompose the total. |
| `TimeFormat.FormatTimeShape` | 05-fifteen/src/main.js:31-37 | The output is `MM:SS.t`: at least two minute digits, a colon, two second digits, a dot and one tenths digit; parsing it back gives the three fields. |
| `TimeFormat.NegativeIsZero` | 04-fifteen/src/main.js:34-40 | A negative time formats as `00:00.0`. |
| `TimeFormat.FormatTime` | 05-fifteen/src/main.js:31-37 | `formatTime(ms)`, the same text as 04-fifteen/src/main.js:34-40. It has no contract of its own; `TimeFormat.FormatTimeShape` and `TimeFormat.NegativeIsZero` carry its properties. |
| `FifteenBoard.IndexToRC` | 05-fifteen/src/main.js:76-78 | `indexToRC(i)`. It has no contract of its own; `FifteenBoard.IndexRoundTrip` and `FifteenBoard.CellRoundTrip` carry its properties. |
| `FifteenBoard.RcToIndex` | 05-fifteen/src/main.js:79-81 | `rcToIndex(r, c)`. It has no contract of its own; `FifteenBoard.IndexRoundTrip` and `FifteenBoard.CellRoundTrip` carry its properties. |
| `FifteenBoard.CanSlide` | 05-fifteen/src/main.js:139-145 | `canSlide(t, e)`. It has no contract of its own; `FifteenParity.SlideGeometry`, `FifteenBoard.ArrowTargetCanSlide` and `FifteenBoard.EverySlideHasKey` carry its properties. |
| `FifteenBoard.ArrowTarget` | 05-fifteen/src/main.js:260-266 | The keydown handler's choice of target. It has no contract of its own; `FifteenBoard.ArrowTargetCanSlide` and `FifteenBoard.EverySlideHasKey` carry its properties. |
| `FifteenBoard.IsSolvedLayout` | 05-fifteen/src/main.js:85-90 | What `isSolved` and `isSolvedArray` (lines 123-126) accept. It has no contract of its own; `Fifteen.IsSolvedArray` and `Fifteen.Game.IsSolved` are proved to compute it. |
| `FifteenBoard.Inversions` | 05-fifteen/src/main.js:91-100 | The inversion count. It has no contract of its own; `FifteenBoard.InversionsCountPairs` and `Fifteen.CountInversions` carry its properties. |
| `FifteenBoard.BlankRowFromBottom` | 05-fifteen/src/main.js:101-105 | `blankRowFromBottom(arr)`. It has no contract of its own; `FifteenBoard.SolvedBlankRow` and `FifteenParity.SlideRows` carry its properties. |
| `FifteenBoard.IsSolvable` | 05-fifteen/src/main.js:106-122 | `isSolvable(arr)`. It has no contract of its own; `FifteenBoard.IsSolvableCases`, `FifteenBoard.SolvedIsSolvable` and `FifteenParity.SlidePreservesSolvable` carry its properties. |
| `FifteenBoard.IndexRoundTrip` | 05-fifteen/src/main.js:76-81 | `rcToIndex(indexToRC(i))` is `i`, with an on-board row and column, for every index of the board. |
| `FifteenBoard.CellRoundTrip` | 05-fifteen/src/main.js:76-81 | `indexToRC(rcToIndex(r, c))` is `(r, c)` for every on-board cell. |
| `FifteenBoard.ArrowTargetCanSlide` | 05-fifteen/src/main.js:260-266 | Every tile an arrow key picks is on the board and passes `canSlide` against the blank. |
| `FifteenBoard.EverySlideHasKey` | 05-fifteen/src/main.js:139-145 | Conversely, every tile that can slide into the blank is the pick of some arrow key. |
| `FifteenBoard.SolvedBoard` | 05-fifteen/src/main.js:129 | The solved layout is `1 .. n-1` followed by the blank. |
| `FifteenBoard.SolvedBoardModular` | 05-fifteen/src/main.js:129 | The solved layout is `(i + 1) % n` at every position. |
| `FifteenBoard.SolvedIsPermutation` | 05-fifteen/src/main.js:129 | The solved layout holds each of `0 .. n-1` once. |
| `FifteenBoard.PermutationPosition` | 05-fifteen/src/main.js:82-84 | In a permutation, `indexOf` finds each value at its only position. |
| `FifteenBoard.NonBlank` | 05-fifteen/src/main.js:93 | `filter(v => v !== 0)` is no longer than its input. |
| `FifteenBoard.NonBlankMembers` | 05-fifteen/src/main.js:93 | A value is in the filtered sequence exactly when it is in the input and is not the blank. |
| `FifteenParity.NonBlankSingleton` | 05-fifteen/src/main.js:93 | The filter of a one-element sequence is empty for the blank and the element itself otherwise. |
| `FifteenBoard.NonBlankAppend` | 05-fifteen/src/main.js:93 | The filter distributes over concatenation. |
| `FifteenBoard.InversionsCountPairs` | 05-fifteen/src/main.js:91-100 | The inversion count equals the number of out-of-order index pairs. |
| `FifteenBoard.IsSolvableCases` | 05-fifteen/src/main.js:101-122 | On an odd width a board passes `isSolvable` exactly when its inversion count is even. On an even width it passes exactly when "the count is odd" matches "the blank's row from the bottom is even". |
| `FifteenBoard.SolvedBlankRow` | 05-fifteen/src/main.js:101-105 | On the solved board the blank is on row 1 from the bottom. |
| `FifteenBoard.SolvedIsSolvable` | 05-fifteen/src/main.js:91-122 | The solved board has no inversions and passes `isSolvable`. |
| `FifteenBoard.Swap` | 05-fifteen/src/main.js:150 | The destructuring swap exchanges the two cells. |
| `FifteenBoard.SwapOthers` | 05-fifteen/src/main.js:150 | The swap leaves every other cell unchanged. |
| `FifteenBoard.SwapPermutation` | 05-fifteen/src/main.js:134 | A swap keeps a permutation a permutation. |
| `FifteenBoard.SlideResult` | 05-fifteen/src/main.js:146-152 | `slide(t)` fails exactly when `t` holds the blank or is not adjacent to it; otherwise it swaps `t` with the blank. |
| `FifteenBoard.SlideMovesTileIntoBlank` | 05-fifteen/src/main.js:146-152 | After a successful slide the board is still a permutation, the blank is at `t`, and the moved tile sits where the blank was. |
| `FifteenBoard.ShuffleFrom` | 05-fifteen/src/main.js:132-135 | A Fisher-Yates round keeps the board's length. |
| `FifteenBoard.ShuffleFromPermutation` | 05-fifteen/src/main.js:131-136 | A Fisher-Yates round keeps a permutation a permutation. |
| `FifteenBoard.Shuffled` | 05-fifteen/src/main.js:127-138 | The board after any number of rounds has `size²` cells. |
| `FifteenBoard.ShuffledPermutation` | 05-fifteen/src/main.js:127-138 | The board after any number of rounds, starting from the solved layout, is a permutation. |
| `FifteenBoard.OneByOneNeverAccepted` | 05-fifteen/src/main.js:136 | On a 1×1 board no round passes the exit test, so the `do ... while` never ends. |
| `FifteenParity.SlidePreservesSolvable` | 05-fifteen/src/main.js:106-152 | A board after a slide passes `isSolvable` exactly when the board before did. |
| `FifteenParity.SwapWithBlankParity` | 05-fifteen/src/main.js:91-100 | Exchanging the blank with a tile across `d` other tiles changes the inversion count by an amount of the parity of `d`. |
| `FifteenParity.SlideGeometry` | 05-fifteen/src/main.js:139-145 | Adjacent cells are one apart in the same row, or `size` apart in neighbouring rows. |
| `FifteenParity.SlideRows` | 05-fifteen/src/main.js:101-105 | A horizontal slide crosses no tile and keeps the blank's row from the bottom; a vertical one crosses `size - 1` tiles and moves it to a neighbouring row. |
| `FifteenParity.ParityStep` | 05-fifteen/src/main.js:106-122 | When the count's parity changes with `d` and the blank row moves as a slide moves it, the verdict of the test is unchanged. |
| `Fifteen.CountInversions` | 05-fifteen/src/main.js:91-100 | The nested loops of `inversions` return the inversion count of the non-blank tiles, which is the number of out-of-order pairs. |
| `Fifteen.CountBelowFrom` | 05-fifteen/src/main.js:95-97 | The inner loop counts the later tiles smaller than `a[i]`. |
| `Fifteen.IsSolvedArray` | 05-fifteen/src/main.js:123-126 | `isSolvedArray` holds exactly for the solved layout. |
| `Fifteen.IsSolvableCheck` | 05-fifteen/src/main.js:106-122 | The test as written computes the model's verdict. |
| `Fifteen.ShuffleRound` | 05-fifteen/src/main.js:132-135 | The in-place loop on the array performs one Fisher-Yates round. |
| `Fifteen.AcceptedFrom` | 05-fifteen/src/main.js:131-136 | The number of rounds found, if any, lies between the starting point and the number of draws. |
| `Fifteen.AcceptedFromIsFirst` | 05-fifteen/src/main.js:131-136 | The round found is accepted and no earlier one is; the answer is `None` exactly when no round with draws is accepted. |
| `Fifteen.SolvedArray` | 05-fifteen/src/main.js:129 | `Array.from` with `(i + 1) % n` builds the solved layout. |
| `Fifteen.ShuffledSolvableTiles` | 05-fifteen/src/main.js:127-138 | The shuffle returns the board after the first accepted round: a permutation that is solvable and not solved. |
| `Fifteen.AfterSlide` | 05-fifteen/src/main.js:228-252 | A failed slide changes nothing. A successful one counts a move and reports the win. Records change only on a win, and then each becomes the stored-or-strictly-better value for the move count and the elapsed time. |
| `Fifteen.BestsNeverIncrease` | 05-fifteen/src/main.js:240-247 | No record ever grows, and a record that changes becomes this win's move count or elapsed time. |
| `Fifteen.AfterKey` | 05-fifteen/src/main.js:254-258 | Other keys, and keys with focus outside the board, change nothing. |
| `Fifteen.ArrowKeyActsAsClick` | 05-fifteen/src/main.js:254-284 | Inside the board, an arrow key with no tile beyond the edge changes nothing, and one that picks a tile has exactly the outcome of sliding that tile, records included. |
| `Fifteen.ArrowKeyAlwaysSlides` | 05-fifteen/src/main.js:260-284 | An arrow key that picks a tile always slides it: one more move, and the blank moves to the picked cell. |
| `Bests.RecordBest` | 05-fifteen/src/main.js:277-280 | A win stores its value when there is no record or when it is strictly smaller; the record never exceeds the old one or the new value. |
| `Bests.RecordIsMinimum` | 05-fifteen/src/main.js:240-247 | After a series of wins the record is the minimum of everything seen. |
| `Bests.RecordNeverIncreases` | 05-fifteen/src/main.js:240-247 | Further wins never increase a record. |
| `Fifteen.Game.constructor` | 05-fifteen/src/main.js:288-289 | The page load produces an accepted shuffled board that satisfies the invariant, with zero moves. |
| `Fifteen.Game.NewGame` | 05-fifteen/src/main.js:202-213 | `newGame()` installs the first accepted shuffle and zeroes the counter. |
| `Fifteen.Game.ChangeSize` | 05-fifteen/src/main.js:217-220 | A new size then `newGame()` gives a fresh accepted board of that size. |
| `Fifteen.Game.FindEmpty` | 05-fifteen/src/main.js:82-84 | `findEmpty()` returns the blank's position, the only cell holding 0. |
| `Fifteen.Game.IsSolved` | 05-fifteen/src/main.js:85-90 | `isSolved()` holds exactly for the solved layout. |
| `Fifteen.Game.Slide` | 05-fifteen/src/main.js:146-152 | The array after `slide(t)` is the model's slide result, and the array keeps the invariant: a solvable permutation. |
| `Fifteen.Game.Move` | 05-fifteen/src/main.js:233-251 | A slide, its move count and its records, as the click and key handlers share them, equal the model's outcome. |
| `Fifteen.Game.Click` | 05-fifteen/src/main.js:228-252 | The click handler's effect equals the model's outcome for the clicked tile. |
| `Fifteen.Game.KeyDown` | 05-fifteen/src/main.js:254-286 | The keydown handler's effect equals the model's outcome for the key. |
| `FifteenPlaceholder.Board.ResetBoard` | 04-fifteen/src/main.js:85-93 | The push loop builds the solved layout, a permutation, and zeroes the counter; a zero size gives `[0]`. |
| `FifteenPlaceholder.Board.constructor` | 04-fifteen/src/main.js:108 | The page load is `resetBoard()` at the initial size. |

## Left out

- Rendering, the DOM, ARIA labels, focus movement by the Lights Out arrow keys, the theme toggle and viewport sizing. They change no game state.
- Timers (`performance.now`, `setInterval`). The elapsed time is a parameter, in whole milliseconds. `formatTime` takes any real number.
- `localStorage`. A stored best is `Option<int>`, so a stored value that `parseInt` or `Math.min` would read as `NaN` is not modelled. The fifteen puzzle stores the elapsed time as a fraction in the source; the model keeps whole milliseconds.
- `Math.random`. The random choices are parameters: `3·N²` presses on the board, and one draw per step of each Fisher-Yates round.
- `Fifteen.ShuffledSolvableTiles`: requires that some round of the given draws is accepted. The source loops until one is; on a 1×1 board none ever is (`FifteenBoard.OneByOneNeverAccepted`).
- Disabling tiles and buttons after a win. The model does not stop further clicks, undos or redos once a game is won.
- Lights Out's `disableHUR()` (03-lights-out/main.js:116-120, called at line 200) is never undone: no line sets `disabled = false` again. So after the first win of a page load, hint, undo and redo stay disabled in every later game, and the undo and redo behaviour in "## Findings" can only be seen before that first win. The model keeps the three handlers available throughout.
- Lights Out click indices come from rendered tiles, so the model requires them to be on the board.
- 03-lights-out/main.js:147-165 declares `undo` twice with the same body and registers it on the undo button twice. Both registrations pass the one hoisted function object, and `addEventListener` ignores a listener already registered, so a click runs a single undo step, as the model does.
- No "undo restores the board" property is claimed for the code as written. The Findings show why, and where it holds for the corrected definitions.
- The class `LightsOut.Game` follows the handlers as written. The corrected history (`IntendedClick`, `IntendedUndo`, `IntendedRedo`) is stated on `Session` values only.

## Findings

| source | as written | input that shows it | evidently intended | confidence | as-written member | corrected member |
|---|---|---|---|---|---|---|
| 03-lights-out/main.js:147-154 | `undo` toggles only the cell recorded at the pointer | any board of two or more rows and any cell: after click and undo, the cell's vertical neighbour stays flipped | undo re-applies the whole move, which is its own inverse, and restores the board | not executed | `LightsOut.UndoNeverRestores` | `LightsOut.IntendedUndoRestores` |
| 03-lights-out/main.js:167-174 | `redo` toggles `moveStack[movePtr]` before advancing the pointer, and only one cell | any first move followed by undo and redo: at pointer -1 nothing is toggled | redo re-applies the whole move just past the pointer | not executed | `LightsOut.RedoDoesNotReplay` | `LightsOut.IntendedRedoRestores` |
| 03-lights-out/main.js:218-226 | Space/Enter runs the click handler, which records the move, then records it again | any cell and Space: two entries, one counted move | one entry per move | not executed | `LightsOut.KeyRecordsTwice` | `LightsOut.IntendedClick` |
| 03-lights-out/main.js:201 | `Math.min(bestMoves, moves)` with `bestMoves` still `null` gives 0 | the first win of any game, with nothing stored | the first win records the move count; later wins keep the smaller value | not executed | `LightsOut.FirstWinRecordsZero` | `Bests.RecordIsMinimum` |
