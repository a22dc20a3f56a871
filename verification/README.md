# 2048 game logic in Dafny

A model of the game engine inside `Game2048` (2048/game.js), with proofs about it. The engine is a 4x4 grid of tiles. Each tile is empty (0) or a power of two. The model covers:

- **One line.** `slideAndMerge` drops the empty cells, makes one left-to-right pass that merges equal neighbours, and pads the line back to four cells. The model returns the score it adds.
- **One move.** `move` applies that rule to each row (left/right) or column (up/down). Right and down reverse the line, slide it and reverse it back. It reports whether any cell changed.
- **Spawning.** `addNewTile` lists the empty cells row by row, picks one with a uniform draw, and puts a 2 there (a 4 when a second draw is at least 0.9).
- **The terminal test.** `canMove` looks for an empty cell or two equal orthogonal neighbours.
- **The session rules** of `init`, `handleKeyPress` and `checkGameState`:
  - input is ignored once the game is won or over;
  - a tile is spawned only after a move that changed the board;
  - a win is checked before a loss;
  - the best score is raised only by a strictly higher final score.

Modules:

- `Lines` (lines.dfy): the line rule and the source's in-place loop.
  - It also holds an independent reference for the merge pass: the greedy split of the tiles into singles and equal pairs.
- `Boards` (boards.dfy): boards, directions and `Move`.
- `Terminal` (terminal.dfy): `CanMove`, its loop form, and the proof that it agrees with trying the four moves.
- `Spawn` (spawn.dfy): the empty-cell list and `AddNewTile`.
- `Session` (session.dfy):
  - the game record and `Init`, `CheckGameState`, `Press` and `HandleKey`;
  - the invariant `Valid`, which every reachable game keeps, including that a game still in play has a move left;
  - `Play`, a run of key presses in sequence.

`Math.random()` becomes a caller-supplied `Draw(num, den)` with `num < den`, the fraction num/den in [0, 1). That makes every operation a pure function:

- The cell index is `floor(num * n / den)`, as in `Math.floor(Math.random() * n)`.
- The new tile is a 2 exactly when `num / den < 0.9`.

One might expect `canMove` to hold exactly when some direction changes the board. That fails on the all-empty board: there `canMove` is true, because every cell is empty, yet no move changes anything. The model follows the code.

- `Terminal.EmptyBoardCanMoveButNothingMoves` exhibits the exception.
- The equivalence is proved for every board with at least one tile.
- `Session.CanMoveMatchesMoves` then restates it for every valid game. Every game reachable from `Init` holds a tile.

The best score is updated only when the game becomes over. A game that ends by winning never touches it. This is as written in the source, and the model keeps it.

## Model

| member | source | states |
|---|---|---|
| Lines.SlideAndMerge | 2048/game.js:129-145 | Models slideAndMerge: filter the empties, one merging pass, pad to four cells, returning the points earned. Its own contract states only the four-cell length, as admitted under "## Left out". The lemmas below state the rest. |
| Lines.Merge | 2048/game.js:132-138 | Models the merge loop as a recursive pass over the tiles. It carries no contract of its own. Lines.MergeIsGreedyPairing and Lines.MergeIffEqualNeighbours state what it computes. |
| Boards.SlideLine | 2048/game.js:103-118 | Models the per-line step of move: left and up slide toward the start; right and down reverse, slide and reverse back. The slid line keeps four cells whenever the input has four. |
| Spawn.EmptyCells | 2048/game.js:58-65 | Models the row-by-row scan that collects the empty cells. Its contract is stated by Spawn.EmptyCellsSpec. |
| Spawn.SpawnValue | 2048/game.js:69 | Models the choice of the new tile's value: 2 when the draw is below 0.9, else 4. Spawn.EveryEmptyCellReachable shows both values occur. |
| Spawn.AddNewTile | 2048/game.js:57-71 | Models addNewTile: on a board with an empty cell, place the drawn value in the drawn empty cell; otherwise leave the board alone. Its own contract states only that the result is a board. Spawn.AddNewTileFillsOneEmptyCell and Spawn.AddNewTileOnFullBoard state what it does. |
| Terminal.CanMove | 2048/game.js:173-193 | Models canMove as a declarative test: an empty cell, or a cell equal to its right or lower neighbour. Terminal.CanMoveScan ties it to the source's loops. |
| Session.CheckGameState | 2048/game.js:147-171 | Models checkGameState. It never changes the board or the score. Session.WinBeforeLoss and Session.OverExactlyWhenStuck state how it sets the flags and the best score, in both directions. |
| Session.Press | 2048/game.js:74-96 | Models the handling of a mapped key: ignored once won or over; otherwise move, and on a change spawn a tile and check the game state. The score never falls. Its contract is weaker than the lemmas below, as admitted under "## Left out". |
| Session.KeyDirection | 2048/game.js:76-88 | Models the lowercase lookup in the arrow map. Session.KeyNames and Session.KeyDirectionIgnoresCase state its contents. |
| Session.HandleKey | 2048/game.js:73-97 | Models handleKeyPress: look the key up, ignore unmapped keys, and press the mapped direction. The result is always a board. |
| Lines.SlideAndMergeShape | 2048/game.js:129-145 | For any line of at most four cells, the slid line has exactly four cells. All its tiles come before all its empties. It has the same total face value. It holds no more tiles than the input. |
| Lines.SlideIsGreedyPairing | 2048/game.js:130-142 | For any split of the line's tiles into singles and equal pairs where no single is followed by an equal tile, the slid line is one tile per block, padded with empties. The score added is the sum of the merged pairs' doubles. So each tile merges at most once. |
| Lines.MergeIsGreedyPairing | 2048/game.js:132-138 | The merge pass on a line without empties yields exactly the results of the greedy pairing, and earns exactly its merged values. |
| Lines.GreedyBlocks | 2048/game.js:132-138 | Every line has a greedy pairing, so the reference above applies to every input. |
| Lines.MergeIffEqualNeighbours | 2048/game.js:132-138 | On a line of tiles, a pair of equal neighbours exists exactly when the pass earns points. The same holds exactly when it shortens the line. Without such a pair the pass returns the line unchanged with gain 0. |
| Lines.SlideWithoutMerge | 2048/game.js:130-142 | The compressed tiles have no equal neighbours exactly when the slide only compresses and pads. The same holds exactly when it earns 0. |
| Lines.SlideGainMeansFewerTiles | 2048/game.js:132-137 | Points are earned exactly when the slid line holds fewer tiles than the input. Earning points implies the line changed. |
| Lines.SlideSettles | 2048/game.js:129-145 | A slide that earned nothing is idempotent. Sliding its result again changes nothing and earns nothing. |
| Lines.SlideOfFullLine | 2048/game.js:129-145 | A four-cell line that is still full after the slide was returned unchanged with gain 0. |
| Lines.SlideKeepsTiles | 2048/game.js:133-134 | If every cell is empty or a power of two, the same holds after the slide. |
| Lines.SlideAndMergeInPlace | 2048/game.js:129-145 | The source's loops (filter, in-place merge with splice, push empties) compute exactly the functional slide and its score. |
| Lines.MergeInPlace | 2048/game.js:132-138 | The left-to-right loop that doubles cell i and splices out cell i+1 computes exactly the merge pass and its score. |
| Lines.PushEmpties | 2048/game.js:140-142 | The padding loop yields the tiles followed by empties up to four cells. |
| Lines.FourTwos | 2048/game.js:132-138 | [2,2,2,2] slides to [4,4,0,0] with 8 points. The new 4s do not merge again. |
| Lines.GapThenPair | 2048/game.js:130-138 | [2,0,2,2] slides to [4,2,0,0] with 4 points. The leftmost pair merges first. |
| Boards.Move | 2048/game.js:99-127 | The moved flag holds exactly when some cell of the new board differs from the old one. |
| Boards.MoveActsOnLines | 2048/game.js:103-123 | Each row (left/right) or column (up/down) of the new board is that line of the old board slid in the move's direction. The move's points are the four lines' points added together. |
| Boards.SlideLineShape | 2048/game.js:103-118 | In every direction a slid line keeps four cells and its face value. Its tiles sit against the side the move pushes toward: the start of the line for left and up, the end for right and down. |
| Boards.MoveConservesSum | 2048/game.js:99-127 | A move keeps the total face value of the board. |
| Boards.MoveGainImpliesMoved | 2048/game.js:125 | A move that earned points changed the board. |
| Boards.UnmovedEarnsNothing | 2048/game.js:125 | A move that changed nothing earned nothing and returns the same board. |
| Boards.MoveKeepsTiles | 2048/game.js:99-127 | If every cell is empty or a power of two, the same holds after any move. |
| Boards.MovedLeavesRoom | 2048/game.js:91-92 | A move that changed the board leaves at least one empty cell, so the spawn that follows always has room. |
| Boards.MoveSettles | 2048/game.js:99-127 | A move that earned nothing is settled: repeating it on its own result leaves the board as it is, earns nothing and reports no move. |
| Boards.SlideLineSettled | 2048/game.js:129-145 | A full four-cell line without equal neighbours stays as it is in every direction. |
| Terminal.CanMoveScan | 2048/game.js:173-193 | The two nested scans return exactly CanMove. CanMove means some cell is empty or some cell equals its right or lower neighbour. |
| Terminal.CanMoveIffSomeDirectionMoves | 2048/game.js:173-193 | On every board holding a tile, canMove holds exactly when some direction's move changes the board. |
| Terminal.StuckBoardStaysPut | 2048/game.js:161-163 | When canMove is false, every direction returns the same board, earns 0 and reports no move. |
| Terminal.EmptyBoardCanMoveButNothingMoves | 2048/game.js:175-179 | On the all-empty board, canMove is true yet no direction changes anything. This is why the equivalence needs a tile. |
| Terminal.CheckerboardIsStuck | 2048/game.js:173-193 | A full board of alternating 2s and 4s has no move: canMove is false and no direction moves. |
| Spawn.EmptyCellsSpec | 2048/game.js:58-65 | The empty-cell list holds exactly the empty cells, in strictly increasing row-by-row order. |
| Spawn.EmptyCellsIffRoom | 2048/game.js:58-67 | The list is non-empty exactly when the board has an empty cell. |
| Spawn.PickIndex | 2048/game.js:68 | The picked index is always inside the list, for every draw in [0, 1). |
| Spawn.PickExact | 2048/game.js:68 | A draw of p/n picks index p out of n, so every list position can be picked. |
| Spawn.AddNewTileFillsOneEmptyCell | 2048/game.js:57-71 | On a board with room, exactly one previously empty cell receives a 2 or a 4. Every other cell is unchanged, and the tile count rises by one. |
| Spawn.AddNewTileOnFullBoard | 2048/game.js:67 | On a full board the spawn changes nothing. |
| Spawn.AddNewTileKeepsTiles | 2048/game.js:69 | If every cell is empty or a power of two, the same holds after a spawn. |
| Spawn.EveryEmptyCellReachable | 2048/game.js:68-69 | For every empty cell and for each of 2 and 4, some pair of draws puts that value in that cell. |
| Session.Init | 2048/game.js:39-55 | A new game has score 0 and both flags down, and keeps the best score it was given. |
| Session.InitValid | 2048/game.js:39-55 | A new game satisfies the game invariant. It holds exactly two tiles, and every cell is empty, a 2 or a 4. |
| Session.CheckGameStateScan | 2048/game.js:147-171 | The row-by-row win scan with early return, followed by the canMove check, computes exactly CheckGameState. |
| Session.WinBeforeLoss | 2048/game.js:150-159 | A board that first shows 2048 is won and not over, even with no move left. The best score is untouched. |
| Session.OverExactlyWhenStuck | 2048/game.js:161-170 | The game becomes over exactly when canMove is false and no fresh win applies. It then takes the larger of the old best and the score as the best. Otherwise the best score is unchanged. |
| Session.FinishedIgnoresInput | 2048/game.js:74 | Once the game is won or over, any key leaves the whole game unchanged. |
| Session.UnmappedKeyIgnored | 2048/game.js:76-88 | A key outside the arrow and WASD keys leaves the game unchanged. |
| Session.UnmovedPressChangesNothing | 2048/game.js:90-95 | A key whose move changes nothing spawns nothing, scores nothing and leaves the game unchanged. |
| Session.MovedPressSpawnsOne | 2048/game.js:90-95 | A key whose move changes the board adds the move's points to the score. It then puts exactly one new 2 or 4 into an empty cell of the moved board. |
| Session.PressKeepsValid | 2048/game.js:73-97 | Every directional key press preserves the game invariant. |
| Session.HandleKeyKeepsValid | 2048/game.js:73-97 | Every key press preserves the game invariant. |
| Session.CanMoveMatchesMoves | 2048/game.js:162 | In every valid game, the canMove test behind game over agrees with trying the four moves. |
| Session.OverMeansNoMove | 2048/game.js:161-163 | In a game that is over, no direction changes the board. |
| Session.InPlayHasMove | 2048/game.js:161-163 | In a valid game that is neither won nor over, some direction changes the board: the game-over check never leaves a stuck game in play. |
| Session.BestScoreRule | 2048/game.js:164-168 | After a key press the best score is never lower. It changes only when the game has just become over with a score strictly above the old best, and then it equals that score. |
| Session.PlayKeepsValid | 2048/game.js:73-97 | Every game reached by a sequence of key presses from a valid game is valid. |
| Session.FinishedGameIsFinal | 2048/game.js:74 | After a win or a loss, no sequence of inputs changes anything. So the win fires only once. |
| Session.PlayNeverLowersScores | 2048/game.js:73-97 | Over any sequence of key presses, neither the score nor the best score decreases. |
| Session.KeyDirectionIgnoresCase | 2048/game.js:76 | Key names are looked up without regard to ASCII case. |
| Session.KeyNames | 2048/game.js:77-86 | ArrowUp/W, ArrowDown/S, ArrowLeft/A and ArrowRight/D map to up, down, left and right. Other keys such as Enter map to nothing. |

## Left out

- Rendering is not modelled: `render`, `showMessage`, the score and best-score displays, `calculateSizes` and `setupEventListeners`. None of them changes the game state.
- Persistence is not modelled. `localStorage` is replaced by a plain natural number passed to `Init` and kept in the game record.
  - The stored value is read back as a string in the source. That string-to-number comparison is not modelled.
- `Math.random()` is replaced by caller-supplied draws. Only the 0.9 threshold and the floor of `draw * n` are modelled, not the probabilities.
- `e.preventDefault()` is left out, since it is a browser side effect.
- The JSON deep copy in `move` is left out. The model compares boards by value, which is what comparing the two JSON strings decides.
- The key lookup is modelled as the eight own keys of the arrow map. A JavaScript `in` test would also accept inherited names such as `constructor`, but no key event produces one.
- `toLowerCase` is modelled for ASCII letters only. Other characters are kept as they are, and no key in the map needs more.
- Boards are assumed to be four rows of four cells (`IsBoard`). The source never builds any other shape.
- Scores are unbounded naturals. JavaScript numbers are exact only up to 2^53, far beyond any reachable score.
- Lines.SlideAndMerge: its own contract states only the four-cell length. Its other properties are stated by the lemmas listed above.
- Session.Press: its own contract states only that the score does not fall. The session lemmas listed above state the rest.
- Lines.Merge: carries no contract of its own. Its behaviour is stated by Lines.MergeIsGreedyPairing and Lines.MergeIffEqualNeighbours, to keep the recursive definition free of quantified facts.
- Spawn.EmptyCells: carries no contract of its own. Its behaviour is stated by Spawn.EmptyCellsSpec.
- Spawn.SpawnValue: carries no contract of its own. The 0.9 threshold is its whole definition.
- Spawn.AddNewTile: its own contract states only that the result is a board. The spawn lemmas listed above state the rest.
- Terminal.CanMove: is a predicate without a contract. Terminal.CanMoveScan and Terminal.CanMoveIffSomeDirectionMoves state what it decides.
- Session.KeyDirection: carries no contract of its own. Session.KeyNames and Session.KeyDirectionIgnoresCase state what it returns.
- Session.HandleKey: its own contract states only that the result is a board. The session lemmas listed above state the rest.
