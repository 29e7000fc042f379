# Search and knowledge: tic-tac-toe, minesweeper and crossword generation

This project models three small AI programs in Dafny and proves properties of the models.

- **Tic-tac-toe** (`tictactoe.dfy`, module `TicTacToe`). This covers:
  - the rules of the game: the initial board, the player to move, the legal actions, the result of a move, the winner, the end of the game and its utility;
  - the minimax player with alpha-beta pruning.

  The board is a value: a 3x3 sequence of optional marks. The rules are pure functions. `max_value` and `min_value` loop over the set of actions, so they are mutually recursive methods. Each is proved against an unpruned reference value (`MaxSpec`/`MinSpec`). With alpha below beta, the pruned value is exact inside the window, an upper bound at or below alpha and a lower bound at or above beta. When the value lands strictly inside the window, the move returned attains the minimax value. So `minimax` returns an optimal move for the player to move.
- **Minesweeper** (`minesweeper.dfy`, module `Minesweeper`). The game board `Minesweeper`, the logical `Sentence` and the knowledge-based `MinesweeperAI` are classes whose methods update their fields in place, as the program's objects do.
  - Every inference step of the AI is proved *sound* against a mine field `m`. `m` is a ghost parameter: the true, hidden placement of the mines.
  - Suppose everything the AI knows is true of `m` and the reported count is true of `m`. Then after `add_knowledge` everything the AI knows is still true of `m`: its mines, its safe cells, its moves and every sentence of its knowledge.
  - The safe move it then makes is a cell it knows to be safe and has not played.
- **Crossword generation** (`crossword_puzzle.dfy`, module `CrosswordPuzzle`; `crossword.dfy`, module `Crossword`). The generator is a constraint solver: `CrosswordCreator` is a class whose `domains` map is narrowed in place. It proceeds in four stages:
  1. Narrowing by length (node consistency).
  2. Narrowing by crossings (AC-3): each step keeps every solution. With every arc queued (the corrected seed), success means every crossing arc is consistent. The program's one-direction seed does not ensure this (see Findings).
  3. Filling slots by backtracking search, with the minimum-remaining-values and degree heuristics and values ordered by how many neighbouring choices they rule out. With the corrected consistency check, a result is complete, consistent and drawn from the domains. The program's check can accept one word in two crossing slots whose letters clash, and its value order is the reverse of the intended one (see Findings).
  4. Drawing the letter grid of an assignment.

  The assignment is a class (`Assignment`) because the search changes it in place and leaves traces in it.

`wrappers.dfy` holds the `Option` and `Result` types.

## Model

| member | source | states |
|---|---|---|
| TicTacToe.InitialState | tictactoe/tictactoe.py:13-19 | every cell of the starting board is EMPTY |
| TicTacToe.InitialStateFacts | tictactoe/tictactoe.py:13-58 | on the starting board X moves, all nine cells are legal actions, and the game is not over |
| TicTacToe.Player | tictactoe/tictactoe.py:22-41 | on a board where X has as many marks as O or one more, X is to move exactly when the two counts are equal |
| TicTacToe.Actions | tictactoe/tictactoe.py:46-58 | the number of legal actions equals the number of EMPTY cells |
| TicTacToe.Result | tictactoe/tictactoe.py:63-82 | a move succeeds exactly when it is inside the board and its cell is EMPTY, and the error is returned otherwise; on success the mover's mark is at the action and every other cell is unchanged |
| TicTacToe.Play | tictactoe/tictactoe.py:63-82 | a legal move fills exactly one EMPTY cell |
| TicTacToe.PlayCells | tictactoe/tictactoe.py:77-82 | after a legal move the cell holds the mark of the player to move and no other cell changes |
| TicTacToe.PlayKeepsBalance | tictactoe/tictactoe.py:63-82 | a legal move keeps X's count equal to O's or one above it |
| TicTacToe.WinnerFrom | tictactoe/tictactoe.py:91-139 | the line-by-line scan returns a player only if that player owns one of the remaining lines, and returns None only if nobody owns any of them |
| TicTacToe.Winner | tictactoe/tictactoe.py:87-139 | the winner owns a full row, column or diagonal; there is no winner exactly when neither player owns one |
| TicTacToe.WinnerOfOneLine | tictactoe/tictactoe.py:87-139 | when only p owns a line, p is the winner |
| TicTacToe.Terminal | tictactoe/tictactoe.py:144-156 | the game is over exactly when a player owns a line or no action is left |
| TicTacToe.LiveBoardHasAction | tictactoe/tictactoe.py:144-156 | a board that is not over has a legal action |
| TicTacToe.Utility | tictactoe/tictactoe.py:161-170 | the utility is -1, 0 or 1 |
| TicTacToe.UtilityMeaning | tictactoe/tictactoe.py:161-170 | the utility is 1 exactly when X won, -1 exactly when O won, and 0 exactly when nobody owns a line |
| TicTacToe.MaxFromIsMaximum | tictactoe/tictactoe.py:202-208 | the best child value over the remaining cells bounds every child and is attained by one |
| TicTacToe.MinFromIsMinimum | tictactoe/tictactoe.py:227-233 | the least child value over the remaining cells bounds every child and is attained by one |
| TicTacToe.MaxSpecIsBestMove | tictactoe/tictactoe.py:192-214 | on a live board the maximiser's value is the largest minimiser value of a successor, and some action attains it |
| TicTacToe.MinSpecIsBestMove | tictactoe/tictactoe.py:217-239 | on a live board the minimiser's value is the least maximiser value of a successor, and some action attains it |
| TicTacToe.MaxRound | tictactoe/tictactoe.py:206-212 | one round of max_value's loop keeps the window and fail-soft bounds, and a cut-off happens only at or above beta |
| TicTacToe.MinRound | tictactoe/tictactoe.py:231-237 | one round of min_value's loop keeps the window and fail-soft bounds, and a cut-off happens only at or below alpha |
| TicTacToe.MaxValue | tictactoe/tictactoe.py:192-214 | returns the utility on a finished board; otherwise returns a legal move, and with alpha < beta the value is fail-soft around the minimax value; a value strictly inside the window is exact and its move attains it |
| TicTacToe.MinValue | tictactoe/tictactoe.py:217-239 | the same for the minimising player |
| TicTacToe.Minimax | tictactoe/tictactoe.py:175-187 | no move exactly when the game is over; otherwise a legal move that attains the minimax value for the player to move |
| Minesweeper.Minesweeper.constructor | minesweeper/minesweeper.py:9-33 | the board has the given size, a cell is true exactly when it holds a mine, and no mine is flagged yet |
| Minesweeper.Minesweeper.IsMine | minesweeper/minesweeper.py:50-52 | a cell of the board is a mine exactly when it is in the mine set |
| Minesweeper.Minesweeper.NearbyMines | minesweeper/minesweeper.py:54-77 | the count is the number of mines among the in-bounds cells within one row and column, the cell itself excluded, so at most 8 |
| Minesweeper.NeighboursAtMostEight | minesweeper/minesweeper.py:65-75 | a cell has at most eight neighbours |
| Minesweeper.Minesweeper.Won | minesweeper/minesweeper.py:79-83 | the game is won exactly when the flagged cells are the mines |
| Minesweeper.Sentence.constructor | minesweeper/minesweeper.py:93-95 | a sentence holds the given cells and count |
| Minesweeper.Sentence.Equals | minesweeper/minesweeper.py:97-98 | sentences are equal when their cells and counts are; equal sentences are true of exactly the same mine fields |
| Minesweeper.Sentence.KnownMines | minesweeper/minesweeper.py:103-111 | all cells are known mines exactly when there are as many cells as the count (or none); otherwise none are |
| Minesweeper.KnownMinesSound | minesweeper/minesweeper.py:103-111 | the known mines of a sentence that is true of the mine field are mines |
| Minesweeper.Sentence.KnownSafes | minesweeper/minesweeper.py:115-123 | all cells are known safe exactly when the count is 0 (or there are no cells); otherwise none are |
| Minesweeper.KnownSafesSound | minesweeper/minesweeper.py:115-123 | the known safe cells of a true sentence hold no mine |
| Minesweeper.Sentence.MarkMine | minesweeper/minesweeper.py:127-135 | the cell leaves the sentence and the count drops by one exactly when the cell was in it |
| Minesweeper.MarkMineKeepsTruth | minesweeper/minesweeper.py:127-135 | removing a real mine and lowering the count keeps a true sentence true |
| Minesweeper.Sentence.MarkSafe | minesweeper/minesweeper.py:139-146 | the cell leaves the sentence and the count stays |
| Minesweeper.MarkSafeKeepsTruth | minesweeper/minesweeper.py:139-146 | removing a safe cell keeps a true sentence true |
| Minesweeper.SubsetInference | minesweeper/minesweeper.py:258-261 | if a = x and b = y are true and a is inside b, then b - a = y - x is true |
| Minesweeper.Remove | minesweeper/minesweeper.py:255 | removing the first sentence equal to s shortens the list by one and adds nothing |
| Minesweeper.NewSentenceHolds | minesweeper/minesweeper.py:208-224 | the sentence built from a true report is true: its unknown neighbours hold the reported count less the known mines among the neighbours |
| Minesweeper.MinesweeperAI.constructor | minesweeper/minesweeper.py:156-170 | the AI starts with no moves, mines, safe cells or knowledge |
| Minesweeper.MinesweeperAI.MarkMine | minesweeper/minesweeper.py:172-179 | the cell joins the mines, every sentence drops it (lowering its count if it held it), nothing else changes, and a sound AI stays sound when the cell is a mine |
| Minesweeper.MinesweeperAI.MarkSafe | minesweeper/minesweeper.py:181-188 | the cell joins the safe cells, every sentence drops it with its count kept, nothing else changes, and a sound AI stays sound when the cell is safe |
| Minesweeper.MinesweeperAI.NewSentence | minesweeper/minesweeper.py:208-222 | the new sentence's cells are the in-bounds neighbours neither played, known mines nor known safe; its count is the report less the known mines among the neighbours |
| Minesweeper.MinesweeperAI.Learn | minesweeper/minesweeper.py:224-226 | the sentence is appended exactly when no equal sentence is known |
| Minesweeper.MinesweeperAI.AddKnowledge | minesweeper/minesweeper.py:190-273 | the cell becomes a move made and a safe cell; moves, mines and safe cells only grow; a sound AI given a true report stays sound |
| Minesweeper.MinesweeperAI.Infer | minesweeper/minesweeper.py:229-273 | the inference loop keeps the moves, only adds mines and safe cells, and keeps a sound AI sound |
| Minesweeper.MinesweeperAI.InferenceRound | minesweeper/minesweeper.py:230-273 | one round keeps the AI sound, and the knowledge afterwards holds only old or new sentences |
| Minesweeper.MinesweeperAI.MarkKnown | minesweeper/minesweeper.py:236-247 | marking every sentence's known mines and safe cells keeps the knowledge list and keeps a sound AI sound |
| Minesweeper.MinesweeperAI.InferSubsets | minesweeper/minesweeper.py:250-264 | the pair pass only removes sentences, and every sentence it derives is new and true when the knowledge was true |
| Minesweeper.MinesweeperAI.PairWith | minesweeper/minesweeper.py:251-264 | one sentence against every entry: the list only shrinks, and what it keeps and derives is true when the knowledge and the sentence were |
| Minesweeper.MinesweeperAI.Derive | minesweeper/minesweeper.py:258-264 | a sentence is derived exactly when the first sentence's cells lie inside the second's and no equal sentence is known; it is the difference of cells and counts, and true when both are |
| Minesweeper.MinesweeperAI.DropRemoved | minesweeper/minesweeper.py:267-269 | dropping the collected sentences only removes entries and changes nothing else |
| Minesweeper.MinesweeperAI.MakeSafeMove | minesweeper/minesweeper.py:277-291 | returns a known-safe cell not yet played, and nothing exactly when every safe cell has been played |
| CrosswordPuzzle.ConsistentAsWritten | crossword/generate.py:186-208 | the check as written accepts whatever the intended check accepts, and the two agree on assignments that never repeat a word (see Findings) |
| CrosswordPuzzle.ConsistentAsWrittenAcceptsRepeatedWord | crossword/generate.py:199-200 | the check as written accepts one word in two crossing slots whose letters at the crossing differ, on a well-formed puzzle, while the intended check rejects it |
| Crossword.LengthFilteredMeaning | crossword/generate.py:95-105 | after length filtering a word stays exactly when it was in the domain and has the slot's length, so every domain is node consistent |
| Crossword.LengthFilteredIdempotent | crossword/generate.py:95-105 | filtering twice is filtering once |
| Crossword.LengthFilteredKeepsSolutions | crossword/generate.py:95-105 | length filtering loses no solution |
| Crossword.SupportedKeepsSolutions | crossword/generate.py:119-132 | narrowing x to the words met by some word of y loses no solution |
| Crossword.SupportedIsArcConsistent | crossword/generate.py:119-132 | after narrowing, every word of x meets a word of y at the crossing; without a crossing nothing is removed |
| Crossword.ReverseArcSurvives | crossword/generate.py:119-132 | narrowing x against y keeps y arc consistent with x |
| Crossword.ReviseKeepsSolutions | crossword/generate.py:158-160 | one revision keeps every solution the previous domains kept |
| Crossword.CandidatesShrink | crossword/generate.py:158-166 | a revision that removes a word strictly shrinks the set of candidates, so AC-3 ends |
| Crossword.PopPending | crossword/generate.py:159 | taking the first arc off the queue leaves every other waiting arc waiting |
| Crossword.ReviseKeepsPending | crossword/generate.py:158-166 | revising (x, y) makes it consistent, keeps every other arc, and can spoil only the arcs (z, x) with z other than y |
| Crossword.PendingAfterRequeue | crossword/generate.py:164-166 | queuing (z, x) for every other neighbour z of x restores "every crossing arc is consistent or queued" |
| Crossword.PendingUnrevised | crossword/generate.py:158-160 | a revision that removes nothing keeps "consistent or queued" for the rest of the queue |
| Crossword.PendingRevised | crossword/generate.py:158-166 | a revision that removes words, followed by the re-queuing, keeps "consistent or queued" |
| Crossword.OneDirectionLeavesArcOpen | crossword/generate.py:148-166 | two crossing slots and domains where, whichever single direction is queued, the revision removes a word, nothing is re-queued, and the arc the other way stays inconsistent |
| Crossword.SortByCountFacts | crossword/generate.py:235 | the sort by count is a permutation and ascending |
| Crossword.Reverse | crossword/generate.py:238 | reversal keeps the length and puts element k at the mirrored index |
| Crossword.AsWrittenOrder | crossword/generate.py:235-238 | the order as written, sorting then reversing, is a permutation in descending order of count (see Findings) |
| Crossword.AsWrittenOrderPutsMostRuledOutFirst | crossword/generate.py:235-238 | on words ruling out 0 and 1 values, the order as written puts the one ruling out more first |
| Crossword.RendersEveryLetter | crossword/generate.py:17-31 | when no two words clash on a cell, every letter of every word sits on its cell of the grid |
| Crossword.Assignment.constructor | crossword/generate.py:93 | the search starts from the empty assignment |
| Crossword.CrosswordCreator.constructor | crossword/generate.py:7-15 | every slot's domain starts as the whole word list |
| Crossword.CrosswordCreator.EnforceNodeConsistency | crossword/generate.py:95-105 | the new domains are the old ones with every word of the wrong length removed |
| Crossword.CrosswordCreator.FitLength | crossword/generate.py:103-105 | one slot's domain loses its words of the wrong length and no other domain changes |
| Crossword.CrosswordCreator.Revise | crossword/generate.py:109-134 | x's domain becomes its words met by some word of y and nothing else changes; the result says whether a word was removed; without a crossing nothing is removed |
| Crossword.CrosswordCreator.HasPartner | crossword/generate.py:121-127 | true exactly when some word of y's domain meets the word at the crossing |
| Crossword.CrosswordCreator.InitialArcsAsWritten | crossword/generate.py:148-155 | the seed as written holds every crossing pair in at least one direction, each arc once and never both directions |
| Crossword.CrosswordCreator.ArcsFromAsWritten | crossword/generate.py:151-155 | one slot's neighbours join the seed unless the pair is already there in either direction |
| Crossword.CrosswordCreator.InitialArcs | crossword/generate.py:141-155 | the corrected seed holds every arc between crossing slots, in both directions, and nothing else |
| Crossword.CrosswordCreator.ArcsOf | crossword/generate.py:151-155 | appends (x, y) for every neighbour y of x, keeping what was there |
| Crossword.CrosswordCreator.AC3 | crossword/generate.py:138-168 | domains only shrink, stay node consistent and keep every solution; false means some domain is empty; true means every crossing arc is consistent when the initial arcs covered every inconsistent one (corrected seed when no arcs are given, see Findings) |
| Crossword.CrosswordCreator.ReviseFirst | crossword/generate.py:158-166 | one round of AC-3 keeps solutions and "consistent or queued", and either shrinks the candidates or leaves the domains alone with a shorter queue |
| Crossword.CrosswordCreator.Requeue | crossword/generate.py:164-166 | appends (z, x) exactly for the neighbours z of x other than y, after the queue as it was |
| Crossword.CrosswordCreator.AssignmentComplete | crossword/generate.py:172-182 | true exactly when every slot has a word |
| Crossword.CrosswordCreator.Consistent | crossword/generate.py:186-208 | true exactly when every word has its slot's length, no word is used twice and crossing slots agree (corrected, see Findings) |
| Crossword.CrosswordCreator.Occurrences | crossword/generate.py:228-230 | a domain holds a given word once or not at all |
| Crossword.CrosswordCreator.CountRuledOut | crossword/generate.py:225-230 | the count is the number of neighbouring slots whose domain holds the word |
| Crossword.CrosswordCreator.Rank | crossword/generate.py:219-233 | pairs every word of the domain with its count, each word once; the slot leaves the assignment after being tried |
| Crossword.CrosswordCreator.OrderDomainValues | crossword/generate.py:212-239 | the words of the domain, each once, in ascending order of values ruled out (corrected, see Findings); the slot leaves the assignment when the domain is not empty |
| Crossword.CrosswordCreator.FewestValues | crossword/generate.py:251 | the least domain size among the unassigned slots |
| Crossword.CrosswordCreator.MostNeighbors | crossword/generate.py:258 | the largest number of neighbours among the tied slots |
| Crossword.CrosswordCreator.SelectUnassignedVariable | crossword/generate.py:243-261 | an unassigned slot with the fewest remaining words and, among those, the most neighbours |
| Crossword.CrosswordCreator.Backtrack | crossword/generate.py:265-287 | earlier entries are kept, new entries come from the domains, and an assignment complete on entry comes back unchanged as the result; a result is the assignment itself, complete, and consistent unless it was complete on entry (corrected consistency check and value order, see Findings) |
| Crossword.CrosswordCreator.Solve | crossword/generate.py:87-93 | the domains end node consistent and keep every solution; if none is empty, every crossing arc is consistent; a result is complete, consistent and drawn from the domains (corrected arc seed, consistency check and value order, see Findings) |
| Crossword.CrosswordCreator.LetterGrid | crossword/generate.py:17-31 | the grid has the puzzle's size; a cell is empty exactly when no word writes there, and otherwise holds a letter some word writes there |

## Left out

- Printing, saving images, command-line handling and `main` in all three programs: these are input and output.
- `Minesweeper.__init__` places mines at random. `Minesweeper.Minesweeper.constructor` takes the mine set instead, so it does not model the loop that would never end when asked for more mines than cells. `Minesweeper.print` is output.
- `MinesweeperAI.make_random_move` is left out: it depends on a random choice.
- Minesweeper.MinesweeperAI.AddKnowledge: the program repeats inference rounds until a round changes nothing. The model stops after at most `fuel` rounds, a parameter, because termination of the program's loop is not evident. Every property stated holds after any number of rounds.
- Minesweeper.MinesweeperAI.AddKnowledge: soundness is stated relative to a ghost mine field `m`. The game itself never sees `m`.
- Minesweeper.Minesweeper.IsMine requires the cell to be on the board. The program would read a wrapped-around row or column for negative indices, and fail for others.
- TicTacToe.MaxValue: `math.inf` and `-math.inf` are modelled as 2 and -2. Every utility lies in -1..1, so only the bounds' order matters.
- TicTacToe.MaxValue and TicTacToe.MinValue visit the actions in an arbitrary order, as a Python set does. The value is proved regardless of the order; which optimal move is returned is not pinned down.
- Crossword.CrosswordCreator.Revise and Crossword.CrosswordCreator.AC3 require node-consistent domains. On shorter words the program would index past a word's end and fail; `solve` always narrows by length first.
- Crossword.CrosswordCreator.AC3 takes the initial arcs by value. The program pops them from the caller's list, and the model does not show that change to the caller.
- Crossword.CrosswordCreator.LetterGrid requires every word to fit inside the grid. The program would fail or wrap around otherwise.
- Crossword.CrosswordCreator.SelectUnassignedVariable returns any slot among the tied ones. The program returns the first in set order.
- Crossword.CrosswordCreator.CountRuledOut keeps the program's skip of neighbours without a crossing (generate.py:226-227). The skip never fires, because a neighbour always crosses.
- Crossword.CrosswordCreator.Backtrack: the contract does not say that None means no solution exists. When a slot's last word is inconsistent, the program leaves that word in the assignment, because line 285 only runs after a consistent word. The stale entry is then checked together with later choices, so the search is not evidently complete. The model keeps that behaviour.
- Crossword.CrosswordCreator.Solve is the corrected solver. It runs AC-3 from the seed with both directions of every arc, and the search uses the corrected consistency check and value order. The program's `solve` uses the one-direction seed, the `is` check and the reversed order, so the arc-consistency and consistency clauses of Solve do not describe the program as written. The as-written members of the Findings table model those pieces.
- Crossword.CrosswordCreator.LetterGrid: when two words put different letters on one cell, the program keeps the letter of the word it writes last in dictionary order. The model only says that the cell holds a letter some word puts there. Without a clash, `RendersEveryLetter` fixes every letter.
- Crossword.SortByCountFacts does not state that the sort is stable, although Python's sort is. The order of words with equal counts is not pinned down.
- crossword/crossword.py is not part of this model. Slots, the word list and the overlaps are taken as a `Puzzle` value. `WellFormed` states what the model assumes of it:
  - every pair of distinct slots has an overlaps entry;
  - offsets lie inside both slots;
  - the entry of (y, x) mirrors that of (x, y).
- The other programs of the repository (degrees, heredity, knights, nim, pagerank, parser, questions, shopping, traffic and others) are not modelled.

## Findings

| source | as written | input that shows it | evidently intended | confidence | as-written member | corrected member |
|---|---|---|---|---|---|---|
| crossword/generate.py:199-202 | pairs whose words are the same string object are skipped. Every domain is a copy of one word set, so equal words are the same object. The duplicate-word check on line 201 never fires, and the crossing check is skipped for such pairs | "ab" across at (0, 0) and "ab" down at (0, 1), crossing at cell (0, 1) | the same slot is skipped; a word used in two slots, or disagreeing letters at a crossing, makes the assignment inconsistent | medium, not executed | CrosswordPuzzle.ConsistentAsWritten, CrosswordPuzzle.ConsistentAsWrittenAcceptsRepeatedWord | Crossword.CrosswordCreator.Consistent, CrosswordPuzzle.ConsistentFill, Crossword.CrosswordCreator.Backtrack, Crossword.CrosswordCreator.Solve |
| crossword/generate.py:235-238 | the values are sorted by ascending count, then reversed. So the value ruling out the most neighbouring values comes first | two words ruling out 0 and 1 values | the value ruling out the fewest comes first, as the docstring at lines 213-217 says | high, not executed | Crossword.AsWrittenOrder, Crossword.AsWrittenOrderPutsMostRuledOutFirst | Crossword.CrosswordCreator.OrderDomainValues, Crossword.CrosswordCreator.Backtrack, Crossword.CrosswordCreator.Solve |
| crossword/generate.py:148-155 | the initial queue holds each crossing pair in one direction only. ac3 can return True while a slot is not arc consistent | x = "ab"/"zq" across at (0, 0), y = "bc"/"zz" down at (0, 1) | every arc of the problem is queued, as the docstring at lines 139-145 says, and True means every domain is arc consistent | medium, not executed | Crossword.CrosswordCreator.InitialArcsAsWritten, Crossword.OneDirectionLeavesArcOpen | Crossword.CrosswordCreator.InitialArcs, Crossword.CrosswordCreator.AC3, Crossword.CrosswordCreator.Solve |
