# Minesweeper inference and tic-tac-toe minimax, modelled in Dafny

This project models two small game-playing programs.

**Minesweeper.** `minesweeper/minesweeper.py` has three parts:

- The game board (`Minesweeper`). It is modelled in `field.dfy` as a class holding the mine
  layout. It counts the mines around a cell, looks up one cell, and tells whether the game is won.
- The knowledge sentences (`Sentence`). They are modelled in `sentences.dfy`. A sentence is a
  class with `cells` and `count` fields, updated in place by `mark_mine` and `mark_safe`. The
  value it stands for, and that `__eq__` compares, is the datatype `Fact`. `known_mines` and
  `known_safes` are functions on `Fact`.
- The inference engine (`MinesweeperAI`). It is modelled in `inference.dfy` as a class whose
  fields are the moves made, the known mines, the known safe cells and the list of sentences.
  `add_knowledge` is split into its steps:
  - record the move;
  - add the observation sentence;
  - one pass of the loop, which:
    - collects what the sentences reveal;
    - marks those cells;
    - applies the subset rule over the growing list;
    - drops the sentences without cells.

What is proved about the engine:

- Every step of `add_knowledge` keeps `Valid()`, and so do `mark_mine` and `mark_safe` on an
  engine that was valid. That means each move made is known to be safe, and no sentence still
  holds a cell already known to be safe or a mine.
- The engine is sound. A ghost parameter `truth` stands for the real mine layout. If the engine
  agrees with that layout and the observation is truthful, it still agrees afterwards. In
  particular, no cell is ever both safe and a mine.
- For a truthful observation on a knowledge that agrees with the layout, the engine forgets
  nothing. After `add_knowledge`, every layout the engine agrees with is one that it agreed with
  before, in which the observed cell is safe and has the observed number of mines around it. So
  the engine then holds exactly what it knew plus the observation, no less.
- `add_knowledge` does the inference its loop describes. It returns a ghost record of its
  passes:
  - the first state is the knowledge right after the observation;
  - each later state is what one pass makes of the one before;
  - every pass but the last completed the subset rule and changed something;
  - the known safe cells grow by exactly the observed cell and the safe cells each recorded pass
    revealed, and the known mines by exactly the mines each recorded pass revealed, whatever the
    counts.
- `add_knowledge` reports `settled` only when its last pass completed and changed nothing. The
  knowledge is then settled:
  - no sentence reveals a safe cell or a mine;
  - no sentence is empty;
  - the subset rule has nothing left to add.
- `add_knowledge` reports not settled only after its passes have spent all of `fuel`: one unit
  per pass and one per sentence appended.

**Tic-tac-toe.** `tictactoe/tictactoe.py` is modelled in `tictactoe.dfy`. It holds the rules of
the game and the minimax search, as functions on a 3x3 board. The loops of `actions` and
`minimax` are methods. What is proved about the search:

- `max_value` and `min_value` are folds that equal the maximum and the minimum over the actions.
- Their values lie between -1 and 1.
- `minimax` returns an action of the best value for the player to move.

## Model

| member | source | states |
|---|---|---|
| Field.BoardCells | minesweeper/minesweeper.py:294-297 | the cells of the board, as a set; what it holds is stated by `BoardCellsMembers` |
| Field.BoardCellsMembers | minesweeper/minesweeper.py:294-297 | the cells collected by the nested loops over `range(height)` and `range(width)` are exactly the cells on the board |
| Field.Neighbours | minesweeper/minesweeper.py:66-76 | the cells of the 3x3 window around the cell that are on the board, without the cell; what it holds is stated by `NeighboursMembers` |
| Field.NeighboursMembers | minesweeper/minesweeper.py:66-76 | a cell is a neighbour exactly when it is in the 3x3 window around the cell, on the board, and not the cell itself |
| Field.NeighbourhoodIsSymmetric | minesweeper/minesweeper.py:66-76 | a neighbour is on the board and differs from the cell, and a cell on the board is in turn a neighbour of each of its neighbours |
| Field.SeenOneMore | minesweeper/minesweeper.py:66-76 | one step of the window loop: the cell just visited is new, and it joins the cells seen exactly when it is on the board and not the centre |
| Field.CountOneMore | minesweeper/minesweeper.py:73-76 | one step of the counting loop: the count of mines goes up by one exactly when the new cell is a mine |
| Field.Minesweeper.constructor | minesweeper/minesweeper.py:10-34 | the board has the given size and mine layout, which lies on the board, and no mine has been found yet |
| Field.Minesweeper.IsMine | minesweeper/minesweeper.py:51-53 | the lookup fails (`IndexError`) exactly outside `-height <= i < height` and `-width <= j < width`; negative indices wrap as Python's do; on the board the answer is whether the cell is a mine |
| Field.Minesweeper.NearbyMines | minesweeper/minesweeper.py:55-78 | the count is the number of mines among the cell's neighbours |
| Field.Minesweeper.Won | minesweeper/minesweeper.py:80-84 | `mines_found == mines`, Python's set equality; what it means is stated by `WonMeansAllFlagged` |
| Field.Minesweeper.WonMeansAllFlagged | minesweeper/minesweeper.py:80-84 | won exactly when every mine is flagged and no flag lies on a safe cell; while the flags lie on mines only, won exactly when there are as many flags as mines |
| Sentences.Sentence.constructor | minesweeper/minesweeper.py:94-96 | the new sentence stands for the given cells and count |
| Sentences.InIsEquality | minesweeper/minesweeper.py:98-99 | Python's `s3 not in self.knowledge`, which compares with `__eq__`, is membership of the sentence's value among the values of the list: some listed sentence has the same cells and the same count exactly when the value is among them |
| Sentences.Fact.KnownMines | minesweeper/minesweeper.py:104-111 | the result lies within the cells; it is all of them exactly when there are as many cells as mines, and empty otherwise |
| Sentences.Fact.KnownSafes | minesweeper/minesweeper.py:113-119 | the result lies within the cells; it is all of them exactly when the count is zero, and empty otherwise |
| Sentences.KnownMinesAreMines | minesweeper/minesweeper.py:104-111 | every cell `known_mines` reports is a mine in every layout the sentence is true of |
| Sentences.KnownSafesAreSafe | minesweeper/minesweeper.py:113-119 | no cell `known_safes` reports is a mine in a layout the sentence is true of |
| Sentences.OnlyKnownMinesAreCertain | minesweeper/minesweeper.py:104-111 | `known_mines` misses no certain mine: for a satisfiable sentence, a cell it leaves out is safe in some layout the sentence is true of |
| Sentences.OnlyKnownSafesAreCertain | minesweeper/minesweeper.py:113-119 | `known_safes` misses no certain safe cell: for a satisfiable sentence, a cell it leaves out is a mine in some layout the sentence is true of |
| Sentences.Fact.WithoutSafe | minesweeper/minesweeper.py:130-136 | the value `mark_safe` leaves: the cell removed, the count kept; its effect on truth is stated by `MarkingASafeKeepsTruth` |
| Sentences.Fact.Minus | minesweeper/minesweeper.py:250-256 | the difference the subset rule appends: the cells of one sentence without the other's, and the difference of their counts; its truth is stated by `DifferenceKeepsTruth` |
| Sentences.Fact.WithoutMine | minesweeper/minesweeper.py:121-128 | marking a mine removes the cell and keeps the number of cells minus the count unchanged |
| Sentences.Sentence.MarkMine | minesweeper/minesweeper.py:121-128 | the sentence's new value is its old value with the mine marked: the cell is gone, and the count is one less if the cell was there |
| Sentences.Sentence.MarkSafe | minesweeper/minesweeper.py:130-136 | the sentence's new value is its old value without the cell, with the same count |
| Sentences.MarkMineInEach | minesweeper/minesweeper.py:166-167 | after the loop every listed sentence has the mine marked once, even a sentence listed twice |
| Sentences.MarkSafeInEach | minesweeper/minesweeper.py:175-176 | after the loop every listed sentence has the safe cell marked |
| Sentences.MarkingMineTwice | minesweeper/minesweeper.py:126-128 | marking the same mine a second time leaves the sentence as it is |
| Sentences.MarkingSafeTwice | minesweeper/minesweeper.py:135-136 | marking the same safe cell a second time leaves the sentence as it is |
| Sentences.MarkingAMineKeepsTruth | minesweeper/minesweeper.py:121-128 | marking a real mine keeps a sentence exactly as true as it was: true after if and only if true before |
| Sentences.MarkingASafeKeepsTruth | minesweeper/minesweeper.py:130-136 | marking a really safe cell keeps a sentence exactly as true as it was |
| Sentences.MarkingSafesKeepsTruth | minesweeper/minesweeper.py:239-240 | marking a set of really safe cells keeps a sentence exactly as true as it was |
| Sentences.MarkingMinesKeepsTruth | minesweeper/minesweeper.py:241-242 | marking a set of real mines keeps a sentence exactly as true as it was |
| Sentences.OneMoreSafe | minesweeper/minesweeper.py:239-240 | marking safe cells one at a time, in any order, comes to marking the whole set |
| Sentences.OneMoreMine | minesweeper/minesweeper.py:241-242 | marking mines one at a time, in any order, comes to marking the whole set, each mine the sentence held taking one from the count |
| Sentences.MarkingOneMine | minesweeper/minesweeper.py:121-128 | marking one mine is marking the set that holds only that cell |
| Sentences.MarkingNothing | minesweeper/minesweeper.py:239-242 | marking no cells leaves a sentence unchanged |
| Sentences.DifferenceKeepsTruth | minesweeper/minesweeper.py:250-256 | the subset rule is sound: when one true sentence's cells lie within another's, their difference is true as well |
| Sentences.ObservationIsTrue | minesweeper/minesweeper.py:215-221 | when the known safes and mines are right for a layout, the observation sentence is true of it exactly when the count is the layout's number of mines around the cell |
| Inference.SubsetDoneGrows | minesweeper/minesweeper.py:254-255 | appending sentences never undoes the subset rule's work for a pair |
| Inference.RowsGrow | minesweeper/minesweeper.py:246-265 | appending sentences keeps the rows of the outer loop that are already finished finished |
| Inference.RowGrows | minesweeper/minesweeper.py:247-265 | appending sentences keeps the finished part of a row of the inner loop finished |
| Inference.RowsExtend | minesweeper/minesweeper.py:246-265 | finishing the inner loop for row i finishes the outer loop up to row i + 1 |
| Inference.AllRowsClose | minesweeper/minesweeper.py:246-265 | once the outer loop has visited every sentence, including the appended ones, the subset rule has nothing left to add |
| Inference.AllDerivedGrows | minesweeper/minesweeper.py:254-255 | sentences appended by the subset rule in two rounds are all appended by the subset rule |
| Inference.GrowsTwice | minesweeper/minesweeper.py:246-265 | two rounds of the subset rule are one round of it |
| Inference.TrueUpTo | minesweeper/minesweeper.py:250-263 | every sentence the subset rule appends is true when the earlier ones are |
| Inference.ReducedUpTo | minesweeper/minesweeper.py:250-263 | no sentence the subset rule appends holds a known cell when the earlier ones do not |
| Inference.GrowthKeeps | minesweeper/minesweeper.py:246-265 | the subset rule keeps the knowledge true and keeps it free of known cells |
| Inference.SafesMarkedStep | minesweeper/minesweeper.py:239-240 | the loop `for c in new_safes` marks the whole set, one cell at a time |
| Inference.MinesMarkedStep | minesweeper/minesweeper.py:241-242 | the loop `for c in new_mines` marks the whole set, one cell at a time |
| Inference.NothingMarked | minesweeper/minesweeper.py:239-242 | marking no cells changes no sentence |
| Inference.MarkedSafesKeep | minesweeper/minesweeper.py:239-240 | after the safe cells are marked, no sentence holds them, and a true knowledge stays true when the cells are really safe |
| Inference.MarkedMinesKeep | minesweeper/minesweeper.py:241-242 | after the mines are marked, no sentence holds them, and a true knowledge stays true when the cells are real mines |
| Inference.RevealedSafes | minesweeper/minesweeper.py:232-233 | a cell is collected exactly when some sentence's `known_safes` holds it |
| Inference.RevealedMines | minesweeper/minesweeper.py:232-234 | a cell is collected exactly when some sentence's `known_mines` holds it |
| Inference.RevealedAreRight | minesweeper/minesweeper.py:232-234 | what a true knowledge reveals is right: the revealed safe cells are no mines, and the revealed mines are mines |
| Inference.RevealedIffNotQuiet | minesweeper/minesweeper.py:236-237 | `delta` is set exactly when some sentence reveals a safe cell or a mine |
| Inference.MarkingRevealedKeeps | minesweeper/minesweeper.py:239-242 | marking what was revealed leaves no sentence holding a known cell and keeps a true knowledge true, and the revealed cells are right; revealing nothing changes nothing |
| Inference.WithCells | minesweeper/minesweeper.py:267 | a sentence is kept exactly when it was there and has cells |
| Inference.NonEmpty | minesweeper/minesweeper.py:267 | the list comprehension keeps only sentences that were in the list |
| Inference.NonEmptyFacts | minesweeper/minesweeper.py:267 | filtering the sentences filters their values the same way |
| Inference.WithCellsKeeps | minesweeper/minesweeper.py:267 | dropping empty sentences keeps the subset rule finished, the knowledge true and no known cell held |
| Inference.WithCellsSettles | minesweeper/minesweeper.py:267-270 | after a pass that revealed nothing and left the subset rule nothing to add, dropping the empty sentences leaves the knowledge settled |
| Inference.FactsConcat | minesweeper/minesweeper.py:224 | the values of a list with sentences appended are the old values followed by the new ones |
| Inference.AppendKeeps | minesweeper/minesweeper.py:224 | appending a sentence without known cells keeps the knowledge free of known cells, and appending a true one keeps it true |
| Inference.LosesNothingTwice | minesweeper/minesweeper.py:226-270 | two steps that each forget nothing together forget nothing |
| Inference.ObservedThenLosesNothing | minesweeper/minesweeper.py:226-270 | what the observation pins down stays pinned down after a pass that forgets nothing |
| Inference.MarkedInTurn | minesweeper/minesweeper.py:239-242 | marking the revealed safe cells and then the revealed mines gives `MarkedFacts` |
| Inference.MarkingLosesNothing | minesweeper/minesweeper.py:239-242 | marking cells while adding them to the known cells forgets nothing: every layout the new knowledge agrees with, the old one agrees with |
| Inference.GrowthLosesNothing | minesweeper/minesweeper.py:246-265 | appending sentences forgets nothing |
| Inference.DroppingLosesNothing | minesweeper/minesweeper.py:267 | dropping the sentences without cells from a true knowledge forgets nothing, since such a sentence then says 0 mines |
| Inference.ObservationLosesNothing | minesweeper/minesweeper.py:193-224 | after marking the cell safe and adding the observation sentence, every layout the knowledge agrees with is one the old knowledge agrees with, with the cell safe and the observed count of mines around it |
| Inference.PassLosesNothing | minesweeper/minesweeper.py:227-267 | a pass over a true knowledge forgets nothing |
| Inference.SpentPrefix | minesweeper/minesweeper.py:226-270 | the fuel a run spends depends only on the states its passes started from |
| Inference.AlongPrefix | minesweeper/minesweeper.py:226-240 | the safe cells and mines the first passes of a run reveal depend only on the states those passes started from |
| Inference.AlongExtends | minesweeper/minesweeper.py:226-240 | one more pass adds to the revealed safe cells and mines exactly what the state it started from reveals |
| Inference.TraceExtends | minesweeper/minesweeper.py:226-270 | one more pass extends the recorded run, adds its cost to the fuel spent, and keeps the record that every earlier pass completed and changed something |
| Inference.MarkedMineTidy | minesweeper/minesweeper.py:160-167 | marking a mine keeps the sentences free of known cells, the mine now among them |
| Inference.MarkedSafeTidy | minesweeper/minesweeper.py:169-176 | marking a safe cell keeps the sentences free of known cells, the cell now among them |
| Inference.MinesweeperAI.constructor | minesweeper/minesweeper.py:144-158 | the engine starts with no moves, no known cells and no sentences, and is valid |
| Inference.MinesweeperAI.MarkMine | minesweeper/minesweeper.py:160-167 | the cell joins the mines and every sentence has it marked as a mine; nothing else changes, and a valid engine stays valid |
| Inference.MinesweeperAI.MarkSafe | minesweeper/minesweeper.py:169-176 | the cell joins the safe cells and every sentence has it marked safe; nothing else changes, and a valid engine stays valid |
| Inference.MinesweeperAI.RecordMove | minesweeper/minesweeper.py:193-197 | the cell joins the moves made and the safe cells, every sentence has it marked safe, the engine stays valid, and it stays sound when the cell really is safe |
| Inference.MinesweeperAI.NeighbourCells | minesweeper/minesweeper.py:202-213 | the loop collects exactly the cell's neighbours on the board |
| Inference.MinesweeperAI.Append | minesweeper/minesweeper.py:224 | the new sentence is a fresh object holding the given value, placed at the end of the list |
| Inference.MinesweeperAI.RecordObservation | minesweeper/minesweeper.py:215-224 | the sentence appended holds the neighbours not known to be safe or mines, with the count less the neighbours known to be mines |
| Inference.MinesweeperAI.Observe | minesweeper/minesweeper.py:193-224 | steps 1 to 3 of `add_knowledge`: the move is recorded and safe, the old sentences have the cell marked safe, the observation sentence is appended, the engine stays valid and stays sound for a truthful count; every layout the new knowledge agrees with is one the old knowledge agrees with, with the cell safe and `count` mines around it |
| Inference.MinesweeperAI.CollectKnown | minesweeper/minesweeper.py:229-234 | the loop collects the union of all `known_safes` and the union of all `known_mines` |
| Inference.MinesweeperAI.MarkAllSafe | minesweeper/minesweeper.py:239-240 | every collected safe cell joins the safe cells and is marked in every sentence |
| Inference.MinesweeperAI.MarkAllMines | minesweeper/minesweeper.py:241-242 | every collected mine joins the mines and is marked in every sentence |
| Inference.MinesweeperAI.MarkRevealed | minesweeper/minesweeper.py:227-242 | the safe cells and mines grow by what the sentences reveal, every sentence has the revealed safe cells and then the revealed mines marked, `delta` says whether they revealed anything, nothing changes when they did not, and validity and soundness are kept |
| Inference.MinesweeperAI.Derive | minesweeper/minesweeper.py:250-263 | the difference of two nested sentences is appended exactly when it has cells and no equal sentence is known, the budget allowing; otherwise the sentences stay as they were, and the budget runs out exactly when such a difference finds it at 0; afterwards the subset rule has nothing left to add for that pair |
| Inference.MinesweeperAI.VisitPair | minesweeper/minesweeper.py:247-265 | one step of the inner loop: the `is` check, then the subset test both ways round; the sentences stay as they were or gain one difference of the pair, either way round; an exhausted budget changes nothing; afterwards the pair is done unless the budget ran out |
| Inference.MinesweeperAI.VisitRow | minesweeper/minesweeper.py:247-265 | the inner loop over the growing list: the row of `s1` is done against every sentence unless the budget ran out |
| Inference.MinesweeperAI.SubsetRule | minesweeper/minesweeper.py:246-265 | the nested loops only append sentences that the subset rule derives; when they run to the end, the subset rule has nothing left to add |
| Inference.MinesweeperAI.ApplySubsetRule | minesweeper/minesweeper.py:246-265 | the subset rule only appends sentences it derives, one unit of the budget each, and reports whether it appended any; it keeps the engine valid and sound, changes nothing when it appends nothing, leaves nothing to add when it completes, and stops early only with the budget spent |
| Inference.MinesweeperAI.DropEmpty | minesweeper/minesweeper.py:267 | the sentences without cells are dropped and the rest kept in order; validity and soundness are kept, and a pass that changed nothing leaves the knowledge settled |
| Inference.MinesweeperAI.Pass | minesweeper/minesweeper.py:227-267 | one pass of the loop: the known cells grow by exactly what the sentences revealed; the sentences are the old ones with those cells marked, grown by the subset rule, without the empty ones; the budget pays for each sentence appended; `changed` says exactly whether something was revealed or appended; the subset rule completed, leaving nothing to add, unless the budget was spent; the engine stays valid and sound, forgets nothing of a true knowledge, and is settled when the pass completed and changed nothing |
| Inference.MinesweeperAI.Round | minesweeper/minesweeper.py:226-270 | one round of the loop: a pass, recorded at the end of the run, spending one unit and one per sentence appended; the known safe cells and mines grow by exactly what the state the pass started from reveals, so the cells revealed along the run grow by the same cells |
| Inference.MinesweeperAI.Settle | minesweeper/minesweeper.py:226-270 | the loop of passes: the run recorded starts from the current knowledge and ends in the new one; the known safe cells and mines grow by exactly what the recorded passes revealed; every pass but the last completed and changed something; `settled` only when the last pass completed and changed nothing, and then the knowledge is settled; not settled only when the passes spent all of `fuel` |
| Inference.MinesweeperAI.AddKnowledge | minesweeper/minesweeper.py:178-270 | the cell becomes a move made, and the engine stays valid; the known safe cells become the old ones plus the cell plus what the recorded passes revealed, and the known mines the old ones plus what the passes revealed, whatever the counts; the run of passes starts from the knowledge right after the observation (the cell marked safe, the observation sentence appended), each pass but the last completed and changed something, `settled` means the last pass completed and changed nothing and the knowledge is settled, and not settled means all of `fuel` was spent; for a truthful count the engine stays sound, so no cell is both safe and a mine, and it forgets nothing: every layout it then agrees with is one it agreed with before, with the cell safe and `count` mines around it |
| Inference.MinesweeperAI.MakeSafeMove | minesweeper/minesweeper.py:272-285 | no move exactly when every safe cell has been played; otherwise a safe cell not yet played |
| Inference.MinesweeperAI.MakeRandomMove | minesweeper/minesweeper.py:287-304 | no move exactly when every cell of the board has been played or is a known mine; otherwise a cell on the board that is neither |
| TicTacToe.Count | tictactoe/tictactoe.py:31-33 | `row.count(m)`, scanning the row; its meaning is stated by `CountRow` |
| TicTacToe.Tally | tictactoe/tictactoe.py:29-33 | the counter loop `for row in board: count += row.count(m)`; its meaning is stated by `TallyCountsMarks` |
| TicTacToe.CountStep | tictactoe/tictactoe.py:31-33 | one more cell of the row adds one to `row.count(m)` exactly when it holds `m` |
| TicTacToe.RowMarksStep | tictactoe/tictactoe.py:31-33 | one more cell of the row adds one to the row's cells holding `m` exactly when it holds `m` |
| TicTacToe.CountIsRowMarks | tictactoe/tictactoe.py:31-33 | `row.count(m)` over a prefix of the row is the number of cells of that prefix holding `m` |
| TicTacToe.CountRow | tictactoe/tictactoe.py:31-33 | `row.count(m)` is the number of cells of the row holding `m` |
| TicTacToe.MarksByRow | tictactoe/tictactoe.py:31-33 | the cells holding `m` are those of row 0, row 1 and row 2 |
| TicTacToe.TallyByRow | tictactoe/tictactoe.py:31-33 | the counter loop adds up the three rows' counts |
| TicTacToe.TallyCountsMarks | tictactoe/tictactoe.py:26-33 | the counters `x_count` and `o_count` are the numbers of cells holding X and O |
| TicTacToe.InitialState | tictactoe/tictactoe.py:13-19 | every cell of the starting board is empty |
| TicTacToe.Player | tictactoe/tictactoe.py:22-43 | nobody moves exactly when the game is over; otherwise X moves exactly when X and O hold as many cells each |
| TicTacToe.InitialPlayerIsX | tictactoe/tictactoe.py:35-40 | X moves first |
| TicTacToe.PlayerAlternates | tictactoe/tictactoe.py:35-43 | on a board where X has as many marks as O or one more, a move keeps that so, and the player to move changes unless the game is over |
| TicTacToe.Actions | tictactoe/tictactoe.py:46-59 | the actions are exactly the empty cells |
| TicTacToe.ThreeIsCountThree | tictactoe/tictactoe.py:101-116 | `line.count(m) == 3` holds exactly when all three cells of the line hold `m` |
| TicTacToe.WinnerFrom | tictactoe/tictactoe.py:94-106 | the loop over rows and columns of `winner`; what it computes is stated by `WinnerFromLines` and `LastLineDecides` |
| TicTacToe.LastLineDecides | tictactoe/tictactoe.py:94-106 | with no full row or column from index i on, the loop keeps its start value; otherwise the last index with a full row or column decides, an O line before an X line at that index |
| TicTacToe.Winner | tictactoe/tictactoe.py:85-120 | `winner`: the loop, then the O diagonals, then the X diagonals; what it means is stated by `WinnerHoldsALine` and `LaterRowOverrides` |
| TicTacToe.WinnerFromLines | tictactoe/tictactoe.py:94-106 | the rows-and-columns loop keeps its start value or ends with a mark holding a row or column from there on; it ends with a winner when some row or column is full |
| TicTacToe.WinnerIsComplete | tictactoe/tictactoe.py:85-120 | the winner reported holds a full row, column or diagonal |
| TicTacToe.CompleteHasWinner | tictactoe/tictactoe.py:85-120 | a board with a full line for some player has a winner |
| TicTacToe.WinnerHoldsALine | tictactoe/tictactoe.py:85-120 | there is no winner exactly when no line is full, and a winner holds a full line |
| TicTacToe.LaterRowOverrides | tictactoe/tictactoe.py:94-117 | on any board without a full diagonal, the last index whose row or column is full decides the winner, whatever lower indices hold, and at that index an O line beats an X line |
| TicTacToe.DiagonalOverrides | tictactoe/tictactoe.py:110-117 | a full X diagonal makes X the winner and a full O diagonal makes O the winner, whatever the rows and columns hold |
| TicTacToe.DiagonalsNeverSplit | tictactoe/tictactoe.py:110-117 | the two diagonals share the centre, so X and O never both hold one |
| TicTacToe.Terminal | tictactoe/tictactoe.py:123-134 | `terminal`: a winner, or no row holding an empty cell; what it means is stated by `TerminalIffNoMoves` |
| TicTacToe.TerminalIffNoMoves | tictactoe/tictactoe.py:123-134 | the game is over exactly when there is a winner or no action is left |
| TicTacToe.Result | tictactoe/tictactoe.py:62-82 | an action that is not an empty cell raises `ValueError`; otherwise only the action's cell changes, and it gets the player to move |
| TicTacToe.ResultMarks | tictactoe/tictactoe.py:62-82 | a move adds the action's cell to the mover's cells and removes it from the empty cells, and leaves the other marks' cells alone |
| TicTacToe.ResultFillsACell | tictactoe/tictactoe.py:62-82 | a move on a game not yet over leaves one empty cell fewer |
| TicTacToe.ResultOnTerminalBoard | tictactoe/tictactoe.py:71-80 | on a finished game `player` is `None`, so `result` writes `None` into an empty cell and the board stays as it was |
| TicTacToe.Utility | tictactoe/tictactoe.py:137-151 | the utility is 1, -1 or 0 |
| TicTacToe.UtilityFromLines | tictactoe/tictactoe.py:137-151 | 1 means X holds a full line, -1 means O does, and 0 exactly when neither does |
| TicTacToe.MaxFold | tictactoe/tictactoe.py:194-195 | the loop `v = max(v, min_value(result(board, action)))` over the actions; what it computes is stated by `MaxFoldBounds` and `MaxFoldAttained` |
| TicTacToe.MinFold | tictactoe/tictactoe.py:211-212 | the loop `v = min(v, max_value(result(board, action)))` over the actions; what it computes is stated by `MinFoldBounds` and `MinFoldAttained` |
| TicTacToe.MaxValue | tictactoe/tictactoe.py:182-197 | `max_value`: the utility on a finished game, otherwise the fold from minus infinity; its values are stated by `MaxValueOverActions` and `MaxValueInRange` |
| TicTacToe.MinValue | tictactoe/tictactoe.py:200-214 | `min_value`: the utility on a finished game, otherwise the fold from plus infinity; its values are stated by `MinValueOverActions` and `MinValueInRange` |
| TicTacToe.MaxFoldBounds | tictactoe/tictactoe.py:194-195 | the fold `v = max(v, ...)` ends at or above its start and above the value of every action it visits |
| TicTacToe.MaxFoldAttained | tictactoe/tictactoe.py:194-195 | the fold `v = max(v, ...)` ends at its start or at the value of an action it visits |
| TicTacToe.MinFoldBounds | tictactoe/tictactoe.py:211-212 | the fold `v = min(v, ...)` ends at or below its start and below the value of every action it visits |
| TicTacToe.MinFoldAttained | tictactoe/tictactoe.py:211-212 | the fold `v = min(v, ...)` ends at its start or at the value of an action it visits |
| TicTacToe.MaxValueInRange | tictactoe/tictactoe.py:182-197 | when every action's value is between -1 and 1, so is `max_value` |
| TicTacToe.MinValueInRange | tictactoe/tictactoe.py:200-214 | when every action's value is between -1 and 1, so is `min_value` |
| TicTacToe.ValuesAreUtilities | tictactoe/tictactoe.py:182-214 | `max_value` and `min_value` never return an infinity sentinel: their values lie between -1 and 1 |
| TicTacToe.TerminalValues | tictactoe/tictactoe.py:191-192 | on a finished game both values are the utility |
| TicTacToe.MaxValueOverActions | tictactoe/tictactoe.py:182-197 | on a game not over, `max_value` is the largest `min_value` over the results of the actions |
| TicTacToe.MinValueOverActions | tictactoe/tictactoe.py:200-214 | on a game not over, `min_value` is the smallest `max_value` over the results of the actions |
| TicTacToe.BestMaxMoveHasMaxValue | tictactoe/tictactoe.py:164-171 | an action at least as good for X as every other has the board's `max_value` |
| TicTacToe.BestMinMoveHasMinValue | tictactoe/tictactoe.py:173-180 | an action at least as good for O as every other has the board's `min_value` |
| TicTacToe.MaximisingMove | tictactoe/tictactoe.py:164-171 | X's loop returns an empty cell whose value is the largest, namely `max_value` of the board |
| TicTacToe.MinimisingMove | tictactoe/tictactoe.py:173-180 | O's loop returns an empty cell whose value is the smallest, namely `min_value` of the board |
| TicTacToe.Minimax | tictactoe/tictactoe.py:154-180 | no move exactly when the game is over; otherwise an empty cell that is optimal for the player to move |

## Left out

- Random mine placement in `Minesweeper.__init__` uses `random.randrange`. The mine layout is a
  parameter of the constructor instead. The board of booleans is the set of mine cells.
- `print`, `Sentence.__str__` and the game runner are display, input and output code.
- `random.choice` in `make_safe_move` and `make_random_move` is an arbitrary choice (`:|`). The
  contracts allow any of the candidates.
- Python iterates sets in an unspecified order. The model visits them in any order:
  - `new_safes` and `new_mines` are marked one cell at a time;
  - the contracts hold whatever that order is.
- Inference.MinesweeperAI.AddKnowledge: termination is not proved. The source loop can run
  forever once counts are inconsistent. For example, a sentence with no cells and count 5 makes
  the subset rule append differences with ever smaller counts. The model therefore takes a `fuel`
  budget:
  - each pass spends one unit;
  - each appended sentence spends one unit;
  - `settled` is false exactly when the budget runs out before a pass changes nothing.
  The contract promises a settled knowledge only when `settled` is true. Each recorded pass is
  what one iteration of Python's loop does, to the sentences and to the known cells.
- Inference.MinesweeperAI.VisitPair: `s1 is s2` is object identity. It is modelled as
  identity, not as "same value". An equal sentence at another position never adds anything,
  because its difference has no cells. So the check changes no outcome.
- `s3 not in self.knowledge` uses `Sentence.__eq__`. It is modelled as membership of the value
  `Fact(cells, count)` among the sentences' values; `InIsEquality` relates the two.
- Board heights, widths and cell counts are unbounded naturals and integers, as in Python.
- The default arguments of `Minesweeper(height=8, width=8, mines=8)` and
  `MinesweeperAI(height=8, width=8)` are not modelled. The constructors always take the
  dimensions, and the layout replaces the mine count. No operation depends on the defaults.
- Tic-tac-toe: `EMPTY` and `None` are the same Python value, and so are the same `Mark`.
  - `player` answers `Empty` on a finished game.
  - `-math.inf` and `math.inf` become -2 and 2. These lie below and above every utility.
- The other programs in the repository are not part of this model. Their test scripts are not
  part of it either.
