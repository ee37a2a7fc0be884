# Crossword CSP solver and tic-tac-toe minimax, modelled in Dafny

This project models two programs from an introductory AI course repository and
proves properties of the models:

- the crossword generator's constraint solver, class `CrosswordCreator` in
  `crossword/generate.py`. It covers node consistency, AC-3 arc consistency,
  backtracking search with inference, and the grid of letters;
- the tic-tac-toe rules and minimax player of `tictactoe/tictactoe.py`.

Files:

- `options.dfy`: module `Options`. It holds `Option`, which stands for
  Python's `None`-or-value results.
- `crossword.dfy`: module `Crossword`. It holds the puzzle structure
  (variables, the overlap relation, the word list, the grid size) and the
  specification predicates. These say what an arc-consistent domain, a
  consistent assignment and a complete assignment are, and which letters a
  grid shows.
- `generate.dfy`: module `Generate`. It holds `PyError`, the Python
  exceptions the solver can raise (`TypeError`, `IndexError`,
  `StopIteration`), and `Result`, a value or such an exception. It holds
  class `CrosswordCreator`, whose
  field `domains` (a map from variable to a set of words) the methods update
  in place as the Python code does. It also holds the module-level loops and
  lemmas the class methods use.
- `tictactoe.dfy`: module `TicTacToe`. Boards are values. `winner`,
  `terminal` and `utility` are functions; `player`, `actions`, `result`,
  `minimax` and `min_max_value` are methods with their loops.

## How the Python code's behaviour is represented

- A Python set or dict is iterated in an order the program does not fix. The
  model picks the next element with `:|`, so every proof holds for every
  order.
- A crash becomes the outcome `Failed(e)`. `e` is the exception Python would
  raise: `TypeError` for `len(None)`, `None[k]` or `for _ in None`;
  `IndexError` for a letter index past a word's end, or for a letter cell
  outside the height-by-width grid in `letter_grid`; `StopIteration` for
  `next(iter({}))`.
- The assignment dictionary is shared and mutated by `backtrack`. Here it is
  passed in and handed back, as `a'`.
- Randomness (`random.choice`, `random.randrange`) is an unspecified choice
  from the allowed values.
- The tic-tac-toe search uses the floats `-inf` and `+inf` as sentinels.
  They become the integers `-2` and `+2`. Every utility lies in {-1, 0, 1},
  so no comparison changes.

Behaviour that the model follows as the code is written, where the
docstrings, or a textbook backtracking CSP solver, would behave differently:

- `ac3` always returns `True` (`crossword/generate.py:164-165`). It compares a
  set with `None`, which never holds, so an emptied domain is never reported.
  `AC3` and `MaintainingArcConsistency` ensure `ok`.
- `backtrack` undoes a failed choice by writing `None` into the assignment.
  It does not delete keys and never restores the pruned domains
  (`crossword/generate.py:278-280`). Later reads of such a key raise
  `TypeError`.
- The undo loop iterates `inferences` even when `inference` returned `None`.
  That path raises `TypeError` (`crossword/generate.py:279`).
- When `consistent` rejects an assignment, neither the value nor the
  inferred words are undone. They stay in the dictionary the loop goes on
  with.
- `consistent` checks `x`'s length before comparing it with the other keys.
  A key `y` that is `None`, or too short for the overlap, raises before its
  own turn (`TypeError`, `IndexError`).
- `inference` prunes each unassigned neighbour directly. It then runs AC-3
  over every arc into that neighbour, which may prune any variable,
  assigned ones included (`crossword/generate.py:296`, `305-309`).
- `select_unassigned_variable` prefers the minimum domain size whenever
  sizes differ. It uses the neighbour count only when every unassigned
  domain has the same size, and chooses at random only when the counts tie
  too (`crossword/generate.py:245-252`).
- `winner` stops at the first row or column of three equal cells, even when
  the three are EMPTY. An empty top row therefore hides a win further down
  (`TicTacToe.EmptyRowHidesWin`). The test `board is initial_state()`
  compares identity with a freshly built list and is never true.

## Model

| member | source | states |
|---|---|---|
| Generate.CrosswordCreator.constructor | crossword/generate.py:15-23 | every variable's domain is the whole word list |
| Generate.CrosswordCreator.EnforceNodeConsistency | crossword/generate.py:110-113 | each domain becomes exactly its words of the variable's length; no other word is removed and no variable is added or dropped |
| Generate.RemoveWrongLength | crossword/generate.py:111-113 | a domain's words of the wrong length are removed and no other word is |
| Generate.CrosswordCreator.Revise | crossword/generate.py:125-140 | with no overlap nothing changes; otherwise only `x`'s domain changes, to exactly the words with a partner in `y`'s domain; the result is true iff `x`'s domain strictly shrank |
| Crossword.ReverseArcKept | crossword/generate.py:130-138 | revising `x` against `y` keeps the arc `y -> x` consistent if it was |
| Generate.RevisedKeeps | crossword/generate.py:163-169 | revising `x` keeps every consistent arc that does not point into `x` consistent |
| Generate.RevisedSettled | crossword/generate.py:163-169 | once the arcs into `x` are queued again, every arc is consistent or still queued |
| Generate.UnrevisedSettled | crossword/generate.py:163 | if the popped arc changes nothing, every arc is still consistent or queued |
| Generate.CrosswordCreator.AC3 | crossword/generate.py:152-171 | domains only shrink, the result is `True`, and on return every arc is consistent, except arcs left out of a given queue that were not consistent before |
| Generate.CrosswordCreator.ReviseHead | crossword/generate.py:159-170 | one queue turn either strictly shrinks the set of (variable, word) pairs or leaves the domains alone and shortens the queue, which bounds the loop |
| Crossword.PairsShrink | crossword/generate.py:138 | removing a word from a domain strictly shrinks the set of (variable, word) pairs |
| Generate.AllArcs | crossword/generate.py:153-155 | with no arcs given, the queue holds exactly the overlap keys |
| Generate.Requeue | crossword/generate.py:166-169 | the added arcs are exactly `(z, x)` for the neighbours `z` of `x` other than `y` |
| Generate.RequeuedArcs | crossword/generate.py:166-169 | every requeued arc is an overlap key |
| Generate.CrosswordCreator.AssignmentComplete | crossword/generate.py:179-185 | true iff there are as many keys as variables and no value is `None`; for keys among the variables, that is completeness |
| Generate.CrosswordCreator.Consistent | crossword/generate.py:192-204 | `Ok(true)` iff every value is a word of its variable's length, values are pairwise distinct and crossing words agree; it fails only with `TypeError` or `IndexError`, and only when some value is `None` or of the wrong length; an `IndexError` means some key's word is too short for a crossing offset |
| Generate.CheckedConsistent | crossword/generate.py:192-204 | the pairwise checks of the two loops together give consistency |
| Generate.NoIndexError | crossword/generate.py:202 | in a valid structure, with every assigned word of its variable's length, both offsets of every crossing index the two crossing words, so `consistent` cannot raise `IndexError` |
| Generate.CrosswordCreator.OrderDomainValues | crossword/generate.py:213-230 | the result is a permutation of `v`'s domain, ordered non-decreasingly by the number of words of unassigned neighbours that a value rules out |
| Generate.ZeroCounts | crossword/generate.py:213-215 | one zero counter per domain word, and the words once each |
| Generate.CountRuledOut | crossword/generate.py:222-227 | the count for one word and one neighbour is the number of that neighbour's words that clash with it |
| Generate.TallyLoop | crossword/generate.py:218-227 | after the loop every word's counter is its clash total over exactly the unassigned neighbours |
| Generate.TallyNeighbor | crossword/generate.py:218-227 | a neighbour's turn adds its clashes to every word's counter |
| Generate.TallyNeighbors | crossword/generate.py:217-227 | the final counters are the clash totals over the unassigned neighbours |
| Generate.ClashesSplit | crossword/generate.py:218-227 | one more neighbour adds exactly its own clashes to a word's total |
| Generate.InsertByKey | crossword/generate.py:229 | inserting into a list sorted by the key keeps it sorted, and adds that one word |
| Generate.SortByKey | crossword/generate.py:229 | `sorted(..., key=...)`: a permutation, sorted by the key |
| Generate.CrosswordCreator.CheckMinDomain | crossword/generate.py:313-317 | `StopIteration` iff the dictionary is empty; otherwise true iff two domain sizes differ |
| Generate.CrosswordCreator.CheckMaxArcs | crossword/generate.py:322-326 | `StopIteration` iff the dictionary is empty; otherwise true iff two neighbour counts differ |
| Generate.Unassigned | crossword/generate.py:240-243 | the copy holds exactly the domains of the variables without a key |
| Generate.SmallestDomain | crossword/generate.py:246-247 | the first of the list sorted by domain size has a smallest domain |
| Generate.MostNeighbors | crossword/generate.py:249-250 | the last of the list sorted by neighbour count has the most neighbours |
| Generate.CrosswordCreator.SelectUnassignedVariable | crossword/generate.py:240-252 | fails with `StopIteration` iff every variable has a key; otherwise returns a variable without a key and with a smallest domain, and with the most neighbours when all unassigned domain sizes tie |
| Generate.ArcsInto | crossword/generate.py:305-308 | the queue holds exactly the overlap keys `(z, variable)` |
| Generate.CrosswordCreator.MaintainingArcConsistency | crossword/generate.py:305-309 | domains only shrink; afterwards every arc into `variable` is consistent, and so is every arc that was consistent before |
| Generate.CrosswordCreator.Prune | crossword/generate.py:293-295 | `n`'s domain becomes exactly its words that agree with `x`'s word; a `None` value raises as soon as the domain has a word, and changes nothing |
| Generate.CrosswordCreator.InferAt | crossword/generate.py:289-298 | afterwards `n`'s domain fits `x`'s word; when one word is left it is recorded for `n`, and that word is the whole domain; otherwise nothing is recorded |
| Generate.CrosswordCreator.InferFrom | crossword/generate.py:287-298 | every unassigned neighbour of `x` ends up fitting `x`'s word; a `TypeError` means `x`'s value is `None` |
| Generate.CrosswordCreator.Inference | crossword/generate.py:284-301 | domains only shrink; `None` when nothing was inferred, and otherwise a non-empty map of unassigned variables with words from their domains; afterwards every unassigned neighbour of every key fits that key's word; a failure is a `TypeError` with some value `None` |
| Generate.FitsShrunk | crossword/generate.py:296 | later pruning keeps a neighbour's domain fitting |
| Generate.AllFitShrunk | crossword/generate.py:296 | later pruning keeps every fitting neighbour fitting |
| Generate.InferredFromWords | crossword/generate.py:297-298 | inferred words are listed words of their variable's length |
| Generate.CrosswordCreator.Backtrack | crossword/generate.py:264-281 | a returned solution is the assignment itself and is complete and consistent; a complete assignment is returned as it is; an unassigned variable with an empty domain yields `None` and leaves the assignment as it was; keys are only added, values stay listed words, domains only shrink, and a failure is always a `TypeError` |
| Generate.CrosswordCreator.NextChoices | crossword/generate.py:267-268 | the chosen variable has no key, and its values are its domain's words, all listed words of its length |
| Generate.CrosswordCreator.TryValue | crossword/generate.py:268-280 | one value's turn adds the variable's key, keeps values listed words, fails only with `TypeError`, and a solution it returns is complete and consistent; on `Ok(None)` either the undo has set the variable to `None`, or the rejected value is still in place in an inconsistent assignment |
| Generate.CrosswordCreator.AssignAndInfer | crossword/generate.py:269-273 | after assigning and merging, the variable holds `value` and each inferred variable holds its inferred word; the keys become exactly the old keys, the variable and the inferred ones, every other key keeps its value, and without inferred words the result is the old assignment with just `variable` set; every value is a listed word of the right length |
| Generate.Merge | crossword/generate.py:272-273 | each inferred variable maps to its word and every other key keeps its value |
| Generate.CrosswordCreator.Descend | crossword/generate.py:274-280 | the recursive call's solution is passed up; when the search goes on (`Ok(None)`) the undo has run: there were inferences, and the variable and every inferred variable are `None`; a failure is a `TypeError` |
| Generate.Undo | crossword/generate.py:278-280 | the variable and every inferred variable become `None`, every other key keeps its value and no key is removed; with no inferences only the variable is reset and the result is `TypeError` |
| Generate.Unset | crossword/generate.py:279-280 | each inferred variable maps to `None` and every other key keeps its value |
| Generate.FewerUnassigned | crossword/generate.py:275 | the recursive call has strictly fewer variables without a key, which bounds the recursion |
| Generate.CrosswordCreator.Solve | crossword/generate.py:99-101 | a solution is complete, consistent and made of listed words; a variable that no word fits leaves `None`; no variables give the empty solution; a failure is a `TypeError` |
| Generate.CrosswordCreator.LetterGrid | crossword/generate.py:29-39 | a fresh `height` by `width` grid exactly when every value is a word whose cells index the grid; each cell is empty iff no word covers it, and otherwise holds a letter written there |
| Generate.PaintWord | crossword/generate.py:35-38 | succeeds iff every letter's cell indexes the grid, and then the grid shows that word's letters as well; every cell none of the word's letters lands on keeps its contents |
| Generate.Paint | crossword/generate.py:38 | the written cell holds the letter, every other cell keeps its contents, and the grid still shows everything written before |
| TicTacToe.InitialState | tictactoe/tictactoe.py:17-19 | every cell is EMPTY, so all nine cells are free |
| TicTacToe.Player | tictactoe/tictactoe.py:26-38 | `None` iff the board is terminal; otherwise X after an even number of moves and O after an odd one |
| TicTacToe.ParityTurn | tictactoe/tictactoe.py:29-38 | on a board that is not over, the parity of the moves played decides the turn |
| TicTacToe.PlayersAlternate | tictactoe/tictactoe.py:59-65 | a move hands the turn to the other mark unless it ends the game |
| TicTacToe.Actions | tictactoe/tictactoe.py:45-52 | exactly the empty cells, all on the board |
| TicTacToe.ResultOf | tictactoe/tictactoe.py:59-65 | raises iff the cell is taken; otherwise the new board differs from the input only at the action, which holds the player to move |
| TicTacToe.PlaceOnEmpty | tictactoe/tictactoe.py:63 | a move on an empty cell removes that cell from the empty ones and adds it to the filled ones |
| TicTacToe.WinnerFrom | tictactoe/tictactoe.py:78-86 | a reported mark fills a line at or after row or column `i`; without an all-EMPTY line, `None` means no such line |
| TicTacToe.DiagonalWinner | tictactoe/tictactoe.py:84-86 | a reported mark fills a diagonal; without an all-EMPTY line, `None` means no diagonal is filled |
| TicTacToe.Winner | tictactoe/tictactoe.py:73-86 | a reported mark fills a row, column or diagonal |
| TicTacToe.WinnerComplete | tictactoe/tictactoe.py:78-86 | without an all-EMPTY line, there is no winner iff no line is held by one mark |
| TicTacToe.EmptyRowHidesWin | tictactoe/tictactoe.py:79-80 | with an empty top row and a full row of X, `winner` reports no winner |
| TicTacToe.Terminal | tictactoe/tictactoe.py:93-101 | true iff there is a winner or no cell is EMPTY |
| TicTacToe.NotTerminalHasMove | tictactoe/tictactoe.py:96-99 | a board that is not over has a free cell |
| TicTacToe.Utility | tictactoe/tictactoe.py:109-114 | 1 iff X won, -1 iff O won, 0 iff there is no winner |
| TicTacToe.MinMaxValue | tictactoe/tictactoe.py:153-171 | always a value in {-1, 0, 1}, and the utility on a terminal board; the recursion ends because each move fills a cell |
| TicTacToe.Minimax | tictactoe/tictactoe.py:119-142 | `None` iff the board is terminal; on the empty board some cell of the grid; otherwise a free cell |

## Left out

- `print`, `save` and `main` of `crossword/generate.py`: console output, image drawing and command-line handling.
- `crossword/crossword.py` is not part of this model. Reading the structure and word files, and computing variables, overlaps and grid size, happen there; here the structure is a given value that satisfies `ValidStructure`.
- The other programs of the repository (shopping, heredity, parser, knights, minesweeper, degrees, questions, pagerank) are not modelled.
- Generate.CrosswordCreator.Backtrack: does not state that `None` means the puzzle has no solution. Stale values left by a rejected choice and the undo's `None` keys make this unprovable as the code is written.
- Generate.CrosswordCreator.Inference: states that an inferred word was in its variable's domain when the call began. That it was the only word when recorded is stated per neighbour by `InferAt`; later pruning in the same call may still remove it.
- Generate.CrosswordCreator.LetterGrid: when two words write different letters to one cell, the contract states the cell holds one of them, not which. That depends on the dictionary's iteration order.
- TicTacToe.MinMaxValue: does not state that the value is the game's minimax value. The early exit against the caller's `best_value` makes it a bound relative to that value, and only the range and the terminal case are stated.
- TicTacToe.Minimax: states that the move is legal, not that it is optimal.
- The deep copy in `result` and the identity of boards are not modelled: boards are values, so the input board is unchanged by construction.
