# Search and inference cores of three game-playing programs, in Dafny

This project models three programs and proves what their code promises.

- **Crossword generator** (`week-3/project-3a-crossword/generate.py`, modules `Crossword` and `Generate`). A constraint-satisfaction solver that gives each word slot of a crossword a word from a pool. It has three parts:
  - node consistency, which keeps only the words of the slot's length;
  - AC-3 arc consistency over the graph of crossing slots;
  - backtracking search. The search picks the slot with the fewest words left, and among those the one with the most neighbours (minimum remaining values, then degree). It tries words that rule out the fewest neighbour words first (least constraining value). It runs AC-3 after each choice, and restores a snapshot of the domains on failure.
- **Minesweeper player** (`week-1/minesweeper/minesweeper.py`, module `Minesweeper`). This covers:
  - the board's `nearby_mines`, `is_mine` and `won`;
  - the `Sentence` class, a set of cells with the number of mines among them;
  - the `MinesweeperAI` knowledge base: marking mines and safe cells, subset inference, and the `add_knowledge` loop that repeats inference until nothing new is learnt.
- **Tic-tac-toe** (`week-0/project-1-tictactoe/tictactoe.py`, module `TicTacToe`). This covers the rules (`player`, `actions`, `result`, `winner`, `terminal`, `utility`) and the alpha-beta `min_player`/`max_player`/`minimax` search.

`Wrappers` holds `Option` and `Result`. `Sets` holds cardinality facts and `SetToSeq`. `SetToSeq` stands for Python's iteration over a set, in an order the program does not rely on.

## The form of the model

- **Crossword.** `CrosswordCreator` is a class.
  - Its `domains` field is a map from slots to word sets, and the domain-changing operations are methods with `modifies this`.
  - `revise` and `ac3` are while loops.
  - The `rating` dictionary of `order_domain_values` is a map field built by a loop.
  - The `letter_grid` nested list is filled by loops.
  - Node consistency, `assignment_complete`, `consistent` and `select_unassigned_variable` are expressions.
  - The puzzle structure from `crossword.py` is not part of this model. It is the datatype `Puzzle`: the slots, the word pool, and an overlap table on ordered pairs of slots. `WellFormed` states what the solver relies on:
    - overlaps are listed for exactly the pairs of distinct slots;
    - they are symmetric;
    - their offsets lie inside the slots.
  - `neighbors(x)` is the set of other slots with a `Some` overlap.
  - The assignment dictionary is a map value passed down the recursion. Python adds and then deletes `assignment[var]` around each attempt. `TryValue` does the same on its copy, and `DeleteAdded` proves the deletion returns the caller's assignment.
- **Minesweeper.** `Sentence` and `MinesweeperAI` are classes, and the knowledge list is a `seq<Sentence>`.
  - Each sentence's logical value is a `Fact` datatype.
  - The proofs compare knowledge with a ghost parameter `truth`, the real mine layout. The player never reads it.
  - `Sound(truth)` means:
    - every cell marked as a mine is one;
    - no cell marked safe is one;
    - every sentence's count is the number of real mines among its cells.
- **Tic-tac-toe.** Boards are values, because `result` deep-copies.
  - `actions`, `min_player`, `max_player` and `minimax` are loops over the moves.
  - `math.inf` is the constant `INF = 2`; every score is -1, 0 or 1.
  - Search results are proved against the reference values `MaxValue`/`MinValue`, the full minimax value of a board.

## Model

| member | source | states |
|---|---|---|
| `Crossword.NeighborsSymmetric` | week-3/project-3a-crossword/generate.py:153-155 | On a well-formed puzzle, `y` is a neighbour of `x` exactly when `x` is a neighbour of `y`, and the overlap seen from `y` is the swapped one. |
| `Crossword.ReviseDomainMeaning` | week-3/project-3a-crossword/generate.py:120-130 | The domain `revise` leaves for `x` is a subset of the old one. It is the whole old one when there is no overlap. After it, the arc `(x, y)` holds. It equals the old domain exactly when the arc already held. |
| `Crossword.ReviseKeepsArc` | week-3/project-3a-crossword/generate.py:146-155 | Revising `x` against `y` keeps every arc that held, except arcs `(z, x)` with `z != y`. Those are exactly the arcs `ac3` puts back on the worklist. |
| `Crossword.ReviseKeepsSolutions` | week-3/project-3a-crossword/generate.py:123-128 | Revising never removes a word that is part of a complete assignment agreeing at every crossing and drawn from the current domains. |
| `Crossword.EmptyDomainUnsolvable` | week-3/project-3a-crossword/generate.py:149-151 | Once a slot's domain is empty, no assignment solves the puzzle within the domains, so the early `False` of `ac3` is justified. |
| `Crossword.UncrossedSlotUnseen` | week-3/project-3a-crossword/generate.py:139-156 | For a slot that crosses no other, emptying its domain changes nothing about which arcs hold. So `ac3` reports success with that domain empty, although its docstring promises `True` only when no domain is empty. |
| `Crossword.CandidatesShrink` | week-3/project-3a-crossword/generate.py:146-156 | Narrowing one domain never adds a (slot, word) candidate, and losing a word loses one. This is the first half of the termination measure of `ac3`. |
| `Generate.NodeFiltered` | week-3/project-3a-crossword/generate.py:98-108 | Node consistency keeps the set of slots. It leaves only words of the slot's length. It never adds a word, and it keeps every word of the right length. |
| `Generate.NodeFilteredKeepsSolutions` | week-3/project-3a-crossword/generate.py:105-108 | Node consistency removes no word of a solution. |
| `Generate.ArcStaysPending` | week-3/project-3a-crossword/generate.py:146-155 | After one AC-3 step, every tracked arc is still on the worklist or holds. |
| `Generate.InsertByRating` | week-3/project-3a-crossword/generate.py:226 | Inserting a word adds exactly that word to the multiset of words. |
| `Generate.InsertByRatingSorted` | week-3/project-3a-crossword/generate.py:226 | Inserting into a list in rating order keeps it in rating order. |
| `Generate.SortByRating` | week-3/project-3a-crossword/generate.py:226 | `sorted(..., key=rating)` returns a permutation of its input, in non-decreasing rating order. |
| `Generate.FirstExists` | week-3/project-3a-crossword/generate.py:242-248 | A non-empty set of slots has a minimum for `select_unassigned_variable`'s key: fewest words, then most neighbours. |
| `Generate.DeleteAdded` | week-3/project-3a-crossword/generate.py:277 | `del assignment[var]` after `assignment[var] = value` gives back the assignment as it was. |
| `Generate.WriteWord` | week-3/project-3a-crossword/generate.py:27-31 | Writing one word sets each cell the slot covers to the word's letter at that offset, and leaves every other cell unchanged. |
| `Generate.CrosswordCreator.constructor` | week-3/project-3a-crossword/generate.py:8-16 | Every slot starts with the whole word pool. |
| `Generate.CrosswordCreator.LetterGrid` | week-3/project-3a-crossword/generate.py:18-32 | The grid has height rows of width cells. A cell is empty exactly when no assigned word covers it. Otherwise it holds the letter of some word covering it. When crossing words agree, it holds the letter of every word covering it. |
| `Generate.CrosswordCreator.EnforceNodeConsistency` | week-3/project-3a-crossword/generate.py:98-108 | The domains become `NodeFiltered` of the old ones. |
| `Generate.CrosswordCreator.Revise` | week-3/project-3a-crossword/generate.py:111-130 | Only `domains[x]` changes, to the words supported by some word of `y`. Words are only removed. The result is true exactly when a word was removed. Afterwards the arc `(x, y)` holds. |
| `Generate.CrosswordCreator.EnqueueNeighbors` | week-3/project-3a-crossword/generate.py:153-155 | The queue keeps its arcs, as its back part. In front it gains exactly one arc `(z, x)` for each neighbour `z != y` of `x`: each of them is in the front part, the front part has that many arcs, and every arc there goes into `x` from a slot other than `y`. |
| `Generate.FrontPush` | week-3/project-3a-crossword/generate.py:153-155 | Visiting a neighbour `z != y` and pushing `(z, x)` keeps the front part exactly the arcs from the neighbours visited so far. |
| `Generate.FrontSkip` | week-3/project-3a-crossword/generate.py:154 | Visiting `y` itself pushes nothing and keeps that description. |
| `Generate.FrontPendingStep` | week-3/project-3a-crossword/generate.py:153-155 | One turn of the loop, over the neighbours still to visit, keeps that description. |
| `Generate.FrontQueued` | week-3/project-3a-crossword/generate.py:153-155 | Once every neighbour is visited, the pushed arcs followed by the old queue have the properties `EnqueueNeighbors` promises. |
| `Generate.CrosswordCreator.ReviseAndRequeue` | week-3/project-3a-crossword/generate.py:149-155 | The new domains are those `revise` gives. After a removal that left the domain non-empty, the queue gains in front exactly the arcs `(z, x)` for the neighbours `z != y` of `x`. Without a removal, or when the domain became empty, the queue is unchanged. |
| `Generate.CrosswordCreator.AC3Turn` | week-3/project-3a-crossword/generate.py:146-155 | One iteration of the loop. Domains only shrink. Failure means some domain is empty. Tracked arcs stay queued or holding, and solutions survive. Either the candidates shrink, or the domains stay the same and the queue gets shorter. |
| `Generate.CrosswordCreator.AC3` | week-3/project-3a-crossword/generate.py:133-156 | `ac3` terminates, only removes words, and loses no solution. `False` means some domain is empty, and then there is no solution. `True` with no arcs given means every arc of the puzzle holds. `True` with arcs means the given arcs, and the arcs that already held, hold. On already arc-consistent domains it returns `True` and changes nothing. |
| `Generate.CrosswordCreator.AssignmentComplete` | week-3/project-3a-crossword/generate.py:159-166 | True exactly when the assignment's keys are the puzzle's slots. |
| `Generate.CrosswordCreator.Consistent` | week-3/project-3a-crossword/generate.py:169-195 | A consistent assignment uses no word twice (the map is injective); `ConsistentMeaning` gives the full characterisation. |
| `Generate.CrosswordCreator.ConsistentMeaning` | week-3/project-3a-crossword/generate.py:169-195 | `consistent` holds exactly when three things hold: no word is used twice, every word has its slot's length, and every two assigned slots agree where they cross. |
| `Generate.CrosswordCreator.ConsistentPart` | week-3/project-3a-crossword/generate.py:169-195 | Every part of a solution passes `consistent`, so the check inside `backtrack` never cuts off a solution. |
| `Generate.CrosswordCreator.CountClashes` | week-3/project-3a-crossword/generate.py:221-224 | The count a word gets from one neighbour is the number of that neighbour's words it disagrees with at their crossing. |
| `Generate.CrosswordCreator.CountRuleOuts` | week-3/project-3a-crossword/generate.py:219-224 | The count a word gets from the unassigned neighbours is the number of (neighbour, word) pairs it rules out. |
| `Generate.CrosswordCreator.Ratings` | week-3/project-3a-crossword/generate.py:211-224 | The `rating` map has the words of the domain as keys, each mapped to the number of neighbour words it rules out. |
| `Generate.CrosswordCreator.OrderDomainValues` | week-3/project-3a-crossword/generate.py:198-226 | The result lists each domain word exactly once. The words are in non-decreasing order of what they rule out among unassigned neighbours. |
| `Generate.CrosswordCreator.SelectUnassignedVariable` | week-3/project-3a-crossword/generate.py:229-248 | The result is an unassigned slot with the fewest words left. Among unassigned slots with that many words, it has the most neighbours. |
| `Generate.CrosswordCreator.ArcsInto` | week-3/project-3a-crossword/generate.py:267-268 | The arcs `(n, x)`, one for every neighbour `n` of `x`, and nothing else. |
| `Generate.CrosswordCreator.Infer` | week-3/project-3a-crossword/generate.py:266-269 | The `ac3` call inside `backtrack` only removes words and loses no solution. `False` means no solution is left. On arc-consistent domains it changes nothing. |
| `Generate.CrosswordCreator.Backtrack` | week-3/project-3a-crossword/generate.py:250-280 | A result is complete and extends the assignment. Each word it adds comes from its slot's domain. If the assignment was consistent, the result is too. No result means no solution extends the assignment, and the domains are as on entry. Started from arc-consistent domains, the domains never change. |
| `Generate.CrosswordCreator.TryValues` | week-3/project-3a-crossword/generate.py:256-280 | A success is complete and consistent and extends the assignment. The word it gives the slot is some `values[k]`, and no solution extends the assignment with any earlier word `values[..k]`, so it is the first word that leads to a solution. No success means no solution extends the assignment with any word of the slot, and the domains are as on entry. |
| `Generate.CrosswordCreator.TryValue` | week-3/project-3a-crossword/generate.py:258-278 | One attempt at one word. A result is complete, consistent, keeps the word, and comes from the domains. No result means no solution extends the assignment with that word, and the snapshot is restored. |
| `Generate.CrosswordCreator.Solve` | week-3/project-3a-crossword/generate.py:88-95 | An answer is a complete, consistent assignment of words from the starting domains. There is no answer exactly when no solution uses those words. |
| `Generate.AnswerFromEmpty` | week-3/project-3a-crossword/generate.py:88-95 | A complete, agreeing, injective answer of the right word lengths, drawn from domains that only narrowed the starting ones, is a solution within the starting domains. |
| `Minesweeper.NeighborhoodShape` | week-1/minesweeper/minesweeper.py:181-195 | The cells around a cell are on the board, at most eight, and never the cell itself. |
| `Minesweeper.Minesweeper.constructor` | week-1/minesweeper/minesweeper.py:10-34 | The board has the given size and mine layout, and no mine is flagged. |
| `Minesweeper.Minesweeper.IsMine` | week-1/minesweeper/minesweeper.py:51-53 | True exactly when the cell is a mine. |
| `Minesweeper.Minesweeper.NearbyMines` | week-1/minesweeper/minesweeper.py:55-78 | The count is the number of mines among the in-board cells around `cell`, not counting `cell`. It is at most 8. |
| `Minesweeper.Minesweeper.Won` | week-1/minesweeper/minesweeper.py:80-84 | On a well-formed board the game is won exactly when the flagged cells all lie on the board and are precisely the cells the board marks as mines. |
| `Minesweeper.MineMarked` | week-1/minesweeper/minesweeper.py:125-127 | Marking a mine removes the cell, and lowers the count by one only when the cell was in the sentence. |
| `Minesweeper.SafeMarked` | week-1/minesweeper/minesweeper.py:134-135 | Marking a cell safe removes it and keeps the count. |
| `Minesweeper.MineMarkedKeepsTruth` | week-1/minesweeper/minesweeper.py:125-127 | A true sentence stays true after a real mine is marked. |
| `Minesweeper.SafeMarkedKeepsTruth` | week-1/minesweeper/minesweeper.py:134-135 | A true sentence stays true after a really safe cell is marked. |
| `Minesweeper.DifferenceKeepsTruth` | week-1/minesweeper/minesweeper.py:271-274 | The subset inference `(s2.cells - s1.cells, s2.count - s1.count)` from two true sentences is true. |
| `Minesweeper.Sentence.constructor` | week-1/minesweeper/minesweeper.py:94-96 | The sentence holds the given cells and count. |
| `Minesweeper.Sentence.Equals` | week-1/minesweeper/minesweeper.py:98-99 | `__eq__` holds exactly when the two sentences have the same value: the same cells and the same count. |
| `Minesweeper.Sentence.KnownMines` | week-1/minesweeper/minesweeper.py:104-110 | All the cells when their number equals the count, otherwise none. |
| `Minesweeper.Sentence.KnownSafes` | week-1/minesweeper/minesweeper.py:112-118 | All the cells when the count is zero, otherwise none. |
| `Minesweeper.Sentence.MarkMine` | week-1/minesweeper/minesweeper.py:120-127 | The sentence becomes `MineMarked` of its old value. |
| `Minesweeper.Sentence.MarkSafe` | week-1/minesweeper/minesweeper.py:129-135 | The sentence becomes `SafeMarked` of its old value. |
| `Minesweeper.SettledByCount` | week-1/minesweeper/minesweeper.py:104-118 | In a true sentence with count 0 no cell is a mine, and with count equal to the number of cells every cell is one. |
| `Minesweeper.KnownMinesAreMines` | week-1/minesweeper/minesweeper.py:104-110 | `known_mines` of a true sentence contains only mines. |
| `Minesweeper.KnownSafesAreSafe` | week-1/minesweeper/minesweeper.py:112-118 | `known_safes` of a true sentence contains no mine. |
| `Minesweeper.MineMarkedAllKeeps` | week-1/minesweeper/minesweeper.py:164-166 | Marking a mine in every sentence keeps true knowledge true. The cell then appears in no sentence. |
| `Minesweeper.SafeMarkedAllKeeps` | week-1/minesweeper/minesweeper.py:173-175 | Marking a safe cell in every sentence keeps true knowledge true. The cell then appears in no sentence. |
| `Minesweeper.NonEmpty` | week-1/minesweeper/minesweeper.py:197-203 | The kept sentences are exactly those with cells, taken from the list. |
| `Minesweeper.Kept` | week-1/minesweeper/minesweeper.py:197-203 | The sentence values kept are exactly those with cells. |
| `Minesweeper.ValuesOfNonEmpty` | week-1/minesweeper/minesweeper.py:197-203 | The values of the kept sentence objects are the kept values, in order. |
| `Minesweeper.ReduceTwice` | week-1/minesweeper/minesweeper.py:159-175 | Marking mines and safe cells in a sentence in two rounds gives what marking them all at once gives. |
| `Minesweeper.ReducedTwice` | week-1/minesweeper/minesweeper.py:159-175 | The same for every sentence of the knowledge. |
| `Minesweeper.ReducedUntouched` | week-1/minesweeper/minesweeper.py:159-175 | Marking cells that no sentence mentions changes no sentence. |
| `Minesweeper.MineMarkedAllReduced` | week-1/minesweeper/minesweeper.py:159-166 | `mark_mine` on every sentence is the reduction by that one mine. |
| `Minesweeper.SafeMarkedAllReduced` | week-1/minesweeper/minesweeper.py:168-175 | `mark_safe` on every sentence is the reduction by that one safe cell. |
| `Minesweeper.ReduceSettled` | week-1/minesweeper/minesweeper.py:255-260 | A true sentence with count 0 still has count 0 after real mines and really safe cells are marked, and one whose count equals its size still does. Its original cells are the remaining ones plus the marked ones. |
| `Minesweeper.SafesSettled` | week-1/minesweeper/minesweeper.py:257-258 | Marking the known safe cells of a reduced sentence is the reduction by more safe cells, and then all the cells of an original count-0 sentence are safe. |
| `Minesweeper.MinesSettled` | week-1/minesweeper/minesweeper.py:259-260 | Marking the known mines of a reduced sentence is the reduction by more mines, and then all the cells of an original sentence whose count equalled its size are mines. |
| `Minesweeper.SettledStep` | week-1/minesweeper/minesweeper.py:256-260 | Settling one more sentence extends the settled prefix of the loop. |
| `Minesweeper.CandidatesDerived` | week-1/minesweeper/minesweeper.py:268-277 | Every sentence the double loop collects is the difference of two distinct sentences where the first's cells are a subset of the second's, and is not already known. |
| `Minesweeper.CandidatesComplete` | week-1/minesweeper/minesweeper.py:268-277 | Every such difference that is not already known is collected. |
| `Minesweeper.CandidateIn` | week-1/minesweeper/minesweeper.py:269-277 | One such difference, for a given pair, is collected. |
| `Minesweeper.RowCandidateIn` | week-1/minesweeper/minesweeper.py:270-277 | The inner loop for `sentence1` collects every such difference with a `sentence2` it has visited. |
| `Minesweeper.AbsorbMeaning` | week-1/minesweeper/minesweeper.py:279-282 | Appending keeps the old list as a prefix. It adds only collected sentences, each not already in the list, and every collected sentence ends up in the list. |
| `Minesweeper.InferredMeaning` | week-1/minesweeper/minesweeper.py:264-282 | Inference keeps the old list as a prefix. It appends only new differences of subset pairs, and every such difference is in the new list. |
| `Minesweeper.InferredKeeps` | week-1/minesweeper/minesweeper.py:264-282 | Inference keeps true knowledge true, and keeps sentences clear of known cells and inside the board. |
| `Minesweeper.InferredGrowsCells` | week-1/minesweeper/minesweeper.py:247-251 | When inference changes true knowledge, it adds a cell set not seen before. So the `while True` loop terminates. |
| `Minesweeper.ClosedMeansStable` | week-1/minesweeper/minesweeper.py:247-251 | Knowledge is closed under the subset rule exactly when one more round of inference leaves it unchanged, which is when the loop stops. |
| `Minesweeper.KeptClosed` | week-1/minesweeper/minesweeper.py:253 | Dropping empty sentences from closed true knowledge keeps it closed. |
| `Minesweeper.InferredKeepsAll` | week-1/minesweeper/minesweeper.py:279-282 | Inference keeps every old sentence. |
| `Minesweeper.Mentions` | week-1/minesweeper/minesweeper.py:276 | `sentence not in self.knowledge`, using `__eq__`: true exactly when some sentence has the same cells and count. |
| `Minesweeper.Conclusion` | week-1/minesweeper/minesweeper.py:227-232 | The new sentence holds exactly the neighbours not known to be mines or safe. Its count is reduced by the known-mine neighbours. |
| `Minesweeper.ConclusionHolds` | week-1/minesweeper/minesweeper.py:227-232 | With a truthful count, the new sentence is true. |
| `Minesweeper.MinesweeperAI.constructor` | week-1/minesweeper/minesweeper.py:143-157 | No move, mine, safe cell or sentence yet. |
| `Minesweeper.MinesweeperAI.MarkMine` | week-1/minesweeper/minesweeper.py:159-166 | `mines` gains the cell and every sentence is `MineMarked`. The cell is then in no sentence. The other fields are unchanged. |
| `Minesweeper.MinesweeperAI.MarkSafe` | week-1/minesweeper/minesweeper.py:168-175 | `safes` gains the cell and every sentence is `SafeMarked`. The cell is then in no sentence. The other fields are unchanged. |
| `Minesweeper.MinesweeperAI.GetNeighbors` | week-1/minesweeper/minesweeper.py:177-195 | Exactly the in-board cells around `cell`: at most 8, on the board, never `cell`. |
| `Minesweeper.MinesweeperAI.RemoveEmptySentences` | week-1/minesweeper/minesweeper.py:197-203 | The knowledge becomes the sentences with cells, in their order. Nothing else changes. |
| `Minesweeper.MinesweeperAI.InferNewKnowledge` | week-1/minesweeper/minesweeper.py:264-282 | The knowledge becomes `Inferred` of the old one, with the old list as a prefix. The sets of mines, safe cells and moves are unchanged. |
| `Minesweeper.MinesweeperAI.CollectInferences` | week-1/minesweeper/minesweeper.py:268-277 | The collected sentences are `Candidates` of the knowledge. |
| `Minesweeper.MinesweeperAI.InferencesFrom` | week-1/minesweeper/minesweeper.py:270-277 | The inner loop for one `sentence1` collects `RowCandidates`. |
| `Minesweeper.MinesweeperAI.AbsorbInferences` | week-1/minesweeper/minesweeper.py:279-282 | The appended list is `Absorb` of the knowledge and the collected sentences. |
| `Minesweeper.MinesweeperAI.MakeSafeMove` | week-1/minesweeper/minesweeper.py:284-298 | `None` exactly when every safe cell has been played. Otherwise the result is a safe cell not yet played. |
| `Minesweeper.MinesweeperAI.MakeRandomMove` | week-1/minesweeper/minesweeper.py:300-313 | `None` exactly when every board cell is played or a known mine. Otherwise the result is an in-board cell neither played nor a known mine. |
| `Minesweeper.MinesweeperAI.MarkSafes` | week-1/minesweeper/minesweeper.py:235-237 | Marking a set of really safe cells adds them to `safes`, removes them from every sentence (`Facts() == Reduced(old(Facts()), {}, cells)`), and keeps the knowledge sound. |
| `Minesweeper.MinesweeperAI.MarkMines` | week-1/minesweeper/minesweeper.py:238-240 | Marking a set of real mines adds them to `mines`, removes them from every sentence and lowers each count by the number removed (`Facts() == Reduced(old(Facts()), cells, {})`), and keeps the knowledge sound. |
| `Minesweeper.MinesweeperAI.MarkPlayed` | week-1/minesweeper/minesweeper.py:220-224 | `moves_made` and `safes` gain the cell, `mines` is unchanged, and the cell is removed from every sentence. |
| `Minesweeper.MinesweeperAI.AddConclusion` | week-1/minesweeper/minesweeper.py:234-242 | Count 0 adds all the sentence's cells to `safes` and removes them from every sentence. A count equal to the number of cells adds them to `mines` and reduces every sentence by them. Otherwise the sentence is appended. In every case the knowledge becomes `Concluded(old knowledge, conclusion)`, and it stays sound. |
| `Minesweeper.MinesweeperAI.LearnCount` | week-1/minesweeper/minesweeper.py:226-244 | With `c` the sentence of step 3 (the neighbours not known, the count less the known mines), `safes` or `mines` grow by `c.cells` or the sentence is kept, as in `AddConclusion`. The knowledge becomes `c` concluded and then the empty sentences dropped. It stays sound, tidy and free of empty sentences. |
| `Minesweeper.MinesweeperAI.Prune` | week-1/minesweeper/minesweeper.py:244 | The sentence list becomes `NonEmpty` of the old one, and the knowledge `Kept` of the old one. Nothing else changes and soundness is kept. |
| `Minesweeper.MinesweeperAI.InferUntilStable` | week-1/minesweeper/minesweeper.py:246-253 | The repeat-until-unchanged loop terminates. Every non-empty old sentence is kept. The final knowledge is closed under the subset rule (`Closed`), so one more round of inference would change nothing. Soundness is kept. |
| `Minesweeper.MinesweeperAI.MarkSettledCells` | week-1/minesweeper/minesweeper.py:255-262 | Every cell of a sentence with count 0 ends in `safes`, and every cell of a sentence whose count equals its size ends in `mines`. The knowledge becomes those sentences reduced by the final mines and safe cells, with the empty ones dropped. Soundness is kept. |
| `Minesweeper.MinesweeperAI.AddKnowledge` | week-1/minesweeper/minesweeper.py:205-262 | The cell is played and safe. The sentence of step 3 is the unknown neighbours with the count less the known mines, and it is true of the layout. Its cells are marked safe when its count is 0, and mines when the count equals its size. The knowledge after step 4, with the empty sentences dropped, is contained in the knowledge after step 5, which is closed under the subset rule. Every cell step 6 can settle from that knowledge is in `safes` or `mines`. The final knowledge is the step-5 knowledge reduced by those cells, with the empty sentences dropped. Knowledge stays true of the layout and tidy. |
| `Minesweeper.MinesweeperAI.LearnFrom` | week-1/minesweeper/minesweeper.py:220-244 | Steps 1 to 4: the played cell is safe, the sentence of step 3 is true and settled by step 4, and the knowledge is the played-on knowledge concluded with that sentence, with empty sentences dropped. |
| `Minesweeper.MinesweeperAI.Saturate` | week-1/minesweeper/minesweeper.py:246-262 | Steps 5 and 6: the old non-empty sentences are in the closed knowledge of step 5, the cells it settles are marked, and the final knowledge is that knowledge reduced by them, with empty sentences dropped. |
| `Minesweeper.MinesweeperAI.InferRound` | week-1/minesweeper/minesweeper.py:248-251 | One round: the knowledge becomes `Inferred` of the old and keeps every old sentence. It is unchanged exactly when the loop stops, and then it is `Closed`. Otherwise it gains a cell set on the board not seen before. |
| `Minesweeper.MinesweeperAI.SettleSentence` | week-1/minesweeper/minesweeper.py:256-260 | For one sentence: its known safe cells, then its known mines, are marked. Its original cells end in `safes` when its count was 0 and in `mines` when the count was its size. The knowledge stays the start reduced by the current marks. |
| `Minesweeper.MinesweeperAI.SettleSafes` | week-1/minesweeper/minesweeper.py:257-258 | The safe half of `SettleSentence`. |
| `Minesweeper.MinesweeperAI.SettleMines` | week-1/minesweeper/minesweeper.py:259-260 | The mine half of `SettleSentence`. |
| `TicTacToe.InitialState` | week-0/project-1-tictactoe/tictactoe.py:26-32 | A 3x3 board with every cell empty. |
| `TicTacToe.FullBoard` | week-0/project-1-tictactoe/tictactoe.py:43-60 | `actions` finds no cell exactly when the empty-cell count `player` uses is zero. |
| `TicTacToe.WinnerFromMeaning` | week-0/project-1-tictactoe/tictactoe.py:84-96 | The row/column loop reports only a player with three in a row. It reports some player whenever a row or column from index `i` on is full of one player, or a diagonal is. |
| `TicTacToe.Winner` | week-0/project-1-tictactoe/tictactoe.py:80-107 | A reported winner holds three in a row. |
| `TicTacToe.WinnerMeaning` | week-0/project-1-tictactoe/tictactoe.py:80-107 | A reported winner holds a row, column or diagonal. There is no winner exactly when neither player holds one. |
| `TicTacToe.Terminal` | week-0/project-1-tictactoe/tictactoe.py:110-115 | The game is over exactly when `actions` finds no empty cell or `winner` reports a winner. |
| `TicTacToe.TerminalMeaning` | week-0/project-1-tictactoe/tictactoe.py:110-115 | The game is over exactly when no cell is empty or someone has three in a row. |
| `TicTacToe.Utility` | week-0/project-1-tictactoe/tictactoe.py:118-125 | The utility lies in -1..1. It is 1 only when X holds a line and -1 only when O does. |
| `TicTacToe.UtilityMeaning` | week-0/project-1-tictactoe/tictactoe.py:118-125 | The utility lies in -1..1. It is 1 only when X holds a line, -1 only when O does, and 0 exactly when neither does. |
| `TicTacToe.Player` | week-0/project-1-tictactoe/tictactoe.py:35-46 | `None` exactly on a finished board. Otherwise X when the number of empty cells is odd, and O when it is even. |
| `TicTacToe.InitialPlayer` | week-0/project-1-tictactoe/tictactoe.py:26-46 | Every cell of the initial board is a legal move, and X moves first. |
| `TicTacToe.Result` | week-0/project-1-tictactoe/tictactoe.py:63-77 | "Invalid move" outside the board, and "Invalid action" on an occupied cell. Otherwise a new board equal to the old except at the cell, which gets `player(board)`. |
| `TicTacToe.Successor` | week-0/project-1-tictactoe/tictactoe.py:71-77 | A legal move on an unfinished board gives a board with one empty cell fewer. |
| `TicTacToe.ResultOfLegalMove` | week-0/project-1-tictactoe/tictactoe.py:63-77 | On an unfinished board, `result` of an empty cell succeeds with the successor board. |
| `TicTacToe.MoveOnFinishedBoard` | week-0/project-1-tictactoe/tictactoe.py:73-76 | On a won board, `result` writes `player(board)`, which is `None`, so the board is unchanged. |
| `TicTacToe.PlayersAlternate` | week-0/project-1-tictactoe/tictactoe.py:39-46 | After a move that does not end the game, the other player is to move. |
| `TicTacToe.Actions` | week-0/project-1-tictactoe/tictactoe.py:49-60 | The set of empty cells, or `None` when there is none. |
| `TicTacToe.MinPlayer` | week-0/project-1-tictactoe/tictactoe.py:128-143 | On a finished board, the utility. The result lies in -1..1. It is O's exact minimax value when that exceeds `alpha`. Otherwise it is a bound between that value and `alpha`. |
| `TicTacToe.MaxPlayer` | week-0/project-1-tictactoe/tictactoe.py:146-161 | On a finished board, the utility. The result lies in -1..1. It is X's exact minimax value when that is below `beta`. Otherwise it is a bound between `beta` and that value. |
| `TicTacToe.Minimax` | week-0/project-1-tictactoe/tictactoe.py:164-195 | `None` exactly on a finished board. Otherwise a legal move that reaches the minimax value of the board for the player to move. |
| `TicTacToe.BestMoveForX` | week-0/project-1-tictactoe/tictactoe.py:177-186 | X's choice is a legal move whose successor has the board's maximum value. |
| `TicTacToe.BestMoveForO` | week-0/project-1-tictactoe/tictactoe.py:188-195 | O's choice is a legal move whose successor has the board's minimum value. |

## Where the code and its own comments and docstrings differ (the model follows the code)

- **Inference in `backtrack` narrows nothing new.** The `ac3` call after each choice (generate.py:266-269) does not narrow the chosen slot's domain to the chosen word. `solve` has already made every arc consistent, and `ac3` changes nothing on arc-consistent domains (`AC3`, `Infer`). So after a successful top-level `ac3`, the domains never change during the search (`Backtrack`, last ensures). The comment on the call, `# use AC3 inference optimization` (generate.py:266), presents it as inference that prunes the search.
- **`ac3` can return `True` with an empty domain.** Its docstring (generate.py:139-140) promises `True` only when no domain is empty. The code (generate.py:146-156) only looks at domains that a revision emptied. A slot that crosses no other slot is in no arc, so it is never revised. If its domain is empty, which happens when the pool has no word of its length, `ac3` still returns `True`. `Crossword.UncrossedSlotUnseen` proves that emptying such a domain does not change whether every arc holds. By the last ensures of `AC3`, the call then returns `True` and changes nothing.
- **`solve` ignores the result of its `ac3` call** (generate.py:93) and searches anyway. It still fails when a domain is empty: the emptied slot has the fewest words, so it is selected first and has no word to try. `Solve` proves there is no answer exactly when no solution exists.
- **Dead updates in `min_player` and `max_player`.** The updates `alpha = min(alpha, min_point)` and `beta = max(beta, max_point)` (tictactoe.py:141, 159) run only when `min_point > alpha` (resp. `max_point < beta`), so they never change the bound. The model keeps them.
- **`result` on a finished board writes `None`.** It writes `player(board)`, which is `None` there, into the cell, so the "move" leaves the board unchanged (`MoveOnFinishedBoard`).

## Left out

- `print`, `save` and `main` of generate.py are left out: they only draw, write files and parse arguments. The parser in `crossword.py` is not part of this model, and the puzzle is an abstract input.
- `Minesweeper.__init__` places mines with `random.randrange`. The constructor takes the layout as a parameter instead. `Minesweeper.print` and `Sentence.__str__` only produce text.
- `random.choice` in `make_safe_move` and `make_random_move` is a nondeterministic pick from the candidate set.
- Python's set and dict iteration order is left open. It affects ties in `select_unassigned_variable`, the order of equally rated words in `order_domain_values`, the order of `ac3`'s initial worklist, and ties in `minimax`. Every contract holds for every order.
- The in-place mutation of Python's `assignment` dictionary is not modelled as aliasing. The model passes the assignment down the recursion as a value. On every failing path, Python deletes the key it added, so the caller's dictionary is as before (generate.py:259, 277). On success, the filled dictionary is itself the result that `backtrack` and `solve` return (generate.py:272-274, 95), and the model returns it as a value.
- Errors Python raises on inputs its callers never pass are made preconditions:
  - `revise` needs `(x, y)` in the overlap table (a `KeyError` otherwise) and node-consistent words (an `IndexError` otherwise). The same holds for the indexing in `order_domain_values`.
  - `letter_grid` needs every assigned word to fit in the grid: Python wraps negative indices and raises on large ones.
  - `nearby_mines`, `is_mine` and the AI need a well-formed board.
- `Minesweeper.MinesweeperAI.AddKnowledge` assumes the board's count is truthful and the knowledge is sound. Its `while True` loop terminates only on truthful knowledge, which a real game always supplies; with contradictory counts the model makes no claim.
- `Generate.CrosswordCreator.AC3` states that a `False` result leaves some domain empty. It does not name which one: the code's empty domain is that of the last popped arc's first slot.
- `Generate.CrosswordCreator.Backtrack` promises a consistent result only when the given assignment is consistent; on an inconsistent complete assignment the code returns it unchanged, as the model does.
