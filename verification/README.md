# E6-SUDOKU core in Dafny

This project models the puzzle logic of E6-SUDOKU and proves properties of that model. E6-SUDOKU is a collection of Sudoku generators, validators and two genetic solvers. The model covers six parts:

- **The Python engine**, `basura/algoritmo_casi_completo.py`, in modules `Board`, `ClassicGenerator`, `Session`, `Deduction` and `Validator`. It covers:
  - the type and difficulty tables;
  - the block regions;
  - the randomized backtracking generator with its `_is_valid` check;
  - carving the playable grid;
  - moves over the user-input overlay, and the completion check;
  - naked and hidden singles;
  - the duplicate validator.

  Cells are `Option<char>`; `None` is an empty cell.
- **The JavaScript generator**, `sudoku-generator.js`, in module `PuzzleGenerator`. It covers:
  - the complete-grid search;
  - the placement check;
  - the capped solution counter and the uniqueness test;
  - cell removal and puzzle creation.
- **The JavaScript engine checks**, `sudoku-engine.js`, in module `EngineChecks`: `isValidPuzzle` and `isPerfectSolution`.
- **The knowledge base**, `knowledge-base.js`, in module `KnowledgeBase`: the killer and X-Sudoku rules and the `validateSolution` dispatch.
- **The genetic solver**, `genetic-solver.js`, in module `GeneticSolver`. It covers:
  - the empty-cell list;
  - box-wise initialization;
  - the fitness and the perfect-solution test;
  - crossover, mutation and one evolution step;
  - the per-generation best-tracking rule.
- **The Cross Sudoku genetic algorithm**, `prueba_AlgoritmoGenetico_CrossSudoku.py`, in modules `CrossSudoku` and `CrossGA`:
  - `CrossSudoku` holds the five-grid assembly, the grid, link and total fitness, and the transcribed center grid.
  - `CrossGA` holds initialization, tournament selection, crossover, mutation, breeding and the `ejecutar` loop.

  The file does not parse as written, so these modules follow the class it evidently intends. The `def` at line 21 is indented inside `__init__`, but its body is indented less, which Python rejects with an IndentationError. The methods from line 95 on sit at module level with a `self` parameter. The model takes all of them as methods of `CrossSudokuGA`.

Shared helpers:

| module | contents |
|---|---|
| `Util` | `Option`; `Distinct`; Fisher-Yates `Shuffle`; `SelectRandom`; row-major scans |
| `Arith` | division and modulo facts |
| `Grids` | integer grids, columns, 3x3 boxes and unit predicates |
| `BoxOps` | the missing numbers of a box; filling a box's zeros; swapping two open cells of a box |

Every random draw comes from an explicit stream of natural numbers, `rolls: seq<nat>`.

- A draw in `0..n-1` is the next roll modulo `n`. An exhausted stream reads as 0.
- `random.shuffle` and the JavaScript `shuffleArray` are the same top-down Fisher-Yates loop. Both are `Util.Shuffle`.
- The proofs hold for every stream, so they say nothing about probabilities.

Both backtracking searches, the Python `_solve_grid` and the JavaScript `solveComplete`, are recursive functions over the grid. They return the grid with a success flag and the unread rolls. Their termination measure is the number of empty cells.

The JavaScript `countSolutions` is related to an uncapped list of all completions in search order (`PuzzleGenerator.Solutions`). `createPuzzle` is proved to return a puzzle whose only completion is the generated grid.

The center grid of the Cross Sudoku script repeats 8 in its first row. Because of this, no assembly built on those givens reaches fitness 0. So once the class is re-indented as intended, the `ejecutar` loop always runs every generation it is given. See `CrossSudoku.ImageCenterUnsolvable` and `CrossGA.ImageRunsAllGenerations`.

## Model

| member | source | states |
|---|---|---|
| Board.TypeSpec | basura/algoritmo_casi_completo.py:7-12 | Every registered type has a size that is the square of its block size, with block size at least 2. |
| Board.TypeSpecWellFormed | basura/algoritmo_casi_completo.py:7-12 | Every registered type gives a well-formed board whose number of regions equals its size. |
| Board.Region | basura/algoritmo_casi_completo.py:85-88 | A region is the b*b cells of its square in row-major order; cell t is (i + t/b, j + t%b). |
| Board.RegionMember | basura/algoritmo_casi_completo.py:85-88 | A cell is listed in a region exactly when it lies inside the region's square. |
| Board.Regions | basura/algoritmo_casi_completo.py:80-90 | There are (N/b)^2 regions and every listed cell lies on the board. |
| Board.RegionsAt | basura/algoritmo_casi_completo.py:83-89 | The unfolding of the `Regions` comprehension at one index, not a separate property: region k is the square at block row k/(N/b) and block column k%(N/b). The partition proofs use it. |
| Board.SquareRegions | basura/algoritmo_casi_completo.py:80-90 | When b*b = N there are exactly N regions. |
| Board.RegionsPartition | basura/algoritmo_casi_completo.py:80-90 | Every board cell lies in exactly one region: the one with its block index. |
| Board.RegionInBlock | basura/algoritmo_casi_completo.py:80-90 | A cell is in region k if and only if k is the index of the cell's block. |
| Board.SameRegionIndex | basura/algoritmo_casi_completo.py:80-90 | Two cells have the same region index if and only if they share a block. |
| Board.Put | basura/algoritmo_casi_completo.py:119 | Writing a cell changes that cell and nothing else. |
| Board.PutRestore | basura/algoritmo_casi_completo.py:179-182 | Writing a symbol and then writing back the old value restores the board, which is the backtracking undo. |
| Board.CountEmptyPut | basura/algoritmo_casi_completo.py:118-120 | Writing one cell changes the empty count only by that cell's change. |
| Board.CountEmptyBound | basura/algoritmo_casi_completo.py:66 | An N x N board has at most N*N empty cells, and a full board has none. |
| ClassicGenerator.FirstContaining | basura/algoritmo_casi_completo.py:196-201 | The region scan returns the first region that lists the cell, or reports that none does. |
| ClassicGenerator.FirstContainingIsBlock | basura/algoritmo_casi_completo.py:196-201 | For a board cell, the first region the scan finds is the cell's own block. |
| ClassicGenerator.IsValidIff | basura/algoritmo_casi_completo.py:186-203 | `_is_valid` holds if and only if the symbol is absent from the row, the column and the block of the cell. |
| ClassicGenerator.RegionFree | basura/algoritmo_casi_completo.py:196-201 | The found region is free of the symbol exactly when the cell's block is. |
| ClassicGenerator.PlaceKeepsConsistent | basura/algoritmo_casi_completo.py:178-179 | Placing a symbol that passes `_is_valid` keeps a consistent board consistent. |
| ClassicGenerator.FirstEmpty | basura/algoritmo_casi_completo.py:174-176 | The search's next cell is an empty board cell; when there is none, the board is full. |
| ClassicGenerator.Solve | basura/algoritmo_casi_completo.py:173-184 | On success the board is full; on failure it equals the board at entry. |
| ClassicGenerator.TryFrom | basura/algoritmo_casi_completo.py:177-183 | The candidate loop either ends with a full board or restores the cell, giving back the entry board. |
| ClassicGenerator.SolveKeeps | basura/algoritmo_casi_completo.py:173-184 | The search never changes a cell that was filled at entry. |
| ClassicGenerator.SolveConsistent | basura/algoritmo_casi_completo.py:173-184 | From a consistent board the search ends on a consistent board: no symbol repeats in a row, column or region. |
| ClassicGenerator.SolveInAlphabet | basura/algoritmo_casi_completo.py:177 | The search writes only symbols of the alphabet. |
| ClassicGenerator.EmptyBoard | basura/algoritmo_casi_completo.py:169 | The starting grid is N x N with every cell empty. |
| ClassicGenerator.Generate | basura/algoritmo_casi_completo.py:168-171 | `generate` returns either a full consistent board over the alphabet or the untouched empty board. |
| ClassicGenerator.SmallAlphabetFails | basura/algoritmo_casi_completo.py:173-184 | With fewer symbols than the board size, the search cannot succeed. |
| ClassicGenerator.FullRowNeedsSymbols | basura/algoritmo_casi_completo.py:186-203 | A full consistent board over the alphabet needs at least N distinct symbols. |
| Session.CellsToRemove | basura/algoritmo_casi_completo.py:32-38 | The difficulty table clears between 30 and 60 cells. |
| Session.Alphabet | basura/algoritmo_casi_completo.py:14-16 | The numbers and letters symbol sets each have 9 distinct symbols. |
| Session.CarveFrom | basura/algoritmo_casi_completo.py:115-122 | The carving loop reports finished exactly when it cleared the target count. The empty count grows by the number cleared. Every cell stays as it was or becomes empty. Only already-empty positions are recorded as fixed. |
| Session.CreatePlayable | basura/algoritmo_casi_completo.py:108-122 | The playable grid agrees with the solution or is empty at every cell, and every fixed position is empty. |
| Session.CarveCount | basura/algoritmo_casi_completo.py:108-122 | A finished carving leaves exactly the target number of empty cells, and a target above N*N never finishes. |
| Session.CarveEmptyStalls | basura/algoritmo_casi_completo.py:115-122 | Carving an empty solution, as left by a failed generator, never finishes. |
| Session.CarveFrom0 | basura/algoritmo_casi_completo.py:115-122 | Carving cannot clear more cells than the board has filled. |
| Session.NewGame | basura/algoritmo_casi_completo.py:92-95 | Every cell of the playable grid is the generated solution's value or empty, and the fixed positions are empty. A carving that finishes was cut from a full, consistent solution over the alphabet and has exactly the difficulty's number of empty cells. |
| Session.StartGame | basura/algoritmo_casi_completo.py:92-95 | `_initialize_game` yields a game exactly when the carving finishes. The game stores the generated, solved board as its solution, and has the difficulty's number of blanks, an empty overlay, no errors and no history. |
| Session.FinishedFromSolved | basura/algoritmo_casi_completo.py:92-95 | Carving a generated board finishes only if generation succeeded, and then leaves exactly the target number of empty cells. |
| Session.OnlyClassicStarts | basura/algoritmo_casi_completo.py:7-12 | Of the registered types, only the classic one can finish carving: subdoku is too small, and super and zilla are wider than the 9-symbol alphabets. |
| Session.SmallBoardStalls | basura/algoritmo_casi_completo.py:108-122 | A board with fewer cells than the difficulty's count never finishes carving. |
| Session.SmallAlphabetStalls | basura/algoritmo_casi_completo.py:168-184 | A board wider than the alphabet never finishes carving, because generation fails. |
| Session.View | basura/algoritmo_casi_completo.py:148 | The player's view shows the overlay value where there is one and the base grid elsewhere. |
| Session.ViewBoard | basura/algoritmo_casi_completo.py:148 | The view board shows every cell as `View` does. |
| Session.MakeMove | basura/algoritmo_casi_completo.py:124-138 | A fixed cell is refused first, then a value outside the alphabet, and neither refusal changes the game. Otherwise the overlay and history record the move. The move is accepted exactly when the value is the solution's, and an error is counted otherwise. |
| Session.MoveView | basura/algoritmo_casi_completo.py:124-138 | After a recorded move the view changes at the moved cell only. |
| Session.CheckSolution | basura/algoritmo_casi_completo.py:145-151 | `check_solution` is true exactly when the view equals the solution at every cell. |
| Session.SolvedIff | basura/algoritmo_casi_completo.py:145-151 | For a carved grid: solved exactly when every overlay entry matches the solution and every empty base cell has an overlay entry. |
| Session.AdmitsNonSymbols | basura/algoritmo_casi_completo.py:128 | The substring test admits "" and "12", which are not symbols. |
| Session.AdmittedAgrees | basura/algoritmo_casi_completo.py:128 | On one-character values, the substring test and the symbol test agree. |
| Deduction.Seen | basura/algoritmo_casi_completo.py:266-280 | The set of symbols collected is exactly the set of symbols the listed cells hold. |
| Deduction.ImpossibleIff | basura/algoritmo_casi_completo.py:265-283 | A symbol is ruled out for a cell exactly when `_is_valid` rejects it on the player's view. |
| Deduction.Candidates | basura/algoritmo_casi_completo.py:283 | The candidates are the alphabet's symbols that are not ruled out. |
| Deduction.Keep | basura/algoritmo_casi_completo.py:283 | Filtering keeps exactly the symbols not excluded, and keeps them distinct. |
| Deduction.CandidatesIff | basura/algoritmo_casi_completo.py:265-288 | A symbol is a candidate exactly when it is in the alphabet and absent from the cell's row, column and block in the view. |
| Deduction.NakedSingle | basura/algoritmo_casi_completo.py:243-250 | Returns the first row-major open cell that has exactly one candidate, together with that candidate. Returns None when no such cell exists. |
| Deduction.NakedSingleForced | basura/algoritmo_casi_completo.py:243-250 | The reported symbol is the only symbol of the alphabet that fits the cell. |
| Deduction.Unit | basura/algoritmo_casi_completo.py:290-297 | Row, column and region cell lists lie on the board. |
| Deduction.Hosts | basura/algoritmo_casi_completo.py:257-260 | The cells kept are exactly the listed open cells where the symbol is a candidate. |
| Deduction.HiddenSingle | basura/algoritmo_casi_completo.py:252-263 | A reported cell is open and has the symbol as a candidate, and is the only cell of some unit that can take it. None means no unit has a symbol with exactly one host. |
| Deduction.HiddenSingleForced | basura/algoritmo_casi_completo.py:252-263 | The reported symbol fits the cell, and every other open cell of that unit rejects it. |
| Validator.ValidateFrom | basura/algoritmo_casi_completo.py:380-388 | The loop succeeds exactly when no view value repeats among the cells and none was already seen. |
| Validator.ValidateRegion | basura/algoritmo_casi_completo.py:380-388 | `_validate_region` is true exactly when no non-empty view value repeats among the cells. |
| Validator.AllFlags | basura/algoritmo_casi_completo.py:364-376 | The units checked are exactly the N rows, N columns and all regions: rows 0..N-1 first, then columns 0..N-1, then regions in index order. |
| Validator.Flagged | basura/algoritmo_casi_completo.py:360-378 | A unit is reported exactly when it fails `_validate_region`. The report is empty exactly when every unit passes. |
| Validator.FlaggedOrder | basura/algoritmo_casi_completo.py:360-378 | The reported units keep the list's order. They are the list's entries at strictly increasing positions, each of them fails, and every entry left out passes. |
| Validator.ValidateGrid | basura/algoritmo_casi_completo.py:360-378 | `validate_grid` reports exactly the units with a repeated view value, and reports nothing exactly when every unit is repeat-free. |
| Validator.ValidateGridClean | basura/algoritmo_casi_completo.py:360-378 | `validate_grid` returns no errors exactly when the view is consistent. |
| Validator.SolvedGameValidates | basura/algoritmo_casi_completo.py:360-378 | A game that passes `check_solution` against a consistent solution validates clean. |
| PuzzleGenerator.IsValidPlacementIff | sudoku-generator.js:104-123 | The placement check holds exactly when the number is absent from the row, the column and the sub-grid of the cell. |
| PuzzleGenerator.PlaceKeepsUnits | sudoku-generator.js:21-22 | Placing a number that passes the check keeps every unit repeat-free. |
| PuzzleGenerator.FirstZero | sudoku-generator.js:15-17 | The search's next cell holds 0; when there is none, no cell is 0. |
| PuzzleGenerator.ShuffledNumbers | sudoku-generator.js:18 | The shuffled candidate list holds each of 1..size exactly once. |
| PuzzleGenerator.SolveComplete | sudoku-generator.js:14-36 | On success no cell is 0; on failure every cell it set is back to 0 and the grid is the entry grid. |
| PuzzleGenerator.SolveCompleteNoRepeat | sudoku-generator.js:14-36 | From a repeat-free grid the search leaves every row, column and sub-grid repeat-free. |
| PuzzleGenerator.SolveCompleteKeeps | sudoku-generator.js:14-36 | The search never changes a nonzero cell. |
| PuzzleGenerator.SolveCompleteInRange | sudoku-generator.js:18-22 | The search writes only numbers in 1..size. |
| PuzzleGenerator.ZeroGrid | sudoku-generator.js:9 | The reset grid is size x size and all zero. |
| PuzzleGenerator.GenerateComplete | sudoku-generator.js:8-12 | A successful result is a full, repeat-free grid over 1..size; on failure the grid is all zeros. |
| PuzzleGenerator.CountSolutions | sudoku-generator.js:83-102 | The count never decreases, and a count of at most 1 leaves the grid unchanged. |
| PuzzleGenerator.CountSaturates | sudoku-generator.js:83-102 | `countSolutions(g, c)` is c plus the number of completions while that total is at most 1, and some value above 1 otherwise. |
| PuzzleGenerator.SolutionsExact | sudoku-generator.js:83-102 | The listed completions are exactly the full repeat-free grids over 1..size that extend g. |
| PuzzleGenerator.SolutionsDistinct | sudoku-generator.js:83-102 | The search lists no completion twice. |
| PuzzleGenerator.FullSolvesItself | sudoku-generator.js:101 | A full repeat-free grid is its own and only completion, so it counts once. |
| PuzzleGenerator.HasUniqueSolutionIff | sudoku-generator.js:78-81 | `hasUniqueSolution` holds exactly when the grid has one and only one completion. |
| PuzzleGenerator.RemoveFrom | sudoku-generator.js:64-75 | The removal loop only clears cells. It counts at most `count` removals, and after any counted removal the puzzle has a unique solution. Cells not visited are unchanged. |
| PuzzleGenerator.RemoveFromBlanksAtMost | sudoku-generator.js:64-75 | Each counted removal blanks at most one cell. |
| PuzzleGenerator.RemoveFromBlanksExactly | sudoku-generator.js:64-75 | Over distinct filled cells, each counted removal blanks exactly one cell. |
| PuzzleGenerator.ShuffledCells | sudoku-generator.js:54-61 | The shuffled cell list holds every position of the grid exactly once. |
| PuzzleGenerator.RemoveCells | sudoku-generator.js:53-76 | `removeCells` only clears cells and clears at most `count` of them. Each accepted removal leaves a unique puzzle. A full grid ends with exactly as many zeros as removals. |
| PuzzleGenerator.CellsToRemove | sudoku-generator.js:42-47 | The four difficulties ask for between 35 and 58 removals, and any other name falls back to 45. A name inherited from `Object.prototype`, such as "constructor", gives no number (`None`), exactly when the name is inherited. |
| PuzzleGenerator.RemoveFromBeyondCap | sudoku-generator.js:64-65 | A count the loop cannot reach gives the same run as any larger count. So a non-number count, whose NaN comparison never breaks the loop, behaves like no cap. |
| PuzzleGenerator.RemoveCellsUncapped | sudoku-generator.js:53-76 | `removeCells` with a count of size*size gives the same result as with any larger count. This is the run an inherited difficulty name produces. |
| PuzzleGenerator.CreatePuzzle | sudoku-generator.js:38-51 | The puzzle is cleared from the generated grid. When generation succeeds, its only completion is the generated grid. A difficulty with a numeric count caps the zeros at that count. An inherited name leaves removal uncapped. |
| PuzzleGenerator.PuzzleSolution | sudoku-generator.js:38-51 | A unique puzzle cleared from a solved grid has that grid as its only completion. |
| EngineChecks.IsValidPuzzleIff | sudoku-engine.js:48-85 | `isValidPuzzle` holds exactly when every entry is in 0..9 and no nonzero value repeats in a row, column or 3x3 box, even though the box loop skips cells sharing a row or column. |
| EngineChecks.ScanUnitIff | sudoku-engine.js:92-113 | A set-based scan of a unit passes exactly when no entry is 0, none was seen before, and the entries are distinct. |
| EngineChecks.IsPerfectSolutionIff | sudoku-engine.js:88-120 | `isPerfectSolution` holds exactly when no cell is 0 and every row, column and box is repeat-free. |
| EngineChecks.PerfectIsSolved | sudoku-engine.js:88-120 | A perfect solution has no zero and no repeated value in any unit. |
| EngineChecks.SolvedIsPerfect | sudoku-engine.js:88-120 | A solved grid passes `isPerfectSolution`. |
| KnowledgeBase.CageValues | knowledge-base.js:21-22 | A cage's values are read from its cells in order. |
| KnowledgeBase.CageLoopIff | knowledge-base.js:21-28 | A cage's loop gets through exactly when no nonzero value repeats or was already seen. It then yields the sum of the nonzero values. |
| KnowledgeBase.KillerRulesIff | knowledge-base.js:16-33 | `killerRules` holds exactly when every cage has no repeated nonzero value and a nonzero sum of at most the cage's target. |
| KnowledgeBase.MainDiagonal | knowledge-base.js:41-44 | The main diagonal is the cells (i, i) from top to bottom. |
| KnowledgeBase.AntiDiagonal | knowledge-base.js:46-49 | The anti-diagonal is the cells (i, size-1-i) from top to bottom. |
| KnowledgeBase.DiagonalLoopIff | knowledge-base.js:40-50 | The diagonal loop gets through exactly when neither diagonal meets a nonzero value already seen. |
| KnowledgeBase.XSudokuRulesIff | knowledge-base.js:35-53 | `xSudokuRules` holds exactly when the nonzero values on each diagonal are distinct. |
| KnowledgeBase.ParseGameType | knowledge-base.js:3-9 | The registered game types are exactly the five keys of the rule table. |
| KnowledgeBase.ValidateSolution | knowledge-base.js:3-68 | An unregistered game type is rejected, and the classic, samurai and jigsaw rules always pass. |
| KnowledgeBase.ValidateSolutionMeaning | knowledge-base.js:65-68 | For "killer" and "x-sudoku", the dispatch returns the rule's own meaning. |
| GeneticSolver.EmptyRows | genetic-solver.js:21-31 | The positions listed from row i on are exactly the zero cells, in row-major order. |
| GeneticSolver.FindEmptyCells | genetic-solver.js:21-31 | `findEmptyCells` lists exactly the zero cells, once each, in row-major order. |
| GeneticSolver.BoxStarts | genetic-solver.js:47-48 | The nine box corners are visited once each. |
| GeneticSolver.FillAllGivens | genetic-solver.js:47-51 | Filling the boxes keeps every nonzero cell. |
| GeneticSolver.FillAllBox | genetic-solver.js:47-51 | Each box ends as its own fill left it: filling later boxes does not disturb earlier ones. |
| GeneticSolver.CreateValidIndividual | genetic-solver.js:43-54 | The individual keeps the givens and fills every empty cell from 1..9. Every box whose givens are distinct becomes a permutation of 1..9. |
| GeneticSolver.InitializePopulation | genetic-solver.js:34-40 | The population has one valid individual per stream. |
| GeneticSolver.Penalty | genetic-solver.js:93-107 | The duplicate penalty is nonnegative, and it is 0 exactly when every line is repeat-free. |
| GeneticSolver.Fitness | genetic-solver.js:89-114 | The fitness is at most 1050. |
| GeneticSolver.FitnessPeak | genetic-solver.js:89-114 | The fitness is 1050 exactly when every row and column is repeat-free. |
| GeneticSolver.AllLinesFull | genetic-solver.js:283-295 | The early-exit loop passes exactly when every line has `size` distinct values. |
| GeneticSolver.PerfectIff | genetic-solver.js:281-298 | `isPerfectSolution` holds exactly when every row and column is repeat-free, that is, exactly when the fitness is 1050. |
| GeneticSolver.CrossoverPoint | genetic-solver.js:136 | The crossover point is below the number of empty cells, or 0 when there are none. |
| GeneticSolver.CrossoverKeepsGivens | genetic-solver.js:132-148 | The child equals the puzzle at every given. |
| GeneticSolver.CrossoverTakes | genetic-solver.js:138-145 | The k-th empty cell of the child comes from the first parent when k is below the point, and from the second otherwise. |
| GeneticSolver.CrossoverFromParents | genetic-solver.js:132-148 | When the first parent keeps the givens, every cell of the child comes from one of the two parents. |
| GeneticSolver.Mutate | genetic-solver.js:151-178 | A mutation keeps the givens, changes nothing outside the chosen box, and changes nothing when it does not fire. |
| GeneticSolver.MutateKeepsBoxes | genetic-solver.js:151-178 | A mutation keeps the multiset of values of every box. |
| GeneticSolver.MutateSwaps | genetic-solver.js:158-174 | When it fires on a box with at least two open cells, the mutation swaps two distinct open cells of that box. Otherwise it changes nothing. |
| GeneticSolver.Children | genetic-solver.js:194-195 | Every child of a crossover followed by a mutation keeps the givens. |
| GeneticSolver.Breed | genetic-solver.js:190-198 | The fill loop keeps the members it starts with and appends children in order up to the population size. |
| GeneticSolver.Evolve | genetic-solver.js:181-201 | The new population has exactly `populationSize` members, or 1 when that size is 0 and an elite exists. The elite comes first when there is one, followed by the children in order. |
| GeneticSolver.EvolveKeepsGivens | genetic-solver.js:181-201 | Every member after the elite keeps the givens. |
| GeneticSolver.ScanPerfect | genetic-solver.js:225-241 | The generation scan stops exactly when some individual is perfect, taking the first such one with the perfect score. |
| GeneticSolver.ScanBest | genetic-solver.js:225-241 | Without a perfect individual, the scan takes the first individual of highest fitness. |
| GeneticSolver.UpdateBest | genetic-solver.js:244-247 | The best-so-far record is either kept or replaced by the generation's best, and its fitness never drops. |
| GeneticSolver.BestNeverDecreases | genetic-solver.js:244-247 | Over any run of generations, the recorded fitness never decreases. |
| GeneticSolver.PerfectNotRecorded | genetic-solver.js:236-247 | As written, a perfect individual reported as 1000 does not replace a record of 1000 or more. |
| GeneticSolver.PerfectRecorded | genetic-solver.js:236-247 | Reporting a perfect individual with its true fitness of 1050 makes the record a perfect solution. |
| Util.Shuffle | genetic-solver.js:306-311 | A shuffle is a permutation of its input. |
| Util.ShuffleMembers | sudoku-generator.js:129-135 | A shuffle keeps the same elements, and keeps or breaks distinctness exactly as the input does. |
| Util.SelectRandom | genetic-solver.js:313-317 | Selection returns `count` elements of the input, or all of them when there are fewer, and keeps them distinct. |
| BoxOps.Missing | prueba_AlgoritmoGenetico_CrossSudoku.py:194-198 | The missing numbers are exactly those of 1..9 absent from the box, each once. |
| BoxOps.MissingComplements | genetic-solver.js:72-78 | For a box with distinct givens, the missing numbers are as many as its empty cells, and together with the givens they make up 1..9. |
| BoxOps.FillBoxFillsMissing | genetic-solver.js:57-86 | The box's empty cells get distinct numbers from 1..9 that the box lacked. |
| BoxOps.FillBoxFrame | genetic-solver.js:57-86 | Filling a box keeps the nonzero cells and every cell outside the box. |
| BoxOps.FillBoxPermutation | genetic-solver.js:57-86 | A box whose givens are distinct becomes a permutation of 1..9. |
| BoxOps.SwapChoice | prueba_AlgoritmoGenetico_CrossSudoku.py:240-248 | Two distinct open cells of the box are chosen exactly when it has at least two. |
| BoxOps.SwapInBoxSwaps | prueba_AlgoritmoGenetico_CrossSudoku.py:240-249 | Swapping inside a box keeps its multiset of values. It swaps two open cells when there are two, and otherwise changes nothing. |
| CrossSudoku.Boxes | prueba_AlgoritmoGenetico_CrossSudoku.py:124-127 | The nine boxes are read in the fitness's order. |
| CrossSudoku.Changes | prueba_AlgoritmoGenetico_CrossSudoku.py:130 | The number of changed fixed cells is 0 exactly when every given is kept. |
| CrossSudoku.GridScoreZero | prueba_AlgoritmoGenetico_CrossSudoku.py:109-133 | A grid scores at most 0, and exactly 0 when every row, column and box has 9 distinct values and no fixed cell deviates. |
| CrossSudoku.PenaltiesZero | prueba_AlgoritmoGenetico_CrossSudoku.py:114-127 | Each duplicate penalty is nonnegative, and 0 exactly when its units are repeat-free. |
| CrossSudoku.Mismatches | prueba_AlgoritmoGenetico_CrossSudoku.py:140-157 | The number of differing facing pairs is 0 exactly when the two lines agree. |
| CrossSudoku.LinkScoreRange | prueba_AlgoritmoGenetico_CrossSudoku.py:135-159 | The link score lies in -180..0, and it is 0 exactly when all 36 facing pairs agree. |
| CrossSudoku.FitnessZero | prueba_AlgoritmoGenetico_CrossSudoku.py:95-107 | The total fitness is at most 0, and it is 0 exactly when all five grids are solved with their givens kept and all links agree. |
| CrossSudoku.ImageCenterRepeats | prueba_AlgoritmoGenetico_CrossSudoku.py:25-35 | The transcribed center grid cannot be solved with its givens kept: 8 repeats in its first row. |
| CrossSudoku.ImageCenterUnsolvable | prueba_AlgoritmoGenetico_CrossSudoku.py:25-35 | Every assembly on the transcribed givens has negative fitness. |
| CrossGA.InitIndividual | prueba_AlgoritmoGenetico_CrossSudoku.py:165-188 | A fresh individual copies the center and fills each other grid box by box, keeping its givens. |
| CrossGA.InitializedKeeps | prueba_AlgoritmoGenetico_CrossSudoku.py:165-188 | A fresh individual carries every given of all five grids. |
| CrossGA.InitBoxes | prueba_AlgoritmoGenetico_CrossSudoku.py:173-186 | In every outer grid, each box's zeros are filled with that box's missing numbers. |
| CrossGA.InitializePopulation | prueba_AlgoritmoGenetico_CrossSudoku.py:160-192 | The population has one individual per stream. Each is initialized from the givens and keeps them. |
| CrossGA.FirstBest | prueba_AlgoritmoGenetico_CrossSudoku.py:208 | `max` with a key returns the first candidate of greatest fitness. |
| CrossGA.TournamentPicks | prueba_AlgoritmoGenetico_CrossSudoku.py:206 | The tournament samples three distinct individuals of the population. |
| CrossGA.Tournament | prueba_AlgoritmoGenetico_CrossSudoku.py:200-211 | With at least three individuals, the winner is one of the sampled three with fitness at least that of each. With fewer, sampling fails. |
| CrossGA.ResetFixedCells | prueba_AlgoritmoGenetico_CrossSudoku.py:225-226 | Resetting keeps the givens and the open cells. A grid that already keeps its givens is unchanged. |
| CrossGA.Crossover | prueba_AlgoritmoGenetico_CrossSudoku.py:213-228 | The child keeps every given of all five grids. |
| CrossGA.CrossoverTakes | prueba_AlgoritmoGenetico_CrossSudoku.py:218-226 | Each grid of the child is the chosen parent's grid on open cells, and the parent's whole grid when both parents keep the givens. |
| CrossGA.Mutation | prueba_AlgoritmoGenetico_CrossSudoku.py:229-251 | A mutation never touches the center and keeps the givens. |
| CrossGA.MutationKeepsBoxes | prueba_AlgoritmoGenetico_CrossSudoku.py:229-251 | A mutation keeps every box's multiset of values in every grid, and leaves a grid whose coin did not fire unchanged. |
| CrossGA.MakeChild | prueba_AlgoritmoGenetico_CrossSudoku.py:284-290 | One breeding fails exactly when the population has fewer than three individuals. Otherwise the child keeps the givens. |
| CrossGA.MakeChildParents | prueba_AlgoritmoGenetico_CrossSudoku.py:284-290 | The child is the mutation of the crossover of two tournament winners. |
| CrossGA.Offspring | prueba_AlgoritmoGenetico_CrossSudoku.py:282-292 | Breeding `need` children fails exactly when some are needed and sampling fails. Otherwise it gives `need` children that keep the givens. |
| CrossGA.NextPopulation | prueba_AlgoritmoGenetico_CrossSudoku.py:277-294 | The next population starts with the elite and has the population size, or 1 when that size is 0. It keeps the givens when the elite does. |
| CrossGA.Scores | prueba_AlgoritmoGenetico_CrossSudoku.py:261 | Each score is the fitness of its individual. |
| CrossGA.BestIndex | prueba_AlgoritmoGenetico_CrossSudoku.py:264-267 | `index(max(...))` is the first position of the maximal fitness. |
| CrossGA.Observe | prueba_AlgoritmoGenetico_CrossSudoku.py:264-267 | The record's fitness bounds every score and never decreases. It changes only to a strictly better first-maximal individual. |
| CrossGA.ObserveHonest | prueba_AlgoritmoGenetico_CrossSudoku.py:264-267 | After scoring with the real fitness, the record's fitness is its individual's fitness. |
| CrossGA.Step | prueba_AlgoritmoGenetico_CrossSudoku.py:259-294 | One generation leaves a filled record whose fitness has not dropped. Breeding fails exactly when it cannot sample, and otherwise gives a population of the right size. |
| CrossGA.StepFacts | prueba_AlgoritmoGenetico_CrossSudoku.py:259-294 | One generation keeps the record honest and the givens kept, and the record bounds every score of the generation. |
| CrossGA.GenerationStep | prueba_AlgoritmoGenetico_CrossSudoku.py:259-294 | The generation step keeps the promises the loop relies on, keeps the record honest and keeps the givens. |
| CrossGA.RunHistory | prueba_AlgoritmoGenetico_CrossSudoku.py:259-274 | The history grows by at most one entry per generation and keeps its prefix. It never decreases, is bounded by the record, and ends with the record's fitness. |
| CrossGA.RunInvariant | prueba_AlgoritmoGenetico_CrossSudoku.py:259-294 | Any record invariant the step keeps holds of the record the loop returns. |
| CrossGA.RunStops | prueba_AlgoritmoGenetico_CrossSudoku.py:271-274 | The loop stops early only at fitness 0, and every entry before the last is nonzero. |
| CrossGA.RunDefined | prueba_AlgoritmoGenetico_CrossSudoku.py:282-294 | With at least three individuals, the loop never fails. |
| CrossGA.ExecuteDefined | prueba_AlgoritmoGenetico_CrossSudoku.py:252-300 | A population of at least three never fails. An empty population fails in the first generation. |
| CrossGA.ExecuteHistory | prueba_AlgoritmoGenetico_CrossSudoku.py:252-300 | The history has at most `generaciones` entries, never decreases and ends with the best fitness. A short history means fitness 0 was reached. |
| CrossGA.ExecuteRecord | prueba_AlgoritmoGenetico_CrossSudoku.py:252-300 | The returned best individual keeps every given, and the returned fitness is its fitness. |
| CrossGA.ExecuteOutcome | prueba_AlgoritmoGenetico_CrossSudoku.py:252-300 | `ejecutar` combined: defined, with an ascending non-positive history, an honest record, early stop only at 0, and givens kept. |
| CrossGA.ImageRunsAllGenerations | prueba_AlgoritmoGenetico_CrossSudoku.py:252-300 | On the transcribed givens the loop runs every generation, and every history entry is negative. |

## Left out

- The Cross Sudoku script as written: it raises IndentationError on import (the body of `inicializar_puzzle_desde_imagen` at lines 21-22), and its later functions are not members of `CrossSudokuGA`. `CrossSudoku` and `CrossGA` model the re-indented class, not the failing import.
- Wall-clock timing, the progress ratio, `AnalyticsSystem`, save and load, `main`, printing and the script driver: these are I/O, clocks, floating point or formatting.
- Hint texts and the random technique and region hints. Naked and hidden singles are modelled as results, not strings.
- The Killer, Samurai and Jigsaw generator stubs (basura/algoritmo_casi_completo.py:205-236): their bodies do nothing. `_get_generator` looks for 'killer' and the others among the rule names of the ruleset, which never contain them, so the classic generator is always used. The model always uses it.
- The emoji symbol sets: they are not lists of 9 single characters. Only the numbers and letters alphabets are modelled.
- Session.MakeMove: the value is one character, and the cell is required to be on the board. The substring test on longer strings is modelled separately, under Findings.
- Session.CarveFrom: the `random.randint` loop of `_create_playable_grid` runs until it clears its target. The model stops when its draws run out and reports whether it finished, so it cannot promise the loop ends.
- Deduction.HiddenSingle: states that the result is an open cell that is the only host of its symbol in some unit. It does not state that the result is the first such cell in the row, column, region scan order.
- Util.Shuffle: `random.sample(symbols, len(symbols))`, `random.shuffle` and `shuffleArray` are all modelled as one Fisher-Yates shuffle over a roll stream. The CPython internals of `random.sample` are not modelled.
- CrossGA.TournamentPicks: `random.sample(..., 3)` is modelled as the first three positions of a shuffle, so the three are distinct and without replacement, as the code does.
- The roulette selection of genetic-solver.js uses floating-point weights. `GeneticSolver.Breeding` takes the two drawn parents as given.
- The async `solve` loop of genetic-solver.js, with pause, stop, the callbacks and logging, is concurrency and UI. Only its scan of a generation and its best-update rule are modelled.
- GeneticSolver.Evolve: requires at least `populationSize` breedings to be supplied. The source draws a fresh child each pass.
- GeneticSolver: fixed to 9x9 with 3x3 boxes, as its box loops step by 3 and fill from 1..9.
- GeneticSolver.InitializePopulation and CrossGA.InitializePopulation: each individual has its own roll stream, where the source draws from one shared generator.
- The probability coins: `Math.random() < mutationRate`, `random.random() < prob_mutacion` and `random.random() < 0.5` are modelled as booleans supplied with the draws.
- CrossGA: an exception from `random.sample` on fewer than three individuals is modelled as `None`.
- `_obtener_numeros_faltantes` returns `list(set difference)`. The order is taken as ascending, which is what CPython gives for small integers. The shuffle then permutes it anyway.
- EngineChecks: `isValidPuzzle` and `isPerfectSolution` are modelled for 9x9 grids, the only size their 3x3 box loops handle.
- PuzzleGenerator: a size whose square root is not an integer is excluded. Only square sizes with integer sub-grid size are modelled.
- KnowledgeBase.ValidateSolution: looking up an inherited property name such as "toString" in the rule table is not modelled. Cages are passed as a list rather than a possibly-null extra argument.
- `solveWithGeneticAlgorithm` and the monitor helpers of sudoku-engine.js: DOM and alerts, not part of this model.
- The hard-coded top, bottom, left and right grids of the Cross Sudoku script. Only the center grid is transcribed, for `CrossSudoku.ImageCenterRepeats`.

## Findings

| source | as written | input that shows it | evidently intended | confidence | as-written member | corrected member |
|---|---|---|---|---|---|---|
| basura/algoritmo_casi_completo.py:128 | `value not in self.symbols` is a substring test on a string | `make_move(r, c, "")` or `make_move(r, c, "12")` on the numbers alphabet passes the test and is recorded as an incorrect move | admit only a single symbol of the alphabet | high; not executed | Session.AdmitsNonSymbols | Session.AdmittedAgrees |
| genetic-solver.js:238 | a perfect individual is reported with fitness 1000 | a run whose record is already 1030, such as a solved grid with one wrong cell, followed by a generation holding a perfect individual: 1000 does not beat 1030, so the perfect grid is not kept as the best solution. The damage is limited to `bestSolution`, `bestFitness` and the `onGeneration` report, because `solve` still returns the perfect grid (genetic-solver.js:268-269) | report the perfect individual with its true fitness, 1050 | high; not executed | GeneticSolver.PerfectNotRecorded | GeneticSolver.PerfectRecorded |
