# Sparse cellular automaton on a torus, in Dafny

This project models the simulation engine of `simulation.py`. The engine is
a two-state cellular automaton with the Moore neighbourhood on an `m x n`
grid that wraps around at the edges. Its rule is written as text such as
`"B3/S23"`:

- the digits after `B` are the neighbour counts that bring a dead cell to life;
- the digits after `S` are the counts that keep a live cell alive.

Instead of examining every cell on every step, the engine keeps a **check
list**: the set of cells worth examining next. It holds every live cell and
every neighbour of a live cell. A step does four things:

1. It examines only the cells on the check list.
2. It reads neighbour counts from the old grid.
3. It writes survivors and newborns into an all-dead grid.
4. It collects every cell that is alive next, with its neighbours, into the
   next check list.

The modules follow the program's structure:

- `Torus` (`torus.dfy`) covers the wrap-around neighbour list of `getNeighbors`, its size, range and symmetry.
- `Engine` (`engine.dfy`) covers the grid, the neighbour count of `getLivingNeighborCount`, the check list of `makeInitialCheckList`, and the sparse step of `updateGrid` as pure functions. It also holds the dense reference step (the rule applied to every cell) and the proofs that the two agree.
- `Sweep` (`sweep.dfy`) is `updateGrid` as the loop it is: one pass over the check-list set in an arbitrary order. It is proved equal to the engine's step.
- `RuleText` (`rule_text.dfy`) covers `parseRule`, the text `getRandomRule` produces, and the round trips between text and rule. `RuleExamples` (`rule_examples.dfy`) holds worked readings of concrete rule texts.
- `Commands` (`commands.dfy`) is the game state and what the keys `p`, `c` and `n` and each frame do to it. It defines `Ready`: while the game runs, the check list covers the grid. It proves which commands keep `Ready`.

Three points about the code are worth knowing:

- Each live cell puts itself on the check list as well as its neighbours. So an isolated live cell is examined, and it survives when 0 is a survive count (`Engine.IsolatedCellSurvives`). The sparse and dense steps therefore agree whenever 0 is not a birth count, whatever the survive counts are.
- `parseRule` accepts the digit 9. It never looks at the `B` and `S` letters.
- Reseeding with `n` does not rebuild the check list; see "Findings".

Randomness is a parameter: the reseeded grid is a `seed` grid, and the random rule is two sets of drawn counts. A cell is the integer 0 or 1.

## Model

| member | source | states |
|---|---|---|
| Torus.Wrap | simulation.py:167-170 | one step back or forward from an in-range index lands in range, and an in-range index is left as it is |
| Torus.WrapIsRemainder | simulation.py:167-170 | the wrap equals the remainder modulo the size that the code computes, so -1 wraps to the last index and the size wraps to 0 |
| Torus.Neighbors | simulation.py:165-180 | a cell's neighbour list holds exactly the cells one row and one column step away (wrapping, own row and column included) other than the cell itself; at most 8 entries, all in range |
| Torus.Candidates | simulation.py:167-177 | the nine candidate cells of the row and column loops are exactly the cells at most one wrapped step away in each direction, with the cell itself in the middle (index 4) |
| Torus.NeighborsOnLargeTorus | simulation.py:165-180 | on a torus of at least 3 x 3 cells, the neighbour list has exactly 8 distinct entries, all in range, none equal to the cell |
| Torus.NeighborSymmetric | simulation.py:165-180 | q is a neighbour of p exactly when p is a neighbour of q |
| Torus.CornerWraps | simulation.py:165-180 | the corner (0, 0) has (m-1, n-1), (m-1, 0) and (0, n-1) as neighbours |
| Engine.LivingNeighborCount | simulation.py:182-186 | the sum over a position list lies between 0 and the list's length, and is 0 exactly when no listed cell is live |
| Engine.CountOfDistinct | simulation.py:182-186 | over a list without repetitions, the sum is the number of live cells listed |
| Engine.NeighborCountIsLiveNeighbors | simulation.py:182-186 | on a torus of at least 3 x 3 cells, a cell's neighbour count is the number of its live neighbours, between 0 and 8 |
| Engine.Count | simulation.py:193-194 | the count used by a step lies in 0..8 on any torus |
| Engine.QuietCount | simulation.py:193-194 | a cell with no live neighbour has count 0 |
| Engine.NextState | simulation.py:195-207 | on a torus of at least 3 x 3 cells, a cell is alive next exactly when it is live with a survive number of distinct live neighbours, or dead with a birth number of them |
| Engine.InitialCheckList | simulation.py:153-162 | the check list built from scratch holds only cells of the grid |
| Engine.InitialCheckListExact | simulation.py:153-162 | a cell is on the check list built from scratch exactly when it is in range and is live or has a live neighbour |
| Engine.InitialCheckListCovers | simulation.py:153-162 | the check list built from scratch covers every live cell and every cell with a live neighbour |
| Engine.StepGrid | simulation.py:188-210 | the grid after a sparse step has the old grid's shape; what each cell becomes is stated by `Engine.StepGridCells` |
| Engine.StepCheckList | simulation.py:188-210 | every cell on the check list a step hands on is a cell of the grid; which cells those are is stated by `Engine.StepCheckListIsInitial` |
| Engine.StepGridCells | simulation.py:188-208 | after a step, a cell on the old check list is alive exactly when it was alive with a survive count or dead with a birth count, counts from the old grid; a cell off the check list is dead |
| Engine.StepCheckListIsInitial | simulation.py:200-210 | the check list a step hands on equals the one built from scratch on the next grid |
| Engine.StepKeepsCovering | simulation.py:188-210 | the check list a step hands on covers the next grid |
| Engine.OffCheckListIsQuiet | simulation.py:153-162 | a cell off a covering check list is dead and has count 0 |
| Engine.SparseMatchesDense | simulation.py:188-208 | when 0 is not a birth count and the check list covers the grid, the sparse step gives the same grid as the rule applied to every cell |
| Engine.SparseRunMatchesDense | simulation.py:188-210 | from a covering check list and with 0 not a birth count, any number of sparse steps agree with the same number of dense steps |
| Engine.IsolatedCellSurvives | simulation.py:158-161 | a live cell with no live neighbour is on a covering check list, so it survives when 0 is a survive count |
| Engine.DeadStaysDead | simulation.py:188-210 | with 0 not a birth count, an all-dead grid steps to an all-dead grid and an empty check list, whatever the old check list |
| Sweep.VisitCell | simulation.py:193-207 | examining one cell marks it alive in the next grid, and adds it and its neighbours to the next check list, exactly when the rule makes it alive |
| Sweep.SweepCells | simulation.py:189-207 | the pass over the check list in any order yields the grid of the cells the rule makes alive, and those cells with their neighbours as the next check list |
| Sweep.UpdateGrid | simulation.py:188-210 | the step computes the next grid and the next check list of the engine's sparse step |
| Sweep.CheckListOfOneMore | simulation.py:200-201 | one more cell alive next adds exactly that cell and its neighbours to the next check list |
| Sweep.GridOfOneMore | simulation.py:198 | one more cell alive next sets exactly that cell of the next grid |
| RuleText.Split | simulation.py:252 | k separators split the text into k + 1 pieces, none of which holds a separator |
| RuleText.SplitJoin | simulation.py:252 | gluing the pieces back with the separator gives the text |
| RuleText.DropFirst | simulation.py:253-254 | the slice `[1:]` of a non-empty text is what follows its first character, and of the empty text is empty |
| RuleText.ParseDigits | simulation.py:253-254 | the conversion succeeds exactly when every character is a decimal digit; on success it gives each digit's value in order, and on failure it names the first non-digit |
| RuleText.ReadHalves | simulation.py:253-254 | reading the two halves succeeds exactly when both read as digits after their first character, giving the birth and survive values; otherwise it fails with the birth half's error first |
| RuleText.ParseRule | simulation.py:251-255 | a text without exactly one "/" fails with its piece count; a success has exactly one "/" and digit values only; every failure is a piece count or a non-digit |
| RuleText.ParseAround | simulation.py:251-255 | a text with a single "/" between x and y reads as the digits after the first character of x and of y |
| RuleText.PrefixLettersIgnored | simulation.py:253-254 | any first characters other than "/" read the same as "B" and "S" |
| RuleText.BadSurviveDigit | simulation.py:254 | a non-digit among the survive digits makes the parse fail, naming that character |
| RuleText.Digits | simulation.py:262 | joining written counts gives one decimal digit character per count, in order, with the count's value |
| RuleText.FormatRule | simulation.py:262 | the text "B" + birth digits + "/S" + survive digits has exactly one separator, and is 3 characters longer than the two digit lists together |
| RuleText.ParseFormat | simulation.py:251-262 | reading the text written for a rule of digits gives back that rule |
| RuleText.FormatParse | simulation.py:251-262 | writing the rule read from "B" + u + "/S" + v gives back that text |
| RuleText.ParseDigitsOfDigits | simulation.py:253-254 | reading written digits gives back the digit values |
| RuleText.Ascending | simulation.py:260-261 | the drawn counts in a range, each once, in strictly increasing order |
| RuleText.RandomRuleText | simulation.py:257-262 | the random rule's text reads back as the drawn birth and survive counts of 1..7, in ascending order |
| RuleExamples.GameOfLife | simulation.py:251-255 | "B3/S23" reads as birth [3], survive [2, 3] |
| RuleExamples.Replicator | simulation.py:251-255 | "B147/S4" reads as birth [1, 4, 7], survive [4] |
| RuleExamples.EmptyLists | simulation.py:251-255 | "B/S" reads as two empty lists |
| RuleExamples.NineAccepted | simulation.py:251-255 | "B3/S29" reads with 9 as a survive count |
| RuleExamples.OtherLetters | simulation.py:251-255 | "X3/Y23" reads as "B3/S23" does |
| RuleExamples.NoSeparator | simulation.py:252 | "B3S23" fails as a single piece |
| RuleExamples.TwoSeparators | simulation.py:252 | "B3/S2/3" fails with three pieces |
| RuleExamples.LetterAmongDigits | simulation.py:254 | "B3/S2x" fails on the character x |
| Commands.NewGame | simulation.py:67-70 | a new game parses the rule (failing as the parser does), keeps the given grid, builds the check list from scratch and starts running with a full countdown |
| Commands.NewGameReady | simulation.py:67-70 | a new game is ready |
| Commands.TogglePause | simulation.py:86-91 | the key p flips the pause flag; resuming rebuilds the check list from the grid, pausing keeps it; the grid is untouched |
| Commands.TogglePauseReady | simulation.py:86-91 | after the key p the game is ready, whatever was drawn on the grid while paused |
| Commands.Clear | simulation.py:95-99 | the key c makes every cell dead and keeps the check list, the pause flag and the countdown |
| Commands.ClearReady | simulation.py:95-99 | clearing keeps a ready game ready |
| Commands.Reseed | simulation.py:103-106 | the key n replaces the grid and keeps the check list as it was |
| Commands.ReseedWhilePausedReady | simulation.py:86-106 | reseeding a paused game keeps it ready, and resuming afterwards gives a ready running game |
| Commands.Update | simulation.py:212-219 | a paused game is left alone; a running game whose countdown has run out takes one sparse step and restarts the countdown; otherwise the countdown goes down by the elapsed time |
| Commands.UpdateReady | simulation.py:212-219 | a frame keeps a ready game ready |
| Commands.UpdateIsDenseStep | simulation.py:212-219 | in a ready running game with 0 not a birth count, the step a frame takes is the rule applied to every cell |
| Commands.Handle | simulation.py:86-106 | each event keeps the grid shape and the rule; the key n puts in the new grid and keeps the old check list |
| Commands.HandleReady | simulation.py:86-106 | every key and every frame keeps a ready game ready, provided the key n is pressed only while paused |
| Commands.Play | simulation.py:221-226 | a sequence of events keeps the grid shape and the rule |
| Commands.PlayReady | simulation.py:221-226 | a ready game stays ready through any sequence of events in which every n comes while the game is paused |
| Commands.EmptyCheckListKills | simulation.py:188-210 | a step from an empty check list kills every cell, whatever the grid |
| Commands.ClearStepReseedIsStale | simulation.py:95-106 | with 0 not a birth count, clearing a running game, letting a step happen and reseeding leaves the new grid with an empty check list |
| Commands.ReseedBreaksReady | simulation.py:103-106 | reseeding the stale game with a single live cell leaves a running game that is not ready |
| Commands.ReseedLosesLoneCell | simulation.py:103-106 | after that reseed the next step kills the lone cell, although the rule applied to every cell keeps it |
| Commands.ReseedRebuilt | simulation.py:86-106 | the corrected key n replaces the grid and rebuilds the check list from it, as resuming does |
| Commands.ReseedRebuiltReady | simulation.py:86-106 | the corrected reseed keeps any game ready, running or paused |
| Commands.HandleRebuilt | simulation.py:86-106 | the corrected half of the finding, per event: as `Commands.Handle`, but the key n rebuilds the check list from the new grid |
| Commands.HandleRebuiltReady | simulation.py:86-106 | the corrected half of the finding: with the corrected n, every key and every frame keeps a ready game ready, running or paused |
| Commands.PlayRebuilt | simulation.py:221-226 | the corrected half of the finding, over a sequence of events: the grid shape and the rule are kept |
| Commands.PlayRebuiltReady | simulation.py:221-226 | the corrected half of the finding: with the corrected n, a ready game stays ready through any sequence of events |
| Commands.ReseedRebuiltThenStep | simulation.py:103-106 | after the corrected reseed, with 0 not a birth count, the next step is the rule applied to every cell of the new grid |

## Left out

- Rendering is left out because it is display output with no effect on the grid or the check list. This covers the pixel grid class, building and scaling the display image, and drawing, including the image fills and per-cell colouring inside the step (simulation.py:191, 199, 205, 209).
- Event polling, the quit event and mouse drawing are left out because they are user-interface input. Mouse drawing (simulation.py:109-129) only writes cells while the game is paused, and resuming rebuilds the check list. The model lets the grid change arbitrarily while paused (`Commands.TogglePauseReady`). That drawing indexes the grid `[column][row]` (simulation.py:127), a screen-coordinate matter not modelled.
- The frame clock is replaced by a parameter. The countdown is kept in whole milliseconds (`StepTime` = 250), and the elapsed time of a frame is given. Floating-point seconds and the clock itself are not modelled.
- Random choices are replaced by parameters. The random initial and reseeded grids (simulation.py:39-40, 105-106) are grids passed in, and the random rule's coin flips (simulation.py:260-261) are the sets of counts that came up. The probabilities are not modelled.
- The step's new array is built with numpy floats (simulation.py:190), so after a step cells hold 0.0 and 1.0. Cells are modelled as the integers 0 and 1, which compare and add the same way.
- `RuleText.ParseDigits`: only the ASCII digits 0-9 are accepted. Python's `int` of a single character also accepts other Unicode decimal digits and raises on everything else; a text with non-ASCII digits is read as an error here.
- A grid with no rows or no columns is excluded (`Shaped` demands m > 0 and n > 0), because the program fails on it before any step: `len(array[0])` (simulation.py:46) fails on a grid with no rows, and the tile sizes `SCREEN_SIZE[0] // self._m` and `SCREEN_SIZE[1] // self._n` (simulation.py:48-49) divide by zero on one with no columns.
- `Torus.Neighbors` requires an in-range cell because every caller passes a cell of the grid. On a torus narrower than 3 cells the list can repeat a cell, and the count then counts it twice, as the code does. Only the at-least-3 x 3 lemmas pin the list down to 8 distinct cells.
- Engine.StepGrid: its own contract states only the shape of the next grid. What each cell becomes is proved separately by `Engine.StepGridCells`, because a per-cell postcondition on the function makes every proof that mentions a step much more expensive.
- Engine.StepCheckList: its own contract states only that the next check list lies in the grid. Its contents are proved separately by `Engine.StepCheckListIsInitial`, for the same reason.
- The failure of `parseRule` is a Python exception. It is modelled as an `Err` value naming the piece count or the offending character.

## Findings

| source | as written | input that shows it | evidently intended | confidence | as-written member | corrected member |
|---|---|---|---|---|---|---|
| simulation.py:103-107 | the key n replaces the grid but keeps the old check list, so while the game runs the next step examines only cells near the old population | clear a running game (rule `B/S0`), let one step happen (the check list becomes empty), then reseed with a single live cell on a 3 x 3 torus: the next step kills that cell, while the rule applied to every cell keeps it | rebuild the check list from the new grid, as resuming from pause does (simulation.py:88-90) | high, not executed | Commands.Reseed | Commands.ReseedRebuilt |

The as-written half is `Commands.Reseed`. The lemmas `Commands.ClearStepReseedIsStale`, `Commands.ReseedBreaksReady` and `Commands.ReseedLosesLoneCell` exhibit the discrepancy. `Commands.Handle` and `Commands.Play` dispatch the key n to it, as the program does, and keep a game ready only when every n comes while the game is paused (`Commands.HandleReady`, `Commands.PlayReady`). The corrected half is `Commands.ReseedRebuilt`. `Commands.ReseedRebuiltReady` and `Commands.ReseedRebuiltThenStep` prove the intended properties about it. `Commands.HandleRebuilt` and `Commands.PlayRebuilt` are the event loop with the corrected n; `Commands.HandleRebuiltReady` and `Commands.PlayRebuiltReady` prove that it keeps any ready game ready, with no condition on when n is pressed.
