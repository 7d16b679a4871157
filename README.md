# Grid relaxation, Caesar shift and battleships — a Dafny model

This project models the logic of three small C programs and proves properties about them.

- **Heat-equation relaxation** (`calculator.c`, `ex3/reader.c`).
  - A grid of `n` rows and `m` columns is relaxed in place, row by row.
  - Each cell that is not a pinned source is overwritten by a caller-supplied update rule. The rule is given the cell and its right, up, left and down neighbours.
  - Borders either wrap around (cyclic) or read as 0 (bounded).
  - Each sweep returns the grid total. The driver repeats sweeps until the change of total is below a tolerance, or until the iteration cap has been passed.
  - The reader builds the zero grid, writes the sources in, and rejects a source outside the grid. It derives the source count from the line count of the problem file, and re-runs the driver until a run ends below the tolerance.
- **Caesar shift** (`ex1/encrypt.c`).
  - Letters are shifted within their case by a key modulo 26. Other characters pass through unchanged.
  - The program accepts only keys in (-26, 26). It shifts every non-NUL character of its input.
- **Battleships** (`ex2/battleships.c`, `ex2/battleships_game.c`).
  - Five boats of lengths 5, 4, 3, 3 and 2 are placed one after another on a square board. A boat is placed only where every one of its cells is free.
  - A shot adds a hit to the first boat that has a cell at the target, and answers MISS, HIT or SUNK.
  - Each turn of the user interface checks the input. It then marks the board (`o` for a miss, `X` for a hit) and counts sunk boats until all five are sunk.

Modules:

- `Calculator` models `calculator.c`:
  - the neighbour functions are pure functions;
  - `isSource` is a search loop;
  - the sweep works in place on an `array2<real>` and is proved against the value-level specification `Visit`/`Sweep`;
  - the driver is proved against `FirstStop`, the first sweep after which the C loop returns.
- `Reader` models `ex3/reader.c`: the line count, the source count, `getGrid` on a fresh array, and the outer driver loop.
- `Encrypt` models `ex1/encrypt.c`. C's truncating `%` is written out as `CRem`.
- `Battleships` models `ex2/battleships.c`. The globals `myBoats` and `boardSize` are the fields of the class `Fleet`.
- `BattleshipsGame` models `ex2/battleships_game.c`.
  - The class `Game` holds the board as an `array2<char>`, the sunk counter and the fleet.
  - Its invariant says that each boat's hit counter equals the number of its cells marked `X`, and that the sunk counter equals the number of sunk boats.
- `Wrappers` holds an `Option` type. It stands for a fatal `exit(1)` or a refused input.

Cell values are mathematical reals. The rounding of C doubles is not modelled.

## Model

| member | source | states |
|---|---|---|
| Calculator.IsSource | calculator.c:27-37 | answers true exactly when some list entry has row x and column y |
| Calculator.SourceAtCoords | calculator.c:27-37 | being a source is membership of (x, y) in the set of listed coordinates |
| Calculator.SourceOrderIrrelevant | calculator.c:27-37 | two source lists naming the same coordinates, in any order and with any repeats, agree on every cell |
| Calculator.Right | calculator.c:48-59 | the right neighbour is column j+1 inside the grid; in the last column it is column 0 when cyclic and exactly 0 when bounded |
| Calculator.Left | calculator.c:70-82 | the left neighbour is column j-1 inside the grid; in column 0 it is column m-1 when cyclic and exactly 0 when bounded |
| Calculator.Down | calculator.c:93-104 | the neighbour below is row i+1 inside the grid; in the last row it is row 0 when cyclic and exactly 0 when bounded |
| Calculator.Up | calculator.c:115-127 | the neighbour above is row i-1 inside the grid; in row 0 it is row n-1 when cyclic and exactly 0 when bounded |
| Calculator.CyclicNeighboursInverse | calculator.c:48-127 | in cyclic mode the neighbours undo each other at every cell, seams included: up of the row below, down of the row above, left of the next column and right of the previous column all read the cell itself |
| Calculator.VisitUnvisited | calculator.c:147-157 | a cell the sweep has not reached yet still holds its value from before the sweep |
| Calculator.VisitStable | calculator.c:147-157 | a cell the sweep has passed is never written again in the same sweep |
| Calculator.VisitMixed | calculator.c:147-157 | part-way through a sweep each passed cell holds its final value and each other cell its old value |
| Calculator.SweepCell | calculator.c:147-157 | a sweep leaves a source cell unchanged; any other cell becomes the rule applied to its old value and its neighbours as the grid stands when the sweep reaches it |
| Calculator.NeighboursWhenVisited | calculator.c:147-157 | when (i, j) is updated, the cells above and to the left already hold this sweep's values and the cells below and to the right still hold old values; the cyclic seams likewise |
| Calculator.IterateKeepsSources | calculator.c:151-157 | source cells keep their value through any number of sweeps |
| Calculator.VisitNoEffect | calculator.c:174-181 | a sweep or partial sweep with the no-op rule leaves the grid unchanged |
| Calculator.IterateNoEffect | calculator.c:174-181 | any number of sweeps with the no-op rule leave the grid unchanged |
| Calculator.NoEffect | calculator.c:174-181 | the no-op rule answers the cell's own value and ignores the neighbours |
| Calculator.NoEffectDiffZero | calculator.c:199-204 | with the no-op rule every sweep changes the total by exactly 0 |
| Calculator.RelaxCell | calculator.c:151-157 | the in-place update of one cell yields exactly the value-level visit of that cell |
| Calculator.CalculateIteration | calculator.c:140-163 | the in-place sweep leaves the grid equal to the row-major specification sweep of the old grid, and returns the total of the new grid |
| Calculator.Baseline | calculator.c:200 | the baseline sweep with the no-op rule leaves the grid unchanged and returns its total |
| Calculator.DriverStep | calculator.c:203-204 | one round of the driver makes one more specification sweep and returns the new total and the change of total of that sweep |
| Calculator.Diff | calculator.c:203-204 | the change of total made by sweep k: the absolute difference of the totals after sweeps k and k-1, never negative |
| Calculator.Stops | calculator.c:206 | the loop returns after sweep k when the cap is set and k is above it, or the change is below the tolerance |
| Calculator.FirstStop | calculator.c:199-212 | the first sweep number after which the loop returns: it stops there, it stops at no earlier sweep, and it is at most nIter+1 |
| Calculator.FirstStopUnique | calculator.c:199-212 | a sweep that stops, with no stopping sweep before it, is the first stop |
| Calculator.NoEffectRunLength | calculator.c:199-209 | with the no-op rule a positive tolerance stops after one sweep; a tolerance of 0 never stops the run, so only the cap does, after nIter+1 sweeps |
| Calculator.Calculate | calculator.c:196-214 | makes exactly FirstStop sweeps, at least 1 and at most nIter+1; the grid ends as that many specification sweeps of the old grid; the result is the change of total made by the last sweep |
| Reader.GetLinesNumber | ex3/reader.c:42-54 | the number of newline characters plus one |
| Reader.SourcesNumber | ex3/reader.c:161 | the line count less the six non-source lines |
| Reader.SeededZero | ex3/reader.c:110-119 | a cell no source sits at is 0 in the seeded grid |
| Reader.SeededLast | ex3/reader.c:110-119 | a cell sources sit at holds the value of the last of them in the list |
| Reader.SeededCell | ex3/reader.c:110-119 | a seeded cell is 0 unless a source sits there; then it holds the value of the last source in the list at that cell |
| Reader.GetGrid | ex3/reader.c:91-121 | no grid exactly when some source has row not below n or column not below m; otherwise a fresh n-by-m grid equal to the zero grid with the sources written in list order |
| Reader.IterateAdd | ex3/reader.c:175-181 | a sweeps followed by b sweeps are a+b sweeps |
| Reader.HeatRuns | ex3/reader.c:175-181 | the runs of the main loop, run by run: each makes exactly the sweeps of one `calculate` call started where the runs before it left the grid, and each run before the last returned a change not below terminate |
| Reader.HeatRunsMeaning | ex3/reader.c:175-181 | the run-by-run definition holds exactly when, for every run at once, its sweep count is that of a `calculate` call from its start and, unless it is the last, its change was not below terminate |
| Reader.AnotherRun | ex3/reader.c:177-181 | one more round of the loop after a change not below terminate: one more `calculate` call, appended to the runs, with the grid and the returned change of that call |
| Reader.RunHeat | ex3/reader.c:175-181 | the runs made are exactly the `calculate` calls of the C loop: each from where the previous left the grid, with that call's sweep count; every run but the last returned a change not below terminate, and the returned change is that of the last run; the loop ended below terminate unless it reached the run bound; the grid ends as all the runs' sweeps applied to the old grid |
| Encrypt.CRem | ex1/encrypt.c:68-74 | C's remainder is strictly between -b and b and agrees with the mathematical one for non-negative dividends |
| Encrypt.EffectiveKey | ex1/encrypt.c:61-65 | a negative key is moved up by 26; for every key in (-26, 26) the result is in 0..25 and agrees with the key modulo 26 |
| Encrypt.Encrypt | ex1/encrypt.c:59-77 | non-letters are unchanged; for keys above -26 a lowercase letter stays lowercase and an uppercase letter stays uppercase, with offset (offset + key') mod 26, where key' = key+26 for a negative key |
| Encrypt.NegativeKeyWraps | ex1/encrypt.c:61-65 | a key in (-26, 0) shifts like the same key plus 26 |
| Encrypt.KeyZeroIdentity | ex1/encrypt.c:59-77 | key 0 changes no character |
| Encrypt.ShiftBack | ex1/encrypt.c:68-74 | two shifts summing to 0 or 26 return every offset |
| Encrypt.OppositeKeys | ex1/encrypt.c:61-65 | the adjusted keys of k and -k sum to 0 or 26 |
| Encrypt.RoundTrip | ex1/encrypt.c:59-77 | for every key in (-26, 26), shifting by -key undoes shifting by key, for every character |
| Encrypt.KeyBelowRangeLeavesAlphabet | ex1/encrypt.c:59-77 | below the accepted range the truncating remainder goes negative: key -30 turns 'a' into ']' |
| Encrypt.ValidKey | ex1/encrypt.c:86-87 | the keys the program accepts: above -26 and below 26 |
| Encrypt.Strip | ex1/encrypt.c:95-101 | the result holds no NUL and is no longer than the text |
| Encrypt.StripCounts | ex1/encrypt.c:95-101 | every character other than NUL is kept as often as the text holds it, and no NUL is kept |
| Encrypt.StripOne | ex1/encrypt.c:97-100 | a single character is kept exactly when it is not NUL |
| Encrypt.StripConcat | ex1/encrypt.c:93-101 | the kept characters of a text are those of its pieces, in the same order, so the output follows the input order across buffers |
| Encrypt.EncryptText | ex1/encrypt.c:95-101 | the output is the shift of each non-NUL input character, in order |
| Encrypt.EncryptKeepsNonNul | ex1/encrypt.c:95-101 | a shifted non-NUL character is never NUL |
| Encrypt.StripNoNul | ex1/encrypt.c:95-101 | text without NUL characters is left as it is |
| Encrypt.TextRoundTrip | ex1/encrypt.c:86-101 | running the program with -key on its output for key gives back the input less its NULs |
| Encrypt.EncryptProgram | ex1/encrypt.c:83-110 | output exactly when a key was read and it lies in (-26, 26); the output is the shifted non-NUL text, and shifting it back gives the input |
| Battleships.CellInjective | ex2/battleships.c:127-156 | two cells of one attempt are different cells |
| Battleships.FreeWhileLaying | ex2/battleships.c:127-156 | while a boat is written cell by cell, its own written cells never block the next one, so each check answers as it would have before the attempt |
| Battleships.PlaceStep | ex2/battleships.c:179-182 | a successful placement of the next boat keeps every placed boat on the board and keeps all their cells pairwise distinct |
| Battleships.FirstFit | ex2/battleships.c:121-158 | the index of the first draw the boat fits at: it fits there and at no draw before, or it fits at none and the index is the number of draws |
| Battleships.PlacementFails | ex2/battleships.c:179-182 | a boat that fits at none of the draws makes the placement fail |
| Battleships.PlacementPlaced | ex2/battleships.c:179-182 | a placement that succeeds puts every boat on the board with no cell shared, and keeps lengths and hit counters |
| Battleships.PlacementStep | ex2/battleships.c:179-182 | placing a boat at the first draw it fits leaves the rest of the placement, and the point where it fails, to the draws after it |
| Battleships.StuckAtPlaced | ex2/battleships.c:179-182 | where a failing placement stops (`StuckAt`, which follows `Placement` boat by boat), the boats before the stuck one are on the board with no cell shared and the stuck one and those after it are not placed |
| Battleships.StuckAtRest | ex2/battleships.c:179-182 | the draws left where a failing placement stops are what remains of the draws once the earlier boats have used their first ones |
| Battleships.StuckAtNoFit | ex2/battleships.c:179-182 | the boat at which a failing placement stops is one of the boats at or after the start, and it fits at none of the draws left to it |
| Battleships.TailOfTail | ex2/battleships.c:179-182 | what is left of the draws after the first n are used is also what is left of all the draws |
| Battleships.PlacedOwnerUnique | ex2/battleships.c:165-183 | once all boats are placed, a boat's cells are distinct and no other boat shares any of them |
| Battleships.FirstOwner | ex2/battleships.c:194-211 | the lowest-index boat with a cell at the target, or the boat count when there is none |
| Battleships.ShotOutcome | ex2/battleships.c:196-212 | MISS exactly when no boat has the cell; otherwise SUNK exactly when the first owner's new count equals its size, else HIT |
| Battleships.AfterShot | ex2/battleships.c:196-208 | a miss changes no boat; a hit adds one to the first owner's count and changes no other boat |
| Battleships.Fleet.Init | ex2/battleships.c:165-178 | records the board size and creates five unplaced boats of sizes 5, 4, 3, 3, 2 |
| Battleships.Fleet.InitBoat | ex2/battleships.c:91-111 | the boat gets the given size and all coordinates (-1, -1); no other boat changes |
| Battleships.Fleet.IsAvailable | ex2/battleships.c:67-84 | the answer is true exactly when x and y are both below the board size and no boat has a cell at (x, y) |
| Battleships.Fleet.TryPlace | ex2/battleships.c:127-156 | succeeds exactly when every cell of the attempt was free; success writes those cells into the boat, failure leaves every boat as before |
| Battleships.Fleet.PutBoat | ex2/battleships.c:117-159 | takes draws until one fits; every draw before it did not fit, and the boat gets the cells of the fitting draw |
| Battleships.Fleet.PlaceNext | ex2/battleships.c:179-182 | one step of the placing loop: on success boat i is placed and `Placement` goes on from the later draws; on failure no boat changes, boat i fits at none of the draws and `Placement` fails; in both cases `StuckAt` moves on with it |
| Battleships.Fleet.PlaceBoats | ex2/battleships.c:179-182 | succeeds exactly when `Placement` of the boats from the draws succeeds, and then the boats are the ones it gives: all on the board, no cell shared; on failure the boats and the draws left are exactly those `StuckAt` gives; sizes and counts are unchanged |
| Battleships.NewFleet | ex2/battleships.c:164-183 | the C init: a fresh fleet of five boats of lengths 5, 4, 3, 3, 2 with no hit, placed exactly when `Placement` of the unplaced boats succeeds, as it gives; otherwise the boats and the draws left are those `StuckAt` gives for the unplaced boats |
| Battleships.Fleet.Shot | ex2/battleships.c:192-213 | the result is ShotOutcome and the new boats are AfterShot of the old boats |
| BattleshipsGame.CreateBoard | ex2/battleships_game.c:101-122 | a size-by-size board with every cell '_' |
| BattleshipsGame.HitsOnBound | ex2/battleships_game.c:182-194 | a boat never has more cells marked 'X' than it has cells |
| BattleshipsGame.HitsOnHidden | ex2/battleships_game.c:116-119 | on a hidden board no cell counts as hit |
| BattleshipsGame.HitsOnMark | ex2/battleships_game.c:175-194 | marking a cell that was not 'X' adds its occurrences to the hit count when the mark is 'X', and changes nothing otherwise |
| BattleshipsGame.DistinctOnce | ex2/battleships_game.c:182-194 | a list without repeats holds a coordinate at most once |
| BattleshipsGame.SunkCountUpdate | ex2/battleships_game.c:188-192 | changing one boat changes the sunk count by the change in that boat's sunk state |
| BattleshipsGame.AllSunk | ex2/battleships_game.c:149 | the sunk count is at most the number of boats, and equals it exactly when every boat is sunk |
| BattleshipsGame.NoneSunk | ex2/battleships_game.c:132 | with no boat at full count the sunk count is 0 |
| BattleshipsGame.ConsistentSunk | ex2/battleships_game.c:149-198 | in every game state the sunk counter is at most 5, and equals 5 exactly when all boats are sunk |
| BattleshipsGame.SameLayout | ex2/battleships.c:200 | changing only hit counters keeps the placement |
| BattleshipsGame.MissKeepsHits | ex2/battleships_game.c:176-180 | a miss mark 'o' changes no boat's hit count |
| BattleshipsGame.HitKeepsHits | ex2/battleships_game.c:182-194 | a hit mark 'X' adds one marked cell to the owner boat and none to any other, just as the shot adds one to the owner's counter |
| BattleshipsGame.HitSunkCount | ex2/battleships_game.c:182-192 | after a hit the number of sunk boats rises by one exactly when the shot answers SUNK |
| BattleshipsGame.ShotKeepsConsistent | ex2/battleships_game.c:168-194 | a shot at an unmarked cell, its mark, and the sunk-counter rule together keep the state invariant |
| BattleshipsGame.SetMark | ex2/battleships_game.c:179-191 | writing a mark changes the board at the target cell only |
| BattleshipsGame.Row | ex2/battleships_game.c:162 | the row a row letter names: its code less 97, so `a` is row 0 |
| BattleshipsGame.Col | ex2/battleships_game.c:163 | the column a column number names: one less, as the user counts from 1 |
| BattleshipsGame.ValidMove | ex2/battleships_game.c:164 | an input is a move exactly when both fields were read and row and column are in 0..size-1 |
| BattleshipsGame.Game.Start | ex2/battleships_game.c:141-147 | a game over a placed, unhit fleet has a hidden board and no sunk boat |
| BattleshipsGame.Game.Turn | ex2/battleships_game.c:161-195 | an unparsed or off-board input changes nothing; a cell already 'X' fires no shot and changes nothing; otherwise the shot is fired, the cell gets 'o' or 'X', and SUNK adds one to the counter; the counter never decreases |
| BattleshipsGame.Game.Fire | ex2/battleships_game.c:175-194 | the shot's result marks only the target cell, and the counter rises by one exactly on SUNK |
| BattleshipsGame.TurnOn | ex2/battleships_game.c:155-194 | one turn on the state as a value: "exit", an unparsed or off-board input and a cell already `X` change nothing; otherwise the shot result gives the new boats, the mark `o` or `X` at the cell, and one more sunk boat exactly on SUNK |
| BattleshipsGame.RunGame | ex2/battleships_game.c:149-195 | the game loop on the state as a value: no line is read once the counter is 5 or the lines are used up; "exit" is the last line read; any other line is one turn, and the count of lines read never exceeds the lines given |
| BattleshipsGame.TurnOnConsistent | ex2/battleships_game.c:155-194 | a turn keeps the state invariant and never lowers the sunk counter |
| BattleshipsGame.RunGameConsistent | ex2/battleships_game.c:149-195 | the whole game keeps the state invariant and never lowers the sunk counter |
| BattleshipsGame.RunGameStops | ex2/battleships_game.c:149-159 | no line before the last one read is "exit", and the game stops before the lines run out only once the counter reached 5 or on "exit" |
| BattleshipsGame.Game.TakeTurn | ex2/battleships_game.c:155-194 | a coordinate line taken as a turn leaves exactly the state TurnOn gives |
| BattleshipsGame.Game.ReadLine | ex2/battleships_game.c:154-194 | with a boat afloat, an "exit" line ends the game with the state unchanged and is counted as read; any other line is taken as a turn, after which what is left of the game is RunGame of the following lines |
| BattleshipsGame.Game.Play | ex2/battleships_game.c:149-198 | the final state and the number of lines read are exactly those of RunGame; the counter never decreases; no earlier line was "exit"; over exactly when the counter reached 5, and then every boat is sunk; otherwise the lines ran out or the last was "exit" |
| BattleshipsGame.NewGame | ex2/battleships_game.c:134-143 | board sizes outside 5..25 are refused; for an accepted size a game is returned exactly when `Placement` of the five unplaced boats succeeds, with the boats it gives; a started game has a fresh hidden board, no sunk boat and the placement invariant |

## Left out

- Input and output are not modelled: `printf`, `fprintf`, `scanf`, `fgets`, `fopen`, `printGrid` and `printBoard`. The text, the key, the parsed board size, the parsed problem values and the sscanf results are parameters.
- Parsing the problem file (`getSourcesList`) is not modelled. The sources list is a parameter.
- Memory management is not modelled: `malloc`, `calloc`, `free`, `freeCoord`, `freeBoats` and `freeAll`. Neither is the `exit(1)` on allocation failure. An out-of-range source or a refused size becomes `None`.
- IEEE double arithmetic and `fabs` rounding are not modelled. Cells are reals and `Abs` is exact, so a change of total that is exactly 0 over the reals may not be 0 in doubles.
- The update rule `heat_eqn` and the headers `calculator.h` and `heat_eqn.h` are not part of this model. The rule is a function parameter.
- `ex1/my_sin.c` and `ex1/my_cos.c` are not modelled. They are floating-point approximations with nothing discrete to state.
- Calculator.Calculate: requires `nIter > 0`. With a cap of 0 the C loop stops only once the change falls below the tolerance, and may never stop. The double iteration counter is a natural number.
- Reader.RunHeat: the C `do … while (diff >= terminate)` loop has no bound. The model makes at most `rounds` runs, and when it reaches that bound it reports that the change is still not below the tolerance.
- Reader.GetGrid: requires non-negative source coordinates. The C code checks only the upper bounds, and writes outside the grid for a negative coordinate.
- Reader.GetLinesNumber: works on the file contents as a character sequence. The `(char)getc` comparison with EOF, which stops early at a byte 0xFF, is not modelled.
- Encrypt.Encrypt: integers are unbounded. The 32-bit overflow of `letter - START + key` for a key above `INT_MAX - 25` is not modelled; `key + 26` is computed only for a negative key and cannot overflow, and the `(char)` cast only ever sees 40..122. Case preservation is stated only for keys above -26. That covers every key the program accepts.
- Encrypt.EncryptProgram: the 128-byte buffering of `fgets` is not modelled. The output is stated for the whole input at once; `Encrypt.StripConcat` is why that is the same character sequence as buffer after buffer.
- Battleships.Fleet.PutBoat: `rand()` is replaced by a finite list of draws, each with orientation 0 or 1 and a non-negative start cell. The unbounded retry loop becomes "no boat when the draws run out".
- Battleships.Fleet.PlaceBoats: fails only when the finite list of draws runs out for some boat, which the unbounded C retry loop never does. After a failure the boats and the draws left are those `Battleships.StuckAt` gives.
- Battleships.Fleet.Init: starts every hit counter at 0. The C code never sets `count`, which holds whatever `malloc` returned. The first shot relies on it being 0.
- BattleshipsGame.NewGame: the C `init` retries without end, so it only ever returns with the fleet placed. The model returns no game exactly when `Placement` fails on the finite list of draws (`Battleships.NewFleet` says where it got stuck, through `Battleships.StuckAt`).
- The "exit" command is modelled only as an input that ends `Play`, not as a process exit.
- BattleshipsGame.Game.Play: the input is a finite list of lines, and the loop also stops when it is used up. The C loop never checks what `scanf` returns: at the end of input it goes on with the buffer's leftover contents and ends only when every boat is sunk. That endless repetition is not modelled.
- C `char` is a byte, signed on the usual ABIs (ex1/encrypt.c:59, 92; ex2/battleships_game.c:152), while the model's `char` is a Unicode scalar. Behaviour agrees: bytes 128..255 are negative in C, so they are neither letters nor valid rows, just as characters above 127 are neither in the model.
- The `shot` result codes MISS 0, HIT 1, SUNK 2 become the constructors `Miss`, `Hit` and `Sunk` of `ShotResult`; the numbers themselves are not modelled. The board symbols are the C ones: `X`, `o`, `_`.

## Notes on the source

- The driver's tolerance test is a strict `diff < terminate`. With the no-op rule, a tolerance of 0 therefore never stops `calculate`; only the cap does, after `n_iter + 1` sweeps (`Calculator.NoEffectRunLength`). In general `calculate` makes at most `n_iter + 1` update sweeps, not `n_iter`, because the cap test is the strict `i > n_iter`; with `i >= n_iter` the same test after the increment would stop at `n_iter`.
- ex2/battleships_game.c:153-155 reads each move with `scanf(" %[^\t\n]", input)` into `char input[EXIT_STR_SIZE]`, which holds 5 bytes, and gives no field width. A line of 5 or more characters therefore writes past the buffer. The model takes each line as a value of any length, so this overflow is not modelled.
- `UPPERCASE_END` is 90 (`'Z'`). Its doc comment says 92. The model uses 90, as the code does.
