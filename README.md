# A* heuristic synthesis, modelled in Dafny

The system searches bottom-up for a cost-field heuristic: a program in a
small expression language over the grids `state_x`/`state_y` and the goal
coordinates `goal_x`/`goal_y`. A good heuristic makes a greedy best-first
walk across a fixed maze reach its goals in few steps. The walk runs over
a frontier array padded with the sentinel 9 and marks visited cells with 7.
The model is organised in these modules:

- **`Dsl`** (`dsl.dfy`): the program datatype with `getSize`, `toString` and
  `interpret`.
  - `interpret` works over exact reals, with numpy's scalar broadcasting.
  - It is proved pointwise against an independent one-cell reference evaluator.
- **`DslUnique`** (`dsl_unique.dfy`): a proof that rendering is injective.
  The registry of evaluated programs relies on this.
- **`AStar`** (`a_star.dfy`): the evaluation oracle, as a class with the
  source's fields.
  - `additional_gets` builds the coordinate grids, the rotated start/goal
    pairs and the fingerprint windows.
  - `run_a_star` makes the rejection checks and the fingerprint dedup, runs
    the greedy walk on `array2` frontier and working arrays, applies the step
    budgets and updates the best average.
  - The walk is proved to terminate within the padded grid's cell count.
  - A walk that reaches its goal is proved to connect start and goal through
    free maze cells, and a walk that runs away is proved to have a goal cut
    off from its start.
- **`Search`** (`search.dfy`): the enumerator, as a class with the source's
  fields.
  - It finds the valid bucket-size pairs.
  - It generates eleven candidates per program pair from a value snapshot of
    the bucket table.
  - It de-duplicates by rendering, assigns buckets by the floor/clamp rule,
    tracks the best score and restarts on a 5% improvement.
  - The outer loop is proved to terminate: each restart strictly lowers the
    best average's step total.
- **`Grids`** (`grids.dfy`) and **`Wrappers`** (`wrappers.dfy`): numpy's
  flatten, min, max, pad and `rot90` on rectangular sequences, and `Option`.

Design decisions:

- **Averages.** An average `t / num_pairs` is kept as its exact step total
  `Finite(t)`, with `Inf` for `np.inf`.
  - Every way the source uses an average is unaffected by the fixed positive
    divisor: comparing two averages, the ratio against the last baseline,
    and `best * num_pairs` in the budget.
  - `ImprovesEnoughRatio` proves this for the restart test.
- **The tie-break.** The random `rng.choice` among the frontier's minimum
  cells is a nondeterministic choice (`:|`) among those cells.
- **Bucket keys.** Python float bucket keys are integers: `3.0` and `3` are
  the same dictionary key in Python.
- **The restart margin.** The code tests `avg / baseline <= 0.95`
  (search.py:116), an improvement of at least 5%; the model follows the code.

## Model

| member | source | states |
|---|---|---|
| Grids.GridMin | a_star.py:135 | the minimum of a grid is at most every cell and is some cell |
| Grids.GridMax | a_star.py:136-137 | the maximum of a grid is at least every cell and is some cell |
| Grids.FlattenIndex | a_star.py:95-98 | cell `(i, j)` of a grid `w` wide is element `i*w+j` of its row-major flattening |
| Grids.RotatedCell | a_star.py:94 | `rot90` moves cell `(r, c)` to `(w-1-c, r)` inside the turned grid and keeps its value |
| Grids.PadRotCommute | a_star.py:193-206 | padding by one cell then turning equals turning then padding |
| Grids.PaddedRotatePoint | a_star.py:205-216 | the turned position of a padded cell is the turned unpadded cell shifted by (1, 1), matching the `+1` offsets |
| Dsl.Size | dsl.py:47-48 | every program has size at least 1 |
| Dsl.SizeCountsNodes | dsl.py:121-122 | a program's size is the number of its subtrees: one per node |
| Dsl.Interpret | dsl.py:44-45 | the value fits the environment's grid shape, and it is a grid exactly when the program reads a variable bound to a grid |
| Dsl.Combine | dsl.py:59-60 | a binary operator yields a grid exactly when either operand is a grid (broadcasting) |
| Dsl.AbsValue | dsl.py:118-119 | `abs` keeps the shape: grid in, grid out |
| Dsl.InterpretPointwise | dsl.py:44-45 | every cell of the interpreted value is the program evaluated at that cell alone, by the independent reference `EvalAt` |
| Dsl.BinaryPointwise | dsl.py:74-75 | each cell of a binary node's value is the operator applied to the operands' reference values at that cell |
| Dsl.CombineAt | dsl.py:89-90 | each cell of a combined value is the operator applied to the operands' cells, a scalar standing for every cell |
| Dsl.AbsAt | dsl.py:118-119 | each cell of `abs` of a value is the absolute value of that cell |
| Dsl.AbsNonNegative | dsl.py:118-119 | an `Abs` program never yields a negative cell |
| Dsl.InterpretReadsOnlyVars | dsl.py:146-147 | a program's value depends only on the bindings of the variables it reads, so a constant ignores `env` |
| DslUnique.NatTextInjective | dsl.py:143-144 | two naturals with the same decimal text are equal |
| DslUnique.NumberTextInjective | dsl.py:143-144 | two constants with the same printed text are equal |
| DslUnique.LeafUnique | dsl.py:129-130 | a variable or constant at the head of a rendering is determined, and so is the text after it |
| DslUnique.LeafNotCompound | dsl.py:129-144 | a variable's or constant's rendering, followed by text that may follow a program, never reads as an operator's rendering |
| DslUnique.BinaryUnique | dsl.py:41-108 | two binary renderings with the same opening, at the head of one text, have equal operators, operands and following text |
| DslUnique.AbsUnique | dsl.py:115-116 | two `abs` renderings at the head of one text have equal operands and following text |
| DslUnique.RenderPrefixUnique | dsl.py:41-116 | a rendering followed by text that may follow a program determines both the program and the text |
| DslUnique.RenderUnique | dsl.py:41-144 | with well-formed variable names, two programs render alike if and only if they are equal |
| AStar.StateXGrid | a_star.py:83 | `state_x` is an `msy` by `msx` grid with `state_x[r][c] == c` |
| AStar.StateYGrid | a_star.py:84 | `state_y` is an `msy` by `msx` grid with `state_y[r][c] == r` |
| AStar.WindowBounds | a_star.py:110-118 | every fingerprint window is 5 wide |
| AStar.WindowInside | a_star.py:110-118 | for a dimension of at least 6, the window lies inside `[0, n)` |
| AStar.WindowHoldsCoordinate | a_star.py:110-118 | the window contains the start coordinate exactly when the coordinate is not `n-1` |
| AStar.Window | a_star.py:150-152 | the slice `g[r1:r2, c1:c2]` has the window's shape and cell `(i, j)` is `g[r1+i][c1+j]` |
| AStar.NormalizeInUnit | a_star.py:135-137 | normalised costs lie in `[0, 1]`, and a constant field normalises to all zeros |
| AStar.ArgMax | a_star.py:95 | `np.argmax`: an index of a maximum, the first one |
| AStar.ArgMin | a_star.py:96 | `np.argmin`: an index of a minimum, the first one |
| AStar.RotatedPairAsWrittenAgrees | a_star.py:91-98 | when start and goal differ, the marker-and-argmax computation yields the turned start and goal |
| AStar.RotatedPairAsWrittenWrong | a_star.py:91-98 | when start equals goal `(0, 0)`, the computed turned start is `(0, 0)` and not the true turned point `(msx-1, 0)` |
| AStar.PairEnv | a_star.py:127-132 | the environment binds `state_x`/`state_y` to the grids, `goal_x` to the goal column and `goal_y` to the goal row |
| AStar.GridIffState | a_star.py:138-142 | a vocabulary program interprets to a grid exactly when it reads `state_x` or `state_y`, so the scalar rejection fires exactly for the others |
| AStar.FingerprintStack | a_star.py:154-162 | the fingerprint is the flattened cost windows of all pairs, concatenated in pair order |
| AStar.StackAppend | a_star.py:161-162 | stacking one more layer appends that layer's flattening |
| AStar.LayersInUnit | a_star.py:135-137 | every normalised layer is a grid with cells in `[0, 1]` |
| AStar.NeverExceeded | a_star.py:166-168 | the maximum of the stacked normalised layers is at most 1, so the `max > 1` rejection never fires |
| AStar.StackMaxAbove | a_star.py:166 | the stack's maximum exceeds a bound exactly when some layer cell does |
| AStar.PadLayer | a_star.py:191-193 | the padded cost grid is 9 on the border and on blocked cells, and the layer's cost elsewhere |
| AStar.TurnLayer | a_star.py:205-206 | the turned grid is `rot90` of the padded grid: each cell moved to its turned position |
| AStar.RotWalkGrid | a_star.py:205-206 | turning keeps a walkable grid walkable: border of 9, free costs at most 1 |
| AStar.NewArrays | a_star.py:221-224 | the frontier array is 9 everywhere but 7 at the start, and the working array copies the costs |
| AStar.ArrayMin | a_star.py:229 | the frontier minimum is attained at some cell and no cell is below it |
| AStar.ChosenCell | a_star.py:229-235 | a cell holding the frontier minimum is the start or next to a visited cell, and it is free and not on the border |
| AStar.MarkVisited | a_star.py:234 | the chosen cell's working cost becomes 7 and no other working cost changes |
| AStar.Reveal | a_star.py:235 | the frontier takes the working costs on the 3 by 3 block around the chosen cell and keeps every other cell |
| AStar.Expand | a_star.py:234-235 | the walk marks its cell 7 and reveals exactly its 3 by 3 neighbourhood from the working costs, leaving every other working cost and every other frontier cell as it was, while the frontier and working invariants hold |
| AStar.Walk | a_star.py:221-241 | a walk reaches the goal within `h*w+1` steps through a chain of free adjacent cells, or exceeds the budget, or runs away after exactly `h*w+1` steps; every step but the last stays within the budget |
| AStar.WalkConnects | a_star.py:221-235 | a reached walk shows that start and goal are connected through free maze cells |
| AStar.FreePad | a_star.py:191-193 | free maze cells, moved one row and column into the padded grid, are cells a walk may enter |
| AStar.PathLinked | a_star.py:191-193 | a chain of free maze cells from the start touching a free goal links the padded start to the padded goal |
| AStar.ConnectedLinked | a_star.py:191-193 | a pair connected in the maze, with a free goal, is linked on the padded grid, so the walk from it cannot run away |
| AStar.LinkedTurned | a_star.py:205-206 | turning a grid by `rot90` keeps a goal linked to its start, between the turned positions |
| AStar.WalkPlain | a_star.py:214-241 | an unturned walk that reaches its goal connects it to its start in the maze; one that runs away takes `h*w+1` steps and its padded goal is not linked to its padded start |
| AStar.WalkTurned | a_star.py:205-241 | a walk on the turned padded grid ends within its cell count, runs away only from a goal not linked to its start, or goes over budget, every step but the last staying within it |
| AStar.LayerWalkPlain | a_star.py:191-241 | an unturned walk over a normalised layer takes at most `MaxWalk` steps and connects its pair when it reaches its goal, and runs away (after exactly `MaxWalk` steps) only when the pair is not connected in the maze |
| AStar.LayerWalkTurned | a_star.py:196-241 | a turned walk over a normalised layer takes at most `MaxWalk` steps when it reaches its goal, and runs away (after exactly `MaxWalk` steps) only when the pair is not connected in the maze |
| AStar.WalkTurnedOf | a_star.py:205-241 | turning the padded grid and walking from the turned start stays within `MaxWalk` steps, and runs away only when the unturned padded goal is not linked to the start |
| AStar.WalkIndex | a_star.py:186-202 | walk `i` uses layer `i // 2` when turning (turned on odd `i`), and layer `i` otherwise |
| AStar.CostsAt | a_star.py:127-152 | one pair's costs are a grid exactly when the program reads a state grid, and then they are the normalised layer and the window |
| AStar.WindowOf | a_star.py:144-147 | the window read back from `part_idx_dict` is that pair's clipped window |
| AStar.NextPair | a_star.py:154-162 | stacking one more pair extends the layers and the windows by that pair's |
| AStar.BuildLayers | a_star.py:126-162 | the loop over pairs succeeds exactly for state-reading programs and builds all layers and windows |
| AStar.Screen | a_star.py:126-168 | the screening passes exactly for state-reading programs, giving walkable layers and the fingerprint |
| AStar.WalkPair | a_star.py:184-241 | one walk stays within its step bound and extends the connected prefix of pairs when it reaches its goal, runs away only from a pair not connected in the maze, and goes over budget only when the running total plus its steps exceeds the budget, every earlier step staying within it |
| AStar.WalkNext | a_star.py:184-249 | one round of the walk loop carries the loop invariant to the next walk: the total stays between the walk count and the walk count times `MaxWalk`, is at most the budget plus one step per walk, and every pair whose unturned walk is done is connected; a walk that stops the loop names pair `idx`, with every earlier pair connected, `idx` not connected when it ran away, and `total_num_steps + num_steps` above the budget when over budget |
| AStar.WalkAll | a_star.py:184-250 | all walks succeed with a total between `pair_num` and `pair_num * MaxWalk` (and at most the budget plus `pair_num`) and connect every pair; or they stop at pair `idx`, all earlier pairs connected, running away only when that pair is not connected, or over budget only with `total_num_steps + num_steps` above the budget |
| AStar.Admit | a_star.py:126-175 | a program is admitted exactly when it is not rejected, and the fingerprint is recorded only with `update_best` |
| AStar.WalkAndRecord | a_star.py:177-257 | the outcome table of the walks: `(inf, None, None)` only when some pair is not connected, `(inf, True, idx)` only with a best known and the running total above it, `(total, True, num_pairs)` with every pair connected and, when a best is known, a total at most the best total plus one step per walk; the best average becomes the new average only with `update_best` and a strict improvement |
| AStar.Evaluate | a_star.py:120-257 | the full outcome table: rejected `(inf, False, None)` exactly for the rejected programs, runaway `(inf, None, None)` only when some pair is not connected, over budget `(inf, True, idx)` only when `total_num_steps + num_steps > best * num_pairs`, success `(total, True, num_pairs)` with a total at most the best total plus one step per walk |
| AStar.AStar.constructor | a_star.py:5-11 | the best average starts at `inf` with the flag false and the fingerprint set empty |
| AStar.AStar.AdditionalGets | a_star.py:81-118 | fills the state grids, the turned pairs (each start and goal turned by `rot90`) and the window table |
| AStar.AStar.RunAStar | a_star.py:120-257 | the outcome table (rejection exactly as `Rejected`, runaway only for a pair not connected, over budget only when the running total exceeds the old best total, success only within the old best total plus one step per walk), the fingerprint set after the call, and the best average after the call |
| Search.Combinations | search.py:157-175 | exactly 11 candidates per pair, with size `size(p1)+size(p2)+1` or `+2` under `Abs` and the operands' variables |
| Search.ScanRowMembers | search.py:140-145 | the inner loop adds, once each, the sorted pairs of the current row whose sizes sum to `current - 1` |
| Search.SizePairsMembers | search.py:139-145 | after `n` rows, the list holds each valid sorted pair with a member among the first `n` keys, once |
| Search.ValidSizesExact | search.py:139-145 | the valid pairs are exactly the existing sorted key pairs with `s1+s2+1 == current`, each listed once |
| Search.AgainstCount | search.py:159-175 | one program against a bucket yields `11 * len(bucket)` candidates |
| Search.ProductsCount | search.py:158-175 | two buckets yield `len(b1) * len(b2) * 11` candidates |
| Search.GeneratedCount | search.py:147-149 | the number of generated candidates equals `total_new_programs` |
| Search.AgainstFrom | search.py:159-175 | every candidate against a bucket combines the program with a member of the bucket |
| Search.ProductsFrom | search.py:158-175 | every candidate from two buckets combines a member of each |
| Search.GeneratedFrom | search.py:157-175 | every generated candidate combines programs from the listed buckets of the snapshot |
| Search.GeneratedInVocabulary | search.py:157-175 | candidates built from vocabulary programs read only the oracle's four names |
| Search.InitialBuckets | search.py:30-31 | the table starts with the single bucket 1 |
| Search.ExtendsTrans | search.py:102-104 | growing by appends is transitive |
| Search.Put | search.py:102-104 | appending keeps every existing entry in order, creates the bucket when missing and changes no other bucket |
| Search.PerformanceArgumentPositive | search.py:72-75 | the logarithm's argument is positive, and at most 1 for the `one` variant |
| Search.ModSizeBounds | search.py:83-88 | the bucket is at most the program's size; otherwise it is the floor of `perf + reg + 1`, or of the floored parts |
| Search.FloorIndividuallyBelow | search.py:83-86 | flooring the parts first never gives a larger bucket, and below the clamp it gives at most one less |
| Search.AveragesRatio | search.py:116 | the ratio of two averages over the same `num_pairs` is the ratio of their totals |
| Search.ImprovesEnoughRatio | search.py:116 | the restart test on totals agrees with `avg / baseline <= 0.95` on averages |
| Search.ImprovesEnoughIsBelow | search.py:109-117 | an improvement large enough to restart is a strict improvement |
| Search.ImprovesEnoughMonotone | search.py:109-117 | a further improvement on a score that passed the restart test passes it too |
| Search.FlaggedStep | search.py:109-117 | after one more candidate the restart flag is still set exactly when the level's best passes the restart test |
| Search.BelowRank | search.py:127-130 | a strict improvement lowers the termination rank of the restart loop |
| Search.VocabularyNamed | search.py:48-49 | the oracle's four variable names read back unambiguously |
| Search.RenderingIdentifies | search.py:48-49 | within the vocabulary two programs render alike exactly when they are equal, so the dedup skips only programs already scored |
| Search.AgainstOf | search.py:159-175 | the innermost loop yields exactly the candidates of one program against a bucket, in order |
| Search.ProductsOf | search.py:158-175 | the nested loops yield exactly the candidates of two buckets in order |
| Search.ValidProgramSizes | search.py:132-152 | the nested loops list exactly the valid size pairs, and the counter is the candidate count |
| Search.ProgSearch.constructor | search.py:7-11 | stores the bound, the grammar constants and the evaluator |
| Search.ProgSearch.InitializeHyperparameters | search.py:13-22 | stores the six hyperparameters |
| Search.ProgSearch.GetValidProgramSizes | search.py:132-152 | sets `valid_sizes_list` to the valid pairs of the snapshot and `total_new_programs` to their candidate count |
| Search.ProgSearch.GenerateNewPrograms | search.py:154-175 | the candidates are exactly those generated from the listed pairs of the snapshot |
| Search.ProgSearch.Score | search.py:50-51 | a finite score's step total is positive and at most the largest possible total |
| Search.ProgSearch.Consider | search.py:48-124 | an unseen rendering is registered and scored, and a seen one changes nothing; an accepted program is filed in its bucket unless the bucket is negative, which halts; a strict improvement updates the best and may flag a restart |
| Search.ProgSearch.Assess | search.py:50-124 | scoring, filing and best tracking for one candidate |
| Search.ProgSearch.Note | search.py:48-49 | the rendering joins the registry, which never holds one rendering twice |
| Search.ProgSearch.FileAccepted | search.py:72-104 | the bucket is the cost rule's value; a negative bucket halts, otherwise the program is appended to its bucket |
| Search.ProgSearch.Improve | search.py:109-124 | a strict improvement becomes the best with its program, and the restart flag is set when it is at least 5% below the baseline |
| Search.ProgSearch.ExpandLevel | search.py:44-124 | one level keeps the invariants, only appends to buckets, only grows the registry, never raises the best average, and leaves the restart flag set exactly when it was set or the level's new best passes the restart test against the baseline |
| Search.ProgSearch.NextCandidate | search.py:48-124 | one candidate of a level keeps the snapshot extended, the best non-increasing and the restart flag equal to the level's restart test |
| Search.ProgSearch.Begin | search.py:26-38 | the search starts with both averages `inf`, bucket 1 holding the constants and an empty registry |
| Search.ProgSearch.RunLevel | search.py:39-130 | unless halted, a level sets the size to 0 with the baseline at the best exactly when it flagged a restart, and advances it by one otherwise, leaving the buckets in place |
| Search.ProgSearch.Search | search.py:24-130 | the search terminates; unless halted it reaches the bound, and the buckets only ever grew from the initial table |

## Left out

- Maze generation (`generate_maze`: random values and OpenCV morphology) is not modelled.
- Map-file loading (`load_map_from_file`) is file I/O and is not modelled.
- Start/goal sampling (`generate_start_goal_lists`) is random.
  - The maze, starts and goals are constructor inputs instead.
  - The precondition `PairsIn` says the pairs lie on free cells inside the maze.
- Plotting (`show_graphs`), `print`, `tqdm` progress and the debug print of one rendering (search.py:95-100) have no effect on results.
- main.py is script wiring and is not modelled.
- Dsl.Interpret: does not model numpy's 64-bit integer arithmetic.
  - `state_x`, `state_y` (`np.arange`) and the goal coordinates are int64, so a program without a fractional constant computes in int64 and can wrap around on overflow (nested `Times` on a large map) without an error.
  - The model computes every value as an unbounded exact real.
- Floats are exact reals.
  - This covers the min/max normalisation, `1e-4`, the ratio `0.95` (as 19/20) and the averages (as step totals).
  - Rounding is not modelled.
- `math.log` and `**` are not modelled as operations.
  - They are function-valued constructor parameters (`log`, `pow`) of `ProgSearch`.
  - Their arguments are computed exactly.
- A zero `regularization_divisor` raises `ZeroDivisionError` in the source; the model requires a non-zero divisor.
- The `performance_type` assert is the two-valued datatype `PerformanceType`.
- `sys.exit` on a negative bucket is the `halted` result, which ends the search.
- `Var.interpret` raises `KeyError` for an unbound name. `Interpret` requires every name it reads to be bound, and the oracle binds exactly the four vocabulary names.
- Constants are modelled by their decimal text (sign, whole part, fraction digits).
  - Python's exponent forms (`1e-05`) and `inf`/`nan` are not modelled.
  - No grammar constant uses them.
- The oracle needs at least 6 rows and 6 columns and at least 2 pairs; both are preconditions.
  - The model requires 6 because it does not model clipped or negative slice bounds (a_star.py:110-118). In the source a smaller maze raises only when two pairs' windows differ in shape, for example not when every start is `(0, 0)`.
  - With one pair, the cost array stays two-dimensional and `[idx, :, :]` raises.
- The write `costs_array[self.maze == 1] = 9` goes through a numpy view into the stacked layers. The model takes a fresh grid.
  - With `rotate_maze`, each layer is used twice, and the second use sees the same values.
  - This is because the write is idempotent.
- `plist[1]` aliases `grammar_constants` in Python; the model copies the value.
  - Appends to bucket 1 would also reach the caller's list.
  - The model does not capture that aliasing.
- `copy.deepcopy` of the table is a value snapshot.
- The generator is a materialised sequence, built before the candidates are scored.
  - This is equivalent, because generation reads only the snapshot.
- `best_program` is an `Option`: the source leaves the attribute unset until the first finite score.
- Search.ProgSearch.Consider: states the oracle's outcome only as the facts `Search` relies on. The exact rejection relation is stated once, on `AStar.AStar.RunAStar`.
- Search.ProgSearch.Score: does not restate the rejection relation either, for the same reason.
- Search.ProgSearch.ExpandLevel: does not restate that the loop runs over exactly the generated candidates of the snapshot. That is stated by `GenerateNewPrograms`, whose result the loop walks.
- AStar.LayerWalkTurned: does not state that a goal the turned walk reaches is connected to its start; the unturned walk of the same pair, made first, carries that proof.
- AStar.Walk: does not fix which path or how many steps the walk takes. Both depend on the random tie-break.

## Findings

| source | as written | input that shows it | evidently intended | confidence | as-written member | corrected member |
|---|---|---|---|---|---|---|
| a_star.py:91-98 | finds the turned start and goal by writing `+1` at the start and `-1` at the goal in a zero grid, turning it, and taking `argmax`/`argmin` of the flattening | a pair whose start equals its goal, e.g. `(0, 0)` on a maze of at least 2 columns. The `-1` overwrites the `+1`, the turned grid's maximum is a 0 at flat index 0, so the turned start is `(0, 0)` instead of `(msx-1, 0)`. Starts and goals are sampled independently, so this can occur | the turned start of `(r, c)` is `(msx-1-c, r)`, as for the goal | not executed | AStar.RotatedPairAsWrittenWrong | AStar.AStar.AdditionalGets |
