# Sudoku genetic algorithm: a Dafny model of the engine core

This project models the engine and scene core of the Sudoku_Genetic_Algorithm
program, a SFML/ImGui desktop application that will evolve a population of
candidate Sudoku grids. The model covers:

- **the entity store** (`EntityMemoryPool`): a fixed-capacity pool of
  parallel arrays of tags, liveness flags and component slots, with a bump
  cursor for allocation and a reuse of the lowest dead id once the cursor
  reaches the capacity;
- **the entity handle** (`Entity`), an integer id that forwards every query
  to the store;
- **the entity directory** (`EntityManager`): creation is staged in a
  pending list, and `update` first commits the pending handles to the active
  list and the per-tag index, then removes the dead ones, resetting their
  components and unlinking them from the index;
- **the algorithm scene**: the grid and population sizing, random genes,
  the elite partial sort, the population-size slider handler, and the
  per-cell collision count used to colour the grid;
- **the pausable stopwatch** (`Timer`), **the frame counter** of a
  sprite animation (`Animation`) and **the scene bookkeeping** of
  `GameEngine`.

Files and modules:

| file | module | models |
|---|---|---|
| wrappers.dfy | Wrappers | `Option`, for operations that abort in the source |
| components.dfy | Components | the five component records and their defaults |
| entity_store.dfy | Store | `EntityMemoryPool` (a class over arrays) and the `Entity` handle |
| entity_manager.dfy | Directory | `EntityManager` (a class over sequences and a map) |
| scene_algorithm.dfy | AlgorithmScene | `Scene_Algorithm`'s population and grid logic |
| timer.dfy | Timing | `Timer` |
| animation.dfy | Animations | `Animation` |
| game_engine.dfy | Engine | `GameEngine`'s scene map and running flag |

The source's process-wide singleton `EntityMemoryPool::Instance()` becomes an
explicit store object that handles and the directory receive. The random
generator is an oracle `rand(i, j)`: the value drawn for locus `j` of
individual `i`. The steady clock is an integer millisecond reading `now`
passed to each timer operation. The checks `INPUT_VALIDITY` and
`OUTPUT_VALIDITY` (include/MyUtils.h:6-27) are compiled in and abort, so each
`INPUT_VALIDITY` is a precondition. The one `OUTPUT_VALIDITY`, exhaustion of
the pool in `addEntity`, is a `None` result.

## Model

| member | source | states |
|---|---|---|
| Components.KindIndex | include/EntityMemoryPool.h:15-21 | a kind's position lies within the five-entry tuple |
| Components.KindAt | include/EntityMemoryPool.h:15-21 | the kind stored at a tuple position; it inverts KindIndex |
| Components.KindIndexInjective | include/EntityMemoryPool.h:15-21 | every kind has its own position in the component tuple |
| Components.Default | include/Components.h:5-60 | a value-initialised record has `has` false and is of its own kind |
| Store.FirstDeadFree | src/EntityMemoryPool.cpp:36-43 | the front scan stops before the end exactly when some id is dead |
| Store.Entity.GetId | src/Entity.cpp:11-13 | the handle is determined by its id |
| Store.Entity.GetTag | src/Entity.cpp:15-17 | a handle's tag is the store's tag for its id, and an alive id's tag is non-empty |
| Store.Entity.IsAlive | src/Entity.cpp:19-21 | a handle is alive exactly when the store's flag for its id is set; alive ids lie below the cursor |
| Store.Entity.Destroy | src/Entity.cpp:23-25 | destroying through one handle makes every handle with that id dead; no other flag changes |
| Store.Entity.HasComponent | include/Entity.h:22-25 | the store's `has` flag of the id's slot |
| Store.Entity.GetComponent | include/Entity.h:28-37 | the id's slot of the kind, which holds a record of that kind |
| Store.Entity.AddComponent | include/Entity.h:16-19 | only the id's slot of that kind changes, to the new record with `has` set |
| Store.Entity.RemoveComponent | include/Entity.h:40-43 | only the `has` flag of the id's slot is cleared; the payload stays |
| Store.DefaultEntity | include/Entity.h:47 | a default handle has the largest 64-bit id |
| Store.ProcessPoolFirstCreation | src/EntityMemoryPool.cpp:45-46 | the process-wide pool of 1344 slots gives its first creation id 0 and is not full after it |
| Store.EntityMemoryPool.constructor | src/EntityMemoryPool.cpp:5-13 | poolSize slots, none alive, every tag empty, every component slot at its default |
| Store.EntityMemoryPool.IsPoolFull | src/EntityMemoryPool.cpp:68-70 | full exactly when the cursor reached the capacity; otherwise the slot under the cursor is free |
| Store.EntityMemoryPool.GetFreeIndexFromFront | src/EntityMemoryPool.cpp:36-43 | the lowest dead id, or poolSize when every id is alive |
| Store.EntityMemoryPool.GetFreeIndexFromBack | src/EntityMemoryPool.cpp:27-34 | one past the highest alive id, or 0; every id from there on is dead |
| Store.EntityMemoryPool.AddEntity | src/EntityMemoryPool.cpp:15-25 | the cursor id while the cursor is below the capacity (the cursor then advances), else the lowest dead id; None exactly when every id is alive and the cursor is at the capacity, with nothing changed; the new id is alive with the tag, all other slots unchanged |
| Store.EntityMemoryPool.GetTag | src/EntityMemoryPool.cpp:50-54 | the id's tag, non-empty when the id is alive |
| Store.EntityMemoryPool.IsAlive | src/EntityMemoryPool.cpp:56-60 | the id's flag; an alive id lies below the cursor |
| Store.EntityMemoryPool.Destroy | src/EntityMemoryPool.cpp:62-66 | clears the id's flag only, keeping the store invariant |
| Store.EntityMemoryPool.ResetNextEntityId | src/EntityManager.cpp:37-39 | the cursor becomes one past the highest alive id, keeping every id at or above it dead |
| Store.EntityMemoryPool.GetComponent | include/EntityMemoryPool.h:32-40 | the slot of the kind for the id, holding a record of that kind |
| Store.EntityMemoryPool.HasComponent | include/EntityMemoryPool.h:42-45 | the slot's `has` flag |
| Store.EntityMemoryPool.AddComponent | include/EntityMemoryPool.h:47-53 | overwrites the one slot with the record, flag set, and returns it; no other slot changes |
| Store.EntityMemoryPool.RemoveComponent | include/EntityMemoryPool.h:55-58 | clears the one slot's flag and keeps its payload; no other slot changes |
| Store.EntityMemoryPool.ResetComponents | include/EntityMemoryPool.h:82-88 | every kind's slot of the id is back at its default; other ids keep theirs |
| Directory.WithTag | src/EntityManager.cpp:18 | the handles of a list whose id carries a tag, a sub-list |
| Directory.CommittedPerTag | src/EntityManager.cpp:15-21 | committing appends to each tag's list exactly the pending handles of that tag, in pending order, and creates a key exactly for tags that gain one |
| Directory.CommittedIdsBelow | src/EntityManager.cpp:15-21 | committing keeps every indexed id inside the pool |
| Directory.EraseFirst | src/EntityManager.cpp:44-53 | erasing keeps only handles of the list |
| Directory.FirstWithId | src/EntityManager.cpp:46-48 | the position of the first handle with the id, every handle before it has another id |
| Directory.EraseFirstAt | src/EntityManager.cpp:44-53 | erasing removes the handle at the first same-id position and keeps the rest in order; an absent id leaves the list as it was |
| Directory.EraseFirstRemovesOne | src/EntityManager.cpp:44-53 | erasing removes exactly one occurrence of the handle when there is one and nothing otherwise |
| Directory.Survivors | src/EntityManager.cpp:35 | what remove_if keeps is no longer than the list and holds only listed, alive handles |
| Directory.SurvivorsMembers | src/EntityManager.cpp:23-42 | a handle survives removal exactly when it was listed and is alive |
| Directory.SurvivorsAll | src/EntityManager.cpp:35-39 | nothing is removed exactly when every listed handle is alive |
| Directory.DeadIdsMembers | src/EntityManager.cpp:24-33 | an id has its components reset exactly when a handle for it is listed and dead |
| Directory.DeadWithTag | src/EntityManager.cpp:24-33 | the dead handles of a list whose id carries a tag, a sub-list |
| Directory.EraseEach | src/EntityManager.cpp:44-53 | repeated first-match erasure keeps only handles of the list |
| Directory.UnlinkedPerTag | src/EntityManager.cpp:24-53 | unlinking erases from each tag's list, once each and in list order, exactly the dead handles of that tag, and creates a key exactly for tags that lose one |
| Directory.EntityManager.constructor | include/EntityManager.h:15-18 | a directory starts with no active, pending or indexed handles |
| Directory.EntityManager.AddEntity | src/EntityManager.cpp:9-13 | the new handle is only staged in the pending list; the store's cursor advances by one while below the capacity and stays at the capacity after; None changes nothing: the lists, the cursor, the flags and the tags stay |
| Directory.EntityManager.AddEntities | src/EntityManager.cpp:15-21 | pending handles are appended in order to the active list and to their tags' lists, and the pending list empties |
| Directory.EntityManager.RemoveFromEntityMap | src/EntityManager.cpp:44-53 | the first same-id handle is erased from its tag's list; nothing else changes |
| Directory.EntityManager.NeedErase | src/EntityManager.cpp:24-33 | a dead handle is reported for erasure, its components reset and the handle unlinked; an alive one changes nothing |
| Directory.EntityManager.RemoveIf | src/EntityManager.cpp:35 | keeps the alive handles in order, unlinks every dead one from the index and resets exactly the dead ids' components |
| Directory.EntityManager.RemoveEntities | src/EntityManager.cpp:23-42 | the active list becomes its alive handles in order; the cursor is rewound exactly when something was removed |
| Directory.EntityManager.Update | src/EntityManager.cpp:4-7 | after update a handle is active exactly when it was active or pending and is alive; the index is the committed index with the dead unlinked |
| Directory.EntityManager.GetEntities | src/EntityManager.cpp:55-61 | the active list, whose ids lie in the pool |
| Directory.EntityManager.GetEntitiesByTag | src/EntityManager.cpp:67-69 | the tag's list, after inserting an empty list for an unknown tag |
| Directory.EntityManager.FindEntitiesByTag | src/EntityManager.cpp:63-65 | the tag's list, or None (an exception in the source) for an unknown tag |
| Directory.CommitMakesEntityVisible | src/EntityManager.cpp:4-21 | a created handle is not in its tag's list before update and is its only member after |
| Directory.CreationsTakeConsecutiveIds | src/EntityMemoryPool.cpp:15-25 | three creations in a fresh pool of four take ids 0, 1 and 2 |
| Directory.SecondCreateExhaustsUnitPool | src/EntityMemoryPool.cpp:15-25 | with capacity 1, the first creation gets id 0 and a second one fails |
| Directory.DestroyedBeforeCommitIsDropped | src/EntityManager.cpp:4-42 | a handle created and destroyed before one update is not active after it, and its id is the next one allocated |
| AlgorithmScene.ZeroGene | src/Scene_Algorithm.cpp:53 | a gene of the length with every value 0 |
| AlgorithmScene.ResizedEntries | src/Scene_Algorithm.cpp:52-55 | resizing keeps the prefix and pads with fitness-0, all-zero individuals |
| AlgorithmScene.RandomisedEntries | src/Scene_Algorithm.cpp:78-85 | re-randomising keeps fitnesses, gene lengths and individuals outside the range, and draws every locus inside from the generator |
| AlgorithmScene.EliteAmount | src/Scene_Algorithm.cpp:96 | the elite amount is at least one |
| AlgorithmScene.EliteAmountBounds | src/Scene_Algorithm.cpp:96 | the elite amount is the rate's share of the population rounded to nearest (at least 1) and never exceeds the population |
| AlgorithmScene.DefaultEliteAmount | include/Scene_Algorithm.h:13-16 | the default 100 individuals at 10% give an elite of 10 |
| AlgorithmScene.ResizedShaped | src/Scene_Algorithm.cpp:52-55 | resizing keeps every gene a valid gene of the grid |
| AlgorithmScene.PermutationShaped | src/Scene_Algorithm.cpp:97-99 | reordering keeps every gene a valid gene of the grid |
| AlgorithmScene.RandomisedShaped | src/Scene_Algorithm.cpp:78-93 | drawing from the grid's value range keeps every gene a valid gene of the grid |
| AlgorithmScene.PartialSortByFitness | src/Scene_Algorithm.cpp:97-99 | a permutation whose first k entries are the fittest in non-increasing order |
| AlgorithmScene.DroppedTailLessFit | src/Scene_Algorithm.cpp:97-99 | cutting an elite-sorted population drops nothing fitter than the elite |
| AlgorithmScene.ShrinkKeepsElite | src/Scene_Algorithm.cpp:149-154 | shrinking an elite-sorted permutation keeps a part of the old population, elite-sorted, whose elite is at least as fit as everything cut |
| AlgorithmScene.ShrinkIsPrefix | src/Scene_Algorithm.cpp:153-154 | shrinking and re-randomising from any index at or past the new size keeps the sorted prefix |
| AlgorithmScene.GrowKeepsAll | src/Scene_Algorithm.cpp:153-154 | growing keeps the old individuals in front and adds fitness-0 ones with drawn genes |
| AlgorithmScene.LastOldRedrawn | src/Scene_Algorithm.cpp:152-154 | when the population does not shrink, re-randomising a sorted permutation from the old size minus one keeps old individuals before that index, redraws the last old individual's whole gene leaving it the fitness of one of the old individuals, and gives every later individual fitness 0 and drawn genes |
| AlgorithmScene.ReinitFromLastOutcome | src/Scene_Algorithm.cpp:149-154 | the as-written resize and re-randomisation of an elite-sorted permutation: cut down with the elite kept when shrinking, regrown from the last old individual otherwise |
| AlgorithmScene.FreshPopulation | src/Scene_Algorithm.cpp:30-33 | resizing an empty population and re-randomising all of it gives individuals of fitness 0 whose genes are the generator's draws |
| AlgorithmScene.CellValues | src/Scene_Algorithm.cpp:106-112 | the values of the grid's CCell components, row by row, all in range |
| AlgorithmScene.RowCount | src/Scene_Algorithm.cpp:109 | a count no larger than the row prefix |
| AlgorithmScene.ColumnCount | src/Scene_Algorithm.cpp:110 | a count no larger than the column prefix |
| AlgorithmScene.Column | src/Scene_Algorithm.cpp:110 | the column of the table |
| AlgorithmScene.RowCountIsMultiplicity | src/Scene_Algorithm.cpp:109 | the row count is the multiplicity of the value in the row |
| AlgorithmScene.ColumnCountIsMultiplicity | src/Scene_Algorithm.cpp:110 | the column count is the multiplicity of the value in the column |
| AlgorithmScene.RowCountPositive | src/Scene_Algorithm.cpp:120 | a cell's own value is counted in its row |
| AlgorithmScene.ColumnCountPositive | src/Scene_Algorithm.cpp:120 | a cell's own value is counted in its column |
| AlgorithmScene.Collisions | src/Scene_Algorithm.cpp:120 | a cell's collision count lies in [0, n - 1] |
| AlgorithmScene.CollisionsCountRepeats | src/Scene_Algorithm.cpp:120 | the count is the other cells of the row plus those of the column sharing the cell's value, capped at n - 1 |
| AlgorithmScene.CountValues | src/Scene_Algorithm.cpp:103-112 | the row and column tables hold, per line and value, the number of cells of that line with that value |
| AlgorithmScene.CountCollisions | src/Scene_Algorithm.cpp:102-120 | every cell's collision count as Collisions of the grid's values, and the colour unit 255 / (n - 1) |
| AlgorithmScene.SceneAlgorithm.constructor | src/Scene_Algorithm.cpp:6-36 | the default configuration (100, 20%, 5%, 10%, grid 9), a 9 × 9 grid of default handles and 100 individuals of fitness 0 whose 81-value genes are the generator's draws |
| AlgorithmScene.SceneAlgorithm.ResizePopulation | src/Scene_Algorithm.cpp:52-55 | the population resized to the configured size with zero genes of gridSize² values |
| AlgorithmScene.SceneAlgorithm.InitPopulation | src/Scene_Algorithm.cpp:78-85 | every gene value of individuals from startIndex on is drawn from the generator; the rest stays |
| AlgorithmScene.SceneAlgorithm.SortElitePopulation | src/Scene_Algorithm.cpp:95-100 | the population is permuted and its elite sorted by fitness |
| AlgorithmScene.SceneAlgorithm.ResetGridAndPopulation | src/Scene_Algorithm.cpp:18-36 | a gridSize × gridSize grid of default handles and populationSize individuals of fitness 0 with drawn genes |
| AlgorithmScene.SceneAlgorithm.ChangeGridSize | src/Scene_Algorithm.cpp:143-147 | the grid size becomes the slider's table entry; the grid is gridSize × gridSize default handles and every individual has fitness 0 and a gene of gridSize² draws |
| AlgorithmScene.SceneAlgorithm.ChangePopulationSizeAsWritten | src/Scene_Algorithm.cpp:149-155 | the handler as written: it needs the new elite amount to fit the old population; shrinking keeps the fittest in elite order; growing or keeping the size keeps old individuals in front of the last old position, redraws the gene there with a stale fitness, and fills the rest with fitness-0 individuals of drawn genes |
| AlgorithmScene.SceneAlgorithm.ChangePopulationSize | src/Scene_Algorithm.cpp:149-155 | the handler corrected: the population has the new size; shrinking keeps the fittest in elite order; growing keeps every old individual and adds fresh ones |
| AlgorithmScene.SceneAlgorithm.ResizeAndInit | src/Scene_Algorithm.cpp:153-154 | resize, then redraw from the start index, keeping every gene valid for the grid |
| AlgorithmScene.EliteSortOverrunsWhenGrowing | src/Scene_Algorithm.cpp:149-152 | growing from 1 to 1000 at 10% asks for an elite larger than the current population |
| AlgorithmScene.ReinitFromLastOldOverwrites | src/Scene_Algorithm.cpp:154 | re-randomising from the old size minus one changes an old individual |
| AlgorithmScene.ReinitFromPrevSizeKeeps | src/Scene_Algorithm.cpp:154 | re-randomising from the old size keeps every old individual |
| Timing.Timer.constructor | src/Timer.cpp:4-6 | no limit, not paused, started now |
| Timing.Timer.WithLimit | src/Timer.cpp:8-14 | a non-negative limit, not paused, started now |
| Timing.Timer.Start | src/Timer.cpp:16-18 | a running timer reads zero right after a restart; the limit stays valid |
| Timing.Timer.Duration | src/Timer.cpp:53-60 | frozen at pause minus start while paused, otherwise the time since the start |
| Timing.Timer.PausedDurationFrozen | src/Timer.cpp:53-56 | while paused, the reading does not depend on the clock |
| Timing.Timer.TimeRanOut | src/Timer.cpp:24-30 | a zero limit has always run out; otherwise run out exactly when the duration reached the limit |
| Timing.Timer.TimeElapsed | src/Timer.cpp:32-34 | the duration in milliseconds |
| Timing.Timer.GetTimeLimit | src/Timer.cpp:20-22 | the limit, never negative, since every writer checks it |
| Timing.Timer.SetTimeLimit | src/Timer.cpp:36-40 | a non-negative limit replaces the old one; nothing else changes |
| Timing.Timer.Pause | src/Timer.cpp:42-51 | toggles pausing; pausing freezes the reading, resuming shifts the start by the pause so the pause does not count; the limit stays valid |
| Timing.PauseExcludesInterval | src/Timer.cpp:42-51 | started at t0, paused at t1, resumed at t2, read at t3: (t3 - t0) - (t2 - t1) |
| Timing.PausedReadingsAgree | src/Timer.cpp:53-56 | while paused, two readings agree and equal the time up to the pause |
| Timing.NoLimitHasRunOut | src/Timer.cpp:24-27 | a timer without a limit has run out at once |
| Timing.LimitRunsOutOnTime | src/Timer.cpp:24-30 | with a positive limit, run out exactly once the limit has passed since the start |
| Timing.RestartReadsZero | src/Timer.cpp:16-18 | a restarted timer reads zero at the restart |
| Timing.SetLimitKeepsDuration | src/Timer.cpp:36-40 | setting the limit changes the limit and not the reading |
| Animations.FrameLeft | src/Animation.cpp:24 | the rectangle's left edge is a multiple of the texture's full width, below frameCount × width |
| Animations.ColumnBound | src/Animation.cpp:24 | a column's left edge is a multiple of the width, between 0 and (frameCount - 1) × width |
| Animations.LaterColumnsPastTexture | src/Animation.cpp:17-24 | every column from the second on starts at or past the texture's right edge, because the column width is the texture's full width |
| Animations.FrameLeftPeriodic | src/Animation.cpp:24 | the column repeats every speed × frameCount frames |
| Animations.FrameAdvances | src/Animation.cpp:24 | each column is shown for `speed` frames, then the next one |
| Animations.EndedStaysEnded | src/Animation.cpp:41-43 | once ended, an animation stays ended as its counter grows |
| Animations.DivUnique | src/Animation.cpp:24 | Euclidean quotient and remainder are unique, which FrameLeft's lemmas rely on |
| Animations.Animation.Default | src/Animation.cpp:4 | the member defaults: name "NONE", a 1 × 1 texture, one frame, speed 0, an empty rectangle |
| Animations.Animation.constructor | src/Animation.cpp:6-20 | a non-empty name, a non-empty texture, at least one frame, non-negative speed; the first column shown |
| Animations.Animation.Update | src/Animation.cpp:22-27 | a still animation does not change; a moving one shows the column of the current counter and advances the counter by one |
| Animations.Animation.GetName | src/Animation.cpp:29-31 | the name |
| Animations.Animation.HasEnded | src/Animation.cpp:41-43 | ended exactly when the counter, in columns, has passed the frame count |
| Animations.SecondUpdateShowsSecondColumn | src/Animation.cpp:22-27 | two updates at speed 1 show the second column, 10 pixels in, with the counter at 2 |
| Animations.StillAnimationStays | src/Animation.cpp:22-27 | an update at speed 0 leaves the first column and the counter at 0 |
| Engine.ResizeClamp | src/GameEngine.cpp:146 | each dimension is the requested one or the minimum, whichever is larger |
| Engine.ResizeClampIdempotent | src/GameEngine.cpp:146 | clamping twice is clamping once |
| Engine.GameEngine.constructor | src/GameEngine.cpp:5-25 | a non-empty path; running, with the algorithm scene as the only and current scene |
| Engine.GameEngine.ChangeScene | src/GameEngine.cpp:54-65 | the scene is stored under its type, which becomes current; with endCurScene the previous type's entry goes; every other entry stays |
| Engine.GameEngine.CurrentScene | src/GameEngine.cpp:95-97 | the current type's scene, after inserting a null entry for an absent type |
| Engine.GameEngine.IsRunning | src/GameEngine.cpp:91-93 | running exactly when not quit and the window is open |
| Engine.GameEngine.Quit | src/GameEngine.cpp:99-101 | the engine no longer runs |
| Engine.QuitStopsEngine | src/GameEngine.cpp:91-101 | after quit the engine is not running, whatever the window |
| Engine.SwitchScenes | src/GameEngine.cpp:54-65 | ending the current scene drops it from the map; not ending it keeps it |
| Engine.FirstSceneIsCurrent | src/GameEngine.cpp:18-25 | a new engine's current scene is the one installed by init |

## Left out

- Rendering, sprites, fonts, colours, ImGui widgets, window creation, the event loop (`run`, `sUserInput`), configuration loading, assets and actions: graphics and I/O, outside the logic modelled.
- The random generator (`std::mt19937` with `uniform_int_distribution`) is an oracle `rand(i, j)`. Callers promise values in [0, gridSize), as `getRandCellVal` guarantees.
- The steady clock: time points are integer milliseconds passed as `now`, so the truncation of `duration_cast` does not appear.
- Floating-point component fields (positions, sizes, container sizes) are reals that are only stored. Arithmetic on them (`resizeGrid`, `setScale`, `centerText`) is not modelled.
- `Entity.getComponent` returns a mutable reference in the source. The model reads slots as values and changes them only through the store's methods.
- Store.EntityMemoryPool.ResetNextEntityId: `resetNextEntityId` is declared in include/EntityMemoryPool.h:71 and called at src/EntityManager.cpp:38, but src/EntityMemoryPool.cpp has no definition. The model takes it to set the cursor to `getFreeIndexFromBack()`, the one helper that fits its name and the store's invariant.
- `findFreeIndex` and `canPushBack` are declared in include/EntityMemoryPool.h, but src/EntityMemoryPool.cpp has no definition for them and nothing calls them.
- `Instance()`, the static pool of src/EntityMemoryPool.cpp:45-46, is replaced by an explicit store argument. Its capacity `ENTITY_MEMORY_POOL_MAX_SIZE` (1344, include/EntityMemoryPool.h:8) is Store.MaxPoolSize.
- Integer widths: ids are unbounded below 2^64. `currentFrame` (an `int`) is not wrapped, so Animations.Animation.Update does not model overflow after 2^31 updates. The char cell values, counts and collisions stay below 37 because the largest grid is 36, so char arithmetic is not modelled.
- Timing.Timer.TimeElapsed: does not model the `static_cast<int>` of src/Timer.cpp:33, which narrows the 64-bit millisecond count to `int`, so readings past 2^31 - 1 ms (about 24.8 days) are not wrapped. The limit needs no narrowing, since it comes from an `int`.
- What an animation frame shows: the model keeps the rectangle's position, not the pixels under it. The source sizes every column with the whole texture width, so every column from the second on lies past the texture's right edge (Animations.LaterColumnsPastTexture); the model keeps that arithmetic as written.
- `SceneType` enumerators other than `None` and `Algorithm` are written `Other(n)`, because the enum's definition is not part of this model. A scene's own behaviour is not modelled.
- AlgorithmScene.PartialSortByFitness: `std::partial_sort` is a library call. The model is a selection with the same guarantee: the result is a permutation whose first k entries are the fittest, in order. The order of the remaining entries is not specified, as in the library.
- AlgorithmScene.SceneAlgorithm.ResetGridAndPopulation: destroying the old "cell" entities, the entity-manager updates, and `initGrid`/`createCell` (the entities and components of the grid cells) are not modelled. The grid holds default handles.
- AlgorithmScene.CountCollisions: the cell values are read once up front; the source reads them twice, with nothing changing them in between. The colour and text output per cell is not modelled. The function requires n > 1, because the source divides by `m_gridSize - 1`. Nothing in src/Scene_Algorithm.cpp calls `updateCells`.
- `Scene_Algorithm::update`, `pause`, `sDoAction` and `onEnd`: a frame counter, a flag and a call to quit, with no logic of the core.
- The mutation, random-genes and elite rate sliders only clamp a number into [1, 100]. The model keeps that as part of the scene's Valid predicate.
- include/Timer.h names its type aliases `Clock`, `TimePoint` and `Milliseconds`, while src/Timer.cpp uses `Clock_t` and `Milliseconds_t`. The header also leaves out the `noexcept` of the definitions and does not declare `getTimeLimit`. The fields and the other methods have the same names in both files. The model follows src/Timer.cpp.
- `Animation::setScale`, `changeDirecHor` and `getSprite` are sprite operations. src/Animation.cpp defines only `getSprite`.

## Findings

| source | as written | input that shows it | evidently intended | confidence | as-written member | corrected member |
|---|---|---|---|---|---|---|
| src/Scene_Algorithm.cpp:149-152 | the slider writes the new size into `m_populationSize` before `sortElitePopulation`, so the elite amount is computed for the new size but `partial_sort` runs over the old population | growing from 1 individual to 1000 at a 10% elite rate asks for 100 elite entries of a 1-entry vector (past its end) | the elite amount capped at the current population | not executed | AlgorithmScene.SceneAlgorithm.ChangePopulationSizeAsWritten, AlgorithmScene.EliteSortOverrunsWhenGrowing | AlgorithmScene.SceneAlgorithm.ChangePopulationSize |
| src/Scene_Algorithm.cpp:154 | `initPopulation(prevPopulationSize - 1)` re-randomises from the last old individual | growing from one individual to two: the one old individual's gene is redrawn (an all-zero gene on a 4 × 4 grid becomes all ones when every draw is 1) and keeps the fitness of its old gene; releasing the slider at the old size redraws it too | re-randomise only the new individuals, from `prevPopulationSize` | not executed | AlgorithmScene.ReinitFromLastOldOverwrites, AlgorithmScene.SceneAlgorithm.ChangePopulationSizeAsWritten | AlgorithmScene.ReinitFromPrevSizeKeeps, AlgorithmScene.SceneAlgorithm.ChangePopulationSize |
