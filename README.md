# The Life Engine world: registry, bucket index, tick and restore bookkeeping

This project models the bookkeeping of `WorldEnvironment`, the world of The Life
Engine, in Dafny, and proves what that bookkeeping promises. It covers:

- **Organism registry**: the `organisms` array with its cached mutability
  total, largest cell count and reset count. Organisms are added with
  `addOrganism`, removed by position with `removeOrganisms` and
  `clearDeadOrganisms`, gated by `canAddOrganism` and averaged by
  `averageMutability`.
- **Spatial bucket index** (`spatialGrid`): a map from bucket key
  `(floor(c/20), floor(r/20))` to a set of organisms. It is written by
  `updateSpatialGrid`, read by `getNearbyOrganisms` and swept during removal.
  The index is *sound* (`Spatial.SoundIndex`) when every organism is
  registered in the bucket of its anchor and in no other bucket.
- **Per-tick loop** (`update`): walks the population from the last position to
  the first. Each organism that is not living, or whose `update()` reports
  death, is removed through `removeOrganisms([i])`. Then come the food pass,
  the tick count and the periodic stats hook.
- **Cell grid**: food spawning (`generateFood`), `changeCell` with its wall
  list, `reset` and the seed organism of `OriginOfLife`.
- **Restore** (`loadRaw`): the wall list, the species table rebuilt from the
  saved fossil record, the re-added organisms, species resolution and the
  hand-over of every species to the fossil record.

## Modules

- `types.dfy` (`Types`): cell states, organisms as the world sees them, species,
  the configuration knobs (Hyperparams and WorldConfig) and the restore snapshot.
  An organism's `id` stands for the identity of the JavaScript object.
- `registry.dfy` (`Registry`): reference definitions for removal by position
  (`Without`), mutability sums, the descending sort, the registry invariant
  `Consistent`, and the living and dead positions a tick visits.
- `spatial.dfy` (`Spatial`): bucket keys, insertion, the nine-cell removal sweep
  and its set-level meaning (`Evict`, `Purged`).
- `food.dfy` (`Food`): the number of food trials, the cells picked from a
  supply of random draws, and what a cell becomes.
- `restore.dfy` (`Restore`): the species table and species resolution.
- `world.dfy` (`World`): the class `WorldEnvironment`, whose methods change its
  fields in place. It also holds the lemmas connecting one removal at a time,
  as `update` performs them, to the removal of all dead positions at once.

Three points of the code shape the model:

- **Insertion uses one bucket.** `updateSpatialGrid` inserts an organism into
  its anchor bucket only, not into the 3×3 neighbourhood of buckets around it.
- **Removal sweeps nine cells, not nine buckets.** It visits the buckets of the
  nine cells `(c±1, r±1)`. These always include the anchor bucket
  (`Spatial.AnchorSwept`) and never reach further than the adjacent buckets
  (`Spatial.SweepNear`).
- **Removal is one position at a time.** `update` removes the dead one position
  at a time inside its loop, not as one batch. `World.TickedRemoval` and
  `World.RemovedOnTop` prove that the result equals a single batch removal,
  and, from a consistent start, has the same mutability total.

Collaborators are replaced by parameters:

- `outcomes[j]` is what `update()` of the organism at position j returns.
- `draws` is the sequence of values `Math.random` returns.
- `Config` holds the Hyperparams and WorldConfig switches.
- `Genesis` holds the identity, grid centre and mutability of the organism that
  `OriginOfLife` creates.
- `ids` are the identities of the organisms `loadRaw` creates.
- The confirmation dialog of `reset` is the pair `confirmRequired` and `confirmed`.

## Model

| member | source | states |
|---|---|---|
| World.WorldEnvironment.constructor | src/Environments/WorldEnvironment.js:14-31 | A new world has no organisms, walls, buckets or fossil entries; zero totals and counters; a data update rate of 100; and an all-empty grid of the given size. |
| World.WorldEnvironment.UpdateSpatialGrid | src/Environments/WorldEnvironment.js:265-269 | The bucket index after the call is the index with the organism registered in the bucket of its anchor, that bucket created if missing. |
| Spatial.InsertFinds | src/Environments/WorldEnvironment.js:265-269 | Registering adds only the anchor bucket as a key; the organism is then found from its own position; every other bucket is untouched; and the anchor bucket gains at most this organism. |
| Spatial.BucketKeyBounds | src/Environments/WorldEnvironment.js:266 | Bucket (kc, kr) is the square of side 20 that holds (c, r), for negative positions as well, as `Math.floor` of the quotient gives. |
| World.WorldEnvironment.GetNearbyOrganisms | src/Environments/WorldEnvironment.js:271-274 | A query returns the organisms of the bucket holding (c, r), or the empty set when that bucket was never created. |
| Spatial.InsertAllFinds | src/Environments/WorldEnvironment.js:239-242 | After a sequence of registrations, every registered organism is found from its own position. |
| World.WorldEnvironment.AddOrganism | src/Environments/WorldEnvironment.js:110-117 | The organism is appended; the total rises by its mutability; the largest cell count becomes the max of the old value and its cell count; it is findable through getNearbyOrganisms. With a fresh identity and non-negative mutability the registry invariant is kept. When its identity was in no bucket, a sound index stays sound. |
| Registry.ConsistentAfterAdd | src/Environments/WorldEnvironment.js:110-117 | Appending an organism keeps the registry invariant: distinct identities, non-negative mutabilities, total equal to the sum, and every cell count bounded by the cached largest. |
| World.WorldEnvironment.CanAddOrganism | src/Environments/WorldEnvironment.js:119-121 | True exactly when the population is below the cap, and always when the cap is negative. |
| World.WorldEnvironment.AverageMutability | src/Environments/WorldEnvironment.js:123-130 | Zero for an empty population; the global value in global-mutability mode; otherwise, for a consistent registry, a non-negative mean whose product with the population size is the sum of the mutabilities. |
| World.WorldEnvironment.ChangeCell | src/Environments/WorldEnvironment.js:132-138 | Exactly the one cell changes, to the given state; the wall list grows by that cell exactly when the state is a wall. |
| Registry.SortDesc | src/Environments/WorldEnvironment.js:66 | The positions are sorted strictly descending, with the same length and the same members as the input. |
| Registry.DescendingPrefix | src/Environments/WorldEnvironment.js:66-69 | Walking the sorted positions, each next position lies below every position already spliced. |
| Registry.SpliceBelow | src/Environments/WorldEnvironment.js:69-83 | Splicing position i after removing only higher positions removes exactly the organism originally at i. This is why the descending order is sound. |
| Registry.WithoutOrdered | src/Environments/WorldEnvironment.js:63-84 | The survivors of a removal are the organisms at the kept positions, in their original relative order. |
| Registry.WithoutMembers | src/Environments/WorldEnvironment.js:63-84 | Every organism at a kept position survives, and every survivor comes from a kept position. |
| Registry.RemovedExactly | src/Environments/WorldEnvironment.js:63-84 | With distinct identities, an organism survives if and only if its position was not removed. |
| Registry.WithoutLength | src/Environments/WorldEnvironment.js:90 | A removal empties the population if and only if every position was removed. |
| Registry.SumSplit | src/Environments/WorldEnvironment.js:67-71 | The mutability of the removed organisms plus that of the survivors is the mutability of the whole population. |
| Registry.Clamp | src/Environments/WorldEnvironment.js:86-87 | The clamped total is never negative: a negative value becomes 0, any other value is kept. |
| Registry.ConsistentAfterRemoval | src/Environments/WorldEnvironment.js:63-87 | Removal keeps the registry invariant, with the total lowered by the removed mutability and clamped at zero. |
| Registry.EmptyRemoval | src/Environments/WorldEnvironment.js:63-87 | An empty index list removes no organism and accounts for no mutability. |
| Spatial.SweepBuckets | src/Environments/WorldEnvironment.js:73-81 | The nine-cell loop deletes the organism from exactly the existing buckets of the cells (c±1, r±1), creating and dropping none. |
| Spatial.EvictPrefixIsEvict | src/Environments/WorldEnvironment.js:74-80 | Deleting bucket by bucket along the visited cells equals deleting at once from every existing visited bucket. |
| Spatial.AnchorSwept | src/Environments/WorldEnvironment.js:74-81 | The sweep always reaches the bucket that insertion used. |
| Spatial.SweepNear | src/Environments/WorldEnvironment.js:74-76 | Every swept bucket is the anchor bucket or adjacent to it. |
| Spatial.EvictExtendsPurge | src/Environments/WorldEnvironment.js:69-81 | One more organism's sweep extends the set-level purge by that organism. |
| Spatial.PurgeUnion | src/Environments/WorldEnvironment.js:69-81 | Two rounds of sweeps are the sweeps of both sets of organisms. |
| Spatial.PurgedLeavesNoTrace | src/Environments/WorldEnvironment.js:74-81 | An organism registered only in its anchor bucket, and not moved since, is in no bucket after its sweep. |
| Spatial.InsertSound | src/Environments/WorldEnvironment.js:265-269 | Registering an organism whose identity is in no bucket keeps every registered organism in its anchor bucket and no other, places the new one the same way, and adds no other identity anywhere. |
| World.PurgeSound | src/Environments/WorldEnvironment.js:69-84 | With distinct identities, removal by position keeps every survivor in its anchor bucket and no other, and leaves each removed organism in no bucket. |
| World.RemovalSound | src/Environments/WorldEnvironment.js:63-97 | removeOrganisms, auto-reset included, keeps the index sound and leaves every removed organism in no bucket, when the identities are distinct and the seed's identity was in no bucket. |
| World.TickedSound | src/Environments/WorldEnvironment.js:35-40 | After update's loop the index is sound, and every organism the loop removed is in no bucket. |
| Spatial.PurgeKeepsUnregistered | src/Environments/WorldEnvironment.js:77-79 | An identity in no bucket stays in none after the sweeps. |
| Spatial.PurgeShrinks | src/Environments/WorldEnvironment.js:77-79 | Sweeps never add to a bucket. |
| Spatial.StaleEntryAfterMove | src/Environments/WorldEnvironment.js:74-81 | An organism whose sweep, from the position it moved to, misses the bucket it was registered in keeps its entry there: removal tolerates a moved organism silently. |
| Spatial.StaleEntryExample | src/Environments/WorldEnvironment.js:74-76 | A move from (19, 0) to (21, 0) is such a move: bucket (0, 0) lies outside the second sweep. |
| World.WorldEnvironment.SpliceOut | src/Environments/WorldEnvironment.js:64-84 | The population becomes the survivors of the given positions; the index is purged of the removed organisms; and the accumulated mutability is exactly theirs. |
| World.ExtinctionOf | src/Environments/WorldEnvironment.js:89-97 | An extinction is reported if and only if a non-empty population was emptied; the auto-reset case holds if and only if it was emptied, auto-pause is off and auto-reset is on. |
| World.RemovalLedger | src/Environments/WorldEnvironment.js:63-97 | Unless an auto-reset ran, the total after a removal is not negative and the population did not grow. |
| World.WorldEnvironment.PopulationCheck | src/Environments/WorldEnvironment.js:89-97 | Pause, auto-reset (reset count plus one, then reset without confirmation, which seeds life again) or nothing, exactly when the population went from non-empty to empty; otherwise nothing changes. |
| World.WorldEnvironment.RemoveOrganisms | src/Environments/WorldEnvironment.js:63-98 | For distinct in-range positions, the bookkeeping after the call is the reference removal, the reported extinction is `ExtinctionOf`, and the registry invariant is kept. From a sound index over distinct identities, with the seed's identity in no bucket, the index stays sound and every removed organism is in no bucket. The grid, ticks and walls change only through an auto-reset. |
| World.WorldEnvironment.ClearDeadOrganisms | src/Environments/WorldEnvironment.js:154-162 | The call removes exactly the positions whose organism is not living; unless an auto-reset replaced the population, every organism left is living. From a sound index over distinct identities, with the seed's identity in no bucket, the index stays sound and no removed organism is in any bucket. |
| World.WorldEnvironment.DeadPositions | src/Environments/WorldEnvironment.js:155-160 | The list holds each position of an organism that is not living exactly once and no other position, and every entry is in range. |
| World.SurvivorsLiving | src/Environments/WorldEnvironment.js:154-162 | After removing the positions of organisms that are not living, every organism left is living. |
| Types.GenesisOrg | src/Environments/WorldEnvironment.js:100-105 | The seed organism is living, sits at the grid centre and has three cells. |
| World.WorldEnvironment.OriginOfLife | src/Environments/WorldEnvironment.js:100-108 | Adds the seed organism as addOrganism does, keeping a sound index sound when its identity was in no bucket, and appends its species, stamped with the current tick, to the fossil record. |
| Food.Filled | src/Environments/WorldEnvironment.js:184 | A preserved wall stays a wall; every other cell becomes empty. |
| World.WorldEnvironment.FillGrid | src/Environments/WorldEnvironment.js:184 | Every cell becomes `Filled` of its old state. |
| World.WorldEnvironment.Reset | src/Environments/WorldEnvironment.js:179-192 | Refused with nothing changed when a required confirmation is missing. Otherwise: zero ticks; no organisms, or only the seed organism; a total of zero, or the seed's mutability; a cleared or re-seeded fossil record; a refilled grid; the registry invariant holds; and the index is sound when the seed's identity was in no bucket. The bucket index, largest cell count and walls are not cleared. |
| Food.NumFood | src/Environments/WorldEnvironment.js:165 | A food pass makes at least one trial. |
| Food.NumFoodBounds | src/Environments/WorldEnvironment.js:165 | The trial count is the floor of the expectation cols·rows·prob/50000 when that is at least 1, and 1 otherwise. |
| Food.OneTrialOnFullGrid | src/Environments/WorldEnvironment.js:165-170 | At probability 1 on 50000 cells a pass makes one trial, and that trial picks a cell. |
| Food.PickCell | src/Environments/WorldEnvironment.js:169-170 | Two draws in [0, 1) pick a cell inside the grid. |
| Food.TargetsInRange | src/Environments/WorldEnvironment.js:167-176 | A pass of k trials picks at most k cells, each inside the grid. |
| Food.FoodPassChanges | src/Environments/WorldEnvironment.js:167-176 | Any set of cells that a pass of k trials picked lies inside the grid and holds at most k cells. |
| Food.Fed | src/Environments/WorldEnvironment.js:172-173 | An empty cell that some trial picked becomes food; every other cell keeps its state. |
| World.WorldEnvironment.GenerateFood | src/Environments/WorldEnvironment.js:164-177 | After the pass, every cell is `Fed` of its old state. Every changed cell was empty, is now food and was picked by some trial. At most `NumFood` cells change. The wall list is unchanged. |
| Registry.LivingFromCalls | src/Environments/WorldEnvironment.js:35-37 | A tick calls update() exactly on the positions of living organisms, each once, from the highest position down. |
| World.TickedStart | src/Environments/WorldEnvironment.js:35 | Before the loop has visited any position, nothing is removed. |
| World.TickedKeep | src/Environments/WorldEnvironment.js:36-37 | Keeping a living organism whose update() succeeded moves the loop one position down without changing anything. |
| World.TickedRemoval | src/Environments/WorldEnvironment.js:37-38 | Removing position i alone, after the removals above it, leaves the bookkeeping that removing all the dead at once from the start would leave, except the mutability total; and, from a consistent start, the same mutability total. |
| World.RemovedOnTop | src/Environments/WorldEnvironment.js:38 | One more single-position removal below the earlier ones is the removal of the union from the start, except the mutability total, with the same extinction; and, from a consistent start, the same mutability total. An extinction can only happen at position 0. |
| Registry.ClampStep | src/Environments/WorldEnvironment.js:86-87 | For a non-negative mutability, clamping after each removal equals clamping once. |
| World.WorldEnvironment.TickStep | src/Environments/WorldEnvironment.js:36-39 | update() runs exactly when the organism is living, and the loop state moves one position down. |
| World.WorldEnvironment.TickOrganisms | src/Environments/WorldEnvironment.js:35-40 | The calls are the living positions, highest first. The bookkeeping is the reference removal of every position that was not living or whose update() reported death, and survivors keep their order. |
| World.WorldEnvironment.Update | src/Environments/WorldEnvironment.js:33-48 | The result of the organism loop, then a food pass exactly when the drop probability is positive, then the tick count one higher. The stats hook fires if and only if the new tick count is a multiple of a non-zero update rate. From a sound index over distinct identities, with the seed's identity in no bucket, the index stays sound and every organism removed in the tick is in no bucket. |
| World.WorldEnvironment.LoadWalls | src/Environments/WorldEnvironment.js:227-229 | Every saved wall is appended, in order, after the walls already listed. |
| Restore.InitialSpecies | src/Environments/WorldEnvironment.js:232-237 | One species per saved record entry, with its name and start tick and without anatomy. |
| World.RestoredAllAt | src/Environments/WorldEnvironment.js:239-241 | The restored population holds, position by position, each saved organism rebuilt alive with its own identity. |
| World.LargestOfBounds | src/Environments/WorldEnvironment.js:114-115 | The running largest cell count is at least its start, bounds every organism's cell count, and is its start or one of those counts. |
| World.WorldEnvironment.RestoreOne | src/Environments/WorldEnvironment.js:239-255 | One saved organism is rebuilt and added as addOrganism does, and the species table becomes `Resolve` of the old one. |
| World.WorldEnvironment.RestoreOrganisms | src/Environments/WorldEnvironment.js:239-255 | The saved organisms are re-added in snapshot order, with the total, largest cell count and bucket index grown by them, and the species table resolved for each in turn. |
| Restore.FirstNamed | src/Environments/WorldEnvironment.js:243-252 | The first position naming a species, or the length when none does. |
| Restore.ResolvedName | src/Environments/WorldEnvironment.js:243-253 | A name no organism uses keeps its entry. A used name has a species of that name. That species is stamped with the table's start tick, or the snapshot's tick count when it was missing. Its anatomy is the table's, or else that of the first organism naming it. |
| Restore.EveryOrgLinked | src/Environments/WorldEnvironment.js:253-254 | Every restored organism ends linked to a species whose name is its own species name. |
| Restore.AnatomyFromFirst | src/Environments/WorldEnvironment.js:248-252 | After a restore from the saved table, every linked species has the anatomy of the first organism naming it; later organisms do not replace it. |
| World.WorldEnvironment.RecordSpecies | src/Environments/WorldEnvironment.js:256-257 | The fossil record grows by one entry per species name; every species of the table is among the new entries, and every new entry is a species of the table. |
| World.WorldEnvironment.LoadRaw | src/Environments/WorldEnvironment.js:221-257 | The population is exactly the restored organisms in snapshot order; the walls are the old walls plus the saved ones; the species table is the resolved saved table; and the fossil record holds exactly its species. |

## Left out

- Rendering (`render`, `renderFull`, every renderer call): canvas and DOM
  work with no bookkeeping.
- `resizeGridColRow` and `resizeFillWindow`: besides their canvas work they
  call `GridMap.resize`, which reallocates the grid. `GridMap.resize` is left
  out along with `GridMap`; the model's grid keeps the size it was created
  with.
- The pause button click, the `confirm` dialog and the `#override-controls`
  checkbox: the pause is reported as the `Paused` outcome and the dialog answer
  is a parameter. Loading saved Hyperparams is not modelled.
- `Math.random`: replaced by a supplied sequence of draws in [0, 1).
- Floating point: mutabilities and the drop probability are exact reals, not
  IEEE doubles.
- `Organism.update()`: reduced to its boolean answer. Its movement,
  reproduction and death side effects are not modelled, so organisms keep
  their positions within a tick. `Organism.updateGrid`, `die`, `serialize` and
  `loadRaw` are not part of this model either.
- `Environment.changeCell` (the superclass): modelled as setting the grid cell.
  The cell's owner argument is dropped.
- `GridMap` is not part of this model beyond a two-dimensional array of cell
  states. `grid_map.loadRaw`, `cellAt`'s null for out-of-range cells and the
  grid centre are left out; the centre is a parameter.
- Species.js and FossilRecord.js are not part of this model. A species is its
  name, anatomy and start tick; `calcAnatomyDetails` is not modelled.
  `FossilRecord.addSpecies` and `addSpeciesObj` append to a list;
  `clear_record` empties it. `FossilRecord.updateData` is reported as a
  boolean by `Update`. `FossilRecord.loadRaw` is not modelled.
- `serialize` and the final `overwriteNonObjects` of `loadRaw`: the scalar
  fields that would overwrite the restored totals come from an unseen helper.
- LoadRaw: the grid is neither resized to the snapshot's columns and rows nor
  reloaded from the snapshot's cells, so `LoadRaw` keeps the old grid.
- LoadRaw: the mutability total, largest cell count and bucket index are stated
  as `loadRaw` leaves them before that final overwrite: grown from their old
  values, since `loadRaw` clears neither them nor the bucket index.
- RecordSpecies: the order in which species reach the fossil record follows
  the object's key order in JavaScript; the model states only that each
  species is handed over once per name.
- RemoveOrganisms: requires distinct, in-range positions. With a repeated
  position the source would splice two different organisms.
- ClearDeadOrganisms: `for ... in` produces positions as strings; the model
  uses numbers, which index the array the same way.
- Update, TickOrganisms, TickStep: the mutability total after the loop is
  stated (through `Ticked`) only when the starting registry is consistent.
  Otherwise clamping after each removal can differ from clamping once.
- GenerateFood: requires enough draws for three per trial (one for the
  probability test, two for the cell), and a grid with at least one column
  and one row. On an empty grid the source still makes one trial, picks
  column or row 0 and throws at src/Environments/WorldEnvironment.js:172,
  reading `.state` of the null that `cellAt` returns. Update carries the same
  requirement whenever the drop probability is positive.
- Update: an organism's update() is modelled as leaving its position unchanged, so the buckets
  swept are those of its current position; a move would leave a stale entry,
  as `Spatial.StaleEntryAfterMove` shows.
