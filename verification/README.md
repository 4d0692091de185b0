# Verified model of the animation, caching, protocol and streaming core

A Dafny model of the parts of mr-crabs that keep state in place or compute a result by a
shortcut, with proofs that the state stays consistent and that the shortcuts are right.
`dafny verify dfyconfig.toml` checks everything.

**Animation effects** (`Schedule`, `TrackerSpec`, `ChangeTracker`, `EffectsSpec`, `EffectsModel`,
and the proofs in `TrackerProofs`, `SlotProofs`, `ScrollProofs`, `HorizonProofs`, `EffectsProofs`,
`OrderProofs`, `FrameProofs`).
The tracker keeps a key and a change time per cell and one cached number, the latest time, that
alone decides whether another frame is scheduled. Two of its operations upset that number; the
frame step repairs it on every path. The proofs show that the decision is exact after every run,
say what each kind of frame does to each cell and which time it gets, bound how far times run ahead, and show when the
order of rows in a frame matters. The classes are proved equal to functions on values; the theorems are
about those functions.

**Render cache** (`FillBatch`, `FillProofs`, `RenderCache`). The cache merges row deltas into a
sorted list in place. The list stands for a map, and after every run it is the map of the latest
deltas. Filling a row tiles its background and cuts its text into runs, and the lookup from a
glyph byte to a column undoes the building of the clusters.

**Reply scanner** (`AnimationReply`, `ReplyProofs`, `ReplyScanner`, `ScanProofs`). A state machine
over bytes separates replies from keystrokes within fixed caps. It loses, invents and reorders
nothing until it overflows, it overflows only at its caps, and encoded replies come out as they went in.

**Generators, geometry and restore** (`Payloads`, `Workloads`, `PayloadText`, `RecordCount`,
`Hashing`, `Termbench`, `FrameDecoding`, `ChunkStream`, `Selection`, `Restore`). Chunked sources
equal their per-byte definitions for every chunk size, the greedy record count is optimal, the
frames of the terminal benchmark say what they should to a terminal that reads them, selection
rectangles cover an exact set of cells, and restoring accepts exactly the well-formed trees.

`Basics`, `Utf8` and `Sequences` hold what the components share; `Terminal` is the data they receive.

Conventions: `f64` and `f32` values are reals. A byte is a `char`. Sizes and counters are natural
numbers; the wrap-around of sixteen-bit positions and thirty-two-bit text offsets is written out.
Vectors that the source reassigns or edits are sequence fields; the ten-byte digit buffer is an array.

## Findings

These are places where a promise holds only under a condition. The model states the condition, for
all inputs, and gives an input that fails.

- `resize` and `adopt_rows` each can break the agreement of the cached time; `ResizeAgreesWhen` and
  `AdoptionAgreesWhen` say when (`ResizeCanBreakAgreement`, `AdoptionCanBreakAgreement`).
  `TextStepRestoresLast` shows that every frame repairs it.
- After `set_config` disables text, the last `needs_frame` can outlive the emptied lists until the
  next frame (`SetConfigLeavesDecision`, `DecisionCanBeStale`).
- For a Full frame the order of rows decides whether it counts as a scroll, because the acceptance
  test skips the delta delivered last (`AcceptanceFollowsLastRow`), and with it what the frame leaves
  behind (`FrameOrderDoesNotMatter`, `OrderCanMatter`).
- `fill_chunk` writes the replaced byte only at the end of a chunk, so a chunk that runs across the
  end of the ten MiB differs from the payload in that byte (`ChunkIsPayload`, `ChunkCanDiffer`). The
  workload never asks for one. An empty chunk at that end indexes before its start (`FillChunk`).
- A Full frame is described as accounting for every row of the grid (cache.rs, lines 217-218). The
  truncation relies on that: a retained row above the last delta that the frame does not bring stays
  (`FullFrameLeavesItsRows`, `FullFrameCanKeepRow`).
- `selection_rects` ignores the kind of the selection. The documentation of `SelectionKind`
  (crates/mr-crabs-terminal/src/delta.rs, lines 86-95) describes a block for the rectangular kind;
  the model follows the code, and `BlockIsCoveredWhen` says when the two coincide.
- `cap_for` is documented as at least one cell, but is 0 for a grid without cells
  (`CapIsDocumentedWhen`, `CapCanBeZero`).

## Model

| member | source | states |
|---|---|---|
| `Schedule.SlotIsStaggered` | crates/mr-crabs-effects/src/schedule.rs:99-104 | the k-th timestamp of a burst lies exactly k staggers after its next one |
| `Schedule.BeginIsPunctual` | crates/mr-crabs-effects/src/schedule.rs:83-95 | a rebuild hands out nothing before the present and starts at most `MAX_AHEAD_MS` past it; a continuing burst never goes back behind its place, and a schedule that still lies in the future is one, unchanged |
| `Schedule.RebuildKeepsOrderWhen` | crates/mr-crabs-effects/src/schedule.rs:83-104 | all times of a later rebuild come after all times handed out before, so that adjacent rebuilds reveal in reading order, if and only if the burst is at most `MAX_AHEAD_MS` ahead of it or its last time is past |
| `Schedule.TypewriterSchedule.constructor` | crates/mr-crabs-effects/src/schedule.rs:48-54 | a new schedule is a fresh burst with that stagger |
| `Schedule.TypewriterSchedule.BeginBuild` | crates/mr-crabs-effects/src/schedule.rs:83-95 | the new fields are the burst continued or restarted at the present |
| `Schedule.TypewriterSchedule.NextTimestamp` | crates/mr-crabs-effects/src/schedule.rs:99-104 | returns the first free slot and consumes exactly one |
| `ChangeTracking.ChangeTracker.constructor` | crates/mr-crabs-effects/src/key.rs:109-122 | an unseen, unstamped tracker of `cap_for` cells |
| `ChangeTracking.ChangeTracker.Resize` | crates/mr-crabs-effects/src/key.rs:142-168 | the stored prefix survives, new cells are stamped with the resize time, the cached time is not touched |
| `ChangeTracking.ChangeTracker.StampChangedUnits` | crates/mr-crabs-effects/src/key.rs:237-294 | the first pass: keys stored, changed units stamped or cleared, schedule and both flags as the parse of the row into units says |
| `ChangeTracking.ChangeTracker.RestampUnits` | crates/mr-crabs-effects/src/key.rs:296-323 | the second pass: every drawable unit of an identical row takes a slot |
| `ChangeTracking.ChangeTracker.EditSpan` | crates/mr-crabs-effects/src/key.rs:236-327 | both passes and the recomputation of the cached time, on the tracked part of a row |
| `ChangeTracking.ChangeTracker.UpdateRowWithPolicy` | crates/mr-crabs-effects/src/key.rs:219-328 | the whole new tracker and schedule; rows outside the grid or of a known generation are left alone |
| `ChangeTracking.ChangeTracker.UpdateRow` | crates/mr-crabs-effects/src/key.rs:177-191 | an active schedule selects the unit policy with repeats, an idle one the every-cell policy |
| `ChangeTracking.ChangeTracker.ReconcileFullRow` | crates/mr-crabs-effects/src/key.rs:193-209 | a full repaint never restamps an identical row |
| `ChangeTracking.ChangeTracker.SyncRow` | crates/mr-crabs-effects/src/key.rs:402-427 | a bypassed row: key and generation taken over, a time kept exactly where the key is unchanged; reports whether a time was lost |
| `ChangeTracking.ChangeTracker.SyncRowsWithoutStamping` | crates/mr-crabs-effects/src/key.rs:400-436 | all rows in turn, and the cached time recomputed when a time was lost |
| `ChangeTracking.ChangeTracker.ClearChanges` | crates/mr-crabs-effects/src/key.rs:441-445 | all times forgotten, keys and generations kept |
| `ChangeTracking.ChangeTracker.AdoptRows` | crates/mr-crabs-effects/src/key.rs:447-467 | keys and generations taken over, the times of those cells forgotten, the cached time reset |
| `ChangeTracking.ChangeTracker.TranslateUpOne` | crates/mr-crabs-effects/src/key.rs:376-391 | keys and times shifted up by one row, the bottom unseen, generations forgotten, cached time recomputed |
| `TrackerProofs.RenderKeyIsInjective` | crates/mr-crabs-effects/src/key.rs:53-55 | equal render keys if and only if equal cells |
| `TrackerProofs.ScalarsAreNeverUnseen` | crates/mr-crabs-effects/src/key.rs:71-72 | no cell that holds a character has the never-seen key |
| `TrackerProofs.UpdateRowKeepsLast` | crates/mr-crabs-effects/src/key.rs:219-328 | an updated row keeps the cached time equal to the maximum of the whole array |
| `TrackerProofs.SyncRowsKeepsLast` | crates/mr-crabs-effects/src/key.rs:400-436 | synchronising keeps that agreement |
| `TrackerProofs.ClearedAdoptionAgrees` | crates/mr-crabs-effects/src/key.rs:441-467 | adopting after clearing restores the agreement from any state, with no time left |
| `TrackerProofs.ResizeAgreesWhen` | crates/mr-crabs-effects/src/key.rs:142-168 | resizing alone keeps the agreement if and only if: a larger grid is stamped no later than the cached time, a smaller one keeps a cell that holds it |
| `TrackerProofs.AdoptionAgreesWhen` | crates/mr-crabs-effects/src/key.rs:447-467 | adopting alone keeps the agreement if and only if the rows reach every cell that still has a time |
| `Witnesses.ResizeCanBreakAgreement` | crates/mr-crabs-effects/src/key.rs:142-168 | a new surface of one cell, resized to two columns, loses the agreement |
| `Witnesses.AdoptionCanBreakAgreement` | crates/mr-crabs-effects/src/key.rs:447-467 | so does a surface with one fresh letter that adopts no rows |
| `TrackerProofs.CapIsDocumentedWhen` | crates/mr-crabs-effects/src/key.rs:124-136 | the bound is the documented one, and at least one cell, if and only if the grid has cells |
| `Witnesses.CapCanBeZero` | crates/mr-crabs-effects/src/key.rs:124-136 | a grid without columns tracks no cell |
| `TrackerProofs.TrackedWhen` | crates/mr-crabs-effects/src/key.rs:211-217 | the cells of a delta that are looked at are exactly those that lie in the grid and within the bound |
| `TrackerProofs.BypassedCell` | crates/mr-crabs-effects/src/key.rs:400-467 | a synchronised or adopted row: every cell of the delta that lies in the grid and within the bound takes its key; adopted ones lose their time, synchronised ones keep it if and only if the key stays; every other cell is untouched |
| `TrackerProofs.UpdatedRow` | crates/mr-crabs-effects/src/key.rs:177-328 | one delta as a whole, under every policy: a row that is not new changes nothing; of a new one each cell that lies in the grid and within the bound ends with its key, the k-th unit to animate gets the k-th slot in all its cells, a wide glyph and its spacer share one slot (unless every cell is a unit), other units lose or keep their time, the schedule moves by the number of animated units, and every other cell of the grid is untouched |
| `TrackerProofs.KthUnitTakesKthSlot` | crates/mr-crabs-effects/src/key.rs:252-323 | under every policy each cell of the k-th unit to animate gets the k-th slot, `next + k * stagger` when the schedule is active |
| `TrackerProofs.WidePairIsOneUnit` | crates/mr-crabs-effects/src/key.rs:252-323 | where wide cells and spacers come in pairs, a wide cell and the spacer behind it are one unit; it animates if and only if it is drawable and either of the two cells changed, or the row is repeated |
| `TrackerProofs.WideGlyphSharesItsTime` | crates/mr-crabs-effects/src/key.rs:252-323 | so both cells end with the same time, and the spacer takes no slot of its own |
| `TrackerProofs.OtherUnitsTakeNoSlot` | crates/mr-crabs-effects/src/key.rs:280-289 | all other units take no slot: a changed one loses its time, an unchanged one keeps it |
| `TrackerProofs.WhoAnimates` | crates/mr-crabs-effects/src/key.rs:240-323 | which units animate: under the typewriter every drawable unit of an identical row and otherwise the drawable ones that changed, in a repaint only the latter, when streaming every changed cell |
| `TrackerProofs.EditedCell` | crates/mr-crabs-effects/src/key.rs:240-323 | every tracked cell of the row ends with its own key and the time its unit prescribes |
| `TrackerProofs.EditElsewhere` | crates/mr-crabs-effects/src/key.rs:240-323 | every other cell keeps key and time |
| `ScrollProofs.Pigeonhole` | crates/mr-crabs-effects/src/key.rs:357-374 | m distinct row numbers below m are all of them |
| `ScrollProofs.AcceptedScrollCoversRows` | crates/mr-crabs-effects/src/key.rs:357-374 | an accepted scroll with distinct rows covers every row above the bottom and shows there what the row below held |
| `ScrollProofs.LastRowIsNotAbove` | crates/mr-crabs-effects/src/key.rs:357-374 | in an accepted scroll the delta delivered last is not one that shows the row below it |
| `ScrollProofs.ShiftMatchesFrame` | crates/mr-crabs-effects/src/key.rs:357-391 | after the shift each row above the bottom holds the keys of the frame, and each time has moved with its cell |
| `ScrollProofs.ShiftForgetsBottom` | crates/mr-crabs-effects/src/key.rs:376-391 | after the shift the bottom row is unseen and unstamped, no row has a generation, and the cached time is the maximum of what remains |
| `Effects.EffectsModel.constructor` | crates/mr-crabs-effects/src/model.rs:67-100 | the new model, without a tracker when text animation is disabled |
| `Effects.EffectsModel.SetConfig` | crates/mr-crabs-effects/src/model.rs:108-136 | configuration and schedule replaced, tracker created, kept or dropped |
| `Effects.EffectsModel.CollectReveals` | crates/mr-crabs-effects/src/model.rs:365-390 | the lists of revealing and pending cells |
| `Effects.EffectsModel.UpdateGridRows` | crates/mr-crabs-effects/src/model.rs:252-281 | the rows of the grid in order, each with the first delta found for it, outside the animation region |
| `Effects.EffectsModel.UpdateDeliveredRows` | crates/mr-crabs-effects/src/model.rs:282-297 | the delivered rows in their own order |
| `Effects.EffectsModel.TextStep` | crates/mr-crabs-effects/src/model.rs:185-304 | every branch of the text part: scroll, full repaint, alternate screen, resize, large frame, streaming, typewriter |
| `Effects.EffectsModel.ApplyFrame` | crates/mr-crabs-effects/src/model.rs:159-327 | the whole new model and its output |
| `EffectsProofs.TextStepRestoresLast` | crates/mr-crabs-effects/src/model.rs:185-304 | whatever a resize upset before, the text part of a frame leaves the cached time equal to the maximum of the array |
| `EffectsProofs.FrameKeepsInvariant` | crates/mr-crabs-effects/src/model.rs:159-327 | every frame keeps the invariant: shapes, the cached time, no time before 0 other than the sentinel |
| `EffectsProofs.SetConfigKeepsInvariant` | crates/mr-crabs-effects/src/model.rs:108-136 | so does every change of configuration |
| `EffectsProofs.RunKeepsInvariant` | crates/mr-crabs-effects/src/model.rs:67-327 | the invariant holds after every run of frames and configuration changes |
| `EffectsProofs.CachedTimeDecides` | crates/mr-crabs-effects/src/model.rs:305-308 | the test on the one cached time is true if and only if some cell is still animating |
| `EffectsProofs.FrameRequestsExactly` | crates/mr-crabs-effects/src/model.rs:159-327 | after any run that ends in a frame, another frame is asked for if and only if a cell is revealing or pending or the trail is active |
| `EffectsProofs.SetConfigLeavesDecision` | crates/mr-crabs-effects/src/model.rs:108-136 | a configuration change leaves that equivalence intact if and only if it does not disable text while only text asked for frames |
| `Witnesses.DecisionCanBeStale` | crates/mr-crabs-effects/src/model.rs:108-136 | a run that shows one letter and then disables text leaves a request without any listed cell |
| `EffectsProofs.ListedCellsAreAllowed` | crates/mr-crabs-effects/src/model.rs:159-327 | a frame allows reveals if and only if text is animated and the frame is eligible or lists a cell; so no listed cell is withheld, whatever the frame |
| `EffectsProofs.RevealListIsExact` | crates/mr-crabs-effects/src/model.rs:365-390 | the revealing list consists of exactly the animating cells that are not pending, each once, in row-major order, with their times |
| `EffectsProofs.PendingListIsExact` | crates/mr-crabs-effects/src/model.rs:365-390 | the pending list consists of exactly the typewriter cells whose time lies ahead, each once, in row-major order |
| `EffectsProofs.PositionsAscend` | crates/mr-crabs-effects/src/model.rs:383 | in a grid of sixteen-bit size row-major order of cells is reading order of positions |
| `EffectsProofs.PositionsDiffer` | crates/mr-crabs-effects/src/model.rs:383 | in a grid of sixteen-bit size two listed positions are equal only for the same cell |
| `EffectsProofs.RunStaysWithinHorizon` | crates/mr-crabs-effects/src/model.rs:185-304 | in every run under one configuration no stored time lies past `now + MAX_AHEAD_MS + (cap - 1) * stagger` (the present, when streaming) |
| `EffectsProofs.SilentPastHorizon` | crates/mr-crabs-effects/src/model.rs:159-327 | once rows stop arriving, text asks for no frame after that horizon plus the duration |
| `EffectsProofs.SilenceFollowsOutput` | crates/mr-crabs-effects/src/model.rs:67-327 | the same from the creation of a surface through any output followed by any silence |
| `HorizonProofs.TextStepWithin` | crates/mr-crabs-effects/src/model.rs:185-304 | the text part of one frame keeps every time between the given bounds |
| `SlotProofs.FrameTakesSlots` | crates/mr-crabs-effects/src/model.rs:252-281 | the rows of a frame together take consecutive slots: the schedule moves by the number of animated units of all of them |
| `SlotProofs.UnitTakesSlot` | crates/mr-crabs-effects/src/model.rs:252-281 | the k-th animated unit of a row takes the slot that follows those of all rows above it and of the units before it |
| `SlotProofs.FreshTimesAscend` | crates/mr-crabs-effects/src/model.rs:204-281 | over a whole frame that animates the grid the fresh times ascend strictly in reading order, from the present on |
| `SlotProofs.OrderHoldsAcrossFrames` | crates/mr-crabs-effects/src/model.rs:204-281 | and over two frames: every fresh time of the second comes after every fresh time of the first, when the schedule that the first leaves is at most `MAX_AHEAD_MS` ahead of the second or already past |
| `OrderProofs.SpansCommute` | crates/mr-crabs-effects/src/key.rs:219-467 | edits of disjoint stretches commute, with the cached time, for streaming, synchronising and adopting alike |
| `OrderProofs.OrderDoesNotMatter` | crates/mr-crabs-effects/src/key.rs:219-467 | deltas of distinct rows give the same tracker in every order |
| `OrderProofs.AcceptanceFollowsLastRow` | crates/mr-crabs-effects/src/key.rs:357-374 | reordering keeps a scroll accepted if and only if the same delta stays last |
| `OrderProofs.FrameOrderDoesNotMatter` | crates/mr-crabs-effects/src/model.rs:159-327 | two frames that differ only in the order of their distinct rows have the same effect and output if both count as a scroll or neither; where a repaint would show above the bottom row, by a generation or by a cell left as it is, if and only if |
| `Witnesses.OrderCanMatter` | crates/mr-crabs-effects/src/model.rs:159-327 | a two-row scroll and its reversal: one is accepted, the other not, and they leave different states |
| `FrameProofs.LargeFrameSynchronises` | crates/mr-crabs-effects/src/model.rs:185-304 | a frame that is not full, on an unchanged main screen, with more than sixteen deltas: the schedule does not move, a cell takes the key the deltas end with, and keeps its time if and only if no delta shows another key there |
| `FrameProofs.FreshFrameAdopts` | crates/mr-crabs-effects/src/model.rs:185-307 | a frame of the alternate screen, of another size, or the first full one: no cell has a time afterwards, each takes the key the deltas end with, nothing is listed or allowed, only the trail asks for a frame, and a full one starts the schedule anew |
| `FrameProofs.ScrollIsRecognised` | crates/mr-crabs-effects/src/model.rs:191-199 | what counts as a scroll, in plain terms: a full frame of the unchanged main screen and a whole tracked grid, whose scrollback stayed or grew by one row, and whose deltas but the last show what was one row below |
| `FrameProofs.ScrollMovesCells` | crates/mr-crabs-effects/src/model.rs:200-203 | in a scroll every row above the bottom takes over the keys and times of the row below it |
| `FrameProofs.ScrollAnimatesBottom` | crates/mr-crabs-effects/src/model.rs:229-251 | and the bottom row alone is updated, by its first delta, unless an animation of its own keeps it busy |
| `Terminal.FindRowIsFirst` | crates/mr-crabs-effects/src/model.rs:232-257 | of several deltas for a row the one delivered first is taken |
| `FrameProofs.RowIsLeftAlone` | crates/mr-crabs-effects/src/model.rs:229-297 | in any other frame that animates (full but not the first, or with at most sixteen deltas) a row without a delta, of a known generation, or in the animation region keeps all its keys and times |
| `FrameProofs.RowIsAnimated` | crates/mr-crabs-effects/src/model.rs:229-297 | and any other row ends exactly as if it alone had been updated, under the policy for the kind of frame, with the schedule that the rows above it leave |
| `FrameProofs.UnitsAreAnEighthApart` | crates/mr-crabs-effects/src/model.rs:209-281 | under the typewriter the units of a frame are timed one eighth of the duration apart, in reading order, from where the schedule begins; a full frame begins it anew |
| `FrameProofs.FrameListsCells` | crates/mr-crabs-effects/src/model.rs:305-309 | every frame lists exactly the cells whose time is not over, of the tracker it leaves: under the typewriter those whose time lies ahead as pending, all others as revealing with their times, each in row-major order |
| `FrameProofs.SetConfigKeepsTracker` | crates/mr-crabs-effects/src/model.rs:108-136 | a new configuration keeps every key and time as long as text stays animated, drops tracker and lists when it does not, starts with unseen cells when it is enabled, and always starts the schedule anew |
| `RowFilling.FillBackgrounds` | crates/mr-crabs-element/src/cache.rs:240-258 | the background rectangles of a row |
| `RowFilling.BuildClusters` | crates/mr-crabs-element/src/cache.rs:289-309 | text, glyph widths and cluster starts of a run |
| `RowFilling.FillSegment` | crates/mr-crabs-element/src/cache.rs:264-319 | the run of one segment of equal look, from its first drawable cell to its last |
| `RowFilling.FillBatch` | crates/mr-crabs-element/src/cache.rs:237-321 | backgrounds and runs of the row, behind what the batch still holds |
| `RowFilling.CellColForGlyphByte` | crates/mr-crabs-element/src/cache.rs:326-337 | the column that the lookup computes for a byte |
| `FillProofs.BackgroundsTile` | crates/mr-crabs-element/src/cache.rs:240-258 | the rectangles tile the row and neighbours differ in style or presentation flags |
| `FillProofs.OneRectPerColumn` | crates/mr-crabs-element/src/cache.rs:240-258 | every column lies in exactly one rectangle |
| `FillProofs.RunsHoldDrawables` | crates/mr-crabs-element/src/cache.rs:259-320 | each run has one look and begins and ends on a drawable cell; nothing drawable lies between runs |
| `FillProofs.OneRunPerDrawable` | crates/mr-crabs-element/src/cache.rs:259-320 | every drawable cell lies in exactly one run |
| `FillProofs.SourcesAreExact` | crates/mr-crabs-element/src/cache.rs:292-309 | the cells of a run that produce a cluster are exactly those that hold a character and are not spacers, listed in ascending order |
| `FillProofs.ClustersAreLaidOut` | crates/mr-crabs-element/src/cache.rs:292-309 | the text of a run is the texts of those cells (character and marks) one behind the other, and the k-th start is the byte where the k-th of them begins, modulo 2^32 |
| `FillProofs.CellTextIs` | crates/mr-crabs-element/src/cache.rs:292-309 | the text of a cell is its character, a blank for a NUL, followed by exactly the characters among the marks of the first entry that names its column, in order; nothing follows when no entry does |
| `FillProofs.CountedAsEncoded` | crates/mr-crabs-element/src/cache.rs:301-306 | offsets count each character with the length of its well-formed UTF-8 encoding |
| `FillProofs.ClusterStartsAlign` | crates/mr-crabs-element/src/cache.rs:292-309 | cluster starts ascend strictly and stay inside the text |
| `FillProofs.GlyphFindsItsCell` | crates/mr-crabs-element/src/cache.rs:289-337 | every byte of the text that a cell contributes to a run is mapped to the column of that very cell, over combining marks and wide glyphs |
| `FillProofs.EveryGlyphHasItsCell` | crates/mr-crabs-element/src/cache.rs:289-337 | every byte of a run's text lies in the text that some cell of the run contributes, and is mapped to the column of that cell |
| `FillProofs.LookupIs` | crates/mr-crabs-element/src/cache.rs:326-337 | for any run, a byte is mapped to the first column plus the widths of the clusters before the one that holds it, a missing width counting as one, and at most to the last sixteen-bit column |
| `FillProofs.EveryDrawableIsFound` | crates/mr-crabs-element/src/cache.rs:237-337 | the text of every drawable cell of a row stands in exactly one run, and each byte of it there is mapped to the column of the cell |
| `RenderCaching.AscendingIsCanonical` | crates/mr-crabs-element/src/cache.rs:193-225 | an ascending list of batches is determined by the map of its rows |
| `RenderCaching.MergeKeepsOrder` | crates/mr-crabs-element/src/cache.rs:200-216 | replacing or inserting at the moving index keeps the rows strictly ascending |
| `RenderCaching.MergeUpdates` | crates/mr-crabs-element/src/cache.rs:200-216 | and overrides exactly that row of the map |
| `RenderCaching.TruncationKeepsBelow` | crates/mr-crabs-element/src/cache.rs:217-221 | truncating drops the rows from the bound on, and only those |
| `RenderCaching.RenderCache.Rebuild` | crates/mr-crabs-element/src/cache.rs:193-225 | for every frame with ascending rows the in-place merge gives the old map overridden by the fills of the frame, for a Full frame without the rows past its last one, and stays ascending |
| `RenderCaching.RenderCache.ApplyFrame` | crates/mr-crabs-element/src/cache.rs:125-154 | new state and action for every frame with ascending rows, the room in the list being given |
| `RenderCaching.RenderCache.ResetForFontChange` | crates/mr-crabs-element/src/cache.rs:163-168 | empties the cache and asks for a rebuild |
| `RenderCaching.ActionIs` | crates/mr-crabs-element/src/cache.rs:125-154 | every frame in every state asks for a repaint, except a Clean one of the last sequence number when nothing is pending and its rows fit the list; it asks for an animation if and only if the cursor is visible and blinks; its number is the last one afterwards and nothing is pending |
| `RenderCaching.CacheHoldsLatest` | crates/mr-crabs-element/src/cache.rs:125-225 | after any run of frames and font changes the cache holds for each row the fill of its latest delta since the last font change and the last full frame that ended above it, and no other row |
| `RenderCaching.CleanFramesKeepRows` | crates/mr-crabs-element/src/cache.rs:125-154 | a Clean frame without rows never changes the rows, and asks for no redraw if and only if its sequence number is the last one and nothing is pending |
| `RenderCaching.FullFrameLeavesItsRows` | crates/mr-crabs-element/src/cache.rs:217-221 | a Full frame leaves exactly its own rows if and only if it brings every retained row above its last one |
| `RenderCaching.FullFrameCanKeepRow` | crates/mr-crabs-element/src/cache.rs:217-221 | in a new cache that was shown a Partial frame of row 0, a Full frame of row 1 alone leaves row 0 in place |
| `RenderCaching.CompleteFrameReplacesAll` | crates/mr-crabs-element/src/cache.rs:217-221 | so a Full frame that brings every row of the grid replaces everything |
| `ReplyProofs.SplitUndoesJoin` | crates/mr-crabs-app/src/animation_control.rs:415-435 | splitting at a separator undoes joining pieces without it |
| `ReplyProofs.StrictFieldsAccept` | crates/mr-crabs-app/src/animation_control.rs:415-435 | the join of exactly the expected keys with values is accepted, with those values |
| `ReplyProofs.StrictFieldsInvert` | crates/mr-crabs-app/src/animation_control.rs:415-435 | and nothing else is |
| `ReplyProofs.StrictFieldsRefuse` | crates/mr-crabs-app/src/animation_control.rs:415-435 | and why a list is refused: a piece without an equals sign or with a wrong key is an invalid field, a key repeated from before a duplicate, any other number of pieces a missing field |
| `ReplyProofs.PayloadIsCanonical` | crates/mr-crabs-app/src/animation_control.rs:343-412 | a payload parses to a reply if and only if it is what the encoder writes for that reply |
| `ReplyScanning.PushByteKeepsValid` | crates/mr-crabs-app/src/animation_control.rs:505-605 | every byte keeps the caps, the shape of the candidate in each state, and an overflowed scanner empty |
| `ReplyScanning.ReplyScanner.PushByte` | crates/mr-crabs-app/src/animation_control.rs:505-565 | one byte in every state, as coded: in `OscEsc` any byte but a backslash returns to `Osc` |
| `ReplyScanning.ReplyScanner.FinishCandidate` | crates/mr-crabs-app/src/animation_control.rs:575-597 | a finished candidate becomes a reply or goes to the keys unchanged, within the caps |
| `ReplyScanning.ReplyScanner.Push` | crates/mr-crabs-app/src/animation_control.rs:485-495 | the scanner after all bytes, ignored once overflowed |
| `ReplyScanning.ReplyScanner.DrainReplies` | crates/mr-crabs-app/src/animation_control.rs:497-499 | returns the replies and leaves none |
| `ReplyScanning.ReplyScanner.DrainKeyInput` | crates/mr-crabs-app/src/animation_control.rs:501-503 | returns the key bytes and leaves none |
| `ReplyScanning.OverflowIgnores` | crates/mr-crabs-app/src/animation_control.rs:485-495 | an overflowed scanner is unchanged by any input |
| `ScanProofs.PushesCompose` | crates/mr-crabs-app/src/animation_control.rs:485-495 | cutting the input differently changes nothing |
| `ScanProofs.FramesAreAccepted` | crates/mr-crabs-app/src/animation_control.rs:575-630 | every well-formed frame is accepted, with either introducer, key and terminator |
| `ScanProofs.AcceptedAreFrames` | crates/mr-crabs-app/src/animation_control.rs:575-630 | and only those are |
| `ScanProofs.ReplyRoundTrip` | crates/mr-crabs-app/src/animation_control.rs:343-605 | an encoded reply, with either terminator, comes out as exactly that reply |
| `ScanProofs.RepliesNameTheirKind` | crates/mr-crabs-app/src/animation_control.rs:363-401 | a snapshot is encoded under the key for the state and the answer to a request to save under its own, behind the seven-bit introducer |
| `ScanProofs.StreamRoundTrip` | crates/mr-crabs-app/src/animation_control.rs:343-605 | keys, escaped keys, encoded replies and any other control strings in any interleaving come out separated, complete and in order (a control string that is no reply unchanged among the keys), and the scanner ends in its ground state |
| `ScanProofs.ControlPasses` | crates/mr-crabs-app/src/animation_control.rs:505-605 | a whole control string, with either introducer and terminator, is one more reply or goes unchanged to the keys |
| `ScanProofs.OverflowsWhen` | crates/mr-crabs-app/src/animation_control.rs:505-605 | a byte makes the scanner overflow if and only if the open candidate has 4096 bytes, or what the byte completes does not fit 4096 key bytes or 32 replies |
| `ScanProofs.ShortSessionFits` | crates/mr-crabs-app/src/animation_control.rs:485-605 | so a session whose whole input has at most 4096 bytes, with at most 32 replies in it, never overflows |
| `ScanProofs.InputAccounts` | crates/mr-crabs-app/src/animation_control.rs:505-605 | what is completed and what is held is always exactly what was held and pushed, in order |
| `ScanProofs.SessionConserves` | crates/mr-crabs-app/src/animation_control.rs:485-605 | for any pushes and drains: until it overflows the input is in order the key bytes, the accepted frames and the held bytes; afterwards the scanner is empty |
| `ScanProofs.OverflowYieldsNothing` | crates/mr-crabs-app/src/animation_control.rs:485-573 | after an overflow no operation yields anything |
| `ScanProofs.SplitPushesAgree` | crates/mr-crabs-app/src/animation_control.rs:485-495 | cutting one push in two changes neither the scanner nor the account of the input |
| `ScanProofs.SameInputSameOutput` | crates/mr-crabs-app/src/animation_control.rs:485-605 | two sessions with the same input, however it is cut into pushes and whenever it is drained, account for it alike as long as neither overflows: same log, same key bytes, same replies, same held bytes |
| `Payloads.AsciiPeriod` | crates/mr-crabs-bench/src/payloads.rs:40-53 | the ASCII payload repeats every 832 bytes |
| `Payloads.AsciiCycle` | crates/mr-crabs-bench/src/payloads.rs:36-57 | each cycle of 32 bytes of the ASCII payload is the nine colour bytes and 23 copies of the next letter of the alphabet |
| `Payloads.RawAt` | crates/mr-crabs-bench/src/payloads.rs:60-90 | each byte of a cycle of 48 bytes of the mixed payload, in plain numbers: nine colour bytes, three scalars from U+4E00 on in three bytes each, thirty letters |
| `Workloads.FillPeriodPhase` | crates/mr-crabs-bench/src/workloads.rs:318-329 | the bytes from `offset` on of the infinite repetition of the seed; empty for an empty seed |
| `Workloads.UnicodeCjkTable` | crates/mr-crabs-bench/src/workloads.rs:350-359 | the table holds the three bytes of every scalar of the range |
| `Workloads.CjkWindow` | crates/mr-crabs-bench/src/workloads.rs:379-382 | the nine bytes of a cycle lie side by side inside the table and are that cycle's scalars |
| `Workloads.LetterWindow` | crates/mr-crabs-bench/src/workloads.rs:383-384 | the thirty letters of a cycle lie inside the tripled alphabet |
| `Workloads.FillUnicodePeriod` | crates/mr-crabs-bench/src/workloads.rs:371-389 | the raw 48-byte-cycle stream from `offset` on, for every offset and length |
| `Workloads.ThroughputPayload.FillChunk` | crates/mr-crabs-bench/src/workloads.rs:407-422 | the chunk, with the replaced byte only when the chunk ends there; it fails if and only if an empty chunk of the mixed payload lies at the end of the ten MiB |
| `Witnesses.ChunkCanDiffer` | crates/mr-crabs-bench/src/workloads.rs:414-421 | the two bytes across that end differ from the payload |
| `Workloads.ChunkIsPayload` | crates/mr-crabs-bench/src/workloads.rs:407-422 | a chunk equals the per-byte payload if and only if it does not run across the end of the ten MiB |
| `Workloads.ChunksJoinToPayload` | crates/mr-crabs-bench/src/workloads.rs:465-473 | for every chunk size the chunks join to the per-byte payload; past ten MiB if and only if a chunk boundary falls there |
| `Workloads.Identity` | crates/mr-crabs-bench/src/workloads.rs:465-474 | the streamed hash is that of the whole payload, whatever the chunk size |
| `PayloadText.RawIsUtf8When` | crates/mr-crabs-bench/src/payloads.rs:60-90 | the raw stream is valid UTF-8 if and only if it is cut where a scalar starts |
| `PayloadText.PayloadIsUtf8` | crates/mr-crabs-bench/src/payloads.rs:60-67 | cut at ten MiB the raw stream is not UTF-8, and with the replaced byte it is |
| `RecordCounting.TakePlace` | crates/mr-crabs-bench/src/workloads.rs:569-575 | taking the first occurrence loses nothing: any packing loses at most one place |
| `RecordCounting.RowRecordCount` | crates/mr-crabs-bench/src/workloads.rs:560-579 | the greedy scan returns the largest number of pairwise disjoint occurrences; 0 for an empty record |
| `Termbench.AppendDecimal` | crates/mr-crabs-bench/src/termbench.rs:81-103 | appends the minimal decimal form; the ten-byte buffer never overflows |
| `Termbench.AppendFrame` | crates/mr-crabs-bench/src/termbench.rs:165-185 | appends the frame: a cursor placement per row, then colours and character of each cell, with thirty-two-bit sums |
| `Termbench.TotalBytes` | crates/mr-crabs-bench/src/termbench.rs:190-199 | the length of the whole payload |
| `Termbench.StreamingIdentity` | crates/mr-crabs-bench/src/termbench.rs:221-286 | hash and byte total are those of the whole payload, for every chunk size |
| `FrameDecoding.DecimalIsMinimal` | crates/mr-crabs-bench/src/termbench.rs:81-103 | the decimal form of a value is the one digit string of that value without a leading zero |
| `FrameDecoding.CommandsReadBack` | crates/mr-crabs-bench/src/termbench.rs:114-136 | any list of commands is read back from its bytes, so the variable-width numbers delimit themselves |
| `FrameDecoding.FrameShows` | crates/mr-crabs-bench/src/termbench.rs:140-185 | a terminal that reads the bytes of a frame shows, in each of 25 rows and 81 columns, the letter and colours that the coordinates prescribe in plain numbers, whatever it showed before, and leaves every other cell as it was |
| `ChunkStreaming.CutIsWellCut` | crates/mr-crabs-bench/src/termbench.rs:288-291 | a payload can be cut into full chunks and a shorter last one |
| `ChunkStreaming.WellCutIsCut` | crates/mr-crabs-bench/src/termbench.rs:288-291 | in exactly one way |
| `ChunkStreaming.TermbenchChunks.constructor` | crates/mr-crabs-bench/src/termbench.rs:306-318 | the iterator has the whole payload to yield |
| `ChunkStreaming.TermbenchChunks.Next` | crates/mr-crabs-bench/src/termbench.rs:323-364 | yields a full chunk or the shorter rest and leaves what follows; nothing if and only if nothing is left |
| `ChunkStreaming.DrainAll` | crates/mr-crabs-bench/src/termbench.rs:323-364 | the iterator ends, and its chunks are the one good cut of what it had to yield |
| `ChunkStreaming.ChunkAll` | crates/mr-crabs-bench/src/termbench.rs:306-364 | the chunks join to the frames in order; all are full but the last, none is empty |
| `Selections.SelectionRects` | crates/mr-crabs-element/src/selection.rs:20-84 | a grid cell is covered if and only if its row-major position lies in the clipped span; rectangles are non-empty, inside the grid, at most one per row, top down, and their total length is the clipped length |
| `Selections.SelectedIsBetween` | crates/mr-crabs-element/src/selection.rs:1-60 | what is selected, in terms of the anchors: of an active selection under valid metrics the grid cells from one anchor to before the other, whichever comes first, where a start past the edge counts on into the following rows |
| `Selections.AnchorOrderDoesNotMatter` | crates/mr-crabs-element/src/selection.rs:38-42 | swapping the anchors or changing the kind changes nothing |
| `Selections.HighlightsAreDetermined` | crates/mr-crabs-element/src/selection.rs:20-84 | only one list of rectangles meets that description |
| `Selections.BlockIsCoveredWhen` | crates/mr-crabs-terminal/src/delta.rs:86-95 | for all anchors the covered cells are the block that the rectangular kind is documented to cover if and only if the selection stays in one row, spans whole rows, or shows nothing but its part of the last row |
| `Selections.BlockCanDiffer` | crates/mr-crabs-terminal/src/delta.rs:86-95 | a block of the left column of a two-by-two grid is not what is covered |
| `TreeRestore.RestoreTreeImpl` | crates/mr-crabs-app/src/restore.rs:382-421 | the recursion that threads the used panes is one scan over the leaves from left to right: the first faulty leaf decides the error, and without one the result is the tree with its ratios clamped |
| `TreeRestore.FaultIs` | crates/mr-crabs-app/src/restore.rs:382-401 | the reported fault is that of the first leaf that cannot be used: missing if no pane has its name, otherwise repeated |
| `TreeRestore.SortedIsDetermined` | crates/mr-crabs-app/src/restore.rs:369-372 | comparing sorted lists compares them as multisets |
| `TreeRestore.RestoreTree` | crates/mr-crabs-app/src/restore.rs:364-380 | succeeds if and only if the leaves name every pane exactly once and no other; otherwise reports the first faulty leaf, or the mismatch |
| `TreeRestore.ClampedKeepsPanes` | crates/mr-crabs-app/src/restore.rs:402-418 | clamping keeps the shape and the order of the leaves, lands in range, and changes nothing if and only if all ratios are in range |
| `TreeRestore.ClampedAgrees` | crates/mr-crabs-app/src/restore.rs:402-418 | the clamped tree is the only one with the shape, axes and panes of the state whose ratios are the saved ones where these lie in range, 0.1 where they lie below and 0.9 where they lie above |
| `TreeRestore.SaveAndRestore` | crates/mr-crabs-app/src/restore.rs:77-94 | restoring the snapshot of a tree gives it back if and only if its ratios are in range and the pane map holds its panes, each once |

## Left out

- Painting, windows, menus, accessibility, palettes, settings layers, keymaps and docks: presentation or simple fields.
- PTY sessions, signals, file and JSON input and output, timing and memory measurement: outside calls.
- The cursor trail and shader arithmetic: the trail enters a frame as its `active` flag alone.
- The packed `f32` bit patterns of change times: modelled as a function of the time that maps only the sentinel to the sentinel.
- Rounding of `f64` and `f32`, infinite metrics and NaN ratios: reals have none of them.
- Vector capacities: how much room a list has is the allocator's choice; the one test of it is an input of `RenderCache.ApplyFrame`.
- RenderCaching.RenderCache.Rebuild: requires ascending rows, as `apply_frame` documents.
- RenderCaching.CacheHoldsLatest: Clean frames carry no rows, as the terminal emits them.
- OrderProofs.FrameOrderDoesNotMatter: that two orders differ is claimed where a repaint would show above the bottom row; not where it would leave no generation there and every cell that it does not animate equals the cell below it, in key and time.
- FillProofs.GlyphFindsItsCell: requires rows of valid scalars whose wide cells and spacers come in pairs, and texts shorter than 2^32 bytes, which is where the stored offsets are exact.
- Effects.EffectsModel.ApplyFrame: frames carry natural row numbers; the animation region is compared with sixteen-bit wrap-around as in a release build.
- ChangeTracking.ChangeTracker.StampChangedUnits: one loop stands for the every-cell loop and the unit loop of the source, with one-cell units in the former; the local copy of the latest time, which nothing reads, is dropped.
- Termbench.StreamingIdentity: stands for both streaming passes; the hash step is a parameter, so no digest value is fixed. The number of frames is a natural number, without the 32-bit limit.
- Workloads.UnicodeCjkTable: the `|` of a UTF-8 marker with lower bits is written as `+`.
- Selections.SelectionRects: rectangles are in cells; scaling to pixels is a multiplication by the metrics.
- TreeRestore.RestoreTree: the pane map is the ascending list of its keys; errors are values instead of messages. `RestoreStore::apply`, which clears the model before it validates, is not modelled.
- `AnimationControl` and its `parse_osc`: the parser does not strip the key that the encoder writes, so the two are not inverse.
- Concrete pinned hashes and the scrollback and search workloads.
