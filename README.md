# Flappy Bird NEAT trainer — a verified model of one generation's game loop

The trainer evolves neural networks that play Flappy Bird. `eval_genomes` in
`app.py` runs one generation: every genome gets a network and a bird. The loop
then ticks until every bird has crashed. On each tick it:

- moves every bird and rewards its genome for surviving;
- shows each network the bird's height and its distances to the gap of the
  reference pipe, and lets the bird flap;
- scans every pipe against the birds, popping each visited bird that overlaps
  the pipe from the three parallel lists `birds`, `nets` and `ge` while it
  enumerates them (the bird that shifts into a popped slot is skipped, and is
  not tested against that pipe);
- spawns a new pipe and rewards every remaining genome when a pipe is passed;
- removes the pipes that have left the screen;
- pops the birds that left the screen vertically, again while enumerating,
  so one right after a popped bird stays until the next tick;
- scrolls the floor.

This project models that core in Dafny:

- `bird.dfy` (`BirdPhysics`): the bird's kinematics. `BirdState` holds a
  bird's fields. `Moved` and `Jumped` say what `move` and `jump` do to them.
  The class `Bird` updates its fields in place, proved against those two
  functions.
- `pipe.dfy` (`Pipes`): a pipe pair's gap geometry and its scrolling, with the
  class `Pipe`.
- `floor.dfy` (`Floor`): the two leap-frogging floor segments, with the class
  `Base`, and the invariant that they stay seamless.
- `removal.dfy` (`Removal`): what `list.pop(x)` does inside
  `for x, bird in enumerate(list)`. The enumeration index moves on after a
  pop, so the element that shifts into the freed slot is never visited.
  `Keep(s, hit)` is the list the loop leaves. It also models `list.remove` and
  the loop that applies it to each element of `rem`.
- `rules.dfy` (`Rules`): one tick of the loop as a function on values
  (`Tick`), built from the phases `Steered`, `Collided` and `Settled`.
  Fitness is kept per genome, indexed by the genome's position in the
  population. A genome whose bird is popped therefore keeps its fitness, as
  the genome objects do in the source.
- `tick_facts.dfy` (`TickFacts`): what a tick guarantees, and the loop
  invariant `Steady` that the set-up establishes and every tick keeps.
- `evaluator.dfy` (`Evaluator`): the class `Generation`. It holds the three
  lists (sequences of `Bird` objects and of network and genome indices), the
  fitness record, the `Pipe` objects, the score and the `Base`. `Tick` updates
  them in place exactly as the loop body does, popping while enumerating. Each
  method is proved to leave the snapshot of the objects' fields that the
  matching `Rules` function describes.

The randomness, the networks and the pixel-mask collision test are parameters:

- the height of a new pipe (`newHeight`, with `ValidHeight`);
- a `Policy`, mapping a network index and an observation to the network's
  first output;
- a `Collider`, mapping a pipe's gap and a bird's state to whether they
  overlap.

The sprite sizes are a `Sprites` parameter.

## Model

| member | source | states |
|---|---|---|
| BirdPhysics.Hatched | app.py:42-54 | a new bird is at (x, y), at rest (velocity 0, tick count 0), level (tilt 0), with its flap reference height equal to y |
| BirdPhysics.RawDisplacement | app.py:75 | the unclamped displacement vel·t + 1.5·t² after t ticks: 0 at t = 0, and never upward when the launch velocity is not upward |
| BirdPhysics.Displacement | app.py:74-82 | one move's displacement is at most 16; a raw fall of 16 or more becomes exactly 16; it is negative exactly when the raw displacement is, and then 2 more upward; otherwise it is the raw value |
| BirdPhysics.NextTilt | app.py:86-91 | a rising bird turns nose-up to 25 (or keeps a larger tilt); the tilt never exceeds 25 from at most 25; it changes only to 25 or by -20, and it decreases only when the bird is not rising, is at least 50 below its flap height and is above -90 degrees |
| BirdPhysics.Moved | app.py:67-91 | a move increments the tick count by one, leaves x, velocity and flap height unchanged, and changes y by exactly `Displacement`, which is never more than 16 |
| BirdPhysics.Jumped | app.py:58-65 | a flap sets velocity -10.5, resets the tick count to 0 and records the current y as the flap height; position and tilt are unchanged |
| BirdPhysics.MovedN | app.py:67-91 | n moves without a flap leave x and velocity unchanged and add n to the tick count |
| BirdPhysics.MoveKeepsTiltInRange | app.py:86-91 | moves and flaps keep the tilt within (-110, 25] |
| BirdPhysics.FirstMoveAfterJump | app.py:63-88 | the first move after a flap raises the bird by exactly 11 (-10.5 + 1.5 - 2) and sets its tilt to 25 |
| BirdPhysics.RiseIsNotCapped | app.py:75-82 | the third move after a flap displaces the bird by -20: the 16 cap applies only to falling |
| BirdPhysics.FallFromRest | app.py:72-84 | falling from rest, after n >= 3 moves the bird is 21 + 16(n-3) lower (1.5, 6, 13.5, then 16 per tick) |
| BirdPhysics.Bird.constructor | app.py:42-54 | the new bird's fields are `Hatched(x, y)` |
| BirdPhysics.Bird.Jump | app.py:58-65 | the bird's fields after `jump` are `Jumped` of those before |
| BirdPhysics.Bird.Move | app.py:67-91 | the bird's fields after `move` are `Moved` of those before |
| Pipes.Spawned | app.py:135-149 | a new pipe is at x, not passed, with height h, top = h - top sprite height, bottom = h + 200 |
| Pipes.Scrolled | app.py:151-152 | a pipe's move subtracts 5 from x and changes nothing else |
| Pipes.ScrollKeepsShape | app.py:146-152 | moving keeps a pipe's gap geometry, and the gap the collision test sees moves left by 5 |
| Pipes.Pipe.constructor | app.py:135-149 | the new pipe's fields are `Spawned(x, h, sprite height)` for a height h in [50, 450) |
| Pipes.Pipe.SetHeight | app.py:146-149 | sets height h, top h - top sprite height and bottom h + 200, keeping x and `passed` |
| Pipes.Pipe.Move | app.py:151-152 | the pipe's fields after `move` are `Scrolled` of those before |
| Floor.Scroll | app.py:210-221 | after a move each segment has moved left by 5 or has been placed one width right of the other; a segment is placed so exactly when its right edge went left of 0 |
| Floor.Seamless | app.py:206-221 | defines the floor's invariant: the segments lie exactly one width apart and neither segment's right edge is left of 0 |
| Floor.ScrollKeepsSeamless | app.py:210-221 | when the sprite is wider than one step (5), a move keeps the two segments exactly one width apart, and neither segment's right edge is left of 0 |
| Floor.ScrollNKeepsSeamless | app.py:206-221 | from the initial placement (0, width), any number of moves keeps the floor seamless |
| Floor.Base.constructor | app.py:200-208 | the floor starts at y with segments at 0 and width, and is seamless when the width exceeds 5 |
| Floor.Base.Move | app.py:210-221 | the segments after `move` are `Scroll` of those before, y is unchanged, and seamlessness is kept |
| Removal.Removed | app.py:360-364 | defines when the pop-while-enumerating loop pops position k: it is hit and its predecessor was not popped; only hit positions are popped, and a hit whose predecessor is not hit is always popped |
| Removal.Visited | app.py:360-364 | defines when the loop runs its body on position k: unless the predecessor was popped; the first position is always visited, and so is any position after one not hit |
| Removal.Keep | app.py:360-364 | defines the list the loop leaves, the elements at `Survivors` positions in order; it is no longer than the list and holds nothing new |
| Removal.Rest | app.py:360-364 | the loop itself, one turn per call (pop at index i and move to i + 1, or just move on); every element ends up exactly once either in what is left or among the popped ones (`Dropped`) |
| Removal.Dropped | app.py:335-340 | the elements the loop pops, in the order it pops them; all of them come from the list |
| Removal.Survivors | app.py:360-364 | for every position, whether it survives the pop-while-enumerating loop: it does unless it is hit and its predecessor was not removed |
| Removal.Gone | app.py:335-340 | for every position, whether the loop pops it |
| Removal.RemovedOnlyIfHit | app.py:336-338 | only elements whose test holds are popped (a restatement of `Removed`'s first postcondition, as a named lemma) |
| Removal.ShiftedElementSurvives | app.py:335-340 | the element right after a popped one is never visited and so always stays |
| Removal.NoHitKeepsAll | app.py:360-364 | when the test holds for nothing, the list is unchanged |
| Removal.AdjacentHitsKeepSecond | app.py:360-364 | in a two-element list whose elements both fail, only the first is popped; the general rule is `ShiftedElementSurvives` |
| Removal.KeepMember | app.py:335-340 | in a list without duplicates, an element is left exactly when the loop does not pop it |
| Removal.KeepIsSubseq | app.py:360-364 | the loop only removes elements, keeping the rest in order, and the number left is the same for every list scanned with the same tests |
| Removal.KeepEmbeds | app.py:338-340 | every list scanned with the same tests keeps the same positions, so parallel lists stay aligned |
| Removal.SubseqInherits | app.py:338-340 | removing elements brings in nothing new, keeps no duplicates and does not lengthen the list |
| Removal.TracksStep | app.py:360-364 | one turn of the loop: the element at the index is the next original one, popped exactly when its test holds, and the loop invariant is kept |
| Removal.TracksDone | app.py:360-364 | when the index runs off the end, the list is exactly `Keep` of the original |
| Removal.KeepByScan | app.py:360-364 | running the loop turn by turn from the start leaves exactly `Keep`, the survivors in order |
| Removal.DroppedByScan | app.py:335-340 | running the loop from the start pops exactly the elements `Gone` marks, in order |
| Removal.RemoveSelected | app.py:357-358 | `list.remove` of a selected element of a list without duplicates clears that element's mark in the selection |
| Removal.IndexOf | app.py:358 | the position where `list.remove` finds x: the first one holding x |
| Removal.RemoveFirst | app.py:358 | `list.remove(x)` leaves the list one shorter, with exactly one x fewer, the elements before the first x in place and those after it moved one to the left |
| Removal.KeptAfter | app.py:351-358 | after at most one new pipe is appended, removing the pipes noted in `rem` leaves the unnoted ones in order, followed by the new one |
| Removal.RemoveEach | app.py:357-358 | removing each element of `rem` in turn (first occurrence) leaves exactly the elements not in `rem`, in their order |
| Rules.PipeIndex | app.py:313-317 | the reference pipe is 1 exactly when there is more than one pipe and the lead bird's x is past the first pipe's right edge, else 0; it is a valid index |
| Rules.Observe | app.py:326-327 | the network input: the bird's y and its (non-negative) distances to the gap's top and bottom edges; the second postcondition (together they are at least the gap's height) only follows from their being absolute values |
| Rules.Act | app.py:322-330 | a bird's turn: it moves; if the network's output on the moved bird and the reference pipe exceeds 0.5 it then flaps, otherwise it is just moved |
| Rules.Credit | app.py:353-354 | defines the `fitness +=` loops over a genome list; the record keeps its length |
| Rules.CreditUnlisted | app.py:353-354 | a genome that is not listed keeps its fitness |
| Rules.CreditEffect | app.py:324 | with each genome listed once, crediting adds the amount exactly to the listed genomes and leaves every other genome's fitness unchanged |
| Rules.MoveBirds | app.py:322-330 | every bird acts on the reference pipe, nets and genomes are unchanged, and the lists stay aligned |
| Rules.Hits | app.py:336 | for every bird, whether it overlaps the pipe |
| Rules.CrashedGenomes | app.py:335-337 | the genomes whose fitness the scan lowers, in the order it pops their birds: all come from `ge`, and with each genome listed once, genome k is among them exactly when position k is popped |
| Rules.PassSeen | app.py:335-344 | the pass test: a pipe at px is seen passed by the first n birds exactly when some visited bird among them (the popped one included, the skipped ones not) has x greater than px |
| Rules.PassSeenFirst | app.py:335-344 | the first bird is always visited, so a pipe behind it is always marked passed |
| Rules.PassSeenStep | app.py:342-344 | the pass test runs on every visited bird, popped ones included, and not on skipped ones |
| Rules.Prune | app.py:338-340 | popping the same positions from the three lists keeps them aligned and does not touch fitness |
| Rules.PruneThins | app.py:338-340 | the pruned lists are the originals at the surviving positions, the same for all three |
| Rules.SubRosterTransitive | app.py:334-340 | thinning twice is thinning |
| Rules.SubRosterInherits | app.py:334-340 | a thinned roster has no new genome or bird and no duplicate genome when the original had none |
| Rules.ScanPipe | app.py:335-345 | the scan of one pipe keeps the lists aligned, never lengthens them, and never clears `passed` |
| Rules.ScanPipeThins | app.py:335-340 | the scan of one pipe only removes entries, together from all three lists |
| Rules.ScanPipeFitness | app.py:336-337 | a genome whose bird the scan pops loses exactly 1; every other genome keeps its fitness |
| Rules.Turn | app.py:334-349 | one pipe's turn keeps the lists aligned and adds one moved pipe and one removal mark |
| Rules.CollidePipes | app.py:332-349 | the pipe loop keeps the lists aligned and yields one moved pipe and one removal mark per pipe |
| Rules.CollidePipesEach | app.py:342-349 | every pipe moves by exactly 5 with its gap unchanged, `passed` is never cleared, and it is marked for removal exactly when its right edge was left of 0 before the move |
| Rules.CollidePipesLast | app.py:334-349 | the last pipe is scanned against the birds that the scans of the earlier pipes left |
| Rules.CollidePipesAddsOnFlip | app.py:342-344 | `add_pipe` is set exactly when some pipe's `passed` flag went from false to true in this loop |
| Rules.CollidePipesThins | app.py:334-340 | across all pipes, entries are only removed, together from the three lists |
| Rules.CollidePipesFitness | app.py:334-340 | across all pipes, a genome loses 1 exactly once if its bird was popped and nothing otherwise: a popped bird is not scanned again |
| Rules.OutOfBounds | app.py:361 | a bird is out of bounds exactly when y + its height >= 730 or y < 0 |
| Rules.Steered | app.py:322-330 | the steering phase keeps the lists aligned and the fitness record's length |
| Rules.Collided | app.py:332-349 | the pipe loop keeps the lists aligned and marks each pipe once |
| Rules.Settled | app.py:351-364 | the end of the loop body keeps the lists aligned and the fitness record's length |
| Rules.Tick | app.py:313-364 | a tick keeps the lists aligned and the fitness record's length; its behaviour is stated by the lemmas below |
| TickFacts.OnScreen | app.py:346 | for every pipe, whether its right edge is still at or right of 0 |
| TickFacts.TickThins | app.py:322-364 | after a tick, the birds, nets and genomes are the old entries at the same increasing positions, each bird having moved and acted: nothing is added, reordered or removed from one list only |
| TickFacts.TickFitness | app.py:322-364 | each genome's fitness changes by exactly +0.1 if its bird was playing, -1 if the pipe scan popped its bird, and +5 if a pipe was passed and its bird survived the scan |
| TickFacts.TickPipes | app.py:332-358 | every pipe moves left by 5 and keeps its gap; the off-screen ones go, the rest stay in order; a new unpassed pipe at 600 is appended, and the score rises by one, exactly when some pipe's `passed` flipped |
| TickFacts.TickBounds | app.py:351-358 | a tick raises the score by at most one and adds at most one pipe |
| TickFacts.Population | app.py:291-296 | the set-up gives genome i network i, a bird at (230, 350) and fitness 0 |
| TickFacts.Start | app.py:287-303 | the state before the first tick: score 0, one unpassed pipe at 600, and n birds with a fitness each |
| TickFacts.Steady | app.py:305-366 | defines the loop invariant: aligned lists, each genome once, every bird at 230, every pipe with the gap geometry of its height, and the newest pipe unpassed and, while birds are left, no more than one step behind them |
| TickFacts.StartSteady | app.py:291-303 | the state before the first tick satisfies the loop invariant `Steady` |
| TickFacts.SteadyPlaying | app.py:313-320 | while a bird is left, the loop body can run: there is a reference pipe |
| TickFacts.CollidedKeepsX | app.py:322-349 | every bird left after the pipe loop is still at x = 230 |
| TickFacts.LastPipe | app.py:332-349 | the newest pipe is not removed, and if it stays unpassed while a bird is left, it was at or right of the birds |
| TickFacts.TickKeepsSteady | app.py:313-366 | a tick with a bird left keeps `Steady`: the lists aligned, each genome once, birds at 230, pipes well shaped, and the newest pipe unpassed and not behind the birds by more than one step |
| TickFacts.TickKeepsRosterSteady | app.py:322-364 | a tick keeps the lists aligned, each genome once and every bird at x = 230 |
| TickFacts.TickKeepsPipesSteady | app.py:332-358 | a tick keeps every pipe well shaped and the newest pipe unpassed |
| TickFacts.PipesKeepShape | app.py:146-152 | every pipe after a tick has the gap geometry of its height |
| Evaluator.Generation.constructor | app.py:287-303 | the set-up: the generation satisfies its invariant and is exactly `Start(n, h)`, with the floor at 730 |
| Evaluator.Populate | app.py:291-296 | the set-up loop yields exactly `Population(n)`, with a distinct new bird per genome |
| Evaluator.Fly | app.py:323-330 | one bird's turn leaves its fields as `Act` says |
| Evaluator.Generation.Steer | app.py:322-330 | the steering loop leaves the lists as `MoveBirds` of those before on the reference pipe, including the +0.1 reward |
| Evaluator.Generation.Aim | app.py:313-330 | the reference pipe is chosen by `PipeIndex` and the birds are steered on it; pipes and score are unchanged |
| Evaluator.ScanPipeLists | app.py:335-344 | one pipe's scan of the three lists and the fitness record gives exactly `ScanPipe`; `flipped` is whether `passed` went from false to true |
| Evaluator.Sweep | app.py:335-344 | the pop-while-enumerating scan leaves `Keep` of each list, charges -1 to exactly the popped genomes, and sets `passed` as `PassSeen` says |
| Evaluator.TurnLists | app.py:334-349 | one pipe's turn on the lists extends the history of the loop by `Turn` |
| Evaluator.Generation.Advance | app.py:343-349 | the pipe's `passed` flag is set as the scan left it, then the pipe moves |
| Evaluator.Generation.PipeLoop | app.py:332-349 | the loop over the pipes follows `CollidePipes` step by step, and leaves the score unchanged |
| Evaluator.Generation.CollisionPhase | app.py:332-349 | the lists, fitness, pipes, `add_pipe` and `rem` after the pipe loop are exactly those of `CollidePipes` on the state before |
| Evaluator.Generation.Reward | app.py:353-354 | every genome still in `ge` gets +5 |
| Evaluator.Generation.Pass | app.py:351-355 | the score rises by one, every genome still in `ge` gets +5, and a new pipe of the given height at 600 is appended |
| Evaluator.Generation.RemovePipes | app.py:357-358 | the pipes left are exactly those not in `rem`, in their order |
| Evaluator.CullLists | app.py:360-364 | the cull loop leaves `Keep` of each of the three lists with the out-of-bounds tests |
| Evaluator.Generation.Cull | app.py:360-364 | the lists after the cull are `Prune` of those before by `OutOfBounds`, and only thinned |
| Evaluator.Generation.Clear | app.py:357-364 | the pipes noted for removal go, the rest stay in order followed by any new pipe, and the birds out of bounds are popped while the lists are enumerated (`Prune` by `OutOfBounds`), so one right after a popped bird stays until the next tick |
| Evaluator.Generation.Settle | app.py:351-364 | the state after the rest of the loop body is exactly `Settled` of the pipe loop's outcome |
| Evaluator.Generation.Play | app.py:313-364 | a loop body with birds left leaves exactly `Rules.Tick` of the state before |
| Evaluator.Generation.MoveBase | app.py:366 | the floor moves by `Scroll`, keeps its y, stays seamless, and the birds, lists, pipes and score are unchanged |
| Evaluator.Generation.Tick | app.py:305-366 | the run stops exactly when no bird is left, changing nothing, the floor included; otherwise the state becomes `Rules.Tick` of the old one and the floor scrolls; the floor's y never changes, and the invariant `Steady` is kept either way |

## Left out

- Drawing, the window, fonts, `draw_window`, `blitRotateCenter` and `Bird.draw`: these are not modelled. Drawing only reads the state, except that `Bird.draw` advances `img_count` and picks the animation frame, and that frame only affects drawing and the collision mask.
- The frame clock (`clock.tick`), the `QUIT` event handling and `quit()` are not modelled. The model's run ends only when no bird is left.
- The `GEN` counter, `run`, the NEAT configuration and population, and the network objects are not modelled. A network is its index, and its output on an observation is the `Policy` parameter.
- `Pipe.collide` and `Bird.get_mask` (pixel-mask overlap) are not modelled. They are the `Collider` parameter, which sees the pipe's gap and the bird's state.
- Rules.Hits: the source builds a bird's mask from `bird.img`, which `Bird.draw` picks from `img_count` and the bird's tilt (app.py:99-117, 127, 159). `BirdState` holds neither the animation frame nor `img_count`, so the model's collider answers alike for two birds in the same modelled state. The program may not: their animation frames can differ.
- `random.randrange(50, 450)` is not modelled. The height is a parameter constrained to that range.
- Sprite sizes are not modelled. They are the `Sprites` parameter, including one bird height for every animation frame.
- `Pipe.gap = 100` is not modelled. The field is set but never read.
- Rules.Credit: fitness is exact `real` arithmetic. The source adds 0.1 in binary floating point, which rounds, so the model's sums can differ from the program's in the last bits. Bird positions, by contrast, are multiples of 0.5 and are exact in both.
- BirdPhysics.Displacement: the terminal-velocity cap is often described as applying in both directions. The code (app.py:78-79) caps only displacements of 16 or more downward, and the model follows the code (see `RiseIsNotCapped`).
- Evaluator.Generation.PipeLoop: `passed` is written in the scan at the first bird ahead of the pipe. The model writes it once, after the scan, before `move`. Nothing reads the flag in between except the scan's own test.
- Evaluator.Generation.PipeLoop and Evaluator.Generation.Cull work on local copies of the three lists and the fitness record, then assign them back. The source mutates the lists in place. Nothing else reads the lists during these loops, so the outcome is the same.
- Evaluator.Generation.Steer: genomes are indices into the `fitness` record, not objects with a `fitness` field. Each genome appears once in `ge` (proved as part of `Steady`), so this matches the source's aliasing.
