# Colour-bomb booster of Animals Pop

This project models the colour-bomb booster (`ColorBubble`) of the Animals Pop bubble shooter
and proves what it does. The booster is shot like an ordinary bubble. When it strikes a bubble
that is not blank, while it is at or below that bubble and not yet spent, it is attached to the
field. Then, for each non-blank neighbour of the cell it took, in edge order, it runs a
breadth-first flood fill over that neighbour's colour. Each fill labels the bubbles it reaches
with their distance from the fill's root, and pops them in dequeue order once its queue is empty.
Finally the booster resets: floating bubbles are dropped, the field shifts, and the booster is
marked consumed and removed from the engine.

The model has four modules:

- `BubbleGraph` (`bubble_graph.dfy`) holds the bubble field as plain values.
  - Bubbles are indices into an arena, and every bubble has a list of neighbour indices.
  - `Color` is `Blank | Tint(id)`, and the unvisited mark is `-1`.
  - `Reaches(edges, allowed, root, x)` holds when some walk from `root` to `x` steps only onto bubbles in `allowed`.
  - `Admit(color, depth, c)` is the set of bubbles a fill of colour `c` may step onto: colour `c` and still unvisited.
- `FloodFill` (`flood_fill.dfy`) holds the loop invariant of the fill's queue loop and what a finished fill amounts to.
  - `BfsOrder` is an independent reference for a fill's delete list: breadth-first discovery written as a recursive function, where each dequeued bubble appends its admissible, not yet discovered neighbours in edge order.
  - `FillRun` says that one whole fill's delete list is `BfsOrder`, with the outcome and labels that order has.
  - `FillOutcome` is what a finished fill guarantees. `BfsLabels` is the depth labelling it leaves.
- `HitFills` (`hit_fills.dfy`) holds the account of one hit.
  - The seeds are the non-blank neighbours of the attached cell.
  - The fills share one set of marks. The predicates `Seeded`, `Fresh` and `Marked` say what they leave behind.
  - `FillChain` ties the fills together: fill `k` is the `FillRun` from seed `k` on the marks the fills before it left.
- `Booster` (`color_bubble.dfy`) holds the imperative model.
  - Class `BubbleSystem` is the field. It holds arrays for colour, neighbour lists, depth marks and vertical coordinates.
  - Class `ColorBubble` has the fields `y`, `consume` and `inEngine`. Its `trace` is the sequence of effects it caused, in order:
    - `GetBubble`, the field's attachment;
    - `PopBubble`;
    - `PopFloater`;
    - `ShiftBubble`;
    - the game events `BoosterAdded`, `BoosterShot`, `BoosterConsumed` and `BoosterRemoved`.
  - `Bfs` keeps the source's queue loop and its inner loop over neighbours. They are split into `Explore`, `VisitHead` and `OfferNeighbours`.
  - `OnBubbleHit` keeps the loop over the attached cell's neighbours, split into `FillNeighbours` and `VisitNeighbour`.

The marks (`mDepth`) are shared by every fill of a hit. The booster never resets them: a fill only steps onto bubbles that are unvisited and of its colour. The model follows this.
- A fill's delete list is exactly the set of bubbles its root reaches through bubbles that are unvisited and of its colour. This is `FillOutcome`.
- With clean marks, that set is the whole same-coloured region around the root. This is `FillComplete` and `HitComplete`.
- A later fill whose seed an earlier fill already popped pops only that seed. This is `HitRepeats`. It holds under the assumption stated under "## Left out" that popping leaves colours and marks unchanged during the hit.

## Model

| member | source | states |
|---|---|---|
| `BubbleGraph.ReachesSelf` | app/src/main/java/com/nativegame/animalspop/game/player/booster/ColorBubble.java:130-131 | The root of a fill reaches itself by the one-bubble walk, whatever its own colour or mark. |
| `BubbleGraph.ReachesStep` | app/src/main/java/com/nativegame/animalspop/game/player/booster/ColorBubble.java:136-140 | Stepping from a reached bubble onto an admissible neighbour reaches that neighbour. |
| `BubbleGraph.ReachesMono` | app/src/main/java/com/nativegame/animalspop/game/player/booster/ColorBubble.java:138 | Allowing more bubbles can only add reachable bubbles. |
| `BubbleGraph.ReachesAvoidingRoot` | app/src/main/java/com/nativegame/animalspop/game/player/booster/ColorBubble.java:130-140 | Any walk from the root can be shortened so that it never returns to the root. So the root's own mark (set to 0 first) never blocks a fill. |
| `BubbleGraph.IsolatedRoot` | app/src/main/java/com/nativegame/animalspop/game/player/booster/ColorBubble.java:136-141 | When no neighbour of the root is admissible, the root is the only bubble reachable. |
| `BubbleGraph.ClosedWalk` | app/src/main/java/com/nativegame/animalspop/game/player/booster/ColorBubble.java:133-143 | A set that holds a walk's first bubble and is closed under admissible steps holds the walk's last bubble. |
| `BubbleGraph.ClosedReach` | app/src/main/java/com/nativegame/animalspop/game/player/booster/ColorBubble.java:133-143 | Everything reachable from a member of a closed set lies in that set. This is the completeness half of the fill. |
| `BubbleGraph.TreeReaches` | app/src/main/java/com/nativegame/animalspop/game/player/booster/ColorBubble.java:136-140 | Every bubble enqueued through parent links from the root is reachable from the root through admissible bubbles. This is the soundness half of the fill. |
| `BubbleGraph.DistinctBound` | app/src/main/java/com/nativegame/animalspop/game/player/booster/ColorBubble.java:133-143 | A list of distinct bubbles is no longer than the field, which bounds the queue loop. |
| `FloodFill.QueueShift` | app/src/main/java/com/nativegame/animalspop/game/player/booster/ColorBubble.java:134-140 | Polling the queue head onto the delete list and offering new bubbles extends the discovery order by exactly those bubbles. The polled bubble is the next one in that order. |
| `FloodFill.OrderBound` | app/src/main/java/com/nativegame/animalspop/game/player/booster/ColorBubble.java:133-143 | While the queue loop runs, no bubble is discovered twice, so at most as many bubbles are discovered as the field holds. This is the loop's termination measure. |
| `FloodFill.DequeueStep` | app/src/main/java/com/nativegame/animalspop/game/player/booster/ColorBubble.java:133-143 | One turn of the queue loop keeps the invariant. The invariant says: everything discovered is admissible and listed once; marks are the parent's mark + 1 and never decrease in queue order; each bubble's parent is the first dequeued bubble it neighbours; every admissible neighbour of a dequeued bubble has been discovered; nothing undiscovered had its mark touched. |
| `FloodFill.StepFirstParents` | app/src/main/java/com/nativegame/animalspop/game/player/booster/ColorBubble.java:134-141 | A bubble enqueued by the polled bubble neighbours no bubble dequeued before it, because that one would have enqueued it first. So every parent stays the first dequeued neighbour. |
| `FloodFill.DeleteListCharacterised` | app/src/main/java/com/nativegame/animalspop/game/player/booster/ColorBubble.java:127-143 | When the queue is empty, the delete list starts at the root, has no repeats and keeps to the colour. A bubble is listed if and only if the root reaches it through unvisited bubbles of the colour. Every listed bubble is marked, no other mark changed, and the depth labelling `BfsLabels` holds: each mark is one past the mark of the first listed bubble it neighbours. |
| `FloodFill.ListedIffReached` | app/src/main/java/com/nativegame/animalspop/game/player/booster/ColorBubble.java:133-143 | With the queue empty, the listed bubbles form a set closed under admissible steps, and a bubble is listed exactly when the root reaches it through admissible bubbles. |
| `FloodFill.LabelsFromParents` | app/src/main/java/com/nativegame/animalspop/game/player/booster/ColorBubble.java:130-140 | Marks that are the parent's mark + 1, with parents that are first dequeued neighbours and marks that never decrease, give `BfsLabels`. Each mark is one past some earlier neighbour's and at most one past every earlier neighbour's. |
| `FloodFill.LabelsMonotone` | app/src/main/java/com/nativegame/animalspop/game/player/booster/ColorBubble.java:133-140 | Marks that never decrease between adjacent entries of the delete list never decrease between any two of its entries. |
| `FloodFill.LabelsDetermined` | app/src/main/java/com/nativegame/animalspop/game/player/booster/ColorBubble.java:130-140 | Two markings that both satisfy the neighbour labelling of one delete list agree on every listed bubble. |
| `FloodFill.MarksDetermined` | app/src/main/java/com/nativegame/animalspop/game/player/booster/ColorBubble.java:127-143 | A fill's marks are a function of the marks before it and its delete list: two results that satisfy the labelling and leave unlisted marks unchanged are equal. With `BfsOrder` fixing the list, `Bfs`'s new marks are fully determined. |
| `FloodFill.TriangleLabels` | app/src/main/java/com/nativegame/animalspop/game/player/booster/ColorBubble.java:136-140 | On a triangle filled from bubble 0, the marks `[0, 1, 1]` (bubble 2 enqueued by the root) are the labelling, and `[0, 1, 2]` is not. |
| `FloodFill.FillComplete` | app/src/main/java/com/nativegame/animalspop/game/player/booster/ColorBubble.java:127-143 | When every mark but the root's is unvisited, the delete list is exactly the connected region of the colour around the root. This holds in both directions. |
| `FloodFill.NewNeighboursFacts` | app/src/main/java/com/nativegame/animalspop/game/player/booster/ColorBubble.java:136-140 | What one turn of the inner loop offers has no repeats and holds exactly the listed neighbours that are admissible. |
| `FloodFill.NewNeighboursStep` | app/src/main/java/com/nativegame/animalspop/game/player/booster/ColorBubble.java:136-141 | One more edge extends what the inner loop has offered by that neighbour exactly when it is admissible and not yet offered. |
| `FloodFill.RunShrinks` | app/src/main/java/com/nativegame/animalspop/game/player/booster/ColorBubble.java:133-143 | A dequeue of the reference run keeps the order within the field. When it discovers something, fewer admissible bubbles remain undiscovered, so the reference run ends. |
| `FloodFill.AdmitRemaining` | app/src/main/java/com/nativegame/animalspop/game/player/booster/ColorBubble.java:133-143 | While the queue loop runs, the bubbles still admissible are those admissible at the start minus those already discovered. |
| `FloodFill.OfferedNew` | app/src/main/java/com/nativegame/animalspop/game/player/booster/ColorBubble.java:136-142 | If the offered bubbles are the new neighbours of the polled bubble and exactly those were marked one past it, then the inner loop's outcome holds: no repeats, admissible only, every admissible neighbour offered, and no other mark changed. |
| `HitFills.InFlatten` | app/src/main/java/com/nativegame/animalspop/game/player/booster/ColorBubble.java:117-121 | A bubble popped during a hit is one listed by some fill of that hit, and the other way round. |
| `HitFills.FlattenSnoc` | app/src/main/java/com/nativegame/animalspop/game/player/booster/ColorBubble.java:117-121 | One more fill appends its delete list to the pops of the hit. |
| `HitFills.NonBlankMembers` | app/src/main/java/com/nativegame/animalspop/game/player/booster/ColorBubble.java:117-118 | A bubble seeds a fill if and only if it is a neighbour of the attached cell and not blank. |
| `HitFills.NonBlankStep` | app/src/main/java/com/nativegame/animalspop/game/player/booster/ColorBubble.java:117-121 | Seeds follow edge order: the next edge adds itself as a seed exactly when it is not blank. |
| `HitFills.NonBlankPrefix` | app/src/main/java/com/nativegame/animalspop/game/player/booster/ColorBubble.java:117-121 | The seeds of the first `i` edges are a prefix of all the seeds. |
| `HitFills.HitStep` | app/src/main/java/com/nativegame/animalspop/game/player/booster/ColorBubble.java:117-121 | A fill from the next seed, on the marks the earlier fills left, keeps the hit's account. The account covers: (1) seeded, colour-pure, duplicate-free fills that are reachable through bubbles unvisited when the hit began; (2) later fills that list nothing earlier fills listed, except possibly their seed; (3) marks set exactly on the bubbles listed plus those marked before, closed under same-coloured neighbours. |
| `HitFills.HitComplete` | app/src/main/java/com/nativegame/animalspop/game/player/booster/ColorBubble.java:110-150 | With clean marks when the hit begins, the hit pops exactly the bubbles in the same-coloured region of some non-blank neighbour of the attached cell. This holds in both directions. |
| `HitFills.HitRegionPopped` | app/src/main/java/com/nativegame/animalspop/game/player/booster/ColorBubble.java:117-143 | With clean marks, every bubble of seed `k`'s colour joined to seed `k` by that colour is popped by the hit. |
| `HitFills.HitRepeats` | app/src/main/java/com/nativegame/animalspop/game/player/booster/ColorBubble.java:117-121 | A bubble popped by two fills of one hit is the later fill's seed, and that fill pops only its seed. |
| `HitFills.ChainStep` | app/src/main/java/com/nativegame/animalspop/game/player/booster/ColorBubble.java:117-121 | A fill from the next seed, run on the marks the chain left, extends the chain by one group and one marks snapshot. |
| `HitFills.ChainPrefix` | app/src/main/java/com/nativegame/animalspop/game/player/booster/ColorBubble.java:117-121 | Dropping the last fill of a chain leaves a chain, and that last fill has the outcome of a fill. |
| `HitFills.ChainAccount` | app/src/main/java/com/nativegame/animalspop/game/player/booster/ColorBubble.java:117-121 | A chain of fills satisfies the hit's account from its first marks to its last. |
| `Booster.PopsAppend` | app/src/main/java/com/nativegame/animalspop/game/player/booster/ColorBubble.java:146-148 | Popping two lists one after the other yields their pop effects one after the other. |
| `Booster.PopsExtend` | app/src/main/java/com/nativegame/animalspop/game/player/booster/ColorBubble.java:117-121 | After one more fill, the trace grows by that fill's pops. |
| `Booster.BubbleSystem.constructor` | app/src/main/java/com/nativegame/animalspop/game/player/booster/ColorBubble.java:115-117 | The field holds the given colours, neighbour lists, marks and coordinates, and every neighbour names a bubble of the field. |
| `Booster.ColorBubble.constructor` | app/src/main/java/com/nativegame/animalspop/game/player/booster/ColorBubble.java:26-48 | A new booster is neither consumed nor registered and has caused nothing. |
| `Booster.ColorBubble.Init` | app/src/main/java/com/nativegame/animalspop/game/player/booster/ColorBubble.java:50-56 | The booster takes its start coordinate, is no longer consumed, is registered, and reports `BoosterAdded`. |
| `Booster.ColorBubble.AddToGameEngine` | app/src/main/java/com/nativegame/animalspop/game/player/booster/ColorBubble.java:68-74 | The booster is registered and reports `BoosterAdded`, and nothing else. |
| `Booster.ColorBubble.RemoveFromGameEngine` | app/src/main/java/com/nativegame/animalspop/game/player/booster/ColorBubble.java:77-88 | The booster is unregistered. It reports `BoosterConsumed` when it was consumed and `BoosterRemoved` otherwise. |
| `Booster.ColorBubble.OnBubbleShoot` | app/src/main/java/com/nativegame/animalspop/game/player/booster/ColorBubble.java:98-102 | Shooting reports `BoosterShot` and nothing else. |
| `Booster.ColorBubble.OnBubbleReset` | app/src/main/java/com/nativegame/animalspop/game/player/booster/ColorBubble.java:153-162 | In order: floaters are dropped, the field shifts, then the booster is consumed, unregistered, and reports `BoosterConsumed`. |
| `Booster.ColorBubble.OnBubbleHit` | app/src/main/java/com/nativegame/animalspop/game/player/booster/ColorBubble.java:110-125 | If the gate fails (blank struck bubble, booster above it, or already consumed), nothing changes. Otherwise the trace is: attach, then the pops of one fill per non-blank neighbour in edge order, then reset. Fill `k` is the breadth-first order (`BfsOrder`) from the `k`-th non-blank neighbour over its own colour, run on the marks that fills 0 to `k`-1 left. The marks begin at the entry marks and end at the exit marks. The fills satisfy the hit's account (see `HitStep`), and the booster ends consumed and unregistered. |
| `Booster.ColorBubble.FillNeighbours` | app/src/main/java/com/nativegame/animalspop/game/player/booster/ColorBubble.java:117-121 | The loop over the attached cell's neighbours runs one fill per non-blank neighbour, in edge order. Fill `k` is the breadth-first order from seed `k` on the marks the earlier fills left (`FillChain`). The pops are recorded in order and the hit's account holds. |
| `Booster.ColorBubble.VisitNeighbour` | app/src/main/java/com/nativegame/animalspop/game/player/booster/ColorBubble.java:117-120 | For a blank neighbour, the groups, the marks snapshots, the marks and the trace are all unchanged. For a non-blank neighbour, exactly one group is appended: the breadth-first order from that neighbour over its colour on the current marks. The new marks are appended as a snapshot and the trace grows by that group's pops. Either way the loop state advances by one neighbour. |
| `Booster.ColorBubble.FillFrom` | app/src/main/java/com/nativegame/animalspop/game/player/booster/ColorBubble.java:118-119 | A non-blank neighbour's fill appends one group, equal to `BfsOrder` from that neighbour on the current marks, and one marks snapshot. The trace grows by the group's pops and the loop state advances. |
| `Booster.ColorBubble.Bfs` | app/src/main/java/com/nativegame/animalspop/game/player/booster/ColorBubble.java:127-150 | The delete list is the reference breadth-first order `BfsOrder` from the root over the colour on the entry marks. It is characterised as in `DeleteListCharacterised`: it starts at the root, has no repeats, keeps to the colour, and lists exactly the bubbles reachable through unvisited bubbles of the colour. Marks off the list are unchanged. On the list, the root is 0 and every other bubble is one past the first listed bubble it neighbours, so the new marks are fully determined (`MarksDetermined`). The trace grows by one pop per listed bubble, in dequeue order, after the traversal. |
| `Booster.ColorBubble.Explore` | app/src/main/java/com/nativegame/animalspop/game/player/booster/ColorBubble.java:128-143 | The queue loop ends with the delete list equal to the whole discovery order and to the reference order `BfsOrder`, and the loop invariant holds there. |
| `Booster.ColorBubble.VisitHead` | app/src/main/java/com/nativegame/animalspop/game/player/booster/ColorBubble.java:134-142 | One poll moves the queue head to the delete list and keeps the loop invariant. The discovery order grows without leaving the field. The rest of the reference run (`BfsRun`) from the new state equals the rest from the old state. |
| `Booster.ColorBubble.OfferNeighbours` | app/src/main/java/com/nativegame/animalspop/game/player/booster/ColorBubble.java:136-142 | The bubbles offered are exactly `NewNeighbours` of the polled bubble's edge list: those unvisited and of the fill's colour, in edge order, each at its first occurrence. They are appended to the queue. Each is marked one past the polled bubble, and no other mark changes. |
| `Booster.HitLoopFill` | app/src/main/java/com/nativegame/animalspop/game/player/booster/ColorBubble.java:118-120 | A fill from a non-blank neighbour advances the hit's loop state by one seed and one group. |
| `Booster.HitLoopSkip` | app/src/main/java/com/nativegame/animalspop/game/player/booster/ColorBubble.java:118 | A blank neighbour advances the hit's loop state without a fill. |

## Left out

- Sound, particle systems, the dot system, `startGame` and `getDotSystem` are left out. They are presentation and do not affect which bubbles pop.
- The float arithmetic on positions is left out. Vertical positions are kept as abstract integers (`ColorBubble.y` and `BubbleSystem.y`), because the hit's gate compares the booster's `mY` with the struck bubble's.
- `onUpdate` and the booster's movement in flight are not modelled. `ColorBubble.y` stands for the booster's position when the hit arrives, and the caller sets it. The model writes `y` only in `Init`, so `OnBubbleHit` right after `Init` would test the launch coordinate.
- `onBubbleSwitch` is left out because its body is empty.
- The field's own operations are left out, because their code is not part of this model. These are `getBubble`, `popBubble`, `popFloater` and `shiftBubble`.
  - Each call is recorded in the trace.
  - The field passed to `OnBubbleHit` is the field after attachment, and the attached cell is an input.
  - Popping a bubble is taken not to change colours or marks during the hit.
- `Booster.ColorBubble.OnBubbleHit`: the `reset` call of the player-bubble base class is modelled as calling `onBubbleReset` directly. That base class is not part of this model.
- `Booster.ColorBubble.Init`: the start coordinate is taken as the booster's final `y`. The centring by half the sprite height is float arithmetic and is left out.
- `Booster.ColorBubble.Bfs` returns its delete list so that the contract can name what was popped. The source's `bfs` returns nothing and clears the list.
- Marks are unbounded integers. The source's marks are Java `int`s, but a mark never exceeds the number of bubbles (see `BfsLabels`), so overflow does not arise.
- Marks are never reset by the booster, neither between the fills of one hit nor after it; whatever resets them between shots is outside this model. The model keeps the marks as the code leaves them: later fills of the same hit skip bubbles earlier fills marked. Completeness is proved under clean marks when the hit begins (`FillComplete`, `HitComplete`).
