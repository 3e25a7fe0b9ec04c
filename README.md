# grotto: a verified model of the grotto-clearing simulator

The simulator estimates the expected time needed to clear a ring of grottos ("nodes").
Each node holds up to three events. An event has a probability in tenths of a percent.
Travelling from node to node loses or gains time. Time lost raises the number of 256-step
reload rolls a node gets, and each successful reload clears at most one event of the node
it lands on. One trial initialises every node from its probability row. It then calls the
recursive clearer `setNode` from the last node, which is the reloading spot.

The model covers the trial's core in `src/main.c`: `initNode`, `searchNode`, `setNode`
(its base case, the dry lap, the live walk and the recursion), the construction of the
reload-budget table `setsPerLoss`, and one trial. The code is imperative, so the model is
too. The node array is an `array<Node>` that the methods update in place. Each method is
proved equal to a specification function on `seq<Node>`, and lemmas state what those
functions guarantee.

- `config.dfy`: the tuning constants and the injected random source `Draws`.
- `nodes.dfy`: the node record and `initNode` (`InitNode` against `Initialized`).
- `search.dfy`: `searchNode` (`SearchNode` against `Searched`).
- `budget.dfy`: the `setsPerLoss` table (`BuildSetsPerLoss` against `Attempts`) and the clamped lookup.
- `walk.dfy`: the specification of `setNode`. `LapCost` is pass 1, `LiveWalk` is pass 2 and `ClearAll` is the recursion.
- `walk_facts.dfy`: what the recursion guarantees.
- `lap.dfy`: what pass 1 measures.
- `walker.dfy`: `setNode` on the array (`HasActive`, `DryPass`, `Hop`, `LivePass`, `SetNode`).
- `trial.dfy`: one trial, the shipped data and two worked scenarios.

The C `rand()` is replaced by an infinite stream `rand: nat -> nat` and a cursor `pos`.
The k-th call of `rand()` reads `rand(k)`, and the model applies `% 1000` as the code does.
Every method returns the cursor after the draws it consumed.

Pass 2 of `setNode` ends only when the draws eventually clear a node, so it has no bound
the code could state. The model gives it a `fuel` bound, the number of hops one pass may
make, and reports `OutOfFuel` when the bound is reached.

A running total below zero makes the code index `setsPerLoss` out of bounds, which is
undefined behaviour in C. The model reports this as the outcome `BadIndex(total)`. The
shipped matrices reach this case: `Trial.ShippedNegativeIndex` shows it on the hop 0 -> 1
(10 lost, 15 gained).

The code adds the lap bonus whenever a step lands on index `count - 1`, and that
includes the very first hop of a call (src/main.c:86-87). Take two nodes, 10 lost each
way, one certain event at node 1, and every draw 0. A call from node 0 lands on index 1
= `count - 1` on its first hop, so it returns 10 + 90 = 100 (`Trial.PairScenario`). A
trial starts from the last node, node 1 (src/main.c:162). Its first hop wraps to node 0
without the bonus, and its second hop lands on node 1 with the bonus, so the trial
returns 10 + 90 + 10 = 110 (`Trial.PairTrial`).

## Model

| member | source | states |
|---|---|---|
| Nodes.Initialized | src/main.c:23-35 | the record initNode builds from a row: threshold i is the sum of raw[0..i], `set` is the OR of bit i for every slot with raw[i] > 0, `test` is `set != 0`, `skip` is false |
| Nodes.InitNode | src/main.c:23-35 | the record built by the loop is `Initialized(raw)`: prefix-sum thresholds, the OR of one bit per positive slot, `test` iff that mask is non-zero, `skip` false |
| Nodes.InitializedSpec | src/main.c:23-35 | threshold i is raw[0]+...+raw[i]; bit i of `set` is 1 iff raw[i] > 0; `test` iff some slot has positive probability; `skip` is false |
| Nodes.MaskBits | src/main.c:29-33 | after k slots, bit i of the accumulated mask is set iff i < k and raw[i] > 0 |
| Nodes.SlotMaskZero | src/main.c:34 | a mask is zero iff none of its MaxEvents slot bits is set (so `test` iff some bit is set) |
| Nodes.ClearBitSpec | src/main.c:47 | `set & ~(1 << i)` sets no new bit, clears at most one bit, and leaves bit i clear |
| Search.Rolled | src/main.c:38-41 | the roll loop succeeds iff one of the draws pos .. pos+tries-1 is below 50 modulo 1000; it is false when tries <= 0 |
| Search.RolledIff | src/main.c:38-41 | the reload fires iff some draw among the `reloadTries` read is below 50 (mod 1000); with no tries it never fires |
| Search.FirstSlot | src/main.c:45-50 | the selected slot is the least i whose threshold exceeds the draw (every earlier threshold is at most the draw), or none |
| Search.Searched | src/main.c:37-51 | thresholds, `test` and `skip` never change; the node is untouched unless a roll succeeds; exactly `reloadTries` draws are read, plus one selector draw on success |
| Search.SearchedOnlyClears | src/main.c:37-51 | a reload step only clears bits: the new `set` is a subset of the old and differs from it in at most one bit |
| Search.SelectedSlotHasPositiveProbability | src/main.c:44-49 | with prefix-sum thresholds, the slot a non-negative draw selects has positive raw probability |
| Search.SearchNode | src/main.c:37-51 | in place on `nodes[k]`: the array afterwards differs only at k, where it holds the `Searched` record; the returned cursor is `Searched`'s |
| Budget.Attempts | src/main.c:142-153 | the value the fill loops store at index i: 5 up to 15, 6 up to 21, 7 up to 29, 8 up to 39, 9 up to 49, 10 up to 61, 11 up to 75, 12 up to 90, 13 up to 107, 14 below 127, and 15 at 127 |
| Budget.Clamp | src/main.c:92 | the lookup index is 127 for a total above 127 and the total itself otherwise; it is negative exactly when the total is |
| Budget.Fill | src/main.c:143-152 | one fill loop assigns `value` to indices offset..offset+last, counts one write for each of them, and leaves every other index alone |
| Budget.BuildSetsPerLoss | src/main.c:142-153 | the table has 128 entries, entry i is `Attempts(i)`, and every index 0..127 is assigned exactly once |
| Budget.AttemptsRange | src/main.c:142-153 | every table entry lies in [5, 15] and entry 127 is 15 |
| Budget.AttemptsMonotone | src/main.c:142-153 | the table is non-decreasing |
| Budget.LookupMonotone | src/main.c:92 | for totals 0 <= a <= b the clamped lookups are in range and `setsPerLoss[a] <= setsPerLoss[b]` |
| Walk.Edge | src/main.c:74 | the matrix entry `m[from * count + to]`, read at an index that `Walk.FlatIndex` proves in range |
| Walk.Step | src/main.c:69-71 | `to++; if (to == count) to = 0` stays a node index |
| Walk.Gap | src/main.c:68-72 | the inner do-while stops after d steps, 1 <= d <= count, on a non-skipped node, every earlier step landing on a skipped one |
| Walk.LandsOnLastIff | src/main.c:84-88 | a hop adds the bonus iff count >= 2 and one of its steps lands on index count-1 |
| Walk.LapCostFrom | src/main.c:63-76 | pass 1 from step j on: the losses of the hops to the non-skipped nodes reached after j .. count-1 steps from `start`; skipped nodes add nothing |
| Walk.LapCost | src/main.c:63-76 | the total pass 1 computes: `LapCostFrom` from step 1 at `start` |
| Walk.LiveWalk | src/main.c:83-95 | pass 2 only reloads nodes; when it stops, the node it stops on was active, has no outstanding bit and the total is non-negative; otherwise it stops on a bad index or no fuel |
| Walk.MarkSkipShrinks | src/main.c:97 | marking the cleared node skipped removes exactly that node from the active set, which strictly shrinks |
| Walk.ClearAll | src/main.c:53-101 | setNode: no active node gives Cost(0) with nothing changed; a negative lap gives BadIndex; otherwise pass 2 runs with bonus table[Clamp(lap)] * 18, and a halted pass ends the call while a cleared node is marked skipped and the call returns this pass's total plus the recursive call's, started from that node |
| WalkFacts.ClearAllBase | src/main.c:56-59 | when every node is skipped or has no event, setNode returns 0, changes nothing and reads no draw |
| WalkFacts.ClearAllEvolves | src/main.c:53-101 | over the whole recursion thresholds and `test` never change, bits are only cleared, no `skip` is cleared; the skipped nodes afterwards are exactly the old ones plus the cleared ones, each of which was active |
| WalkFacts.ClearAllDistinct | src/main.c:94-101 | each call clears a different node |
| WalkFacts.ClearAllEmptied | src/main.c:94-97 | every cleared node ends with `set == 0` |
| WalkFacts.ClearAllCost | src/main.c:53-101 | a returned total is non-negative and leaves no active node |
| WalkFacts.ClearAllDepth | src/main.c:97-101 | the recursion clears at most as many nodes as were active, and exactly that many when it returns a total |
| WalkFacts.ClearAllKeepsEmpty | src/main.c:45-49 | a node with `set == 0` (such as one without events) keeps `set == 0` through the whole recursion |
| Lap.LapCostIsPath | src/main.c:63-76 | pass 1's sum is the sum of the losses along the path from `start` through the lap's stops |
| Lap.LapStopsCover | src/main.c:67-73 | one lap stops at every non-skipped node other than `start` exactly once and never at `start`, so the closing hop is not counted |
| Lap.LapCostNonNegative | src/main.c:74 | with non-negative losses pass 1's sum is non-negative |
| Walker.HasActive | src/main.c:56-59 | the base-case scan finds an active node iff the active set is non-empty |
| Walker.DryHop | src/main.c:67-75 | one outer iteration of pass 1 adds the hop's loss when its cumulative step count stays below count, and ends the lap otherwise |
| Walker.DryPass | src/main.c:63-76 | pass 1 returns `LapCost` of the array |
| Walker.Hop | src/main.c:84-88 | the inner do-while reaches the next non-skipped node, having added the bonus iff the hop lands on index count-1 by an increment |
| Walker.LiveWalkStep | src/main.c:90-95 | one hop of pass 2 halts on a negative index, stops on a cleared node, or continues from the landing node |
| Walker.LivePass | src/main.c:80-95 | pass 2 on the array ends as `LiveWalk` specifies and leaves the array and the cursor as it specifies |
| Walker.SetNode | src/main.c:53-101 | setNode's outcome, final array and cursor are those of `ClearAll`; the recursion decreases the active set |
| Trial.InitNodes | src/main.c:157-159 | after the loop, node j is `Initialized(events[j])` for every j |
| Trial.RunTrial | src/main.c:157-162 | one trial returns `ClearAll` of the freshly initialised array from the last node; a returned total is non-negative |
| Trial.ShippedShape | src/main.c:106-134 | the shipped matrices are 7 by 7 with non-negative losses, and the event table has 7 rows |
| Trial.ShippedNegativeIndex | src/main.c:92 | with the shipped matrices, a call from node 0 with node 1 not skipped hits table index -5 on its first hop |
| Trial.PairScenario | src/main.c:84-94 | two nodes, 10 lost each way, one certain event at node 1, every draw 0: a call from node 0 returns 100 (lap 10, bonus 5 * 18 on its first hop, which lands on index count-1) |
| Trial.PairInitialized | src/main.c:23-35 | initialising those two rows gives node 0 no event and node 1 thresholds 1000 with slot 0 outstanding |
| Trial.PairFirstHop | src/main.c:84-95 | the trial's first hop 1 -> 0 wraps without the bonus, loses 10 and reads five rolls and a selector draw that clear nothing at node 0 |
| Trial.PairSecondHop | src/main.c:84-95 | the trial's second hop 0 -> 1 adds the bonus 90 and 10 more, and its reload with 14 rolls clears node 1 with total 110 |
| Trial.PairTrial | src/main.c:157-162 | the same two nodes as a trial, from the last node: it returns 10 + 90 + 10 = 110 |

## Left out

- `rand()` and `srand(time(NULL))` are not modelled: the draws are a parameter, so the model says nothing about their distribution.
- The `ITERATIONS` loop, the `long long` sum over trials, the float average and `printf` (src/main.c:155-164) are not modelled: they are Monte Carlo glue, floating point and output.
- The NULL checks at src/main.c:55 are not modelled: Dafny arrays and sequences are never null.
- Integer widths are not modelled: C `int`, `long int` and `long long` become unbounded integers. No shipped total comes near an overflow.
- Walker.LivePass: pass 2 is cut off after `fuel` hops with `OutOfFuel`. The code has no bound there, and its loop ends only with probability 1.
- Walker.SetNode: a negative table index ends the call with `BadIndex` rather than reading outside the table. The code has undefined behaviour there.
- Walker.SetNode: `count >= 1`, `start < count` and n-by-n matrices are preconditions. The code does not check them; with `count == 0` its base-case loop falls through.
- Trial.RunTrial: the losses, gains and table are passed as read-only sequences. The code uses constant C arrays.
