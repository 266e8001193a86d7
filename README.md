# traceTM: breadth-first tracing of a nondeterministic Turing machine

traceTM takes a machine description and an input string and explores every
computation branch of the machine breadth-first. Each branch is a
configuration `(tape_left, state, tape_right)`. The simulation scans one
level of configurations at a time and counts every configuration it inspects.
It answers `accepted` or `rejected` at the first configuration, in scan order,
that is in the accept or reject state, and reports the level that
configuration was found in. Otherwise it gathers the successors of the level
into the next level. A successor is one configuration per matching rule, in
the order the rules are declared. It is enqueued unless it is in the visited
set, and it is marked visited when it is enqueued. The visited set starts
empty, so the start configuration can be enqueued once more, and is marked
visited then. The run answers `stopped` when a level yields no new
successors, or when the count has reached the step bound after a whole level.

The model has three modules:

- `TuringMachine` (`machine.dfy`) holds the machine description, the
  configuration, and the pure pieces of one step. These are the head symbol,
  the successor of a configuration under one rule, the successors under all
  rules, and the one-line rendering `tape_left[state]head rest`.
- `Engine` (`engine.dfy`) holds the simulation.
  - `Execute` is the loop of `execute_tm`. It keeps the level queue, the
    visited set and the counter, and it is proved equal to the
    specification function `Simulate`.
  - `Simulate` is a recursion over levels (`Explore`). It is parametrised by
    an expansion step; `NextLevel(m)` is the machine's own step.
  - The lemmas say what a run means. They cover:
    - the verdict and the count, fixed by the first halting configuration
      in scan order;
    - the reported level;
    - the bounds on the count;
    - that no configuration is appended to the queue twice after the start
      level;
    - that the levels are the successive breadth-first frontiers.
- `Scenarios` (`scenarios.dfy`) holds runs on concrete machines. They are:
  - unary increment on any number of 0s;
  - a start configuration on which no rule fires;
  - a nondeterministic fork with a looping branch;
  - the rule-order tie between an accepting and a rejecting successor;
  - a start configuration that is enqueued again.

Some facts about the code that a reader of `execute_tm` may not expect:

- Rules carry a `direction` that the engine never reads. Every rule appends
  the written symbol to the left half and drops the head cell from the right
  half, so the head only ever moves right (`TuringMachine.DirectionIgnored`,
  `TuringMachine.SuccessorsMoveRight`).
- The visited set starts empty and the start configuration is not added to
  it. A rule leading back to the start configuration enqueues it a second
  time, and it is inspected again (`Scenarios.StartInspectedTwice`).
- The counter counts every configuration inspected, the accepting or
  rejecting one included: unary increment on `00` accepts with a count of 4
  (`Scenarios.IncrementTwoZeros`).
- A `stopped` run reports no level. The code prints only the count.
- The step bound is checked only after a whole level, so the count may pass
  it (`Engine.ExploreCountBound`). The level appended to the queue just
  before such a stop is never scanned (`Engine.Enqueued`).

## Model

| member | source | states |
|---|---|---|
| TuringMachine.Visible | traceTM_dhuss.py:36-37 | the right half as shown starts with the right half itself and is one blank long when the right half is empty |
| TuringMachine.HeadSymbol | traceTM_dhuss.py:71 | the head symbol is one character: the first cell of the right half, or the blank `_` when the right half is empty |
| TuringMachine.Rest | traceTM_dhuss.py:77 | the head symbol followed by the rest is the visible right half; the rest is one cell shorter, or empty when the right half is empty |
| TuringMachine.Apply | traceTM_dhuss.py:76-80 | a successor has the rule's next state, the left half extended by the written symbol, and the right half without its head cell |
| TuringMachine.Matches | traceTM_dhuss.py:75 | a rule fires when its current state is the configuration's state and its read symbol is the head symbol; `WideReadSymbolNeverFires` states that only one-character read symbols can |
| TuringMachine.Fire | traceTM_dhuss.py:75-80 | one rule contributes its application when it fires and nothing otherwise; `SuccessorsFollowRuleOrder` states what the contributions add up to |
| TuringMachine.Successors | traceTM_dhuss.py:74-80 | a configuration has at most one successor per rule; `SuccessorsFollowRuleOrder` and `NoRuleFires` state which ones |
| TuringMachine.SuccessorsMoveRight | traceTM_dhuss.py:76-80 | every successor extends the left half and has the right half without its head cell, whatever the rule's direction |
| TuringMachine.MatchingIndices | traceTM_dhuss.py:74-75 | the indices of the rules that fire are strictly increasing, each one fires, and every rule that fires is listed |
| TuringMachine.SuccessorsFollowRuleOrder | traceTM_dhuss.py:74-80 | the successors are exactly the applications of the firing rules, one each, in declaration order |
| TuringMachine.NoRuleFires | traceTM_dhuss.py:74-75 | a configuration has no successors if and only if no rule matches its state and head symbol |
| TuringMachine.WideReadSymbolNeverFires | traceTM_dhuss.py:71-75 | a rule whose read symbol is not one character long never fires |
| TuringMachine.DirectionIgnored | traceTM_dhuss.py:74-80 | rules that differ only in direction give the same successors |
| TuringMachine.ImplicitBlankIsExplicitBlank | traceTM_dhuss.py:71-80 | an empty right half and a right half holding one blank have the same successors |
| TuringMachine.Render | traceTM_dhuss.py:36-37 | the rendering is the left half, `[`, the state, `]` and the visible right half, and its length follows from theirs |
| TuringMachine.RenderShowsHead | traceTM_dhuss.py:36-37 | the brackets sit right after the left half and the state, and the head symbol comes right after `]` |
| TuringMachine.RenderInjective | traceTM_dhuss.py:36-37 | when left halves hold no `[` and states hold no `]`, equal renderings give equal left halves, states and visible right halves |
| TuringMachine.RenderBlankAmbiguity | traceTM_dhuss.py:36-37 | two different configurations, with an empty right half and with one blank, render the same |
| Engine.Verdict | traceTM_dhuss.py:64-98 | the word `execute_tm` returns: `accepted` exactly for an accepting outcome, `rejected` exactly for a rejecting one, `stopped` exactly for a stop |
| Engine.Initial | traceTM_dhuss.py:41 | the start configuration is shown as `[start]` followed by the input, or by a blank when the input is empty |
| Engine.Halting | traceTM_dhuss.py:61-69 | a configuration in the accept state or in the reject state ends the run |
| Engine.FirstHalt | traceTM_dhuss.py:56-69 | the index found is the first in scan order whose state is the accept or reject state; none is found only when no configuration halts |
| Engine.FirstHaltAfter | traceTM_dhuss.py:56-69 | when nothing in a prefix halts, the first halting position of the whole is that of the suffix, shifted by the prefix |
| Engine.Insert | traceTM_dhuss.py:83-85 | a successor is appended to the next level and marked visited unless it is visited already; the `AddAll` lemmas below state what a sequence of such steps does |
| Engine.AddAll | traceTM_dhuss.py:74-85 | the successors of a level are offered to `Insert` one at a time in scan order; its contract is `AddAllSpec` |
| Engine.Stream | traceTM_dhuss.py:56-80 | the successors offered for a level, each configuration's in rule order; `StreamMembers` states its members |
| Engine.NextLevel | traceTM_dhuss.py:54-85 | the machine's expansion step from a level and the visited set to the next level and the new visited set; `NextLevelIsFresh` and `NextLevelIsFaithful` state its properties |
| Engine.Explore | traceTM_dhuss.py:51-96 | the scan of a level and the levels after it, with the visited set and the count so far; `ExploreSummary`, `ExploreReportsLevel` and `ExploreCountBound` state its outcome |
| Engine.Levels | traceTM_dhuss.py:51-96 | the levels `Explore` scans, in order, the first being the level it starts from |
| Engine.Enqueued | traceTM_dhuss.py:87-96 | the configurations appended to the queue, the level appended just before a step-bound stop included; `ExploreEnqueuesOnce` and `ScannedWereEnqueued` state its properties |
| Engine.Simulate | traceTM_dhuss.py:39-98 | the run from the start configuration with nothing visited and nothing counted inspects at least one configuration |
| Engine.ScannedLevels | traceTM_dhuss.py:41-96 | the levels the whole run scans, the first being the start configuration alone |
| Engine.Queued | traceTM_dhuss.py:41-96 | the configurations the whole run appends to the queue after the start level |
| Engine.AddAllVisited | traceTM_dhuss.py:83-84 | offering successors marks exactly them visited, in addition to what was visited before |
| Engine.AddAllExtends | traceTM_dhuss.py:83-85 | offering successors keeps the level built so far and appends only offered configurations that were not visited before |
| Engine.AddAllCovers | traceTM_dhuss.py:83-85 | every offered configuration that was not visited before is appended |
| Engine.AddAllDistinct | traceTM_dhuss.py:83-85 | a level without repeats, whose members are all visited, stays so |
| Engine.AddAllSpec | traceTM_dhuss.py:82-85 | the four facts about offering successors together |
| Engine.NothingNew | traceTM_dhuss.py:83-92 | the next level is empty if and only if every successor of the level was visited already |
| Engine.ExploreAtHalt | traceTM_dhuss.py:56-69 | at the first halting configuration of a level the run accepts if it is in the accept state and rejects otherwise, with the count up to and including it, and reports the level |
| Engine.ExploreAfterLevel | traceTM_dhuss.py:87-96 | after a level with no halting configuration the run stops when no successor is new, stops at the step bound when the count has reached it, and otherwise goes on from the next level |
| Engine.ExploreSummary | traceTM_dhuss.py:51-96 | over the scanned levels in scan order, a run accepts or rejects exactly when some configuration halts. It accepts exactly when the first halting one is in the accept state, and the count is that one's position plus one. The reported level is the last one scanned, that configuration lies in it and is its first halting one; otherwise the run stops having counted every scanned configuration |
| Engine.SimulateSummary | traceTM_dhuss.py:39-98 | the same for the whole run from the start configuration with nothing visited and nothing counted |
| Engine.ExploreReportsLevel | traceTM_dhuss.py:56-69 | an accept or reject verdict reports the last scanned level; no earlier level holds a halting configuration, the reported one does, its first one has the verdict's state, and the count is the configurations of the earlier levels plus that one's position plus one |
| Engine.SimulateReportsLevel | traceTM_dhuss.py:39-69 | the level printed with `accepted` or `rejected` is the first level holding a configuration in the accept or reject state, and the count ends at the first such configuration in it |
| Engine.ExploreCountBound | traceTM_dhuss.py:56-96 | the count grows with every run, passes the step bound by less than the size of the last scanned level, and a step-bound stop has reached the bound |
| Engine.SimulateCountBound | traceTM_dhuss.py:56-96 | the whole run inspects at least one configuration, overshoots the bound by less than its last level, and stops at the bound only once the bound is reached |
| Engine.NextLevelIsFresh | traceTM_dhuss.py:83-85 | one expansion never enqueues a configuration twice or one visited before, marks what it enqueues, and only adds to the visited set |
| Engine.ExploreEnqueuesOnce | traceTM_dhuss.py:83-96 | with such an expansion, the configurations appended to the queue, the level appended before a step-bound stop included, hold no repeat and nothing visited when the scan began |
| Engine.ScannedWereEnqueued | traceTM_dhuss.py:87-96 | the levels scanned after the first are a prefix of what was appended to the queue |
| Engine.EnqueuesOnce | traceTM_dhuss.py:43-96 | in a whole run no configuration is appended to the queue twice after the start level, and the levels scanned after the start level repeat nothing; the start configuration may recur once |
| Engine.StreamMembers | traceTM_dhuss.py:56-80 | the successors offered for a level are exactly the successors of its configurations |
| Engine.NextLevelIsFaithful | traceTM_dhuss.py:72-85 | one expansion enqueues only successors of the level, enqueues every successor not visited before, and marks exactly what it enqueues |
| Engine.FrontiersIndexed | traceTM_dhuss.py:83-88 | frontiers read level by level: every successor of a level is in the next level, was visited at the start, or was enqueued in an earlier level |
| Engine.ExploreLevelsLinked | traceTM_dhuss.py:51-88 | with a faithful expansion, the scanned levels are the successive frontiers of the search |
| Engine.LevelsAreFrontiers | traceTM_dhuss.py:41-88 | in a whole run each level after the first consists of successors of the one before. Every successor of a level that is not the last is in the next level or in an earlier one |
| Engine.Expand | traceTM_dhuss.py:71-85 | the loop over the rules leaves the next level and the visited set as offering the configuration's successors, in rule order, would |
| Engine.Execute | traceTM_dhuss.py:39-98 | the simulation loop returns exactly the outcome of `Simulate`, and the fallback after the loop is unreachable |
| Scenarios.IncrementRun | traceTM_dhuss.py:39-98 | unary increment on n 0s accepts with count n + 2 and `0…01` left of the head when the bound exceeds n + 1; otherwise it stops at the bound |
| Scenarios.IncrementTwoZeros | traceTM_dhuss.py:56-64 | unary increment on `00` accepts with count 4 and `001` left of the head |
| Scenarios.IncrementTwoZerosShown | traceTM_dhuss.py:36-37 | that accepting configuration is shown as `001[qacc]_` |
| Scenarios.IncrementStepBound | traceTM_dhuss.py:94-96 | on `0000` a bound of 5 stops with count 5, and a bound of 6 accepts with count 6 |
| Scenarios.NoMatchStops | traceTM_dhuss.py:87-92 | when no rule fires on a non-halting start configuration, the run stops with count 1 |
| Scenarios.ForkAccepts | traceTM_dhuss.py:51-88 | a machine with an accepting branch and a looping branch accepts on the third level with count 5 |
| Scenarios.TieBreakByRuleOrder | traceTM_dhuss.py:56-75 | when one configuration has a rejecting and an accepting successor, the first rule decides the verdict |
| Scenarios.StartInspectedTwice | traceTM_dhuss.py:41-85 | a rule leading from the start configuration back to itself enqueues it again, so it is inspected twice before the run stops |

## Left out

- `parse_tm` (traceTM_dhuss.py:6-30) reads a file and splits its lines. The model takes a machine value with the same fields instead.
- The `print` calls (traceTM_dhuss.py:37, 47-48, 62-63, 67-68, 90-91, 95, 111) are console output. `Execute` returns the verdict, the count and the reported level, and `Render` gives the line `print_configuration` shows for each configuration.
- The `__main__` block (traceTM_dhuss.py:100-111) handles arguments and exits the process. `DefaultMaxSteps` records its step bound of 100.
- The `deque` of levels is a sequence in `Execute`. At the head of every iteration it holds exactly one level, which is what makes the fallback unreachable.
- `Engine.Execute` returns a verdict datatype rather than the bare words `accepted`, `rejected` and `stopped`. `Engine.Verdict` maps one to the other.
