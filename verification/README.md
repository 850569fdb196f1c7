# Sugarscape, modelled in Dafny

This project models the discrete-event core of a Python Sugarscape simulation. In the simulation, agents live on a grid of sugar cells. Each agent carries its own clock of pending times (move, die, reproduce, birth) and posts its next event to a shared calendar. The simulation loop pops the earliest event, dispatches it and repeats. The model covers:

- the **event calendar** (`event.py`): module `Events`, class `EventCalendar`. It has the append, the linear earliest-event scan with optional pop, the "remove by value" of `remove_agent`, and `next_by_type`.
- the **landscape** (`landscape.py`): module `World`, classes `Cell` and `Landscape`. It covers regrowth capped at capacity, `valid_coord`, `get_cell`, `is_empty`, `put`, `remove`, `move`, the bounded random search of `next_open`, and the sweep of `update_sugar`.
- the **agent** (`agent.py`): module `World`, class `Agent`. It covers the constructor, the pending-time arithmetic and `setNextEvent` (module `AgentMath`), `eat`, the field of view, the Moore neighbourhood, `move`, `reproduce`, `get_best_birth_cell` and `birth`.
- the **population** (`agent.py`, `AgentList`): module `Population`. It covers id assignment, `full_add`, `get_by_id`, `remove`, `average`, `ordered_by` and `median`. Module `Stats` holds the pure sum, sort and median arithmetic.
- the **named random generators** (`rng.py`): module `Rng`.

Design choices:

- Times that Python keeps as floats with `math.inf` are the type `ExtReals.ExtReal`: a finite real, `+inf` or `-inf`.
- `compute_death` can raise `ZeroDivisionError` when the agent's metabolism is 0 or the two times coincide. That error becomes `Failure(ZeroDivision)`. `setNextEvent` and every operation that calls it pass it on, and leave the calendar as it was.
- Every random draw is a parameter with the range its distribution has: `uniform(1, 4)`, `ceil(uniform(1, 6))`, `expovariate`, `normalvariate`, `random.choice`, `random.shuffle` (as a permutation of the four directions), and `randint` in `Cell` and `next_open`.
- Cells hold references to agents, and agents are objects whose fields the methods update. Each method's `modifies` clause names exactly the fields the Python code assigns.

Where the code and its documentation disagree, the model follows the code:

- `get_cell` does not wrap around, despite its doc string. It returns `None` outside the grid.
- `field_of_view` looks at the adjacent cell in each direction `vision` times. It never scales the offset by the distance.
- `next_open` never returns `(None, None)`, because `tries` cannot exceed `maxTries`. When no draw is empty it returns the last one.
- `move`'s tie branch (equal sugar at a smaller distance) refers to an undefined `currentCell`. It cannot be reached, because the first visit of any cell is at distance 0 and sugar is never negative.
- `move` calls `landscape.move` from the agent's recorded cell. That moves whoever stands there, which is not always the moving agent: a baby is never placed, and its recorded cell may hold another agent. The moving agent only changes position when it was that occupant.
- `birth` gives the baby no initial endowment other than the sugar of its own cell. It does not put the baby on the grid; only `AgentList.full_add` places agents.
- There is no mother field, no maximum age and no senescence trait in the code.

## Model

| member | source | states |
|---|---|---|
| Events.FirstMatch | event.py:41-42 | the index `list.remove` deletes: the first matching event |
| Events.OtherAgents | event.py:39-40 | exactly the events whose agent is not the given one, in order |
| Events.UnmatchedConcat | event.py:41-42 | removing by value distributes over concatenation, and so does counting |
| Events.RemoveFirstMatch | event.py:41-42 | one `list.remove` lowers the match count by one and leaves the unmatched events as they were |
| Events.AgentProbeMatchesNothing | event.py:41-42 | no Event equals an Agent, so `count(agent)` is 0 and the calendar is unchanged |
| Events.RemoveAgentLeavesAgentsEvents | event.py:39-42 | every event of the agent survives `remove_agent` as written |
| Events.OtherAgentsConcat | event.py:39-40 | filtering out one agent's events distributes over concatenation |
| Events.PopRemovesOne | event.py:33-34 | a pop removes one occurrence of the popped event and nothing else |
| Events.EventCalendar.constructor | event.py:16-17 | the calendar starts empty |
| Events.EventCalendar.Add | event.py:19-20 | the event is appended |
| Events.EventCalendar.GetMinEvent | event.py:22-37 | None on an empty calendar; otherwise the first event of least time, popped when `doPop` and left in place otherwise |
| Events.EventCalendar.RemoveMatching | event.py:41-42 | the `count`/`remove` loop removes exactly the events equal to the probe |
| Events.EventCalendar.RemoveAgent | event.py:39-42 | as written, the calendar is unchanged |
| Events.EventCalendar.RemoveEventsOf | event.py:39-40 | the intended behaviour: exactly the agent's events are removed and the rest keep their order |
| Events.EventCalendar.NextByType | event.py:44-55 | None exactly when no event of the type has a finite time; otherwise the first event of that type with the least time |
| ExtReals.ArgMin | agent.py:56-63 | the first index of the least value under `<` |
| ExtReals.ArgMax | agent.py:71-77 | the first index of the greatest value under `>` |
| ExtReals.ArgMinStep | agent.py:58-62 | one step of the strict-`<` scan keeps the first minimum of the prefix |
| ExtReals.ArgMaxStep | agent.py:73-77 | one step of the strict-`>` scan keeps the first maximum of the prefix |
| AgentMath.SugarLineComposes | agent.py:253-257 | projecting sugar from t0 to t1 and then to t2 equals projecting from t0 to t2 |
| AgentMath.SugarLineFalls | agent.py:253-257 | with non-negative metabolism, sugar never grows forward in time |
| AgentMath.SlopeOfLine | agent.py:265-267 | the slope `m` that compute_death computes is `-metab` |
| AgentMath.ComputeDeath | agent.py:259-269 | ZeroDivisionError exactly when the sugar runs out and the slope's denominator is 0; `-inf` exactly when sugar remains; otherwise `tNow + sugar / metab`, the time at which the sugar line reaches 0, which lies within `[tNow, tHopeful]` |
| AgentMath.DeathTimeOnLine | agent.py:267-268 | `tNow - sugar/m` is the zero of the sugar line |
| AgentMath.CheckedDie | agent.py:271-280 | `t_die` becomes the predicted death exactly when that death is finite and strictly before `t_move`, and otherwise stays |
| AgentMath.NextScheduleIsEarliest | agent.py:91-97 | the scheduled event has the earliest pending time, with ties going to move, die, reproduce, birth; that time is finite and no later than `t_move`; the result is an error exactly when compute_death divides by zero |
| AgentMath.FreshAgentSchedules | agent.py:39-47 | a newborn agent with non-zero metabolism always schedules successfully |
| AgentMath.TiesFollowEventOrder | agent.py:84-89 | among equal earliest times, the event listed first wins |
| AgentMath.TwoWayMaximum | agent.py:195 | birth's two-way `_maximum_pair` takes the mate's cell only when it has strictly more sugar |
| World.Regrown | landscape.py:18-21 | regrown sugar is at most the capacity and at most the old sugar plus the growth, and equals one of the two |
| World.RegrowthKeepsBounds | landscape.py:16-21 | regrowth keeps sugar between its old value and the capacity |
| World.FullCellStaysFull | landscape.py:16-21 | a full cell stays full |
| World.Cell.constructor | landscape.py:8-14 | the cell starts full at its drawn capacity, with no agent |
| World.Cell.UpdateSugar | landscape.py:16-21 | sugar grows by `(tNow - tLast) * ALPHA`, capped at the capacity |
| World.Landscape.constructor | landscape.py:26-31 | a rows × cols grid of full, empty cells that know their coordinates |
| World.Landscape.GetCell | landscape.py:80-85 | a cell exactly for valid coordinates, the cell at `[y][x]`; None otherwise |
| World.Landscape.GetCellNoWrap | landscape.py:84-85 | the `%` in get_cell never changes a valid coordinate |
| World.Landscape.IsEmpty | landscape.py:61-63 | the cell Python's negative-index reading selects has no agent |
| World.Landscape.Put | landscape.py:39-51 | succeeds exactly at a valid, empty coordinate, and then places the agent and sets its position; on failure nothing changes |
| World.Landscape.Remove | landscape.py:53-59 | the cell is left empty |
| World.Landscape.Move | landscape.py:87-94 | no effect when the source is empty; otherwise the source ends empty and the agent is at the target exactly when put succeeds |
| World.Landscape.NextOpen | landscape.py:65-78 | the result is the first empty draw, or the last of `rows * cols` draws; never None |
| World.Landscape.UpdateRow | landscape.py:99-102 | one row of the sweep regrows that row's cells and leaves the others |
| World.Landscape.UpdateSugar | landscape.py:96-103 | every cell with capacity regrows since the last update, the others are untouched, and sugar stays within bounds |
| World.ShuffledDirections | agent.py:112-113 | a shuffle of the four directions is four cardinal directions |
| World.SightingStep | agent.py:115-121 | one more step along a direction adds the adjacent cell when it is not too high |
| World.FovVisitsStep | agent.py:114-121 | the field of view is the concatenation of the sightings along each direction |
| World.FovChained | agent.py:114-121 | a visit at distance `d > 0` repeats the visit before it at `d - 1` |
| World.FovAdjacentOnly | agent.py:116-118 | every visited cell is adjacent to the agent |
| World.VisitedCells | agent.py:104-121 | the visited cells are on the landscape |
| World.EmptySugars | agent.py:169-172 | one key per cell: its sugar when empty, `-inf` when occupied |
| World.BestEmptyIsBest | agent.py:165-174 | null exactly when every cell is occupied; otherwise an empty cell with the most sugar of any empty cell, and more than any empty cell scanned before it |
| World.MateSugars | agent.py:147-151 | one key per cell: its sugar when it holds a live, non-gestating agent, `-inf` otherwise |
| World.BestMateIsWealthiest | agent.py:142-152 | null exactly when no eligible agent is in view; otherwise the first eligible agent whose cell has the most sugar |
| World.MooreRowsAt | agent.py:130-134 | the neighbourhood is visited row by row, left to right, around the agent |
| World.NotHeldByMembers | agent.py:135-136 | exactly the cells not held by the agent are evaluated |
| World.BirthChoice | agent.py:187-195 | null exactly when both best cells are null; the mate's cell only when it has strictly more sugar |
| World.BirthSpotIsBest | agent.py:182-197 | no birth cell exactly when both neighbourhoods are full; otherwise an empty cell of either neighbourhood with the most sugar among both |
| World.Deliver | agent.py:203-208 | a fresh agent at the birth cell with the inherited traits, its sugar taken from the cell, and its first event posted |
| World.Agent.constructor | agent.py:9-47 | the traits are as given or drawn; the position is as given or next_open's; the agent eats its cell's sugar and posts its earliest pending event |
| World.Agent.Start | agent.py:46-47 | eating then setNextEvent: the cell's sugar moves to the agent, and one event is posted |
| World.Agent.MinimumPair | agent.py:50-63 | the first least value and its result |
| World.Agent.MaximumPair | agent.py:65-82 | the first greatest value and its result; `(-inf, results[0])` when all are `-inf` |
| World.Agent.GetNextEvent | agent.py:84-89 | the earliest pending time and its type, finite and no later than `t_move` |
| World.Agent.CheckForDeath | agent.py:271-280 | `t_die` takes a predicted death strictly before `t_move`; on ZeroDivisionError it is unchanged and the error is returned |
| World.Agent.SetNextEvent | agent.py:91-97 | one event appended at the earliest pending time after the death check, with `nextSugar` projected to it; on error, nothing is posted, `t_die` stays and the next event is the earliest pending one from before the death check |
| World.Agent.Eat | agent.py:99-102 | the cell's sugar moves to the agent, and the total is conserved |
| World.Agent.FieldOfView | agent.py:104-121 | the visits are the specified field of view for the shuffled directions |
| World.Agent.LookAlong | agent.py:115-121 | the visits along one direction |
| World.Agent.MoveTarget | agent.py:228-243 | move's scan finds the first empty visited cell with the most sugar |
| World.Agent.Evaluate | agent.py:229-241 | a strictly richer empty cell replaces the best; nothing else changes it |
| World.Agent.ChooseTarget | agent.py:228-243 | the target is the best empty cell in the field of view |
| World.Agent.Move | agent.py:223-251 | the agent gains the sugar of the best empty cell in view (if any), which is eaten to 0; whoever stood on the agent's recorded cell moves there, and the agent itself moves only if it was that occupant; no other cell changes its sugar or agent and sugar stays within capacity; `t_move = t + |wait|`, and the agent is rescheduled |
| World.Agent.Reschedule | agent.py:250-251 | `t_move` is redrawn and setNextEvent runs; the agent's sugar and position, the landscape and every other agent are untouched |
| World.Agent.Seek | agent.py:225-248 | sugar is brought up to date, then the best empty cell in view receives the occupant of the recorded cell and is eaten; the same frame as Move |
| World.Agent.GoAndEat | agent.py:245-248 | landscape.move of the recorded cell's occupant (this agent or another) to the target, then eat; only the target's sugar and the two cells' agents change, and sugar stays within capacity |
| World.Agent.Wealthiest | agent.py:142-152 | reproduce's scan finds the wealthiest eligible agent in view |
| World.Agent.ChooseMate | agent.py:142-152 | the mate is the wealthiest eligible agent in the field of view |
| World.Agent.Reproduce | agent.py:138-161 | with a mate, the gestation period is drawn, the birth is due at its end and no reproduce is pending; without one, the next attempt is due at `t + 0.001 + wait`; the agent is rescheduled |
| World.Agent.Court | agent.py:154-161 | the same state change, once the mate is known |
| World.CourtedIsNotEligible | agent.py:154-158 | once courted, the agent is gestating (is_gestating) at every time, so no scan picks it as a mate |
| World.WeanedEligibility | agent.py:210-213 | after birth a live parent can be picked as a mate exactly once `t_reproduce + period_g` has passed |
| World.NewbornIsEligible | agent.py:42-44 | a newborn has no gestation period (is_gestating is False) and can be picked as a mate at every time |
| World.Agent.MooreNeighborhood | agent.py:123-136 | the evaluated cells are the 3×3 block around the agent, minus the agent's own cell |
| World.Agent.MooreRowScan | agent.py:132-136 | one row of the block, minus the agent's cell |
| World.Agent.GetBestBirthCell | agent.py:163-174 | the first empty neighbourhood cell with the most sugar |
| World.Agent.BirthCell | agent.py:185-195 | the birth cell is the better of the two parents' best cells |
| World.Agent.Conceive | agent.py:180-208 | a baby exactly when both parents are alive and a birth cell exists; it is born there with the chosen traits and posts its first event |
| World.Agent.Wean | agent.py:210-214 | the mate and the birth are cleared, the next reproduce is drawn, and the agent is rescheduled |
| World.Agent.Birth | agent.py:176-215 | the baby (as in Conceive), then the parent's reset and rescheduling after the baby's event |
| Stats.SumPermutation | agent.py:339-342 | a sum does not depend on the iteration order of the set |
| Stats.InsertSorted | agent.py:353 | insertion keeps the list sorted by key |
| Stats.SortByKey | agent.py:353 | `list.sort(key, reverse)` gives a sorted permutation |
| Stats.SortedKeysOrderIndependent | agent.py:352-353 | the sorted keys do not depend on the order in which the set is listed |
| Stats.AscendingKeys | agent.py:353 | the keys of an ascending sort are ascending |
| Stats.MedianIndices | agent.py:370-371 | `floor(n/2)` is `n/2`, and `ceil((n+1)/2)` is `n/2 + 1` |
| Stats.MedianOf | agent.py:364-376 | 0 for no keys; None for one or two; otherwise the mean of the keys at `n/2` and `n/2 + 1` |
| Stats.MedianOfThreeIsNotMiddle | agent.py:370-373 | for 1, 2, 3 the formula gives 2.5 rather than 2; for a single key it gives None |
| Stats.MiddleOf | agent.py:356-362 | the median the doc string names is always defined |
| Stats.MiddleOfSplits | agent.py:356-362 | the corrected median is at least the lower half of the keys and at most the upper half |
| Population.StatSumOfListing | agent.py:339-341 | summing the statistics over any listing of the set gives the set's sum |
| Population.Listing | agent.py:352 | `list(set)` holds each agent of the set exactly once |
| Population.TaggedMultiset | agent.py:352-353 | listings with the same agents give the same (key, agent) pairs |
| Population.SortedStatsAscending | agent.py:352-353 | the statistics in sorted order are ascending |
| Population.OrderedFacts | agent.py:352-354 | the agents leave the sort once each, ordered by the statistic |
| Population.ItemsPermute | agent.py:353 | dropping keys from permuted pairs gives a permutation of the agents |
| Population.AgentList.constructor | agent.py:290-291 | ids start at 0, with no agents |
| Population.AgentList.Add | agent.py:296-303 | the agent gets the next id, the counter advances and the agent joins the set; ids stay unique and below the counter |
| Population.AgentList.FullAdd | agent.py:305-311 | the add, then put: success exactly when the agent's cell is valid and empty, and then the agent is on it; otherwise the fault of the raised exception, with nothing placed |
| Population.AgentList.GetById | agent.py:313-320 | an agent with the id when one exists, the only one; null exactly when none has it |
| Population.AgentList.Remove | agent.py:322-327 | a listed agent leaves the set and its cell, and no other cell changes; the calendar is unchanged, as remove_agent removes nothing; an unlisted agent changes nothing |
| Population.AgentList.RemoveCorrected | agent.py:322-327 | as Remove, but with the intended calendar removal: exactly the agent's events go and the rest keep their order |
| Population.AgentList.Average | agent.py:329-342 | 0 for no agents; otherwise the sum of the statistic over the set divided by its size |
| Population.AgentList.ToList | agent.py:352 | every agent of the set, once |
| Population.AgentList.OrderedBy | agent.py:344-354 | a permutation of the agents sorted by the statistic, ascending or reversed; ascending, its statistics are the set's sorted statistics |
| Population.AgentList.Median | agent.py:356-376 | median as written, on the set's sorted statistics |
| Population.MiddleMean | agent.py:370-376 | the mean at median's two indices, None on the IndexError |
| Population.AgentList.CorrectedMedian | agent.py:356-362 | the middle statistic, or the mean of the two middle ones, splitting the sorted statistics in halves |
| Population.MiddleValue | agent.py:356-362 | the corrected median's value on the ordered agents |
| Rng.ReplayKeys | rng.py:11-25 | after a run of requests, exactly the requested names have generators |
| Rng.FirstRequestsDistinct | rng.py:15-17 | each name gets its generator at its first request, once |
| Rng.ReplayBindsFirstRequests | rng.py:15-17 | the k-th distinct name binds to the bit generator jumped k times |
| Rng.DistinctNamesDistinctStreams | rng.py:15-17 | different names never share a stream |
| Rng.ReplayOnlyGrows | rng.py:15-17 | later requests never rebind an existing name |
| Rng.FirstRequestOrderMatters | rng.py:15-17 | a name's stream depends on the order of first requests |
| Rng.RNG.constructor | rng.py:5-9 | no generators, and an unjumped bit generator |
| Rng.RNG.Expand | rng.py:11-17 | a new name binds to the current bit generator, which then jumps; a known name changes nothing |
| Rng.RNG.Get | rng.py:19-25 | the name's generator, created first when it is new |

## Left out

- Random number generation itself is out of scope. Every draw is a parameter with its distribution's range, and numpy's Philox is a counter of jumps.
- Floating point is modelled as exact reals: rounding, NaN and overflow are out.
- `print` warnings and plotting are out of scope.
- The `AgentList(initialAmt, ...)` constructor loop is left out. Its `full_add` may raise inside a constructor. `Population.AgentList.constructor` models only the initial empty state, and `FullAdd` models each iteration.
- World.Agent.constructor requires non-zero metabolism when it is given, and `moveWait > 0`. Without these, the first setNextEvent can raise ZeroDivisionError inside `__init__`, which this model does not represent.
- World.Deliver requires `moveWait > 0` for the baby's constructor, for the same reason; `expovariate` can return 0.0, which is left out.
- World.Agent.Conceive requires `moveWait > 0` even when no baby is made, because it passes the draw to Deliver; a zero draw is left out.
- World.Agent.Birth requires `moveWait > 0` even when no baby is made, as Conceive does; a zero draw is left out.
- World.Agent.constructor requires a valid given position, or `rows * cols > 0` and enough in-range placement draws. Without these, Python would crash on a `None` cell.
- World.Agent.constructor: the error branch at agent.py:31-32 is dead, because next_open never returns None. It is not modelled.
- World.Agent.Birth requires both parents to be at interior cells when both are alive. At the edge, the Moore neighbourhood steps off the grid and Python crashes on a `None` cell.
- World.Agent.Move requires `vision > 0 ==> Interior`, for the same off-grid reason in field_of_view.
- World.Agent.Reproduce has the same interior requirement as Move.
- World.Agent.Reproduce runs the mate scan before `self.sugar = self.nextSugar`. The scan reads no field that assignment writes, so the order does not matter.
- World.Agent.Move: the tie branch of the evaluate callback is proved unreachable and is not modelled. It would raise NameError.
- Population.AgentList.FullAdd: the source raises Exception with the occupant's id. The model returns `Failure(CannotPut)` and does not compute the message.
- Population.AgentList.Median: the `ordered == None` branch is dead, because ordered_by always returns a list. It is not modelled.
- Population.AgentList.OrderedBy does not state the stable order of equal keys. It states sortedness, the permutation, and, for ascending order, the sorted statistics.
- Population.AgentList.Add: the isinstance check (a TypeError) cannot arise, because the types exclude non-agents.
- World.Agent.FieldOfView: the `callable(evaluate)` TypeError checks of field_of_view and moore_neighborhood cannot arise, because the callbacks are fixed methods.
- sugarscape.py (the simulation loop and its event dispatch), config.py, visual.py and pause.py are not part of this model.

## Findings

| source | as written | input that shows it | evidently intended | confidence | as-written member | corrected member |
|---|---|---|---|---|---|---|
| event.py:39-42 | `calendar.count(agent)` compares Event records with an Agent, so it is always 0 and nothing is removed | any calendar holding an event of the agent; that event stays (Events.RemoveAgentLeavesAgentsEvents) | remove every event whose agent is the given one | not executed | Events.EventCalendar.RemoveAgent, Population.AgentList.Remove | Events.EventCalendar.RemoveEventsOf, Population.AgentList.RemoveCorrected |
| agent.py:370-373 | the average of the sorted statistics at `floor(l/2)` and `ceil((l+1)/2)`, which are `n/2` and `n/2 + 1` | statistics 1, 2, 3 give 2.5 instead of 2; a single agent gives None (Stats.MedianOfThreeIsNotMiddle) | the middle statistic, or the mean of the two middle ones | not executed | Population.AgentList.Median | Population.AgentList.CorrectedMedian |
