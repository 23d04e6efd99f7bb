# Surgery scheduling by simulated annealing, in Dafny

This project models the engine of a surgery scheduler. The engine assigns
surgery requests to operating rooms. Each request has an id, an initial
room, a duration in minutes and a special-room flag ("Y"). The engine
minimises a cost made of overtime and imbalance, and it never places a
"Y" request outside the special rooms. It works in five steps:

- A round-robin construction builds the initial schedule.
- Simulated annealing picks a neighbourhood move per iteration, accepts it
  by the Metropolis rule, cools per round, and sets its initial
  temperature by bisection on the acceptance rate.
- The best schedule found is written back into the timetable rows.
- `ScheduleMetrics` recomputes the same per-room figures for reporting.
- Around the engine, the project also models the line readers of
  `DataManager` and `ReadAndPrepareData`, the `room.csv` writer, and the
  overlap accounting of the Gantt script.

The modules follow the source:

| module (file) | models |
|---|---|
| `Wrappers` (wrappers.dfy) | `Option`, `Result`, `Outcome` |
| `Text` (text.dfy) | the Java string operations the readers use: `split(",")`, `trim`, `replace`, `startsWith`/`contains`, `String.join`, `BufferedReader.readLine`, `Integer.parseInt`/`toString` |
| `TreeSets` (tree_set.dfy) | `TreeSet<String>` as a strictly sorted sequence under `compareTo` |
| `SurgeryNodes` (surgery_node.dfy) | `SurgeryNode` |
| `Schedules` (schedule.dfy) | class `Schedule`, and the census (multiset) of the requests a room map holds |
| `Evaluation` (evaluation.dfy) | parameters, room usage, overtime, balance, the cost, validity |
| `Construction` (construction.dfy) | `createInitialSchedule` |
| `Perturbation` (perturbation.dfy) | `perturbSchedule`, as functions of explicit random draws |
| `Annealing` (annealing.dfy) | iteration count, cooling rate, acceptance rate, the temperature bisection |
| `AnnealingRun` (annealing_run.dfy) | the annealing loop of `schedule()` with best tracking, as functions |
| `Scheduling` (scheduler.dfy) | class `Scheduler`: every method imperatively, each proved against the functions above; the write-back |
| `Metrics` (metrics.dfy) | class `ScheduleMetrics` |
| `DataManagement` (data_manager.dfy) | class `DataManager`: the three readers and `updateTimetableData` |
| `Preparation` (preparation.dfy) | `ReadAndPrepareData`: `readTimeTable`, `createRoomCsv` (round trip with `readRoomData`), `readArguments` |
| `Gantt` (gantt.dfy) | `calculate_time_in_blocks` of the Gantt script |

Random draws are explicit parameters. `Random.nextInt` and
`nextBoolean` are a `Move(source, target, swap, position)` per try. The
Metropolis test `random.nextDouble() < Math.exp(-deltaE / T)` is a given
bit `lucky`, consulted only when the cost rises, as in the source. Costs and
temperatures are `real`. Files, consoles and the HashMap iteration order
are also parameters (the text of a file, an `order` sequence).

## Model

| member | source | states |
|---|---|---|
| SurgeryNodes.ToCsvString | SurgeryNode.java:30-32 | the id, the initial room, the decimal duration and the flag, joined by single commas |
| SurgeryNodes.CsvRoundTrip | SurgeryNode.java:30-32 | splitting `toCsvString` on commas and parsing field 3 gives back the same node, when the text fields have no comma, the flag is not empty and the duration is a 32-bit value |
| SurgeryNodes.IntToStringHasNoComma | SurgeryNode.java:31 | the decimal form of the duration contains no comma, so it is one CSV field |
| SurgeryNodes.ToString | SurgeryNode.java:34-42 | the result starts with the template's fixed head followed by the id, ends with `'}`, and is as long as the template filled with the four fields |
| SurgeryNodes.ToStringRoundTrip | SurgeryNode.java:34-42 | reading the template back from `toString` recovers the id, the initial room, the duration and the flag, each from its own place, when the three text fields hold no quote and the duration is a 32-bit value |
| SurgeryNodes.TemplateRoundTrip | SurgeryNode.java:35-41 | the same read-back for any head and tail, and any three tags that start with the quote or comma closing the field before them |
| SurgeryNodes.NeedsSpecialRoom | Scheduler.java:133 | true exactly when the flag is one character whose upper case is 'Y', as `"Y".equalsIgnoreCase` decides |
| Schedules.Schedule.constructor | Schedule.java:7-10 | the schedule holds the given room map, and its cost is 0.0 |
| Schedules.Schedule.SetCost | Schedule.java:20-22 | afterwards the cost is the given value and the rooms are unchanged |
| Schedules.Schedule.Copy | Schedule.java:25-33 | a fresh schedule with the same rooms, each room's list equal element by element, and the same cost; the original is unchanged |
| Schedules.CensusSplit | Schedule.java:4 | the multiset of all requests is one room's list plus the requests of all the other rooms |
| Schedules.CensusUpdate | Schedule.java:4 | replacing one room's list changes the multiset of all requests by exactly the difference between the old and new list |
| Schedules.CensusOfEmptyRooms | Schedule.java:4 | a map whose every room is empty holds no request |
| Schedules.CensusHas | Schedule.java:4 | every request of a room's list is counted in the multiset of all requests |
| Evaluation.ParamsFrom | Scheduler.java:34-41 | each parameter is the value stored under its key, or its default (510, 540, 120, 45) when the key is missing |
| Evaluation.RoomUsage | Scheduler.java:167-178 | a room without a list or with an empty list uses 0 minutes; otherwise its usage is the accumulated duration plus transition per request, minus one transition |
| Evaluation.AccumulatedTimeCounts | Scheduler.java:171-173 | adding duration plus transition per request gives the durations plus one transition per request |
| Evaluation.AccumulatedMinusLastIsUsage | Scheduler.java:168-177 | calculateCost's usage (accumulate, then subtract one transition from a non-empty room) equals the closed form durations + (count - 1) transitions, or 0 for an empty room |
| Evaluation.UsageBounds | Scheduler.java:167-178 | with non-negative durations and transition, a room's usage is non-negative and at least the sum of its durations |
| Evaluation.Usages | Scheduler.java:167-178 | one usage per room of `allRooms`, in order, each that room's usage |
| Evaluation.TotalRegularOvertime | Scheduler.java:181-182 | the total regular overtime is never negative |
| Evaluation.TotalOvertime | Scheduler.java:185-186 | the total overtime is never negative |
| Evaluation.Deviation | Scheduler.java:193-196 | the balance term is never negative |
| Evaluation.Cost | Scheduler.java:159-202 | the cost (regular overtime + 2 x overtime + distances from the average usage) is never negative, whatever the durations and parameters |
| Evaluation.DeviationZeroIff | Scheduler.java:193-196 | the balance term is zero exactly when every room's usage equals the average |
| Evaluation.RegularOvertimeZeroIff | Scheduler.java:181-182 | the regular overtime total is zero exactly when no room's usage exceeds maxRegularTime |
| Evaluation.OvertimeZeroIff | Scheduler.java:185-186 | the overtime total is zero exactly when no room's usage exceeds maxRegularTime + maxOvertime |
| Evaluation.CostZeroIff | Scheduler.java:159-202 | the cost is zero exactly when no room exceeds its regular time or its overtime, and all usages are equal |
| Evaluation.OvertimeAtMostRegular | Scheduler.java:181-186 | with maxOvertime >= 0, overtime never exceeds regular overtime, room by room and in total |
| Evaluation.UsageExample | Scheduler.java:167-202 | rooms A = [480, 90] and B = [60, 30] with the defaults: usages 615 and 135, and room A has regular overtime 75 and no overtime |
| Construction.GeneralRooms | Scheduler.java:126-128 | a room is general exactly when it is in `allRooms` and not special; there are no more general rooms than rooms |
| Construction.EmptyRooms | Scheduler.java:121-124 | one empty list for every room of `allRooms` and no other key |
| Construction.Deal | Scheduler.java:131-148 | a phase keeps the keys of the map, or fails with the missing room or with `% 0` |
| Construction.InitialRooms | Scheduler.java:120-150 | a schedule that is built has exactly the keys of `allRooms` |
| Construction.DealShares | Scheduler.java:131-148 | each room's list grows by exactly its round-robin share of the dealt requests, the share fixed by the running counter |
| Construction.DealConserves | Scheduler.java:131-148 | a phase adds every dealt request exactly once and changes nothing else in the multiset of requests |
| Construction.SpecialPhaseValid | Scheduler.java:131-138 | the special phase keeps the schedule valid: it deals only into special rooms |
| Construction.GeneralPhaseKeepsValid | Scheduler.java:141-148 | the general phase keeps the schedule valid: it deals no "Y" request |
| Construction.InitialRoomsValid | Scheduler.java:120-150 | the initial schedule always passes isValid |
| Construction.OtherRequestsEmpty | Scheduler.java:143 | no request reaches the general phase exactly when every request is a "Y" request |
| Construction.SpecialSelection | Scheduler.java:133 | the special phase deals the "Y" requests in input order, or none when there is no special room |
| Construction.OtherSelection | Scheduler.java:143 | the general phase deals the non-"Y" requests in input order |
| Construction.RequestsPartition | Scheduler.java:133-143 | the "Y" and the non-"Y" requests together are the requests, each exactly once |
| Construction.SelectionIsPartition | Scheduler.java:131-148 | the special phase deals the "Y" requests when there are special rooms and none otherwise, the general phase deals the others, and the two kinds together are the requests, each once |
| Construction.InitialRoomsConserve | Scheduler.java:120-150 | with special rooms every request is placed exactly once; with none, exactly the non-"Y" requests are |
| Construction.InitialRoomsShares | Scheduler.java:120-150 | each room holds its round-robin share of the "Y" requests, then its share of the others |
| Construction.NoDealWithoutTargets | Scheduler.java:133 | with no special room the special phase changes nothing |
| Construction.NoOtherRequests | Scheduler.java:141-148 | with no general room, a general phase that succeeds changed nothing, and no request needed a general room |
| Construction.GeneralPhaseFailsWithoutRooms | Scheduler.java:144 | a non-"Y" request with no general room makes the construction fail with `% 0` |
| Construction.DealSucceeds | Scheduler.java:135 | a phase whose every target room has a list cannot fail for a missing room |
| Construction.InitialRoomsOutcome | Scheduler.java:120-150 | the construction succeeds when every special room is a room and a general room exists or every request is "Y"; it fails with `% 0` when there is no general room and some request is not "Y" |
| Construction.FirstSpecialRoomMissing | Scheduler.java:134-135 | when the first special room has no list, the first "Y" request makes the construction fail with that room |
| Construction.InitialRoomsExample | Scheduler.java:120-150 | four non-"Y" requests over rooms A and B: requests 0 and 2 go to A, 1 and 3 to B |
| Construction.GeneralDealExample | Scheduler.java:141-148 | the general phase of that example deals the four requests alternately over A and B |
| Perturbation.HighPhaseMeaning | Scheduler.java:291 | above the 0.6 threshold the temperature lies more than 0.6 of the way from 0.01 to the initial one |
| Perturbation.FirstLongest | Scheduler.java:311 | the index of a longest request, and the first of equals |
| Perturbation.FirstShortest | Scheduler.java:313 | the index of a shortest request, and the first of equals |
| Perturbation.RemoveAt | Scheduler.java:315 | the list one shorter, without the chosen element, the rest in order |
| Perturbation.RemoveAtMultiset | Scheduler.java:315 | removing takes exactly one occurrence of the element out of the list's multiset |
| Perturbation.InsertAt | Scheduler.java:327 | the list one longer, with the element at the chosen index and the rest in order |
| Perturbation.InsertAtMultiset | Scheduler.java:327 | inserting adds exactly one occurrence of the element to the list's multiset |
| Perturbation.Picked | Scheduler.java:310-314 | a valid index into the non-empty source room |
| Perturbation.Relocate | Scheduler.java:315-328 | the two lists keep their total length, and the picked request ends up in the target list |
| Perturbation.RelocateConserves | Scheduler.java:315-328 | the two lists together hold the same multiset of requests before and after |
| Perturbation.Attempt | Scheduler.java:283-328 | `None` exactly when the source room is empty; otherwise the same keys, only the two drawn rooms change, their total length is kept and the picked request is in the target |
| Perturbation.AttemptConserves | Scheduler.java:283-328 | a try keeps the multiset of all requests of the schedule |
| Perturbation.CensusBalance | Scheduler.java:315-328 | two room updates that put back what they took leave the multiset of all requests unchanged |
| Perturbation.AttemptKeepsCount | Scheduler.java:283-328 | a try keeps the number of requests placed |
| Perturbation.FirstSuccess | Scheduler.java:282-335 | the first try index below 50 whose result passes isValid, or 50; every earlier try fails |
| Perturbation.Neighbour | Scheduler.java:282-335 | a neighbour passes isValid and has the same rooms |
| Perturbation.Outcomes | Scheduler.java:331 | one success bit per try, in order |
| Perturbation.FirstTrue | Scheduler.java:282-335 | the index of the first true bit from `t` on, or the length when none is true |
| Perturbation.FirstSuccessIsFirstTrue | Scheduler.java:282-335 | the retry search reads the tries' success bits in order |
| Perturbation.NeighbourFindsSuccess | Scheduler.java:331-333 | if any of the 50 tries would succeed, the search succeeds |
| Perturbation.NeighbourConserves | Scheduler.java:282-335 | a neighbour has the same rooms and exactly the same requests as the schedule it came from |
| Perturbation.NoSuccessInEmptyRooms | Scheduler.java:303-306 | when every room is empty, no try takes place |
| Perturbation.NoNeighbourOfEmptyRooms | Scheduler.java:303-306 | when every room is empty, no neighbour is found |
| Perturbation.PerturbedRooms | Scheduler.java:277-339 | the same rooms; a result that differs from the input passes isValid |
| Perturbation.PerturbedRoomsConserve | Scheduler.java:277-339 | perturbation keeps the keys and the multiset of all requests |
| Perturbation.PerturbedRoomsValid | Scheduler.java:277-339 | a schedule that passes isValid still does after perturbation |
| Annealing.Iterations | Scheduler.java:76 | k <= 1.5 n + 0.5 < k + 1: 1.5 n rounded half up |
| Annealing.CoolingRate | Scheduler.java:347-349 | the factor (1.2 sqrt(n) - 1) / (1.2 sqrt(n)) lies in [1/6, 1) for n >= 1 |
| Annealing.CoolingGain | Scheduler.java:347-349 | the per-round gain 1 / (1.2 sqrt(n) - 1) is positive |
| Annealing.CoolingStep | Scheduler.java:98 | one more round keeps the temperature positive and keeps temp x (1 + k x gain) <= T0 |
| Annealing.CoolingBound | Scheduler.java:74-99 | while the temperature is above 0.01, the round count is at most (100 T0 - 1)(1.2 sqrt(n) - 1), so the loop ends |
| Annealing.BracketWidth | Scheduler.java:235-244 | the bracket width after k halvings, 9999.99 / 2^k, is positive |
| Annealing.BracketShrinks | Scheduler.java:237-244 | the bracket width never grows with more halvings |
| Annealing.BracketAtSeventeen | Scheduler.java:237 | after 16 halvings the bracket is still wider than 0.1; after 17 it is not |
| Annealing.WideBracketIsEarly | Scheduler.java:237 | a bracket wider than 0.1 has been halved fewer than 17 times, so the bisection ends |
| Annealing.SampledNeighbour | Scheduler.java:259 | the neighbour of one trial has the same rooms as the schedule |
| Annealing.AcceptedCount | Scheduler.java:256-265 | the number of accepted trials among the first n is between 0 and n |
| Annealing.AcceptedCountStep | Scheduler.java:261-264 | one more trial adds one to the count exactly when it is accepted |
| Annealing.AcceptanceRate | Scheduler.java:255-267 | the accepted share of the 100 trials lies in [0, 1] |
| Annealing.AllAcceptedWithoutMoves | Scheduler.java:259-264 | with fewer than two rooms every trial is accepted |
| Annealing.MeasuredRates | Scheduler.java:239 | the rate measured at step j and temperature t is the acceptance rate on that step's draws |
| Annealing.RatesMeasured | Scheduler.java:239 | a rate function exists that is exactly the measured acceptance rates |
| Annealing.Bisect | Scheduler.java:234-246 | the temperature found lies in (low, high] of the bracket it started from |
| Annealing.BisectStep | Scheduler.java:238-243 | one halving's result lies in (low, high] |
| Annealing.BisectAgrees | Scheduler.java:234-246 | rates that agree everywhere give the same temperature |
| Annealing.RatesFindTemperature | Scheduler.java:234-246 | bisecting the measured rates from [0.01, 10000] gives the initial temperature |
| Annealing.BisectUp | Scheduler.java:239-240 | a rate below 0.95 moves the search into the upper half, of the next width |
| Annealing.BisectDown | Scheduler.java:241-242 | a rate of at least 0.95 moves the search into the lower half, of the next width |
| Annealing.BisectBrackets | Scheduler.java:234-246 | the result is the starting upper end, or a midpoint where a rate of at least 0.95 was measured |
| Annealing.FinalLow | Scheduler.java:237-244 | the low end of the last bracket lies in [low, high) of the starting bracket |
| Annealing.BisectFloor | Scheduler.java:234-246 | the low end of the last bracket is the starting low end or a midpoint where a rate below 0.95 was measured |
| Annealing.FinalBracketWidth | Scheduler.java:237-246 | the result lies 9999.99 / 2^17 above the low end of the last bracket |
| Annealing.NarrowBracketIsLast | Scheduler.java:237 | a bracket of at most 0.1, reached within 17 halvings, has had exactly 17 |
| Annealing.BisectAllRejected | Scheduler.java:234-246 | when every rate is below 0.95 the search returns the top of the bracket |
| Annealing.BisectAllAccepted | Scheduler.java:234-246 | when every rate reaches 0.95 the search returns the lower end plus 9999.99 / 2^17 |
| Annealing.InitialTemperature | Scheduler.java:234-246 | the calibrated temperature lies in (0.01, 10000] |
| Annealing.RateWithoutMoves | Scheduler.java:255-267 | with fewer than two rooms every measured rate is 1.0 |
| Annealing.InitialTemperatureWithoutMoves | Scheduler.java:234-246 | with fewer than two rooms the calibration returns 0.01 + 9999.99 / 2^17 |
| AnnealingRun.Start | Scheduler.java:62-63 | before the first step the current and the best schedule are the initial one |
| AnnealingRun.DrawableByKeys | Scheduler.java:294-298 | whether the draws name two distinct rooms depends only on the room names |
| AnnealingRun.Step | Scheduler.java:80-95 | one iteration keeps the current rooms' names, and the best's when they were the same |
| AnnealingRun.Sweep | Scheduler.java:78-96 | the iterations at one temperature keep the current rooms' names, and the best's when they were the same |
| AnnealingRun.SweepStep | Scheduler.java:78-96 | one more iteration of a sweep is one more step |
| AnnealingRun.Anneal | Scheduler.java:74-99 | the temperature loop keeps the current rooms' names, and the best's when they were the same |
| AnnealingRun.AnnealRound | Scheduler.java:74-99 | a round above 0.01 is one sweep followed by the loop at the cooled temperature, and the cooling bound still holds |
| AnnealingRun.StepSound | Scheduler.java:80-95 | a step keeps the rooms, the requests, true cached costs and best <= current; the best cost never rises, the best is unchanged or the new current, and validity is kept |
| AnnealingRun.SweepSound | Scheduler.java:78-96 | a sweep keeps the rooms, the requests, true cached costs and best <= current; the best cost never rises and validity is kept |
| AnnealingRun.AnnealSound | Scheduler.java:74-99 | the annealing loop keeps the rooms, the requests, true cached costs and best <= current; the best cost never rises and validity is kept |
| AnnealingRun.DrawableAllByKeys | Scheduler.java:294-298 | draws usable on the room names are usable at every step |
| AnnealingRun.CostOf | Scheduler.java:159-202 | the cost function agrees with the schedule cost of `calculateCost` on every room map |
| AnnealingRun.Cool | Scheduler.java:66-99 | the best schedule of the walk has the initial rooms' names |
| AnnealingRun.Run | Scheduler.java:58-99 | the best schedule of the annealing has the initial rooms' names |
| AnnealingRun.RunSound | Scheduler.java:58-99 | the best schedule has the initial rooms and requests and its true cost; it costs no more than the initial and the final current schedule, and it is valid when the initial schedule is |
| Scheduling.RowsByIdHas | Scheduler.java:368-374 | an id is in the lookup map exactly when some data row of at least two fields has it in field 1 |
| Scheduling.RowsByIdLast | Scheduler.java:368-374 | the row stored under an id is the last data row with that id |
| Scheduling.RowsById | Scheduler.java:368-374 | every stored row has at least two fields and is stored under its own field 1 |
| Scheduling.RoomRows | Scheduler.java:381-388 | on success, at most one row per request of the room, each with more than five fields and the room in field 5 |
| Scheduling.RoomsRows | Scheduler.java:377-389 | on success, every row written has more than five fields and names one of the visited rooms in field 5 |
| Scheduling.WriteBack | Scheduler.java:356-391 | on success the first row is the original header, and every later row has more than five fields and names a visited room in field 5 |
| Scheduling.Tagged | Scheduler.java:381-382 | one placement per request of the room, in list order, each naming that room |
| Scheduling.RoomRowsContents | Scheduler.java:381-388 | a room's rows are, in list order, one row per request that has a data row: that row with field 5 set to the room and every other field and the length kept; requests without a row add nothing; or the id of the first such request whose row has fewer than six fields |
| Scheduling.RoomsRowsContents | Scheduler.java:377-389 | the same for all the rooms, visited in iteration order, room after room |
| Scheduling.WriteBackContents | Scheduler.java:356-391 | the write-back succeeds exactly when every request that has a data row has one of six fields or more; then the header is kept and followed by those rows, in order, with field 5 set to the request's room; otherwise it fails with the id of the first request, in that order, whose row is short |
| Scheduling.Then | Scheduler.java:377-389 | fails exactly when the room's rows fail |
| Scheduling.ThenAppends | Scheduler.java:377-389 | writing rooms one after another appends their rows in that order |
| Scheduling.RoomRowsHead | Scheduler.java:381-388 | a room's rows are its first request's row followed by the rest's rows |
| Scheduling.RoomsRowsHead | Scheduler.java:377-389 | the rows of all rooms are the first room's rows followed by the other rooms' rows |
| Scheduling.Scheduler.constructor | Scheduler.java:34-41 | the four parameters are read from the arguments map, with defaults 510, 540, 120, 45 |
| Scheduling.Scheduler.CreateInitialSchedule | Scheduler.java:120-150 | a fresh schedule with the rooms `InitialRooms` builds and cost 0.0, or the construction's error |
| Scheduling.Scheduler.CalculateCost | Scheduler.java:159-202 | the returned cost is the schedule's cost over `allRooms` and is stored in the schedule; the rooms are unchanged |
| Scheduling.Scheduler.Deviate | Scheduler.java:193-196 | the loop's balance cost is `Deviation`: the sum of the distances of the usages from the average |
| Scheduling.Scheduler.MeasureRoom | Scheduler.java:168-177 | a room's usage, computed the way the source does, is the closed-form usage |
| Scheduling.Scheduler.IsValid | Scheduler.java:210-225 | true exactly when no "Y" request sits in a room that is not special |
| Scheduling.Scheduler.PerturbSchedule | Scheduler.java:277-339 | the result's rooms are `PerturbedRooms`; the result is `current` itself exactly when there are two rooms or more and no try succeeds; otherwise it is fresh with `current`'s cost |
| Scheduling.Scheduler.RetryMoves | Scheduler.java:282-335 | found exactly when some try among the 50 succeeds, and then a fresh schedule with the first successful try's rooms and `current`'s cost |
| Scheduling.Scheduler.TryCopy | Scheduler.java:283-333 | a fresh copy with `current`'s cost; done exactly when the try succeeds, and then the copy holds the try's rooms |
| Scheduling.Scheduler.TryMove | Scheduler.java:300-333 | valid exactly when the try succeeds, and then the copy holds the try's rooms |
| Scheduling.Scheduler.MoveRequest | Scheduler.java:308-328 | the copy's rooms become the try's rooms (`Attempt`), changed in place |
| Scheduling.Scheduler.CalculateAcceptanceRate | Scheduler.java:255-267 | the rate is `AcceptanceRate` on the given draws, and `schedule` keeps its rooms and cost |
| Scheduling.Scheduler.Trial | Scheduler.java:259-264 | a trial is accepted exactly when `TrialAccepted` holds on its draws |
| Scheduling.Scheduler.MeasureRate | Scheduler.java:239 | the rate measured at a midpoint is the one `MeasuredRates` predicts |
| Scheduling.Scheduler.Halve | Scheduler.java:238-243 | the new bracket has the next width, and bisecting from it gives the same temperature |
| Scheduling.Scheduler.FindInitialTemperature | Scheduler.java:234-246 | the result is `InitialTemperature` on the given draws, in (0.01, 10000] |
| Scheduling.Scheduler.AnnealStep | Scheduler.java:80-95 | the new current and best are those of `Step`, each the old object or a fresh one; `current` keeps its cost |
| Scheduling.Scheduler.RunSweep | Scheduler.java:78-96 | the current and best after the sweep are those of `Sweep`, each the old object or a fresh one; `current` keeps its cost |
| Scheduling.Scheduler.RunAnnealing | Scheduler.java:74-99 | the current and best after the loop are those of `Cool` |
| Scheduling.Scheduler.Schedule | Scheduler.java:48-111 | for an iteration order that lists every room once: no requests give an empty map; otherwise "initial" and "best" hold the initial and the annealed best schedule, and the timetable is the write-back of the best; on a failure the timetable is unchanged |
| Scheduling.Scheduler.ScheduleCreated | Scheduler.java:59-110 | after the construction, the result is the annealing and the write-back of `Run` |
| Scheduling.Scheduler.Prepare | Scheduler.java:59-66 | the initial cost, two copies of the initial schedule with that cost, and the calibrated temperature |
| Scheduling.Scheduler.ScheduleFrom | Scheduler.java:67-110 | from the calibrated temperature on, the result is `Cool`, followed by the write-back |
| Scheduling.Scheduler.Finish | Scheduler.java:104-110 | the write-back of the best schedule, then the map of both schedules |
| Scheduling.Scheduler.UpdateDataManagerWithSchedule | Scheduler.java:356-391 | for an iteration order that lists every room once, the timetable becomes `WriteBack`: the header, then the rows of the rooms in that order; a row of fewer than six fields fails and keeps the timetable |
| Scheduling.Scheduler.IndexRows | Scheduler.java:368-374 | the first loop builds exactly `RowsById`: each row after the header with more than one field under its id, the last such row of an id winning |
| Scheduling.Scheduler.AppendRoomsRows | Scheduler.java:377-389 | the room loop appends the `RoomsRows` of the rooms in iteration order to the rows so far, or stops with the first failure |
| Scheduling.Scheduler.AppendRoomRows | Scheduler.java:381-388 | the inner loop appends the room's `RoomRows` to the rows so far, or stops with its failure |
| Metrics.ListOf | ScheduleMetrics.java:50-51 | the room's list, or no requests when the room has no list |
| Metrics.MetricsOf | ScheduleMetrics.java:47-64 | a room's usage is its Evaluation usage; its regular overtime and overtime are the cost's figures, never negative, and overtime <= regular overtime when maxOvertime >= 0 |
| Metrics.Tally | ScheduleMetrics.java:46-72 | the overtime totals are never negative |
| Metrics.TallyStep | ScheduleMetrics.java:66-71 | visiting one more room adds its figures to the totals |
| Metrics.TallyMetrics | ScheduleMetrics.java:44-71 | `roomMetrics` has exactly the rooms of `allRooms`, each with its own figures |
| Metrics.TallyAgreesWithCost | ScheduleMetrics.java:62-76 | total usage is the sum of the cost's usages, and the two overtime totals are the cost's two overtime sums |
| Metrics.TallySpecialIff | ScheduleMetrics.java:46-57 | the special-room flag holds exactly when every room of `allRooms` has its "Y" requests in special rooms |
| Metrics.ValidMeetsSpecial | ScheduleMetrics.java:55-57 | a schedule that passes isValid meets the special-room requirement |
| Metrics.SpecialMetIsValid | ScheduleMetrics.java:55-57 | when every room is one of `allRooms`, a met requirement means the schedule is valid |
| Metrics.TallyOvertimeAtMostRegular | ScheduleMetrics.java:63-69 | with maxOvertime >= 0, total overtime never exceeds total regular overtime |
| Metrics.RoomFigures | ScheduleMetrics.java:52-58 | the inner loop gives the sum of the room's durations and whether its "Y" requests are all in a special room |
| Metrics.RoomEntry | ScheduleMetrics.java:47-71 | one room's durations, transitions and `RoomMetrics`, as `MetricsOf` gives them |
| Metrics.RoomLoop | ScheduleMetrics.java:46-72 | the loop's running totals and map are `Tally` over `allRooms` |
| Metrics.ScheduleMetrics.constructor | ScheduleMetrics.java:29-81 | the per-room figures, the totals (usage = surgery + transition), the special-room flag and the schedule's cached cost, under defaulted parameters |
| DataManagement.RoomStep | DataManager.java:21-43 | one room-file line keeps both sets strictly sorted, as TreeSets are |
| DataManagement.RoomScan | DataManager.java:21-43 | reading the file keeps both sets strictly sorted |
| DataManagement.NodeOfRow | DataManager.java:68-74 | a node from fields 1, 5, 7 and 8, exactly when the row has at least 9 fields and an int in field 7 |
| DataManagement.LineOf | DataManager.java:53-61 | blank exactly when the line without its BOM is blank; otherwise its comma fields and the node they make |
| DataManagement.LinesOf | DataManager.java:53-61 | one parsed value per line, in order |
| DataManagement.ScanAfterHeader | DataManager.java:66-75 | past the header, every non-blank line adds a row, and its node when it makes one |
| DataManagement.ScanFromHeader | DataManager.java:63-75 | the header adds a row but never a node |
| DataManagement.TimetableScan | DataManager.java:53-77 | reading more lines only appends: the rows and the requests read so far stay prefixes of the result |
| DataManagement.RequestsOfParsedLines | DataManager.java:68-74 | the nodes the parsed lines carry are those their fields make |
| DataManagement.RequestsAfterHeaderOfParsedLines | DataManager.java:63-75 | the nodes read are those of the data rows after the first row |
| DataManagement.ArgumentLines | DataManager.java:87-96 | no more argument lines than lines |
| DataManagement.ArgumentLine | DataManager.java:89-95 | a line gives at most one argument line |
| DataManagement.Puts | DataManager.java:97-102 | the puts from step k on, for any line parser: the keys already present stay |
| DataManagement.PutsOutcome | DataManager.java:97-102 | the puts from step k on pass exactly when each remaining line parses; then each remaining key is stored; a failure carries the first remaining line that does not parse |
| DataManagement.PutArguments | DataManager.java:97-102 | the four puts of the trimmed lines: the keys already present stay |
| DataManagement.PutArgumentsOutcome | DataManager.java:97-102 | the four puts pass exactly when each of the four trimmed lines is an int, and then all four keys are stored; a failure carries the first line that is not an int |
| DataManagement.PutArgumentsOfInts | DataManager.java:97-102 | four ints written one per line are stored under the four keys, the other keys untouched |
| DataManagement.TrimOfIntToString | DataManager.java:98-101 | the decimal form of an int has nothing `trim` removes |
| DataManagement.DataManager.constructor | DataManager.java:7-11 | all collections start empty |
| DataManagement.DataManager.ReadRoomData | DataManager.java:13-45 | both sets become those `RoomScan` reads from the file's lines, starting from the current sets, and stay strictly sorted; only the two sets change |
| DataManagement.DataManager.ReadTimeTableData | DataManager.java:47-79 | the non-blank lines are appended as rows, the first as the header; the nodes appended are those of the rows after the first |
| DataManagement.DataManager.ReadArgumentsData | DataManager.java:81-104 | with at least four argument lines the first four are stored in order until one is not an int; with fewer the map is untouched |
| DataManagement.DataManager.StoreArguments | DataManager.java:97-102 | the four puts in order, stopping at the first line that is not an int |
| DataManagement.DataManager.UpdateTimetableData | DataManager.java:126-129 | the rows become exactly the new list; nothing else changes |
| DataManagement.UnannouncedLineIgnored | DataManager.java:36-42 | a data line under no raised flag changes nothing |
| DataManagement.OnlyNextLineConsumed | DataManager.java:36-42 | after the all-rooms header only the next data line is added to `allRooms`; a second data line is ignored and both flags end down |
| Preparation.Add | ReadAndPrepareData.java:53-62 | taking in a node keeps both sets strictly sorted |
| Preparation.TakeLineAsWritten | ReadAndPrepareData.java:44-62 | one line as written keeps the sets sorted when it does not abort |
| Preparation.ScanAsWritten | ReadAndPrepareData.java:43-64 | the reader as written keeps the sets sorted when it gets through |
| Preparation.TakeLine | ReadAndPrepareData.java:44-62 | one line as intended keeps the sets sorted |
| Preparation.Scan | ReadAndPrepareData.java:43-64 | the intended reader keeps the sets sorted |
| Preparation.ReadTimeTable | ReadAndPrepareData.java:39-66 | the line loop computes `Scan` over the file's lines, from the given collections |
| Preparation.ScanContents | ReadAndPrepareData.java:43-64 | the nodes of the lines are appended in order; a room is in a set exactly when it was, or a new node (a new "Y" node, for the special set) has it |
| Preparation.TakeLineContents | ReadAndPrepareData.java:44-62 | one line appends its node, if any, and adds its room to the sets it belongs to |
| Preparation.BooksAppend | ReadAndPrepareData.java:43-64 | the nodes of two stretches of lines are the nodes of each, in order |
| Preparation.SpecialRoomsAmongAll | ReadAndPrepareData.java:57-62 | every special room is among all rooms, if that held at the start |
| Preparation.ShortLineIgnored | ReadAndPrepareData.java:45 | a line with fewer than 9 fields changes nothing |
| Preparation.AsWrittenAgrees | ReadAndPrepareData.java:43-64 | the reader as written fails exactly when some line aborts it, and otherwise computes the intended scan |
| Preparation.HeaderRowAborts | ReadAndPrepareData.java:49 | a header row of at least 9 fields with a column name in field 7 aborts the reader as written; the intended reader passes over it |
| Preparation.TimetableHeaderAborts | ReadAndPrepareData.java:39-66 | a timetable that starts with such a header yields no node: the reader fails at line 1 |
| Preparation.RoomCsv | ReadAndPrepareData.java:68-77 | for plain names the written text reads back as exactly four lines: the two headers and the two quoted joins |
| Preparation.HeaderHasNoLineBreak | ReadAndPrepareData.java:71-74 | a header line has no line break |
| Preparation.ReadFourLines | ReadAndPrepareData.java:71-75 | four lines each written with "\n" read back as those four lines |
| Preparation.JoinOfPlainNames | ReadAndPrepareData.java:72-75 | the quoted join of plain names has no line break and no quote inside |
| Preparation.JoinAvoids | ReadAndPrepareData.java:72-75 | a join holds no character that its parts and its separator do not |
| Preparation.SortedLastNotEmpty | ReadAndPrepareData.java:72-75 | in a strictly sorted list only the first name can be empty |
| Preparation.HeaderTokens | ReadAndPrepareData.java:71-74 | each header written contains its own set's token and not the other one |
| Preparation.DataLineRead | DataManager.java:35-42 | a quoted data line is read back as the names it joins, added to the flagged set |
| Preparation.QuotedIsDataLine | DataManager.java:23-33 | a quoted line has no BOM, is not blank and is not a comment |
| Preparation.AllRoomsHeaderRead | DataManager.java:29-33 | the all-rooms header raises that flag and lowers the other |
| Preparation.SpecialRoomsHeaderRead | DataManager.java:29-33 | the special-rooms header raises that flag and lowers the other |
| Preparation.RoomScanFour | DataManager.java:21-43 | a four-line file is read line by line |
| Preparation.RoomCsvRoundTrip | ReadAndPrepareData.java:68-77 | a fresh reader of what createRoomCsv writes gets both sets back, for non-empty sets of names without commas, quotes or line breaks |
| Preparation.EmptySpecialRoomsReadBack | ReadAndPrepareData.java:75 | with no "Y" request the special line is `""`, read back as the one room named "" |
| Preparation.EmptyQuotedRead | DataManager.java:35-42 | the line `""` gives the single name "" |
| Preparation.ArgumentNamesDistinct | ReadAndPrepareData.java:90-93 | the four argument keys are distinct |
| Preparation.ArgumentsSelected | ReadAndPrepareData.java:84-94 | only physical lines 2, 4, 6 and 8 that are not comments are read, each into its own key; the reader fails exactly when one of them is not an int |
| Preparation.FailedStep | ReadAndPrepareData.java:84-94 | after a failure the reader stays failed, and some selected line read so far is still not an int |
| Preparation.ReadStep | ReadAndPrepareData.java:84-94 | one more physical line succeeds exactly when every selected line so far is an int, and then the map holds the selected lines' values |
| Preparation.ParsesGrows | ReadAndPrepareData.java:89-93 | a key whose line is an int after n lines was already fine after n - 1 lines |
| Preparation.ArgumentLineStep | ReadAndPrepareData.java:84-94 | one more line keeps the map in step with the selected lines, or fails on a selected line that is not an int |
| Preparation.QuietLine | ReadAndPrepareData.java:86-88 | a comment, or a line whose number has no key, changes nothing |
| Preparation.KeyLine | ReadAndPrepareData.java:89-93 | a selected line is parsed into its key, or stops the reader |
| Preparation.ArgumentsFileSelected | ReadAndPrepareData.java:79-98 | with the source's four keys, the reader selects lines 2, 4, 6, 8 as `ArgumentsSelected` states |
| Preparation.FailureStays | ReadAndPrepareData.java:84-94 | once a line has stopped the reader, later lines change nothing |
| Preparation.ReadArguments | ReadAndPrepareData.java:79-98 | the loop with its `lineCount` gives the map of the selected lines, or the failure of the first one that is not an int |
| Text.NotContains | DataManager.java:30-31 | a string not found at any offset is not contained |
| Text.RemoveChar | DataManager.java:35 | the character no longer occurs, every other character keeps its count, and a string without it is unchanged |
| Text.BlankIff | DataManager.java:26 | a line is blank exactly when `trim` leaves nothing |
| Text.Fields | DataManager.java:35 | at least one field, and no field contains the separator |
| Text.FieldsOfJoin | ReadAndPrepareData.java:72 | splitting a join of separator-free parts gives the parts back |
| Text.JoinOfFields | ReadAndPrepareData.java:72 | joining the fields of a string gives the string back |
| Text.SplitOfJoin | ReadAndPrepareData.java:72 | `split` after `String.join` gives the parts back when the last part is not empty |
| Text.TrailingEmptyDropped | DataManager.java:61 | `split` drops trailing empty fields |
| Text.ReadLines | DataManager.java:21 | no line `readLine` returns contains a line break |
| Text.ReadLinesCons | ReadAndPrepareData.java:71-75 | a line written with "\n" reads back as that line |
| Text.JavaSplit | DataManager.java:61 | no field holds the separator; a string without the separator is one field; otherwise the last field kept is not empty, since `split` drops trailing empty fields |
| Text.ParseInt | DataManager.java:98 | a parsed value lies in the 32-bit range |
| Text.FullwidthTime | DataManager.java:70 | `Integer.parseInt` reads the fullwidth digits "１２０" as 120, since `Character.digit` accepts every Unicode decimal digit |
| Text.AsciiDigitsAreDecimals | SurgeryNode.java:31 | ASCII digits are decimal digits with their usual values |
| Text.IntToString | SurgeryNode.java:31 | at least one character: the decimal digits of the value, after a '-' when it is negative |
| Text.NatToString | SurgeryNode.java:31 | at least one digit, its decimal value is the number, and no leading zero |
| Text.ParseIntOfIntToString | SurgeryNode.java:31 | parsing the decimal form of a 32-bit int gives the int back |
| TreeSets.StrLessTotal | DataManager.java:7-8 | two different strings are ordered one way or the other |
| TreeSets.Insert | DataManager.java:7-8 | adding keeps the set strictly sorted, its elements are the old ones plus the new one, and a present element changes nothing |
| TreeSets.AddAll | DataManager.java:37 | adding a list keeps the set strictly sorted, and its elements are the old ones plus the list's |
| TreeSets.InsertLargest | ReadAndPrepareData.java:57 | adding an element larger than all appends it |
| TreeSets.AddAllSorted | DataManager.java:37 | adding a strictly sorted list to an empty set gives that list |
| Gantt.SettingsOf | surgery_gantt.py:42-45 | the four settings are found exactly when all four keys are present |
| Gantt.PyIntExamples | surgery_gantt.py:56 | `int()` accepts surrounding blanks and a sign, and rejects a lone sign, inner blanks and the empty string |
| Gantt.PyIntOfIntToString | surgery_gantt.py:56 | `int()` reads back the decimal form of every integer |
| Gantt.RowRaises | surgery_gantt.py:55-57 | a row that is not 10 fields with an int duration in field 7 and a known room in field 5 raises its `RowError` |
| Gantt.RowAdvances | surgery_gantt.py:55-73 | a row that fits advances its room and adds its two overlaps |
| Gantt.TimeInBlocks | surgery_gantt.py:40-75 | both totals of a call that returns are non-negative |
| Gantt.CalculateTimeInBlocks | surgery_gantt.py:40-75 | the method returns `TimeInBlocks` of its inputs |
| Gantt.RunRows | surgery_gantt.py:53-73 | the loop with its dictionary and counters returns the fold `Track` over the rows |
| Gantt.TrackFailureStays | surgery_gantt.py:54-57 | once a row has raised, later rows change nothing |
| Gantt.SurgeriesOf | surgery_gantt.py:54-56 | one surgery per row, in timetable order |
| Gantt.TrackMeaning | surgery_gantt.py:53-73 | the loop gets through exactly when every row fits, and then the room times and totals are those of the back-to-back schedule; otherwise the first row that does not fit raises |
| Gantt.AdvanceTracks | surgery_gantt.py:57-73 | a surgery moves its room on by its duration plus a transition and adds its overlaps |
| Gantt.TimeInBlocksMeaning | surgery_gantt.py:40-75 | a missing key raises first; the header row is never read; otherwise the call fails exactly when a later row does not fit, and else returns the two totals |
| Gantt.OverlapBounds | surgery_gantt.py:61-70 | one overlap is between 0 and both Max(0, duration) and Max(0, block length) |
| Gantt.AdjacentBlocks | surgery_gantt.py:61-70 | two adjacent blocks together count at most Max(0, duration) minutes |
| Gantt.MinutesBetween | surgery_gantt.py:61-70 | the set of minutes from a up to b has Max(0, b - a) elements |
| Gantt.OverlapIsMinutes | surgery_gantt.py:61-70 | the overlap is the number of minutes the surgery spends inside the block |
| Gantt.YellowBounded | surgery_gantt.py:47-64 | the yellow total is between 0 and the number of surgeries times Max(0, maxOvertime) |
| Gantt.RedBounded | surgery_gantt.py:47-70 | the red total is between 0 and the number of surgeries times Max(0, 1440 - red start) |
| Gantt.BlocksWithinWorked | surgery_gantt.py:61-70 | the two totals together are at most the sum of the durations |
| Gantt.BusyUnchanged | surgery_gantt.py:57-73 | surgeries in other rooms leave a room's time alone |
| Gantt.FirstInRoom | surgery_gantt.py:53-57 | the first surgery of a room starts at the start time |
| Gantt.NextInRoom | surgery_gantt.py:57-73 | the next surgery of a room starts one transition after the previous one ends |

## Left out

- File and console I/O is not modelled: the readers' `BufferedReader` and `open`, `writeOutput` and its timestamped name, all prints, and the `main` methods (`Main.java`, `ReadAndPrepareData.main`). The readers take the file's text as a string, and the Gantt function takes the parsed rows.
- `plot_gantt`, the `read_*` helpers of the Gantt script and matplotlib are left out as presentation and I/O. So is the `csv` module's quoting. Rows are field lists.
- `Random` is left out. Each draw is a parameter. No claim is made about distributions.
- `Math.exp` in the Metropolis test is the `lucky` bit. `Math.sqrt(n)` is a parameter `sqrtN` with `sqrtN * sqrtN == n`.
- `double` arithmetic is exact `real` arithmetic: no rounding, no `NaN`. With n = 0 the cooling factor is `-1 / 0.0`, `-Infinity` in Java, which ends the loop; the model ends the loop there too.
- Annealing.CoolingBound: it bounds the rounds while the temperature stays above 0.01. It says nothing about the quality of the result.
- Text.ParseInt: its decimal digits are the 37 runs of the Basic Multilingual Plane as of Unicode 15. An older Java release knows fewer of them, so there some rows the model reads are skipped or rejected.
- Java's 32-bit `int` and 64-bit `long` are not modelled for durations, usages and totals; they are unbounded. Only `Integer.parseInt` and `Integer.toString` use the 32-bit range, since there it decides which inputs parse.
- TreeSets.Insert: strings are ordered by Dafny's `char` order. Java's `compareTo` compares UTF-16 units, which differs for characters outside the Basic Multilingual Plane.
- Requests are values, and room lists are sequences inside the schedule's map. The model does not capture the identity of `LinkedList` objects or `SurgeryNode` objects. `list1.remove(targetNode)` removes the first element equal to the node, which is the element at the picked index when the list does not hold the same object twice. The model removes the picked index. `perturbSchedule` returning `current` itself is modelled by object identity on `Schedule`.
- `HashMap` iteration order is a parameter `order` (a sequence of the keys, each once) in the write-back. `calculateCost` walks `allRooms` (a `TreeSet`); the model uses that order and the map's values. The sums do not depend on the order.
- `ReadAndPrepareData.readTimeTable` receives caller-owned collections. The model takes their values and returns the new values. Aliasing between them is not modelled.
- `ReadAndPrepareData`'s own nested `SurgeryNode` class (ReadAndPrepareData.java:101-123) has the same four fields as SurgeryNode.java. The model uses one datatype for both; its `toString` in that class is not modelled.
- Gantt.PyIntExamples: Python's `int()` is modelled for ASCII blanks, an optional sign and ASCII digits. Underscores between digits and non-ASCII whitespace and digits are not accepted by the model.
- The `TL` constant (Scheduler.java:23) is unused by the source and is not modelled.
- Schedule getters and `SurgeryNode` getters are fields of the class or datatype, with no separate members.
- In the annealing, the cost of a schedule is a ghost function parameter. It is tied to the real cost by `CostsAre`. The methods compute it with `CalculateCost`.
- Where the code and the intended design disagree, this model follows the code. With no special room, `createInitialSchedule` drops the "Y" requests. The initial schedule then passes `isValid` (Construction.InitialRoomsValid) but does not hold every request (Construction.InitialRoomsConserve). It is not a schedule that fails validity.

## Findings

| source | as written | input that shows it | evidently intended | confidence | as-written member | corrected member |
|---|---|---|---|---|---|---|
| ReadAndPrepareData.java:43-54 | every line of at least nine fields is parsed, the header row included; `Integer.parseInt` of the duration column's name throws `NumberFormatException`, which `main` does not catch | a timetable whose first line is a header of ten column names, as the timetable reader in DataManager.java:63-65 expects | skip the header, or skip rows whose field 7 is not an int, as `DataManager.readTimeTableData` does | not executed | Preparation.TimetableHeaderAborts | Preparation.ReadTimeTable |
