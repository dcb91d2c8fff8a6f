# A model of go-cron and proofs about it

go-cron is a cron scheduler for Go. This project models its schedule search, its scheduler state, its workflow engine,
its spec parser and two small cores in Dafny, and proves what their documentation promises.

## What is modelled

- **Time.** Instants and wall-clock readings are whole seconds. A zone is a base offset and a list of changes; the
  bounds that `time.ZoneBounds` reports are exact lookups in it. `time.Date` is any function that meets a contract:
  it returns an instant that shows the reading or, when a change skips it, the instant the reading names in one of the
  two offsets around the change. `WallSteps.GoDateResolves` shows that Go's own algorithm meets it. The calendar is the
  proleptic Gregorian one. (`Calendar`, `Zones`, `WallSteps`)
- **Search.** `Next` and `Prev` of a spec with their retry loops over year, month, day, hour, minute and second
  (`Schedules`, `ScheduleLaws`, `ForwardSearch`, `GapRuns`, `BackwardSearch`). The claims for `Next` hold in zones whose
  changes and offsets are whole minutes, lie more than two days apart, move the clock by at most three hours and never
  take it back to an earlier date; those for `Prev` hold in fixed-offset zones.
- **Scheduler.** Entries in a heap with stored indexes, the id and name indexes, the entry counter, the dependency maps
  and the dispatch of due entries (`Entries`, `EntryHeap.dfy` with module `EntryHeaps`, `Schedulers`), the fall-back
  guard and its memory over whole runs (`FallBackGuard`, `RestoredRuns`), and catching up (`MissedRuns`). Each case of
  the run loop is one atomic step.
- **Workflows.** Dependency edges and the cycle search (`EntryDependencies`), named steps and their validation
  (`WorkflowSteps`), registration with rollback (`WorkflowRegistration`), and executions: what an evaluation computes
  and what holds over whole runs (`WorkflowRuns`, `ShortcutRuns`), and the engine that does so in place
  (`WorkflowEngine`).
- **Draining and removal** as interleaved steps of callers, run loop and job goroutines (`DrainProtocol`).
- **Parser.** Masks and ranges (`BitFacts`, `FieldMasks`, `FieldRanges`, `RangeLaws`), hashed days (`HashedDays`), the
  placing of fields and the shared cache (`SpecTexts`, `ParseCaches`, `ParseLaws`). A shift `1 << n` is n shifts by one.

  The modules whose names end in `Laws` hold laws that do not go through the definitions of the model.
- **Cores.** The expiring lock store (`MemoryLockers`) and the epoch grid in 64-bit arithmetic (`AlignedSchedules`).

`Options`, `Remainders` and `Digraphs` hold shared vocabulary. Clock readings, finished jobs and their outcomes, hash
values and zone data are parameters. `dafny verify dfyconfig.toml` checks everything.

## What came out

- `Next` is exact: no matching second is skipped and none is invented. When no match exists within the span, gap runs are
  looked for from the year of t, existing matches from the year of the second after t; `GapRuns.Next` states both.
- At-most-once start in workflows fails in a skip cascade when the graph has a shortcut, an edge beside a longer way from
  the same parent to the same child. A final step makes such edges. `WorkflowRuns.FinalStepStartsTwice` is a run: the
  first of three steps fails, the second is skipped, and the final step is started twice. The exact condition is
  `ShortcutRuns.AtMostOnceExactly`: over all orders of the edges, conditions, outcomes and pauses nobody is started twice
  if and only if the execution has no shortcut. With or without shortcuts a second start is an overlap of two jobs of one
  entry in one execution (`WorkflowRuns.SecondStartOverlaps`), so refusing to trigger a child that is in flight would
  prevent it.
- A participant with a parent outside the execution blocks it for good (`WorkflowRuns.OutsideParentBlocks`); without one,
  an execution with nothing in flight is complete (`WorkflowRuns.QuietRunIsComplete`).
- MissedRunOnce is documented to run the most recent missed time. It does if and only if at most 100 occurrences remain
  after the grace period and the guard (`MissedRuns.MissedOnceRunsLatest`); with 101 it runs the 100th
  (`MissedRuns.MissedOnceAtTheCap`).
- A run restored with `WithPrev` is known to the guard as the last run only. With `0,30 1 * * *` restored at the first
  01:00 of the night the clock goes back, 01:30 runs and then 01:00 again (`RestoredRuns.ZeroThirtyRunsAgain`). The
  reading stays once if and only if Next answers the restored run with its second copy, when nothing is triggered or
  forced in between (`RestoredRuns.RestoredOnceExactly`).

## Model

| member | source | states |
|---|---|---|
| Calendar.ClosedForm | spec.go:163-171 | the days-from-civil formula is, for every month from any year, the sum of the month lengths since 1970, leap years included |
| Calendar.MonthOf | spec.go:163-176 | every civil day lies in exactly the month found for it: on or after its first and before the next month's first |
| Schedules.NearestWeekdayIsNearest | spec.go:198-227 | nW names a Monday-to-Friday of the same month, and no other one is closer to n |
| Schedules.LastWeekdayIsLast | spec.go:230-240 | LW names a Monday-to-Friday, and no later one exists in the month |
| ScheduleLaws.BothDayFields | spec.go:794-820 | without DowOrDom, or with a star on a day field, a spec matches exactly where it matches with each of the two day fields left open |
| ScheduleLaws.EitherDayField | spec.go:794-820 | with DowOrDom and no star, exactly where it matches with one of them left open |
| ScheduleLaws.OneDayOfMonth | spec.go:794-820 | one day-of-month value and an open day-of-week match on that day of the month only |
| ScheduleLaws.OneWeekday | spec.go:794-820 | one day-of-week value and an open day-of-month match on that weekday only |
| ScheduleLaws.OneShotMatches | spec.go:646-653 | a spec with one value in each field and one year matches that second of the calendar and no other |
| ScheduleLaws.MoreSeconds | spec.go:639-642 | more seconds in a mask match where one of them does; MoreMinutes, MoreHours, MoreMonths, MoreDays and MoreYears say so of the other fields |
| ScheduleLaws.MoreRules | spec.go:794-820 | a day rule adds the days on which it holds |
| ScheduleLaws.WeekdaysTurn | spec.go:169-171 | 1970-01-01 was a Thursday and the days of the week go round |
| ScheduleLaws.NthIsCounted | spec.go:794-820 | the n-th of a weekday has n-1 earlier days of the month on that weekday |
| ScheduleLaws.LastIsLast | spec.go:794-820 | the last of a weekday has no later day of the month on that weekday |
| ScheduleLaws.LastDays | spec.go:794-820 | L-n has n later days in its month, L none |
| ScheduleLaws.LastWeekdayCounted | spec.go:230-240 | LW holds on the Monday-to-Friday with no later one in its month |
| ScheduleLaws.NearestCounted | spec.go:198-227 | nW holds on the Monday-to-Friday of the month that is nearest to the n-th, and on none when the month has no n-th |
| ScheduleLaws.ThirteenthOfMonth | spec.go:684-712 | 0 0 13 * * after Thursday 2026-01-01 is answered with 2026-01-13 |
| ScheduleLaws.FridayThirteenth | spec.go:684-712 | 0 0 13 * FRI is answered with 2026-02-13, and with DowOrDom with 2026-01-02 |
| ScheduleLaws.LeapDaySpan | spec.go:684-712 | 0 0 29 2 * after 2096-03-01 finds nothing in the default five years, and 2104-02-29 with eight or more |
| WallSteps.GoDateResolves | spec.go:567-584 | time.Date's own two-lookup algorithm meets the contract the searches rely on: it shows the reading, or names it in one of the offsets around the change that skips it |
| WallSteps.CopiesInOrder | spec.go:487-515 | any instant with the same reading is the instant itself, its earlier copy or its later copy, in that order in time |
| WallSteps.FirstCopyIsFirst | spec.go:487-499 | the earlier copy shows the reading and no earlier instant does; a second earlier the clock shows less |
| WallSteps.FirstOfDaySplits | spec.go:555-584 | the instant where a date starts separates all instants of earlier dates from all others |
| WallSteps.NextMidnightOrChange | spec.go:605-617 | no date starts and no change happens strictly between t and the result, which starts a date, is a change, or is where time.Date puts a skipped midnight |
| WallSteps.DateChangeAfter | spec.go:590-601 | the instant at which the wall date reaches a day up to 31 dates ahead; the 64 rounds of the walk reach no further for certain |
| WallSteps.DateStart | spec.go:567-584 | the first instant of the date, even when a change skips its midnight or the whole date, and later than `after` |
| WallSteps.HourEndIsExact | spec.go:404-443 | the clock shows t's hour up to the hour's end and a different hour there |
| WallSteps.NextFullHour | spec.go:427-443 | the first later instant that shows the next full hour, or one hour on if none does |
| WallSteps.NextHourStart | spec.go:404-422 | exactly the instant at which the clock leaves t's hour |
| ForwardSearch.AdvanceMinute | spec.go:295-321 | skips only instants of t's hour whose minute does not match, and stops at a match, where the next hour starts, or at a change |
| ForwardSearch.AdvanceSecond | spec.go:521-536 | skips only instants of t's minute whose second does not match, and stops at a match or at the second 0 after that minute |
| ForwardSearch.AdvanceHour | spec.go:369-380 | skips only instants of t's date whose hour does not match, and stops at a match or where the next date starts |
| ForwardSearch.AdvanceTime | spec.go:773-782 | skips only instants of t's date whose time does not match, over all three fields |
| ForwardSearch.AdvanceDay | spec.go:757-768 | skips only days of t's month that do not match, and stops at a match or where the next month starts |
| ForwardSearch.AdvanceDate | spec.go:726-752 | skips only dates that do not match; exhausted only past the last year of the search |
| ForwardSearch.NextExisting | spec.go:684-712 | in every regular zone: the least second after t whose wall clock matches the spec, or none exactly when no such second exists through the search years |
| GapRuns.GapRunShift | spec.go:1087-1120 | the run of a gap shows the earliest skipped matching reading, shifted by the gap, and lies after the change |
| GapRuns.GapRun | spec.go:1099-1120 | the minute-wise search finds the earliest skipped matching second of the gap, or none when the gap skips no match |
| GapRuns.GapRunsInOrder | spec.go:1037-1059 | gap runs come in the order of their gaps and before the next change |
| GapRuns.OneRunPerGap | spec.go:1037-1059 | two gaps never share a run |
| GapRuns.NextGapRun | spec.go:1037-1059 | the least gap run after t and before the next existing match or the end of the span |
| GapRuns.PrevGapRun | spec.go:1063-1082 | the greatest gap run before t and after the given bound |
| GapRuns.Next | spec.go:671-680 | the least element after t of the matching seconds and the gap runs, as far as the search span reaches |
| GapRuns.NextIsLeastRun | spec.go:671-680 | with some run within the span, Next's answer is a run, and no run lies between t and it |
| GapRuns.GapRunsBeforeSpanEnd | spec.go:1037-1059 | every gap run of a year the span covers lies before the bound of the gap search |
| BackwardSearch.RetreatHour | spec.go:890-900 | skips only instants whose hour does not match, backwards, and stops at a match or where the date changes |
| BackwardSearch.RetreatMinute | spec.go:842-865 | the same for minutes |
| BackwardSearch.RetreatSecond | spec.go:871-884 | the same for seconds |
| BackwardSearch.RetreatTime | spec.go:1007-1016 | skips only instants whose time does not match |
| BackwardSearch.RetreatDay | spec.go:987-1002 | skips only days that do not match, and stops at a match or before the month |
| BackwardSearch.RetreatDate | spec.go:950-984 | skips only dates that do not match; exhausted only before the first year of the search |
| BackwardSearch.PrevExisting | spec.go:918-946 | in any fixed-offset zone: the greatest matching second before t, or none exactly when none exists within the span |
| BackwardSearch.Prev | spec.go:905-914 | the greatest run before t in any fixed-offset zone |
| BackwardSearch.PrevUndoesNext | spec.go:905-946 | Prev of one second after Next(t) is Next(t), and no match lies between t and Next(t) |
| BackwardSearch.NextUndoesPrev | spec.go:671-712 | Next of one second before Prev(t) is Prev(t) |
| WorkflowTypes.MatchesTerminalOnly | workflow.go:59-82 | a condition holds only of a resolved parent, and an unknown condition of none |
| WorkflowTypes.ValidCanBeMet | workflow.go:59-82 | a condition is valid exactly when some result meets it |
| WorkflowRuns.StartsNamed | workflow.go:69-82 | over every run, whoever starts has only parents with the results that its conditions name: Success, Failure, Skipped or any |
| WorkflowRuns.SkipsNamed | cron.go:1737-1797 | over every run, a participant that is skipped though present and not paused has only resolved parents, one of them without the result that its condition names |
| WorkflowRuns.MetChildStarts | cron.go:1755-1767 | a waiting child that is present and not paused starts when every parent has the result that its condition names |
| WorkflowRuns.RecoveryStarts | cron.go:1737-1752 | an OnFailure step starts when its parent fails; when it succeeds the step is skipped and its OnSkipped step starts |
| WorkflowRuns.RootEndsFirst | cron.go:1737-1752 | no other job of an execution ends before the root's |
| WorkflowRuns.EvaluateKeeps | cron.go:1737-1752 | evaluating the children of a resolved participant leaves no pending one stuck; results only resolve, and only by justified skips; starts happen only when all parents have resolved as demanded and, without shortcut edges, once |
| WorkflowRuns.EvaluateOneKeeps | cron.go:1739-1750 | the same for one child, whether it waits, starts or is skipped |
| WorkflowRuns.StartKeeps | cron.go:1795-1797 | a started child is in flight, its parents have all resolved as demanded, and the invariants hold |
| WorkflowRuns.SkipKeeps | cron.go:1746-1750 | a skip cascade keeps the invariants and starts only what lies below the skipped child |
| WorkflowRuns.FinishedKeeps | cron.go:1714-1734 | the end of a job keeps all invariants of an execution; without shortcuts the entry was pending, so nothing resolves twice |
| WorkflowRuns.ReadyAlways | cron.go:1714-1797 | the invariants hold at every moment of every run: any order of job ends, any outcomes, any pauses and resumes between them |
| WorkflowRuns.AtMostOnce | cron.go:1714-1797 | in a static acyclic graph without shortcut edges no participant is started twice or resolved by two job ends, over every run |
| WorkflowRuns.ResultsStay | cron.go:1714-1734 | without shortcuts a known result is kept by every step of every run |
| WorkflowRuns.QuietRunIsComplete | cron.go:1737-1797 | over every run, once nothing is in flight all results are terminal, if every parent of a participant takes part |
| WorkflowRuns.QuietIsComplete | cron.go:1737-1797 | an acyclic execution with nothing in flight and nobody stuck has resolved completely |
| WorkflowRuns.SecondStartOverlaps | cron.go:1737-1797 | with or without shortcuts, an entry has been started twice exactly when two of its jobs were in flight at once at some moment of the run |
| WorkflowRuns.StepCounts | cron.go:1714-1734 | no step forgets a start, and whoever gains a start in it has all its jobs in flight |
| WorkflowRuns.ParentsFirstAlways | cron.go:1737-1797 | over every run, who is in flight or has resolved has only resolved parents |
| WorkflowRuns.OutsideParentBlocks | cron.go:1770-1779 | a participant with a parent outside the execution never starts and never resolves, so the execution never completes, over every run |
| ShortcutRuns.OthersResolve | cron.go:1737-1752 | when nothing but one entry can run, everything that does not come after it has resolved |
| ShortcutRuns.StartedTwice | cron.go:1737-1797 | a parent that ends starts the child at the end of a shortcut on the long way and then once more from its own list |
| ShortcutRuns.ShortcutStartsTwice | cron.go:1737-1797 | for every shortcut of every closed acyclic graph: an order of the edges, conditions, outcomes and pauses, and the run in which the child starts twice |
| ShortcutRuns.AtMostOnceExactly | cron.go:1737-1797 | over all orders of the edges, conditions, outcomes and pauses nobody is ever started twice if and only if no participant has a shortcut edge |
| WorkflowRuns.FinalStepGraphIsStatic | workflow.go:314-336 | the graph of a three-step workflow with a final step is acyclic and has a shortcut |
| WorkflowRuns.FinalStepStartsTwice | cron.go:1737-1752 | with a shortcut at-most-once fails: a run in which the first of those three steps fails and the final step is started twice |
| WorkflowEngine.Engine.EvaluateChildren | cron.go:1737-1752 | results, jobs in flight and starts after the loop and its recursion are those of the reference evaluation; the recursion ends |
| WorkflowEngine.Engine.TriggerWorkflowChild | cron.go:1782-1797 | the child is started when its entry is there and not paused, otherwise skipped, and below a paused one the evaluation goes on |
| WorkflowEngine.Engine.SkipChild | cron.go:1746-1750 | a skipped child is resolved and everything below it re-evaluated |
| WorkflowEngine.Engine.ProcessWorkflowEvent | cron.go:1714-1734 | a finished job resolves its entry with its outcome as one step of the runs above; the execution moves to the completed ones exactly when all is resolved |
| WorkflowEngine.Engine.ReportResult | cron.go:1720-1729 | one step of the runs above, with every invariant kept |
| WorkflowEngine.Engine.CompleteWorkflowExecution | cron.go:1800-1810 | the finished execution leaves the active map and joins the retained tail of the completed ones |
| WorkflowEngine.Engine.CompleteIfDone | cron.go:1731-1733 | between two steps exactly the unfinished executions are active |
| WorkflowEngine.Engine.CollectWorkflowParticipants | cron.go:1832-1850 | the breadth-first search lists exactly the entries reachable from the root, each once |
| WorkflowEngine.Engine.StartWorkflowExecution | cron.go:1813-1829 | a new execution begins a run: everything below the root is pending and only the root is in flight |
| WorkflowEngine.Engine.SetPaused | cron.go:1898-1905 | pausing and resuming keep every execution's invariants |
| WorkflowEngine.QuietExecutionIsNotActive | cron.go:1731-1733 | an execution with nothing in flight is complete and no longer active |
| EntryDependencies.HasCycle | workflow.go:196-223 | true exactly when the new child is reachable upwards from the new parent; the search ends |
| EntryDependencies.CycleIsReached | workflow.go:196-223 | reachability upwards in one map is reachability downwards in the other |
| EntryDependencies.AddKeepsSound | cron.go:2652-2678 | adding an edge that closes no cycle keeps both maps inverse, acyclic, live, free of duplicates and of empty lists |
| EntryDependencies.RemoveKeepsSound | cron.go:2682-2702 | so does removing all edges between a parent and a child |
| EntryDependencies.DependencyMaps.AddDependencyDirect | cron.go:2652-2678 | the error for an invalid condition, an unknown id or a cycle, exactly; otherwise both maps gain the edge, or nothing if it was there |
| EntryDependencies.DependencyMaps.RemoveDependencyDirect | cron.go:2682-2702 | every edge from parent to child goes, whatever its condition, and both maps stay sound |
| EntryDependencies.DependencyMaps.RemoveEdgesAsChild | cron.go:2574-2589 | the edges in which id is the child go from both maps |
| EntryDependencies.DependencyMaps.RemoveEdgesAsParent | cron.go:2592-2607 | the edges in which id is the parent go from both maps |
| EntryDependencies.DependencyMaps.RemoveEntryDependencies | cron.go:2568-2571 | every edge of id goes, all others stay, and the maps are sound without id |
| WorkflowSteps.CycleSearch.Visit | workflow.go:379-412 | the three-colour recursion: true only if there is a cycle; otherwise the name and all it leads to are on none |
| WorkflowSteps.HasCycleByName | workflow.go:379-412 | true exactly when the parent graph has a cycle, for any iteration order |
| WorkflowSteps.ValidateFinalStep | workflow.go:314-336 | more than one final step is an error; one final step gains an OnComplete edge from every other step |
| WorkflowSteps.BuildStepIndex | workflow.go:339-348 | duplicate names are an error; otherwise the index holds exactly the step names |
| WorkflowSteps.BuildNameDeps | workflow.go:351-374 | the adjacency lists of the steps |
| WorkflowSteps.Validate | workflow.go:295-374 | the first applicable error of the five, exactly, on the steps with the final step expanded |
| WorkflowRegistration.NoCycleYet | cron.go:2860-2890 | an edge that acyclic names have closes no cycle among the entries registered so far |
| WorkflowRegistration.AddEdge | cron.go:2860-2890 | registering a validated edge fails only for an invalid condition, never with a cycle |
| WorkflowRegistration.AddEntries | cron.go:2860-2890 | one new entry per step with the step's schedule, or the entries before the limit was reached |
| WorkflowRegistration.AddEdges | cron.go:2860-2890 | afterwards every step's edges are registered and its entry has no others |
| WorkflowRegistration.Rollback | cron.go:2860-2890 | removing the added entries restores the index and both dependency maps |
| WorkflowRegistration.RegisterWorkflowSteps | cron.go:2860-2890 | the error, exactly; on any error nothing has changed |
| WorkflowRegistration.AddWorkflow | cron.go:2836-2890 | validation, spec, name, limit and condition errors in this order, exactly; any failure leaves entries, both indexes, the limited counter and both dependency maps as they were; success registers each step wired as it says |
| FallBackGuard.SkipFallBackRepeats | cron.go:1410-1425 | the skip loop ends, for any mix of schedules and zones; what it skips are repeats and what it stops at is none |
| FallBackGuard.RepeatsEnd | cron.go:1232-1281 | after some instant nothing is a repeat any more, for unions and custom schedules too |
| FallBackGuard.SameReading | cron.go:1266-1307 | an earlier instant with the same reading is one repeat earlier and in the first copy |
| FallBackGuard.FirstCopyOf | cron.go:1266-1281 | one repeat before a second copy lies its first copy |
| FallBackGuard.SpecRepeatIs | cron.go:1232-1260 | the guard takes an answer of a spec for a repeat exactly when the last run or a recorded one shows its reading earlier and the spec does not match that distance before or after on the clock |
| FallBackGuard.UnionRepeatIs | cron.go:1232-1260 | an answer of a union of specs is a repeat exactly when some member fires there and each that does repeats a run |
| FallBackGuard.OtherRepeatIs | cron.go:1232-1260 | an interval never repeats, a custom schedule exactly when it shows the reading of its last run again |
| FallBackGuard.RecordsFirstCopies | cron.go:1311-1335 | a run is recorded exactly when its reading comes again in the zone of the schedule or of a member of the union |
| FallBackGuard.RemembersOneMore | cron.go:1311-1335 | recorded first-copy runs stay recorded for as long as the second copy can come |
| FallBackGuard.StepKeepsGuarded | cron.go:1385-1425 | every firing, rescheduling, pause skip, catch-up, immediate run and trigger keeps the guard's invariant |
| FallBackGuard.OncePerReadingAlways | cron.go:1232-1425 | over every run in forward time, triggers included, no reading is fired by the schedule in both copies unless the spec matches that distance before or after on the clock or the run is immediate, and every skipped instant repeats one that ran and does not recur so |
| FallBackGuard.LivesOn | cron.go:1479-1644 | what a part of a run leads to belongs to a run of the entry since it was added |
| FallBackGuard.LivingIsGuarded | cron.go:1232-1425 | so the guard's claims hold of it |
| RestoredRuns.RestoredIsRecognized | cron.go:1346-1362 | while nothing else has run, the guard recognizes the second copy of a restored run |
| RestoredRuns.RestoredRunsOnce | cron.go:649-653 | over every run, the reading of a restored run is fired again only immediately, where it recurs, or after the entry has run in between |
| RestoredRuns.RestoredRunsTwice | cron.go:1232-1260 | when the schedule runs between a restored run and its second copy, the second copy is fired as well |
| RestoredRuns.RestoredOnceExactly | cron.go:1232-1260 | with nothing triggered or forced in between, the second copy of a restored run is never fired if and only if it is what Next answers to the restored run |
| RestoredRuns.ZeroThirtyRuns | spec.go:646-653 | from 01:00 to the second 01:00 in New York, 0,30 1 * * * matches exactly 01:00, 01:30 and 01:00, and 01:00 does not recur |
| RestoredRuns.ZeroThirtyRunsAgain | cron.go:1232-1260 | restored with 01:00, it runs at 01:30 and then at the second 01:00: the guard has forgotten the restored run |
| RestoredRuns.HourlyRunsBothCopies | cron.go:1287-1290 | an hourly job keeps both copies of 01:00 |
| RestoredRuns.ZeroThirtySkips | cron.go:1232-1260 | 0,30 1 * * * skips the second 01:00 once the first one has run |
| MissedRuns.CalculateMissedRuns | missed.go:96-168 | the loop ends with exactly the first 100 occurrences that neither the grace period nor the guard removes, or nothing for the entries that do not catch up |
| MissedRuns.OccurrencesAreRuns | missed.go:137-143 | for an exact Next within its span, what the loop walks through are all runs between Prev and now |
| MissedRuns.OccurrencesInOrder | missed.go:137-143 | they increase strictly and lie inside (Prev, now) |
| MissedRuns.MissedInOrder | missed.go:96-168 | the list increases strictly and holds occurrences only |
| MissedRuns.MissedOnceIsExact | missed.go:96-178 | MissedRunOnce lists exactly the first 100 occurrences that neither the grace period nor the guard removes |
| MissedRuns.MissedOnceRunsLatest | missed.go:186-229 | the run that MissedRunOnce starts is the most recent one missed if and only if at most 100 occurrences remain |
| MissedRuns.MissedOnceAtTheCap | missed.go:96-168 | a job that runs every minute and missed 101 runs: the 100th is started |
| MissedRuns.RemainingNamed | missed.go:173-178 | what remains is no older than the grace period, if there is one, and no repeat of a run |
| MissedRuns.StartedInGrace | missed.go:173-178 | no catch-up run is older than the grace period, whatever the policy |
| MissedRuns.AllWithinGrace | missed.go:96-168 | for an interval MissedRunAll lists exactly the first 100 times within the grace period |
| MissedRuns.LastMissedIsStep | missed.go:192-205 | the catch-up of MissedRunOnce is a step the fall-back guard allows |
| MissedRuns.MissedAllAreSteps | missed.go:149-155 | the catch-ups of MissedRunAll are steps the fall-back guard allows, one after the other |
| MissedRuns.HandleMissedRuns | missed.go:186-229 | which jobs start, and Prev and the recorded runs afterwards |
| MissedRuns.ProcessMissedRuns | missed.go:233-236 | catching up is a run of guarded steps of the entry, ending in its new state |
| EntryHeaps.LessIsStrictWeakOrder | heap.go:19-32 | the order is irreflexive, asymmetric, and its complement is transitive |
| EntryHeaps.NotLessIs | heap.go:19-32 | an entry is not later than another when its run is earlier or, at the same time, its priority is no lower; entries without a run come last |
| EntryHeaps.RootIsFirst | heap.go:67-72 | no entry of a heap should fire before the root |
| EntryHeaps.SwapUp | heap.go:35-39 | one step up leaves at most the parent's place out of order |
| EntryHeaps.SwapDown | heap.go:35-39 | one step down leaves at most the child's place out of order |
| EntryHeaps.EntryHeap.Swap | heap.go:35-39 | the two entries change places and know them |
| EntryHeaps.EntryHeap.Push | heap.go:43-47 | the entry joins the heap; the heap and all stored indexes are right |
| EntryHeaps.EntryHeap.PeekIsFirst | heap.go:67-72 | Peek gives an entry with the earliest run and, among those of that time, the highest priority, or null for an empty heap |
| EntryHeaps.EntryHeap.Update | heap.go:76-80 | after one entry's key has changed the heap is restored, with the same entries |
| EntryHeaps.EntryHeap.RemoveAt | heap.go:86-93 | removes exactly the entry if it is there, false for a stale index, and restores the heap |
| EntryHeaps.EntryHeap.PopLast | heap.go:52-63 | the last slot goes and its entry is marked as removed |
| EntryHeaps.EntryHeap.Init | cron.go:1491-1491 | any arrangement becomes a heap of the same entries |
| Schedulers.NoSharing | cron.go:995-1062 | no two entries share an id or a name |
| Schedulers.Scheduler.TryIncrementEntryCount | cron.go:2507-2521 | succeeds exactly below the limit or without one |
| Schedulers.Scheduler.ScheduleJob | cron.go:995-1062 | the limit and duplicate-name errors, exactly, with everything reverted; otherwise a new entry with all its settings under the next id in heap, index and name index |
| Schedulers.Scheduler.RemoveEntry | cron.go:2535-2564 | the entry leaves heap, both indexes, the counter and the dependency maps; unknown ids change nothing |
| Schedulers.Scheduler.UpdateSchedule | cron.go:1865-1890 | the schedule is replaced and, while running, the next run is the answer of Next past the repeats and the heap restored; unknown ids are an error |
| Schedulers.Scheduler.SetPaused | cron.go:1898-1905 | only the flag of that entry changes |
| Schedulers.Scheduler.AddDependency | cron.go:2705-2714 | the dependency errors for live ids, exactly, and the new maps |
| Schedulers.Scheduler.RemoveDependency | cron.go:2730-2740 | all edges between the two entries go |
| Schedulers.Scheduler.ScheduleEntryNext | cron.go:1191-1201 | an immediate entry is due now; any other gets Next past the fall-back repeats |
| Schedulers.Scheduler.CatchUpAndSchedule | cron.go:1484-1488 | the catch-ups of the entry's policy start, exactly, and its next run is set; both are steps of its guarded run |
| Schedulers.Scheduler.CatchUpRunsAre | missed.go:186-229 | catch-ups start under their scheduled times and are no immediate runs |
| Schedulers.Scheduler.StartRunning | cron.go:1479-1491 | every entry starts exactly its catch-ups, in order, and is scheduled in the future or now; the heap is built; every entry's guarded run goes on |
| Schedulers.Scheduler.AddWhileRunning | cron.go:1517-1535 | the errors of ScheduleJob; otherwise the new entry has started exactly its catch-ups and has its place in the heap, and its guarded run has begun |
| Schedulers.Scheduler.HandleTimeBackwards | cron.go:1366-1381 | exactly the entries that ran in what is now the future get the answer of Next past the repeats; all others stay |
| Schedulers.Scheduler.TriggerEntry | cron.go:2113-2137 | unknown and paused entries are errors; otherwise the job starts, its guarded run goes on with a trigger, and a run-once entry goes |
| Schedulers.Scheduler.ProcessEntry | cron.go:1443-1477 | one turn of the dispatch is a step of the entry's guarded run |
| Schedulers.Scheduler.ProcessDueEntries | cron.go:1443-1477 | ends; dispatches exactly the due unpaused entries, once each, by time and then descending priority; afterwards no entry is due, those that were not due are unchanged, and every entry's guarded run has gone on |
| DrainProtocol.JobTracker.Start | cron.go:444-451 | a channel exists, the last one made, exactly while something is in flight |
| DrainProtocol.JobTracker.Finish | cron.go:453-461 | the last finish closes it |
| DrainProtocol.StepKeepsTracked | cron.go:444-493 | in every interleaving the tracker counts the invocations in flight |
| DrainProtocol.NoStaleStart | cron.go:2321-2381 | without other mutators, after the pause reply of DrainAndUpsertJob no invocation of the old job starts, in any interleaving |
| DrainProtocol.SwapFindsNothingInFlight | cron.go:2321-2381 | at the swap nothing is in flight; afterwards only the new job runs and the paused state is as found |
| DrainProtocol.NeverCreates | cron.go:2321-2381 | an entry that is there and left alone is never created anew |
| DrainProtocol.DrainGoesOn | cron.go:2321-2381 | the drain is never stuck: until it has returned, one of its steps or the end of an invocation is possible and leads closer to the end |
| DrainProtocol.DrainCompletes | cron.go:2321-2381 | from every world of a drain such steps lead to its return, with the new job in place and the entry paused as it was found |
| DrainProtocol.LaunchIsPossible | cron.go:1657-1711 | an entry that is there and not paused can be launched and runs the job of the moment |
| DrainProtocol.RemovedIsQuiet | cron.go:1109-1144 | once RemoveAndWait has returned nil no invocation of the entry runs or starts, whatever other callers do |
| DrainProtocol.RemovalCompletes | cron.go:1109-1144 | removing an entry that is there can always reach nil, removing one that is not reaches the error |
| MemoryLockers.LockedIsHeld | locker.go:61-82 | a key is locked in the store exactly when some grant of it has neither expired nor been released |
| MemoryLockers.MemoryLocker.TryLock | locker.go:61-82 | under a clock that does not go back it succeeds exactly when a store that never forgets has no active grant for the key |
| MemoryLockers.MemoryLocker.Release | locker.go:61-82 | ends only its own grant, however late it is called |
| MemoryLockers.MemoryLocker.Sweep | locker.go:86-93 | removes exactly the expired keys |
| MemoryLockers.MemoryLocker.StaysSmall | locker.go:61-93 | the store never outgrows the next sweep, and all sweeps took at most two steps per successful TryLock |
| MemoryLockers.PaidSwept | locker.go:86-93 | a sweep is paid for by the grants since the last one |
| AlignedSchedules.FloorMod | aligned.go:78-84 | the truncating remainder is turned into the floor remainder without overflow |
| AlignedSchedules.GridOffset | aligned.go:65-75 | equals (sec * 10^9 + nsec) mod d for every int64 second count and every positive int64 interval, with no overflow on the way |
| AlignedSchedules.Next | aligned.go:42-47 | the least multiple of the interval after t; t plus a second for a non-positive interval |
| AlignedSchedules.Prev | aligned.go:50-59 | the greatest multiple before t |
| AlignedSchedules.OneCellOneNext | aligned.go:42-75 | all instants of one grid cell agree on the next run |
| AlignedSchedules.NextPrevInverse | aligned.go:42-59 | on the grid Next and Prev undo each other |
| FieldMasks.OneValue | spec.go:639-642 | a mask with one bit matches one value |
| FieldMasks.NormalizeDowIs | spec.go:152-157 | Sunday as 7 becomes Sunday as 0, every other value stays |
| FieldMasks.StarOnly | spec.go:131-137 | the star bit is no value of any field |
| FieldMasks.ShiftedIsWalk | parser.go:1691-1704 | the two shifts give exactly the values from low to high |
| FieldRanges.GetBits | parser.go:1691-1704 | shift form and loop form alike: exactly low, low + step, ... up to high |
| FieldRanges.GetWraparoundBits | parser.go:1714-1740 | exactly the walk around the field, over seven days for a stepped day of week |
| FieldRanges.GetRange | parser.go:1319-1439 | the first applicable error, exactly; otherwise exactly the selected values and the star bit when it is kept |
| FieldRanges.RangeIsInField | parser.go:1348-1439 | an accepted range selects at least one value and none outside the field |
| RangeLaws.PlainNumber | parser.go:1392-1439 | a plain number within the field selects itself alone |
| RangeLaws.PlainRange | parser.go:1392-1439 | low-high selects low to high |
| RangeLaws.PlainWraparound | parser.go:1714-1740 | high-low selects from high to the end of the field and from its start to low, where wrapping is allowed |
| RangeLaws.Everything | parser.go:1392-1439 | a star selects the whole field and keeps the star bit |
| RangeLaws.Stepped | parser.go:1392-1439 | a step selects every step-th value up to the end of the field or the step end, keeps no star, and is an error beyond the range unless steps are lenient |
| RangeLaws.Faults | parser.go:1348-1367 | a star that starts a range, a zero step and values outside the field are errors |
| RangeLaws.HashFaults | parser.go:1454-1525 | an H item is accepted exactly with the hash option, a step other than zero and a range within the field, reversed only where wrapping is allowed |
| FieldRanges.DowWalk | parser.go:1538-1547 | a stepped day-of-week walk selects exactly the days reached from the start by whole steps up to the end of the range, with 7 read as 0 |
| FieldRanges.HashedWalkInField | parser.go:1561-1594 | a stepped H selects only values of its field |
| FieldRanges.HashedInRange | parser.go:1597-1609 | outside the day of week a single H picks a value of the range itself, wrapped or not |
| FieldRanges.GetHashStepBits | parser.go:1561-1594 | exactly the walk from the hashed offset around the range |
| FieldRanges.HashedWalkStarts | parser.go:1561-1594 | a stepped H selects something, even with a step above the range size |
| RangeLaws.KeysDiffer | parser.go:1597-1609 | outside the day of week, keys less than the range size apart pick different values |
| RangeLaws.EachValuePicked | parser.go:1597-1609 | so any such number of consecutive keys picks each value of the range once |
| RangeLaws.OffsetsSpread | parser.go:1561-1594 | the offsets of stepped hash walks are taken equally often: each once per block of step keys, or with a step above the range size each equally often in as many blocks as the range has values |
| FieldRanges.GetHashedRange | parser.go:1454-1525 | the errors of an H item, exactly; otherwise its walk, or the one hashed value |
| HashedDays.AlwaysADay | parser.go:1597-1628 | every key gives one of the distinct days of the range |
| HashedDays.DaysRepeat | parser.go:1597-1628 | the day repeats after r(r-1) keys |
| HashedDays.EachDayEquallyOften | parser.go:1597-1628 | any r(r-1) consecutive hash values give each of the r-1 distinct days exactly r times |
| HashedDays.BothSundays | parser.go:1617-1628 | the ranges in question are exactly those in which Sunday can be picked under both numbers |
| HashedDays.OneSunday | parser.go:1597-1628 | in any other range a key picks the day it falls on, with 7 read as 0 |
| SpecTexts.FieldsAreWords | parser.go:491-616 | the fields of a text are exactly its maximal stretches without spaces |
| ParseLaws.JoinedFields | parser.go:491-616 | the fields of two texts with a space between are those of the first and then those of the second |
| ParseLaws.OneField | parser.go:491-616 | a word is its own only field, spaces have none |
| SpecTexts.SpacesAre | parser.go:491-616 | white space is that of Unicode, character by character |
| ParseLaws.JoinedItemsFrom | parser.go:986-992 | so it is for items and commas |
| ParseLaws.OneItem | parser.go:986-992 | a text without commas is its own only item |
| ParseLaws.HashItemFrom | parser.go:708-717 | a field has a hash item exactly when one of its items starts with H |
| SpecTexts.FieldsOfRest | parser.go:403-441 | what follows a timezone has only fields of the whole spec |
| SpecTexts.ItemsWithoutHash | parser.go:708-717 | only a field that containsHashExpr finds has an item that starts with H |
| ParseCaches.NormalizedFrom | parser.go:727-794 | normalized fields are fields of the spec or defaults |
| ParseCaches.YearLeaves | parser.go:799-895 | what year extraction leaves are fields of the spec |
| ParseLaws.NormalizedInPlaces | parser.go:727-794 | six fields: the given ones in their places in order, 0 for a second, minute or hour and * for the rest where a place is not configured; none exactly when the count does not fit |
| ParseLaws.WithoutSecond | parser.go:754-794 | without Second fields are read as with 0 in front under Second |
| ParseLaws.OptionalSecond | parser.go:754-794 | with SecondOptional and one field too few as with 0 in front |
| ParseLaws.OptionalDow | parser.go:754-794 | with DowOptional and one field too few as with * behind |
| ParseLaws.YearIsTaken | parser.go:799-895 | a year behind fields that fit is taken off |
| ParseLaws.YearIsOpen | parser.go:799-895 | without a year, fields that fit are kept and every year matches, where the year is optional or the last field may be the day-of-week |
| ParseLaws.YearIsMissing | parser.go:799-895 | the exact numbers of fields that are accepted with a year option |
| ParseLaws.SecondZero | parser.go:491-616 | whole specs: a parser without seconds, or with optional ones left out, reads a text as one with seconds reads it with 0 in front, year or not |
| ParseLaws.OptionalDowStar | parser.go:491-616 | and one with an optional day-of-week left out as with * behind |
| ParseLaws.ZonedText | parser.go:403-441 | TZ=name or CRON_TZ=name before a text gives what the text gives in that zone, descriptors included |
| ParseLaws.Quotes | parser.go:403-441 | a zone name loses one pair of quotes of a kind around it and nothing else |
| ParseLaws.FieldsRead | parser.go:491-616 | fields that fit are read place by place, unless hash items lack the option or the key |
| ParseLaws.NotRead | parser.go:491-616 | an empty text and one of more than 1024 characters are errors |
| ParseLaws.ReadInPlaces | parser.go:491-616 | each field is read item by item for its own place |
| ParseLaws.EachItemRead | parser.go:1454-1525 | items that start with H see the hash key, others do not |
| ParseCaches.KeyDoesNotMatter | parser.go:491-616 | parse gives the same under every hash key for a spec without an H item |
| ParseCaches.SameKeySameOutcome | parser.go:132-143 | parsers that look for the same cache entry parse the spec alike |
| ParseLaws.KeysTellApart | parser.go:132-143 | two parses share a cache entry exactly when text and settings are the same and so is the hash key, unless no item starts with H |
| ParseCaches.Parser.Parse | parser.go:450-468 | a cached result is what a fresh parse with the parser's own settings gives, whoever stored it |
| ParseCaches.EveryCallIsFresh | parser.go:450-468 | so it is for any interleaving of overlapping calls by parsers that share the cache |

## Left out

- AtMostOnce: for one given graph the converse fails: whether its shortcut leads to a second start depends on the order
  of its child lists, its conditions and the pauses. AtMostOnceExactly is exact over all of those.
- TriggerWorkflowChild: the Prev of a started child is not part of the engine model; for the guard it is a trigger.
- QuietExecutionIsNotActive: the graph is static while an execution runs; entries removed during an execution are covered
  only as entries that are gone.
- OncePerReadingAlways: time does not go backwards and the schedule is not replaced; unions and custom schedules have
  the termination of the skip loop only. Immediate runs and triggers are exempt, as the code does not guard them; a
  trigger counts as a run that a skipped instant may repeat. A restored run is covered by RestoredOnceExactly.
- Prev: zones with changes are not covered; prevDay and time.Date may pick either copy of a repeated reading. Its gap
  runs are covered by PrevGapRun on its own.
- PrevExisting: fixed-offset zones only, for the same reason.
- RetreatDate: fixed-offset zones only.
- RetreatDay: fixed-offset zones only.
- RetreatTime: fixed-offset zones only.
- RetreatHour: fixed-offset zones only.
- RetreatMinute: fixed-offset zones only.
- RetreatSecond: fixed-offset zones only.
- NextUndoesPrev: fixed-offset zones only.
- PrevUndoesNext: fixed-offset zones only.
- DateChangeAfter: dates more than 31 ahead; no caller asks for them.
- AddWorkflow: on a running scheduler each added entry is also given its next run, as AddWhileRunning describes; other
  callers between its steps are not modelled.
- AddEntries: the same.
- TryIncrementEntryCount: the retry of the compare-and-swap under concurrent callers.
- TriggerEntry: whether it starts a job or a workflow execution is not distinguished in the log.
- NoStaleStart: other callers that resume, update or remove the entry, and a restart of the scheduler during the drain,
  are outside the claim; catch-up at a start does not look at the paused flag.
- ScheduleJob: ids do not wrap around at 2^64; job wrappers, contexts, tags and logging are not modelled.
- RemoveEntry: index map compaction copies the maps unchanged and is left out; without a limit the counter is not claimed
  to mean anything.
- UpdateSchedule: replacing the job and its context is not modelled.
- ProcessDueEntries: whether a dispatched entry starts a job or a workflow execution is not distinguished in the log.
- TryLock: the token counter does not wrap around at 2^64; the mutex makes each call atomic.
- GetRange: expressions are taken after splitting at "/" and "-" and reading numbers and names; year lists, L, W and #
  items are read by functions the model leaves arbitrary.
- Parse: what reads a single item, a descriptor or a timezone name, and what assembles the schedule from the items, are
  arbitrary functions that are not given the hash key; only the function for items that start with H is.
- Fractions of a second: every search starts by rounding them off.
- Zones that return to an earlier date, and inexact zone bounds that are probed by hand.
- The workflow engine's job goroutines: panics and skip marks arrive as outcomes; execution ids are fresh names.
- Retries, chains, groups, throttling, the fake clock, introspection, option plumbing, error texts and hooks: they would
  add easy members only.
