/** The scheduler: its entries in the heap and in two index maps, and the dispatch of those that are due. */
module Schedulers {
  import opened Digraphs
  import opened Entries
  import opened EntryDependencies
  import opened EntryHeaps
  import opened FallBackGuard
  import opened MissedRuns
  import opened Options
  import opened WorkflowTypes
  import opened Zones

  datatype SchedulerError = MaxEntriesReached | DuplicateName | UnknownEntry | EntryPaused

  /** Where in their runs the entries are. */
  type History = map<Entry, EntryRun>

  /** What an entry brings to the start of run. */
  datatype Waiting = Waiting(schedule: Schedule, paused: bool, heapIndex: int, runImmediately: bool, prev: Option<int>,
                             runs: seq<int>)

  /** A job the scheduler started, for the record. */
  datatype Run = Run(id: int, scheduled: int, immediate: bool)

  // ----- the index maps -----

  /** index holds exactly the members, by id; ids are positive and no larger than the last one given out. */
  ghost predicate Indexes(index: map<int, Entry>, members: set<Entry>, nextID: int) {
    && (forall e :: e in members ==> e.id in index && index[e.id] == e)
    && (forall id :: id in index ==> index[id] in members && index[id].id == id && 0 < id <= nextID)
  }

  /** names holds exactly the members that have a name, by name. */
  ghost predicate Names(names: map<string, Entry>, members: set<Entry>) {
    && (forall e :: e in members && e.name != "" ==> e.name in names && names[e.name] == e)
    && (forall n :: n in names ==> n != "" && names[n] in members && names[n].name == n)
  }

  /** With a limit the counter counts the members and stays within it. */
  predicate Counts(maxEntries: int, entryCount: int, members: set<Entry>) {
    maxEntries > 0 ==> entryCount == |members| <= maxEntries
  }

  /** Two entries never share an id or a name. */
  lemma NoSharing(index: map<int, Entry>, names: map<string, Entry>, members: set<Entry>, nextID: int, a: Entry,
                  b: Entry)
    requires Indexes(index, members, nextID) && Names(names, members) && a in members && b in members
    ensures a.id == b.id ==> a == b
    ensures a.name == b.name != "" ==> a == b
  {
    assert a.id == b.id ==> index[a.id] == a && index[b.id] == b;
    assert a.name == b.name != "" ==> names[a.name] == a && names[b.name] == b;
  }

  lemma IndexesAdded(index: map<int, Entry>, members: set<Entry>, nextID: int, e: Entry)
    requires Indexes(index, members, nextID) && e.id == nextID + 1 > 0
    ensures Indexes(index[e.id := e], members + {e}, nextID + 1)
    ensures e !in members && e.id !in index
  {
  }

  lemma IndexesRemoved(index: map<int, Entry>, members: set<Entry>, nextID: int, id: int)
    requires Indexes(index, members, nextID) && id in index
    ensures Indexes(index - {id}, members - {index[id]}, nextID)
    ensures (index - {id}).Keys == index.Keys - {id}
  {
  }

  lemma NamesAdded(names: map<string, Entry>, members: set<Entry>, e: Entry)
    requires Names(names, members) && e.name !in names
    ensures Names(if e.name != "" then names[e.name := e] else names, members + {e})
  {
  }

  lemma NamesRemoved(names: map<string, Entry>, members: set<Entry>, e: Entry)
    requires Names(names, members) && e in members
    ensures Names(if e.name != "" then names - {e.name} else names, members - {e})
  {
  }

  lemma CountsAdded(maxEntries: int, entryCount: int, members: set<Entry>, e: Entry)
    requires Counts(maxEntries, entryCount, members) && e !in members && (maxEntries > 0 ==> entryCount < maxEntries)
    ensures Counts(maxEntries, if maxEntries > 0 then entryCount + 1 else entryCount, members + {e})
  {
  }

  lemma CountsRemoved(maxEntries: int, entryCount: int, members: set<Entry>, e: Entry)
    requires Counts(maxEntries, entryCount, members) && e in members
    ensures Counts(maxEntries, entryCount - 1, members - {e})
  {
  }

  // ----- one dispatch of all due entries, seen on snapshots -----

  /** What an entry's fields are at one moment. */
  datatype Moment = Moment(next: Option<int>, prev: Option<int>, runs: seq<int>, immediate: bool, paused: bool) {
    predicate Due(now: int) { next.Some? && next.value <= now }
  }

  type Snapshot = map<Entry, Moment>

  function KeyIn(snap: Snapshot, e: Entry): Key
    requires e in snap
  {
    Key(snap[e].next, e.priority)
  }

  /** ran are exactly the due entries that are not paused, once each, earlier runs first and at the same time higher
      priorities first. */
  ghost predicate DispatchOrder(was: Snapshot, now: int, ran: seq<Entry>) {
    && Distinct(ran)
    && (forall e :: e in ran ==> e in was && was[e].Due(now) && !was[e].paused)
    && (forall e :: e in was && was[e].Due(now) && !was[e].paused ==> e in ran)
    && (forall i, j :: 0 <= i < j < |ran| ==>
          || was[ran[i]].next.value < was[ran[j]].next.value
          || (was[ran[i]].next == was[ran[j]].next && ran[i].priority >= ran[j].priority))
  }

  /** The log of a dispatch. */
  function RunsOf(was: Snapshot, ran: seq<Entry>): seq<Run>
    requires forall e :: e in ran ==> e in was && was[e].next.Some?
  {
    if ran == [] then []
    else
      var e := ran[|ran| - 1];
      RunsOf(was, ran[..|ran| - 1]) + [Run(e.id, was[e].next.value, was[e].immediate)]
  }

  /** What a dispatch leaves: entries that run once are gone if they ran, no other is due any more, those that ran
      know when, and those that were not due are as they were. */
  ghost predicate Handled(was: Snapshot, now: int, ran: seq<Entry>, snap: Snapshot) {
    && (forall e :: e in snap ==> e in was && !(e in ran && e.runOnce))
    && (forall e :: e in was && !(e in ran && e.runOnce) ==> e in snap)
    && (forall e :: e in snap ==> !snap[e].Due(now))
    && (forall e :: e in snap && e in ran ==> snap[e].prev == was[e].next)
    && (forall e :: e in snap && e !in ran ==> snap[e].prev == was[e].prev && snap[e].runs == was[e].runs)
    && (forall e :: e in snap && !was[e].Due(now) ==> snap[e] == was[e])
  }

  /** One turn: e was skipped or has run. */
  ghost predicate Processed(snap: Snapshot, e: Entry, now: int, after: Snapshot)
    requires e in snap
  {
    && after.Keys == (if e.runOnce && !snap[e].paused then snap.Keys - {e} else snap.Keys)
    && (forall f :: f in after && f != e ==> after[f] == snap[f])
    && (e in after ==> !after[e].Due(now))
    && (e in after && !snap[e].paused ==> after[e].prev == snap[e].next)
    && (e in after && snap[e].paused ==> after[e].prev == snap[e].prev && after[e].runs == snap[e].runs)
  }

  /** In the middle of a dispatch: `done` have had their turn, ran of them ran, and none that is left should have fired
      before any of those. */
  ghost predicate InTurn(was: Snapshot, now: int, done: set<Entry>, ran: seq<Entry>) {
    && (forall e :: e in done ==> e in was && was[e].Due(now))
    && Distinct(ran)
    && (forall e :: e in ran ==> e in done && !was[e].paused)
    && (forall e :: e in done && !was[e].paused ==> e in ran)
    && (forall i, j :: 0 <= i < j < |ran| ==> !Less(KeyIn(was, ran[j]), KeyIn(was, ran[i])))
    && (forall e, f :: e in ran && f in was && f !in done ==> !Less(KeyIn(was, f), KeyIn(was, e)))
  }

  ghost predicate PartlyHandled(was: Snapshot, now: int, done: set<Entry>, ran: seq<Entry>, snap: Snapshot) {
    && (forall e :: e in snap ==> e in was && !(e in ran && e.runOnce))
    && (forall e :: e in was && !(e in ran && e.runOnce) ==> e in snap)
    && (forall e :: e in snap && e !in done ==> snap[e] == was[e])
    && (forall e :: e in snap && e in done ==> !snap[e].Due(now))
    && (forall e :: e in snap && e in ran ==> snap[e].prev == was[e].next)
    && (forall e :: e in snap && e !in ran ==> snap[e].prev == was[e].prev && snap[e].runs == was[e].runs)
  }

  lemma InTurnMore(was: Snapshot, now: int, done: set<Entry>, ran: seq<Entry>, e: Entry)
    requires InTurn(was, now, done, ran) && e in was && e !in done && was[e].Due(now)
    requires forall f :: f in was && f !in done ==> !Less(KeyIn(was, f), KeyIn(was, e))
    ensures InTurn(was, now, done + {e}, if was[e].paused then ran else ran + [e])
  {
    hide Less;
    var more := ran + [e];
    assert forall f :: f in more <==> f in ran || f == e;
    forall i, j | 0 <= i < j < |more|
      ensures more[i] != more[j] && !Less(KeyIn(was, more[j]), KeyIn(was, more[i]))
    {
      assert ran[i] in ran;
    }
  }

  lemma TurnsBegin(was: Snapshot, now: int)
    ensures InTurn(was, now, {}, []) && PartlyHandled(was, now, {}, [], was)
  {
  }

  lemma PartlyHandledMore(was: Snapshot, now: int, done: set<Entry>, ran: seq<Entry>, snap: Snapshot, e: Entry,
                          after: Snapshot)
    requires PartlyHandled(was, now, done, ran, snap) && e in snap && e in was && e !in ran && was[e] == snap[e]
    requires Processed(snap, e, now, after)
    ensures PartlyHandled(was, now, done + {e}, if was[e].paused then ran else ran + [e], after)
  {
    var more := if was[e].paused then ran else ran + [e];
    assert forall f :: f in more <==> f in ran || (f == e && !was[e].paused);
  }

  /** Among those that are left, e is the one that should fire next. */
  lemma StillFirst(was: Snapshot, now: int, done: set<Entry>, ran: seq<Entry>, snap: Snapshot, e: Entry)
    requires InTurn(was, now, done, ran) && PartlyHandled(was, now, done, ran, snap)
    requires e in snap && snap[e].Due(now) && forall f :: f in snap ==> !Less(KeyIn(snap, f), KeyIn(snap, e))
    ensures e in was && e !in done && was[e] == snap[e] && e !in ran
    ensures forall f :: f in was && f !in done ==> !Less(KeyIn(was, f), KeyIn(was, e))
  {
    hide Less, Distinct;
    forall f | f in was && f !in done
      ensures !Less(KeyIn(was, f), KeyIn(was, e))
    {
      assert f in snap && snap[f] == was[f];
      assert !Less(KeyIn(snap, f), KeyIn(snap, e));
    }
  }

  lemma TurnsEnd(was: Snapshot, now: int, done: set<Entry>, ran: seq<Entry>, snap: Snapshot)
    requires InTurn(was, now, done, ran) && PartlyHandled(was, now, done, ran, snap)
    requires forall e :: e in snap ==> !snap[e].Due(now)
    ensures DispatchOrder(was, now, ran) && Handled(was, now, ran, snap)
  {
    hide Less, Distinct;
    assert forall e :: e in was && e !in done ==> e in snap && snap[e] == was[e];
    forall i, j | 0 <= i < j < |ran|
      ensures || was[ran[i]].next.value < was[ran[j]].next.value
              || (was[ran[i]].next == was[ran[j]].next && ran[i].priority >= ran[j].priority)
    {
      NotLessIs(KeyIn(was, ran[i]), KeyIn(was, ran[j]));
    }
  }

  // ----- the runs of the entries during a dispatch -----

  /** The entry is at moment m of its run a. */
  predicate Is(m: Moment, a: EntryRun) {
    m.prev == a.prev && m.runs == a.runs && m.next == a.next && m.immediate == a.immediate
  }

  /** From `history` to `after` every entry's run went on. */
  ghost predicate WentOn(snap: Snapshot, schedules: map<Entry, Schedule>, local: Zone, now: int,
                         history: History, after: History) {
    forall e :: e in snap ==>
                  && e in schedules && e in history && e in after && Is(snap[e], after[e]) && after[e].clock <= now
                  && LeadsTo(schedules[e], local, history[e], after[e])
  }

  lemma WentTo(snap: Snapshot, schedules: map<Entry, Schedule>, local: Zone, now: int, history: History, after: History,
               e: Entry)
    requires WentOn(snap, schedules, local, now, history, after) && e in snap
    ensures e in schedules && e in after && Is(snap[e], after[e]) && after[e].clock <= now
  {
    hide LeadsTo;
  }

  lemma WentFurther(snap: Snapshot, schedules: map<Entry, Schedule>, local: Zone, now: int,
                    history: History, after: History, e: Entry, next: Snapshot, b: EntryRun)
    requires WentOn(snap, schedules, local, now, history, after) && e in snap && Processed(snap, e, now, next)
    requires e in schedules && e in after
    requires e in next ==> Is(next[e], b) && b.clock <= now && LeadsTo(schedules[e], local, after[e], b)
    ensures WentOn(next, schedules, local, now, history, after[e := b])
  {
    hide LeadsTo;
    if e in next {
      LeadsToTwice(schedules[e], local, history[e], after[e], b);
    }
  }

  class Scheduler {
    const maxEntries: int
    const local: Zone
    const entries: EntryHeap
    const deps: DependencyMaps
    var entryIndex: map<int, Entry>
    var nameIndex: map<string, Entry>
    var entryCount: int
    var nextID: int
    var running: bool
    var log: seq<Run>

    constructor (maxEntries: int, local: Zone)
      ensures Valid() && fresh(entries) && fresh(deps) && entries.slots == [] && log == [] && !running
      ensures this.maxEntries == maxEntries && this.local == local
    {
      this.maxEntries, this.local := maxEntries, local;
      entries := new EntryHeap();
      deps := new DependencyMaps();
      entryIndex, nameIndex, entryCount, nextID, running, log := map[], map[], 0, 0, false, [];
    }

    /** The heap, both index maps, the counter and the dependency maps agree. */
    ghost predicate Valid()
      reads this, entries, deps, entries.Members()`heapIndex, entries.Members()`next
    {
      entries.Valid() && Consistent(entries.Members())
    }

    /** All of that but the order of the heap. */
    ghost predicate Consistent(members: set<Entry>)
      reads `entryIndex, `nameIndex, `entryCount, `nextID, deps
    {
      && Indexes(entryIndex, members, nextID)
      && Names(nameIndex, members)
      && Counts(maxEntries, entryCount, members)
      && deps.Valid(entryIndex.Keys)
      && 0 <= nextID
    }

    /** scheduleJob */
    method ScheduleJob(schedule: Schedule, settings: Settings) returns (id: int, err: Option<SchedulerError>)
      requires Valid()
      modifies `entryIndex, `nameIndex, `entryCount, `nextID, entries, entries.Members()`heapIndex
      ensures Valid()
      ensures err == if maxEntries > 0 && old(entryCount) >= maxEntries then Some(MaxEntriesReached)
                     else if settings.name != "" && settings.name in old(nameIndex) then Some(DuplicateName)
                     else None
      ensures err.Some? ==> entryIndex == old(entryIndex) && nameIndex == old(nameIndex)
                            && entryCount == old(entryCount)
      ensures err.Some? ==> nextID == old(nextID) && entries.slots == old(entries.slots)
      ensures err.None? ==> id == old(nextID) + 1 == nextID && id !in old(entryIndex) && id in entryIndex
      ensures err.None? ==>
                var e := entryIndex[id];
                && fresh(e) && e.schedule == schedule && e.name == settings.name && e.next.None? && !e.immediateDue
                && e.runImmediately == settings.runImmediately && e.prev == settings.prev && e.fallBackRuns == []
                && e.priority == settings.priority && e.paused == settings.paused && e.runOnce == settings.runOnce
                && e.missedPolicy == settings.missedPolicy && e.grace == settings.grace
                && entryIndex == old(entryIndex)[id := e]
                && nameIndex == (if e.name != "" then old(nameIndex)[e.name := e] else old(nameIndex))
                && entries.Members() == old(entries.Members()) + {e}
      ensures err.None? && maxEntries > 0 ==> entryCount == old(entryCount) + 1
    {
      hide Indexes, Names, Counts, Sound, KeysOf, EntryHeap.Valid, EntryHeap.Keys, EntryHeap.Indexed;
      id := 0;
      var ok := TryIncrementEntryCount();
      if !ok {
        return 0, Some(MaxEntriesReached);
      }
      nextID := nextID + 1;
      var e := new Entry(nextID, schedule, settings);
      IndexesAdded(entryIndex, entries.Members(), nextID - 1, e);
      if e.name != "" && e.name in nameIndex {
        nextID := nextID - 1;
        if maxEntries > 0 {
          entryCount := entryCount - 1;
        }
        return 0, Some(DuplicateName);
      }
      NoEmptyName(nameIndex, entries.Members());
      Register(e);
      return e.id, None;
    }

    /** The last part of scheduleJob: reserve the name and put e into the heap and the index. */
    method Register(e: Entry)
      requires entries.Valid() && Indexes(entryIndex, entries.Members(), nextID - 1) && e.id == nextID > 0
      requires Names(nameIndex, entries.Members()) && e.name !in nameIndex
      requires Counts(maxEntries, if maxEntries > 0 then entryCount - 1 else entryCount, entries.Members())
      requires maxEntries > 0 ==> entryCount <= maxEntries
      requires deps.Valid(entryIndex.Keys)
      modifies `entryIndex, `nameIndex, entries, entries.Members()`heapIndex, e`heapIndex
      ensures Valid()
      ensures entryIndex == old(entryIndex)[e.id := e] && entries.Members() == old(entries.Members()) + {e}
      ensures nameIndex == if e.name != "" then old(nameIndex)[e.name := e] else old(nameIndex)
    {
      hide Indexes, Names, Counts, Sound, KeysOf, EntryHeap.Valid, EntryHeap.Keys, EntryHeap.Indexed;
      IndexesAdded(entryIndex, entries.Members(), nextID - 1, e);
      NamesAdded(nameIndex, entries.Members(), e);
      CountsAdded(maxEntries, if maxEntries > 0 then entryCount - 1 else entryCount, entries.Members(), e);
      if e.name != "" {
        nameIndex := nameIndex[e.name := e];
      }
      MoreLive(deps.entryDeps, deps.parentToChildren, entryIndex.Keys, entryIndex.Keys + {e.id});
      entries.Push(e);
      entryIndex := entryIndex[e.id := e];
      assert entryIndex.Keys == old(entryIndex).Keys + {e.id};
    }

    static lemma NoEmptyName(names: map<string, Entry>, members: set<Entry>)
      requires Names(names, members)
      ensures "" !in names
    {
    }

    static lemma MoreLive(deps: Dependencies, children: Children, live: set<EntryID>, more: set<EntryID>)
      requires Sound(deps, children, live) && live <= more
      ensures Sound(deps, children, more)
    {
      hide Inverse, Acyclic, Tidy, Edge;
    }

    /** tryIncrementEntryCount */
    method TryIncrementEntryCount() returns (ok: bool)
      modifies `entryCount
      ensures ok <==> maxEntries <= 0 || old(entryCount) < maxEntries
      ensures entryCount == if ok && maxEntries > 0 then old(entryCount) + 1 else old(entryCount)
    {
      if maxEntries <= 0 {
        return true;
      }
      if entryCount >= maxEntries {
        return false;
      }
      entryCount := entryCount + 1;
      return true;
    }

    /** removeEntry */
    method RemoveEntry(id: int)
      requires Valid()
      modifies `entryIndex, `nameIndex, `entryCount, entries, entries.Members()`heapIndex, deps
      ensures Valid()
      ensures id !in old(entryIndex)
              ==> entryIndex == old(entryIndex) && nameIndex == old(nameIndex) && entryCount == old(entryCount)
      ensures id !in old(entryIndex) ==> entries.slots == old(entries.slots) && deps.entryDeps == old(deps.entryDeps)
                                         && deps.parentToChildren == old(deps.parentToChildren)
      ensures id in old(entryIndex) ==>
                var e := old(entryIndex)[id];
                && entryIndex == old(entryIndex) - {id}
                && nameIndex == (if e.name != "" then old(nameIndex) - {e.name} else old(nameIndex))
                && entries.Members() == old(entries.Members()) - {e}
                && entryCount == old(entryCount) - 1
      ensures id in old(entryIndex) ==>
                && (forall p :: Successors(deps.parentToChildren, p)
                                == if p == id then [] else Without(Successors(old(deps.parentToChildren), p), id))
                && (forall c :: DepsOf(deps.entryDeps, c)
                                == if c == id then [] else WithoutParent(DepsOf(old(deps.entryDeps), c), id))
    {
      hide Indexes, Names, Counts, Sound, KeysOf, MembersOf, Without, WithoutParent, Successors, DepsOf;
      hide EntryHeap.Valid, EntryHeap.Keys, EntryHeap.Indexed;
      if id !in entryIndex {
        return;
      }
      IndexedMember(entryIndex, entries.Members(), nextID, id);
      IndexesRemoved(entryIndex, entries.Members(), nextID, id);
      var e := entryIndex[id];
      NamesRemoved(nameIndex, entries.Members(), e);
      CountsRemoved(maxEntries, entryCount, entries.Members(), e);
      var _ := entries.RemoveAt(e);
      ghost var live := entryIndex.Keys;
      entryIndex := entryIndex - {id};
      if e.name != "" {
        nameIndex := nameIndex - {e.name};
      }
      entryCount := entryCount - 1;
      deps.RemoveEntryDependencies(id, live);
    }

    static lemma IndexedMember(index: map<int, Entry>, members: set<Entry>, nextID: int, id: int)
      requires Indexes(index, members, nextID) && id in index
      ensures index[id] in members && index[id].id == id
    {
    }

    /** AddDependency on a stopped scheduler */
    method AddDependency(child: int, parent: int, condition: TriggerCondition) returns (err: Option<DependencyError>)
      requires Valid()
      modifies deps
      ensures Valid()
      ensures err == if !condition.Valid() then Some(InvalidCondition)
                     else if child !in entryIndex || parent !in entryIndex then Some(EntryNotFound)
                     else if Reaches(old(deps.parentToChildren), child, parent) then Some(CycleDetected)
                     else None
      ensures err.Some? ==> deps.entryDeps == old(deps.entryDeps) && deps.parentToChildren == old(deps.parentToChildren)
      ensures err.None? ==> deps.entryDeps == AddedDep(old(deps.entryDeps), child, Dependency(parent, condition))
      ensures err.None? ==> deps.parentToChildren == AddedChild(old(deps.parentToChildren), parent, child)
    {
      hide Sound, Reaches, Indexes, Names, Counts, EntryHeap.Valid;
      err := deps.AddDependencyDirect(child, parent, condition, entryIndex.Keys);
    }

    /** RemoveDependency on a stopped scheduler */
    method RemoveDependency(child: int, parent: int)
      requires Valid()
      modifies deps
      ensures Valid()
      ensures deps.entryDeps == RemovedDeps(old(deps.entryDeps), child, parent)
      ensures deps.parentToChildren == RemovedChild(old(deps.parentToChildren), parent, child)
    {
      hide Sound, Reaches, Indexes, Names, Counts, EntryHeap.Valid, RemovedDeps, RemovedChild;
      deps.RemoveDependencyDirect(child, parent, entryIndex.Keys);
    }

    lemma IsMember(id: int)
      requires Valid() && id in entryIndex
      ensures entryIndex[id] in entries.Members() && entryIndex[id].id == id
    {
    }

    /** setPaused */
    method SetPaused(id: int, pause: bool) returns (err: Option<SchedulerError>)
      requires Valid()
      modifies (if id in entryIndex then {entryIndex[id]} else {})`paused
      ensures Valid()
      ensures err == if id in entryIndex then None else Some(UnknownEntry)
      ensures id in entryIndex ==> entryIndex[id].paused == pause
    {
      hide Indexes, Names, Sound, IsHeap, KeysOf;
      if id !in entryIndex {
        return Some(UnknownEntry);
      }
      entryIndex[id].paused := pause;
      return None;
    }

    /** Give e its next run after now, past the fall-back repeats, and restore the order of the heap. */
    method Reschedule(e: Entry, now: int) returns (skipped: seq<int>)
      requires Valid() && e in entries.Members() && MovesOn(e.schedule)
      modifies e`next, entries, entries.Members()`heapIndex
      ensures Valid() && entries.Members() == old(entries.Members())
      ensures SkipsTo(e.schedule, local, e.fallBackRuns, e.prev, e.schedule.next(now), skipped, e.next)
      ensures e.next.Some? ==> e.next.value > now
    {
      hide Scheduler.Consistent, IsHeap, KeysOf, HeapExceptAt, SkipsTo;
      ghost var keys := entries.Keys();
      var next: Option<int>;
      next, skipped := SkipFallBackRepeats(e.schedule, local, e.fallBackRuns, e.prev, e.schedule.next(now));
      e.next := next;
      entries.IndexTells(e);
      ChangedAt(keys, e.heapIndex, KeyOf(e));
      assert entries.Keys() == keys[e.heapIndex := KeyOf(e)];
      entries.Update(e);
    }

    /** scheduleEntryNext: the order of the heap is the caller's business. */
    method ScheduleEntryNext(e: Entry, now: int) returns (skipped: seq<int>)
      requires MovesOn(e.schedule)
      modifies e`next, e`runImmediately, e`immediateDue
      ensures !e.runImmediately && e.immediateDue == old(e.runImmediately)
      ensures old(e.runImmediately) ==> e.next == Some(now)
      ensures !old(e.runImmediately) ==>
                && SkipsTo(e.schedule, local, e.fallBackRuns, e.prev, e.schedule.next(now), skipped, e.next)
                && (e.next.Some? ==> e.next.value > now)
    {
      hide SkipsTo;
      if e.runImmediately {
        e.next := Some(now);
        e.runImmediately := false;
        e.immediateDue := true;
        return [];
      }
      e.immediateDue := false;
      var next: Option<int>;
      next, skipped := SkipFallBackRepeats(e.schedule, local, e.fallBackRuns, e.prev, e.schedule.next(now));
      e.next := next;
    }

    /** scheduleEntryNext, followed by Update */
    method PlaceEntry(e: Entry, now: int)
      requires Valid() && e in entries.Members() && MovesOn(e.schedule)
      modifies e`next, e`runImmediately, e`immediateDue, entries, entries.Members()`heapIndex
      ensures Valid() && entries.Members() == old(entries.Members())
      ensures !e.runImmediately && e.immediateDue == old(e.runImmediately)
      ensures old(e.runImmediately) ==> e.next == Some(now)
      ensures !old(e.runImmediately) ==> IsNextRun(e.schedule, local, e.fallBackRuns, e.prev, now, e.next)
      ensures !old(e.runImmediately) && e.next.Some? ==> e.next.value > now
    {
      hide Scheduler.Consistent, IsHeap, KeysOf, HeapExceptAt, SkipsTo, MovesOn;
      ghost var keys := entries.Keys();
      var skipped := ScheduleEntryNext(e, now);
      entries.IndexTells(e);
      ChangedAt(keys, e.heapIndex, KeyOf(e));
      assert entries.Keys() == keys[e.heapIndex := KeyOf(e)];
      entries.Update(e);
    }

    // ----- the runs of the entries -----

    /** e is at the point of its run that a describes. */
    static predicate Tracks(a: EntryRun, e: Entry)
      reads e`prev, e`fallBackRuns, e`next, e`immediateDue
    {
      a.prev == e.prev && a.runs == e.fallBackRuns && a.next == e.next && a.immediate == e.immediateDue
    }

    /** `history` says where in its run every entry is. */
    ghost predicate Follows(history: History, now: int)
      reads entries, entries.Members()`prev, entries.Members()`fallBackRuns, entries.Members()`next
      reads entries.Members()`immediateDue
    {
      forall e :: e in entries.Members() ==> e in history && Tracks(history[e], e) && history[e].clock <= now
    }

    /** From `history` to `after` every entry's run went on. */
    ghost predicate Continues(history: History, after: History)
      reads entries, entries.Members()`schedule
    {
      forall e :: e in entries.Members() ==>
                    e in history && e in after && LeadsTo(e.schedule, local, history[e], after[e])
    }

    /** One entry at the start of run, or as it is added: catch up on what it missed, then give it its next run. Both
        are steps of the run of the entry, which is at a before and at b after them. */
    method CatchUpAndSchedule(e: Entry, now: int, ghost a: EntryRun) returns (started: seq<int>, ghost b: EntryRun)
      requires MovesOn(e.schedule)
      requires Tracks(a, e) && a.clock <= now && (e.runImmediately ==> Later(a, now))
      modifies `log, e`next, e`prev, e`fallBackRuns, e`runImmediately, e`immediateDue
      ensures log == old(log) + CatchUpRuns(e.id, started)
      ensures CaughtUpOn(e.schedule, local, e, old(e.prev), old(e.fallBackRuns), now, started)
      ensures old(e.runImmediately) ==> e.next == Some(now)
      ensures !old(e.runImmediately) && e.next.Some? ==> e.next.value > now
      ensures !e.runImmediately && e.immediateDue == old(e.runImmediately)
      ensures Tracks(b, e) && b.clock <= now && LeadsTo(e.schedule, local, a, b)
    {
      hide MovesOn, SkipsTo, CatchUpSteps, Missed, Occurrences, LeadsTo, Later;
      ghost var c;
      started, c := ProcessMissedRuns(e, local, now, a);
      LeadsToItself(e.schedule, local, a);
      CatchUpLeads(e.schedule, local, a, a, now, started, c);
      log := log + CatchUpRuns(e.id, started);
      ghost var immediate := e.runImmediately;
      var skipped := ScheduleEntryNext(e, now);
      b := LeadsToScheduled(e.schedule, local, a, c, now, immediate, skipped, e.next);
    }

    /** e ran at `started` to catch up, as its policy says. */
    ghost predicate CaughtUpOn(s: Schedule, zone: Zone, e: Entry, prev: Option<int>, runs: seq<int>, now: int,
                               started: seq<int>)
    {
      MovesOn(s) &&
      if prev.None? || e.runOnce || !(e.missedPolicy.RunOnce? || e.missedPolicy.RunAll?) then started == []
      else
        var missed := Missed(s, zone, e.grace, now, e.missedPolicy.RunAll?, runs, prev, Occurrences(s, prev.value, now),
                             MAX_MISSED_RUNS);
        started == if e.missedPolicy.RunAll? || missed == [] then missed else [missed[|missed| - 1]]
    }

    static function CatchUpRuns(id: int, started: seq<int>): seq<Run> {
      seq(|started|, i requires 0 <= i < |started| => Run(id, started[i], false))
    }

    /** What an entry starts to catch up is logged under its scheduled time, and none of it is an immediate run. */
    static lemma CatchUpRunsAre(id: int, started: seq<int>, i: nat)
      requires i < |started|
      ensures |CatchUpRuns(id, started)| == |started|
      ensures var run := CatchUpRuns(id, started)[i]; run.id == id && run.scheduled == started[i] && !run.immediate
    {
    }

    /** The runs that catching up adds to the log, entry by entry. */
    static function CatchUps(es: seq<Entry>, caughtUp: map<Entry, seq<int>>): seq<Run>
      requires forall e :: e in es ==> e in caughtUp
    {
      if es == [] then []
      else
        var e := es[|es| - 1];
        CatchUps(es[..|es| - 1], caughtUp) + CatchUpRuns(e.id, caughtUp[e])
    }

    static lemma {:induction false} CatchUpsSame(es: seq<Entry>, some: map<Entry, seq<int>>, more: map<Entry, seq<int>>)
      requires forall e :: e in es ==> e in some && e in more && some[e] == more[e]
      ensures CatchUps(es, some) == CatchUps(es, more)
      decreases |es|
    {
      if es != [] {
        CatchUpsSame(es[..|es| - 1], some, more);
      }
    }

    static lemma CatchUpsNext(es: seq<Entry>, i: nat, caughtUp: map<Entry, seq<int>>, started: seq<int>)
      requires i < |es| && Distinct(es) && forall e :: e in es[..i] ==> e in caughtUp
      ensures var more := caughtUp[es[i] := started];
              (forall e :: e in es[..i + 1] ==> e in more)
              && CatchUps(es[..i + 1], more) == CatchUps(es[..i], caughtUp) + CatchUpRuns(es[i].id, started)
    {
      var more := caughtUp[es[i] := started];
      assert es[..i + 1][..i] == es[..i];
      CatchUpsSame(es[..i], caughtUp, more);
    }

    static lemma NoCatchUps(caughtUp: map<Entry, seq<int>>)
      ensures CatchUps([], caughtUp) == []
    {
    }

    static function BeforeStart(e: Entry): Waiting
      reads e
    {
      Waiting(e.schedule, e.paused, e.heapIndex, e.runImmediately, e.prev, e.fallBackRuns)
    }

    /** e has caught up and has its next run; its run went on from a to b. */
    ghost predicate CaughtUpAndScheduled(was: Waiting, e: Entry, now: int, a: EntryRun, b: EntryRun, started: seq<int>)
      reads e
    {
      && e.schedule == was.schedule && e.paused == was.paused && e.heapIndex == was.heapIndex
      && (was.runImmediately ==> e.next == Some(now))
      && (!was.runImmediately && e.next.Some? ==> e.next.value > now)
      && Tracks(b, e) && b.clock <= now && LeadsTo(e.schedule, local, a, b)
      && CaughtUpOn(e.schedule, local, e, was.prev, was.runs, now, started)
    }

    /** One turn of the loop at the start of run. */
    method CatchUpNext(e: Entry, now: int, ghost a: EntryRun) returns (started: seq<int>, ghost b: EntryRun)
      requires MovesOn(e.schedule)
      requires Tracks(a, e) && a.clock <= now && (e.runImmediately ==> Later(a, now))
      modifies `log, e
      ensures log == old(log) + CatchUpRuns(e.id, started)
      ensures CaughtUpAndScheduled(old(BeforeStart(e)), e, now, a, b, started)
    {
      hide MovesOn, LeadsTo, Later, CaughtUpOn, CatchUpRuns;
      started, b := CatchUpAndSchedule(e, now, a);
    }

    /** The loop at the start of run. */
    method CatchUpAll(es: seq<Entry>, now: int, ghost history: History)
        returns (ghost after: History, ghost caughtUp: map<Entry, seq<int>>)
      requires Distinct(es) && forall e :: e in es ==> MovesOn(e.schedule)
      requires forall e :: e in es ==> e in history && Tracks(history[e], e) && history[e].clock <= now
      requires forall e :: e in es && e.runImmediately ==> Later(history[e], now)
      modifies `log, set e | e in es
      ensures forall e :: e in es ==>
                e in after && e in caughtUp
                    && CaughtUpAndScheduled(old(BeforeStart(e)), e, now, history[e], after[e], caughtUp[e])
      ensures log == old(log) + CatchUps(es, caughtUp)
    {
      hide MovesOn, Later, CatchUps, CatchUpRuns, CaughtUpAndScheduled, Tracks, BeforeStart;
      after, caughtUp := map[], map[];
      NoCatchUps(caughtUp);
      assert es[..0] == [];
      for i := 0 to |es|
        invariant forall k :: i <= k < |es| ==> unchanged(es[k])
        invariant forall k :: 0 <= k < i ==>
                    es[k] in after && es[k] in caughtUp
                    && CaughtUpAndScheduled(old(BeforeStart(es[k])), es[k], now, history[es[k]], after[es[k]],
                                            caughtUp[es[k]])
        invariant (forall e :: e in es[..i] ==> e in caughtUp) && log == old(log) + CatchUps(es[..i], caughtUp)
      {
        var started;
        ghost var b;
        started, b := CatchUpNext(es[i], now, history[es[i]]);
        CatchUpsNext(es, i, caughtUp, started);
        after, caughtUp := after[es[i] := b], caughtUp[es[i] := started];
      }
      assert es[..|es|] == es;
    }

    /** The start of run: every entry catches up and gets its next run, then the heap is built. */
    method StartRunning(now: int, ghost history: History)
        returns (ghost after: History, ghost caughtUp: map<Entry, seq<int>>)
      requires Valid() && forall e :: e in entries.Members() ==> MovesOn(e.schedule)
      requires Follows(history, now) && forall e :: e in entries.Members() && e.runImmediately
                                                    ==> Later(history[e], now)
      modifies `running, `log, entries, entries.Members()
      ensures Valid() && running && entries.Members() == old(entries.Members())
      ensures forall e :: e in entries.Members() ==>
                e.schedule == old(e.schedule) && e.paused == old(e.paused)
                && (old(e.runImmediately) ==> e.next == Some(now))
                && (!old(e.runImmediately) && e.next.Some? ==> e.next.value > now)
      ensures forall e :: e in entries.Members() ==>
                e in caughtUp && CaughtUpOn(e.schedule, local, e, old(e.prev), old(e.fallBackRuns), now, caughtUp[e])
      ensures (forall e :: e in old(entries.slots) ==> e in caughtUp)
              && log == old(log) + CatchUps(old(entries.slots), caughtUp)
      ensures Follows(after, now) && Continues(history, after)
    {
      hide Scheduler.Consistent, EntryHeap.Keys, IsHeap, MovesOn, LeadsTo, Later, CaughtUpOn, CatchUps;
      running := true;
      DistinctSlots();
      after, caughtUp := CatchUpAll(entries.slots, now, history);
      entries.Init();
    }

    /** The add case of the run loop. The run of the new entry begins, unless its last run lies in the future, and goes
        on with what it catches up on. */
    method AddWhileRunning(schedule: Schedule, settings: Settings, now: int)
        returns (id: int, err: Option<SchedulerError>, started: seq<int>, ghost b: EntryRun)
      requires Valid() && MovesOn(schedule)
      modifies `entryIndex, `nameIndex, `entryCount, `nextID, `log, entries, entries.Members()`heapIndex
      ensures Valid()
      ensures err == if maxEntries > 0 && old(entryCount) >= maxEntries then Some(MaxEntriesReached)
                     else if settings.name != "" && settings.name in old(nameIndex) then Some(DuplicateName)
                     else None
      ensures err.Some? ==> entryIndex == old(entryIndex) && log == old(log) && entries.slots == old(entries.slots)
      ensures err.None? ==>
                && id !in old(entryIndex) && id in entryIndex && entryIndex == old(entryIndex)[id := entryIndex[id]]
                && entries.Members() == old(entries.Members()) + {entryIndex[id]}
                && (settings.runImmediately ==> entryIndex[id].next == Some(now))
                && (!settings.runImmediately && entryIndex[id].next.Some? ==> entryIndex[id].next.value > now)
      ensures err.None? ==>
                var e := entryIndex[id];
                && CaughtUpOn(schedule, local, e, settings.prev, [], now, started)
                && log == old(log) + CatchUpRuns(id, started)
                && Tracks(b, e) && b.clock <= now
                && ((settings.prev.Some? ==> settings.prev.value < now) ==> Lives(schedule, local, b))
    {
      hide Scheduler.Valid, MovesOn, CaughtUpOn, CatchUpRuns, LeadsTo, Lives, Later, NewRun;
      ghost var a := NewRun(settings.prev, now);
      started, b := [], a;
      id, err := ScheduleJob(schedule, settings);
      if err.Some? {
        return;
      }
      IsMember(id);
      NewRunIs(schedule, local, settings.prev, now);
      started, b := CatchUpAndPlace(entryIndex[id], now, a);
      if settings.prev.Some? ==> settings.prev.value < now {
        LivesOn(schedule, local, a, b);
      }
    }

    /** The run of an entry as it is added; a last run in the future is no part of it. */
    static function NewRun(prev: Option<int>, now: int): EntryRun {
      EntryRun(prev, [], None, false, now, if prev.Some? && prev.value < now then prev else None, [], {}, {}, {})
    }

    static lemma NewRunIs(s: Schedule, local: Zone, prev: Option<int>, now: int)
      ensures var a := NewRun(prev, now);
              && a.prev == prev && a.runs == [] && a.next == None && !a.immediate && a.clock == now && Later(a, now)
              && ((prev.Some? ==> prev.value < now) ==> Lives(s, local, a))
    {
      hide Lives;
      if prev.Some? ==> prev.value < now {
        AddedLives(s, local, NewRun(prev, now));
      }
    }

    /** Catching up and scheduling an entry of a built heap. */
    method CatchUpAndPlace(e: Entry, now: int, ghost a: EntryRun) returns (started: seq<int>, ghost b: EntryRun)
      requires Valid() && e in entries.Members() && MovesOn(e.schedule)
      requires Tracks(a, e) && a.clock <= now && (e.runImmediately ==> Later(a, now))
      modifies `log, e`next, e`prev, e`fallBackRuns, e`runImmediately, e`immediateDue, entries,
               entries.Members()`heapIndex
      ensures Valid() && entries.Members() == old(entries.Members())
      ensures log == old(log) + CatchUpRuns(e.id, started)
      ensures CaughtUpOn(e.schedule, local, e, old(e.prev), old(e.fallBackRuns), now, started)
      ensures old(e.runImmediately) ==> e.next == Some(now)
      ensures !old(e.runImmediately) && e.next.Some? ==> e.next.value > now
      ensures Tracks(b, e) && b.clock <= now && LeadsTo(e.schedule, local, a, b)
    {
      hide Scheduler.Consistent, KeysOf, IsHeap, HeapExceptAt, MovesOn, CaughtUpOn, CatchUpRuns, LeadsTo, Later;
      ghost var keys := entries.Keys();
      started, b := CatchUpAndSchedule(e, now, a);
      entries.IndexTells(e);
      ChangedAt(keys, e.heapIndex, KeyOf(e));
      assert entries.Keys() == keys[e.heapIndex := KeyOf(e)];
      entries.Update(e);
    }

    /** handleTimeBackwards: entries that ran in what is now the future get a new next run. */
    method HandleTimeBackwards(now: int)
      requires Valid() && forall e :: e in entries.Members() ==> MovesOn(e.schedule)
      modifies entries, entries.Members()`heapIndex, entries.Members()`next, entries.Members()`immediateDue
      ensures Valid() && entries.Members() == old(entries.Members())
      ensures forall e :: e in entries.Members() ==>
                if e.prev.Some? && e.prev.value > now then
                  && IsNextRun(e.schedule, local, e.fallBackRuns, e.prev, now, e.next) && !e.immediateDue
                  && (e.next.Some? ==> e.next.value > now)
                else e.next == old(e.next) && e.immediateDue == old(e.immediateDue)
    {
      hide Scheduler.Valid, MovesOn, SkipsTo, KeysOf, IsNextRun;
      var copy := entries.slots;
      DistinctSlots();
      for i := 0 to |copy|
        invariant Valid() && entries.Members() == old(entries.Members())
        invariant forall k :: i <= k < |copy|
                              ==> copy[k].next == old(copy[k].next) && copy[k].immediateDue == old(copy[k].immediateDue)
        invariant forall k :: 0 <= k < i ==>
                    if copy[k].prev.Some? && copy[k].prev.value > now then
                      && IsNextRun(copy[k].schedule, local, copy[k].fallBackRuns, copy[k].prev, now, copy[k].next)
                      && !copy[k].immediateDue && (copy[k].next.Some? ==> copy[k].next.value > now)
                    else copy[k].next == old(copy[k].next) && copy[k].immediateDue == old(copy[k].immediateDue)
      {
        var e := copy[i];
        assert e in entries.Members();
        if e.prev.None? || e.prev.value <= now {
          continue;
        }
        e.immediateDue := false;
        var skipped := Reschedule(e, now);
        SkippedToNextRun(e.schedule, local, e.fallBackRuns, e.prev, now, skipped, e.next);
      }
    }

    static lemma SkippedToNextRun(s: Schedule, local: Zone, fired: seq<int>, prev: Option<int>, now: int,
                                  skipped: seq<int>, next: Option<int>)
      requires SkipsTo(s, local, fired, prev, s.next(now), skipped, next)
      ensures IsNextRun(s, local, fired, prev, now, next)
    {
      hide SkipsTo;
    }

    lemma DistinctSlots()
      requires Valid()
      ensures Distinct(entries.slots)
    {
    }

    /** triggerEntry: the run of the entry goes on with a run outside its schedule. */
    method TriggerEntry(id: int, now: int, ghost history: History)
        returns (err: Option<SchedulerError>, ghost after: History)
      requires Valid() && Follows(history, now)
      modifies `entryIndex, `nameIndex, `entryCount, `log, entries, entries.Members()`heapIndex, deps
      modifies (if id in entryIndex then {entryIndex[id]} else {})`prev
      ensures Valid()
      ensures err == if id !in old(entryIndex) then Some(UnknownEntry)
                     else if old(entryIndex)[id].paused then Some(EntryPaused)
                     else None
      ensures err.Some? ==> entryIndex == old(entryIndex) && log == old(log) && entries.slots == old(entries.slots)
      ensures err.None? ==>
                var e := old(entryIndex)[id];
                && e.prev == Some(now) && log == old(log) + [Run(id, now, false)]
                && entries.Members() == if e.runOnce then old(entries.Members()) - {e} else old(entries.Members())
      ensures Follows(after, now) && Continues(history, after)
    {
      hide Indexes, Names, Counts, Sound, KeysOf, EntryHeap.Valid, EntryHeap.Keys, EntryHeap.Indexed;
      hide Without, WithoutParent, Successors, DepsOf, LeadsTo;
      after := history;
      AllContinue(history, now);
      if id !in entryIndex {
        return Some(UnknownEntry), after;
      }
      var e := entryIndex[id];
      if e.paused {
        return Some(EntryPaused), after;
      }
      IsMember(id);
      ghost var b := LeadsToTriggered(e.schedule, local, history[e], now);
      after := history[e := b];
      log := log + [Run(id, now, false)];
      e.prev := Some(now);
      if e.runOnce {
        RemoveEntry(id);
      }
      return None, after;
    }

    lemma AllContinue(history: History, now: int)
      requires Follows(history, now)
      ensures Continues(history, history)
    {
      hide LeadsTo;
      forall e | e in entries.Members()
        ensures LeadsTo(e.schedule, local, history[e], history[e])
      {
        LeadsToItself(e.schedule, local, history[e]);
      }
    }

    /** updateSchedule; the job itself is not part of the model */
    method UpdateSchedule(id: int, schedule: Schedule, now: int) returns (err: Option<SchedulerError>)
      requires Valid() && MovesOn(schedule)
      modifies if id in entryIndex then {entryIndex[id]} else {}, entries, entries.Members()`heapIndex
      ensures Valid() && entries.Members() == old(entries.Members())
      ensures err == if id in entryIndex then None else Some(UnknownEntry)
      ensures id in entryIndex ==> var e := entryIndex[id];
                                   && e.schedule == schedule && e.prev == old(e.prev) && e.paused == old(e.paused)
                                   && (!running ==> e.next == old(e.next))
                                   && (running && old(e.runImmediately) ==> e.next == Some(now))
                                   && (running && !old(e.runImmediately) ==>
                                         && IsNextRun(schedule, local, e.fallBackRuns, e.prev, now, e.next)
                                         && (e.next.Some? ==> e.next.value > now))
    {
      hide Indexes, Names, Sound, IsHeap, KeysOf, SkipsTo, MovesOn, IsNextRun;
      if id !in entryIndex {
        return Some(UnknownEntry);
      }
      IndexedMember(entryIndex, entries.Members(), nextID, id);
      var e := entryIndex[id];
      e.schedule := schedule;
      if running {
        PlaceEntry(e, now);
      }
      return None;
    }

    // ----- dispatch -----

    /** One turn of processDueEntries: skip e if it is paused, else start its job; then give it its next run or, if it
        runs once, remove it. Seen as part of the run a of e, this is a step of that run. */
    method ProcessEntry(e: Entry, now: int, ghost a: EntryRun)
        returns (ran: bool, ghost event: Event, ghost b: EntryRun)
      requires Valid() && e in entries.Members() && MovesOn(e.schedule)
      requires e.next.Some? && e.next.value <= now
      requires Tracks(a, e) && a.clock <= now
      modifies `entryIndex, `nameIndex, `entryCount, `log, entries, entries.Members()`heapIndex, deps
      modifies e`next, e`prev, e`immediateDue, e`fallBackRuns
      ensures Valid()
      ensures ran == !e.paused
      ensures log == old(log) + if ran then [Run(e.id, old(e.next).value, old(e.immediateDue))] else []
      ensures entries.Members() == if ran && e.runOnce then old(entries.Members()) - {e} else old(entries.Members())
      ensures e.prev == if ran then old(e.next) else old(e.prev)
      ensures !ran ==> e.fallBackRuns == old(e.fallBackRuns)
      ensures !(ran && e.runOnce) ==> e.next.Some? ==> e.next.value > now
      ensures !(ran && e.runOnce) ==> Tracks(b, e) && (if ran then event.Dispatch? else event.SkipPaused?)
      ensures !(ran && e.runOnce) ==> event.now == now && Step(e.schedule, local, a, event, b)
    {
      hide Indexes, Names, Counts, Sound, KeysOf, EntryHeap.Valid, EntryHeap.Keys, EntryHeap.Indexed;
      hide SkipsTo, Without, WithoutParent, AddFallBackRun, Successors, DepsOf, MovesOn, IsFallBackRepeat;
      hide Step;
      event, b := SkipPaused(now, []), a;
      var skipped: seq<int>;
      if e.paused {
        e.immediateDue := false;
        skipped := Reschedule(e, now);
        event := SkipPaused(now, skipped);
        b := SkipIsStep(e.schedule, local, a, now, skipped, e.next);
        return false, event, b;
      }
      ran := true;
      log := log + [Run(e.id, e.next.value, e.immediateDue)];
      e.immediateDue := false;
      e.prev := e.next;
      if e.runOnce {
        MemberIndexed(entryIndex, entries.Members(), nextID, e);
        RemoveEntry(e.id);
        return;
      }
      e.fallBackRuns := AddFallBackRun(e.schedule, local, e.fallBackRuns, e.prev.value);
      skipped := Reschedule(e, now);
      event := Dispatch(now, skipped);
      b := DispatchIsStep(e.schedule, local, a, now, skipped, e.next);
    }

    static lemma SkipIsStep(s: Schedule, local: Zone, a: EntryRun, now: int, skipping: seq<int>, next: Option<int>)
        returns (b: EntryRun)
      requires a.next.Some? && a.next.value <= now && a.clock <= now
      requires SkipsTo(s, local, a.runs, a.prev, s.next(now), skipping, next)
      ensures Step(s, local, a, SkipPaused(now, skipping), b)
      ensures b.prev == a.prev && b.runs == a.runs && b.next == next && !b.immediate
    {
      hide SkipsTo;
      b := a.(next := next, immediate := false, clock := now, skipped := a.skipped + set x | x in skipping);
    }

    static lemma DispatchIsStep(s: Schedule, local: Zone, a: EntryRun, now: int, skipping: seq<int>, next: Option<int>)
        returns (b: EntryRun)
      requires a.next.Some? && a.next.value <= now && a.clock <= now
      requires SkipsTo(s, local, AddFallBackRun(s, local, a.runs, a.next.value), a.next, s.next(now), skipping, next)
      ensures Step(s, local, a, Dispatch(now, skipping), b)
      ensures b.prev == a.next && b.runs == AddFallBackRun(s, local, a.runs, a.next.value) && b.next == next
              && !b.immediate
    {
      hide SkipsTo, AddFallBackRun;
      b := Ran(s, local, a, a.next.value).(next := next, clock := now, skipped := a.skipped + set x | x in skipping);
    }

    static lemma MemberIndexed(index: map<int, Entry>, members: set<Entry>, nextID: int, e: Entry)
      requires Indexes(index, members, nextID) && e in members
      ensures e.id in index && index[e.id] == e
    {
    }

    function Snap(): (snap: Snapshot)
      reads entries, entries.Members()`next, entries.Members()`prev, entries.Members()`fallBackRuns
      reads entries.Members()`immediateDue, entries.Members()`paused
      ensures snap.Keys == entries.Members()
    {
      map e | e in entries.Members() :: Moment(e.next, e.prev, e.fallBackRuns, e.immediateDue, e.paused)
    }

    /** One turn, as it shows in a snapshot. The run of e goes on from a to b. */
    method Turn(e: Entry, now: int, ghost a: EntryRun) returns (started: bool, ghost b: EntryRun)
      requires Valid() && e in entries.Members() && MovesOn(e.schedule)
      requires e.next.Some? && e.next.value <= now
      requires Tracks(a, e) && a.clock <= now
      modifies `entryIndex, `nameIndex, `entryCount, `log, entries, entries.Members()`heapIndex, deps
      modifies e`next, e`prev, e`immediateDue, e`fallBackRuns
      ensures Valid() && entries.Members() <= old(entries.Members())
      ensures started == !e.paused
      ensures log == old(log) + if started then [Run(e.id, old(e.next).value, old(e.immediateDue))] else []
      ensures Processed(old(Snap()), e, now, Snap())
      ensures e in Snap() ==> Is(Snap()[e], b) && b.clock <= now && LeadsTo(e.schedule, local, a, b)
    {
      hide Scheduler.Valid, MovesOn, Step, LeadsTo;
      ghost var event;
      started, event, b := ProcessEntry(e, now, a);
      if !(started && e.runOnce) {
        TurnLeads(e.schedule, local, a, event, b);
      }
    }

    static lemma TurnLeads(s: Schedule, local: Zone, a: EntryRun, event: Event, b: EntryRun)
      requires Step(s, local, a, event, b)
      ensures LeadsTo(s, local, a, b) && (event.Dispatch? || event.SkipPaused? ==> b.clock == event.now)
    {
      LeadsToItself(s, local, a);
      LeadsToNext(s, local, a, a, event, b);
    }

    /** processDueEntries; ran are the entries whose jobs it starts, in order. */
    method ProcessDueEntries(now: int, ghost history: History) returns (ghost ran: seq<Entry>, ghost after: History)
      requires Valid() && forall e :: e in entries.Members() ==> MovesOn(e.schedule)
      requires Follows(history, now)
      modifies `entryIndex, `nameIndex, `entryCount, `log, entries, entries.Members()`heapIndex, deps
      modifies entries.Members()`next, entries.Members()`prev, entries.Members()`immediateDue,
               entries.Members()`fallBackRuns
      ensures Valid()
      ensures DispatchOrder(old(Snap()), now, ran)
      ensures Handled(old(Snap()), now, ran, Snap())
      ensures log == old(log) + RunsOf(old(Snap()), ran)
      ensures Follows(after, now) && Continues(history, after)
    {
      hide Scheduler.Valid, Less, MovesOn, DispatchOrder, Handled, InTurn, PartlyHandled, Processed;
      hide Scheduler.Snap, RunsOf, KeyOf, KeyIn, EntryHeap.Peek, LeadsTo, WentOn, Scheduler.ScheduledBy;
      hide Scheduler.Follows, Scheduler.Continues;
      ran, after := [], history;
      ghost var was, done: set<Entry> := Snap(), {};
      ghost var schedules := map e | e in entries.Members() :: e.schedule;
      TurnsBegin(was, now);
      NoRuns(was);
      NothingHappened(schedules, history, now);
      while true
        invariant Valid() && entries.Members() <= was.Keys
        invariant InTurn(was, now, done, ran) && PartlyHandled(was, now, done, ran, Snap())
        invariant forall e :: e in ran ==> e in was && was[e].next.Some?
        invariant log == old(log) + RunsOf(was, ran)
        invariant ScheduledBy(was.Keys, schedules) && WentOn(Snap(), schedules, local, now, history, after)
        decreases was.Keys - done
      {
        AtTurn(was, now, done, ran);
        var e := entries.Peek();
        if e == null || e.next.None? || e.next.value > now {
          break;
        }
        ran, after := TakeTurn(e, now, was, done, ran, schedules, history, after);
        done := done + {e};
      }
      AllWentOn(was.Keys, schedules, now, history, after);
    }

    /** A turn of e, and what it means for the dispatch so far. */
    method TakeTurn(e: Entry, now: int, ghost was: Snapshot, ghost done: set<Entry>, ghost ran: seq<Entry>,
                    ghost schedules: map<Entry, Schedule>, ghost history: History, ghost after: History)
        returns (ghost ranNow: seq<Entry>, ghost afterwards: History)
      requires Valid() && e in entries.Members() && MovesOn(e.schedule) && e.next.Some? && e.next.value <= now
      requires e in was && e !in ran && was[e] == Snap()[e]
      requires was[e] == Moment(e.next, e.prev, e.fallBackRuns, e.immediateDue, e.paused)
      requires InTurn(was, now, done + {e}, if was[e].paused then ran else ran + [e])
      requires PartlyHandled(was, now, done, ran, Snap())
      requires forall f :: f in ran ==> f in was && was[f].next.Some?
      requires ScheduledBy(was.Keys, schedules) && WentOn(Snap(), schedules, local, now, history, after)
      modifies `entryIndex, `nameIndex, `entryCount, `log, entries, entries.Members()`heapIndex, deps
      modifies e`next, e`prev, e`immediateDue, e`fallBackRuns
      ensures Valid() && entries.Members() <= old(entries.Members())
      ensures InTurn(was, now, done + {e}, ranNow) && PartlyHandled(was, now, done + {e}, ranNow, Snap())
      ensures forall f :: f in ranNow ==> f in was && was[f].next.Some?
      ensures forall runs :: old(log) == runs + RunsOf(was, ran) ==> log == runs + RunsOf(was, ranNow)
      ensures WentOn(Snap(), schedules, local, now, history, afterwards)
    {
      hide Scheduler.Valid, Less, MovesOn, InTurn, PartlyHandled, Processed, Scheduler.Snap, RunsOf, KeyOf, KeyIn;
      hide LeadsTo, WentOn, Scheduler.ScheduledBy;
      ghost var snap := Snap();
      WentTo(snap, schedules, local, now, history, after, e);
      ItsSchedule(was.Keys, schedules, e);
      var started;
      ghost var b;
      started, b := Turn(e, now, after[e]);
      WentFurther(snap, schedules, local, now, history, after, e, Snap(), b);
      PartlyHandledMore(was, now, done, ran, snap, e, Snap());
      ranNow, afterwards := ran, after[e := b];
      if started {
        OneMoreRun(was, ran, e);
        ranNow := ran + [e];
      }
    }

    /** schedules are those of the entries. */
    static ghost predicate ScheduledBy(es: set<Entry>, schedules: map<Entry, Schedule>)
      reads es`schedule
    {
      forall e :: e in es ==> e in schedules && schedules[e] == e.schedule
    }

    static lemma ItsSchedule(es: set<Entry>, schedules: map<Entry, Schedule>, e: Entry)
      requires ScheduledBy(es, schedules) && e in es
      ensures e in schedules && schedules[e] == e.schedule
    {
    }

    lemma NothingHappened(schedules: map<Entry, Schedule>, history: History, now: int)
      requires Follows(history, now) && schedules == map e | e in entries.Members() :: e.schedule
      ensures ScheduledBy(Snap().Keys, schedules) && WentOn(Snap(), schedules, local, now, history, history)
    {
      hide LeadsTo;
      AllContinue(history, now);
    }

    lemma AllWentOn(es: set<Entry>, schedules: map<Entry, Schedule>, now: int, history: History, after: History)
      requires ScheduledBy(es, schedules) && entries.Members() <= es
               && WentOn(Snap(), schedules, local, now, history, after)
      ensures Follows(after, now) && Continues(history, after)
    {
      hide LeadsTo;
      forall e | e in entries.Members()
        ensures e in history && e in after && Tracks(after[e], e) && after[e].clock <= now
        ensures LeadsTo(e.schedule, local, history[e], after[e])
      {
        assert e in Snap();
      }
    }

    /** Between two turns: either the dispatch is over, or the first entry of the heap is the one to have its turn. */
    lemma AtTurn(was: Snapshot, now: int, done: set<Entry>, ran: seq<Entry>)
      requires Valid() && InTurn(was, now, done, ran) && PartlyHandled(was, now, done, ran, Snap())
      ensures var e := entries.Peek();
              if e == null || e.next.None? || e.next.value > now then
                DispatchOrder(was, now, ran) && Handled(was, now, ran, Snap())
              else
                && e in entries.Members() && e in was && e !in done && e !in ran
                && was[e] == Snap()[e] == Moment(e.next, e.prev, e.fallBackRuns, e.immediateDue, e.paused)
                && InTurn(was, now, done + {e}, if was[e].paused then ran else ran + [e])
    {
      hide Scheduler.Valid, Less, DispatchOrder, Handled, InTurn, PartlyHandled, EntryHeap.Peek;
      HeapIsValid();
      entries.PeekIsFirst();
      var e := entries.Peek();
      if e == null || e.next.None? || e.next.value > now {
        NoneDue(e, now);
        TurnsEnd(was, now, done, ran, Snap());
      } else {
        KeysInSnap(e, now);
        StillFirst(was, now, done, ran, Snap(), e);
        InTurnMore(was, now, done, ran, e);
      }
    }

    lemma KeysInSnap(e: Entry, now: int)
      requires e in entries.Members() && e.next.Some? && e.next.value <= now
      requires forall f :: f in entries.Members() ==> !Less(KeyOf(f), KeyOf(e))
      ensures var snap := Snap();
              && snap[e] == Moment(e.next, e.prev, e.fallBackRuns, e.immediateDue, e.paused)
              && forall f :: f in snap ==> !Less(KeyIn(snap, f), KeyIn(snap, e))
    {
      hide Less;
      forall f | f in Snap()
        ensures !Less(KeyIn(Snap(), f), KeyIn(Snap(), e))
      {
        assert !Less(KeyOf(f), KeyOf(e));
      }
    }

    static lemma NoRuns(was: Snapshot)
      ensures RunsOf(was, []) == []
    {
    }

    static lemma OneMoreRun(was: Snapshot, ran: seq<Entry>, e: Entry)
      requires forall f :: f in ran + [e] ==> f in was && was[f].next.Some?
      ensures RunsOf(was, ran + [e]) == RunsOf(was, ran) + [Run(e.id, was[e].next.value, was[e].immediate)]
    {
      assert (ran + [e])[..|ran|] == ran;
    }

    lemma HeapIsValid()
      requires Valid()
      ensures entries.Valid()
    {
    }

    /** If the entry that fires first is not due, none is. */
    lemma NoneDue(first: Entry?, now: int)
      requires first == null ==> entries.slots == []
      requires first != null ==> first.next.None? || first.next.value > now
      requires first != null ==> forall e :: e in entries.Members() ==> !Less(KeyOf(e), KeyOf(first))
      ensures forall e :: e in Snap() ==> !Snap()[e].Due(now)
    {
      forall e | e in entries.Members()
        ensures !Snap()[e].Due(now)
      {
        assert !Less(KeyOf(e), KeyOf(first));
      }
    }
  }
}
