/** Draining and removing an entry while it runs: callers, the run loop and job goroutines as interleaved steps.

    Each case of the run loop's select is one step. Channels that jobTracker makes are numbered in the order in which
    they are made. */
module DrainProtocol {
  import opened Options

  // ----- the tracker of in-flight invocations -----

  /** n invocations are in flight; done is the channel their end will close; `made` channels have been made so far. */
  datatype TrackerState = TrackerState(n: int, done: Option<nat>, made: nat) {
    /** Receiving from the channel does not block. */
    predicate Closed(channel: nat) { channel < made && done != Some(channel) }

    function Started(): TrackerState {
      if n == 0 then TrackerState(1, Some(made), made + 1) else this.(n := n + 1)
    }

    function Finished(): TrackerState {
      TrackerState(n - 1, if n == 1 then None else done, made)
    }

    /** There is a channel, the last one made, exactly while something is in flight. */
    predicate Sound() {
      n >= 0 && (done.None? <==> n == 0) && (done.Some? ==> done.value + 1 == made)
    }
  }

  class JobTracker {
    var n: int
    var done: Option<nat>
    var made: nat

    constructor ()
      ensures State() == TrackerState(0, None, 0)
    {
      n, done, made := 0, None, 0;
    }

    function State(): TrackerState
      reads this
    {
      TrackerState(n, done, made)
    }

    method Start()
      requires State().Sound()
      modifies this
      ensures State() == old(State()).Started() && State().Sound()
    {
      if n == 0 {
        done := Some(made);
        made := made + 1;
      }
      n := n + 1;
    }

    method Finish()
      requires State().Sound() && n > 0
      modifies this
      ensures State() == old(State()).Finished() && State().Sound()
    {
      n := n - 1;
      if n == 0 {
        done := None;
      }
    }
  }

  // ----- the world of one entry -----

  datatype Job = OldJob | NewJob

  /** Where a caller of DrainAndUpsertJob is. */
  datatype DrainPhase =
    | NotDraining
    | Found(wasPaused: bool)
    | PauseHandled(wasPaused: bool, present: bool)
    | PauseReplied(wasPaused: bool)
    | Looked(wasPaused: bool, present: bool)
    | Waiting(wasPaused: bool, channel: Option<nat>)
    | Drained(wasPaused: bool)
    | UpdateHandled(wasPaused: bool, present: bool)
    | Swapped(wasPaused: bool)
    | Returned(wasPaused: bool)
    | Creating

  /** Where a caller of RemoveAndWait is. */
  datatype RemovalPhase =
    | NotRemoving
    | RemoveHandled(present: bool)
    | HasTracker
    | AwaitingEnd(channel: nat)
    | ReturnedNil
    | ReturnedCancelled
    | ReturnedNotFound

  /** inFlight are the invocations that started and have not returned, with the job they run. */
  datatype World = World(present: bool, paused: bool, job: Job, tracker: TrackerState,
                         inFlight: map<nat, Job>, launched: nat, drain: DrainPhase, removal: RemovalPhase)

  datatype Event =
    // the run loop starts an invocation: a due time, a trigger or a workflow
    | Launch
    // a job goroutine ends
    | Finish(invocation: nat)
    // steps of DrainAndUpsertJob, alternating with those of the run loop that serve it
    | FindEntry | HandlePause | ReadPauseReply | LookAgain | ReadDone | WakeUp | HandleUpdate | ReadUpdateReply
    | HandleResume
    // steps of RemoveAndWait
    | HandleRemove | ReadRemoveReply | ReadTracker | WakeUpRemoved | GiveUp
    // other callers
    | OtherPause(pause: bool) | OtherUpdate(job: Job) | OtherRemove

  predicate Step(w: World, e: Event, v: World) {
    match e
    case Launch =>
      && w.present && !w.paused
      && v == w.(tracker := w.tracker.Started(), inFlight := w.inFlight[w.launched := w.job],
                 launched := w.launched + 1)
    case Finish(k) =>
      k in w.inFlight && v == w.(tracker := w.tracker.Finished(), inFlight := w.inFlight - {k})
    case FindEntry =>
      w.drain.NotDraining? && v == w.(drain := if w.present then Found(w.paused) else Creating)
    case HandlePause =>
      w.drain.Found? && v == w.(paused := w.paused || w.present, drain := PauseHandled(w.drain.wasPaused, w.present))
    case ReadPauseReply =>
      w.drain.PauseHandled? && v == w.(drain := if w.drain.present then PauseReplied(w.drain.wasPaused) else Creating)
    case LookAgain =>
      w.drain.PauseReplied? && v == w.(drain := Looked(w.drain.wasPaused, w.present))
    case ReadDone =>
      w.drain.Looked? && v == w.(drain := if w.drain.present then Waiting(w.drain.wasPaused, w.tracker.done)
                                          else Drained(w.drain.wasPaused))
    case WakeUp =>
      && w.drain.Waiting? && (w.drain.channel.Some? ==> w.tracker.Closed(w.drain.channel.value))
      && v == w.(drain := Drained(w.drain.wasPaused))
    case HandleUpdate =>
      && w.drain.Drained?
      && v == w.(job := if w.present then NewJob else w.job, drain := UpdateHandled(w.drain.wasPaused, w.present))
    case ReadUpdateReply =>
      w.drain.UpdateHandled? && v == w.(drain := if w.drain.present then Swapped(w.drain.wasPaused) else Creating)
    case HandleResume =>
      w.drain.Swapped? && v == w.(paused := if w.drain.wasPaused || !w.present then w.paused else false,
                                  drain := Returned(w.drain.wasPaused))
    case HandleRemove =>
      w.removal.NotRemoving? && v == w.(present := false, removal := RemoveHandled(w.present))
    case ReadRemoveReply =>
      w.removal.RemoveHandled? && v == w.(removal := if w.removal.present then HasTracker else ReturnedNotFound)
    case ReadTracker =>
      && w.removal.HasTracker?
      && v == w.(removal := if w.tracker.done.None? then ReturnedNil else AwaitingEnd(w.tracker.done.value))
    case WakeUpRemoved =>
      w.removal.AwaitingEnd? && w.tracker.Closed(w.removal.channel) && v == w.(removal := ReturnedNil)
    case GiveUp =>
      w.removal.AwaitingEnd? && v == w.(removal := ReturnedCancelled)
    case OtherPause(pause) =>
      w.present && v == w.(paused := pause)
    case OtherUpdate(job) =>
      w.present && v == w.(job := job)
    case OtherRemove =>
      v == w.(present := false)
  }

  /** Nobody else pauses, resumes, updates or removes the entry. */
  predicate LeavesEntryAlone(e: Event) {
    !e.OtherPause? && !e.OtherUpdate? && !e.OtherRemove? && !e.HandleRemove?
  }

  /** An entry with the old job, some invocations of which may be in flight. */
  predicate Start(w: World) {
    && w.drain.NotDraining? && w.removal.NotRemoving? && w.job == OldJob
    && Tracked(w)
    && forall k :: k in w.inFlight ==> w.inFlight[k] == OldJob
  }

  ghost predicate Trace(worlds: seq<World>, events: seq<Event>) {
    && |worlds| == |events| + 1 && Start(worlds[0])
    && forall i :: 0 <= i < |events| ==> Step(worlds[i], events[i], worlds[i + 1])
  }

  // ----- what every step keeps -----

  /** The tracker counts what is in flight. */
  predicate Tracked(w: World) {
    w.tracker.Sound() && w.tracker.n == |w.inFlight| && forall k :: k in w.inFlight ==> k < w.launched
  }

  lemma OneMore(m: map<nat, Job>, k: nat, job: Job)
    requires k !in m
    ensures |m[k := job]| == |m| + 1
  {
    assert m[k := job].Keys == m.Keys + {k};
  }

  lemma OneLess(m: map<nat, Job>, k: nat)
    requires k in m
    ensures |m - {k}| == |m| - 1
  {
    assert m.Keys == (m - {k}).Keys + {k};
  }

  lemma StepKeepsTracked(w: World, e: Event, v: World)
    requires Tracked(w) && Step(w, e, v)
    ensures Tracked(v)
  {
    if e.Launch? {
      OneMore(w.inFlight, w.launched, w.job);
      assert v.inFlight == w.inFlight[w.launched := w.job];
    } else if e.Finish? {
      OneLess(w.inFlight, e.invocation);
      assert v.inFlight == w.inFlight - {e.invocation};
    } else {
      assert v.inFlight == w.inFlight && v.tracker == w.tracker && v.launched == w.launched;
    }
  }

  lemma Idle(w: World)
    requires Tracked(w) && w.tracker.done.None?
    ensures w.inFlight == map[]
  {
  }

  /** The caller holds the reply to its pause request, and has not resumed the entry. */
  predicate HoldsPause(p: DrainPhase) {
    p.PauseReplied? || p.Looked? || p.Waiting? || p.Drained? || p.UpdateHandled? || p.Swapped?
  }

  predicate SwapDone(p: DrainPhase) { p.UpdateHandled? || p.Swapped? || p.Returned? }

  /** Nobody else touches the entry: what holds of the drain at each of its phases. */
  predicate DrainSafe(w: World) {
    && Tracked(w)
    && (HoldsPause(w.drain) || w.drain.PauseHandled? ==> w.paused && w.present)
    && (w.drain.PauseHandled? || w.drain.Looked? || w.drain.UpdateHandled? ==> w.drain.present)
    && (w.drain.Found? || w.drain.Returned? ==> w.present && w.paused == w.drain.wasPaused)
    && w.job == (if SwapDone(w.drain) then NewJob else OldJob)
    && (w.drain.Waiting? ==> if w.drain.channel.Some? then WaitsFor(w, w.drain.channel.value) else w.inFlight == map[])
    && (w.drain.Drained? || w.drain.UpdateHandled? || w.drain.Swapped? ==> w.inFlight == map[])
    && (forall k :: k in w.inFlight && w.inFlight[k] == OldJob ==> !SwapDone(w.drain))
  }

  /** The channel is the one whose closing means that nothing is in flight. */
  predicate WaitsFor(w: World, channel: nat) {
    channel < w.tracker.made && (w.tracker.done == Some(channel) || w.inFlight == map[])
  }

  lemma StepKeepsDrainSafe(w: World, e: Event, v: World)
    requires DrainSafe(w) && Step(w, e, v) && LeavesEntryAlone(e)
    ensures DrainSafe(v)
  {
    StepKeepsTracked(w, e, v);
    if v.tracker.done.None? {
      Idle(v);
    }
  }

  /** Once the caller holds the pause reply it does so, or has swapped the job, for ever. */
  lemma PauseHeld(w: World, e: Event, v: World)
    requires DrainSafe(w) && Step(w, e, v) && LeavesEntryAlone(e)
    requires HoldsPause(w.drain) || SwapDone(w.drain)
    ensures HoldsPause(v.drain) || SwapDone(v.drain)
  {
  }

  lemma {:induction false} DrainSafeAlways(worlds: seq<World>, events: seq<Event>, i: nat)
    requires Trace(worlds, events) && i < |worlds|
    requires forall k :: 0 <= k < |events| ==> LeavesEntryAlone(events[k])
    ensures DrainSafe(worlds[i])
    decreases i
  {
    hide Step, DrainSafe;
    if i == 0 {
      StartIsSafe(worlds[0]);
    } else {
      DrainSafeAlways(worlds, events, i - 1);
      assert Step(worlds[i - 1], events[i - 1], worlds[i]);
      StepKeepsDrainSafe(worlds[i - 1], events[i - 1], worlds[i]);
    }
  }

  lemma StartIsSafe(w: World)
    requires Start(w)
    ensures DrainSafe(w)
  {
  }

  lemma {:induction false} PauseHeldAlways(worlds: seq<World>, events: seq<Event>, i: nat, j: nat)
    requires Trace(worlds, events) && i <= j < |worlds|
    requires forall k :: 0 <= k < |events| ==> LeavesEntryAlone(events[k])
    requires HoldsPause(worlds[i].drain)
    ensures HoldsPause(worlds[j].drain) || SwapDone(worlds[j].drain)
    decreases j
  {
    hide Step, DrainSafe, HoldsPause, SwapDone;
    if i >= j {
    } else {
      PauseHeldAlways(worlds, events, i, j - 1);
      DrainSafeAlways(worlds, events, j - 1);
      assert Step(worlds[j - 1], events[j - 1], worlds[j]);
      PauseHeld(worlds[j - 1], events[j - 1], worlds[j]);
    }
  }

  /** After the pause reply no invocation of the old job starts any more. */
  lemma NoStaleStart(worlds: seq<World>, events: seq<Event>, i: nat, j: nat)
    requires Trace(worlds, events) && i <= j < |events|
    requires forall k :: 0 <= k < |events| ==> LeavesEntryAlone(events[k])
    requires HoldsPause(worlds[i].drain) && events[j] == Launch
    ensures worlds[j].job == NewJob
  {
    DrainSafeAlways(worlds, events, j);
    PauseHeldAlways(worlds, events, i, j);
    assert Step(worlds[j], events[j], worlds[j + 1]);
  }

  /** When the job is swapped nothing is in flight, and the caller leaves the entry paused as it found it. */
  lemma SwapFindsNothingInFlight(worlds: seq<World>, events: seq<Event>, j: nat)
    requires Trace(worlds, events) && j < |events|
    requires forall k :: 0 <= k < |events| ==> LeavesEntryAlone(events[k])
    ensures events[j] == HandleUpdate ==> worlds[j].inFlight == map[] && worlds[j + 1].job == NewJob
    ensures worlds[j].drain.Returned? ==> worlds[j].job == NewJob && worlds[j].paused == worlds[j].drain.wasPaused
    ensures worlds[j].drain.Returned? ==> forall k :: k in worlds[j].inFlight ==> worlds[j].inFlight[k] == NewJob
  {
    DrainSafeAlways(worlds, events, j);
    assert Step(worlds[j], events[j], worlds[j + 1]);
  }

  // ----- the drain gets done -----

  /** An entry that is there stays there, and is never created anew. */
  lemma {:induction false} NeverCreates(worlds: seq<World>, events: seq<Event>, i: nat)
    requires Trace(worlds, events) && i < |worlds| && worlds[0].present
    requires forall k :: 0 <= k < |events| ==> LeavesEntryAlone(events[k])
    ensures worlds[i].present && !worlds[i].drain.Creating?
    decreases i
  {
    hide Step, DrainSafe;
    if i == 0 {
    } else {
      NeverCreates(worlds, events, i - 1);
      DrainSafeAlways(worlds, events, i - 1);
      assert Step(worlds[i - 1], events[i - 1], worlds[i]);
      StepKeepsPresent(worlds[i - 1], events[i - 1], worlds[i]);
    }
  }

  lemma StepKeepsPresent(w: World, e: Event, v: World)
    requires DrainSafe(w) && Step(w, e, v) && LeavesEntryAlone(e) && w.present && !w.drain.Creating?
    ensures v.present && !v.drain.Creating?
  {
  }

  /** The step that the caller or the run loop takes next for the drain, or the end of an invocation it waits for. */
  predicate ServesDrain(e: Event) {
    e in {FindEntry, HandlePause, ReadPauseReply, LookAgain, ReadDone, WakeUp, HandleUpdate, ReadUpdateReply,
        HandleResume}
    || e.Finish?
  }

  /** How many such steps are left at most. */
  function StepsLeft(w: World): nat {
    |w.inFlight| + match w.drain
                   case NotDraining => 9
                   case Found(_) => 8
                   case PauseHandled(_, _) => 7
                   case PauseReplied(_) => 6
                   case Looked(_, _) => 5
                   case Waiting(_, _) => 4
                   case Drained(_) => 3
                   case UpdateHandled(_, _) => 2
                   case Swapped(_) => 1
                   case Returned(_) => 0
                   case Creating => 0
  }

  /** In no world is the drain stuck: until it has returned, such a step is possible and leads closer to the end. */
  lemma DrainGoesOn(w: World) returns (e: Event, v: World)
    requires DrainSafe(w) && w.present && !w.drain.Returned? && !w.drain.Creating?
    ensures Step(w, e, v) && ServesDrain(e) && StepsLeft(v) < StepsLeft(w)
    ensures v.present && !v.drain.Creating?
  {
    match w.drain
    case NotDraining =>
      e, v := FindEntry, w.(drain := Found(w.paused));
    case Found(p) =>
      e, v := HandlePause, w.(paused := true, drain := PauseHandled(p, true));
    case PauseHandled(p, _) =>
      e, v := ReadPauseReply, w.(drain := PauseReplied(p));
    case PauseReplied(p) =>
      e, v := LookAgain, w.(drain := Looked(p, true));
    case Looked(p, _) =>
      e, v := ReadDone, w.(drain := Waiting(p, w.tracker.done));
    case Waiting(p, channel) =>
      if w.inFlight == map[] {
        e, v := WakeUp, w.(drain := Drained(p));
      } else {
        var k :| k in w.inFlight;
        e, v := Finish(k), w.(tracker := w.tracker.Finished(), inFlight := w.inFlight - {k});
        OneLess(w.inFlight, k);
      }
    case Drained(p) =>
      e, v := HandleUpdate, w.(job := NewJob, drain := UpdateHandled(p, true));
    case UpdateHandled(p, _) =>
      e, v := ReadUpdateReply, w.(drain := Swapped(p));
    case Swapped(p) =>
      e, v := HandleResume, w.(paused := p, drain := Returned(p));
  }

  /** From every world of a drain of an entry that is there, some run ends with the new job in place and the entry
      paused as it was found. */
  lemma {:induction false} DrainCompletes(w: World) returns (worlds: seq<World>, events: seq<Event>)
    requires DrainSafe(w) && w.present && !w.drain.Creating?
    ensures |worlds| == |events| + 1 && worlds[0] == w
    ensures forall i :: 0 <= i < |events| ==> Step(worlds[i], events[i], worlds[i + 1]) && ServesDrain(events[i])
    ensures var end := worlds[|events|];
            end.drain.Returned? && end.job == NewJob && end.present && end.paused == end.drain.wasPaused
    decreases StepsLeft(w)
  {
    hide Step, StepsLeft, ServesDrain;
    if w.drain.Returned? {
      worlds, events := [w], [];
    } else {
      var e, v := DrainGoesOn(w);
      ServingLeavesAlone(e);
      StepKeepsDrainSafe(w, e, v);
      var rest, more := DrainCompletes(v);
      worlds, events := [w] + rest, [e] + more;
    }
  }

  lemma ServingLeavesAlone(e: Event)
    requires ServesDrain(e)
    ensures LeavesEntryAlone(e)
  {
  }

  /** An entry that is there and not paused can be launched; what is launched runs the job of the moment. */
  lemma LaunchIsPossible(w: World) returns (v: World)
    requires Tracked(w) && w.present && !w.paused
    ensures Step(w, Launch, v) && Tracked(v) && v.inFlight == w.inFlight[w.launched := w.job]
  {
    v := w.(tracker := w.tracker.Started(), inFlight := w.inFlight[w.launched := w.job], launched := w.launched + 1);
    StepKeepsTracked(w, Launch, v);
  }

  // ----- removal -----

  /** What holds of the removal at each of its phases, whatever others do. */
  predicate RemovalSafe(w: World) {
    && Tracked(w)
    && (!w.removal.NotRemoving? ==> !w.present)
    && (w.removal.AwaitingEnd? ==> WaitsFor(w, w.removal.channel))
    && (w.removal.ReturnedNil? ==> w.inFlight == map[])
  }

  lemma StepKeepsRemovalSafe(w: World, e: Event, v: World)
    requires RemovalSafe(w) && Step(w, e, v)
    ensures RemovalSafe(v)
    ensures w.removal.ReturnedNil? ==> v.removal.ReturnedNil?
  {
    StepKeepsTracked(w, e, v);
    if v.tracker.done.None? {
      Idle(v);
    }
  }

  lemma {:induction false} RemovalSafeAlways(worlds: seq<World>, events: seq<Event>, i: nat)
    requires Trace(worlds, events) && i < |worlds|
    ensures RemovalSafe(worlds[i])
    decreases i
  {
    hide Step;
    if i == 0 {
    } else {
      RemovalSafeAlways(worlds, events, i - 1);
      assert Step(worlds[i - 1], events[i - 1], worlds[i]);
      StepKeepsRemovalSafe(worlds[i - 1], events[i - 1], worlds[i]);
    }
  }

  /** Once RemoveAndWait has returned nil, no invocation of the entry runs or starts any more. */
  lemma {:induction false} RemovedIsQuiet(worlds: seq<World>, events: seq<Event>, i: nat, j: nat)
    requires Trace(worlds, events) && i <= j < |worlds| && worlds[i].removal.ReturnedNil?
    ensures worlds[j].removal.ReturnedNil? && worlds[j].inFlight == map[]
    ensures j < |events| ==> !events[j].Launch? && !events[j].Finish?
    decreases j
  {
    hide Step, RemovalSafe;
    if i < j {
      RemovedIsQuiet(worlds, events, i, j - 1);
      RemovalSafeAlways(worlds, events, j - 1);
      assert Step(worlds[j - 1], events[j - 1], worlds[j]);
      StepKeepsRemovalSafe(worlds[j - 1], events[j - 1], worlds[j]);
    }
    RemovalSafeAlways(worlds, events, j);
    QuietNow(worlds[j]);
    if j < |events| {
      assert Step(worlds[j], events[j], worlds[j + 1]);
      QuietNext(worlds[j], events[j], worlds[j + 1]);
    }
  }

  lemma QuietNow(w: World)
    requires RemovalSafe(w) && w.removal.ReturnedNil?
    ensures w.inFlight == map[]
  {
  }

  lemma QuietNext(w: World, e: Event, v: World)
    requires RemovalSafe(w) && w.removal.ReturnedNil? && Step(w, e, v)
    ensures !e.Launch? && !e.Finish?
  {
  }

  // ----- the removal gets done -----

  ghost predicate Path(worlds: seq<World>, events: seq<Event>) {
    |worlds| == |events| + 1 && forall i :: 0 <= i < |events| ==> Step(worlds[i], events[i], worlds[i + 1])
  }

  lemma PathFrom(w: World, e: Event, worlds: seq<World>, events: seq<Event>)
    requires Path(worlds, events) && Step(w, e, worlds[0])
    ensures Path([w] + worlds, [e] + events) && ([w] + worlds)[|[e] + events|] == worlds[|events|]
  {
    hide Step;
  }

  /** A removal that waits returns nil when the invocations in flight have ended. */
  lemma {:induction false} RemovalWaits(w: World) returns (worlds: seq<World>, events: seq<Event>)
    requires RemovalSafe(w) && w.removal.AwaitingEnd?
    ensures Path(worlds, events) && worlds[0] == w
    ensures worlds[|events|].removal.ReturnedNil? && worlds[|events|].inFlight == map[]
    decreases |w.inFlight|
  {
    hide RemovalSafe, Path;
    if w.inFlight == map[] {
      worlds, events := NilNow(w, WakeUpRemoved);
    } else {
      var k, v := OneEnds(w);
      worlds, events := RemovalWaits(v);
      PathFrom(w, Finish(k), worlds, events);
      worlds, events := [w] + worlds, [Finish(k)] + events;
    }
  }

  lemma OneEnds(w: World) returns (k: nat, v: World)
    requires RemovalSafe(w) && w.removal.AwaitingEnd? && w.inFlight != map[]
    ensures Step(w, Finish(k), v) && RemovalSafe(v) && v.removal.AwaitingEnd? && |v.inFlight| < |w.inFlight|
  {
    k :| k in w.inFlight;
    v := w.(tracker := w.tracker.Finished(), inFlight := w.inFlight - {k});
    OneLess(w.inFlight, k);
    StepKeepsRemovalSafe(w, Finish(k), v);
  }

  lemma NilNow(w: World, e: Event) returns (worlds: seq<World>, events: seq<Event>)
    requires RemovalSafe(w) && w.inFlight == map[]
    requires (e == WakeUpRemoved && w.removal.AwaitingEnd?) || (e == ReadTracker && w.removal.HasTracker?)
    ensures Path(worlds, events) && worlds[0] == w
    ensures worlds[|events|].removal.ReturnedNil? && worlds[|events|].inFlight == map[]
  {
    worlds, events := [w, w.(removal := ReturnedNil)], [e];
  }

  /** From every world, removing an entry that is there leads to nil, and removing one that is not to the error. */
  lemma RemovalCompletes(w: World) returns (worlds: seq<World>, events: seq<Event>)
    requires RemovalSafe(w) && w.removal.NotRemoving?
    ensures Path(worlds, events) && worlds[0] == w
    ensures var end := worlds[|events|];
            if w.present then end.removal.ReturnedNil? && end.inFlight == map[] else end.removal.ReturnedNotFound?
  {
    hide RemovalSafe, Path;
    var u := w.(present := false, removal := RemoveHandled(w.present));
    var v := u.(removal := if w.present then HasTracker else ReturnedNotFound);
    StepKeepsRemovalSafe(w, HandleRemove, u);
    StepKeepsRemovalSafe(u, ReadRemoveReply, v);
    if w.present {
      worlds, events := TrackerIsRead(v);
    } else {
      worlds, events := NoSteps(v);
    }
    PathFrom(u, ReadRemoveReply, worlds, events);
    worlds, events := [u] + worlds, [ReadRemoveReply] + events;
    PathFrom(w, HandleRemove, worlds, events);
    worlds, events := [w] + worlds, [HandleRemove] + events;
  }

  lemma NoSteps(w: World) returns (worlds: seq<World>, events: seq<Event>)
    ensures Path(worlds, events) && worlds == [w] && events == []
  {
    worlds, events := [w], [];
  }

  lemma TrackerIsRead(w: World) returns (worlds: seq<World>, events: seq<Event>)
    requires RemovalSafe(w) && w.removal.HasTracker?
    ensures Path(worlds, events) && worlds[0] == w
    ensures worlds[|events|].removal.ReturnedNil? && worlds[|events|].inFlight == map[]
  {
    hide Path;
    if w.tracker.done.None? {
      worlds, events := NilNow(w, ReadTracker);
    } else {
      var v := w.(removal := AwaitingEnd(w.tracker.done.value));
      StepKeepsRemovalSafe(w, ReadTracker, v);
      worlds, events := RemovalWaits(v);
      PathFrom(w, ReadTracker, worlds, events);
      worlds, events := [w] + worlds, [ReadTracker] + events;
    }
  }
}
