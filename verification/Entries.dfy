/** Cron entries, updated in place by the scheduler. */
module Entries {
  import opened FallBackGuard
  import opened Options

  /** Invalid stands for a policy code outside the three that are defined. */
  datatype MissedPolicy = Skip | RunOnce | RunAll | Invalid(code: int)

  /** What the options of ScheduleJob set. */
  datatype Settings = Settings(name: string, priority: int, runOnce: bool, paused: bool, runImmediately: bool,
                               prev: Option<int>, missedPolicy: MissedPolicy, grace: int)

  class Entry {
    const id: int
    const name: string
    const priority: int
    const runOnce: bool
    const missedPolicy: MissedPolicy
    // Missed runs older than this many seconds are not caught up; zero or less means no limit.
    const grace: int
    var schedule: Schedule
    var next: Option<int>
    var prev: Option<int>
    var paused: bool
    var runImmediately: bool
    var immediateDue: bool
    var fallBackRuns: seq<int>
    var heapIndex: int

    constructor (id: int, schedule: Schedule, settings: Settings)
      ensures this.id == id && this.schedule == schedule
      ensures name == settings.name && priority == settings.priority && runOnce == settings.runOnce
      ensures missedPolicy == settings.missedPolicy && grace == settings.grace
      ensures prev == settings.prev && paused == settings.paused && runImmediately == settings.runImmediately
      ensures next == None && !immediateDue && fallBackRuns == [] && heapIndex == -1
    {
      this.id, this.schedule := id, schedule;
      name, priority, runOnce := settings.name, settings.priority, settings.runOnce;
      missedPolicy, grace := settings.missedPolicy, settings.grace;
      prev, paused, runImmediately := settings.prev, settings.paused, settings.runImmediately;
      next, immediateDue, fallBackRuns, heapIndex := None, false, [], -1;
    }
  }
}
