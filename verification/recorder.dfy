/**
 * The recording supervisor: every ten seconds it looks at the hour and at the
 * recording child process, starts, clears or stops that process, and while a
 * process is held lets the disk janitor run once.
 */
module Recorder {
  import opened Wrappers
  import opened DiskCleanup

  /** Recording runs from 06:00 to 17:59: the hours 6 through 17. */
  const StartHour: int := 6
  const EndHour: int := 17

  predicate InWindow(hour: int)
  {
    StartHour <= hour <= EndHour
  }

  /** A recording child process; `exited` says its poll reports an exit status. */
  datatype Child = Child(id: nat, exited: bool)

  /**
   * `process` is the child the supervisor holds, `running` keeps the main loop
   * going, and `spawned` counts the children started so far (the next one gets
   * that number).
   */
  datatype Recorder = Recorder(process: Option<Child>, running: bool, spawned: nat)

  /** The one held child, if any, is the most recently started one; a stopped supervisor holds none. */
  ghost predicate Valid(r: Recorder)
  {
    && (r.process.Some? ==> r.process.value.id + 1 == r.spawned)
    && (!r.running ==> r.process.None?)
  }

  function Init(): (r: Recorder)
    ensures Valid(r) && r.running && r.process.None?
  {
    Recorder(None, true, 0)
  }

  /** Starts a recording child unless one is already held. */
  function StartCamera(r: Recorder): (r': Recorder)
    // never a second child while one is held
    ensures r.process.Some? ==> r' == r
    ensures r.process.None? ==> r'.process == Some(Child(r.spawned, false)) && r'.spawned == r.spawned + 1
    ensures r'.process.Some? && r'.running == r.running
    ensures Valid(r) && r.running ==> Valid(r')
  {
    if r.process.None? then r.(process := Some(Child(r.spawned, false)), spawned := r.spawned + 1)
    else r
  }

  /** Terminates the held child (killing it if it does not exit in time) and forgets it. */
  function StopCamera(r: Recorder): (r': Recorder)
    ensures r'.process.None?
    ensures r'.running == r.running && r'.spawned == r.spawned
    // a no-op when nothing is held
    ensures r.process.None? ==> r' == r
    ensures Valid(r) ==> Valid(r')
  {
    if r.process.Some? then r.(process := None) else r
  }

  /** The signal handler: stop the child and end the main loop. */
  function Shutdown(r: Recorder): (r': Recorder)
    ensures r'.process.None? && !r'.running
    ensures r'.spawned == r.spawned
    ensures Valid(r')
  {
    StopCamera(r).(running := false)
  }

  /** What a tick decides from the hour and the child's state. */
  datatype Decision = Start | ClearDead | Stop | Keep

  function Decide(hour: int, process: Option<Child>): (d: Decision)
    ensures d.Start? <==> InWindow(hour) && process.None?
    ensures d.ClearDead? <==> InWindow(hour) && process.Some? && process.value.exited
    ensures d.Stop? <==> !InWindow(hour) && process.Some?
    ensures d.Keep? <==> (InWindow(hour) && process.Some? && !process.value.exited) || (!InWindow(hour) && process.None?)
  {
    if InWindow(hour) then
      if process.None? then Start
      else if process.value.exited then ClearDead
      else Keep
    else if process.Some? then Stop
    else Keep
  }

  /** The first half of a tick: acting on the decision. */
  function Supervise(r: Recorder, hour: int): (r': Recorder)
    // in the window a child is held afterwards unless a dead one was just cleared
    ensures InWindow(hour) ==> (r'.process.None? <==> r.process.Some? && r.process.value.exited)
    // outside the window nothing is held afterwards
    ensures !InWindow(hour) ==> r'.process.None?
    // a child is started only in the window and only when none was held
    ensures r'.spawned != r.spawned ==> InWindow(hour) && r.process.None? && r'.spawned == r.spawned + 1
    // a held child that is alive in the window is kept as it is
    ensures InWindow(hour) && r.process.Some? && !r.process.value.exited ==> r' == r
    ensures r'.running == r.running
    ensures Valid(r) && r.running ==> Valid(r')
  {
    match Decide(hour, r.process)
    case Start => StartCamera(r)
    case ClearDead => r.(process := None)
    case Stop => StopCamera(r)
    case Keep => r
  }

  datatype TickResult = TickResult(recorder: Recorder, dir: Listing, cleanup: Option<Outcome>)

  /**
   * One pass of the main loop at the given hour, with the file system reporting
   * `total` and `used` bytes: the decision, then the janitor while recording.
   */
  function Tick(r: Recorder, hour: int, total: nat, used: nat, dir: Listing): (t: TickResult)
    ensures t.recorder == Supervise(r, hour)
    // the janitor runs exactly when a child is held after the decision ...
    ensures t.cleanup.Some? <==> t.recorder.process.Some?
    ensures t.cleanup.Some? ==> CleanupDisk(total, used, dir) == Cleanup(t.cleanup.value, t.dir)
    ensures t.cleanup.None? ==> t.dir == dir
    // ... so never outside the window, nor in the tick that clears a dead child
    ensures !InWindow(hour) ==> t.cleanup.None?
    ensures r.process.Some? && r.process.value.exited ==> t.cleanup.None?
    // and at most one file goes per tick
    ensures |t.dir| >= |dir| - 1
  {
    var r' := Supervise(r, hour);
    if r'.process.Some? then
      var c := CleanupDisk(total, used, dir);
      TickResult(r', c.dir, Some(c.outcome))
    else TickResult(r', dir, None)
  }

  /**
   * A child found dead in the window is cleared and not restarted in the same
   * tick; the next tick in the window starts a fresh one.
   */
  lemma DeadChildRestartedNextTick(r: Recorder, h1: int, h2: int, total: nat, used: nat, dir: Listing)
    requires Valid(r) && r.running
    requires r.process.Some? && r.process.value.exited
    requires InWindow(h1) && InWindow(h2)
    ensures var t1 := Tick(r, h1, total, used, dir);
      && t1.recorder.process.None? && t1.recorder.spawned == r.spawned
      && Tick(t1.recorder, h2, total, used, dir).recorder.process == Some(Child(r.spawned, false))
  {
  }
}
