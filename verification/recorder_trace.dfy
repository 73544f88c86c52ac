/**
 * The recorder process over time: ticks of the main loop, the recording child
 * writing its two-minute segments or exiting on its own, and the termination
 * signal, in any order.
 */
module RecorderTrace {
  import opened Wrappers
  import opened DiskCleanup
  import opened Recorder

  datatype Event =
    | TickAt(hour: int, total: nat, used: nat)   // one pass of the main loop
    | SegmentWritten(name: string, mtime: int)   // the held child writes (or rewrites) a segment file
    | ChildExits                                 // the held child terminates by itself
    | Signal                                     // SIGINT or SIGTERM arrives between passes

  datatype Host = Host(recorder: Recorder, dir: Listing)

  /** A live child is held: the one state in which the child writes segments. */
  predicate Recording(r: Recorder)
  {
    r.running && r.process.Some? && !r.process.value.exited
  }

  function Apply(h: Host, e: Event): (h': Host)
    ensures Valid(h.recorder) ==> Valid(h'.recorder)
    ensures !h.recorder.running ==> !h'.recorder.running
    // only a loop pass removes files, and then exactly one entry
    ensures !e.TickAt? ==> Names(h.dir) <= Names(h'.dir) && |h'.dir| >= |h.dir|
    ensures e.TickAt? ==> h'.dir == h.dir || exists k :: 0 <= k < |h.dir| && h'.dir == Without(h.dir, k)
    // only a live recording child adds files, and only `.h264` segments
    ensures e.SegmentWritten? && h'.dir != h.dir ==> Recording(h.recorder) && IsRecording(e.name)
    ensures e.SegmentWritten? ==> h'.recorder == h.recorder
    ensures e.ChildExits? || e.Signal? ==> h'.dir == h.dir
  {
    match e
    case TickAt(hour, total, used) =>
      if h.recorder.running then
        var t := Tick(h.recorder, hour, total, used, h.dir);
        Host(t.recorder, t.dir)
      else h
    case SegmentWritten(name, mtime) =>
      if Recording(h.recorder) && IsRecording(name) then h.(dir := WriteSegment(h.dir, name, mtime))
      else h
    case ChildExits =>
      (match h.recorder.process
       case Some(c) => h.(recorder := h.recorder.(process := Some(c.(exited := true))))
       case None => h)
    case Signal => h.(recorder := Shutdown(h.recorder))
  }

  function Run(h: Host, evs: seq<Event>): (r: Host)
    decreases |evs|
  {
    if |evs| == 0 then h else Run(Apply(h, evs[0]), evs[1..])
  }

  /** The count of loop passes among the events. */
  function Ticks(evs: seq<Event>): (r: nat)
    decreases |evs|
  {
    if |evs| == 0 then 0 else (if evs[0].TickAt? then 1 else 0) + Ticks(evs[1..])
  }

  /** Every history keeps the supervisor valid and the directory's names distinct. */
  lemma {:induction false} RunPreserves(h: Host, evs: seq<Event>)
    requires Valid(h.recorder) && DistinctNames(h.dir)
    ensures Valid(Run(h, evs).recorder) && DistinctNames(Run(h, evs).dir)
    decreases |evs|
  {
    if |evs| > 0 {
      if evs[0].TickAt? {
        CleanupRemovesOldestFile(evs[0].total, evs[0].used, h.dir);
      } else if evs[0].SegmentWritten? {
        WriteSegmentKeepsDistinct(h.dir, evs[0].name, evs[0].mtime);
      }
      RunPreserves(Apply(h, evs[0]), evs[1..]);
    }
  }

  /** One event makes at most one name disappear, and only a loop pass makes any disappear. */
  lemma ApplyLosesAtMostOne(h: Host, e: Event)
    ensures |Names(h.dir) - Names(Apply(h, e).dir)| <= (if e.TickAt? then 1 else 0)
  {
    var h' := Apply(h, e);
    if h'.dir == h.dir || !e.TickAt? {
      assert Names(h.dir) - Names(h'.dir) == {};
    } else {
      var k :| 0 <= k < |h.dir| && h'.dir == Without(h.dir, k);
      NamesWithout(h.dir, k);
      SubsetCard(Names(h.dir) - Names(h'.dir), {h.dir[k].name});
    }
  }

  lemma SubsetCard<T>(a: set<T>, b: set<T>)
    requires a <= b
    ensures |a| <= |b|
  {
    assert b == a + (b - a);
  }

  /**
   * Files only disappear through loop passes, at most one per pass: however
   * many segments the child writes meanwhile, no more names are lost than there
   * were passes, and the listing is never shorter by more than that either.
   */
  lemma {:induction false} RemovalsBoundedByTicks(h: Host, evs: seq<Event>)
    ensures |Names(h.dir) - Names(Run(h, evs).dir)| <= Ticks(evs)
    ensures |Run(h, evs).dir| >= |h.dir| - Ticks(evs)
    decreases |evs|
  {
    if |evs| > 0 {
      var h1 := Apply(h, evs[0]);
      var last := Run(h, evs);
      assert last == Run(h1, evs[1..]);
      RemovalsBoundedByTicks(h1, evs[1..]);
      ApplyLosesAtMostOne(h, evs[0]);
      var lostNow := Names(h.dir) - Names(h1.dir);
      var lostLater := Names(h1.dir) - Names(last.dir);
      SubsetCard(Names(h.dir) - Names(last.dir), lostNow + lostLater);
    }
  }

  /** Without a loop pass no file disappears: segment writes only add names or refresh times. */
  lemma {:induction false} NoRemovalWithoutTicks(h: Host, evs: seq<Event>)
    requires Ticks(evs) == 0
    ensures Names(h.dir) <= Names(Run(h, evs).dir)
    decreases |evs|
  {
    if |evs| > 0 {
      NoRemovalWithoutTicks(Apply(h, evs[0]), evs[1..]);
    }
  }

  /** In the map view a segment write sets that segment's time and leaves every other file as it was. */
  lemma SegmentWriteOnFiles(h: Host, name: string, mtime: int)
    requires DistinctNames(h.dir)
    ensures Files(Apply(h, SegmentWritten(name, mtime)).dir)
         == if Recording(h.recorder) && IsRecording(name) then Files(h.dir)[name := mtime] else Files(h.dir)
  {
    if Recording(h.recorder) && IsRecording(name) {
      FilesOfWriteSegment(h.dir, name, mtime);
    }
  }

  /** After the termination signal nothing changes any more: no child, no loop pass, no deletion. */
  lemma {:induction false} ShutdownIsFinal(h: Host, evs: seq<Event>)
    ensures Run(Apply(h, Signal), evs) == Apply(h, Signal)
    ensures Apply(h, Signal).recorder.process.None? && !Apply(h, Signal).recorder.running
    decreases |evs|
  {
    var s := Apply(h, Signal);
    if |evs| > 0 {
      assert Apply(s, evs[0]) == s;
      ShutdownIsFinal(h, evs[1..]);
    }
  }
}
