/**
 * The streaming service as a sequential system: the capture thread, the stop
 * request and the viewers' generators act one at a time on the shared hub, and
 * an interleaving of the threads is an arbitrary sequence of events.
 *
 * The service's plain `HTTPServer` handles one request at a time, so at most
 * one generator is actually live at once. The events allow any number of
 * viewers in any interleaving; that covers more behaviours than the service has,
 * and every property proved here holds of the single-viewer runs in particular.
 */
module StreamTrace {
  import opened Wrappers
  import opened Octets
  import opened FrameHub
  import opened Framing
  import opened StreamSession

  datatype Event =
    | Produce(capture: Capture)    // one pass of the capture loop
    | StopService                  // the service's stop request sets the stop flag
    | ViewerConnects               // a client opens the stream path: a new generator
    | ViewerSteps(i: nat)          // one pass of viewer i's generator
    | ViewerDisconnects(i: nat)    // writing to viewer i failed: its response loop breaks

  /** The hub and every viewer that ever connected, in connection order. */
  datatype World = World(hub: Hub, viewers: seq<Viewer>)

  /** No viewer is ahead of the hub's counter, and the hub keeps frame and counter together. */
  ghost predicate Valid(w: World)
  {
    && FrameHub.Valid(w.hub)
    && forall i :: 0 <= i < |w.viewers| ==> NeverSeen <= w.viewers[i].lastSeq <= w.hub.frameSeq
  }

  function Init(): (w: World)
    ensures Valid(w)
  {
    World(FrameHub.Init(), [])
  }

  function Apply(w: World, e: Event): (w': World)
    ensures |w'.viewers| >= |w.viewers|
    ensures w'.hub.frameSeq >= w.hub.frameSeq
    ensures w.hub.stopped ==> w'.hub.stopped
    ensures Valid(w) ==> Valid(w')
    // a viewer's remembered number never goes back
    ensures Valid(w) ==> forall i :: 0 <= i < |w.viewers| ==> w'.viewers[i].lastSeq >= w.viewers[i].lastSeq
    // a viewer's pass or disconnect leaves the hub alone
    ensures e.ViewerSteps? || e.ViewerDisconnects? || e.ViewerConnects? ==> w'.hub == w.hub
    // a disconnect ends that viewer only
    ensures e.ViewerDisconnects? && e.i < |w.viewers| ==>
      && w'.viewers[e.i].ended
      && forall j :: 0 <= j < |w.viewers| && j != e.i ==> w'.viewers[j] == w.viewers[j]
  {
    match e
    case Produce(c) => w.(hub := Cycle(w.hub, c))
    case StopService => w.(hub := Stop(w.hub))
    case ViewerConnects => w.(viewers := w.viewers + [Connect()])
    case ViewerSteps(i) =>
      if i < |w.viewers| then w.(viewers := w.viewers[i := Step(w.hub, w.viewers[i]).viewer]) else w
    case ViewerDisconnects(i) =>
      if i < |w.viewers| then w.(viewers := w.viewers[i := w.viewers[i].(ended := true)]) else w
  }

  /** Viewer i writes a part on event e. */
  predicate WritesOn(w: World, e: Event, i: nat)
  {
    e.ViewerSteps? && e.i == i && i < |w.viewers| && Step(w.hub, w.viewers[i]).output.Chunk?
  }

  /** The counter value of the part viewer i writes on event e, if it writes one. */
  function DeliveredOn(w: World, e: Event, i: nat): (r: seq<int>)
  {
    if WritesOn(w, e, i) then [w.hub.frameSeq] else []
  }

  function Run(w: World, evs: seq<Event>): (w': World)
    ensures |w'.viewers| >= |w.viewers|
    decreases |evs|
  {
    if |evs| == 0 then w else Run(Apply(w, evs[0]), evs[1..])
  }

  /** The counter values of the parts viewer i writes along the events, in order. */
  function Delivered(w: World, evs: seq<Event>, i: nat): (r: seq<int>)
    decreases |evs|
  {
    if |evs| == 0 then [] else DeliveredOn(w, evs[0], i) + Delivered(Apply(w, evs[0]), evs[1..], i)
  }

  /** The frames viewer i is sent along the events, in order. */
  function DeliveredFrames(w: World, evs: seq<Event>, i: nat): (r: seq<Bytes>)
    decreases |evs|
  {
    if |evs| == 0 then []
    else
      var now := if WritesOn(w, evs[0], i) && w.hub.latest.Some? then [w.hub.latest.value] else [];
      now + DeliveredFrames(Apply(w, evs[0]), evs[1..], i)
  }

  /** The bytes the stream handler writes to viewer i along the events: the chunks its generator yields. */
  function Written(w: World, evs: seq<Event>, i: nat): (r: Bytes)
    decreases |evs|
  {
    if |evs| == 0 then []
    else
      var now := if WritesOn(w, evs[0], i) then Step(w.hub, w.viewers[i]).output.data else [];
      now + Written(Apply(w, evs[0]), evs[1..], i)
  }

  /**
   * What a viewer receives along any interleaving is a well-formed multipart
   * body: exactly the parts of the frames delivered to it, back to back.
   */
  lemma {:induction false} WrittenIsBody(w: World, evs: seq<Event>, i: nat)
    ensures Written(w, evs, i) == Body(DeliveredFrames(w, evs, i))
    decreases |evs|
  {
    if |evs| > 0 {
      var w1 := Apply(w, evs[0]);
      var rest := DeliveredFrames(w1, evs[1..], i);
      WrittenIsBody(w1, evs[1..], i);
      if WritesOn(w, evs[0], i) {
        var f := w.hub.latest.value;
        assert Step(w.hub, w.viewers[i]).output.data == Part(f);
        assert Written(w, evs, i) == Part(f) + Written(w1, evs[1..], i);
        assert DeliveredFrames(w, evs, i) == [f] + rest;
        BodyCons(f, rest);
      } else {
        assert Written(w, evs, i) == Written(w1, evs[1..], i);
        assert DeliveredFrames(w, evs, i) == rest;
      }
    }
  }

  ghost predicate StrictlyIncreasing(s: seq<int>)
  {
    forall j, k :: 0 <= j < k < |s| ==> s[j] < s[k]
  }

  /** Every interleaving keeps the system valid, never lowers the counter and never clears the stop flag. */
  lemma {:induction false} RunPreserves(w: World, evs: seq<Event>)
    requires Valid(w)
    ensures Valid(Run(w, evs))
    ensures Run(w, evs).hub.frameSeq >= w.hub.frameSeq
    ensures w.hub.stopped ==> Run(w, evs).hub.stopped
    decreases |evs|
  {
    if |evs| > 0 {
      RunPreserves(Apply(w, evs[0]), evs[1..]);
    }
  }

  /**
   * Whatever the interleaving, the frames a viewer receives carry strictly
   * increasing numbers, each newer than the one it had seen before and none
   * newer than the hub's counter at the end.
   */
  lemma {:induction false} DeliveriesIncrease(w: World, evs: seq<Event>, i: nat)
    requires Valid(w) && i < |w.viewers|
    ensures StrictlyIncreasing(Delivered(w, evs, i))
    ensures forall k :: 0 <= k < |Delivered(w, evs, i)| ==>
      w.viewers[i].lastSeq < Delivered(w, evs, i)[k] <= Run(w, evs).hub.frameSeq
    decreases |evs|
  {
    if |evs| > 0 {
      var w1 := Apply(w, evs[0]);
      var head := DeliveredOn(w, evs[0], i);
      var tail := Delivered(w1, evs[1..], i);
      DeliveriesIncrease(w1, evs[1..], i);
      RunPreserves(w1, evs[1..]);
      assert Delivered(w, evs, i) == head + tail;
      assert Run(w, evs) == Run(w1, evs[1..]);
      if head != [] {
        assert w1.viewers[i].lastSeq == w.hub.frameSeq;
        assert w.viewers[i].lastSeq < w.hub.frameSeq;
      }
      forall k | 0 <= k < |head| + |tail|
        ensures w.viewers[i].lastSeq < (head + tail)[k] <= Run(w, evs).hub.frameSeq
      {
        if k >= |head| {
          assert (head + tail)[k] == tail[k - |head|];
        }
      }
    }
  }

  /** Once the stop flag is set, no viewer writes another part, whatever happens next. */
  lemma {:induction false} NothingAfterStop(w: World, evs: seq<Event>, i: nat)
    requires w.hub.stopped
    ensures Delivered(w, evs, i) == []
    decreases |evs|
  {
    if |evs| > 0 {
      NothingAfterStop(Apply(w, evs[0]), evs[1..], i);
    }
  }

  /** A viewer whose connection broke never writes again, and the hub does not notice. */
  lemma {:induction false} NothingAfterDisconnect(w: World, evs: seq<Event>, i: nat)
    requires i < |w.viewers| && w.viewers[i].ended
    ensures Delivered(w, evs, i) == []
    ensures Run(w, evs).viewers[i].ended
    decreases |evs|
  {
    if |evs| > 0 {
      var w1 := Apply(w, evs[0]);
      assert w1.viewers[i].ended;
      NothingAfterDisconnect(w1, evs[1..], i);
    }
  }
}
