/**
 * One viewer of the stream: the state `frame_generator` keeps between parts,
 * and one pass of its loop taken against the hub as it stands at that moment.
 * Waiting on the condition is abstracted: a pass that finds nothing new is an
 * idle step, and the scheduler may take it again later.
 */
module StreamSession {
  import opened Wrappers
  import opened Octets
  import opened Framing
  import opened FrameHub

  /** The `last_seq` a generator starts with, below every counter value. */
  const NeverSeen: int := -1

  /** `lastSeq` is the counter value of the last frame written; `ended` says the generator has returned. */
  datatype Viewer = Viewer(lastSeq: int, ended: bool)

  /** A viewer that has just connected to the stream path. */
  function Connect(): (v: Viewer)
    ensures v.lastSeq < 0 && !v.ended
  {
    Viewer(NeverSeen, false)
  }

  /** What one pass of the generator hands to the response. */
  datatype Output =
    | Finished            // the generator returned: the stop flag was seen or the viewer left
    | Waited              // nothing new: the pass blocked on the condition until its timeout
    | Spun                // a new number but no frame yet: the pass returns at once, without blocking
    | Chunk(data: Bytes)  // one multipart part

  datatype StepResult = StepResult(viewer: Viewer, output: Output)

  /** One pass of the generator's loop against hub state `h`. */
  function Step(h: Hub, v: Viewer): (r: StepResult)
    // the generator returns exactly when it sees the stop flag (or has already returned)
    ensures r.output.Finished? <==> v.ended || h.stopped
    ensures r.viewer.ended <==> v.ended || h.stopped
    // a part is written exactly when a frame the viewer has not seen is present
    ensures r.output.Chunk? <==> !v.ended && !h.stopped && h.frameSeq != v.lastSeq && h.latest.Some?
    // and that part carries the hub's current frame, whose number the viewer remembers
    ensures r.output.Chunk? ==> r.output.data == Part(h.latest.value) && r.viewer.lastSeq == h.frameSeq
    ensures !r.output.Chunk? ==> r.viewer.lastSeq == v.lastSeq
  {
    if v.ended || h.stopped then StepResult(v.(ended := true), Finished)
    else if v.lastSeq == h.frameSeq then StepResult(v, Waited)
    else match h.latest
      case None => StepResult(v, Spun)
      case Some(frame) => StepResult(Viewer(h.frameSeq, false), Chunk(Part(frame)))
  }

  /**
   * A viewer that connects before anything was published writes nothing and
   * keeps its sentinel; once at least one frame was published, its first pass
   * writes the current frame.
   */
  lemma FirstStep(h: Hub)
    requires Valid(h) && !h.stopped
    ensures h.frameSeq == 0 ==> Step(h, Connect()) == StepResult(Connect(), Spun)
    ensures h.frameSeq > 0 ==>
      && Step(h, Connect()).output == Chunk(Part(h.latest.value))
      && Step(h, Connect()).viewer.lastSeq == h.frameSeq
  {
  }

  /**
   * Against a valid hub a live viewer that is not ahead of it returns without
   * blocking and without writing exactly when it has never seen a frame and none
   * was published yet: until the first frame arrives its loop never waits.
   */
  lemma SpinsOnlyBeforeFirstFrame(h: Hub, v: Viewer)
    requires Valid(h) && !h.stopped && !v.ended
    requires NeverSeen <= v.lastSeq <= h.frameSeq
    ensures Step(h, v).output.Spun? <==> h.frameSeq == 0 && v.lastSeq == NeverSeen
    ensures Step(h, v).output.Waited? <==> v.lastSeq == h.frameSeq
  {
  }

  /**
   * Latest wins: however many capture passes (successful or not) happen between
   * two passes of a viewer that is not ahead of the hub, if at least one of them
   * published, the viewer's next pass writes only the last published frame and
   * skips the ones before it.
   */
  lemma {:induction false} LatestWins(h: Hub, v: Viewer, cs: seq<Capture>)
    requires Valid(h) && !h.stopped && !v.ended
    requires v.lastSeq <= h.frameSeq
    requires Encodes(cs) > 0
    ensures Step(Cycles(h, cs), v).output == Chunk(Part(LastEncoded(cs).value))
    ensures Step(Cycles(h, cs), v).viewer.lastSeq == h.frameSeq + Encodes(cs)
  {
    CyclesEffect(h, cs);
  }

  /**
   * Broadcast: viewers with different histories that are both behind the hub
   * write the very same part on their next pass and end up at the same number.
   * The service's single-threaded HTTP server runs one generator at a time, so
   * this describes what successive viewers see of one hub state as much as
   * viewers running side by side.
   */
  lemma Broadcast(h: Hub, v: Viewer, w: Viewer)
    requires !h.stopped && !v.ended && !w.ended
    requires v.lastSeq < h.frameSeq && w.lastSeq < h.frameSeq && h.latest.Some?
    ensures Step(h, v).output.Chunk? && Step(h, v) == Step(h, w)
  {
  }
}
