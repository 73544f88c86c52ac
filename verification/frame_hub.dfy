/**
 * The capture service's shared slot: the most recent encoded JPEG, the count of
 * frames published so far and the stop flag, together with the producer's
 * per-cycle update and the JPEG quality clamp applied before encoding.
 */
module FrameHub {
  import opened Wrappers
  import opened Octets

  /** The range the configured JPEG quality is clamped into. */
  const MinQuality: int := 10
  const MaxQuality: int := 95

  function Min(a: int, b: int): (r: int) { if a <= b then a else b }
  function Max(a: int, b: int): (r: int) { if a >= b then a else b }
  function Dist(a: int, b: int): (r: nat) { if a >= b then a - b else b - a }

  /** The quality handed to the encoder for a configured quality `q`. */
  function EffectiveQuality(q: int): (r: int)
    ensures MinQuality <= r <= MaxQuality
    ensures MinQuality <= q <= MaxQuality ==> r == q
    ensures q < MinQuality ==> r == MinQuality
    ensures q > MaxQuality ==> r == MaxQuality
  {
    Max(MinQuality, Min(MaxQuality, q))
  }

  /** The clamp picks the admissible quality nearest to the configured one, so clamping twice changes nothing. */
  lemma EffectiveQualityIsNearest(q: int, x: int)
    requires MinQuality <= x <= MaxQuality
    ensures Dist(EffectiveQuality(q), q) <= Dist(x, q)
    ensures EffectiveQuality(EffectiveQuality(q)) == EffectiveQuality(q)
  {
  }

  /** `latest` is `_latest_original`, `frameSeq` is `_frame_seq`, `stopped` is the `_stop` event. */
  datatype Hub = Hub(latest: Option<Bytes>, frameSeq: int, stopped: bool)

  /** Frame and counter change together: there is no frame exactly while nothing was published. */
  ghost predicate Valid(h: Hub)
  {
    && h.frameSeq >= 0
    && (h.latest.None? <==> h.frameSeq == 0)
  }

  /** The hub of a freshly constructed service. */
  function Init(): (h: Hub)
    ensures Valid(h)
    ensures h.frameSeq == 0 && !h.stopped
  {
    Hub(None, 0, false)
  }

  /** What one pass of the capture loop got from the camera and the encoder. */
  datatype Capture =
    | CaptureRaised          // the capture call raised; the loop backs off and retries
    | NoFrame                // the capture call returned no array
    | EncodeFailed           // the JPEG encoder reported failure; the frame is skipped
    | Encoded(jpeg: Bytes)   // the encoded JPEG

  /** Swaps in a new frame under the condition's lock and counts it. */
  function Publish(h: Hub, jpeg: Bytes): (h': Hub)
    ensures h'.latest == Some(jpeg)
    ensures h'.frameSeq == h.frameSeq + 1
    ensures h'.stopped == h.stopped
    ensures Valid(h) ==> Valid(h')
  {
    Hub(Some(jpeg), h.frameSeq + 1, h.stopped)
  }

  /** One pass of the capture loop: only a successful encode publishes. */
  function Cycle(h: Hub, c: Capture): (r: Hub)
    ensures r.frameSeq == h.frameSeq + (if c.Encoded? then 1 else 0)
    ensures c.Encoded? ==> r.latest == Some(c.jpeg)
    ensures !c.Encoded? ==> r == h
    ensures r.stopped == h.stopped
    ensures Valid(h) ==> Valid(r)
  {
    match c
    case Encoded(jpeg) => Publish(h, jpeg)
    case _ => h
  }

  /** Sets the stop flag; nothing ever clears it. */
  function Stop(h: Hub): (h': Hub)
    ensures h'.stopped
    ensures h'.latest == h.latest && h'.frameSeq == h.frameSeq
    ensures Valid(h) ==> Valid(h')
  {
    h.(stopped := true)
  }

  /** The hub after the capture loop went through the given passes in order. */
  function Cycles(h: Hub, cs: seq<Capture>): (r: Hub)
  {
    if |cs| == 0 then h else Cycle(Cycles(h, cs[..|cs| - 1]), cs[|cs| - 1])
  }

  /** How many of the passes produced an encoded frame. */
  function Encodes(cs: seq<Capture>): (r: nat)
  {
    if |cs| == 0 then 0
    else Encodes(cs[..|cs| - 1]) + (if cs[|cs| - 1].Encoded? then 1 else 0)
  }

  /** The frame of the last pass that produced one, if any did. */
  function LastEncoded(cs: seq<Capture>): (r: Option<Bytes>)
    ensures r.None? <==> Encodes(cs) == 0
  {
    if |cs| == 0 then None
    else if cs[|cs| - 1].Encoded? then Some(cs[|cs| - 1].jpeg)
    else LastEncoded(cs[..|cs| - 1])
  }

  /**
   * Over any run of the capture loop the counter grows by exactly the number of
   * successful encodes, the slot holds the last encoded frame (or what it held
   * before when no pass succeeded), and the stop flag is untouched.
   */
  lemma {:induction false} CyclesEffect(h: Hub, cs: seq<Capture>)
    ensures Cycles(h, cs).frameSeq == h.frameSeq + Encodes(cs)
    ensures Cycles(h, cs).latest == (if LastEncoded(cs).Some? then LastEncoded(cs) else h.latest)
    ensures Cycles(h, cs).stopped == h.stopped
    ensures Valid(h) ==> Valid(Cycles(h, cs))
  {
    if |cs| > 0 {
      CyclesEffect(h, cs[..|cs| - 1]);
    }
  }

  /** Failed captures and failed encodes publish nothing: the frame and the counter stay as they were. */
  lemma {:induction false} FailedCyclesPublishNothing(h: Hub, cs: seq<Capture>)
    requires forall i :: 0 <= i < |cs| ==> !cs[i].Encoded?
    ensures Cycles(h, cs) == h
  {
    if |cs| > 0 {
      FailedCyclesPublishNothing(h, cs[..|cs| - 1]);
    }
  }

  /** The counter never decreases, whatever the camera and the encoder do. */
  lemma SeqNeverDecreases(h: Hub, cs: seq<Capture>)
    ensures Cycles(h, cs).frameSeq >= h.frameSeq
  {
  }
}
