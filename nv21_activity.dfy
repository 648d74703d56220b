/** NV21Merger's MainActivity: the six-slot accumulator that onPreviewFrame
    fills from camera preview frames, mergeFrames, which turns six collected
    frames into one mosaic, and the frame queue (an ArrayBlockingQueue of
    capacity 10) that carries the mosaics to the encoder thread. */
module NV21Activity {
  import opened JavaInt
  import opened FrameMerger
  import opened Wrappers

  /** The capacity the frame queue is created with. */
  const CAPACITY: nat := 10

  // ---------------------------------------------------------------------------
  // The frame queue
  // ---------------------------------------------------------------------------

  /** A bounded first-in first-out queue of merged frames. `put` blocks while
      the queue is full; here a free place is a precondition. */
  class FrameQueue {
    var items: seq<seq<byte>>

    ghost predicate Valid()
      reads this
    {
      |items| <= CAPACITY
    }

    constructor ()
      ensures Valid() && items == []
    {
      items := [];
    }

    /** ArrayBlockingQueue.put on a queue with room: appends at the tail. */
    method Put(x: seq<byte>)
      requires Valid() && |items| < CAPACITY
      modifies this
      ensures Valid() && items == Enqueue(old(items), x)
    {
      items := items + [x];
    }

    /** ArrayBlockingQueue.poll: the head, or nothing when the queue is empty. */
    method Poll() returns (r: Option<seq<byte>>)
      requires Valid()
      modifies this
      ensures Valid() && (r, items) == Dequeue(old(items))
    {
      if items == [] {
        r := None;
      } else {
        r := Some(items[0]);
        items := items[1..];
      }
    }
  }

  function Enqueue(q: seq<seq<byte>>, x: seq<byte>): seq<seq<byte>> {
    q + [x]
  }

  function Dequeue(q: seq<seq<byte>>): (Option<seq<byte>>, seq<seq<byte>>) {
    if q == [] then (None, []) else (Some(q[0]), q[1..])
  }

  /** The queue after putting each of `xs` in turn. */
  function EnqueueAll(q: seq<seq<byte>>, xs: seq<seq<byte>>): seq<seq<byte>>
    decreases |xs|
  {
    if xs == [] then q else EnqueueAll(Enqueue(q, xs[0]), xs[1..])
  }

  /** What polling until the queue is empty hands out, in order. */
  function DrainAll(q: seq<seq<byte>>): seq<seq<byte>>
    decreases |q|
  {
    match Dequeue(q)
    case (None, _) => []
    case (Some(x), rest) => [x] + DrainAll(rest)
  }

  /** First in, first out: polling hands out what was put, in the order it was
      put, after what was queued before. */
  lemma {:induction false} FirstInFirstOut(q: seq<seq<byte>>, xs: seq<seq<byte>>)
    ensures DrainAll(EnqueueAll(q, xs)) == q + xs
    decreases |xs|
  {
    if xs == [] {
      DrainAllIsIdentity(q);
    } else {
      FirstInFirstOut(Enqueue(q, xs[0]), xs[1..]);
      assert Enqueue(q, xs[0]) + xs[1..] == q + xs;
    }
  }

  lemma {:induction false} DrainAllIsIdentity(q: seq<seq<byte>>)
    ensures DrainAll(q) == q
    decreases |q|
  {
    if q != [] {
      DrainAllIsIdentity(q[1..]);
    }
  }

  // ---------------------------------------------------------------------------
  // The six-slot accumulator
  // ---------------------------------------------------------------------------

  /** The `frames` slots (None where the array entry is still null) and
      `frameCount`. */
  datatype Accumulator = Accumulator(slots: seq<Option<seq<byte>>>, count: nat)

  /** Six slots, a count of at most six, and every slot below the count
      holds a frame. */
  predicate AccValid(a: Accumulator) {
    |a.slots| == FRAME_COUNT && a.count <= FRAME_COUNT &&
    forall i | 0 <= i < a.count :: a.slots[i].Some?
  }

  /** onPreviewFrame: a frame is kept in slot `count` while fewer than six
      are held, and dropped otherwise. */
  function Preview(a: Accumulator, data: seq<byte>): (r: Accumulator)
    requires |a.slots| == FRAME_COUNT
    ensures |r.slots| == FRAME_COUNT
    ensures AccValid(a) ==> AccValid(r)
  {
    if a.count < FRAME_COUNT then Accumulator(a.slots[a.count := Some(data)], a.count + 1) else a
  }

  /** The accumulator after each of a run of preview frames. */
  function Feed(a: Accumulator, ds: seq<seq<byte>>): (r: Accumulator)
    requires |a.slots| == FRAME_COUNT
    ensures |r.slots| == FRAME_COUNT
    decreases |ds|
  {
    if ds == [] then a
    else
      var b := Preview(a, ds[0]);
      assert |b.slots| == FRAME_COUNT;
      Feed(b, ds[1..])
  }

  function Min(x: int, y: int): int { if x <= y then x else y }

  /** The six frames mergeFrames hands to mergeNV21Frames. */
  function Filled(a: Accumulator): (frames: seq<seq<byte>>)
    requires AccValid(a) && a.count == FRAME_COUNT
    ensures |frames| == FRAME_COUNT
    ensures forall i | 0 <= i < FRAME_COUNT :: a.slots[i] == Some(frames[i])
  {
    seq(FRAME_COUNT, (i: int) requires 0 <= i < FRAME_COUNT => a.slots[i].value)
  }

  /** One preview frame keeps the accumulator valid, stores the frame in slot
      `count` and advances the count when a slot is free, and changes nothing
      otherwise. */
  lemma PreviewRule(a: Accumulator, data: seq<byte>)
    requires AccValid(a)
    ensures var r := Preview(a, data);
            AccValid(r) && r.count == Min(FRAME_COUNT, a.count + 1) &&
            (a.count < FRAME_COUNT ==> r.slots[a.count] == Some(data)) &&
            (a.count == FRAME_COUNT ==> r == a) &&
            forall i | 0 <= i < FRAME_COUNT && i != a.count :: r.slots[i] == a.slots[i]
  {
  }

  /** frameCount never leaves 0..6: after n previews it is min(6, count + n). */
  lemma {:induction false} FeedCount(a: Accumulator, ds: seq<seq<byte>>)
    requires AccValid(a)
    ensures AccValid(Feed(a, ds)) && Feed(a, ds).count == Min(FRAME_COUNT, a.count + |ds|)
    decreases |ds|
  {
    if ds != [] {
      PreviewRule(a, ds[0]);
      FeedCount(Preview(a, ds[0]), ds[1..]);
    }
  }

  /** Preview frames go to consecutive slots from `count` in arrival order;
      the slots below `count` and those beyond the last stored frame keep
      their contents, and frames arriving when all six are full are dropped. */
  lemma {:induction false} FeedSlots(a: Accumulator, ds: seq<seq<byte>>)
    requires AccValid(a)
    ensures forall i | 0 <= i < FRAME_COUNT ::
              Feed(a, ds).slots[i] == if a.count <= i < a.count + |ds| then Some(ds[i - a.count]) else a.slots[i]
    decreases |ds|
  {
    if ds != [] {
      var b := Preview(a, ds[0]);
      PreviewRule(a, ds[0]);
      FeedSlots(b, ds[1..]);
      forall i | 0 <= i < FRAME_COUNT
        ensures Feed(a, ds).slots[i] == if a.count <= i < a.count + |ds| then Some(ds[i - a.count]) else a.slots[i]
      {
        if a.count < FRAME_COUNT && a.count < i < a.count + |ds| {
          assert ds[1..][i - b.count] == ds[i - a.count];
        }
      }
    }
  }

  /** With all six slots full, further preview frames change nothing. */
  lemma {:induction false} FeedWhenFull(a: Accumulator, ds: seq<seq<byte>>)
    requires |a.slots| == FRAME_COUNT && a.count == FRAME_COUNT
    ensures Feed(a, ds) == a
    decreases |ds|
  {
    if ds != [] {
      FeedWhenFull(Preview(a, ds[0]), ds[1..]);
    }
  }

  /** After a reset, six preview frames fill slots 0..5 in arrival order,
      whatever the slots held, and any later ones are dropped. */
  lemma RefillAfterReset(slots: seq<Option<seq<byte>>>, ds: seq<seq<byte>>)
    requires |slots| == FRAME_COUNT && |ds| >= FRAME_COUNT
    ensures var r := Feed(Accumulator(slots, 0), ds);
            AccValid(r) && r.count == FRAME_COUNT && Filled(r) == ds[..FRAME_COUNT]
  {
    var a := Accumulator(slots, 0);
    FeedCount(a, ds);
    FeedSlots(a, ds);
    var r := Feed(a, ds);
    assert Filled(r) == ds[..FRAME_COUNT] by {
      forall i | 0 <= i < FRAME_COUNT ensures Filled(r)[i] == ds[i] {
        assert r.slots[i] == Some(ds[i]);
      }
    }
  }

  // ---------------------------------------------------------------------------
  // mergeFrames
  // ---------------------------------------------------------------------------

  /** What a press of the merge button does: nothing but a "Waiting for 6
      frames" toast unless six frames are held; otherwise the mosaic is built
      and queued, or mergeNV21Frames throws. */
  datatype MergeOutcome = WaitingForFrames | Merged | MergeFailed(error: MergeError)

  /** mergeFrames on values: the new accumulator, the new queue and the
      outcome. */
  function MergeStep(a: Accumulator, q: seq<seq<byte>>, w: nat, h: nat): (r: (Accumulator, seq<seq<byte>>, MergeOutcome))
    requires AccValid(a) && (a.count == FRAME_COUNT ==> |q| < CAPACITY)
    ensures AccValid(r.0) && r.0.slots == a.slots
    ensures |q| <= CAPACITY ==> |r.1| <= CAPACITY
  {
    if a.count != FRAME_COUNT then (a, q, WaitingForFrames)
    else if !LongEnough(Filled(a), w, h) then (a, q, MergeFailed(IndexOutOfBounds))
    else (a.(count := 0), Enqueue(q, MergedFrame(Filled(a), w, h)), Merged)
  }

  /** mergeFrames leaves slots, count and queue alone unless six frames are
      held; a merge appends exactly one mosaic of the six slots, in slot
      order, to the tail of the queue and resets the count while leaving the
      slots alone; a failed merge changes nothing. The queue stays within its
      capacity and the accumulator stays valid. */
  lemma MergeRule(a: Accumulator, q: seq<seq<byte>>, w: nat, h: nat)
    requires AccValid(a) && (a.count == FRAME_COUNT ==> |q| < CAPACITY) && |q| <= CAPACITY
    ensures var (a', q', outcome) := MergeStep(a, q, w, h);
            AccValid(a') && |q'| <= CAPACITY && a'.slots == a.slots &&
            (outcome == WaitingForFrames <==> a.count != FRAME_COUNT) &&
            (outcome != Merged ==> a' == a && q' == q) &&
            (outcome == Merged <==> a.count == FRAME_COUNT && Mergeable(Filled(a), w, h)) &&
            (outcome == Merged ==> a'.count == 0 && |q'| == |q| + 1 && q'[..|q|] == q &&
                                   q'[|q|] == MergedFrame(Filled(a), w, h))
  {
  }

  /** The cycle the activity goes through: from a reset, six preview frames
      and a press of the merge button queue the mosaic of exactly those six
      frames and leave the count at 0 for the next six. */
  lemma SixFramesThenMerge(slots: seq<Option<seq<byte>>>, ds: seq<seq<byte>>, q: seq<seq<byte>>, w: nat, h: nat)
    requires |slots| == FRAME_COUNT && |ds| == FRAME_COUNT && |q| < CAPACITY && LongEnough(ds, w, h)
    ensures var a := Feed(Accumulator(slots, 0), ds);
            AccValid(a) && a.count == FRAME_COUNT &&
            var (a', q', outcome) := MergeStep(a, q, w, h);
            outcome == Merged && a'.count == 0 && q' == q + [MergedFrame(ds, w, h)]
  {
    FeedCount(Accumulator(slots, 0), ds);
    RefillAfterReset(slots, ds);
    assert ds[..FRAME_COUNT] == ds;
  }

  // ---------------------------------------------------------------------------
  // The activity
  // ---------------------------------------------------------------------------

  class MainActivity {
    var frames: array<Option<seq<byte>>>
    var frameCount: nat
    var frameWidth: nat
    var frameHeight: nat
    var frameQueue: FrameQueue

    ghost predicate Valid()
      reads this, frames, frameQueue
    {
      frames.Length == FRAME_COUNT && AccValid(State()) && frameQueue.Valid()
    }

    function State(): Accumulator
      reads this, frames
    {
      Accumulator(frames[..], frameCount)
    }

    /** The fields as onCreate and setupCamera leave them: six null slots, a
        count of 0, an empty queue, and the camera's preview size. */
    constructor (frameWidth: nat, frameHeight: nat)
      ensures Valid() && fresh(frames) && fresh(frameQueue)
      ensures State() == Accumulator(seq(FRAME_COUNT, _ => None), 0) && frameQueue.items == []
      ensures this.frameWidth == frameWidth && this.frameHeight == frameHeight
    {
      frames := new Option<seq<byte>>[FRAME_COUNT](_ => None);
      frameCount := 0;
      this.frameWidth := frameWidth;
      this.frameHeight := frameHeight;
      frameQueue := new FrameQueue();
    }

    /** Camera.PreviewCallback.onPreviewFrame: the slot keeps its own copy of
        the frame's bytes. */
    method OnPreviewFrame(data: seq<byte>)
      requires Valid()
      modifies this, frames
      ensures Valid() && State() == Preview(old(State()), data)
      ensures frames == old(frames) && frameQueue == old(frameQueue) && unchanged(frameQueue)
      ensures frameWidth == old(frameWidth) && frameHeight == old(frameHeight)
    {
      if frameCount < FRAME_COUNT {
        frames[frameCount] := Some(data);
        frameCount := frameCount + 1;
      }
    }

    /** mergeFrames. The mosaic is put on the queue before the count is reset;
        an exception from mergeNV21Frames leaves before either. */
    method MergeFrames() returns (outcome: MergeOutcome)
      requires Valid() && FitsInt(frameWidth, frameHeight)
      requires frameCount == FRAME_COUNT ==> |frameQueue.items| < CAPACITY
      modifies this, frameQueue
      ensures Valid() && frames == old(frames) && frameQueue == old(frameQueue)
      ensures frameWidth == old(frameWidth) && frameHeight == old(frameHeight)
      ensures (State(), frameQueue.items, outcome) == MergeStep(old(State()), old(frameQueue.items), frameWidth, frameHeight)
    {
      if frameCount == FRAME_COUNT {
        var r := MergeNV21Frames(Filled(State()), frameWidth, frameHeight);
        if r.Err? {
          return MergeFailed(r.error);
        }
        frameQueue.Put(r.value[..]);
        frameCount := 0;
        outcome := Merged;
      } else {
        outcome := WaitingForFrames;
      }
    }
  }
}
