/** The control logic of NV21Merger.encodeToMp4. MediaCodec and MediaMuxer are
    replaced by what the loop sees of them and by what it asks of them: each
    turn of the `while (isMerging)` loop is one Iteration (an empty poll, or a
    polled frame with the input slot the encoder hands out and the output
    buffers it then returns), and each call the loop makes on the encoder or
    the muxer is one Effect appended to a log. */
module EncodePipeline {
  import opened JavaInt

  /** MediaCodec.BUFFER_FLAG_CODEC_CONFIG. */
  const BUFFER_FLAG_CODEC_CONFIG: int := 2

  /** The numerator of the per-frame timestamp step. */
  const MICROS_PER_SECOND: int := 1000000

  /** One buffer returned by dequeueOutputBuffer: its index and the `flags`
      and `size` that BufferInfo reports with it. */
  datatype OutputBuffer = OutputBuffer(index: nat, flags: int32, size: int32)

  /** A codec-config buffer registers the track and starts the muxer. The test
      is equality with the flag, not a bit test. */
  predicate IsConfig(b: OutputBuffer) { b.flags == BUFFER_FLAG_CODEC_CONFIG }

  /** A buffer that is written to the muxer. */
  predicate IsSample(b: OutputBuffer) { !IsConfig(b) && b.size != 0 }

  /** One turn of the polling loop. `inputIndex` is what
      dequeueInputBuffer(-1) returned; `outputs` are the buffers that
      dequeueOutputBuffer returned before it first returned a negative value. */
  datatype Iteration =
    | EmptyPoll
    | Polled(frame: seq<byte>, inputIndex: int32, outputs: seq<OutputBuffer>)

  /** The calls the loop and the teardown make on the encoder and the muxer. */
  datatype Effect =
    | QueueInput(inputIndex: nat, length: nat, timeUs: int)
    | AddTrack
    | StartMuxer
    | WriteSample(track: int, bufferIndex: nat)
    | ReleaseOutput(bufferIndex: nat)
    | StopEncoder
    | ReleaseEncoder
    | StopMuxer
    | ReleaseMuxer

  predicate IsTeardown(e: Effect) {
    e.StopEncoder? || e.ReleaseEncoder? || e.StopMuxer? || e.ReleaseMuxer?
  }

  /** The exceptions the loop can raise: IllegalStateException("Muxer hasn't
      started") and the ArithmeticException of `1000000 / frameRate`. */
  datatype Failure = MuxerNotStarted | DivideByZero

  /** The local state of encodeToMp4 and the calls made so far. */
  datatype Session = Session(presentationTimeUs: int, trackIndex: int, muxerStarted: bool, log: seq<Effect>)

  const Init: Session := Session(0, -1, false, [])

  /** The state after a step; on failure, the state when the exception left. */
  datatype StepResult = Continue(s: Session) | Failed(failure: Failure, s: Session)

  /** What a whole call does: it returns after the teardown, or an exception
      leaves it, in which case no teardown call is made. */
  datatype Outcome = Completed(log: seq<Effect>) | Threw(failure: Failure, log: seq<Effect>)

  // ---------------------------------------------------------------------------
  // The state machine
  // ---------------------------------------------------------------------------

  /** The timestamp step, 1000000 / frameRate in Java's division; 0 when the
      division throws (no frame gets a later timestamp then). */
  function TimeStep(frameRate: int): int {
    if frameRate == 0 then 0 else Div(MICROS_PER_SECOND, frameRate)
  }

  /** The session after one more call on the encoder or the muxer. */
  function Emit(s: Session, e: Effect): Session {
    s.(log := s.log + [e])
  }

  /** Queueing a polled frame, when an input slot was handed out. */
  function Submit(s: Session, frame: seq<byte>, inputIndex: int, frameRate: int): StepResult {
    if inputIndex < 0 then Continue(s)
    else
      var queued := Emit(s, QueueInput(inputIndex, |frame|, s.presentationTimeUs));
      if frameRate == 0 then Failed(DivideByZero, queued)
      else Continue(queued.(presentationTimeUs := s.presentationTimeUs + TimeStep(frameRate)))
  }

  /** Handling one dequeued output buffer: the three-way branch on its flags
      and size, then releaseOutputBuffer. */
  function Handle(s: Session, b: OutputBuffer, track: int): (r: StepResult)
    ensures r.Failed? <==> IsSample(b) && !s.muxerStarted
    ensures r.Failed? ==> r.failure == MuxerNotStarted && r.s == s
    ensures r.s.presentationTimeUs == s.presentationTimeUs
    ensures r.Continue? ==> s.log < r.s.log && r.s.log[|r.s.log| - 1] == ReleaseOutput(b.index)
  {
    var r :=
      if IsConfig(b) then
        Continue(Emit(Emit(s, AddTrack), StartMuxer).(trackIndex := track, muxerStarted := true))
      else if b.size != 0 then
        if !s.muxerStarted then Failed(MuxerNotStarted, s)
        else Continue(Emit(s, WriteSample(s.trackIndex, b.index)))
      else
        Continue(s);
    if r.Failed? then r else Continue(Emit(r.s, ReleaseOutput(b.index)))
  }

  /** The drain loop over the buffers dequeued in one turn. */
  function Drain(s: Session, bs: seq<OutputBuffer>, track: int): (r: StepResult)
    ensures r.s.presentationTimeUs == s.presentationTimeUs
    ensures r.Failed? ==> r.failure == MuxerNotStarted
    decreases |bs|
  {
    if bs == [] then Continue(s)
    else
      match Handle(s, bs[0], track)
      case Continue(s1) => Drain(s1, bs[1..], track)
      case Failed(f, s1) => Failed(f, s1)
  }

  function Step(s: Session, e: Iteration, frameRate: int, track: int): StepResult {
    match e
    case EmptyPoll => Continue(s)
    case Polled(frame, inputIndex, outputs) =>
      match Submit(s, frame, inputIndex, frameRate)
      case Continue(s1) => Drain(s1, outputs, track)
      case Failed(f, s1) => Failed(f, s1)
  }

  /** The polling loop over the turns it makes before isMerging is cleared. */
  function Run(s: Session, events: seq<Iteration>, frameRate: int, track: int): StepResult
    decreases |events|
  {
    if events == [] then Continue(s)
    else
      match Step(s, events[0], frameRate, track)
      case Continue(s1) => Run(s1, events[1..], frameRate, track)
      case Failed(f, s1) => Failed(f, s1)
  }

  /** The calls after the loop: muxer.stop() only when the muxer was started. */
  function Teardown(muxerStarted: bool): seq<Effect> {
    [StopEncoder, ReleaseEncoder] + (if muxerStarted then [StopMuxer] else []) + [ReleaseMuxer]
  }

  /** encodeToMp4 as a function of the turns of its loop; `track` is what
      muxer.addTrack returns. */
  function Encode(events: seq<Iteration>, frameRate: int, track: int): (o: Outcome)
    ensures o.Threw? ==> o.failure == MuxerNotStarted || (o.failure == DivideByZero && frameRate == 0)
  {
    match Run(Init, events, frameRate, track)
    case Continue(s) => Completed(s.log + Teardown(s.muxerStarted))
    case Failed(f, s) =>
      RunDivides(Init, events, frameRate, track);
      Threw(f, s.log)
  }

  /** encodeToMp4 written as the loops it is made of. */
  method EncodeToMp4(events: seq<Iteration>, frameRate: int, track: int) returns (outcome: Outcome)
    ensures outcome == Encode(events, frameRate, track)
  {
    var presentationTimeUs := 0;
    var trackIndex := -1;
    var muxerStarted := false;
    var log: seq<Effect> := [];
    var k := 0;
    while k < |events|
      invariant k <= |events|
      invariant Run(Init, events, frameRate, track)
             == Run(Session(presentationTimeUs, trackIndex, muxerStarted, log), events[k..], frameRate, track)
      decreases |events| - k
    {
      assert events[k..][1..] == events[k + 1..];
      match events[k] {
      case EmptyPoll =>
      case Polled(frame, inputIndex, outputs) =>
        if inputIndex >= 0 {
          log := log + [QueueInput(inputIndex, |frame|, presentationTimeUs)];
          if frameRate == 0 {
            return Threw(DivideByZero, log);
          }
          presentationTimeUs := presentationTimeUs + TimeStep(frameRate);
        }
        var drained := DrainOutputs(Session(presentationTimeUs, trackIndex, muxerStarted, log), outputs, track);
        if drained.Failed? {
          return Threw(drained.failure, drained.s.log);
        }
        trackIndex, muxerStarted, log := drained.s.trackIndex, drained.s.muxerStarted, drained.s.log;
      }
      k := k + 1;
    }
    log := log + [StopEncoder, ReleaseEncoder];
    if muxerStarted {
      log := log + [StopMuxer];
    }
    log := log + [ReleaseMuxer];
    outcome := Completed(log);
  }

  /** The drain loop of encodeToMp4: dequeue, handle and release output
      buffers until dequeueOutputBuffer returns a negative index. */
  method DrainOutputs(s: Session, outputs: seq<OutputBuffer>, track: int) returns (r: StepResult)
    ensures r == Drain(s, outputs, track)
    ensures r.s.presentationTimeUs == s.presentationTimeUs
  {
    var current := s;
    var j := 0;
    while j < |outputs|
      invariant j <= |outputs|
      invariant current.presentationTimeUs == s.presentationTimeUs
      invariant Drain(s, outputs, track) == Drain(current, outputs[j..], track)
    {
      assert outputs[j..][1..] == outputs[j + 1..];
      var b := outputs[j];
      if b.flags == BUFFER_FLAG_CODEC_CONFIG {
        current := current.(trackIndex := track, muxerStarted := true,
                            log := current.log + [AddTrack] + [StartMuxer]);
      } else if b.size != 0 {
        if !current.muxerStarted {
          return Failed(MuxerNotStarted, current);
        }
        current := current.(log := current.log + [WriteSample(current.trackIndex, b.index)]);
      }
      current := current.(log := current.log + [ReleaseOutput(b.index)]);
      j := j + 1;
    }
    r := Continue(current);
  }

  // ---------------------------------------------------------------------------
  // Views of the log and of the event stream
  // ---------------------------------------------------------------------------

  /** The timestamps handed to queueInputBuffer, in order. */
  function QueuedTimes(log: seq<Effect>): seq<int>
    decreases |log|
  {
    if log == [] then []
    else QueuedTimes(log[..|log| - 1]) + (if log[|log| - 1].QueueInput? then [log[|log| - 1].timeUs] else [])
  }

  /** The buffer indices handed to releaseOutputBuffer, in order. */
  function Released(log: seq<Effect>): seq<nat>
    decreases |log|
  {
    if log == [] then []
    else Released(log[..|log| - 1]) + (if log[|log| - 1].ReleaseOutput? then [log[|log| - 1].bufferIndex] else [])
  }

  /** The buffer indices handed to writeSampleData, in order. */
  function Written(log: seq<Effect>): seq<nat>
    decreases |log|
  {
    if log == [] then []
    else Written(log[..|log| - 1]) + (if log[|log| - 1].WriteSample? then [log[|log| - 1].bufferIndex] else [])
  }

  /** Every writeSampleData call goes to `track` and comes after a
      muxer.start() call. */
  predicate SamplesGated(log: seq<Effect>, track: int)
    decreases |log|
  {
    log == [] ||
    var before, e := log[..|log| - 1], log[|log| - 1];
    SamplesGated(before, track) && (e.WriteSample? ==> e.track == track && StartMuxer in before)
  }

  /** What each call of the loop respects: it is not a teardown call, a
      sample goes to `track` after muxer.start(), and the k-th queued frame
      gets timestamp k * step. */
  predicate EffectOk(before: seq<Effect>, e: Effect, track: int, step: int) {
    && !IsTeardown(e)
    && (e.WriteSample? ==> e.track == track && StartMuxer in before)
    && (e.QueueInput? ==> e.timeUs == Multiple(|QueuedTimes(before)|, step))
  }

  /** k * step, as the running sum the loop keeps. */
  function Multiple(k: nat, step: int): int
  {
    if k == 0 then 0 else Multiple(k - 1, step) + step
  }

  lemma {:induction false} MultipleIsProduct(k: nat, step: int)
    ensures Multiple(k, step) == k * step
  {
    if k > 0 {
      MultipleIsProduct(k - 1, step);
    }
  }

  predicate LogOk(log: seq<Effect>, track: int, step: int)
    decreases |log|
  {
    log == [] || (LogOk(log[..|log| - 1], track, step) && EffectOk(log[..|log| - 1], log[|log| - 1], track, step))
  }

  /** Every output buffer the encoder returns, across all turns. */
  function AllOutputs(events: seq<Iteration>): seq<OutputBuffer>
    decreases |events|
  {
    if events == [] then []
    else (if events[0].Polled? then events[0].outputs else []) + AllOutputs(events[1..])
  }

  /** How many turns get an input slot for their frame. */
  function Submissions(events: seq<Iteration>): nat
    decreases |events|
  {
    if events == [] then 0
    else (if events[0].Polled? && events[0].inputIndex >= 0 then 1 else 0) + Submissions(events[1..])
  }

  function Indices(bs: seq<OutputBuffer>): seq<nat>
    decreases |bs|
  {
    if bs == [] then [] else [bs[0].index] + Indices(bs[1..])
  }

  function SampleIndices(bs: seq<OutputBuffer>): seq<nat>
    decreases |bs|
  {
    if bs == [] then [] else (if IsSample(bs[0]) then [bs[0].index] else []) + SampleIndices(bs[1..])
  }

  predicate HasConfig(bs: seq<OutputBuffer>)
    decreases |bs|
  {
    bs != [] && (IsConfig(bs[0]) || HasConfig(bs[1..]))
  }

  /** A sample buffer arrives before any codec-config buffer. */
  predicate SampleBeforeConfig(bs: seq<OutputBuffer>)
    decreases |bs|
  {
    bs != [] && !IsConfig(bs[0]) && (IsSample(bs[0]) || SampleBeforeConfig(bs[1..]))
  }

  // ---------------------------------------------------------------------------
  // Lemmas about the views
  // ---------------------------------------------------------------------------

  /** One more call, seen through each view. */
  lemma EmitViews(log: seq<Effect>, e: Effect, track: int, step: int)
    ensures QueuedTimes(log + [e]) == QueuedTimes(log) + (if e.QueueInput? then [e.timeUs] else [])
    ensures Released(log + [e]) == Released(log) + (if e.ReleaseOutput? then [e.bufferIndex] else [])
    ensures Written(log + [e]) == Written(log) + (if e.WriteSample? then [e.bufferIndex] else [])
    ensures SamplesGated(log + [e], track) == (SamplesGated(log, track) && (e.WriteSample? ==> e.track == track && StartMuxer in log))
    ensures LogOk(log + [e], track, step) == (LogOk(log, track, step) && EffectOk(log, e, track, step))
  {
    assert (log + [e])[..|log|] == log;
  }

  /** Calls that none of the views records leave them as they are. */
  lemma {:induction false} InertViews(log: seq<Effect>, more: seq<Effect>, track: int)
    requires forall e | e in more :: !e.QueueInput? && !e.ReleaseOutput? && !e.WriteSample?
    ensures QueuedTimes(log + more) == QueuedTimes(log)
    ensures Released(log + more) == Released(log)
    ensures Written(log + more) == Written(log)
    ensures SamplesGated(log + more, track) == SamplesGated(log, track)
    decreases |more|
  {
    if more == [] {
      assert log + more == log;
    } else {
      var init := more[..|more| - 1];
      assert log + more == (log + init) + [more[|more| - 1]];
      InertViews(log, init, track);
      EmitViews(log + init, more[|more| - 1], track, 0);
    }
  }

  /** A log the loop produced: samples gated, no teardown call, and the k-th
      queued frame at k * step. */
  lemma {:induction false} LogOkFacts(log: seq<Effect>, track: int, step: int)
    requires LogOk(log, track, step)
    ensures SamplesGated(log, track)
    ensures forall e | e in log :: !IsTeardown(e)
    ensures forall k | 0 <= k < |QueuedTimes(log)| :: QueuedTimes(log)[k] == Multiple(k, step)
    decreases |log|
  {
    if log != [] {
      var before, e := log[..|log| - 1], log[|log| - 1];
      assert log == before + [e];
      LogOkFacts(before, track, step);
      EmitViews(before, e, track, step);
    }
  }

  lemma {:induction false} IndicesAppend(a: seq<OutputBuffer>, b: seq<OutputBuffer>)
    ensures Indices(a + b) == Indices(a) + Indices(b)
    decreases |a|
  {
    if a == [] {
      assert a + b == b;
    } else {
      var x, rest := a[0], a[1..];
      assert (a + b)[0] == x && (a + b)[1..] == rest + b;
      assert Indices(a + b) == [x.index] + Indices(rest + b);
      IndicesAppend(rest, b);
    }
  }

  lemma {:induction false} SampleIndicesAppend(a: seq<OutputBuffer>, b: seq<OutputBuffer>)
    ensures SampleIndices(a + b) == SampleIndices(a) + SampleIndices(b)
    decreases |a|
  {
    if a == [] {
      assert a + b == b;
    } else {
      var x, rest := a[0], a[1..];
      assert (a + b)[0] == x && (a + b)[1..] == rest + b;
      var head := if IsSample(x) then [x.index] else [];
      assert SampleIndices(a + b) == head + SampleIndices(rest + b);
      assert SampleIndices(a) == head + SampleIndices(rest);
      SampleIndicesAppend(rest, b);
    }
  }

  lemma {:induction false} ConfigAppend(a: seq<OutputBuffer>, b: seq<OutputBuffer>)
    ensures SampleBeforeConfig(a + b) == (SampleBeforeConfig(a) || (!HasConfig(a) && SampleBeforeConfig(b)))
    ensures HasConfig(a + b) == (HasConfig(a) || HasConfig(b))
    decreases |a|
  {
    if a == [] {
      assert a + b == b;
    } else {
      var x, rest := a[0], a[1..];
      assert a + b == [x] + (rest + b);
      ConfigAppend(rest, b);
    }
  }

  // ---------------------------------------------------------------------------
  // The invariant the loop keeps
  // ---------------------------------------------------------------------------

  /** What holds of the session at every turn: the log respects EffectOk, the
      started flag records a muxer.start() call, the remembered track is the
      one addTrack returned, and the next frame is due at |queued| * step. */
  predicate Consistent(s: Session, track: int, step: int) {
    && LogOk(s.log, track, step)
    && (s.muxerStarted <==> StartMuxer in s.log)
    && (s.muxerStarted ==> s.trackIndex == track)
    && s.presentationTimeUs == Multiple(|QueuedTimes(s.log)|, step)
  }

  lemma SubmitConsistent(s: Session, frame: seq<byte>, inputIndex: int, frameRate: int, track: int)
    requires Consistent(s, track, TimeStep(frameRate))
    ensures var r := Submit(s, frame, inputIndex, frameRate);
            Consistent(r.s, track, TimeStep(frameRate)) && r.s.muxerStarted == s.muxerStarted &&
            Released(r.s.log) == Released(s.log) && Written(r.s.log) == Written(s.log) &&
            (r.Failed? <==> inputIndex >= 0 && frameRate == 0) && (r.Failed? ==> r.failure == DivideByZero)
  {
    if inputIndex >= 0 {
      EmitViews(s.log, QueueInput(inputIndex, |frame|, s.presentationTimeUs), track, TimeStep(frameRate));
    }
  }

  /** A codec-config buffer: addTrack, muxer.start(), release. */
  lemma HandleConfig(s: Session, b: OutputBuffer, track: int, step: int)
    requires Consistent(s, track, step) && IsConfig(b)
    ensures var log := s.log + [AddTrack] + [StartMuxer] + [ReleaseOutput(b.index)];
            var s1 := Session(s.presentationTimeUs, track, true, log);
            Handle(s, b, track) == Continue(s1) && Consistent(s1, track, step) &&
            Released(log) == Released(s.log) + [b.index] && Written(log) == Written(s.log)
  {
    EmitViews(s.log, AddTrack, track, step);
    EmitViews(s.log + [AddTrack], StartMuxer, track, step);
    EmitViews(s.log + [AddTrack] + [StartMuxer], ReleaseOutput(b.index), track, step);
  }

  /** A sample buffer once the muxer runs: writeSampleData, release. */
  lemma HandleSample(s: Session, b: OutputBuffer, track: int, step: int)
    requires Consistent(s, track, step) && IsSample(b) && s.muxerStarted
    ensures var log := s.log + [WriteSample(s.trackIndex, b.index)] + [ReleaseOutput(b.index)];
            Handle(s, b, track) == Continue(s.(log := log)) && Consistent(s.(log := log), track, step) &&
            Released(log) == Released(s.log) + [b.index] && Written(log) == Written(s.log) + [b.index]
  {
    EmitViews(s.log, WriteSample(s.trackIndex, b.index), track, step);
    EmitViews(s.log + [WriteSample(s.trackIndex, b.index)], ReleaseOutput(b.index), track, step);
  }

  /** Any other buffer of size 0: only released. */
  lemma HandleEmpty(s: Session, b: OutputBuffer, track: int, step: int)
    requires Consistent(s, track, step) && !IsConfig(b) && b.size == 0
    ensures var log := s.log + [ReleaseOutput(b.index)];
            Handle(s, b, track) == Continue(s.(log := log)) && Consistent(s.(log := log), track, step) &&
            Released(log) == Released(s.log) + [b.index] && Written(log) == Written(s.log)
  {
    EmitViews(s.log, ReleaseOutput(b.index), track, step);
  }

  lemma HandleConsistent(s: Session, b: OutputBuffer, track: int, step: int)
    requires Consistent(s, track, step)
    ensures var r := Handle(s, b, track);
            Consistent(r.s, track, step) && (r.Failed? ==> r.failure == MuxerNotStarted) &&
            (r.Failed? <==> IsSample(b) && !s.muxerStarted) &&
            (r.Continue? ==> r.s.muxerStarted == (s.muxerStarted || IsConfig(b)) &&
                             Released(r.s.log) == Released(s.log) + [b.index] &&
                             Written(r.s.log) == Written(s.log) + (if IsSample(b) then [b.index] else []))
  {
    if IsConfig(b) {
      HandleConfig(s, b, track, step);
    } else if b.size == 0 {
      HandleEmpty(s, b, track, step);
    } else if s.muxerStarted {
      HandleSample(s, b, track, step);
    }
  }

  lemma {:induction false} DrainConsistent(s: Session, bs: seq<OutputBuffer>, track: int, step: int)
    requires Consistent(s, track, step)
    ensures var r := Drain(s, bs, track);
            Consistent(r.s, track, step) && (r.Failed? ==> r.failure == MuxerNotStarted) &&
            (r.Continue? <==> s.muxerStarted || !SampleBeforeConfig(bs)) &&
            (r.Continue? ==> r.s.muxerStarted == (s.muxerStarted || HasConfig(bs)))
    decreases |bs|
  {
    if bs != [] {
      HandleConsistent(s, bs[0], track, step);
      match Handle(s, bs[0], track)
      case Continue(s1) =>
        DrainConsistent(s1, bs[1..], track, step);
      case Failed(f, s1) =>
    }
  }

  /** What one buffer adds to the released and written indices. */
  lemma HandleViews(s: Session, b: OutputBuffer, track: int)
    ensures var r := Handle(s, b, track);
            r.Continue? ==> Released(r.s.log) == Released(s.log) + [b.index] &&
                            Written(r.s.log) == Written(s.log) + (if IsSample(b) then [b.index] else [])
  {
    var release := ReleaseOutput(b.index);
    if IsConfig(b) {
      var log1 := s.log + [AddTrack];
      var log2 := log1 + [StartMuxer];
      assert Handle(s, b, track).s.log == log2 + [release];
      EmitViews(s.log, AddTrack, track, 0);
      EmitViews(log1, StartMuxer, track, 0);
      EmitViews(log2, release, track, 0);
    } else if b.size == 0 {
      assert Handle(s, b, track).s.log == s.log + [release];
      EmitViews(s.log, release, track, 0);
    } else if s.muxerStarted {
      var log1 := s.log + [WriteSample(s.trackIndex, b.index)];
      assert Handle(s, b, track).s.log == log1 + [release];
      EmitViews(s.log, WriteSample(s.trackIndex, b.index), track, 0);
      EmitViews(log1, release, track, 0);
    }
  }

  lemma {:induction false} DrainViews(s: Session, bs: seq<OutputBuffer>, track: int)
    ensures var r := Drain(s, bs, track);
            r.Continue? ==> Released(r.s.log) == Released(s.log) + Indices(bs) &&
                            Written(r.s.log) == Written(s.log) + SampleIndices(bs)
    decreases |bs|
  {
    if bs != [] {
      var b, rest := bs[0], bs[1..];
      var r1 := Handle(s, b, track);
      if r1.Continue? {
        HandleViews(s, b, track);
        var r := Drain(r1.s, rest, track);
        assert Drain(s, bs, track) == r;
        DrainViews(r1.s, rest, track);
        if r.Continue? {
          var first := if IsSample(b) then [b.index] else [];
          assert Indices(bs) == [b.index] + Indices(rest);
          assert SampleIndices(bs) == first + SampleIndices(rest);
          assert Released(r.s.log) == Released(s.log) + [b.index] + Indices(rest);
          assert Written(r.s.log) == Written(s.log) + first + SampleIndices(rest);
        }
      }
    }
  }

  lemma StepConsistent(s: Session, e: Iteration, frameRate: int, track: int)
    requires Consistent(s, track, TimeStep(frameRate))
    ensures var r := Step(s, e, frameRate, track);
            var bs, n := if e.Polled? then e.outputs else [], if e.Polled? && e.inputIndex >= 0 then 1 else 0;
            Consistent(r.s, track, TimeStep(frameRate)) &&
            (r.Failed? ==> r.failure == MuxerNotStarted || frameRate == 0) &&
            (r.Continue? <==> (s.muxerStarted || !SampleBeforeConfig(bs)) && (frameRate != 0 || n == 0)) &&
            (r.Continue? ==> r.s.muxerStarted == (s.muxerStarted || HasConfig(bs)) &&
                             Released(r.s.log) == Released(s.log) + Indices(bs) &&
                             Written(r.s.log) == Written(s.log) + SampleIndices(bs))
  {
    match e
    case EmptyPoll =>
    case Polled(frame, inputIndex, outputs) =>
      SubmitConsistent(s, frame, inputIndex, frameRate, track);
      match Submit(s, frame, inputIndex, frameRate)
      case Continue(s1) =>
        DrainConsistent(s1, outputs, track, TimeStep(frameRate));
        DrainViews(s1, outputs, track);
      case Failed(f, s1) =>
  }

  lemma {:induction false} RunConsistent(s: Session, events: seq<Iteration>, frameRate: int, track: int)
    requires Consistent(s, track, TimeStep(frameRate))
    ensures var r := Run(s, events, frameRate, track);
            var bs := AllOutputs(events);
            Consistent(r.s, track, TimeStep(frameRate)) &&
            (r.Failed? ==> r.failure == MuxerNotStarted || frameRate == 0) &&
            (r.Continue? <==> (s.muxerStarted || !SampleBeforeConfig(bs)) && (frameRate != 0 || Submissions(events) == 0)) &&
            (r.Continue? ==> r.s.muxerStarted == (s.muxerStarted || HasConfig(bs)))
    decreases |events|
  {
    if events != [] {
      var e := events[0];
      StepConsistent(s, e, frameRate, track);
      ConfigAppend(if e.Polled? then e.outputs else [], AllOutputs(events[1..]));
      match Step(s, e, frameRate, track)
      case Continue(s1) =>
        RunConsistent(s1, events[1..], frameRate, track);
      case Failed(f, s1) =>
    }
  }

  lemma StepViews(s: Session, e: Iteration, frameRate: int, track: int)
    ensures var r := Step(s, e, frameRate, track);
            var bs := if e.Polled? then e.outputs else [];
            r.Continue? ==> Released(r.s.log) == Released(s.log) + Indices(bs) &&
                            Written(r.s.log) == Written(s.log) + SampleIndices(bs)
  {
    match e
    case EmptyPoll =>
    case Polled(frame, inputIndex, outputs) =>
      var submitted := Submit(s, frame, inputIndex, frameRate);
      if submitted.Continue? {
        if inputIndex >= 0 {
          var queue := QueueInput(inputIndex, |frame|, s.presentationTimeUs);
          assert submitted.s.log == s.log + [queue];
          EmitViews(s.log, queue, track, 0);
        } else {
          assert submitted.s == s;
        }
        assert Step(s, e, frameRate, track) == Drain(submitted.s, outputs, track);
        DrainViews(submitted.s, outputs, track);
      }
  }

  lemma {:induction false} RunViews(s: Session, events: seq<Iteration>, frameRate: int, track: int)
    ensures var r := Run(s, events, frameRate, track);
            r.Continue? ==> Released(r.s.log) == Released(s.log) + Indices(AllOutputs(events)) &&
                            Written(r.s.log) == Written(s.log) + SampleIndices(AllOutputs(events))
    decreases |events|
  {
    if events != [] {
      var e, rest := events[0], events[1..];
      var first := if e.Polled? then e.outputs else [];
      var r1 := Step(s, e, frameRate, track);
      if r1.Continue? {
        StepViews(s, e, frameRate, track);
        assert Run(s, events, frameRate, track) == Run(r1.s, rest, frameRate, track);
        assert AllOutputs(events) == first + AllOutputs(rest);
        RunViews(r1.s, rest, frameRate, track);
        IndicesAppend(first, AllOutputs(rest));
        SampleIndicesAppend(first, AllOutputs(rest));
      }
    }
  }

  // ---------------------------------------------------------------------------
  // What encodeToMp4 promises
  // ---------------------------------------------------------------------------

  /** The loop's final state, and that its log is one the loop can produce. */
  lemma RunFacts(events: seq<Iteration>, frameRate: int, track: int)
    ensures var r := Run(Init, events, frameRate, track);
            Consistent(r.s, track, TimeStep(frameRate)) &&
            (r.Failed? ==> r.failure == MuxerNotStarted || frameRate == 0) &&
            (r.Continue? <==> !SampleBeforeConfig(AllOutputs(events)) && (frameRate != 0 || Submissions(events) == 0)) &&
            (r.Continue? ==> Released(r.s.log) == Indices(AllOutputs(events)) &&
                             Written(r.s.log) == SampleIndices(AllOutputs(events)))
  {
    assert QueuedTimes([]) == [] && Released([]) == [] && Written([]) == [];
    assert Consistent(Init, track, TimeStep(frameRate));
    RunConsistent(Init, events, frameRate, track);
    RunViews(Init, events, frameRate, track);
  }

  /** The teardown calls are seen by none of the views. */
  lemma TeardownInert(log: seq<Effect>, muxerStarted: bool, track: int)
    ensures var t := Teardown(muxerStarted);
            QueuedTimes(log + t) == QueuedTimes(log) && Released(log + t) == Released(log) &&
            Written(log + t) == Written(log) && SamplesGated(log + t, track) == SamplesGated(log, track)
  {
    InertViews(log, Teardown(muxerStarted), track);
  }

  /** The k-th frame submitted to the encoder gets timestamp
      k * (1000000 / frameRate); turns with an empty poll or without an input
      slot consume none. When the call returns, every submission was queued. */
  lemma Timestamps(events: seq<Iteration>, frameRate: int, track: int)
    ensures var o := Encode(events, frameRate, track);
            var q := QueuedTimes(o.log);
            (forall k | 0 <= k < |q| :: q[k] == k * TimeStep(frameRate)) &&
            (o.Completed? ==> |q| == Submissions(events))
  {
    RunFacts(events, frameRate, track);
    var r := Run(Init, events, frameRate, track);
    LogOkFacts(r.s.log, track, TimeStep(frameRate));
    TeardownInert(r.s.log, r.s.muxerStarted, track);
    var q := QueuedTimes(r.s.log);
    forall k | 0 <= k < |q| ensures q[k] == k * TimeStep(frameRate) {
      MultipleIsProduct(k, TimeStep(frameRate));
    }
    if r.Continue? {
      SubmissionsQueued(Init, events, frameRate, track);
    }
  }

  lemma {:induction false} SubmissionsQueued(s: Session, events: seq<Iteration>, frameRate: int, track: int)
    requires Run(s, events, frameRate, track).Continue?
    ensures |QueuedTimes(Run(s, events, frameRate, track).s.log)| == |QueuedTimes(s.log)| + Submissions(events)
    decreases |events|
  {
    if events != [] {
      var e := events[0];
      StepQueues(s, e, frameRate, track);
      match Step(s, e, frameRate, track)
      case Continue(s1) =>
        SubmissionsQueued(s1, events[1..], frameRate, track);
    }
  }

  lemma StepQueues(s: Session, e: Iteration, frameRate: int, track: int)
    ensures var n := if e.Polled? && e.inputIndex >= 0 then 1 else 0;
            Step(s, e, frameRate, track).Continue? ==>
              |QueuedTimes(Step(s, e, frameRate, track).s.log)| == |QueuedTimes(s.log)| + n
  {
    match e
    case EmptyPoll =>
    case Polled(frame, inputIndex, outputs) =>
      var s1 := Submit(s, frame, inputIndex, frameRate).s;
      if inputIndex >= 0 {
        EmitViews(s.log, QueueInput(inputIndex, |frame|, s.presentationTimeUs), track, 0);
      }
      DrainQueuesNothing(s1, outputs, track);
  }

  lemma {:induction false} DrainQueuesNothing(s: Session, bs: seq<OutputBuffer>, track: int)
    ensures QueuedTimes(Drain(s, bs, track).s.log) == QueuedTimes(s.log)
    decreases |bs|
  {
    if bs != [] {
      HandleQueuesNothing(s, bs[0], track);
      match Handle(s, bs[0], track)
      case Continue(s1) => DrainQueuesNothing(s1, bs[1..], track);
      case Failed(f, s1) =>
    }
  }

  lemma HandleQueuesNothing(s: Session, b: OutputBuffer, track: int)
    ensures QueuedTimes(Handle(s, b, track).s.log) == QueuedTimes(s.log)
  {
    var r := ReleaseOutput(b.index);
    if IsConfig(b) {
      var log1 := s.log + [AddTrack] + [StartMuxer];
      assert Handle(s, b, track).s.log == log1 + [r];
      EmitViews(s.log, AddTrack, track, 0);
      EmitViews(s.log + [AddTrack], StartMuxer, track, 0);
      EmitViews(log1, r, track, 0);
    } else if b.size != 0 && s.muxerStarted {
      var w := WriteSample(s.trackIndex, b.index);
      assert Handle(s, b, track).s.log == s.log + [w] + [r];
      EmitViews(s.log, w, track, 0);
      EmitViews(s.log + [w], r, track, 0);
    } else if b.size == 0 {
      assert Handle(s, b, track).s.log == s.log + [r];
      EmitViews(s.log, r, track, 0);
    }
  }

  /** With 1 <= frameRate <= 1000000 the step is at least 1, so the queued
      timestamps strictly increase. */
  lemma TimestampsIncrease(events: seq<Iteration>, frameRate: int, track: int)
    requires 1 <= frameRate <= MICROS_PER_SECOND
    ensures var q := QueuedTimes(Encode(events, frameRate, track).log);
            forall i, j | 0 <= i < j < |q| :: q[i] < q[j]
  {
    var step := TimeStep(frameRate);
    assert step >= 1;
    Timestamps(events, frameRate, track);
    var q := QueuedTimes(Encode(events, frameRate, track).log);
    forall i, j | 0 <= i < j < |q| ensures q[i] < q[j] {
      assert q[j] - q[i] == (j - i) * step;
      MulAtLeast(j - i, step);
    }
  }

  lemma MulAtLeast(a: int, b: int)
    requires a >= 1 && b >= 0
    ensures a * b >= b
  {
    assert a * b == (a - 1) * b + b;
  }

  /** writeSampleData is only called after muxer.start(), and always with the
      track that addTrack returned. */
  lemma SamplesAfterStart(events: seq<Iteration>, frameRate: int, track: int)
    ensures SamplesGated(Encode(events, frameRate, track).log, track)
  {
    RunFacts(events, frameRate, track);
    var r := Run(Init, events, frameRate, track);
    LogOkFacts(r.s.log, track, TimeStep(frameRate));
    TeardownInert(r.s.log, r.s.muxerStarted, track);
  }

  /** The call returns normally exactly when no sample buffer comes before the
      first codec-config buffer and, if some frame gets an input slot, the
      frame rate is not 0. The exception is IllegalStateException, or the
      ArithmeticException of a zero frame rate. */
  lemma CompletesExactly(events: seq<Iteration>, frameRate: int, track: int)
    ensures var o := Encode(events, frameRate, track);
            (o.Completed? <==> !SampleBeforeConfig(AllOutputs(events)) && (frameRate != 0 || Submissions(events) == 0)) &&
            (o.Threw? ==> o.failure == MuxerNotStarted || (o.failure == DivideByZero && frameRate == 0))
  {
    RunFacts(events, frameRate, track);
  }

  lemma {:induction false} RunDivides(s: Session, events: seq<Iteration>, frameRate: int, track: int)
    ensures Run(s, events, frameRate, track).Failed? && Run(s, events, frameRate, track).failure == DivideByZero ==>
              frameRate == 0
    decreases |events|
  {
    if events != [] {
      var e := events[0];
      match Step(s, e, frameRate, track)
      case Continue(s1) =>
        RunDivides(s1, events[1..], frameRate, track);
      case Failed(f, s1) =>
    }
  }

  /** When the call returns, every dequeued output buffer was released, in
      the order dequeued, and exactly the non-config buffers of non-zero size
      were written; config and empty buffers are released unwritten. */
  lemma EveryBufferReleased(events: seq<Iteration>, frameRate: int, track: int)
    ensures var o := Encode(events, frameRate, track);
            o.Completed? ==> Released(o.log) == Indices(AllOutputs(events)) &&
                             Written(o.log) == SampleIndices(AllOutputs(events))
  {
    RunFacts(events, frameRate, track);
    var r := Run(Init, events, frameRate, track);
    TeardownInert(r.s.log, r.s.muxerStarted, track);
  }

  /** The teardown closes the call: the encoder is stopped and released and
      the muxer released, in that order, and the muxer is stopped exactly when
      it was started. If an exception leaves the loop, none of these calls is
      made. */
  lemma TeardownRule(events: seq<Iteration>, frameRate: int, track: int)
    ensures var o := Encode(events, frameRate, track);
            var t := Teardown(StartMuxer in o.log);
            (o.Completed? ==> |t| <= |o.log| && o.log[|o.log| - |t|..] == t &&
                              forall j | 0 <= j < |o.log| - |t| :: !IsTeardown(o.log[j])) &&
            (o.Completed? ==> (StopMuxer in o.log <==> StartMuxer in o.log)) &&
            (o.Threw? ==> forall e | e in o.log :: !IsTeardown(e))
  {
    RunFacts(events, frameRate, track);
    var r := Run(Init, events, frameRate, track);
    LogOkFacts(r.s.log, track, TimeStep(frameRate));
    if r.Continue? {
      var body, started := r.s.log, r.s.muxerStarted;
      var t := Teardown(started);
      var log := body + t;
      assert StartMuxer in log <==> started by {
        assert StartMuxer !in t;
      }
      assert log[|log| - |t|..] == t;
      forall j | 0 <= j < |log| - |t| ensures !IsTeardown(log[j]) {
        assert log[j] == body[j];
        assert body[j] in body;
      }
      assert StopMuxer in log <==> started by {
        assert StopMuxer !in body;
        assert StopMuxer in t <==> started;
      }
    }
  }
}
