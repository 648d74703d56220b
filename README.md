# NV21 mosaic pipeline and floating timer, in Dafny

This project models four pieces of the cmder/Demos Android code.

- **The NV21 mosaic merger** (`NV21Merger.mergeNV21Frames`, module `FrameMerger`).
  - It takes six `w x h` NV21 frames and copies them into one `3w x 2h` NV21 buffer: a luma (Y) plane, then an interleaved VU plane at half vertical resolution.
  - The frames sit in a 3-column, 2-row grid.
  - The method keeps the source's fresh array and its nested row-copy loops (`System.arraycopy` becomes `ArrayCopy`).
  - It is proved against `MergedFrame`, a byte-by-byte reference definition. `MergedFrame` says, for every position of the mosaic, which source byte it holds (`OriginOf`).
  - The lemmas then prove:
    - the luma and VU byte mappings;
    - the mapping read from the mosaic's side;
    - that each byte is written at most once, and exactly once for an even height.
- **The control logic of `NV21Merger.encodeToMp4`** (module `EncodePipeline`).
  - MediaCodec and MediaMuxer are replaced by what the loop sees of them and by what it asks of them.
  - Each turn of the polling loop is an `Iteration`. It is either an empty poll, or a frame together with the input slot the encoder hands out and the output buffers it returns.
  - Each call the loop makes on the encoder or the muxer is an `Effect` appended to a log.
  - `EncodeToMp4` keeps the two nested loops. It is proved equal to `Encode`, a recursive state-machine definition.
  - The lemmas prove, about `Encode`:
    - the timestamps;
    - the config-before-samples gate;
    - the release of every buffer;
    - the teardown;
    - exactly when the call returns normally.
- **MainActivity's frame accumulator and frame queue** (module `NV21Activity`).
  - The six `frames` slots, `frameCount`, `mergeFrames` and the `ArrayBlockingQueue` of capacity 10 form a class whose methods update its fields.
  - Each method is tied to a value-level function (`Preview`, `MergeStep`, `Enqueue`, `Dequeue`). The lemmas about those functions state the counting, slot, drop-when-full, reset and FIFO rules.
- **FloatingTimerService's update runnable** (module `FloatingTimer`).
  - `UpdateTimer` is a pure function from the elapsed milliseconds to a reading (seconds, minutes, or hours and minutes) and a repost delay of 10 s or 60 s.
  - `Render` turns the reading into the text that `setText` receives.
  - `Decode` reads a text back; it is the inverse that shows different readings give different texts.
  - The service class holds `startTime`, the text and the pending repost. The clock is a parameter.

Module `JavaInt` gives Java's integer semantics, which the models use where the source depends on them:
- `/` and `%` round toward zero;
- a narrowing `(int)` cast keeps the low 32 bits;
- `long` subtraction wraps.

## Model

| member | source | states |
|---|---|---|
| `FrameMerger.MergedFrame` | NV21Merger/app/src/main/java/com/cmder/nv21merger/NV21Merger.java:14-50 | The mosaic the method returns, defined byte by byte: `(3w)*(2h)*3/2` bytes, each the source byte `OriginOf` assigns to its position, or 0 where no row copy writes. |
| `FrameMerger.MergeNV21Frames` | NV21Merger/app/src/main/java/com/cmder/nv21merger/NV21Merger.java:14-50 | Fails with the frame-count error unless there are exactly six frames, and with an index error when a frame is shorter than the rows the copies read. Otherwise it returns a fresh array whose contents are `MergedFrame`. That array has length `(3w)*(2h)*3/2`. |
| `FrameMerger.CopyLumaTile` | NV21Merger/app/src/main/java/com/cmder/nv21merger/NV21Merger.java:28-36 | One pass of the Y loop copies the `h` luma rows of frame `i` to tile `i`. The rows written so far hold their source bytes, and every other byte is still 0. |
| `FrameMerger.CopyChromaTile` | NV21Merger/app/src/main/java/com/cmder/nv21merger/NV21Merger.java:39-47 | One pass of the VU loop copies the `h/2` VU rows of frame `i`, read from `w*h` on, to VU tile `i`. Everything before is kept. |
| `FrameMerger.ArrayCopy` | NV21Merger/app/src/main/java/com/cmder/nv21merger/NV21Merger.java:32 | `System.arraycopy` within bounds: the destination becomes its old contents with the source slice written over it at the destination position. |
| `FrameMerger.LumaAt` | NV21Merger/app/src/main/java/com/cmder/nv21merger/NV21Merger.java:28-36 | For every i < 6, y < h and x < w, mosaic byte `((i/3)*h*3w + (i%3)*w) + y*3w + x` is `frames[i][y*w + x]`, and both indices are in range. |
| `FrameMerger.ChromaAt` | NV21Merger/app/src/main/java/com/cmder/nv21merger/NV21Merger.java:39-47 | For every i < 6, y < h/2 and x < w, mosaic byte `3w*2h + (i/3)*h*3w/2 + (i%3)*w + y*3w + x` is `frames[i][w*h + y*w + x]`. |
| `FrameMerger.ChromaIndexRowColumn` | NV21Merger/app/src/main/java/com/cmder/nv21merger/NV21Merger.java:41 | For an even height, the VU tile-row offset `(i/3)*h*3w/2` is `(i/3)*(h/2)` whole mosaic rows. So VU byte (y, x) of frame i sits at row `(i/3)*(h/2) + y`, column `(i%3)*w + x` of the VU plane. |
| `FrameMerger.LumaPixel` | NV21Merger/app/src/main/java/com/cmder/nv21merger/NV21Merger.java:28-36 | Read from the mosaic's side: the luma byte at column X, row Y comes from frame `(Y/h)*3 + X/w`, at column `X%w` of its row `Y%h`. |
| `FrameMerger.WrittenExactlyOnce` | NV21Merger/app/src/main/java/com/cmder/nv21merger/NV21Merger.java:28-47 | A mosaic position is the target of at most one source byte. When h is even, every position is the target of exactly one of the twelve tiles' bytes. |
| `FrameMerger.OriginOfIndex` | NV21Merger/app/src/main/java/com/cmder/nv21merger/NV21Merger.java:28-47 | Every luma or VU source byte of the six frames is copied to a position inside the mosaic, and that position's origin is that byte. |
| `EncodePipeline.Encode` | NV21Merger/app/src/main/java/com/cmder/nv21merger/NV21Merger.java:72-118 | The call as a state machine over the loop's turns: the loop's log plus the teardown on a normal return, the log so far on an exception. An exception is "Muxer hasn't started", or the division by a zero frame rate. |
| `EncodePipeline.Handle` | NV21Merger/app/src/main/java/com/cmder/nv21merger/NV21Merger.java:93-108 | One dequeued buffer: it throws exactly for a sample buffer, non-config with non-zero size, while the muxer is not started, and then changes nothing. Otherwise its last call is `releaseOutputBuffer` of that index, after the calls made so far. The timestamp is never touched. |
| `EncodePipeline.Drain` | NV21Merger/app/src/main/java/com/cmder/nv21merger/NV21Merger.java:88-110 | The drain loop over the buffers of one turn. It keeps the timestamp, and the only exception it raises is "Muxer hasn't started". |
| `EncodePipeline.EncodeToMp4` | NV21Merger/app/src/main/java/com/cmder/nv21merger/NV21Merger.java:54-119 | The loops of encodeToMp4 produce exactly the outcome and call log of the state machine `Encode`. |
| `EncodePipeline.DrainOutputs` | NV21Merger/app/src/main/java/com/cmder/nv21merger/NV21Merger.java:88-110 | The drain loop is the state machine's `Drain` over the dequeued buffers, and it leaves the timestamp alone. |
| `EncodePipeline.Timestamps` | NV21Merger/app/src/main/java/com/cmder/nv21merger/NV21Merger.java:70-86 | The k-th frame queued to the encoder gets timestamp `k * (1000000 / frameRate)`. Empty polls and frames without an input slot take none. On a normal return every frame that got a slot was queued. |
| `EncodePipeline.TimestampsIncrease` | NV21Merger/app/src/main/java/com/cmder/nv21merger/NV21Merger.java:84-85 | For `1 <= frameRate <= 1000000` the queued timestamps strictly increase. |
| `EncodePipeline.SamplesAfterStart` | NV21Merger/app/src/main/java/com/cmder/nv21merger/NV21Merger.java:93-105 | Every `writeSampleData` call uses the track `addTrack` returned and comes after a `muxer.start()` call. |
| `EncodePipeline.CompletesExactly` | NV21Merger/app/src/main/java/com/cmder/nv21merger/NV21Merger.java:72-110 | The call returns normally if and only if no sample buffer comes before the first codec-config buffer and, when some frame gets an input slot, the frame rate is not 0. Otherwise it throws `IllegalStateException`, or `ArithmeticException` for a zero frame rate. |
| `EncodePipeline.EveryBufferReleased` | NV21Merger/app/src/main/java/com/cmder/nv21merger/NV21Merger.java:98-108 | On a normal return, the released indices are all dequeued indices in dequeue order. The written indices are exactly those of the non-config buffers of non-zero size, so config and empty buffers are released unwritten. |
| `EncodePipeline.TeardownRule` | NV21Merger/app/src/main/java/com/cmder/nv21merger/NV21Merger.java:113-118 | On a normal return the log ends with encoder stop, encoder release, muxer stop only if the muxer was started, then muxer release, and no such call comes earlier. If an exception leaves the loop, none of these calls is made. |
| `NV21Activity.FrameQueue.constructor` | NV21Merger/app/src/main/java/com/cmder/nv21merger/MainActivity.java:43 | The queue starts empty and within its capacity of 10. |
| `NV21Activity.FrameQueue.Put` | NV21Merger/app/src/main/java/com/cmder/nv21merger/MainActivity.java:148 | `put` on a queue with room appends at the tail and keeps the length at most 10. |
| `NV21Activity.FrameQueue.Poll` | NV21Merger/app/src/main/java/com/cmder/nv21merger/NV21Merger.java:73 | `poll` removes and returns the head, or returns nothing from an empty queue. |
| `NV21Activity.FirstInFirstOut` | NV21Merger/app/src/main/java/com/cmder/nv21merger/MainActivity.java:43 | Polling until empty hands out what was queued and then what was put, in the order it was put. |
| `NV21Activity.Preview` | NV21Merger/app/src/main/java/com/cmder/nv21merger/MainActivity.java:129-134 | One preview frame on the slots and count. It keeps six slots and keeps the accumulator valid: count at most 6, and every slot below the count filled. |
| `NV21Activity.PreviewRule` | NV21Merger/app/src/main/java/com/cmder/nv21merger/MainActivity.java:129-134 | A preview frame goes into slot `frameCount` and advances the count when fewer than six are held, and is dropped otherwise. No other slot changes, and the accumulator stays valid. |
| `NV21Activity.FeedCount` | NV21Merger/app/src/main/java/com/cmder/nv21merger/MainActivity.java:130-132 | After n preview frames the count is `min(6, count + n)`, so it never leaves 0..6. |
| `NV21Activity.FeedSlots` | NV21Merger/app/src/main/java/com/cmder/nv21merger/MainActivity.java:129-134 | Preview frames fill consecutive slots from `frameCount` in arrival order, and the other slots keep their contents. |
| `NV21Activity.FeedWhenFull` | NV21Merger/app/src/main/java/com/cmder/nv21merger/MainActivity.java:130 | With six frames held, any further preview frames change neither slots nor count. |
| `NV21Activity.RefillAfterReset` | NV21Merger/app/src/main/java/com/cmder/nv21merger/MainActivity.java:129-153 | After a reset, the next six preview frames overwrite slots 0..5 in arrival order, whatever the slots held before. |
| `NV21Activity.MergeStep` | NV21Merger/app/src/main/java/com/cmder/nv21merger/MainActivity.java:145-157 | mergeFrames on values. The slots are never changed, the accumulator stays valid, and a queue within its capacity stays within it. |
| `NV21Activity.MergeRule` | NV21Merger/app/src/main/java/com/cmder/nv21merger/MainActivity.java:145-157 | Unless six frames are held, mergeFrames changes nothing. A merge appends exactly one mosaic of the six slots, in slot order, to the tail of the queue and resets the count. A failed merge changes nothing. The queue stays within capacity. |
| `NV21Activity.SixFramesThenMerge` | NV21Merger/app/src/main/java/com/cmder/nv21merger/MainActivity.java:129-157 | From a reset, six preview frames and a merge queue the mosaic of exactly those frames and leave the count at 0. |
| `NV21Activity.MainActivity.constructor` | NV21Merger/app/src/main/java/com/cmder/nv21merger/MainActivity.java:38-43 | Six empty slots, a count of 0, an empty queue, and the preview size. |
| `NV21Activity.MainActivity.OnPreviewFrame` | NV21Merger/app/src/main/java/com/cmder/nv21merger/MainActivity.java:129-134 | The slots and count become `Preview` of the old ones, and the queue is untouched. |
| `NV21Activity.MainActivity.MergeFrames` | NV21Merger/app/src/main/java/com/cmder/nv21merger/MainActivity.java:145-157 | The slots, count, queue and outcome become `MergeStep` of the old ones. |
| `FloatingTimer.UpdateTimer` | FloatingTimer/app/src/main/java/com/cmder/floatingtimer/FloatingTimerService.java:148-163 | For every `long` elapsed time, with the `(int)` cast wrapping, the reading and the delay. Minutes next to hours are in 0..59 with hours at least 1. Minutes alone are in 1..59. The delay is 10000 ms exactly for a seconds reading or a zero minute component next to hours, and 60000 ms otherwise. |
| `FloatingTimer.Render` | FloatingTimer/app/src/main/java/com/cmder/floatingtimer/FloatingTimerService.java:153-157 | The text `setText` receives. It ends in "秒" exactly for a seconds reading, and in "分钟" otherwise. It holds "小" exactly when it shows hours. |
| `FloatingTimer.Readings` | FloatingTimer/app/src/main/java/com/cmder/floatingtimer/FloatingTimerService.java:148-157 | Under a minute the reading is seconds, `elapsed/1000` rounded toward zero: 0..59 for non-negative times, -59..59 down to -1 minute. From 1 to 60 minutes it is `elapsed/60000` minutes, in 1..59. From an hour on it is `(elapsed/60000)/60` hours and `(elapsed/60000)%60` minutes, in 0..59. |
| `FloatingTimer.TimerTexts` | FloatingTimer/app/src/main/java/com/cmder/floatingtimer/FloatingTimerService.java:148-157 | The text of each branch: `elapsed/1000 + "秒"`, `elapsed/60000 + "分钟"`, `hours + "小时" + m + "分钟"`. |
| `FloatingTimer.WholeHourDelay` | FloatingTimer/app/src/main/java/com/cmder/floatingtimer/FloatingTimerService.java:150-163 | For non-negative times the delay is 10 s exactly in the first minute and in the first minute of every whole hour. |
| `FloatingTimer.DecodeRender` | FloatingTimer/app/src/main/java/com/cmder/floatingtimer/FloatingTimerService.java:153-157 | Every displayed text is decoded back to the reading it shows, so different readings are shown as different texts. |
| `FloatingTimer.DecimalRoundTrip` | FloatingTimer/app/src/main/java/com/cmder/floatingtimer/FloatingTimerService.java:153 | Java's decimal rendering of a number, in string concatenation, parses back to that number. |
| `FloatingTimer.FloatingTimerService.constructor` | FloatingTimer/app/src/main/java/com/cmder/floatingtimer/FloatingTimerService.java:29 | A new service has start time 0, the `long` field default, an empty text, and no pending run. |
| `FloatingTimer.FloatingTimerService.StartTimer` | FloatingTimer/app/src/main/java/com/cmder/floatingtimer/FloatingTimerService.java:140-143 | The start time becomes the clock reading, and the runnable is posted with no delay. |
| `FloatingTimer.FloatingTimerService.Run` | FloatingTimer/app/src/main/java/com/cmder/floatingtimer/FloatingTimerService.java:145-165 | The text becomes the rendering of `UpdateTimer(now - startTime)`, with the `long` subtraction wrapping, and the runnable is reposted with that update's delay. |
| `JavaInt.Div` | NV21Merger/app/src/main/java/com/cmder/nv21merger/NV21Merger.java:85 | Java's `/`: the remainder is smaller than the divisor in magnitude and has the sign of the dividend. |
| `JavaInt.Rem` | FloatingTimer/app/src/main/java/com/cmder/floatingtimer/FloatingTimerService.java:152 | Java's `%`: `(a/b)*b + a%b == a`, with the sign of `a`. |
| `JavaInt.ToInt32` | FloatingTimer/app/src/main/java/com/cmder/floatingtimer/FloatingTimerService.java:149 | The `(int)` cast agrees with its argument modulo 2^32 and is the identity on `int` values. |
| `JavaInt.ToInt64` | FloatingTimer/app/src/main/java/com/cmder/floatingtimer/FloatingTimerService.java:148 | The `long` result agrees with the exact difference modulo 2^64 and equals it when it fits. |

## Left out

- MediaCodec, MediaMuxer and ByteBuffer are not modelled: format setup, `getInputBuffers`/`getOutputBuffers`, `getOutputFormat`, `position`/`limit`, the copy into the input buffer, and the file the muxer writes. These are platform APIs. The model keeps only what the loop sees of them (input slot, output buffers with index, flags and size) and the calls it makes (the effect log).
- `dequeueInputBuffer(-1)` blocks until a slot is free; here the slot is part of the event. Exceptions the platform itself raises are not modelled. Examples: an input buffer too small for the frame, or a second `addTrack`/`start` after the muxer has started. A second config buffer therefore simply logs another `AddTrack` and `StartMuxer`.
- The static `isMerging` flag, the encoder thread and the busy polling are left out. They are concurrency. The loop consumes a finite list of turns, ending where the flag is seen cleared.
- `EncodePipeline.Timestamps`: `presentationTimeUs` is a `long`, held here as an unbounded integer. Wrap-around after 2^63 microseconds is not modelled.
- `FrameMerger.MergeNV21Frames`: it requires that `(3w)*(2h)*3` fits in an `int`. Java's overflow of the size products is not modelled. Negative widths or heights are excluded by the types; they come from the camera's preview size.
- `FrameMerger.MergeNV21Frames`: with a short frame, `System.arraycopy` throws after some rows were copied. The half-filled buffer is local to the method and is lost, so the model reports the error before copying.
- `NV21Activity.FrameQueue.Put` and `NV21Activity.MainActivity.MergeFrames` require a free place in the queue. The blocking of `ArrayBlockingQueue.put` on a full queue is concurrency and is not modelled.
- `NV21Activity.MainActivity.MergeFrames`: the queue holds the mosaic's contents, not a reference to the array. Nothing writes the array after it is queued, so no behaviour is lost.
- `nv21ToBitmap` (JPEG compression), the image view, the log line and the "Waiting for 6 frames" toast are UI. They are not modelled.
- Camera setup, `CameraPreview`, permissions and the activity lifecycle are not modelled.
- `FloatingTimer.Readings`, `FloatingTimer.TimerTexts` and `FloatingTimer.WholeHourDelay` are stated only for elapsed times whose minute count fits in an `int` (about 4000 years either way). Beyond that the `(int)` cast wraps. `UpdateTimer` does model the wrap, and its own contract (minute ranges and delay rule) holds for every `long`.
- The handler's message queue is reduced to the latest repost delay (`pendingDelay`). The clock `System.currentTimeMillis()` is the parameter `now`.
- The floating window, touch dragging (float coordinates and window-manager calls), notifications, `ScreenUnlockReceiver` and `SettingsActivity` are not modelled.

Two consequences of the code as written:
- `encodeToMp4` has no `finally` block. An `IllegalStateException` or an `ArithmeticException` thrown inside the loop therefore skips `encoder.stop`/`release` and `muxer.stop`/`release`, which `TeardownRule` states.
- At 30 frames per second the step is `1000000 / 30 = 33333`, so the 90th frame gets `89 * 33333 = 2966637` (`Timestamps`).
