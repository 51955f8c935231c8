/**
 * The video pipeline of code/video_setup.c: the two alarm callbacks of the
 * deadline watchdog, the acquisition (producer) task that plays a raw video
 * file into a two-slot buffer, and the processing (consumer) task that takes
 * a slot each time it is signalled.
 *
 * Time, preemption and the Xenomai primitives are not modelled. Alarms are
 * values saying how they were last armed; the event flag is a boolean; the
 * file is a byte sequence read through a cursor; `ctl->running`, which only
 * ever goes from true to false, is given as the number of checks that still
 * read true; the outcome of each event wait is an input.
 */
module VideoSetup {
  import opened Basics
  import opened Watchdog

  // Geometry and rates of code/video_setup.h.
  const Width: nat := 320
  const Height: nat := 240
  const Framerate: nat := 15
  const NbFrames: nat := 300
  const BytesPerPixel: nat := 4
  const NbVideoBuffers: nat := 2
  const SInNs: nat := 1000000000

  /** IMAGE_SIZE: bytes of one RGB0 frame. */
  const ImageSize: nat := Height * Width * BytesPerPixel
  /** THREEE_SECONDS: the delay of the recovery alarm. */
  const ThreeSecondsNs: nat := 3000000000
  /** period_in_ns of the acquisition task (unsigned division, truncating). */
  const PeriodNs: nat := SInNs / Framerate
  /** Delay of the deadline alarm armed before each read: one period plus 1000 ns. */
  const DeadlineNs: nat := PeriodNs + 1000
  /** buff_nb is an `unsigned`: each increment wraps modulo 2^32. */
  const UnsignedModulus: nat := 0x1_0000_0000
  /** Bytes main allocates for priv_video.buffer (code/main.c:170). */
  const BufferSize: nat := Height * Width * BytesPerPixel * NbVideoBuffers

  /**
   * An RT_ALARM as last set: stopped, or started with a first shot after
   * `valueNs` and interval TM_INFINITE (a single shot).
   */
  datatype Alarm = Disarmed | OneShot(valueNs: nat)

  /** 2^32 is even, so reducing modulo 2^32 keeps the parity that picks the slot. */
  lemma WrapKeepsParity(n: nat)
    ensures (n % UnsignedModulus) % NbVideoBuffers == n % NbVideoBuffers
  {
    // n = 2^32 * q + r and 2^32 * q = 2 * (2^31 * q), so n and r have the same parity.
  }

  /** buff_nb++ on an `unsigned`: wraps to 0 after 2^32 - 1, which keeps the slots alternating. */
  function NextCount(c: nat): (r: nat)
    ensures r < UnsignedModulus
    ensures c < UnsignedModulus - 1 ==> r == c + 1
    ensures r % NbVideoBuffers == (c + 1) % NbVideoBuffers
  {
    WrapKeepsParity(c + 1);
    (c + 1) % UnsignedModulus
  }

  /** Incrementing the wrapped counter follows the unbounded count of increments modulo 2^32. */
  lemma CounterTracksCount(n: nat)
    ensures NextCount(n % UnsignedModulus) == (n + 1) % UnsignedModulus
  {
  }

  /** The slot a counter value selects: buff_nb % NB_VIDEO_BUFFERS. */
  function Slot(c: nat): (s: nat)
    ensures s < NbVideoBuffers
    ensures s == (c % UnsignedModulus) % NbVideoBuffers
  {
    WrapKeepsParity(c);
    c % NbVideoBuffers
  }

  /** Byte offset of that slot in priv->buffer: IMAGE_SIZE * (buff_nb % NB_VIDEO_BUFFERS). */
  function SlotOffset(c: nat): (off: nat)
    ensures off + ImageSize <= BufferSize
    ensures off == 0 || off == ImageSize
  {
    ImageSize * Slot(c)
  }

  /** Number of whole frames in the raw video file. */
  function FullFrames(file: seq<bv8>): nat
  {
    |file| / ImageSize
  }

  /** A read of frame `frame` finds a whole frame exactly when it is one of the file's whole frames. */
  lemma WholeFrameAt(file: seq<bv8>, frame: nat)
    ensures ImageSize * frame + ImageSize <= |file| <==> frame < FullFrames(file)
  {
  }

  /**
   * Reads made by one complete pass over the file: the read loop stops after
   * NB_FRAMES reads, or earlier at the first short read.
   */
  function PassLength(file: seq<bv8>): (k: nat)
    ensures k <= NbFrames && k <= FullFrames(file)
    ensures k == NbFrames || k == FullFrames(file)
  {
    Min(FullFrames(file), NbFrames)
  }

  /**
   * The file frame that the i-th successful read (counting from 0) brings
   * in: passes of PassLength reads follow one another, each from frame 0.
   */
  function ShownFrame(file: seq<bv8>, i: nat): (k: nat)
    requires PassLength(file) > 0
    ensures k < PassLength(file)
    ensures i < PassLength(file) ==> k == i
    decreases i
  {
    if i < PassLength(file) then i else ShownFrame(file, i - PassLength(file))
  }

  /**
   * Looped playback: every PassLength reads the file is shown again from its
   * first frame. In particular, for a file of K whole frames with K at most
   * NB_FRAMES, read number 2K (counting from 0) brings in the first frame
   * again; frames after the first NB_FRAMES are never shown.
   */
  lemma LoopedPlayback(file: seq<bv8>, i: nat)
    requires PassLength(file) > 0
    ensures ShownFrame(file, PassLength(file) + i) == ShownFrame(file, i)
    ensures ShownFrame(file, i) < NbFrames
    ensures FullFrames(file) <= NbFrames ==> ShownFrame(file, 2 * FullFrames(file)) == 0
  {
    // With K <= NB_FRAMES whole frames the pass length is K, and read 2K is
    // one whole pass after read K, which is one whole pass after read 0.
  }

  /** Slot `slot` of the buffer holds the bytes of file frame `k`. */
  ghost predicate SlotHolds(buffer: seq<bv8>, slot: nat, file: seq<bv8>, k: nat)
  {
    && slot < NbVideoBuffers
    && |buffer| == BufferSize
    && ImageSize * (k + 1) <= |file|
    && forall j :: ImageSize * slot <= j < ImageSize * (slot + 1) ==>
         buffer[j] == file[ImageSize * k + (j - ImageSize * slot)]
  }

  /** The file frame brought in by the latest of `count` successful reads (0 when there is none). */
  function LastShown(file: seq<bv8>, count: nat): nat
  {
    if count == 0 || PassLength(file) == 0 then 0 else ShownFrame(file, count - 1)
  }

  /** After `count` successful reads, the slot of the latest one holds file frame `k` (vacuous before any read). */
  ghost predicate LatestHolds(buffer: seq<bv8>, count: nat, file: seq<bv8>, k: nat)
  {
    count > 0 ==> SlotHolds(buffer, Slot(count - 1), file, k)
  }

  /**
   * Slot `slot` has the same bytes in `before` and `after`. The buffer has
   * exactly two slots, so for the slot a read does not write this says that
   * no byte outside the written slot changes.
   */
  ghost predicate SlotKept(before: seq<bv8>, after: seq<bv8>, slot: nat)
  {
    && |before| == |after| == BufferSize
    && slot < NbVideoBuffers
    && forall j :: ImageSize * slot <= j < ImageSize * (slot + 1) ==> after[j] == before[j]
  }

  /** After `count` successful reads, the slot of the one before the latest holds file frame `k` (vacuous before two reads). */
  ghost predicate PreviousHolds(buffer: seq<bv8>, count: nat, file: seq<bv8>, k: nat)
  {
    count > 1 ==> SlotHolds(buffer, Slot(count - 2), file, k)
  }

  /** `readCount` successful reads make up whole passes with nothing over. */
  ghost predicate Aligned(file: seq<bv8>, readCount: nat)
    decreases readCount
  {
    || readCount == 0
    || (0 < PassLength(file) <= readCount && Aligned(file, readCount - PassLength(file)))
  }

  /** After whole passes, the next pass starts again from the first frame. */
  lemma {:induction false} AlignedShift(file: seq<bv8>, readCount: nat, i: nat)
    requires PassLength(file) > 0 && Aligned(file, readCount)
    ensures ShownFrame(file, readCount + i) == ShownFrame(file, i)
    decreases readCount
  {
    if readCount > 0 {
      AlignedShift(file, readCount - PassLength(file), i);
    }
  }

  /** A pass that made k reads, none past the end, ends on the file frame k - 1. */
  lemma PassEnd(file: seq<bv8>, readCount: nat, k: nat)
    requires k <= NbFrames && k <= FullFrames(file) && Aligned(file, readCount)
    ensures k <= PassLength(file)
    ensures k > 0 ==> ShownFrame(file, readCount + k - 1) == k - 1
  {
    if k > 0 {
      AlignedShift(file, readCount, k - 1);
    }
  }

  /** Priv_video_args_t: the state shared by the callbacks and the two video tasks. */
  class VideoArgs {
    /** priv->state, written only by the two alarm callbacks. */
    var state: PipelineState
    /** priv->alarm, the recovery alarm whose handler is alarm_handler. */
    var recoveryAlarm: Alarm
    /** priv->missed_deadline, the alarm whose handler is missed_deadline. */
    var deadlineAlarm: Alarm
    /** VIDEO_PROCESSING_FLAG of priv->event. */
    var eventPending: bool
    /** Number of times the flag was signalled. */
    ghost var signals: nat
    /** priv->buffer: NB_VIDEO_BUFFERS slots of IMAGE_SIZE bytes. */
    const buffer: array<bv8>

    ghost predicate Valid()
      reads this
    {
      buffer.Length == BufferSize
    }

    /**
     * The setup done in main. main.c leaves priv_video.state without an
     * initial value, so the initial state is a parameter here.
     */
    constructor (initial: PipelineState)
      ensures Valid() && fresh(buffer)
      ensures state == initial && recoveryAlarm == Disarmed && deadlineAlarm == Disarmed
      ensures !eventPending && signals == 0
    {
      state := initial;
      recoveryAlarm := Disarmed;
      deadlineAlarm := Disarmed;
      eventPending := false;
      signals := 0;
      buffer := new bv8[BufferSize];
    }

    /**
     * missed_deadline: one step toward STOPPED, then re-arm the recovery
     * alarm in every state. `logged` is the state announced on the console.
     */
    method MissedDeadline() returns (logged: Option<PipelineState>)
      modifies this`state, this`recoveryAlarm
      ensures state == OnMiss(old(state))
      ensures logged == (if state != old(state) then Some(state) else None)
      ensures recoveryAlarm == OneShot(ThreeSecondsNs)
    {
      logged := None;
      if state == Normal {
        logged := Some(Degraded);
        state := Degraded;
      } else if state == Degraded {
        logged := Some(Stopped);
        state := Stopped;
      }
      recoveryAlarm := OneShot(ThreeSecondsNs);
    }

    /**
     * alarm_handler: one step toward NORMAL, then re-arm the recovery alarm
     * in every state, NORMAL included.
     */
    method AlarmHandler() returns (logged: Option<PipelineState>)
      modifies this`state, this`recoveryAlarm
      ensures state == OnRecovery(old(state))
      ensures logged == (if state != old(state) then Some(state) else None)
      ensures recoveryAlarm == OneShot(ThreeSecondsNs)
    {
      logged := None;
      if state == Degraded {
        logged := Some(Normal);
        state := Normal;
      } else if state == Stopped {
        logged := Some(Degraded);
        state := Degraded;
      }
      recoveryAlarm := OneShot(ThreeSecondsNs);
    }
  }

  /**
   * fread(ptr, IMAGE_SIZE, 1, file) with the cursor at `pos`: copies up to
   * IMAGE_SIZE bytes to buffer[offset..], advances the cursor by as many and
   * returns 1 only when a whole frame was read.
   */
  method ReadFrame(buffer: array<bv8>, offset: nat, file: seq<bv8>, pos: nat) returns (items: nat, newPos: nat)
    requires pos <= |file| && offset + ImageSize <= buffer.Length
    modifies buffer
    ensures newPos == pos + Min(ImageSize, |file| - pos)
    ensures items == (if pos + ImageSize <= |file| then 1 else 0)
    ensures forall j :: 0 <= j < buffer.Length ==>
      buffer[j] == if offset <= j < offset + (newPos - pos) then file[pos + (j - offset)] else old(buffer[j])
  {
    var n := Min(ImageSize, |file| - pos);
    forall j | offset <= j < offset + n {
      buffer[j] := file[pos + (j - offset)];
    }
    newPos := pos + n;
    items := if n == ImageSize then 1 else 0;
  }

  /**
   * The body of the read loop after the `running` check
   * (code/video_setup.c:74-88): arm the deadline alarm, read into the slot
   * of `buffNb`; after a whole frame, advance the counter, signal the
   * processing task, wait for the period and stop the alarm. The cursor is
   * at file frame `frame`; `count` is the number of successful reads so far
   * and, when there was one, the latest of them brought in file frame `latest`.
   */
  method AcquireFrame(v: VideoArgs, file: seq<bv8>, pos: nat, frame: nat, buffNb: nat, count: nat, ghost latest: nat)
    returns (ok: bool, newPos: nat, newBuffNb: nat)
    requires v.Valid()
    requires pos == ImageSize * frame <= |file|
    requires buffNb == count % UnsignedModulus
    requires LatestHolds(v.buffer[..], count, file, latest)
    modifies v`deadlineAlarm, v`eventPending, v`signals, v.buffer
    ensures ok == (pos + ImageSize <= |file|) == (frame < FullFrames(file))
    ensures SlotKept(old(v.buffer[..]), v.buffer[..], 1 - Slot(count))
    ensures ok ==> && newPos == pos + ImageSize
                   && newBuffNb == (count + 1) % UnsignedModulus
                   && LatestHolds(v.buffer[..], count + 1, file, frame)
                   && PreviousHolds(v.buffer[..], count + 1, file, latest)
                   && v.signals == old(v.signals) + 1 && v.eventPending
                   && v.deadlineAlarm == Disarmed
    ensures !ok ==> && newBuffNb == buffNb
                    && LatestHolds(v.buffer[..], count, file, latest)
                    && v.signals == old(v.signals) && v.eventPending == old(v.eventPending)
                    && v.deadlineAlarm == OneShot(DeadlineNs)
  {
    WholeFrameAt(file, frame);
    v.deadlineAlarm := OneShot(DeadlineNs);
    ghost var before := v.buffer[..];
    var items;
    assert Slot(buffNb) == Slot(count);
    items, newPos := ReadFrame(v.buffer, SlotOffset(buffNb), file, pos);
    ok := items == 1;
    // The read writes only the slot of `count`; the other one, which holds
    // the latest frame once there was a read, stays intact.
    var other := 1 - Slot(count);
    forall j | ImageSize * other <= j < ImageSize * (other + 1)
      ensures v.buffer[..][j] == before[j]
    {
    }
    assert count > 0 ==> Slot(count - 1) == other;
    if !ok {
      newBuffNb := buffNb;
      return;
    }
    CounterTracksCount(count);
    newBuffNb := NextCount(buffNb);
    v.eventPending := true;
    v.signals := v.signals + 1;
    v.deadlineAlarm := Disarmed;
  }

  /**
   * One pass of the acquisition loop (code/video_setup.c:64-89): rewind the
   * file, then up to NB_FRAMES times check `running` and acquire a frame,
   * leaving the pass at the first short read. `readCount` is the number of
   * successful reads before this pass, `left` the number of checks of
   * `running` that still read true.
   */
  method AcquisitionPass(v: VideoArgs, file: seq<bv8>, buffNb: nat, readCount: nat, left: nat)
    returns (newBuffNb: nat, k: nat, newLeft: nat, shortRead: bool)
    requires v.Valid()
    requires buffNb == readCount % UnsignedModulus
    requires Aligned(file, readCount)
    requires LatestHolds(v.buffer[..], readCount, file, LastShown(file, readCount))
    modifies v`deadlineAlarm, v`eventPending, v`signals, v.buffer
    ensures k <= PassLength(file) <= NbFrames
    ensures k < PassLength(file) ==> newLeft == 0
    ensures newLeft + k <= left
    ensures k == Min(left, PassLength(file))
    ensures shortRead <==> FullFrames(file) < NbFrames && left > FullFrames(file)
    ensures newLeft == left - k - (if shortRead then 1 else 0)
    ensures newBuffNb == (readCount + k) % UnsignedModulus
    ensures v.signals == old(v.signals) + k
    ensures k > 0 ==> v.eventPending
    ensures k == 0 ==> v.eventPending == old(v.eventPending)
    ensures LatestHolds(v.buffer[..], readCount + k, file, LastShown(file, readCount + k))
    ensures shortRead ==> k == FullFrames(file) < NbFrames && v.deadlineAlarm == OneShot(DeadlineNs)
    ensures !shortRead && k > 0 ==> v.deadlineAlarm == Disarmed
    ensures !shortRead && k == 0 ==> v.deadlineAlarm == old(v.deadlineAlarm)
  {
    var pos := 0;
    newBuffNb, newLeft, shortRead := buffNb, left, false;
    ghost var latest := LastShown(file, readCount);
    var i := 0;
    while i < NbFrames
      invariant 0 <= i <= NbFrames && i <= FullFrames(file)
      invariant pos == ImageSize * i
      invariant newLeft + i == left
      invariant newBuffNb == (readCount + i) % UnsignedModulus
      invariant v.signals == old(v.signals) + i
      invariant i > 0 ==> latest == i - 1 && v.eventPending && v.deadlineAlarm == Disarmed
      invariant i == 0 ==> v.eventPending == old(v.eventPending) && v.deadlineAlarm == old(v.deadlineAlarm)
      invariant i == 0 ==> latest == LastShown(file, readCount)
      invariant LatestHolds(v.buffer[..], readCount + i, file, latest)
    {
      if newLeft == 0 {
        break;
      }
      newLeft := newLeft - 1;
      var ok;
      ok, pos, newBuffNb := AcquireFrame(v, file, pos, i, newBuffNb, readCount + i, latest);
      if !ok {
        shortRead := true;
        break;
      }
      latest := i;
      i := i + 1;
    }
    k := i;
    PassEnd(file, readCount, k);
    assert latest == LastShown(file, readCount + k);
  }

  /**
   * Successful reads of the acquisition loop when `c` checks of `running`
   * read true: each pass spends one check at the top of the outer loop and
   * one per read, plus one on the short read that ends a file with fewer
   * than NB_FRAMES whole frames.
   */
  function Reads(file: seq<bv8>, c: nat): (n: nat)
    ensures n <= c
    ensures PassLength(file) == 0 ==> n == 0
    decreases c
  {
    if c == 0 then 0
    else if c - 1 <= PassLength(file) then c - 1
    else PassLength(file) + Reads(file, c - 1 - PassLength(file) - (if FullFrames(file) < NbFrames then 1 else 0))
  }

  /** One more check of `running` that reads true never means fewer reads. */
  lemma {:induction false} ReadsGrowWithChecks(file: seq<bv8>, c: nat)
    ensures Reads(file, c) <= Reads(file, c + 1)
    decreases c
  {
    if c > 0 && c - 1 > PassLength(file) {
      ReadsGrowWithChecks(file, c - 1 - PassLength(file) - (if FullFrames(file) < NbFrames then 1 else 0));
    }
  }

  /**
   * video_acquisition_task (code/video_setup.c:45-95). `fileOpened` says whether
   * fopen succeeded; `checks` is the number of checks of `running` that read
   * true before the control task cleared the flag. Returns the number of
   * successful reads.
   */
  method VideoAcquisitionTask(v: VideoArgs, file: seq<bv8>, fileOpened: bool, checks: nat) returns (readCount: nat)
    requires v.Valid()
    modifies v`deadlineAlarm, v`eventPending, v`signals, v.buffer
    ensures !fileOpened ==> readCount == 0 && unchanged(v, v.buffer)
    ensures readCount <= checks
    ensures fileOpened ==> readCount == Reads(file, checks)
    ensures v.signals == old(v.signals) + readCount
    ensures readCount == 0 ==> v.eventPending == old(v.eventPending)
    ensures readCount > 0 ==> v.eventPending
    ensures FullFrames(file) == 0 ==> readCount == 0
    ensures readCount > 0 ==> PassLength(file) > 0 && SlotHolds(v.buffer[..], Slot(readCount - 1), file, ShownFrame(file, readCount - 1))
  {
    readCount := 0;
    if !fileOpened {
      return;
    }
    var buffNb := 0;
    var left := checks;
    while left > 0
      invariant readCount + left <= checks
      invariant readCount + Reads(file, left) == Reads(file, checks)
      invariant buffNb == readCount % UnsignedModulus
      invariant PassLength(file) == 0 ==> readCount == 0
      invariant left > 0 ==> Aligned(file, readCount)
      invariant v.signals == old(v.signals) + readCount
      invariant readCount == 0 ==> v.eventPending == old(v.eventPending)
      invariant readCount > 0 ==> v.eventPending
      invariant readCount > 0 ==> PassLength(file) > 0
      invariant LatestHolds(v.buffer[..], readCount, file, LastShown(file, readCount))
      decreases left
    {
      left := left - 1;
      var k, shortRead;
      buffNb, k, left, shortRead := AcquisitionPass(v, file, buffNb, readCount, left);
      assert k == PassLength(file) && k > 0 ==> Aligned(file, readCount + k);
      readCount := readCount + k;
    }
  }

  /** Number of waits in `waits` that were signalled rather than timed out. */
  function Delivered(waits: seq<bool>): (n: nat)
    ensures n <= |waits|
    decreases |waits|
  {
    if waits == [] then 0 else Delivered(waits[..|waits| - 1]) + (if waits[|waits| - 1] then 1 else 0)
  }

  /**
   * One iteration of the processing loop (code/video_setup.c:113-126): clear
   * the flag, wait for it; on a timeout nothing else happens, otherwise the
   * slot of the task's own counter is taken and the counter advanced.
   * `signalled` says that the wait did not return -ETIMEDOUT: any other
   * return, an error code included, also takes a slot. `slot` is the slot
   * converted and displayed.
   */
  method ProcessOnce(v: VideoArgs, signalled: bool, buffNb: nat) returns (newBuffNb: nat, slot: Option<nat>)
    modifies v`eventPending
    ensures !signalled ==> newBuffNb == buffNb && slot == None
    ensures signalled ==> newBuffNb == NextCount(buffNb) && slot == Some(Slot(buffNb))
    ensures v.eventPending == signalled
  {
    v.eventPending := false;
    if !signalled {
      newBuffNb, slot := buffNb, None;
      return;
    }
    // The model takes the flag as set on every return other than a timeout,
    // an error return included; the wait does not clear it.
    v.eventPending := true;
    slot := Some(Slot(buffNb));
    newBuffNb := NextCount(buffNb);
  }

  /**
   * video_processing_task (code/video_setup.c:97-128). `waits` holds the
   * outcome of the wait of each iteration that found `running` true.
   * Returns the final counter and the slots taken, in order.
   */
  method VideoProcessingTask(v: VideoArgs, waits: seq<bool>) returns (buffNb: nat, rendered: seq<nat>)
    modifies v`eventPending
    ensures |rendered| == Delivered(waits)
    ensures buffNb == Delivered(waits) % UnsignedModulus
    ensures forall j :: 0 <= j < |rendered| ==> rendered[j] == Slot(j)
    ensures v.eventPending == (if waits == [] then old(v.eventPending) else waits[|waits| - 1])
  {
    buffNb, rendered := 0, [];
    var i := 0;
    while i < |waits|
      invariant 0 <= i <= |waits|
      invariant |rendered| == Delivered(waits[..i])
      invariant buffNb == Delivered(waits[..i]) % UnsignedModulus
      invariant forall j :: 0 <= j < |rendered| ==> rendered[j] == Slot(j)
      invariant v.eventPending == (if i == 0 then old(v.eventPending) else waits[i - 1])
    {
      assert waits[..i + 1][..i] == waits[..i];
      var slot;
      CounterTracksCount(Delivered(waits[..i]));
      buffNb, slot := ProcessOnce(v, waits[i], buffNb);
      if slot.Some? {
        rendered := rendered + [slot.value];
      }
      i := i + 1;
    }
    assert waits[..i] == waits;
  }
}
