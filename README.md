# Video pipeline, deadline watchdog and overload control of a Xenomai demo

This project models the sequential decision logic of a Xenomai real-time
demo. The demo plays a raw RGB0 video file into a two-slot frame buffer,
converts each frame for the VGA output, and lets an operator burn CPU time to
provoke missed deadlines. Three parts are modelled:

- **Deadline watchdog** (`watchdog.dfy`, module `Watchdog`, and the two
  handler methods of `VideoSetup.VideoArgs`). The pipeline state is one of
  NORMAL, DEGRADED and STOPPED. `missed_deadline` moves it one step toward
  STOPPED. `alarm_handler` moves it one step toward NORMAL. Both always
  re-arm the 3 s one-shot recovery alarm.
- **Producer/consumer bookkeeping** (`video_setup.dfy`, module `VideoSetup`).
  The acquisition task rewinds the file and then makes up to NB_FRAMES reads
  per pass. Each read goes into slot `buff_nb % NB_VIDEO_BUFFERS` of a byte
  array of IMAGE_SIZE * NB_VIDEO_BUFFERS bytes. After a whole frame it wraps
  the unsigned counter, signals the event flag and stops the deadline alarm.
  The processing task takes the slot of its own counter after each wait that
  did not time out.
- **Control task** (`control.dfy`, module `Control`). On each poll, KEY0
  clears the run flag, KEY2 and KEY3 move the overload by 10 inside (0, 100),
  and SW0 edges are detected against the previous poll. While SW0 is on, the
  task asks for a burn of `current_overload * 1 ms`, computed in 64-bit
  unsigned arithmetic and passed as an `int`.

What stands in for the environment:

- Alarm firings are calls of the handler methods.
- An armed alarm is the value `OneShot(delay)`. TM_INFINITE means one shot.
- The event flag is a boolean field.
- The video file is a byte sequence read through a cursor. `fread` copies what
  is left (up to a frame) and returns 1 only for a whole frame.
- `ctl->running` only ever goes from true to false. For the video tasks it is
  given as the number of checks that still read true.
- The outcome of each event wait is an input: whether it returned something other than -ETIMEDOUT. Only -ETIMEDOUT skips the slot (code/video_setup.c:116), so an error return counts as signalled.
- The keys and switches of each poll are inputs.

## Behaviour of the source worth knowing

- The processing task converts slot `buff_nb % NB_VIDEO_BUFFERS` of its own
  counter `buff_nb` (code/video_setup.c:121), which advances once per wait
  that did not time out. Signals that coalesce, or that arrive while it is
  converting, make it lag the acquisition task's counter.
- Each pass over the file makes at most NB_FRAMES (300) reads before the
  `fseek` back to the start (code/video_setup.c:64-66). A file with more
  whole frames is replayed from its start after 300 frames, so its later
  frames are never shown (`LoopedPlayback`).
- The deadline alarm is stopped after the period wait, not right after the
  read (code/video_setup.c:87-88). After a short read it is left armed.
- A trailing partial frame is read with `fread`. The C standard leaves a
  partly read element indeterminate; C libraries copy the bytes that were
  there in practice, and `ReadFrame` assumes they do. Those bytes go into the
  slot that does not hold the latest frame.
- `alarm_handler` re-arms the recovery alarm on every firing, in NORMAL too
  (code/video_setup.c:42).
- KEY0 sets `ctl->running` to false (code/main.c:69-70). KEY2 and KEY3 move
  the overload by OVERLOAD_STEP only while the result stays strictly between
  MIN_OVERLOAD and MAX_OVERLOAD, so from OVERLOAD_BASE_VALUE it stays in
  [10, 90] (code/main.c:74-87).
- main.c never gives `priv_video.state` an initial value and never creates
  the two alarms (code/main.c:167-172). The constructor of `VideoArgs`
  therefore takes the initial state as a parameter. An RT_ALARM that was
  never created cannot be started, and the code ignores what
  `rt_alarm_start` returns (code/video_setup.c:29, 42, 74), so as written
  neither callback can fire. The model's `OneShot` values record the calls
  the code makes, as if the alarms had been created.

## Model

| member | source | states |
|---|---|---|
| `Watchdog.Level` | code/video_setup.h:43-47 | the enumeration values NORMAL = 0, DEGRADED = 1, STOPPED = 2; only NORMAL is 0 and only STOPPED is 2 |
| `Watchdog.OnMiss` | code/video_setup.c:22-28 | a miss raises the level by one, capped at STOPPED |
| `Watchdog.OnRecovery` | code/video_setup.c:35-41 | a recovery firing lowers the level by one, floored at NORMAL |
| `Watchdog.ReplayConcat` | code/video_setup.c:19-43 | replaying two runs of callbacks in turn equals replaying their concatenation |
| `Watchdog.MissesSaturate` | code/video_setup.c:22-28 | n misses in a row give level min(level + n, 2) |
| `Watchdog.FiringsClimb` | code/video_setup.c:35-41 | n recovery firings in a row give level max(level - n, 0) |
| `Watchdog.ThreeMissesStop` | code/video_setup.c:22-28 | from NORMAL, any three or more misses give STOPPED |
| `Watchdog.StoppedAbsorbsMisses` | code/video_setup.c:25-28 | once STOPPED, any number of misses leaves it STOPPED |
| `Watchdog.RecoveredAfterLevelFirings` | code/video_setup.c:35-41 | with no miss, n firings give NORMAL exactly when n is at least the starting level (two from STOPPED) |
| `Watchdog.MissUndoesFiring` | code/video_setup.c:19-43 | outside NORMAL, a miss right after a firing returns to the state before the firing |
| `Watchdog.MissBetweenFiringsNeedsThird` | code/video_setup.c:19-43 | from STOPPED two firings recover; with a miss between them, two firings leave DEGRADED and a third gives NORMAL |
| `Watchdog.ReplayWithinCounts` | code/video_setup.c:19-43 | after any run of callbacks the level lies between start minus firings and start plus misses |
| `VideoSetup.VideoArgs.constructor` | code/main.c:167-172 | a buffer of IMAGE_SIZE * NB_VIDEO_BUFFERS bytes, both alarms disarmed, no pending event, the given state |
| `VideoSetup.VideoArgs.MissedDeadline` | code/video_setup.c:19-30 | the state becomes OnMiss of the old one; the switch is logged exactly when the state changed; the recovery alarm is set to a 3 000 000 000 ns one-shot in every state |
| `VideoSetup.VideoArgs.AlarmHandler` | code/video_setup.c:32-43 | the state becomes OnRecovery of the old one; the switch is logged exactly when the state changed; the recovery alarm is set to a 3 000 000 000 ns one-shot, NORMAL included |
| `VideoSetup.NextCount` | code/video_setup.c:84 | the unsigned increment stays below 2^32, is a plain +1 below the wrap, and always moves to the next slot parity |
| `VideoSetup.WrapKeepsParity` | code/video_setup.c:77-84 | reducing a count modulo 2^32 does not change the slot it selects, because 2^32 is a multiple of NB_VIDEO_BUFFERS |
| `VideoSetup.CounterTracksCount` | code/video_setup.c:84 | the wrapped counter advanced once equals the unbounded count plus one, modulo 2^32 |
| `VideoSetup.Slot` | code/video_setup.c:77 | the slot index is below NB_VIDEO_BUFFERS and is the same whether taken of the wrapped or the unbounded count |
| `VideoSetup.SlotOffset` | code/video_setup.c:77-78 | the write offset plus IMAGE_SIZE never exceeds the IMAGE_SIZE * NB_VIDEO_BUFFERS bytes main allocates |
| `VideoSetup.WholeFrameAt` | code/video_setup.c:77-82 | a read at frame k finds a whole frame exactly when k is below the number of whole frames in the file |
| `VideoSetup.PassLength` | code/video_setup.c:66-82 | a complete pass makes at most NB_FRAMES reads and at most as many as the file has whole frames, and stops at the first of the two |
| `VideoSetup.ShownFrame` | code/video_setup.c:64-89 | the file frame brought in by the i-th read is below the pass length, and is i itself during the first pass |
| `VideoSetup.LoopedPlayback` | code/video_setup.c:62-89 | playback repeats every pass length; only the first NB_FRAMES frames are ever shown; with K at most NB_FRAMES whole frames, read 2K shows the first frame again |
| `VideoSetup.AlignedShift` | code/video_setup.c:62-66 | after whole passes the next read starts again from the first frame |
| `VideoSetup.PassEnd` | code/video_setup.c:64-89 | a pass of k reads, none past the last whole frame, is within the pass length and its last read brought in file frame k - 1 |
| `VideoSetup.ReadFrame` | code/video_setup.c:77-78 | fread copies the remaining bytes (at most IMAGE_SIZE) at the cursor to the slot and leaves every other byte unchanged; the cursor advances by as many; the result is 1 only for a whole frame |
| `VideoSetup.AcquireFrame` | code/video_setup.c:74-88 | the deadline alarm is armed at period + 1000 ns before the read; only the slot of `buff_nb % NB_VIDEO_BUFFERS` is written, the other slot keeps every byte; on a whole frame the slot holds that frame and the other slot still holds the frame read before it, the counter advances, one signal is sent and the alarm is stopped; on a short read the counter and signals are unchanged, the latest frame's slot is intact and the alarm stays armed |
| `VideoSetup.AcquisitionPass` | code/video_setup.c:64-89 | a pass makes exactly min(checks left, pass length) successful reads, at most NB_FRAMES; it ends on a short read exactly when the file has fewer than NB_FRAMES whole frames and a check is left for the read past the last one; it spends one check per read plus one on the short read; it signals exactly once per successful read; the latest slot holds the frame ShownFrame gives |
| `VideoSetup.VideoAcquisitionTask` | code/video_setup.c:45-95 | without the file nothing changes; with it the number of successful reads is exactly Reads of the checks of `running` that read true; signals equal successful reads; an empty file gives no read; the latest slot holds the looped-playback frame of the last read |
| `VideoSetup.Reads` | code/video_setup.c:62-90 | the reads of the acquisition loop, reference function: never more than the checks of `running` that read true, none for a file without a whole frame |
| `VideoSetup.ReadsGrowWithChecks` | code/video_setup.c:62-90 | one more check of `running` that reads true never gives fewer reads |
| `VideoSetup.Delivered` | code/video_setup.c:115-119 | the waits that were signalled are at most all the waits |
| `VideoSetup.ProcessOnce` | code/video_setup.c:113-126 | a timeout leaves the counter unchanged and takes no slot; a signalled wait takes the slot of the counter and advances it once |
| `VideoSetup.VideoProcessingTask` | code/video_setup.c:97-128 | the counter advances once per signalled wait (wrapped at 2^32); the j-th slot taken is j % NB_VIDEO_BUFFERS, always a valid slot |
| `Control.Adjust` | code/main.c:74-87 | KEY2 alone adds OVERLOAD_STEP when the result stays below MAX_OVERLOAD and otherwise leaves the overload; KEY3 alone subtracts it when the result stays above MIN_OVERLOAD and otherwise leaves it; no key leaves it unchanged; it stays in (0, 100) as a multiple of 10 and moves at most one step |
| `Control.PollsKeepOverloadInRange` | code/main.c:62-106 | any sequence of polls keeps a reachable overload reachable |
| `Control.OverloadFromBaseStaysInRange` | code/main.c:42-45 | from OVERLOAD_BASE_VALUE, after any polls, the overload is a multiple of 10 in [10, 90] |
| `Control.IncrementBeforeDecrement` | code/main.c:74-87 | with KEY2 and KEY3 held, the increment is tried first (at 90 the result is 80; at 10 it is 10); the reverse order would give 90 and 20 |
| `Control.ChangedStateIffSw0Differs` | code/main.c:89 | `changed_state` is nonzero exactly when SW0 differs from the previous poll |
| `Control.ToInt` | code/utils/busy_cpu.c:18 | the `int` parameter of busy_cpu is the 32-bit two's-complement value congruent to the argument modulo 2^32, and the argument itself when it is below 2^31 |
| `Control.BurnDuration` | code/main.c:96 | for every reachable overload there is no wrap-around: the burn is overload * 1 000 000 ns, positive and at most 90 000 000 |
| `Control.BurnAtMatches` | code/main.c:91-101 | from a reachable overload, the burn of any poll of a run is asked exactly when SW0 is on and lasts at most 90 000 000 ns |
| `Control.BurnsOfMatch` | code/main.c:62-106 | from a reachable overload, every burn of the first n polls is the one asked at that poll, asked exactly when SW0 is on and at most 90 000 000 ns |
| `Control.BurnsOfAt` | code/main.c:62-106 | the i-th busy duration of the first n polls is the one asked at poll i: overload after that poll times 1 ms while SW0 is on |
| `Control.BurnsOfNextPoll` | code/main.c:62-106 | one more poll appends exactly that poll's busy duration |
| `Control.OverloadAfterNextPoll` | code/main.c:74-87 | one more poll applies Adjust once more, with that poll's keys |
| `Control.PollsTakenIs` | code/main.c:62-71 | a loop that stopped after n polls, with no KEY0 before the last and KEY0 at the last unless the polls ran out, took exactly PollsTaken of them |
| `Control.PollsTaken` | code/main.c:62-71 | the loop takes the polls up to and including the first with KEY0, and no KEY0 comes before it |
| `Control.ControlTask.constructor` | code/main.c:59-60 | the overload starts at OVERLOAD_BASE_VALUE, the previous switches are the ones read before the loop, and the loop is running |
| `Control.ControlTask.ReadKeys` | code/main.c:64-87 | KEY0 clears `running`; the overload becomes Adjust of the old one; the printed overloads follow KEY2 then KEY3 |
| `Control.ControlTask.ReadSwitches` | code/main.c:89-104 | the previous switches become the current ones; a burn of overload * 1 ms, at most 90 ms, is asked exactly when SW0 is on; an ON/OFF edge is reported exactly when SW0 changed |
| `Control.ControlTask.Step` | code/main.c:64-104 | KEY0 clears `running`; the overload becomes Adjust of the old one; the previous switches become the current ones; a burn of overload * 1 ms is asked exactly when SW0 is on; an ON/OFF edge is reported exactly when SW0 changed; the printed overloads follow KEY2 then KEY3 |
| `Control.ControlTask.Run` | code/main.c:62-106 | the loop takes the polls up to and including the first that reads KEY0, and `running` ends false exactly when the last poll taken read KEY0; the overload is the fold of Adjust over the keys taken; a burn is asked at exactly the polls with SW0 on, and the burn asked at poll i is the overload after poll i times 1 ms, at most 90 000 000 ns |

## Left out

- Xenomai primitives (tasks, periodic waits, events, alarms, `rt_timer_spin`): alarm firings, signals and wait outcomes are method calls or inputs. Real time, priorities and preemption are not modelled.
- Concurrency between the tasks and the alarm callbacks, including races on `priv->state`, `ctl->running` and the frame buffer. Each task is modelled on its own, run sequentially.
- `fopen`, `fseek` and `fclose`: opening is a boolean input; the rewind resets the cursor to 0. Read errors other than end of file are not modelled.
- The grayscale conversion `rgba_to_grayscale32`, the output buffer `priv->output` and the copy to the VGA buffer: their code is not part of this model. The processing task returns the slot it would convert.
- `read_key`, `read_switch`, `init_ioctl`, `init_audio`, `init_video`, and the setup and teardown in `main` (board plumbing). The only exception is the buffer size of code/main.c:170.
- The audio acquisition task: its code is not part of this model.
- `busy_cpu`: only the duration it is asked to burn is modelled.
- Console output: only which state switch, SW0 edge or overload value would be printed.
- Control.ControlTask.Run: the hardware always answers a poll. The model's list of polls is finite, so the loop also stops when the list runs out.
- VideoSetup.AcquisitionPass: states the contents of the latest slot only. That the other slot keeps the frame before it is stated for each read by AcquireFrame, but it is not carried through the pass.
- VideoSetup.VideoAcquisitionTask: states the contents of the latest slot only, not the full history of reads. The older slot may hold a partial trailing frame.
