# kmsgrab capture loop, modelled in Dafny

`src/vkcapture-kmsgrab.c` captures the output of a display controller (CRTC)
straight from the kernel's mode-setting interface. It arms every CRTC for its
next vblank. On each vblank-sequence event it does four things in order:
- checks that the CRTC's sequence counter and timestamp moved strictly forward,
  and records the steps;
- re-arms the CRTC;
- fetches the framebuffer the CRTC is scanning out;
- exports that framebuffer's memory handles as dma-buf descriptors, gives them
  to the capture sink, and closes them again with the framebuffer record.

This project models that bookkeeping core in four modules:

- `Drm` (`drm.dfy`) is the world the program talks to: libdrm, the process's
  descriptor table and the capture sink. It is a `Kernel` class.
  - Its `const` fields fix what the device answers: per-CRTC counters and call
    outcomes, the framebuffers, the exportable handles and the CRTC list.
  - Its mutable fields are what the calls change: `errno`, the set of open
    descriptors, the libdrm records not yet freed, and a trace of every call in
    order.
- `CrtcMonitor` (`crtc.dfy`) covers the following:
  - the `struct crtc` record;
  - the static 64-entry table, as the class `CrtcTable`, with its `OnEvent`
    update and its start-up fill loop;
  - `monitor_crtc`, with its EINVAL-is-success rule.
- `DmaBuf` (`dmabuf.dfy`) covers `initDmaBufFDs` and `cleanupDmaBufFDs`. They
  work on the shared four-slot descriptor buffer, an `array<int>`. Each method is
  specified by pure functions (`FirstZero`, `Exported`, `Closes`, `ClosedSet`).
- `KmsGrab` (`kmsgrab.dfy`) covers `handle_sequence`. It also defines
  `CycleOpen`, the open-descriptor set after one frame, and lemmas about what a
  frame leaves open.

Behaviour of the code that the model exposes rather than repairs:

- With four non-zero handles, `initDmaBufFDs` never writes the plane count.
  `handle_sequence` initialised it to 0, so the sink is told 0 planes and
  cleanup closes nothing. Every descriptor exported for that frame then leaks
  (`KmsGrab.CycleLeaksWithoutZeroHandle`).
- libdrm writes the descriptor out-parameter of `drmPrimeHandleToFD` only on
  success. A failed export therefore leaves whatever the slot held before:
  uninitialised memory on the first frame, later a descriptor from an earlier
  frame, which is still open if that frame leaked (see the previous point).
  Cleanup closes that value if it is non-negative, whether or not this frame
  opened it (`KmsGrab.CycleClosesStaleSlot`). With the kernel's lowest-free
  numbering that old value can also equal a descriptor exported later in the
  same frame; the model does not capture that aliasing (see "## Left out").
- The start-up check at src/vkcapture-kmsgrab.c:123 rejects a device with
  exactly 64 CRTCs, although the table holds 64. The model does not prove
  anything about this: it only requires fewer than 64 CRTCs
  (`requires |…| < MAX_CRTCS` on `Startup`).

One would expect the plane count to always be the index of the first zero
handle, and an export yielding no planes to be reported. The code does neither:
with no zero handle the count is left as it was, and nothing checks for zero
planes. The model follows the code.

## Model

| member | source | states |
|---|---|---|
| `CrtcMonitor.Observe` | src/vkcapture-kmsgrab.c:62-67 | accepted only when both counters strictly increase; the record keeps its id, stores the new counters, and its deltas are at least 1 and add to the old counters to give the new ones (no wrap) |
| `CrtcMonitor.ReplayAcceptsExactlyIncreasingRuns` | src/vkcapture-kmsgrab.c:60-67 | a run of deliveries avoids the assertion fault exactly when sequence and timestamp strictly increase along it; then the record holds the last event, the step from the event before it, and its original id |
| `CrtcMonitor.TwoDeliveriesOneFrameApart` | src/vkcapture-kmsgrab.c:64-67 | events (100, 1000000) then (101, 1016666) leave deltas of 1 and 16666 |
| `CrtcMonitor.ArmCode` | src/vkcapture-kmsgrab.c:32-38 | the arm verdict is 0 exactly when the queue call succeeds or fails with EINVAL; otherwise it is the call's non-zero return value |
| `CrtcMonitor.MonitorCrtc` | src/vkcapture-kmsgrab.c:29-39 | makes exactly one queue request for the CRTC's id and returns `ArmCode` of its outcome; errno is the call's error when it fails and unchanged otherwise; opens and frees nothing |
| `CrtcMonitor.CrtcTable.constructor` | src/vkcapture-kmsgrab.c:26-27 | the table starts with 64 zeroed entries and length 0 |
| `CrtcMonitor.CrtcTable.OnEvent` | src/vkcapture-kmsgrab.c:62-67 | entry i becomes `Observe` of its old value under the event; every other entry and the length are unchanged |
| `CrtcMonitor.CrtcTable.EnrolCrtc` | src/vkcapture-kmsgrab.c:127-139 | succeeds exactly when the sequence query succeeds or fails with EINVAL and arming succeeds. Whatever the outcome, the entry gets the id and, if the query succeeded, the CRTC's counters, and no other entry changes. The calls are one query, then one arm unless the query failed with an error other than EINVAL. errno ends as the last failing call set it |
| `CrtcMonitor.CrtcTable.Startup` | src/vkcapture-kmsgrab.c:118-140 | requires fewer than 64 CRTCs; returns 1 with no resources; sets the length to the CRTC count; returns 0 exactly when every CRTC enrols, and then entry j holds CRTC j's id and, when its query succeeded, its counters (a CRTC whose query fails with EINVAL keeps the entry's old counters), and each CRTC was queried then armed once, in order |
| `DmaBuf.FirstZero` | src/vkcapture-kmsgrab.c:43-47 | the least index holding a zero handle, or the length when none is zero |
| `DmaBuf.InitDmaBufFds` | src/vkcapture-kmsgrab.c:42-50 | the count becomes the first zero index when there is one, else keeps its incoming value; exactly the handles before that index are exported, in order; each successful one puts a fresh descriptor in its slot; failed slots and later slots keep their old values; the open set grows by exactly the new descriptors; errno is EACCES exactly when some export was refused, and otherwise unchanged |
| `DmaBuf.CleanupDmaBufFds` | src/vkcapture-kmsgrab.c:52-58 | one close per slot below the count holding a non-negative value, in slot order, and no other close; the open set loses exactly those values; the framebuffer record is freed once when present and never when absent |
| `DmaBuf.ClosesEachOnce` | src/vkcapture-kmsgrab.c:53-55 | when the non-negative slot values are distinct, cleanup closes each of them exactly once and closes no other descriptor; with an empty prefix it closes nothing |
| `DmaBuf.ExportThenCloseSet` | src/vkcapture-kmsgrab.c:42-58 | cleanup with the count set by a zero handle closes exactly two kinds of value: every descriptor the export opened, and the old values left in slots whose export failed |
| `KmsGrab.ExportedDistinct` | src/vkcapture-kmsgrab.c:43-49 | when the exports succeed, the descriptors they put in the slots are pairwise distinct |
| `KmsGrab.CycleReleasesWhatItOpens` | src/vkcapture-kmsgrab.c:78-86 | with some zero handle, a frame leaves open exactly what was open before, less the stale slot values; so no descriptor opened in the frame stays open, and if every export succeeds the open set is restored exactly |
| `KmsGrab.CycleLeaksWithoutZeroHandle` | src/vkcapture-kmsgrab.c:43-50 | with four non-zero handles, the frame's open set is the old one plus every descriptor exported; one exportable handle is enough to leave a new descriptor open |
| `KmsGrab.CycleClosesStaleSlot` | src/vkcapture-kmsgrab.c:48-55 | a slot below the count whose export failed but holds a non-negative old value is not open after the frame, whatever was open before it; in particular a descriptor left open by an earlier frame is closed |
| `KmsGrab.CycleClosesEachOnce` | src/vkcapture-kmsgrab.c:78-86 | when every export below the count succeeds, each descriptor the frame opened is closed exactly once and nothing else is closed |
| `KmsGrab.FetchFramebuffer` | src/vkcapture-kmsgrab.c:72-76 | returns the framebuffer the CRTC scans out exactly when both the CRTC and that framebuffer exist; looks up the CRTC, then, if found, the framebuffer and frees the CRTC record; a failed lookup sets errno to ENOENT; the framebuffer record is the only one left held |
| `KmsGrab.CaptureFrame` | src/vkcapture-kmsgrab.c:78-86 | the sink is called once, after the exports and before any close. It gets the framebuffer's width, height, pitches, offsets and modifier, XRGB8888, plane hint 0, no flip, the computed count and the slots. Cleanup then uses that same count and frees the record. The open set becomes `CycleOpen`, a subset of the old one when some handle is zero, and the next descriptor number advances by the number of successful exports |
| `KmsGrab.HandleSequence` | src/vkcapture-kmsgrab.c:60-88 | books the event as `OnEvent` does, and the first call is the re-arm of that CRTC. If the CRTC lookup fails, nothing else is called. If the framebuffer lookup fails, the CRTC record is freed and no descriptor is exported or sent to the sink. Otherwise the frame is captured as in `CaptureFrame`, including where the next descriptor number ends up. libdrm records are always balanced, and no descriptor leaks unless all four handles are non-zero |

## Left out

- Command-line parsing, the usage text and opening the device node
  (src/vkcapture-kmsgrab.c:90-115): plumbing with no bookkeeping in it.
- `drmSetClientCap`, `drmModeFreeResources`, `capture_init`,
  `capture_update_socket`, `capture_stop` and the final `close(fd)`: one-time
  calls outside the bookkeeping. The resource list is a value here, not a
  record to free.
- The `drmHandleEvent` loop (src/vkcapture-kmsgrab.c:149-158): blocking event
  I/O. One delivery is one call of `HandleSequence`, with the CRTC given by its
  table index rather than through the `uint64_t` cookie.
- The `malloc` of the descriptor buffer: the buffer is any four-slot
  `array<int>`, and its initial contents are arbitrary.
- `perror` diagnostics: output only.
- libdrm and the kernel are not part of this model. `Drm.Kernel` stands in for
  them:
  - a failing call returns -1 and sets errno;
  - `drmCrtcGetSequence` and `drmPrimeHandleToFD` write their out-parameters
    only on success;
  - export succeeds exactly for the handles in `exportable`, and a refused
    export sets errno to EACCES;
  - no framebuffer has id 0, so a CRTC scanning out nothing yields none;
  - a lookup of an unknown CRTC or framebuffer fails with ENOENT;
  - descriptors are handed out above every open one, not as the lowest free
    number the kernel really uses. The open set after a frame does not depend
    on the numbering: it is the old set less the stale slot values either way.
    The numbers themselves, as the sink and the close trace see them, do
    depend on it (see the next point).
- Descriptor reuse across frames is not modelled. The kernel hands out the
  lowest free number, so a descriptor closed in one frame is reused in the
  next. A slot whose export fails keeps its old number, which may then equal
  the number a later slot of the same frame gets. For example, frame 1 exports
  into slot 0 as descriptor 5 and closes it; in frame 2 the handles are
  refused, exportable, 0, 0, so slot 1 gets 5 again and both slots hold 5. The
  sink is then told plane 0 is descriptor 5, which is plane 1's buffer, and
  cleanup closes 5 twice, the second time with EBADF. Because the model always
  hands out a number no earlier frame used, the `InitShtex` arguments and the
  close trace of `KmsGrab.CaptureFrame` and `KmsGrab.HandleSequence` never
  show this aliasing.
- `capture.h` is not part of this model. The sink only observes its arguments,
  as an `InitShtex` entry in the trace, and closes nothing.
- `DmaBuf.CleanupDmaBufFds`: the value errno holds afterwards is not stated,
  because the source never reads it.
- `KmsGrab.CaptureFrame`: the value errno holds afterwards is not stated,
  because it ends with cleanup and the source reads errno after neither.
- `KmsGrab.HandleSequence`: the value errno holds afterwards is not stated; the
  source ignores both errno and the result of re-arming here.
- `CrtcMonitor.CrtcTable.OnEvent`: the two checks at src/vkcapture-kmsgrab.c:62-63
  are C `assert`s, and the model assumes they are compiled in: they are a
  requirement of `OnEvent` and `HandleSequence` and the `None` of `Replay`. In a
  build with `NDEBUG` they vanish, and the subtractions at lines 64-65 then wrap
  modulo 2^64 instead of aborting; that build is not modelled.
- `CrtcMonitor.CrtcTable.Startup`: the CRTC-count check at
  src/vkcapture-kmsgrab.c:123 is also a C `assert`, modelled as the requirement
  of fewer than 64 CRTCs. In an `NDEBUG` build it vanishes, and with 64 or more
  CRTCs the loop at lines 126-128 writes past the last table entry; that build
  is not modelled.
- `CrtcMonitor.CrtcTable.Startup`: on a failing return, the trace and the
  partly written entries below the length are not stated, because the process
  exits at that point.
