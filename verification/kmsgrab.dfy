/** The vblank-sequence handler: book the event, re-arm the CRTC, and pass the
    framebuffer it scans out to the capture sink as dma-buf descriptors that are
    released again before the handler returns. */
module KmsGrab {
  import opened Drm
  import opened CrtcMonitor
  import opened DmaBuf

  /** The plane count the handler hands on: initialised to 0, and overwritten by
      initDmaBufFDs only when some handle is zero. */
  function FramePlanes(hs: seq<u32>): int
  {
    if FirstZero(hs) < |hs| then FirstZero(hs) else 0
  }

  /** The calls one frame makes once its planes sit in `slots`: the exports up
      to the first zero handle, the hand-over to the sink with the fixed
      format, plane hint 0 and no flip, the closes, and freeing the record. */
  function FrameCalls(fb: Fb2, slots: seq<int>): seq<Call>
    requires fb.WellFormed() && |slots| == MAX_PLANES
  {
    var n, count := FirstZero(fb.handles), FramePlanes(fb.handles);
    Exports(fb.handles[..n])
    + [InitShtex(ShtexArgs(fb.width, fb.height, DRM_FORMAT_XRGB8888, fb.pitches,
                           fb.offsets, fb.modifier, 0, false, count, slots))]
    + Closes(slots[..count]) + [FreeFB2(fb.fbId)]
  }

  /** The open descriptors after one frame with handles `hs` has been exported
      into `slots` (descriptors handed out from `base`) and cleaned up. */
  function CycleOpen(open: set<int>, base: nat, ex: set<u32>, hs: seq<u32>, slots: seq<int>): set<int>
    requires |hs| == MAX_PLANES && |slots| == MAX_PLANES
  {
    var n := FirstZero(hs);
    (open + Issued(hs, ex, base, n))
      - ClosedSet(Exported(slots, hs, ex, base, n)[..FramePlanes(hs)])
  }

  /** Descriptors issued above every open one and then closed, together with
      some others, leave the open set less those others. */
  lemma ReleaseIssued(open: set<int>, issued: set<int>, others: set<int>, base: int)
    requires forall f | f in open :: f < base
    requires forall f | f in issued :: f >= base
    ensures (open + issued) - (issued + others) == open - others
  {
    forall f | f in open - others
      ensures f !in issued
    {
      assert f < base;
    }
  }

  /** When some handle is zero, a frame closes every descriptor it opened: what
      stays open is what was open before, less whatever old values failed
      exports left in their slots; if every export succeeds, exactly what was
      open before. */
  lemma CycleReleasesWhatItOpens(open: set<int>, base: nat, ex: set<u32>, hs: seq<u32>, slots: seq<int>)
    requires |hs| == MAX_PLANES && |slots| == MAX_PLANES
    requires forall f | f in open :: f < base
    requires FirstZero(hs) < MAX_PLANES
    ensures CycleOpen(open, base, ex, hs, slots) == open - Stale(slots, hs, ex, FirstZero(hs))
    ensures CycleOpen(open, base, ex, hs, slots) <= open
    ensures (forall j :: 0 <= j < FirstZero(hs) ==> hs[j] in ex) ==>
      CycleOpen(open, base, ex, hs, slots) == open
  {
    var n := FirstZero(hs);
    ExportThenCloseSet(slots, hs, ex, base, n);
    assert FramePlanes(hs) == n;
    ReleaseIssued(open, Issued(hs, ex, base, n), Stale(slots, hs, ex, n), base);
    if forall j :: 0 <= j < n ==> hs[j] in ex {
      assert Stale(slots, hs, ex, n) == {};
    }
  }

  /** When no handle is zero the count stays 0 and cleanup closes nothing: every
      descriptor exported during the frame is still open afterwards, so one
      exportable handle is enough for the frame to leak a descriptor. */
  lemma CycleLeaksWithoutZeroHandle(open: set<int>, base: nat, ex: set<u32>, hs: seq<u32>, slots: seq<int>)
    requires |hs| == MAX_PLANES && |slots| == MAX_PLANES
    requires forall f | f in open :: f < base
    requires FirstZero(hs) == MAX_PLANES
    ensures CycleOpen(open, base, ex, hs, slots) == open + Range(base, base + CountIn(hs, ex))
    ensures (exists j :: 0 <= j < MAX_PLANES && hs[j] in ex) ==>
      base in CycleOpen(open, base, ex, hs, slots) && base !in open
  {
    assert hs[..MAX_PLANES] == hs;
    assert Exported(slots, hs, ex, base, MAX_PLANES)[..0] == [];
    assert ClosedSet([]) == {};
    if j :| 0 <= j < MAX_PLANES && hs[j] in ex {
      CountInGrows(hs, ex, j, MAX_PLANES);
    }
  }

  /** A failed export leaves the slot's old value, and cleanup closes it
      whatever was open before the frame: a descriptor an earlier frame left
      open does not survive this one. */
  lemma CycleClosesStaleSlot(open: set<int>, base: nat, ex: set<u32>, hs: seq<u32>, slots: seq<int>, j: nat)
    requires |hs| == MAX_PLANES && |slots| == MAX_PLANES
    requires j < FirstZero(hs) < MAX_PLANES
    requires hs[j] !in ex && slots[j] >= 0
    ensures slots[j] !in CycleOpen(open, base, ex, hs, slots)
  {
    var n := FirstZero(hs);
    var shut := Exported(slots, hs, ex, base, n)[..n];
    assert shut[j] == slots[j];
  }

  /** Descriptors handed out in one frame are pairwise distinct. */
  lemma ExportedDistinct(base: nat, ex: set<u32>, hs: seq<u32>, slots: seq<int>, n: nat)
    requires n <= |hs| && n <= |slots|
    requires forall j :: 0 <= j < n ==> hs[j] in ex
    ensures var shut := Exported(slots, hs, ex, base, n)[..n];
      forall a, b :: 0 <= a < b < |shut| && shut[a] >= 0 ==> shut[a] != shut[b]
  {
    var shut := Exported(slots, hs, ex, base, n)[..n];
    forall a, b | 0 <= a < b < n
      ensures shut[a] != shut[b]
    {
      assert shut[a] == base + CountIn(hs[..a], ex);
      assert shut[b] == base + CountIn(hs[..b], ex);
      CountInGrows(hs, ex, a, b);
    }
  }

  /** When the first `n` exports of a frame all succeed, cleanup with count `n`
      closes each descriptor the frame opened exactly once and nothing else. */
  lemma CycleClosesEachOnce(base: nat, ex: set<u32>, hs: seq<u32>, slots: seq<int>, n: nat, f: int)
    requires n <= |hs| && n <= |slots|
    requires forall j :: 0 <= j < n ==> hs[j] in ex
    ensures multiset(Closes(Exported(slots, hs, ex, base, n)[..n]))[Close(f)]
         == if base <= f < base + n then 1 else 0
  {
    var shut := Exported(slots, hs, ex, base, n)[..n];
    ExportedDistinct(base, ex, hs, slots, n);
    ClosesEachOnce(shut, f);
    ExportThenCloseSet(slots, hs, ex, base, n);
    CountAllIn(hs[..n], ex);
    assert Stale(slots, hs, ex, n) == {};
  }

  lemma {:induction false} CountAllIn(hs: seq<u32>, ex: set<u32>)
    requires forall j :: 0 <= j < |hs| ==> hs[j] in ex
    ensures CountIn(hs, ex) == |hs|
    decreases |hs|
  {
    if hs != [] {
      CountAllIn(hs[..|hs| - 1], ex);
    }
  }

  /** The CRTC's current framebuffer exists and none of its four handles is
      zero: the one case in which a frame leaks. */
  predicate FourPlanes(k: Kernel, id: u32)
  {
    id in k.crtcHw && k.crtcHw[id].bufferId in k.fbs &&
    var fb := k.fbs[k.crtcHw[id].bufferId];
    |fb.handles| == MAX_PLANES && FirstZero(fb.handles) == MAX_PLANES
  }

  /** The look-up half of handle_sequence: fetch the CRTC `id`, fetch the
      framebuffer it scans out, and free the CRTC record; the framebuffer
      record, when there is one, is left for the caller to free. */
  method FetchFramebuffer(k: Kernel, id: u32) returns (fb: Option<Fb2>)
    requires k.Valid()
    modifies k
    ensures k.Valid()
    ensures fb == if id in k.crtcHw && k.crtcHw[id].bufferId in k.fbs
                  then Some(k.fbs[k.crtcHw[id].bufferId]) else None
    ensures fb.Some? ==> fb.value.WellFormed()
    ensures k.trace == old(k.trace) +
      (if id in k.crtcHw then [GetCrtc(id), GetFB2(k.crtcHw[id].bufferId), FreeCrtc(id)]
       else [GetCrtc(id)])
    ensures k.heldFbs == (if fb.Some? then old(k.heldFbs) + multiset{fb.value} else old(k.heldFbs))
    ensures k.heldCrtcs == old(k.heldCrtcs)
    ensures k.errno == if fb.None? then ENOENT else old(k.errno)
    ensures k.open == old(k.open) && k.nextFd == old(k.nextFd)
  {
    fb := None;
    var crtcMy := k.GetModeCrtc(id);
    if crtcMy.Some? {
      fb := k.GetModeFB2(crtcMy.value.bufferId);
      k.FreeModeCrtc(crtcMy.value);
    }
  }

  /** Prover hint: regroups the frame's calls so the trace built step by step
      matches `FrameCalls`. */
  lemma AppendFour(t: seq<Call>, a: seq<Call>, b: seq<Call>, c: seq<Call>, d: seq<Call>)
    ensures t + a + b + c + d == t + (a + b + c + d)
  {
  }

  /** The framebuffer half of handle_sequence: export the planes of `fb`,
      hand them to the sink with the fixed format, plane hint 0 and no flip,
      then close them and free the record. */
  method CaptureFrame(k: Kernel, fb: Fb2, fds: array<int>)
    requires k.Valid() && fb.WellFormed() && fb in k.heldFbs && fds.Length == MAX_PLANES
    modifies k, fds
    ensures k.Valid()
    ensures var n := FirstZero(fb.handles);
      fds[..] == Exported(old(fds[..]), fb.handles, k.exportable, old(k.nextFd), n) &&
      k.open == CycleOpen(old(k.open), old(k.nextFd), k.exportable, fb.handles, old(fds[..])) &&
      k.trace == old(k.trace) + FrameCalls(fb, fds[..])
    ensures k.nextFd == old(k.nextFd) + CountIn(fb.handles[..FirstZero(fb.handles)], k.exportable)
    ensures FirstZero(fb.handles) < MAX_PLANES ==> k.open <= old(k.open)
    ensures k.heldFbs == old(k.heldFbs) - multiset{fb} && k.heldCrtcs == old(k.heldCrtcs)
  {
    ghost var base, slots := k.nextFd, fds[..];
    var nplanes := 0;
    nplanes := InitDmaBufFds(k, fb, fds, nplanes);
    k.CaptureInitShtex(ShtexArgs(fb.width, fb.height, DRM_FORMAT_XRGB8888, fb.pitches,
                                 fb.offsets, fb.modifier, 0, false, nplanes, fds[..]));
    CleanupDmaBufFds(k, Some(fb), fds, nplanes);
    assert nplanes == FramePlanes(fb.handles);
    AppendFour(old(k.trace), Exports(fb.handles[..FirstZero(fb.handles)]),
               [InitShtex(ShtexArgs(fb.width, fb.height, DRM_FORMAT_XRGB8888, fb.pitches,
                                    fb.offsets, fb.modifier, 0, false, nplanes, fds[..]))],
               Closes(fds[..nplanes]), [FreeFB2(fb.fbId)]);
    if FirstZero(fb.handles) < MAX_PLANES {
      CycleReleasesWhatItOpens(old(k.open), base, k.exportable, fb.handles, slots);
    }
  }

  /** handle_sequence for the CRTC in entry `i`: book the event, re-arm the
      CRTC, then, if the CRTC and the framebuffer it scans out can both be
      fetched, capture that framebuffer. */
  method HandleSequence(k: Kernel, table: CrtcTable, fds: array<int>, i: nat, sequence: u64, ns: u64)
    requires k.Valid() && table.Valid() && fds.Length == MAX_PLANES
    requires i < table.len
    requires Admits(table.crtcs[i], Vblank(sequence, ns))
    modifies k, table.crtcs, fds
    ensures k.Valid()
    ensures table.crtcs[..] == old(table.crtcs[..])[i := Observe(old(table.crtcs[i]), Vblank(sequence, ns))]
    ensures k.heldCrtcs == old(k.heldCrtcs) && k.heldFbs == old(k.heldFbs)
    ensures !FourPlanes(k, old(table.crtcs[i]).id) ==> k.open <= old(k.open)
    ensures var id := old(table.crtcs[i]).id;
      id !in k.crtcHw ==>
        k.trace == old(k.trace) + [QueueSequence(id), GetCrtc(id)] &&
        k.open == old(k.open) && k.nextFd == old(k.nextFd) && fds[..] == old(fds[..])
    ensures var id := old(table.crtcs[i]).id;
      id in k.crtcHw && k.crtcHw[id].bufferId !in k.fbs ==>
        k.trace == old(k.trace) + [QueueSequence(id), GetCrtc(id), GetFB2(k.crtcHw[id].bufferId), FreeCrtc(id)] &&
        k.open == old(k.open) && k.nextFd == old(k.nextFd) && fds[..] == old(fds[..])
    ensures var id := old(table.crtcs[i]).id;
      id in k.crtcHw && k.crtcHw[id].bufferId in k.fbs ==>
        var fb := k.fbs[k.crtcHw[id].bufferId];
        var n := FirstZero(fb.handles);
        fds[..] == Exported(old(fds[..]), fb.handles, k.exportable, old(k.nextFd), n) &&
        k.open == CycleOpen(old(k.open), old(k.nextFd), k.exportable, fb.handles, old(fds[..])) &&
        k.nextFd == old(k.nextFd) + CountIn(fb.handles[..n], k.exportable) &&
        k.trace == old(k.trace) + [QueueSequence(id), GetCrtc(id), GetFB2(fb.fbId), FreeCrtc(id)]
                   + FrameCalls(fb, fds[..])
  {
    ghost var t0 := k.trace;
    table.OnEvent(i, sequence, ns);
    var crtc := table.crtcs[i];
    assert crtc.id == old(table.crtcs[i]).id;
    var _ := MonitorCrtc(k, crtc);
    var fb := FetchFramebuffer(k, crtc.id);
    if fb.Some? {
      CaptureFrame(k, fb.value, fds);
    }
  }
}
