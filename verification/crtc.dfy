/** Per-CRTC vblank bookkeeping: the `crtcs` table, the handler's update of one
    record, arming a CRTC for its next vblank, and the start-up loop that fills
    the table. */
module CrtcMonitor {
  import opened Drm

  /** Capacity of the static `crtcs` table. */
  const MAX_CRTCS := 64

  /** One controller record: its id, the last vblank seen and the step to it. */
  datatype Crtc = Crtc(id: u32, sequence: u64, ns: u64, deltaSequence: u64, deltaNs: u64)

  /** A vblank-sequence event: the counter and its timestamp in nanoseconds. */
  datatype Vblank = Vblank(sequence: u64, ns: u64)

  /** The handler's two assertions: both counters strictly increase. */
  predicate Admits(c: Crtc, e: Vblank)
  {
    e.sequence > c.sequence && e.ns > c.ns
  }

  /** The record after the handler has seen `e`. */
  function Observe(c: Crtc, e: Vblank): (c': Crtc)
    requires Admits(c, e)
    ensures c'.id == c.id
    ensures c'.sequence == e.sequence && c'.ns == e.ns
    ensures c'.deltaSequence >= 1 && c'.deltaNs >= 1
    ensures c.sequence + c'.deltaSequence == e.sequence && c.ns + c'.deltaNs == e.ns
  {
    Crtc(c.id, e.sequence, e.ns, e.sequence - c.sequence, e.ns - c.ns)
  }

  /** A run of deliveries to one CRTC; None as soon as one would trip an assertion. */
  function Replay(c: Crtc, evs: seq<Vblank>): Option<Crtc>
    decreases |evs|
  {
    if evs == [] then Some(c)
    else if Admits(c, evs[0]) then Replay(Observe(c, evs[0]), evs[1..])
    else None
  }

  /** The observation before the `j`-th event of a run starting at `c`. */
  function Prior(c: Crtc, evs: seq<Vblank>, j: nat): Vblank
    requires j < |evs|
  {
    if j == 0 then Vblank(c.sequence, c.ns) else evs[j - 1]
  }

  /** Both counters strictly increase along the run, starting above `c`. */
  predicate Increasing(c: Crtc, evs: seq<Vblank>)
  {
    forall j :: 0 <= j < |evs| ==>
      Prior(c, evs, j).sequence < evs[j].sequence && Prior(c, evs, j).ns < evs[j].ns
  }

  lemma IncreasingStep(c: Crtc, evs: seq<Vblank>)
    requires evs != [] && Admits(c, evs[0])
    ensures Increasing(c, evs) <==> Increasing(Observe(c, evs[0]), evs[1..])
  {
  }

  /** A run is accepted exactly when both counters strictly increase; then the
      record holds the last event, the step from the one before it, and its id. */
  lemma {:induction false} ReplayAcceptsExactlyIncreasingRuns(c: Crtc, evs: seq<Vblank>)
    ensures Replay(c, evs).Some? <==> Increasing(c, evs)
    ensures evs == [] ==> Replay(c, evs) == Some(c)
    ensures Replay(c, evs).Some? && evs != [] ==>
      var r, n := Replay(c, evs).value, |evs| - 1;
      r.id == c.id && r.sequence == evs[n].sequence && r.ns == evs[n].ns &&
      r.deltaSequence == evs[n].sequence - Prior(c, evs, n).sequence &&
      r.deltaNs == evs[n].ns - Prior(c, evs, n).ns
    decreases |evs|
  {
    if evs != [] {
      if Admits(c, evs[0]) {
        var c', rest := Observe(c, evs[0]), evs[1..];
        ReplayAcceptsExactlyIncreasingRuns(c', rest);
        IncreasingStep(c, evs);
        if |evs| > 1 {
          assert Prior(c, evs, |evs| - 1) == Prior(c', rest, |rest| - 1);
        }
      } else {
        assert Prior(c, evs, 0) == Vblank(c.sequence, c.ns);
      }
    }
  }

  /** Two deliveries one frame apart at 60 Hz: the record keeps a step of one
      frame and 16666 ns. */
  lemma TwoDeliveriesOneFrameApart(id: u32)
    ensures Replay(Crtc(id, 0, 0, 0, 0), [Vblank(100, 1_000_000), Vblank(101, 1_016_666)])
         == Some(Crtc(id, 101, 1_016_666, 1, 16_666))
  {
  }

  /** monitor_crtc's verdict on a drmCrtcQueueSequence outcome: a rejection with
      EINVAL (a disabled CRTC) counts as success, any other failure is passed on. */
  function ArmCode(s: Status): (code: int)
    ensures code == 0 <==> s.Ok? || s.errno == EINVAL
    ensures code != 0 ==> code == Ret(s)
  {
    if Ret(s) != 0 && s.errno != EINVAL then Ret(s) else 0
  }

  /** monitor_crtc: queue the next vblank of `c` relative to now, firing at once
      if it was missed. */
  method MonitorCrtc(k: Kernel, c: Crtc) returns (ret: int)
    requires k.Valid()
    modifies k
    ensures k.Valid()
    ensures ret == ArmCode(k.QueueStatus(c.id))
    ensures k.errno == if k.QueueStatus(c.id).Ok? then old(k.errno) else k.QueueStatus(c.id).errno
    ensures k.trace == old(k.trace) + [QueueSequence(c.id)]
    ensures k.open == old(k.open) && k.nextFd == old(k.nextFd)
    ensures k.heldCrtcs == old(k.heldCrtcs) && k.heldFbs == old(k.heldFbs)
  {
    ret := k.QueueCrtcSequence(c.id);
    if ret != 0 && k.errno != EINVAL {
      return;
    }
    ret := 0;
  }

  /** Start-up accepts this CRTC: its sequence query succeeds or fails with
      EINVAL, and arming it succeeds. */
  predicate Enrols(k: Kernel, id: u32)
  {
    (k.SequenceStatus(id).Ok? || k.SequenceStatus(id).errno == EINVAL) &&
    ArmCode(k.QueueStatus(id)) == 0
  }

  /** Record `c` once start-up has given it `id` and, when the query succeeds,
      the CRTC's current counters. */
  function Enrolled(k: Kernel, c: Crtc, id: u32): Crtc
  {
    if k.SequenceStatus(id).Ok?
    then c.(id := id, sequence := k.crtcHw[id].sequence, ns := k.crtcHw[id].ns)
    else c.(id := id)
  }

  /** The calls start-up makes for the CRTCs `ids`, in order. */
  function Enrolment(ids: seq<u32>): seq<Call>
  {
    if ids == [] then []
    else Enrolment(ids[..|ids| - 1]) + [GetSequence(ids[|ids| - 1]), QueueSequence(ids[|ids| - 1])]
  }

  /** The static `crtcs` array and its length `crtcs_len`. */
  class CrtcTable {
    var crtcs: array<Crtc>
    var len: nat

    ghost predicate Valid()
      reads this
    {
      crtcs.Length == MAX_CRTCS && len <= MAX_CRTCS
    }

    /** Static storage starts zeroed. */
    constructor ()
      ensures Valid() && fresh(crtcs) && len == 0
      ensures forall j :: 0 <= j < MAX_CRTCS ==> crtcs[j] == Crtc(0, 0, 0, 0, 0)
    {
      crtcs := new Crtc[MAX_CRTCS](_ => Crtc(0, 0, 0, 0, 0));
      len := 0;
    }

    /** The bookkeeping half of handle_sequence: record the new counters and
        the steps to them in entry `i`; every other entry stays as it was. */
    method OnEvent(i: nat, sequence: u64, ns: u64)
      requires Valid() && i < len
      requires Admits(crtcs[i], Vblank(sequence, ns))
      modifies crtcs
      ensures crtcs[..] == old(crtcs[..])[i := Observe(old(crtcs[i]), Vblank(sequence, ns))]
    {
      var c := crtcs[i];
      crtcs[i] := c.(deltaSequence := sequence - c.sequence, deltaNs := ns - c.ns,
                     sequence := sequence, ns := ns);
    }

    /** One round of main's set-up loop for entry `i`: give it `id`, read the
        CRTC's counters into it, arm it; false when start-up must give up. */
    method EnrolCrtc(k: Kernel, i: nat, id: u32) returns (ok: bool)
      requires Valid() && k.Valid() && i < MAX_CRTCS
      modifies crtcs, k
      ensures k.Valid()
      ensures ok == Enrols(k, id)
      ensures crtcs[..] == old(crtcs[..])[i := Enrolled(k, old(crtcs[i]), id)]
      ensures forall j :: 0 <= j < MAX_CRTCS && j != i ==> crtcs[j] == old(crtcs[j])
      ensures var g := k.SequenceStatus(id);
        k.trace == old(k.trace) + [GetSequence(id)] +
                   (if g.Err? && g.errno != EINVAL then [] else [QueueSequence(id)])
      ensures var q, g := k.QueueStatus(id), k.SequenceStatus(id);
        k.errno == if g.Err? && g.errno != EINVAL then g.errno
                   else if q.Err? then q.errno
                   else if g.Err? then EINVAL else old(k.errno)
      ensures k.open == old(k.open) && k.nextFd == old(k.nextFd)
      ensures k.heldCrtcs == old(k.heldCrtcs) && k.heldFbs == old(k.heldFbs)
    {
      var c := crtcs[i].(id := id);
      crtcs[i] := c;
      var ret, sequence, ns := k.GetCrtcSequence(c.id);
      if ret == 0 {
        c := c.(sequence := sequence, ns := ns);
        crtcs[i] := c;
      } else if k.errno != EINVAL {
        return false;
      }
      var armed := MonitorCrtc(k, c);
      return armed == 0;
    }

    /** The CRTC set-up of main: size the table to the device's CRTC list, give
        each entry its id and current counters, arm it, and give up with 1 on a
        query or arming failure other than EINVAL, or when there are no
        resources. */
    method Startup(k: Kernel) returns (status: int)
      requires Valid() && k.Valid()
      requires k.resources.Some? ==> |k.resources.value| < MAX_CRTCS
      modifies this`len, crtcs, k
      ensures Valid() && k.Valid()
      ensures status == 0 || status == 1
      ensures status == 0 <==>
        k.resources.Some? && forall j :: 0 <= j < |k.resources.value| ==> Enrols(k, k.resources.value[j])
      ensures k.resources.None? ==>
        len == old(len) && crtcs[..] == old(crtcs[..]) && k.trace == old(k.trace) + [GetResources]
      ensures k.resources.Some? ==> len == |k.resources.value|
      ensures forall j :: len <= j < MAX_CRTCS ==> crtcs[j] == old(crtcs[j])
      ensures status == 0 ==>
        (forall j :: 0 <= j < len ==> crtcs[j] == Enrolled(k, old(crtcs[j]), k.resources.value[j])) &&
        k.trace == old(k.trace) + [GetResources] + Enrolment(k.resources.value)
      ensures k.open == old(k.open) && k.nextFd == old(k.nextFd)
      ensures k.heldCrtcs == old(k.heldCrtcs) && k.heldFbs == old(k.heldFbs)
    {
      var res := k.GetResourceCrtcs();
      if res.None? {
        return 1;
      }
      var ids := res.value;
      len := |ids|;
      var i := 0;
      while i < |ids|
        invariant 0 <= i <= |ids| == len
        invariant Valid() && k.Valid()
        invariant forall j :: 0 <= j < i ==> Enrols(k, ids[j])
        invariant forall j :: 0 <= j < i ==> crtcs[j] == Enrolled(k, old(crtcs[j]), ids[j])
        invariant forall j :: i <= j < MAX_CRTCS ==> crtcs[j] == old(crtcs[j])
        invariant k.trace == old(k.trace) + [GetResources] + Enrolment(ids[..i])
        invariant k.open == old(k.open) && k.nextFd == old(k.nextFd)
        invariant k.heldCrtcs == old(k.heldCrtcs) && k.heldFbs == old(k.heldFbs)
      {
        var ok := EnrolCrtc(k, i, ids[i]);
        if !ok {
          return 1;
        }
        assert ids[..i + 1][..i] == ids[..i];
        i := i + 1;
      }
      assert ids[..i] == ids;
      return 0;
    }
  }
}
