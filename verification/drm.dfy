/** The world the capture loop talks to: the DRM device (through libdrm), the
    process's descriptor table and the capture sink.

    What the device would answer is fixed when the Kernel is built (the `const`
    fields): which CRTCs exist and what they report, which framebuffers exist,
    which memory handles the process may export, what the resource query returns.
    What the calls change is mutable: `errno`, the set of open descriptors, the
    libdrm query records not yet freed, and a trace of every call in order. */
module Drm {

  type u32 = x: int | 0 <= x < 0x1_0000_0000
  type u64 = x: int | 0 <= x < 0x1_0000_0000_0000_0000

  const ENOENT := 2
  const EBADF := 9
  const EACCES := 13
  const EINVAL := 22

  /** fourcc 'X','R','2','4', little-endian */
  const DRM_FORMAT_XRGB8888: u32 := 0x3432_5258

  datatype Option<T> = None | Some(value: T)

  /** How a libdrm call that returns 0, or -1 with errno set, turns out. */
  datatype Status = Ok | Err(errno: int)

  /** The integer a libdrm call returns for the given outcome. */
  function Ret(s: Status): int
  {
    if s.Ok? then 0 else -1
  }

  /** What the device knows about one CRTC. */
  datatype CrtcHw = CrtcHw(
    bufferId: u32,          // framebuffer currently scanned out, 0 if none
    sequence: u64, ns: u64, // current vblank sequence and its timestamp
    getSequence: Status,    // how drmCrtcGetSequence on it turns out
    queueSequence: Status)  // how drmCrtcQueueSequence on it turns out

  /** The drmModeCrtc record (only the fields the capture loop reads). */
  datatype ModeCrtc = ModeCrtc(crtcId: u32, bufferId: u32)

  /** The drmModeFB2 record: geometry, format and up to four memory handles. */
  datatype Fb2 = Fb2(
    fbId: u32, width: u32, height: u32, pixelFormat: u32, modifier: u64,
    handles: seq<u32>, pitches: seq<u32>, offsets: seq<u32>)
  {
    predicate WellFormed()
    {
      |handles| == 4 && |pitches| == 4 && |offsets| == 4
    }
  }

  /** The arguments of one capture_init_shtex call. */
  datatype ShtexArgs = ShtexArgs(
    width: u32, height: u32, format: u32,
    pitches: seq<u32>, offsets: seq<u32>, modifier: u64,
    planeHint: int, flip: bool, nplanes: int, fds: seq<int>)

  /** One call made by the capture loop, as it appears in the trace. */
  datatype Call =
    | GetResources
    | GetSequence(crtcId: u32)
    | QueueSequence(crtcId: u32)
    | GetCrtc(crtcId: u32)
    | FreeCrtc(crtcId: u32)
    | GetFB2(fbId: u32)
    | FreeFB2(fbId: u32)
    | PrimeHandleToFd(handle: u32)
    | Close(fd: int)
    | InitShtex(args: ShtexArgs)

  class Kernel {
    const crtcHw: map<u32, CrtcHw>
    const fbs: map<u32, Fb2>
    const exportable: set<u32>
    const resources: Option<seq<u32>>

    var errno: int
    var open: set<int>
    var nextFd: nat
    var heldCrtcs: multiset<ModeCrtc>
    var heldFbs: multiset<Fb2>
    var trace: seq<Call>

    /** Every open descriptor lies below the next one handed out, every
        framebuffer record has its four plane slots, and id 0 names no
        framebuffer (a CRTC scanning out nothing has buffer id 0). */
    ghost predicate Valid()
      reads this
    {
      (forall f | f in open :: 0 <= f < nextFd) &&
      (forall id | id in fbs :: fbs[id].WellFormed() && fbs[id].fbId == id) &&
      0 !in fbs
    }

    constructor (crtcHw: map<u32, CrtcHw>, fbs: map<u32, Fb2>, exportable: set<u32>,
                 resources: Option<seq<u32>>, open: set<int>, nextFd: nat)
      requires forall f | f in open :: 0 <= f < nextFd
      requires forall id | id in fbs :: fbs[id].WellFormed() && fbs[id].fbId == id
      requires 0 !in fbs
      ensures Valid()
      ensures this.crtcHw == crtcHw && this.fbs == fbs && this.exportable == exportable
      ensures this.resources == resources && this.open == open && this.nextFd == nextFd
      ensures heldCrtcs == multiset{} && heldFbs == multiset{} && trace == []
    {
      this.crtcHw := crtcHw;
      this.fbs := fbs;
      this.exportable := exportable;
      this.resources := resources;
      this.open := open;
      this.nextFd := nextFd;
      errno := 0;
      heldCrtcs := multiset{};
      heldFbs := multiset{};
      trace := [];
    }

    /** How drmCrtcGetSequence on `id` turns out; an unknown CRTC is ENOENT. */
    function SequenceStatus(id: u32): Status
    {
      if id in crtcHw then crtcHw[id].getSequence else Err(ENOENT)
    }

    /** How drmCrtcQueueSequence on `id` turns out; an unknown CRTC is ENOENT. */
    function QueueStatus(id: u32): Status
    {
      if id in crtcHw then crtcHw[id].queueSequence else Err(ENOENT)
    }

    /** drmModeGetResources, reduced to the list of CRTC ids. */
    method GetResourceCrtcs() returns (res: Option<seq<u32>>)
      requires Valid()
      modifies this
      ensures Valid() && res == resources
      ensures trace == old(trace) + [GetResources]
      ensures errno == old(errno) && open == old(open) && nextFd == old(nextFd)
      ensures heldCrtcs == old(heldCrtcs) && heldFbs == old(heldFbs)
    {
      res := resources;
      trace := trace + [GetResources];
    }

    /** drmCrtcGetSequence: on success reports the CRTC's counters, on failure
        sets errno and reports nothing. */
    method GetCrtcSequence(id: u32) returns (ret: int, sequence: u64, ns: u64)
      requires Valid()
      modifies this
      ensures Valid()
      ensures ret == Ret(SequenceStatus(id))
      ensures ret == 0 ==> sequence == crtcHw[id].sequence && ns == crtcHw[id].ns && errno == old(errno)
      ensures ret != 0 ==> errno == SequenceStatus(id).errno
      ensures trace == old(trace) + [GetSequence(id)]
      ensures open == old(open) && nextFd == old(nextFd)
      ensures heldCrtcs == old(heldCrtcs) && heldFbs == old(heldFbs)
    {
      var s := SequenceStatus(id);
      trace := trace + [GetSequence(id)];
      if s.Ok? {
        ret, sequence, ns := 0, crtcHw[id].sequence, crtcHw[id].ns;
      } else {
        ret, sequence, ns := -1, 0, 0;
        errno := s.errno;
      }
    }

    /** drmCrtcQueueSequence for the next vblank of `id`. */
    method QueueCrtcSequence(id: u32) returns (ret: int)
      requires Valid()
      modifies this
      ensures Valid()
      ensures ret == Ret(QueueStatus(id))
      ensures errno == (if ret == 0 then old(errno) else QueueStatus(id).errno)
      ensures trace == old(trace) + [QueueSequence(id)]
      ensures open == old(open) && nextFd == old(nextFd)
      ensures heldCrtcs == old(heldCrtcs) && heldFbs == old(heldFbs)
    {
      var s := QueueStatus(id);
      trace := trace + [QueueSequence(id)];
      ret := Ret(s);
      if s.Err? {
        errno := s.errno;
      }
    }

    /** drmModeGetCrtc: null for an unknown CRTC, whose ioctl fails with
        ENOENT, otherwise a record the caller must free. */
    method GetModeCrtc(id: u32) returns (c: Option<ModeCrtc>)
      requires Valid()
      modifies this
      ensures Valid()
      ensures c == (if id in crtcHw then Some(ModeCrtc(id, crtcHw[id].bufferId)) else None)
      ensures heldCrtcs == if c.Some? then old(heldCrtcs) + multiset{c.value} else old(heldCrtcs)
      ensures trace == old(trace) + [GetCrtc(id)]
      ensures errno == if c.None? then ENOENT else old(errno)
      ensures open == old(open) && nextFd == old(nextFd)
      ensures heldFbs == old(heldFbs)
    {
      trace := trace + [GetCrtc(id)];
      if id in crtcHw {
        c := Some(ModeCrtc(id, crtcHw[id].bufferId));
        heldCrtcs := heldCrtcs + multiset{c.value};
      } else {
        c := None;
        errno := ENOENT;
      }
    }

    /** drmModeFreeCrtc. */
    method FreeModeCrtc(c: ModeCrtc)
      requires Valid() && c in heldCrtcs
      modifies this
      ensures Valid()
      ensures heldCrtcs == old(heldCrtcs) - multiset{c}
      ensures trace == old(trace) + [FreeCrtc(c.crtcId)]
      ensures errno == old(errno) && open == old(open) && nextFd == old(nextFd)
      ensures heldFbs == old(heldFbs)
    {
      heldCrtcs := heldCrtcs - multiset{c};
      trace := trace + [FreeCrtc(c.crtcId)];
    }

    /** drmModeGetFB2: null when no such framebuffer exists (id 0, or one that
        was destroyed), whose ioctl fails with ENOENT, otherwise a record the
        caller must free. */
    method GetModeFB2(fbId: u32) returns (fb: Option<Fb2>)
      requires Valid()
      modifies this
      ensures Valid()
      ensures fb == (if fbId in fbs then Some(fbs[fbId]) else None)
      ensures fb.Some? ==> fb.value.WellFormed() && fb.value.fbId == fbId
      ensures heldFbs == if fb.Some? then old(heldFbs) + multiset{fb.value} else old(heldFbs)
      ensures trace == old(trace) + [GetFB2(fbId)]
      ensures errno == if fb.None? then ENOENT else old(errno)
      ensures open == old(open) && nextFd == old(nextFd)
      ensures heldCrtcs == old(heldCrtcs)
    {
      trace := trace + [GetFB2(fbId)];
      if fbId in fbs {
        fb := Some(fbs[fbId]);
        heldFbs := heldFbs + multiset{fb.value};
      } else {
        fb := None;
        errno := ENOENT;
      }
    }

    /** drmModeFreeFB2. */
    method FreeModeFB2(fb: Fb2)
      requires Valid() && fb in heldFbs
      modifies this
      ensures Valid()
      ensures heldFbs == old(heldFbs) - multiset{fb}
      ensures trace == old(trace) + [FreeFB2(fb.fbId)]
      ensures errno == old(errno) && open == old(open) && nextFd == old(nextFd)
      ensures heldCrtcs == old(heldCrtcs)
    {
      heldFbs := heldFbs - multiset{fb};
      trace := trace + [FreeFB2(fb.fbId)];
    }

    /** drmPrimeHandleToFD: on success opens a new descriptor and writes it to
        `fds[i]`; on failure sets errno and leaves `fds[i]` as it was. */
    method PrimeHandleToFD(handle: u32, fds: array<int>, i: nat) returns (ret: int)
      requires Valid() && i < fds.Length
      modifies this, fds
      ensures Valid()
      ensures ret == 0 <==> handle in exportable
      ensures handle in exportable ==>
        fds[..] == old(fds[..])[i := old(nextFd)] &&
        open == old(open) + {old(nextFd)} && nextFd == old(nextFd) + 1 && errno == old(errno)
      ensures handle !in exportable ==>
        ret == -1 && fds[..] == old(fds[..]) &&
        open == old(open) && nextFd == old(nextFd) && errno == EACCES
      ensures trace == old(trace) + [PrimeHandleToFd(handle)]
      ensures heldCrtcs == old(heldCrtcs) && heldFbs == old(heldFbs)
    {
      trace := trace + [PrimeHandleToFd(handle)];
      if handle in exportable {
        fds[i] := nextFd;
        open := open + {nextFd};
        nextFd := nextFd + 1;
        ret := 0;
      } else {
        errno := EACCES;
        ret := -1;
      }
    }

    /** close(2): an open descriptor is released; any other number is EBADF. */
    method CloseFd(fd: int) returns (ret: int)
      requires Valid()
      modifies this
      ensures Valid()
      ensures open == old(open) - {fd}
      ensures ret == 0 <==> fd in old(open)
      ensures errno == if fd in old(open) then old(errno) else EBADF
      ensures trace == old(trace) + [Close(fd)]
      ensures nextFd == old(nextFd) && heldCrtcs == old(heldCrtcs) && heldFbs == old(heldFbs)
    {
      trace := trace + [Close(fd)];
      if fd in open {
        open := open - {fd};
        ret := 0;
      } else {
        errno := EBADF;
        ret := -1;
      }
    }

    /** capture_init_shtex: the sink observes its arguments and closes nothing. */
    method CaptureInitShtex(args: ShtexArgs)
      requires Valid()
      modifies this
      ensures Valid()
      ensures trace == old(trace) + [InitShtex(args)]
      ensures errno == old(errno) && open == old(open) && nextFd == old(nextFd)
      ensures heldCrtcs == old(heldCrtcs) && heldFbs == old(heldFbs)
    {
      trace := trace + [InitShtex(args)];
    }
  }
}
