/** Exporting a framebuffer's memory handles as dma-buf descriptors into the
    four-slot buffer, and releasing them together with the framebuffer record. */
module DmaBuf {
  import opened Drm

  /** Slots in the dma-buf descriptor buffer, and memory handles in an FB2 record. */
  const MAX_PLANES := 4

  /** Index of the first zero handle, or |hs| when there is none. */
  function FirstZero(hs: seq<u32>): (n: nat)
    ensures n <= |hs|
    ensures forall j :: 0 <= j < n ==> hs[j] != 0
    ensures n < |hs| ==> hs[n] == 0
  {
    if hs == [] then 0
    else if hs[0] == 0 then 0
    else 1 + FirstZero(hs[1..])
  }

  /** How many of the handles the kernel lets the process export. */
  function CountIn(hs: seq<u32>, ex: set<u32>): nat
  {
    if hs == [] then 0
    else CountIn(hs[..|hs| - 1], ex) + (if hs[|hs| - 1] in ex then 1 else 0)
  }

  /** The descriptors numbered from `lo` up to, not including, `hi`. */
  function Range(lo: int, hi: int): (r: set<int>)
    ensures forall f :: f in r <==> lo <= f < hi
    decreases hi - lo
  {
    if hi <= lo then {} else Range(lo, hi - 1) + {hi - 1}
  }

  /** The slots after exporting handles 0..n-1, descriptors being handed out
      from `base` upwards: an exported slot holds its new descriptor, a slot
      whose export failed and every slot from `n` on keeps its old value. */
  function Exported(slots: seq<int>, hs: seq<u32>, ex: set<u32>, base: int, n: nat): seq<int>
    requires n <= |slots| && n <= |hs|
  {
    seq(|slots|, j requires 0 <= j < |slots| =>
      if j < n && hs[j] in ex then base + CountIn(hs[..j], ex) else slots[j])
  }

  /** The descriptors handed out, from `base` upwards, by exporting handles 0..n-1. */
  function Issued(hs: seq<u32>, ex: set<u32>, base: int, n: nat): set<int>
    requires n <= |hs|
  {
    Range(base, base + CountIn(hs[..n], ex))
  }

  /** Old slot values below `n` that a failed export left behind. */
  function Stale(slots: seq<int>, hs: seq<u32>, ex: set<u32>, n: nat): set<int>
    requires n <= |slots| && n <= |hs|
  {
    set j | 0 <= j < n && hs[j] !in ex && slots[j] >= 0 :: slots[j]
  }

  /** Some handle before `n` is one the kernel refuses to export. */
  predicate Refused(hs: seq<u32>, ex: set<u32>, n: nat)
    requires n <= |hs|
  {
    exists j :: 0 <= j < n && hs[j] !in ex
  }

  lemma RefusedSnoc(hs: seq<u32>, ex: set<u32>, n: nat)
    requires n < |hs|
    ensures Refused(hs, ex, n + 1) <==> Refused(hs, ex, n) || hs[n] !in ex
  {
    if Refused(hs, ex, n + 1) && hs[n] in ex {
      var j :| 0 <= j < n + 1 && hs[j] !in ex;
      assert j < n;
    }
  }

  /** A refused export is one fewer descriptor handed out. */
  lemma {:induction false} RefusedIffFewer(hs: seq<u32>, ex: set<u32>, n: nat)
    requires n <= |hs|
    ensures CountIn(hs[..n], ex) <= n
    ensures Refused(hs, ex, n) <==> CountIn(hs[..n], ex) < n
    decreases n
  {
    if n > 0 {
      RefusedIffFewer(hs, ex, n - 1);
      CountInSnoc(hs, ex, n - 1);
      RefusedSnoc(hs, ex, n - 1);
    }
  }

  /** The export calls for the handles `hs`, in order. */
  function Exports(hs: seq<u32>): seq<Call>
  {
    seq(|hs|, j requires 0 <= j < |hs| => PrimeHandleToFd(hs[j]))
  }

  /** The close calls cleanup makes for the slots `s`: one per non-negative slot. */
  function Closes(s: seq<int>): seq<Call>
  {
    if s == [] then []
    else Closes(s[..|s| - 1]) + (if s[|s| - 1] >= 0 then [Close(s[|s| - 1])] else [])
  }

  /** The descriptors cleanup closes for the slots `s`. */
  function ClosedSet(s: seq<int>): set<int>
  {
    set j | 0 <= j < |s| && s[j] >= 0 :: s[j]
  }

  lemma ClosedSetSnoc(s: seq<int>, v: int)
    ensures ClosedSet(s + [v]) == ClosedSet(s) + (if v >= 0 then {v} else {})
  {
    var t := s + [v];
    forall f | f in ClosedSet(t)
      ensures f in ClosedSet(s) + (if v >= 0 then {v} else {})
    {
      var j :| 0 <= j < |t| && t[j] >= 0 && t[j] == f;
      if j < |s| {
        assert s[j] == f;
      }
    }
    forall f | f in ClosedSet(s)
      ensures f in ClosedSet(t)
    {
      var j :| 0 <= j < |s| && s[j] >= 0 && s[j] == f;
      assert t[j] == f;
    }
    if v >= 0 {
      assert t[|s|] == v;
    }
  }

  /** Cleanup closes each distinct descriptor in the slots once, and nothing
      else; in particular a count of zero closes nothing. */
  lemma {:induction false} ClosesEachOnce(s: seq<int>, f: int)
    requires forall a, b :: 0 <= a < b < |s| && s[a] >= 0 ==> s[a] != s[b]
    ensures multiset(Closes(s))[Close(f)] == if f in ClosedSet(s) then 1 else 0
    decreases |s|
  {
    if s != [] {
      var init, v := s[..|s| - 1], s[|s| - 1];
      assert s == init + [v];
      ClosesEachOnce(init, f);
      ClosedSetSnoc(init, v);
    }
  }

  lemma {:induction false} CountInSnoc(hs: seq<u32>, ex: set<u32>, n: nat)
    requires n < |hs|
    ensures CountIn(hs[..n + 1], ex) == CountIn(hs[..n], ex) + (if hs[n] in ex then 1 else 0)
  {
    assert hs[..n + 1][..n] == hs[..n];
  }

  /** Handles exported earlier got lower descriptors: the exported slots are
      pairwise distinct. */
  lemma {:induction false} CountInGrows(hs: seq<u32>, ex: set<u32>, a: nat, b: nat)
    requires a < b <= |hs| && hs[a] in ex
    ensures CountIn(hs[..a], ex) < CountIn(hs[..b], ex)
    decreases b - a
  {
    CountInSnoc(hs, ex, b - 1);
    if a < b - 1 {
      CountInGrows(hs, ex, a, b - 1);
    }
  }

  lemma ExportedStep(slots: seq<int>, hs: seq<u32>, ex: set<u32>, base: int, i: nat)
    requires i < |slots| && i < |hs|
    ensures Exported(slots, hs, ex, base, i + 1)
         == if hs[i] in ex then Exported(slots, hs, ex, base, i)[i := base + CountIn(hs[..i], ex)]
            else Exported(slots, hs, ex, base, i)
  {
  }

  /** Every descriptor number below the count of exportable handles was
      handed out for one of them: the `v`-th exportable handle. */
  lemma {:induction false} CountInHit(hs: seq<u32>, ex: set<u32>, n: nat, v: nat) returns (j: nat)
    requires n <= |hs| && v < CountIn(hs[..n], ex)
    ensures j < n && hs[j] in ex && CountIn(hs[..j], ex) == v
    decreases n
  {
    CountInSnoc(hs, ex, n - 1);
    if v < CountIn(hs[..n - 1], ex) {
      j := CountInHit(hs, ex, n - 1, v);
    } else {
      j := n - 1;
    }
  }

  /** What cleanup closes after an export of handles 0..n-1 with count n: every
      descriptor the export opened, plus whatever a failed export left behind
      in its slot. */
  lemma ExportThenCloseSet(slots: seq<int>, hs: seq<u32>, ex: set<u32>, base: nat, n: nat)
    requires n <= |slots| && n <= |hs|
    ensures ClosedSet(Exported(slots, hs, ex, base, n)[..n])
         == Issued(hs, ex, base, n) + Stale(slots, hs, ex, n)
  {
    var shut := Exported(slots, hs, ex, base, n)[..n];
    var issued := Issued(hs, ex, base, n);
    var stale := Stale(slots, hs, ex, n);
    forall f | f in ClosedSet(shut)
      ensures f in issued + stale
    {
      var j :| 0 <= j < n && shut[j] >= 0 && shut[j] == f;
      if hs[j] in ex {
        CountInGrows(hs, ex, j, n);
      }
    }
    forall f | f in issued
      ensures f in ClosedSet(shut)
    {
      var j := CountInHit(hs, ex, n, f - base);
      assert shut[j] == f;
    }
    forall f | f in stale
      ensures f in ClosedSet(shut)
    {
      var j :| 0 <= j < n && hs[j] !in ex && slots[j] >= 0 && slots[j] == f;
      assert shut[j] == f;
    }
  }

  /** The kernel and the slots once handles 0..i-1 of `hs` have been exported,
      starting from slot values `slots`, descriptor `base`, open set `open0`,
      trace `trace0` and errno `errno0`; a refused export leaves EACCES. */
  ghost predicate ExportedUpTo(k: Kernel, fds: array<int>, hs: seq<u32>, slots: seq<int>, base: nat,
                               open0: set<int>, trace0: seq<Call>, errno0: int, i: nat)
    reads k, fds
    requires i <= |hs| && i <= |slots|
  {
    fds[..] == Exported(slots, hs, k.exportable, base, i) &&
    k.nextFd == base + CountIn(hs[..i], k.exportable) && k.nextFd <= base + i &&
    k.open == open0 + Range(base, k.nextFd) &&
    k.trace == trace0 + Exports(hs[..i]) &&
    k.errno == if k.nextFd < base + i then EACCES else errno0
  }

  /** One round of initDmaBufFDs' loop past a non-zero handle: export handle
      `i` into slot `i`. */
  method ExportPlane(k: Kernel, hs: seq<u32>, fds: array<int>, i: nat, ghost slots: seq<int>, ghost base: nat,
                     ghost open0: set<int>, ghost trace0: seq<Call>, ghost errno0: int)
    requires k.Valid() && |hs| == MAX_PLANES && |slots| == MAX_PLANES && fds.Length == MAX_PLANES
    requires i < MAX_PLANES && ExportedUpTo(k, fds, hs, slots, base, open0, trace0, errno0, i)
    modifies k, fds
    ensures k.Valid() && ExportedUpTo(k, fds, hs, slots, base, open0, trace0, errno0, i + 1)
    ensures k.heldCrtcs == old(k.heldCrtcs) && k.heldFbs == old(k.heldFbs)
  {
    ghost var fd := k.nextFd;
    var _ := k.PrimeHandleToFD(hs[i], fds, i);
    CountInSnoc(hs, k.exportable, i);
    ExportedStep(slots, hs, k.exportable, base, i);
    assert Exports(hs[..i + 1]) == Exports(hs[..i]) + [PrimeHandleToFd(hs[i])];
    assert Range(base, k.nextFd) == Range(base, fd) + (if hs[i] in k.exportable then {fd} else {});
  }

  /** initDmaBufFDs: walk the four handles; at the first zero one record its
      index as the plane count and stop; export every earlier one into its slot.
      With no zero handle the count is never written. */
  method InitDmaBufFds(k: Kernel, fb: Fb2, fds: array<int>, nplanes: int) returns (count: int)
    requires k.Valid() && fb.WellFormed() && fds.Length == MAX_PLANES
    modifies k, fds
    ensures k.Valid()
    ensures var n := FirstZero(fb.handles);
      (n < MAX_PLANES ==> count == n) && (n == MAX_PLANES ==> count == nplanes) &&
      fds[..] == Exported(old(fds[..]), fb.handles, k.exportable, old(k.nextFd), n) &&
      k.nextFd == old(k.nextFd) + CountIn(fb.handles[..n], k.exportable) &&
      k.open == old(k.open) + Range(old(k.nextFd), k.nextFd) &&
      k.trace == old(k.trace) + Exports(fb.handles[..n]) &&
      k.errno == if Refused(fb.handles, k.exportable, n) then EACCES else old(k.errno)
    ensures k.heldCrtcs == old(k.heldCrtcs) && k.heldFbs == old(k.heldFbs)
  {
    ghost var slots, base, open0, trace0, errno0 := fds[..], k.nextFd, k.open, k.trace, k.errno;
    var hs := fb.handles;
    count := nplanes;
    var i := 0;
    while i < MAX_PLANES
      invariant 0 <= i <= MAX_PLANES
      invariant forall j :: 0 <= j < i ==> hs[j] != 0
      invariant k.Valid() && count == nplanes
      invariant ExportedUpTo(k, fds, hs, slots, base, open0, trace0, errno0, i)
      invariant k.heldCrtcs == old(k.heldCrtcs) && k.heldFbs == old(k.heldFbs)
    {
      if hs[i] == 0 {
        assert FirstZero(hs) == i;
        count := i;
        break;
      }
      ExportPlane(k, hs, fds, i, slots, base, open0, trace0, errno0);
      i := i + 1;
    }
    assert i == MAX_PLANES ==> FirstZero(hs) == MAX_PLANES;
    RefusedIffFewer(hs, k.exportable, i);
  }

  /** cleanupDmaBufFDs: close every slot below the count that holds a
      non-negative descriptor, then free the framebuffer record if there is one. */
  method CleanupDmaBufFds(k: Kernel, fb: Option<Fb2>, fds: array<int>, nplanes: int)
    requires k.Valid() && fds.Length == MAX_PLANES && nplanes <= MAX_PLANES
    requires fb.Some? ==> fb.value in k.heldFbs
    modifies k
    ensures k.Valid()
    ensures var shut := fds[..if nplanes < 0 then 0 else nplanes];
      k.open == old(k.open) - ClosedSet(shut) &&
      k.trace == old(k.trace) + Closes(shut) + (if fb.Some? then [FreeFB2(fb.value.fbId)] else [])
    ensures k.heldFbs == if fb.Some? then old(k.heldFbs) - multiset{fb.value} else old(k.heldFbs)
    ensures k.nextFd == old(k.nextFd) && k.heldCrtcs == old(k.heldCrtcs)
  {
    ghost var m := if nplanes < 0 then 0 else nplanes;
    var i := 0;
    while i < nplanes
      invariant 0 <= i <= m
      invariant k.Valid()
      invariant k.open == old(k.open) - ClosedSet(fds[..i])
      invariant k.trace == old(k.trace) + Closes(fds[..i])
      invariant k.nextFd == old(k.nextFd)
      invariant k.heldCrtcs == old(k.heldCrtcs) && k.heldFbs == old(k.heldFbs)
    {
      if fds[i] >= 0 {
        var _ := k.CloseFd(fds[i]);
      }
      assert fds[..i + 1] == fds[..i] + [fds[i]];
      ClosedSetSnoc(fds[..i], fds[i]);
      i := i + 1;
    }
    if fb.Some? {
      k.FreeModeFB2(fb.value);
    }
  }
}
