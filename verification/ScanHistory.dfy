/** What the scanner's ageing maps mean: questions about the history of scans. */
module ScanHistory {
  import opened Common
  import opened Conns
  import opened Scanner

  ghost predicate IsRun(states: seq<State>, passes: seq<Pass>) {
    && |states| == |passes| + 1
    && states[0] == INITIAL
    && forall i :: 0 <= i < |passes| ==> StepAt(states, passes, i)
  }

  ghost predicate StepAt(states: seq<State>, passes: seq<Pass>, i: nat)
    requires i < |passes| < |states|
  {
    ScanStep(states[i], passes[i], states[i + 1])
  }

  /** A run may go on with one more scan. */
  lemma RunGrows(states: seq<State>, passes: seq<Pass>, t: Pass, s: State)
    requires IsRun(states, passes) && ScanStep(states[|passes|], t, s)
    ensures IsRun(states + [s], passes + [t])
  {
    var ss, ts := states + [s], passes + [t];
    forall i: nat | i < |ts|
      ensures StepAt(ss, ts, i)
    {
      if i < |passes| {
        assert StepAt(states, passes, i);
        assert ss[i] == states[i] && ss[i + 1] == states[i + 1] && ts[i] == passes[i];
      } else {
        assert ss[i] == states[i] && ss[i + 1] == s && ts[i] == t;
      }
    }
  }

  /** The inode's current run of consecutive presences, as of the first `n`
      scans, began at scan `b`. */
  ghost predicate PresentSince(passes: seq<Pass>, n: nat, inode: nat, b: nat) {
    && b < n <= |passes|
    && (forall j :: b <= j < n ==> InodePresent(passes[j].raws, inode))
    && (b > 0 ==> !InodePresent(passes[b - 1].raws, inode))
  }

  /** Some process was known to hold the inode when scan `j` ended. */
  predicate Mapped(states: seq<State>, j: nat, inode: nat)
    requires j + 1 < |states|
  {
    inode in states[j + 1].inodePid
  }

  /** Some scan since `b` found a holder. */
  ghost predicate MappedSince(states: seq<State>, n: nat, inode: nat, b: nat)
    requires n < |states|
  {
    exists j :: b <= j < n && Mapped(states, j, inode)
  }

  // ---- what the sweeps found ----

  /** Pass `j` swept /proc and could list it. */
  predicate SweptIn(passes: seq<Pass>, j: nat)
    requires j < |passes|
  {
    passes[j].walked && passes[j].walk.Some?
  }

  /** Of the first `n` passes, `j` is the last that did. */
  ghost predicate LastSweep(passes: seq<Pass>, n: nat, j: nat) {
    j < n <= |passes| && SweptIn(passes, j) && forall i :: j < i < n ==> !SweptIn(passes, i)
  }

  /** The inode map and the refusals are those of the last sweep, and of no
      other. */
  lemma {:induction false} MapIsLastSweep(states: seq<State>, passes: seq<Pass>, n: nat, j: nat)
    requires IsRun(states, passes) && LastSweep(passes, n, j)
    ensures states[n].inodePid == passes[j].walk.value.inodePid && states[n].blocked == passes[j].walk.value.blocked
    ensures states[n].lastWalk == Some(passes[j].at) && passes[j].checked <= passes[j].at <= passes[j].now
  {
    assert StepAt(states, passes, n - 1);
    if j < n - 1 {
      assert !SweptIn(passes, n - 1);
      MapIsLastSweep(states, passes, n - 1, j);
    }
  }

  lemma {:induction false} NoSweepYet(states: seq<State>, passes: seq<Pass>, n: nat)
    requires IsRun(states, passes) && n <= |passes| && forall i :: 0 <= i < n ==> !SweptIn(passes, i)
    ensures states[n].inodePid == map[] && states[n].blocked == 0 && states[n].lastWalk == None
  {
    if n > 0 {
      assert StepAt(states, passes, n - 1) && !SweptIn(passes, n - 1);
      NoSweepYet(states, passes, n - 1);
    }
  }

  /** A pass sweeps iff some line could still be explained when asked about, or
      no sweep has succeeded yet, or the last one is over 30 s old. */
  lemma WalkedExactly(states: seq<State>, passes: seq<Pass>, n: nat)
    requires IsRun(states, passes) && n < |passes|
    ensures passes[n].walked <==>
      || passes[n].culprit.Some?
      || (forall j :: 0 <= j < n ==> !SweptIn(passes, j))
      || exists j: nat :: LastSweep(passes, n, j) && passes[n].checked - passes[j].at > 30 * SECOND
  {
    assert StepAt(states, passes, n);
    if j: nat :| j < n && SweptIn(passes, j) {
      var last := SweepBefore(passes, n, j);
      MapIsLastSweep(states, passes, n, last);
    } else {
      NoSweepYet(states, passes, n);
    }
  }

  lemma SweepBefore(passes: seq<Pass>, n: nat, j: nat) returns (last: nat)
    requires j < n <= |passes| && SweptIn(passes, j)
    ensures LastSweep(passes, n, last)
  {
    last := n - 1;
    while !SweptIn(passes, last)
      invariant j <= last < n && forall i :: last < i < n ==> !SweptIn(passes, i)
      decreases last
    {
      last := last - 1;
    }
  }

  /** The last process of the listing that holds the inode. */
  ghost predicate LastHolder(listing: seq<ProcEntry>, inode: nat, h: nat) {
    Holds(listing, h, inode) && forall i: nat :: h < i ==> !Holds(listing, i, inode)
  }

  /** A socket counts as held iff some process of the listing last swept holds
      it, and then its owner is the last of them. */
  lemma MappedIsHeld(states: seq<State>, passes: seq<Pass>, n: nat, j: nat, listing: seq<ProcEntry>, inode: nat)
    requires IsRun(states, passes) && LastSweep(passes, n, j) && Surveyed(listing, passes[j].walk.value)
    ensures Mapped(states, n - 1, inode) <==> exists h: nat :: Holds(listing, h, inode)
    ensures forall h: nat :: LastHolder(listing, inode, h) ==>
      Mapped(states, n - 1, inode) && states[n].inodePid[inode] == listing[h].pid.value
  {
    MapIsLastSweep(states, passes, n, j);
    if h: nat :| Holds(listing, h, inode) {
      var last := HolderAfter(listing, inode, h);
      HolderIsLast(listing, inode, last);
    } else {
      NobodyHolds(listing, inode);
    }
  }

  lemma HolderAfter(listing: seq<ProcEntry>, inode: nat, h: nat) returns (last: nat)
    requires Holds(listing, h, inode)
    ensures LastHolder(listing, inode, last)
  {
    last := |listing| - 1;
    while !Holds(listing, last, inode)
      invariant h <= last < |listing| && forall i: nat :: last < i ==> !Holds(listing, i, inode)
      decreases last
    {
      last := last - 1;
    }
  }

  /** Something was refused iff some process of that listing refused us. */
  lemma BlockedIsRefused(states: seq<State>, passes: seq<Pass>, n: nat, j: nat, listing: seq<ProcEntry>)
    requires IsRun(states, passes) && LastSweep(passes, n, j) && Surveyed(listing, passes[j].walk.value)
    ensures states[n].blocked > 0 <==>
      exists i :: 0 <= i < |listing| && listing[i].pid.Some? && listing[i].fds == Refused
    ensures states[n].blocked == |set i | 0 <= i < |listing| && listing[i].pid.Some? && listing[i].fds == Refused|
  {
    MapIsLastSweep(states, passes, n, j);
    RefusedIsCount(listing);
    var refused := set i | 0 <= i < |listing| && listing[i].pid.Some? && listing[i].fds == Refused;
    if i :| 0 <= i < |listing| && listing[i].pid.Some? && listing[i].fds == Refused {
      assert i in refused;
    } else {
      assert refused == {};
    }
  }

  /** What a line is scanned as: its own ends, state and figures, and the process
      that holds its socket, or none and a reason. */
  lemma RowSays(states: seq<State>, passes: seq<Pass>, n: nat, i: nat)
    requires IsRun(states, passes) && 0 < n <= |passes| && i < |passes[n - 1].raws|
    ensures |passes[n - 1].rows| == |passes[n - 1].raws|
    ensures var raw, c := passes[n - 1].raws[i], passes[n - 1].rows[i];
      && SameRecord(raw.decoded.(noPid := c.noPid), c)
      && c.state == raw.decoded.state && c.upRate == raw.decoded.upRate && c.downRate == raw.decoded.downRate
      && !c.inherit && c.wasPid == 0
      && (raw.inode == 0 ==> c.noPid == NoProc && c.pid == -1 && c.comm == "" && c.app == "")
      && (raw.inode != 0 && Mapped(states, n - 1, raw.inode) ==>
            var pid := states[n].inodePid[raw.inode];
            && c.noPid == Attributed && c.pid == pid
            && c.comm == passes[n - 1].names(pid).comm && c.app == passes[n - 1].names(pid).app)
      && (raw.inode != 0 && !Mapped(states, n - 1, raw.inode) ==>
            c.noPid != Attributed && c.noPid != NoProc && c.pid == -1 && c.comm == "" && c.app == "")
  {
    RowAfter(states, passes, n, i);
  }

  /** So a row is attributed to the last process that held its socket in the last
      sweep, and to nobody else. */
  lemma RowIsHolders(states: seq<State>, passes: seq<Pass>, n: nat, i: nat, j: nat, listing: seq<ProcEntry>)
    requires IsRun(states, passes) && LastSweep(passes, n, j) && Surveyed(listing, passes[j].walk.value)
    requires i < |passes[n - 1].raws| && passes[n - 1].raws[i].inode != 0
    ensures |passes[n - 1].rows| == |passes[n - 1].raws|
    ensures var inode, c := passes[n - 1].raws[i].inode, passes[n - 1].rows[i];
      && (c.noPid == Attributed <==> exists h: nat :: Holds(listing, h, inode))
      && (c.noPid != Attributed ==> c.pid == -1)
      && forall h: nat :: LastHolder(listing, inode, h) ==> Some(c.pid) == listing[h].pid
  {
    RowSays(states, passes, n, i);
    MappedIsHeld(states, passes, n, j, listing, passes[n - 1].raws[i].inode);
  }

  lemma AgedAfter(states: seq<State>, passes: seq<Pass>, k: nat)
    requires IsRun(states, passes) && k < |passes|
    ensures Aged(states[k], passes[k].raws, passes[k].now, states[k + 1])
  {
    assert StepAt(states, passes, k);
  }

  /** Both maps stay within the inodes of the last scan. */
  lemma MapsArePruned(states: seq<State>, passes: seq<Pass>, n: nat, inode: nat)
    requires IsRun(states, passes) && 0 < n <= |passes|
    requires inode in states[n].unowned || inode in states[n].everOwned
    ensures InodePresent(passes[n - 1].raws, inode)
  {
    AgedAfter(states, passes, n - 1);
  }

  /** The ever-owned set remembers a holder over the whole run of presences. */
  lemma {:induction false} EverOwnedIsHistory(states: seq<State>, passes: seq<Pass>, n: nat, inode: nat, b: nat)
    requires IsRun(states, passes) && n <= |passes| && PresentSince(passes, n, inode, b)
    ensures inode in states[n].everOwned <==> MappedSince(states, n, inode, b)
  {
    AgedAfter(states, passes, n - 1);
    if b < n - 1 {
      EverOwnedIsHistory(states, passes, n - 1, inode, b);
    } else if b > 0 {
      AgedAfter(states, passes, b - 1);
    }
    if Mapped(states, n - 1, inode) {
    }
  }

  /** A socket nobody was ever seen to hold is aged from the scan that first
      saw it. */
  lemma {:induction false} UnownedSinceFirstSight(states: seq<State>, passes: seq<Pass>, n: nat, inode: nat, b: nat)
    requires IsRun(states, passes) && n <= |passes| && PresentSince(passes, n, inode, b)
    requires !MappedSince(states, n, inode, b)
    ensures inode in states[n].unowned && states[n].unowned[inode] == passes[b].now
  {
    AgedAfter(states, passes, n - 1);
    assert !Mapped(states, n - 1, inode);
    if b < n - 1 {
      UnownedSinceFirstSight(states, passes, n - 1, inode, b);
    } else if b > 0 {
      AgedAfter(states, passes, b - 1);
    }
  }

  lemma RowAfter(states: seq<State>, passes: seq<Pass>, n: nat, i: nat)
    requires IsRun(states, passes) && 0 < n <= |passes| && i < |passes[n - 1].raws|
    ensures |passes[n - 1].rows| == |passes[n - 1].raws|
    ensures passes[n - 1].rows[i] == Row(states[n], passes[n - 1].raws[i], passes[n - 1].names, passes[n - 1].now)
  {
    assert StepAt(states, passes, n - 1);
  }

  /** Every row's reason, read off the history: a socket is the kernel's iff
      nothing was refused, nobody was seen to hold it since it appeared, and
      it appeared at least ten seconds ago. */
  lemma LabelIsHistory(states: seq<State>, passes: seq<Pass>, n: nat, i: nat, b: nat)
    requires IsRun(states, passes) && 0 < n <= |passes| && i < |passes[n - 1].raws|
    requires PresentSince(passes, n, passes[n - 1].raws[i].inode, b)
    ensures |passes[n - 1].rows| == |passes[n - 1].raws|
    ensures var inode, why := passes[n - 1].raws[i].inode, passes[n - 1].rows[i].noPid;
      && (why == Attributed <==> Mapped(states, n - 1, inode))
      && (why == Denied <==> !Mapped(states, n - 1, inode) && states[n].blocked > 0)
      && (why == Kernel <==> states[n].blocked == 0 && !MappedSince(states, n, inode, b)
                             && passes[n - 1].now - passes[b].now >= KERNEL_UNOWNED)
      && why != NoProc
  {
    var inode := passes[n - 1].raws[i].inode;
    RowAfter(states, passes, n, i);
    EverOwnedIsHistory(states, passes, n, inode, b);
    if !MappedSince(states, n, inode, b) {
      UnownedSinceFirstSight(states, passes, n, inode, b);
      assert !Mapped(states, n - 1, inode);
    }
  }

  /** The scans say nothing against memory speaking for line `i`: it has no
      inode; or nobody holds it, nothing was refused, and somebody was seen to
      hold it in its current run of presences or that run is young. */
  ghost predicate Unexplained(states: seq<State>, passes: seq<Pass>, n: nat, i: nat)
    requires 0 < n <= |passes| < |states| && i < |passes[n - 1].raws|
  {
    var inode := passes[n - 1].raws[i].inode;
    || inode == 0
    || (!Mapped(states, n - 1, inode) && states[n].blocked == 0 &&
        exists b: nat :: LatelyHeld(states, passes, n, inode, b))
  }

  /** The current run of presences began at `b`, with a holder seen since or
      less than ten seconds ago. */
  ghost predicate LatelyHeld(states: seq<State>, passes: seq<Pass>, n: nat, inode: nat, b: nat)
    requires 0 < n <= |passes| < |states|
  {
    PresentSince(passes, n, inode, b) &&
      (MappedSince(states, n, inode, b) || passes[n - 1].now - passes[b].now < KERNEL_UNOWNED)
  }

  lemma RunOfPresences(passes: seq<Pass>, n: nat, inode: nat) returns (b: nat)
    requires 0 < n <= |passes| && InodePresent(passes[n - 1].raws, inode)
    ensures PresentSince(passes, n, inode, b)
  {
    b := n - 1;
    while b > 0 && InodePresent(passes[b - 1].raws, inode)
      invariant 0 <= b < n
      invariant forall j :: b <= j < n ==> InodePresent(passes[j].raws, inode)
    {
      b := b - 1;
    }
  }

  lemma RunOfPresencesIsOne(passes: seq<Pass>, n: nat, inode: nat, b: nat, b': nat)
    requires PresentSince(passes, n, inode, b) && PresentSince(passes, n, inode, b')
    ensures b == b'
  {
  }

  /** Exactly these rows are handed to memory: a row may be named after the
      last owner of its 4-tuple iff the history leaves it unexplained. */
  lemma AnswerableIsHistory(states: seq<State>, passes: seq<Pass>, n: nat, i: nat)
    requires IsRun(states, passes) && 0 < n <= |passes| && i < |passes[n - 1].raws|
    ensures |passes[n - 1].rows| == |passes[n - 1].raws|
    ensures Answerable(passes[n - 1].rows[i]) <==> Unexplained(states, passes, n, i)
  {
    var inode := passes[n - 1].raws[i].inode;
    RowAfter(states, passes, n, i);
    if inode != 0 {
      var b := RunOfPresences(passes, n, inode);
      LabelIsHistory(states, passes, n, i, b);
      assert Answerable(passes[n - 1].rows[i]) ==> LatelyHeld(states, passes, n, inode, b);
      if b': nat :| LatelyHeld(states, passes, n, inode, b') {
        RunOfPresencesIsOne(passes, n, inode, b, b');
      }
    }
  }

  /** A socket that keeps its inode after someone was seen to hold it is never
      taken for the kernel's own. */
  lemma OnceOwnedNeverKernel(states: seq<State>, passes: seq<Pass>, n: nat, i: nat, k: nat)
    requires IsRun(states, passes) && k < n <= |passes| && i < |passes[n - 1].raws|
    requires var inode := passes[n - 1].raws[i].inode;
      Mapped(states, k, inode) && forall j :: k <= j < n ==> InodePresent(passes[j].raws, inode)
    ensures |passes[n - 1].rows| == |passes[n - 1].raws|
    ensures passes[n - 1].rows[i].noPid != Kernel
  {
    var inode := passes[n - 1].raws[i].inode;
    var b := RunOfPresences(passes, n, inode);
    assert MappedSince(states, n, inode, b);
    LabelIsHistory(states, passes, n, i, b);
  }

  /** A sweep outside the 30 s schedule is always some unheld socket's doing;
      and one that nobody was ever seen to hold causes it only in the scan
      that first sees it or within ten seconds after. */
  lemma ForcedWalkIsYoung(states: seq<State>, passes: seq<Pass>, n: nat)
    requires IsRun(states, passes) && 0 < n <= |passes|
    requires passes[n - 1].walked && !Due(states[n - 1].lastWalk, passes[n - 1].checked)
    ensures passes[n - 1].culprit.Some?
    ensures var Culprit(inode, asked) := passes[n - 1].culprit.value;
      && InodePresent(passes[n - 1].raws, inode)
      && inode !in states[n - 1].inodePid
      && passes[n - 1].began <= asked <= passes[n - 1].now
      && forall b: nat :: PresentSince(passes, n, inode, b) && !MappedSince(states, n - 1, inode, b) ==>
           b == n - 1 || asked - passes[b].now < KERNEL_UNOWNED
  {
    assert StepAt(states, passes, n - 1);
    var inode := passes[n - 1].culprit.value.inode;
    forall b: nat | PresentSince(passes, n, inode, b) && !MappedSince(states, n - 1, inode, b)
      ensures b == n - 1 || passes[n - 1].culprit.value.asked - passes[b].now < KERNEL_UNOWNED
    {
      if b < n - 1 {
        UnownedSinceFirstSight(states, passes, n - 1, inode, b);
      }
    }
  }

  /** And such a socket always causes one: nobody is known to hold it, nobody was
      seen to since it appeared, and that was in this scan or less than ten
      seconds ago. */
  lemma YoungSocketForcesWalk(states: seq<State>, passes: seq<Pass>, n: nat, inode: nat, b: nat)
    requires IsRun(states, passes) && PresentSince(passes, n, inode, b)
    requires inode !in states[n - 1].inodePid && !MappedSince(states, n - 1, inode, b)
    requires b == n - 1 || passes[n - 1].checked - passes[b].now < KERNEL_UNOWNED
    ensures passes[n - 1].walked
  {
    assert StepAt(states, passes, n - 1);
    if b < n - 1 {
      UnownedSinceFirstSight(states, passes, n - 1, inode, b);
    } else if b > 0 && inode in states[b].unowned {
      MapsArePruned(states, passes, b, inode);
    }
    assert !StaleUnowned(states[n - 1].unowned, inode, passes[n - 1].checked);
    if passes[n - 1].culprit.None? {
      var i :| 0 <= i < |passes[n - 1].raws| && passes[n - 1].raws[i].inode == inode;
      assert !Missing(states[n - 1], passes[n - 1].raws[i], passes[n - 1].checked);
    }
  }
}
