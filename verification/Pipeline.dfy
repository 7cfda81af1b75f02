/** The scanner feeding the ghost table, tick after tick (main.go): what a row
    is called from end to end. */
module Pipeline {
  import opened Conns
  import LastOwner
  import Scanner
  import ScanHistory
  import Ghosts
  import GhostHistory
  import Attribution

  /** A run of the monitor: the scanner's states and passes, the ghost table's
      states and ticks, one of each per tick. */
  datatype Run = Run(
    scans: seq<Scanner.State>, passes: seq<Scanner.Pass>,
    tables: seq<Ghosts.State>, ticks: seq<Ghosts.Tick>)

  /** Enrichment between scan and tracking (traffic, names of hosts, rules)
      leaves the identity, both ends, the state and the attribution of a row
      alone. */
  predicate SameAttribution(scanned: Conn, c: Conn) {
    && c.id == scanned.id && c.proto == scanned.proto && c.state == scanned.state
    && c.laddr == scanned.laddr && c.lport == scanned.lport
    && c.raddr == scanned.raddr && c.rport == scanned.rport
    && c.pid == scanned.pid && c.comm == scanned.comm && c.app == scanned.app
    && c.noPid == scanned.noPid && c.inherit == scanned.inherit && c.wasPid == scanned.wasPid
  }

  /** The rows tracked are the rows scanned, but for their names. */
  ghost predicate Fed(p: Scanner.Pass, live: seq<Conn>) {
    |live| == |p.rows| == |p.raws| && forall i :: 0 <= i < |live| ==> SameAttribution(p.rows[i], live[i])
  }

  ghost predicate IsRun(run: Run) {
    && ScanHistory.IsRun(run.scans, run.passes)
    && GhostHistory.IsRun(run.tables, run.ticks)
    && GhostHistory.Clocked(run.ticks)
    && |run.passes| == |run.ticks|
    && forall k :: 0 <= k < |run.ticks| ==> Fed(run.passes[k], run.ticks[k].live)
  }

  /** In the ticks from `k` up to `n`, every line of this 4-tuple without an
      owner is one the scans leave to memory. */
  ghost predicate Unbroken(run: Run, id: string, k: nat, n: nat)
    requires n <= |run.passes| == |run.ticks| < |run.scans|
  {
    forall j: nat, i: nat ::
      k <= j < n && i < |run.ticks[j].live| && i < |run.passes[j].raws| &&
      run.ticks[j].live[i].id == id && !HasOwner(run.ticks[j].live[i])
      ==> ScanHistory.Unexplained(run.scans, run.passes, j + 1, i)
  }

  /** A line that keeps an inode somebody was seen to hold, nobody holding it
      now and nothing refused, is such a line. */
  lemma KeptInodeIsUnexplained(run: Run, k: nat, i: nat, m: nat)
    requires IsRun(run) && m <= k < |run.ticks| && i < |run.passes[k].raws|
    requires var inode := run.passes[k].raws[i].inode;
      && ScanHistory.Mapped(run.scans, m, inode) && !ScanHistory.Mapped(run.scans, k, inode)
      && run.scans[k + 1].blocked == 0
      && forall j :: m <= j <= k ==> Scanner.InodePresent(run.passes[j].raws, inode)
    ensures ScanHistory.Unexplained(run.scans, run.passes, k + 1, i)
  {
    ScanHistory.RowAfter(run.scans, run.passes, k + 1, i);
    ScanHistory.OnceOwnedNeverKernel(run.scans, run.passes, k + 1, i, m);
    ScanHistory.AnswerableIsHistory(run.scans, run.passes, k + 1, i);
  }

  /** The row tracked is one memory may speak for iff the scans leave it so. */
  lemma AnswerableExactly(run: Run, k: nat, i: nat)
    requires IsRun(run) && k < |run.ticks| && i < |run.ticks[k].live|
    ensures i < |run.passes[k].raws|
    ensures Answerable(run.ticks[k].live[i]) <==> ScanHistory.Unexplained(run.scans, run.passes, k + 1, i)
    ensures Answerable(run.ticks[k].live[i]) ==> run.ticks[k].live[i].pid == -1
  {
    assert Fed(run.passes[k], run.ticks[k].live);
    ScanHistory.RowAfter(run.scans, run.passes, k + 1, i);
    ScanHistory.AnswerableIsHistory(run.scans, run.passes, k + 1, i);
    assert SameAttribution(run.passes[k].rows[i], run.ticks[k].live[i]);
  }

  /** And so a nameless row whose 4-tuple had an owner in the last two minutes
      is emitted with that owner's name iff the scans leave it so. */
  lemma NamedExactly(run: Run, n: nat, r: nat, k: nat, i: nat)
    requires IsRun(run) && 0 < n <= |run.ticks| && r < |run.ticks[n - 1].live|
    requires run.ticks[n - 1].live[r].comm == ""
    requires Attribution.OwnerRow(run.ticks, n, run.ticks[n - 1].live[r].id, k, i)
    requires run.ticks[n - 1].now - run.ticks[k].now <= LastOwner.LAST_OWNER_TTL
    ensures |run.ticks[n - 1].live| == |run.ticks[n - 1].rows| == |run.passes[n - 1].raws|
    ensures Attribution.SameName(run.ticks[n - 1].rows[r], run.ticks[k].live[i]) <==>
            ScanHistory.Unexplained(run.scans, run.passes, n, r)
  {
    RowsMatch(run, n);
    AnswerableExactly(run, n - 1, r);
    Attribution.LiveAfter(run.tables, run.ticks, n - 1, r);
    if Answerable(run.ticks[n - 1].live[r]) {
      Attribution.LiveRowNamed(run.tables, run.ticks, n, r, k, i);
    }
  }

  /** From end to end: a socket's name outlives its process. Every row emitted
      for a 4-tuple, live or ghost, that has no owner of its own carries the
      name of the last owner seen, for two minutes, as long as the scans leave
      the socket's own rows to memory. */
  lemma NameOutlivesProcess(run: Run, n: nat, id: string, k: nat, i: nat, out: seq<Conn>, r: nat)
    requires IsRun(run) && 0 < n <= |run.ticks|
    requires Attribution.OwnerRow(run.ticks, n, id, k, i)
    requires run.ticks[n - 1].now - run.ticks[k].now <= LastOwner.LAST_OWNER_TTL
    requires Unbroken(run, id, k, n)
    requires Ghosts.Appended(run.ticks[n - 1].rows, run.ticks[n - 1].order, run.tables[n].dead, out)
    requires r < |out| && out[r].id == id
    ensures |run.ticks[n - 1].live| <= |out|
    ensures if r < |run.ticks[n - 1].live| && HasOwner(run.ticks[n - 1].live[r]) then out[r] == run.ticks[n - 1].live[r]
            else Attribution.SameName(out[r], run.ticks[k].live[i])
  {
    RowsMatch(run, n);
    if r < |run.ticks[n - 1].live| {
      assert out[r] == out[..|run.ticks[n - 1].rows|][r];
      LiveRowNamed(run, n, id, k, i, r);
    } else {
      Attribution.GhostId(run.tables, run.ticks, n, run.ticks[n - 1].order[r - |run.ticks[n - 1].rows|]);
      GhostNamed(run, n, id, k, i);
    }
  }

  lemma RowsMatch(run: Run, n: nat)
    requires IsRun(run) && 0 < n <= |run.ticks|
    ensures |run.ticks[n - 1].rows| == |run.ticks[n - 1].live| == |run.passes[n - 1].raws|
  {
    assert Fed(run.passes[n - 1], run.ticks[n - 1].live);
    assert GhostHistory.StepAt(run.tables, run.ticks, n - 1);
  }

  lemma LiveRowNamed(run: Run, n: nat, id: string, k: nat, i: nat, r: nat)
    requires IsRun(run) && 0 < n <= |run.ticks|
    requires Attribution.OwnerRow(run.ticks, n, id, k, i)
    requires run.ticks[n - 1].now - run.ticks[k].now <= LastOwner.LAST_OWNER_TTL
    requires Unbroken(run, id, k, n)
    requires r < |run.ticks[n - 1].live| == |run.ticks[n - 1].rows| && run.ticks[n - 1].rows[r].id == id
    ensures if HasOwner(run.ticks[n - 1].live[r]) then run.ticks[n - 1].rows[r] == run.ticks[n - 1].live[r]
            else Attribution.SameName(run.ticks[n - 1].rows[r], run.ticks[k].live[i])
  {
    RowsMatch(run, n);
    Attribution.LiveAfter(run.tables, run.ticks, n - 1, r);
    if !HasOwner(run.ticks[n - 1].live[r]) {
      AnswerableExactly(run, n - 1, r);
      Attribution.LiveRowNamed(run.tables, run.ticks, n, r, k, i);
    }
  }

  lemma GhostNamed(run: Run, n: nat, id: string, k: nat, i: nat)
    requires IsRun(run) && 0 < n <= |run.ticks|
    requires Attribution.OwnerRow(run.ticks, n, id, k, i)
    requires run.ticks[n - 1].now - run.ticks[k].now <= LastOwner.LAST_OWNER_TTL
    requires Unbroken(run, id, k, n)
    requires id in run.tables[n].dead
    ensures Attribution.SameName(run.tables[n].dead[id].c, run.ticks[k].live[i])
  {
    var death := GhostHistory.HeldHasHistory(run.tables, run.ticks, n, id);
    var last := GhostHistory.LastRowsIndex(run.ticks[death].live, id);
    assert Present(run.ticks[k].live, id);
    RowsMatch(run, death + 1);
    if !HasOwner(run.ticks[death].live[last]) {
      AnswerableExactly(run, death, last);
    }
    assert run.ticks[death].now <= run.ticks[n - 1].now;
    assert Attribution.OwnerRow(run.ticks, death + 1, id, k, i);
    Attribution.GhostNamed(run.tables, run.ticks, n, id, death, k, i);
  }

  /** A ghost whose last live row was nameless carries the last owner's name
      iff the scans left that row to memory. */
  lemma GhostNamedExactly(run: Run, n: nat, id: string, death: nat, last: nat, k: nat, i: nat)
    requires IsRun(run) && n <= |run.ticks| && GhostHistory.HeldSince(run.ticks, n, id, death)
    requires last < |run.ticks[death].live| && run.ticks[death].live[last].id == id &&
      run.ticks[death].live[last].comm == ""
    requires forall j :: last < j < |run.ticks[death].live| ==> run.ticks[death].live[j].id != id
    requires Attribution.OwnerRow(run.ticks, death + 1, id, k, i)
    requires run.ticks[death].now - run.ticks[k].now <= LastOwner.LAST_OWNER_TTL
    ensures |run.ticks[death].live| == |run.passes[death].raws|
    ensures id in run.tables[n].dead
    ensures Attribution.SameName(run.tables[n].dead[id].c, run.ticks[k].live[i]) <==>
            ScanHistory.Unexplained(run.scans, run.passes, death + 1, last)
  {
    var j := GhostHistory.LastRowsIndex(run.ticks[death].live, id);
    assert j == last;
    RowsMatch(run, death + 1);
    AnswerableExactly(run, death, last);
    if Answerable(run.ticks[death].live[last]) {
      Attribution.GhostNamed(run.tables, run.ticks, n, id, death, k, i);
    } else {
      Attribution.NeverNamed(run.tables, run.ticks, n, id, death);
    }
  }

  /** The pid a ghost shows, as long as its last owner is within two minutes:
      that owner's, matched in this very tick, or none; unless the socket was
      refused to us, or was last held by another process without a name. Then
      its row is shown as it was. */
  lemma GhostPidKept(run: Run, n: nat, id: string, death: nat, m: nat, i: nat)
    requires IsRun(run) && n <= |run.ticks| && GhostHistory.HeldSince(run.ticks, n, id, death)
    requires Attribution.OwnerRow(run.ticks, n, id, m, i)
    requires run.ticks[n - 1].now - run.ticks[m].now <= LastOwner.LAST_OWNER_TTL
    ensures id in run.tables[n].dead
    ensures Attribution.PidOf(LastRows(run.ticks[death].live)[id], run.tables[n].dead[id].c,
                              run.ticks[m].live[i], run.ticks[m], run.ticks[n - 1])
  {
    var last := GhostHistory.LastRowsIndex(run.ticks[death].live, id);
    AnswerableExactly(run, death, last);
    Attribution.GhostPidIsVerified(run.tables, run.ticks, n, id, death, m, i);
  }

  /** Held last under a blank name, by a process that is not the last owner, a
      socket leaves a ghost whose number is never rechecked, for as long as it
      is held. */
  lemma BlankGhostKeepsPid(run: Run, n: nat, id: string, death: nat)
    requires IsRun(run) && n <= |run.ticks| && GhostHistory.HeldSince(run.ticks, n, id, death)
    requires var c := LastRows(run.ticks[death].live)[id];
      c.pid > 0 && c.comm == "" && Attribution.NotOwners(run.ticks, n, id, c.pid)
    ensures id in run.tables[n].dead && run.tables[n].dead[id].c == Ghosts.Corpse(LastRows(run.ticks[death].live)[id])
  {
    var last := GhostHistory.LastRowsIndex(run.ticks[death].live, id);
    AnswerableExactly(run, death, last);
    Attribution.StrangersGhost(run.tables, run.ticks, n, id, death);
  }

  /** A socket refused to us, or the kernel's own, is scanned without a name. */
  lemma RefusedIsNameless(run: Run, k: nat, i: nat)
    requires IsRun(run) && k < |run.ticks| && i < |run.ticks[k].live|
    requires run.ticks[k].live[i].noPid == Denied || run.ticks[k].live[i].noPid == Kernel
    ensures run.ticks[k].live[i].comm == "" && run.ticks[k].live[i].pid == -1
    ensures !Answerable(run.ticks[k].live[i])
  {
    assert Fed(run.passes[k], run.ticks[k].live);
    ScanHistory.RowAfter(run.scans, run.passes, k + 1, i);
    assert SameAttribution(run.passes[k].rows[i], run.ticks[k].live[i]);
  }

  /** It is emitted without one, whatever memory holds for its 4-tuple. */
  lemma NoNameInvented(run: Run, n: nat, i: nat)
    requires IsRun(run) && 0 < n <= |run.ticks| && i < |run.ticks[n - 1].live|
    requires run.ticks[n - 1].live[i].noPid == Denied || run.ticks[n - 1].live[i].noPid == Kernel
    ensures |run.ticks[n - 1].rows| == |run.ticks[n - 1].live|
    ensures run.ticks[n - 1].rows[i].comm == "" && run.ticks[n - 1].rows[i].pid == -1
  {
    RefusedIsNameless(run, n - 1, i);
    RowsMatch(run, n);
    Attribution.LiveAfter(run.tables, run.ticks, n - 1, i);
  }

  /** Nor does the ghost promoted from it ever get one. */
  lemma NoNameInventedForGhost(run: Run, n: nat, id: string, death: nat)
    requires IsRun(run) && n <= |run.ticks| && GhostHistory.HeldSince(run.ticks, n, id, death)
    requires var why := LastRows(run.ticks[death].live)[id].noPid; why == Denied || why == Kernel
    ensures id in run.tables[n].dead && run.tables[n].dead[id].c.comm == ""
  {
    var last := GhostHistory.LastRowsIndex(run.ticks[death].live, id);
    RefusedIsNameless(run, death, last);
    Attribution.NeverNamed(run.tables, run.ticks, n, id, death);
  }
}
