/** Per-process totals across restarts of nethogs (nethogs.go). The figures are
    whole units, where the program adds decimal kilobytes. */
module Hogs {
  import opened Common
  import opened Counters

  const IDLE_FOR: int := 60 * SECOND

  datatype Pid = Pid(number: int)
  datatype Reading = Reading(name: string, sent: nat, recv: nat)
  datatype Proc = Proc(name: string, sent: nat, recv: nat, rawSent: nat, rawRecv: nat, lastSeen: Time)

  type Procs = map<Pid, Proc>

  /** A process after its line of a block; unknown ones start from nothing. */
  function AfterReading(procs: Procs, pid: Pid, b: Reading, now: Time): Proc {
    var p := if pid in procs then procs[pid] else Proc(b.name, 0, 0, 0, 0, now);
    Proc(p.name, p.sent + Credit(p.rawSent, b.sent), p.recv + Credit(p.rawRecv, b.recv), b.sent, b.recv, now)
  }

  /** A process absent from a block goes when the system no longer has it, or
      when it has long been idle and never moved anything. */
  predicate Dropped(p: Proc, pid: Pid, running: set<Pid>, now: Time) {
    pid !in running || (now - p.lastSeen > IDLE_FOR && p.sent == 0 && p.recv == 0)
  }

  ghost predicate Committed(procs: Procs, block: map<Pid, Reading>, running: set<Pid>, now: Time, procs': Procs) {
    && (forall pid :: pid in procs' <==>
          pid in block || (pid in procs && !Dropped(procs[pid], pid, running, now)))
    && (forall pid :: pid in procs' ==>
          procs'[pid] == if pid in block then AfterReading(procs, pid, block[pid], now) else procs[pid])
  }

  class HogTable {
    var procs: Procs
    var block: map<Pid, Reading>

    constructor ()
      ensures procs == map[] && block == map[]
    {
      procs, block := map[], map[];
    }

    /** One line of the pending block; the last line of a pid wins. */
    method Line(pid: Pid, r: Reading)
      modifies this`block
      ensures block == old(block)[pid := r]
    {
      block := block[pid := r];
    }

    /** Applies the pending block, in any order, given the pids that exist. */
    method Commit(running: set<Pid>, now: Time)
      modifies this
      ensures block == map[]
      ensures Committed(old(procs), old(block), running, now, procs)
    {
      Accumulate(now);
      Purge(running, now);
      block := map[];
    }

    method Accumulate(now: Time)
      modifies this`procs
      ensures procs.Keys == old(procs).Keys + block.Keys
      ensures forall pid :: pid in procs ==>
        procs[pid] == if pid in block then AfterReading(old(procs), pid, block[pid], now) else old(procs)[pid]
    {
      var todo := block.Keys;
      while todo != {}
        invariant todo <= block.Keys
        invariant procs.Keys == old(procs).Keys + (block.Keys - todo)
        invariant forall pid :: pid in procs ==>
          procs[pid] ==
            if pid in block && pid !in todo then AfterReading(old(procs), pid, block[pid], now) else old(procs)[pid]
        decreases todo
      {
        var pid :| pid in todo;
        todo := todo - {pid};
        var b := block[pid];
        var p := if pid in procs then procs[pid] else Proc(b.name, 0, 0, 0, 0, now);
        var dSent: int := b.sent - p.rawSent;
        if dSent < 0 {
          dSent := b.sent;
        }
        var dRecv: int := b.recv - p.rawRecv;
        if dRecv < 0 {
          dRecv := b.recv;
        }
        procs := procs[pid := Proc(p.name, p.sent + dSent, p.recv + dRecv, b.sent, b.recv, now)];
      }
    }

    method Purge(running: set<Pid>, now: Time)
      modifies this`procs
      ensures forall pid :: pid in procs <==>
        pid in old(procs) && (pid in block || !Dropped(old(procs)[pid], pid, running, now))
      ensures forall pid :: pid in procs ==> procs[pid] == old(procs)[pid]
    {
      var todo := procs.Keys;
      while todo != {}
        invariant todo <= procs.Keys <= old(procs).Keys
        invariant forall pid :: pid in procs ==> procs[pid] == old(procs)[pid]
        invariant forall pid :: pid in old(procs) && pid !in todo ==>
          (pid in procs <==> pid in block || !Dropped(old(procs)[pid], pid, running, now))
        decreases todo
      {
        var pid :| pid in todo;
        todo := todo - {pid};
        if pid !in block && Dropped(procs[pid], pid, running, now) {
          procs := procs - {pid};
        }
      }
    }
  }

  // ---- a process over a whole run ----

  datatype Commit = Commit(block: map<Pid, Reading>, running: set<Pid>, now: Time)

  ghost predicate IsRun(tables: seq<Procs>, commits: seq<Commit>) {
    && |tables| == |commits| + 1
    && tables[0] == map[]
    && forall i :: 0 <= i < |commits| ==> CommittedAt(tables, commits, i)
  }

  ghost predicate CommittedAt(tables: seq<Procs>, commits: seq<Commit>, i: nat)
    requires i < |commits| < |tables|
  {
    Committed(tables[i], commits[i].block, commits[i].running, commits[i].now, tables[i + 1])
  }

  /** The readings of a pid in the blocks from `b` up to `n`. */
  function SentSince(commits: seq<Commit>, b: nat, n: nat, pid: Pid): seq<nat>
    requires b <= n <= |commits|
  {
    if b == n then []
    else SentSince(commits, b, n - 1, pid) +
         if pid in commits[n - 1].block then [commits[n - 1].block[pid].sent] else []
  }

  function ReceivedSince(commits: seq<Commit>, b: nat, n: nat, pid: Pid): seq<nat>
    requires b <= n <= |commits|
  {
    if b == n then []
    else ReceivedSince(commits, b, n - 1, pid) +
         if pid in commits[n - 1].block then [commits[n - 1].block[pid].recv] else []
  }

  ghost predicate TrackedSince(tables: seq<Procs>, n: nat, pid: Pid, b: nat) {
    && b < n < |tables|
    && pid !in tables[b]
    && forall j :: b < j <= n ==> pid in tables[j]
  }

  /** A total and its last raw reading, as the readings would have them. */
  predicate AddsUp(total: nat, raw: nat, readings: seq<nat>) {
    total == Total(0, readings) && raw == Last(0, readings)
  }

  lemma AddsUpStep(total: nat, raw: nat, readings: seq<nat>, x: nat)
    requires AddsUp(total, raw, readings)
    ensures AddsUp(total + Credit(raw, x), x, readings + [x])
  {
    assert (readings + [x])[..|readings|] == readings;
  }

  lemma {:induction false} TrackedAddsUp(tables: seq<Procs>, commits: seq<Commit>, n: nat, pid: Pid, b: nat)
    requires IsRun(tables, commits) && TrackedSince(tables, n, pid, b)
    ensures pid in tables[n]
    ensures AddsUp(tables[n][pid].sent, tables[n][pid].rawSent, SentSince(commits, b, n, pid))
    ensures AddsUp(tables[n][pid].recv, tables[n][pid].rawRecv, ReceivedSince(commits, b, n, pid))
  {
    assert CommittedAt(tables, commits, n - 1);
    var s, r := SentSince(commits, b, n - 1, pid), ReceivedSince(commits, b, n - 1, pid);
    var block, before := commits[n - 1].block, tables[n - 1];
    if b < n - 1 {
      TrackedAddsUp(tables, commits, n - 1, pid, b);
    }
    if pid in block {
      ReadingAddsUp(before, pid, block[pid], commits[n - 1].now, s, r);
    } else {
      assert s + [] == s && r + [] == r;
    }
  }

  /** One more reading of a process, the first included. */
  lemma ReadingAddsUp(procs: Procs, pid: Pid, reading: Reading, now: Time, s: seq<nat>, r: seq<nat>)
    requires
      if pid in procs then
        AddsUp(procs[pid].sent, procs[pid].rawSent, s) && AddsUp(procs[pid].recv, procs[pid].rawRecv, r)
      else s == [] && r == []
    ensures var p := AfterReading(procs, pid, reading, now);
      AddsUp(p.sent, p.rawSent, s + [reading.sent]) && AddsUp(p.recv, p.rawRecv, r + [reading.recv])
  {
    var p := if pid in procs then procs[pid] else Proc(reading.name, 0, 0, 0, 0, now);
    AddsUpStep(p.sent, p.rawSent, s, reading.sent);
    AddsUpStep(p.recv, p.rawRecv, r, reading.recv);
  }

  /** A process' totals survive restarts of nethogs: over any run they are the
      sum of the last reading of every nondecreasing stretch. */
  lemma TotalsSurviveRestarts(tables: seq<Procs>, commits: seq<Commit>, n: nat, pid: Pid, b: nat)
    requires IsRun(tables, commits) && TrackedSince(tables, n, pid, b)
    ensures pid in tables[n]
    ensures tables[n][pid].sent == Peaks([0] + SentSince(commits, b, n, pid))
    ensures tables[n][pid].recv == Peaks([0] + ReceivedSince(commits, b, n, pid))
  {
    TrackedAddsUp(tables, commits, n, pid, b);
    TotalIsPeaks(0, SentSince(commits, b, n, pid));
    TotalIsPeaks(0, ReceivedSince(commits, b, n, pid));
  }

  /** So no process is shown with more than it truly moved while it was kept,
      and with exactly that iff every block caught all of it. */
  lemma TrackedNeverOverCounts(tables: seq<Procs>, commits: seq<Commit>, n: nat, pid: Pid, b: nat, sent: seq<nat>,
                               recv: seq<nat>)
    requires IsRun(tables, commits) && TrackedSince(tables, n, pid, b)
    requires AllMoved(0, SentSince(commits, b, n, pid), sent) && AllMoved(0, ReceivedSince(commits, b, n, pid), recv)
    ensures pid in tables[n]
    ensures tables[n][pid].sent <= Sum(sent) && tables[n][pid].recv <= Sum(recv)
    ensures tables[n][pid].sent == Sum(sent) <==> AllCaught(0, SentSince(commits, b, n, pid), sent)
    ensures tables[n][pid].recv == Sum(recv) <==> AllCaught(0, ReceivedSince(commits, b, n, pid), recv)
  {
    TrackedAddsUp(tables, commits, n, pid, b);
    NeverOverCounts(0, SentSince(commits, b, n, pid), sent);
    NeverOverCounts(0, ReceivedSince(commits, b, n, pid), recv);
  }

  // ---- which processes are kept ----

  /** Block `j` is the last of the first `n` to list the process. Since then it
      has been running at each commit, and either it had moved something by then
      or no commit was more than a minute later. */
  ghost predicate KeptSince(tables: seq<Procs>, commits: seq<Commit>, n: nat, pid: Pid, j: nat) {
    && j < n <= |commits| < |tables| && pid in commits[j].block && pid in tables[j + 1]
    && forall i :: j < i < n ==>
      && pid !in commits[i].block && pid in commits[i].running
      && (commits[i].now - commits[j].now <= 60 * SECOND ||
          tables[j + 1][pid].sent > 0 || tables[j + 1][pid].recv > 0)
  }

  /** A process is in the table iff some block listed it and it has been kept
      since, with the totals it had then. */
  lemma {:induction false} KeptExactly(tables: seq<Procs>, commits: seq<Commit>, n: nat, pid: Pid)
    requires IsRun(tables, commits) && n <= |commits|
    ensures pid in tables[n] <==> exists j: nat :: KeptSince(tables, commits, n, pid, j)
    ensures forall j: nat :: KeptSince(tables, commits, n, pid, j) ==>
      pid in tables[n] && tables[n][pid] == tables[j + 1][pid] && tables[n][pid].lastSeen == commits[j].now
  {
    if n > 0 {
      KeptExactly(tables, commits, n - 1, pid);
      assert CommittedAt(tables, commits, n - 1);
      if pid in commits[n - 1].block {
        assert KeptSince(tables, commits, n, pid, n - 1);
      } else if pid in tables[n] {
        var j: nat :| KeptSince(tables, commits, n - 1, pid, j);
        assert KeptSince(tables, commits, n, pid, j);
      }
      forall j: nat | KeptSince(tables, commits, n, pid, j) && j < n - 1
        ensures KeptSince(tables, commits, n - 1, pid, j)
      {
      }
    }
  }
}
