/** Who last owned each socket 4-tuple (lastowner.go). */
module LastOwner {
  import opened Common
  import opened Conns

  const LAST_OWNER_TTL: int := 120 * SECOND

  datatype Memo = Memo(pid: int, comm: string, app: string, start: nat, seen: Time)

  type Memory = map<string, Memo>

  /** What /proc answers: the start time of a process at a given instant. The
      table may change between any two readings. */
  type Answers = (nat, int) -> Option<nat>

  /** The live process table. Each reading happens at its own instant. */
  class ProcTable {
    const answers: Answers
    var instant: nat

    constructor (answers: Answers)
      ensures this.answers == answers && instant == 0
    {
      this.answers := answers;
      instant := 0;
    }

    method ReadStart(pid: int) returns (start: Option<nat>)
      modifies this
      ensures instant == old(instant) + 1 && start == answers(old(instant), pid)
    {
      start := answers(instant, pid);
      instant := instant + 1;
    }
  }

  /** A half-open stretch of instants during which some readings were made. */
  datatype Window = Window(answers: Answers, from: nat, to: nat)

  predicate AliveAt(m: Memo, answers: Answers, t: nat) {
    m.pid > 0 && m.start != 0 && answers(t, m.pid) == Some(m.start)
  }

  ghost predicate SeenAlive(m: Memo, w: Window) {
    exists t: nat :: w.from <= t < w.to && AliveAt(m, w.answers, t)
  }

  /** The process run is not vouched for: it cannot be, or a reading said so. */
  ghost predicate SeenDead(m: Memo, w: Window) {
    m.pid <= 0 || m.start == 0 || exists t: nat :: w.from <= t < w.to && !AliveAt(m, w.answers, t)
  }

  /** The value a reading contributes: 0 stands for "could not be read". */
  function StartOrZero(answer: Option<nat>): nat {
    match answer
    case None => 0
    case Some(v) => v
  }

  ghost predicate ReadIn(w: Window, pid: int, start: nat) {
    exists t: nat :: w.from <= t < w.to && StartOrZero(w.answers(t, pid)) == start
  }

  function MemoOf(c: Conn, start: nat, now: Time): Memo {
    Memo(c.pid, c.comm, c.app, start, now)
  }

  /** The memory after noting the owned rows in order, given the start times
      read for their pids. */
  function Remember(m: Memory, rows: seq<Conn>, starts: map<int, nat>, now: Time): Memory {
    if rows == [] then m
    else
      var before := Remember(m, rows[..|rows| - 1], starts, now);
      var c := rows[|rows| - 1];
      if HasOwner(c) && c.pid in starts then before[c.id := MemoOf(c, starts[c.pid], now)] else before
  }

  function Forget(m: Memory, now: Time): Memory {
    m - set id | id in m && now - m[id].seen > LAST_OWNER_TTL
  }

  /** Every owned row's pid was read once in the window, and nothing else. */
  ghost predicate StartsRead(rows: seq<Conn>, starts: map<int, nat>, w: Window) {
    && (forall i :: 0 <= i < |rows| && HasOwner(rows[i]) ==> rows[i].pid in starts)
    && (forall pid :: pid in starts ==> ReadIn(w, pid, starts[pid]))
  }

  /** `r` is `c` after memory was asked who owned it. */
  ghost predicate Resolved(m: Memory, c: Conn, w: Window, r: Conn) {
    if c.id !in m || m[c.id].comm == "" then r == c
    else
      var o := m[c.id];
      || (SeenAlive(o, w) && r == c.(comm := o.comm, app := o.app, inherit := true, pid := o.pid))
      || (SeenDead(o, w) && r == c.(comm := o.comm, app := o.app, inherit := true, wasPid := o.pid))
  }

  /** `r` is `c` after its pid was checked against the remembered process run. */
  ghost predicate Verified(m: Memory, c: Conn, w: Window, r: Conn) {
    if c.pid <= 0 || c.id !in m || m[c.id].pid != c.pid then r == c
    else
      || (SeenAlive(m[c.id], w) && r == c)
      || (SeenDead(m[c.id], w) && r == c.(wasPid := c.pid, pid := -1, inherit := true))
  }

  lemma WindowWidens(m: Memo, w: Window, wide: Window)
    requires w.answers == wide.answers && wide.from <= w.from && w.to <= wide.to
    ensures SeenAlive(m, w) ==> SeenAlive(m, wide)
    ensures SeenDead(m, w) ==> SeenDead(m, wide)
  {
    if SeenAlive(m, w) {
      var t: nat :| w.from <= t < w.to && AliveAt(m, w.answers, t);
      assert AliveAt(m, wide.answers, t);
    }
    if SeenDead(m, w) && m.pid > 0 && m.start != 0 {
      var t: nat :| w.from <= t < w.to && !AliveAt(m, w.answers, t);
      assert !AliveAt(m, wide.answers, t);
    }
  }

  class LastOwners {
    var m: Memory
    const procs: ProcTable

    constructor (procs: ProcTable)
      ensures this.procs == procs && m == map[]
    {
      this.procs := procs;
      m := map[];
    }

    /** Whether the pid still names the recorded process run; at most one
        reading, none when there is nothing to compare. */
    method Alive(memo: Memo) returns (alive: bool)
      modifies procs
      ensures old(procs.instant) <= procs.instant
      ensures alive ==> SeenAlive(memo, Window(procs.answers, old(procs.instant), procs.instant))
      ensures !alive ==> SeenDead(memo, Window(procs.answers, old(procs.instant), procs.instant))
    {
      if memo.pid <= 0 || memo.start == 0 {
        return false;
      }
      ghost var t := procs.instant;
      var start := procs.ReadStart(memo.pid);
      alive := start == Some(memo.start);
      assert AliveAt(memo, procs.answers, t) <==> alive;
    }

    /** Notes the owner of every owned row, then drops entries past the TTL. */
    method Record(live: array<Conn>, now: Time) returns (ghost starts: map<int, nat>)
      modifies this`m, procs
      ensures old(procs.instant) <= procs.instant
      ensures StartsRead(live[..], starts, Window(procs.answers, old(procs.instant), procs.instant))
      ensures m == Forget(Remember(old(m), live[..], starts, now), now)
    {
      var read: map<int, nat> := map[];
      var i := 0;
      while i < live.Length
        invariant 0 <= i <= live.Length
        invariant old(procs.instant) <= procs.instant
        invariant StartsRead(live[..i], read, Window(procs.answers, old(procs.instant), procs.instant))
        invariant m == Remember(old(m), live[..i], read, now)
      {
        var c := live[i];
        assert live[..i + 1][..i] == live[..i];
        ghost var before := read;
        if HasOwner(c) {
          if c.pid !in read {
            ghost var t := procs.instant;
            var answer := procs.ReadStart(c.pid);
            read := read[c.pid := StartOrZero(answer)];
            assert StartOrZero(procs.answers(t, c.pid)) == read[c.pid];
          }
          RememberReadsOnlyOwned(old(m), live[..i], before, read, now);
          m := m[c.id := Memo(c.pid, c.comm, c.app, read[c.pid], now)];
        }
        forall pid | pid in read
          ensures ReadIn(Window(procs.answers, old(procs.instant), procs.instant), pid, read[pid])
        {
          if pid in before {
            assert ReadIn(Window(procs.answers, old(procs.instant), procs.instant), pid, before[pid]);
          }
        }
        i := i + 1;
      }
      assert live[..i] == live[..];
      starts := read;
      m := Forget(m, now);
    }

    /** Fills in the owner of a row from memory; the pid only if it is still
        the same process run. */
    method Resolve(c: Conn) returns (r: Conn, filled: bool)
      modifies procs
      ensures old(procs.instant) <= procs.instant
      ensures Resolved(m, c, Window(procs.answers, old(procs.instant), procs.instant), r)
      ensures filled <==> c.id in m && m[c.id].comm != ""
    {
      if c.id !in m || m[c.id].comm == "" {
        return c, false;
      }
      var o := m[c.id];
      r := c.(comm := o.comm, app := o.app, inherit := true);
      var alive := Alive(o);
      r := if alive then r.(pid := o.pid) else r.(wasPid := o.pid);
      filled := true;
    }

    /** Demotes a pid that no longer names the remembered process run. */
    method Verify(c: Conn) returns (r: Conn)
      modifies procs
      ensures old(procs.instant) <= procs.instant
      ensures Verified(m, c, Window(procs.answers, old(procs.instant), procs.instant), r)
    {
      if c.pid <= 0 || c.id !in m || m[c.id].pid != c.pid {
        return c;
      }
      var alive := Alive(m[c.id]);
      r := if alive then c else c.(wasPid := c.pid, pid := -1, inherit := true);
    }
  }

  /** Learning the start time of one more pid changes nothing for rows whose
      pids were known already. */
  lemma RememberReadsOnlyOwned(m: Memory, rows: seq<Conn>, starts: map<int, nat>, more: map<int, nat>, now: Time)
    requires forall i :: 0 <= i < |rows| && HasOwner(rows[i]) ==> rows[i].pid in starts
    requires forall pid :: pid in starts ==> pid in more && more[pid] == starts[pid]
    ensures Remember(m, rows, starts, now) == Remember(m, rows, more, now)
  {
    if rows != [] {
      RememberReadsOnlyOwned(m, rows[..|rows| - 1], starts, more, now);
    }
  }

  /** Row `i` is the last owned row carrying this id. */
  ghost predicate LastOwnedAt(rows: seq<Conn>, id: string, i: nat) {
    && i < |rows| && rows[i].id == id && HasOwner(rows[i])
    && forall j :: i < j < |rows| && rows[j].id == id ==> !HasOwner(rows[j])
  }

  ghost predicate OwnedIn(rows: seq<Conn>, id: string) {
    exists i :: 0 <= i < |rows| && rows[i].id == id && HasOwner(rows[i])
  }

  lemma LastOwnedExists(rows: seq<Conn>, id: string) returns (i: nat)
    requires OwnedIn(rows, id)
    ensures LastOwnedAt(rows, id, i)
  {
    var n := |rows| - 1;
    if rows[n].id == id && HasOwner(rows[n]) {
      i := n;
    } else {
      var k :| 0 <= k < |rows| && rows[k].id == id && HasOwner(rows[k]);
      assert rows[..n][k] == rows[k];
      i := LastOwnedExists(rows[..n], id);
    }
  }

  /** One recording, as a question about its rows: the last owned row of an id
      is what is remembered of it. */
  lemma {:induction false} RememberOwned(m: Memory, rows: seq<Conn>, starts: map<int, nat>, now: Time, id: string,
                                         i: nat)
    requires forall j :: 0 <= j < |rows| && HasOwner(rows[j]) ==> rows[j].pid in starts
    requires LastOwnedAt(rows, id, i)
    ensures id in Remember(m, rows, starts, now)
    ensures Remember(m, rows, starts, now)[id] == MemoOf(rows[i], starts[rows[i].pid], now)
  {
    var n := |rows| - 1;
    if i < n {
      var front := rows[..n];
      assert LastOwnedAt(front, id, i);
      RememberOwned(m, front, starts, now, id, i);
    }
  }

  /** An id without an owned row keeps what was known of it. */
  lemma {:induction false} RememberUnowned(m: Memory, rows: seq<Conn>, starts: map<int, nat>, now: Time, id: string)
    requires !OwnedIn(rows, id)
    ensures id in Remember(m, rows, starts, now) <==> id in m
    ensures id in m ==> Remember(m, rows, starts, now)[id] == m[id]
  {
    if rows != [] {
      var n := |rows| - 1;
      assert forall j :: 0 <= j < n ==> rows[..n][j] == rows[j];
      RememberUnowned(m, rows[..n], starts, now, id);
    }
  }
}
