/** What a row may say about its process, live or dead: which name it carries
    and when its pid may still be shown (ghosts.go, lastowner.go). */
module Attribution {
  import opened Common
  import opened Conns
  import opened LastOwner
  import opened Ghosts
  import opened GhostHistory

  /** Row `i` of tick `k` is the last word on who owned the id, as seen after
      `n` ticks. */
  ghost predicate OwnerRow(ticks: seq<Tick>, n: nat, id: string, k: nat, i: nat) {
    LastOwned(ticks, n, id, k) && LastOwnedAt(ticks[k].live, id, i)
  }

  ghost predicate SameName(r: Conn, owner: Conn) {
    r.comm == owner.comm && r.app == owner.app
  }

  lemma LastOwnedAtUnique(rows: seq<Conn>, id: string, i: nat, j: nat)
    requires LastOwnedAt(rows, id, i) && LastOwnedAt(rows, id, j)
    ensures i == j
  {
  }

  /** What memory holds for an id is its owner row's, if that is recent. */
  lemma MemoOfOwner(states: seq<State>, ticks: seq<Tick>, n: nat, id: string, k: nat, i: nat)
    requires IsRun(states, ticks) && Clocked(ticks) && n <= |ticks|
    requires OwnerRow(ticks, n, id, k, i)
    requires ticks[n - 1].now - ticks[k].now <= LAST_OWNER_TTL
    ensures id in states[n].memory && RememberedRow(ticks[k], ticks[k].live[i], states[n].memory[id])
  {
    HistoryIsRemembered(states, ticks, n, id, k);
    var memo := states[n].memory[id];
    var j: nat :| LastOwnedAt(ticks[k].live, id, j) && RememberedRow(ticks[k], ticks[k].live[j], memo);
    LastOwnedAtUnique(ticks[k].live, id, i, j);
  }

  /** The live row emitted for a scanned row. */
  lemma LiveAfter(states: seq<State>, ticks: seq<Tick>, k: nat, i: nat)
    requires IsRun(states, ticks) && k < |ticks| && i < |ticks[k].live|
    ensures |ticks[k].rows| == |ticks[k].live|
    ensures LiveRow(states[k + 1].memory, ticks[k].live[i], ticks[k].window, ticks[k].rows[i])
  {
    assert StepAt(states, ticks, k);
  }

  // ---- names ----

  /** A live row the kernel will not attribute is named after the last owner
      of its 4-tuple, for two minutes. */
  lemma LiveRowNamed(states: seq<State>, ticks: seq<Tick>, n: nat, row: nat, k: nat, i: nat)
    requires IsRun(states, ticks) && Clocked(ticks) && 0 < n <= |ticks|
    requires row < |ticks[n - 1].live| == |ticks[n - 1].rows| && Answerable(ticks[n - 1].live[row])
    requires OwnerRow(ticks, n, ticks[n - 1].live[row].id, k, i)
    requires ticks[n - 1].now - ticks[k].now <= LAST_OWNER_TTL
    ensures SameName(ticks[n - 1].rows[row], ticks[k].live[i]) && ticks[n - 1].rows[row].inherit
  {
    MemoOfOwner(states, ticks, n, ticks[n - 1].live[row].id, k, i);
    LiveAfter(states, ticks, n - 1, row);
  }

  /** Only rows with a name are remembered. */
  lemma {:induction false} MemosAreNamed(states: seq<State>, ticks: seq<Tick>, n: nat, id: string)
    requires IsRun(states, ticks) && n <= |ticks| && id in states[n].memory
    ensures states[n].memory[id].comm != ""
  {
    MemoryAfter(states, ticks, n - 1, id);
    if !OwnedIn(ticks[n - 1].live, id) {
      MemosAreNamed(states, ticks, n - 1, id);
    }
  }

  /** What memory could not name when its socket was last live, it has no entry
      for as long as that socket stays away. */
  lemma {:induction false} StaysForgotten(states: seq<State>, ticks: seq<Tick>, n: nat, id: string, k: nat)
    requires IsRun(states, ticks) && n <= |ticks| && LastLive(ticks, n, id, k)
    requires id in states[k + 1].prev && Answerable(states[k + 1].prev[id])
    ensures id !in states[n].memory
  {
    if k + 1 == n {
      PrevAfter(states, ticks, k, id);
      if id in states[n].memory {
        MemosAreNamed(states, ticks, n, id);
      }
    } else {
      StaysForgotten(states, ticks, n - 1, id, k);
      assert !Present(ticks[n - 1].live, id);
      MemoryAfter(states, ticks, n - 1, id);
    }
  }

  function Demoted(c: Conn): Conn {
    c.(wasPid := c.pid, pid := -1, inherit := true)
  }

  /** A ghost's row before and after a tick. */
  predicate AtMostDemoted(c: Conn, r: Conn) {
    r == c || (c.pid > 0 && r == Demoted(c))
  }

  /** One refreshing of the ghost `b` promoted from `c`, which memory could not
      name if it wanted a name. */
  lemma RefreshedRow(m: Memory, c: Conn, b: Conn, w: Window, r: Conn)
    requires GhostRow(m, b, w, r) && AtMostDemoted(Corpse(c), b) && (Answerable(c) ==> c.id !in m)
    ensures AtMostDemoted(Corpse(c), r) && AtMostDemoted(b, r)
    ensures c.id !in m || m[c.id].pid != b.pid ==> r == b
  {
  }

  /** What a ghost is promoted from. */
  lemma Promoted(states: seq<State>, ticks: seq<Tick>, n: nat, id: string, k: nat)
    requires IsRun(states, ticks) && n <= |ticks| && HeldSince(ticks, n, id, k)
    ensures id in states[k + 1].prev && states[k + 1].prev[id].id == id
    ensures Answerable(states[k + 1].prev[id]) ==> id !in states[n].memory
  {
    PrevAfter(states, ticks, k, id);
    PrevKeeps(states, ticks, k, id);
    if Answerable(states[k + 1].prev[id]) {
      StaysForgotten(states, ticks, n, id, k);
    }
  }

  /** A ghost is the row it was promoted from, frozen, or that row with its pid
      moved to WasPID; nothing else ever happens to it. The second try at a name
      finds one in no run. */
  lemma {:induction false} GhostIsItsRow(states: seq<State>, ticks: seq<Tick>, n: nat, id: string, k: nat)
    requires IsRun(states, ticks) && n <= |ticks| && HeldSince(ticks, n, id, k)
    ensures id in states[k + 1].prev && id in states[n].dead
    ensures AtMostDemoted(Corpse(states[k + 1].prev[id]), states[n].dead[id].c)
    decreases n, 1
  {
    GhostBefore(states, ticks, n, id, k);
    RefreshedRow(states[n].memory, states[k + 1].prev[id], Before(states, n, id, k).value, ticks[n - 1].window,
                 states[n].dead[id].c);
  }

  /** What one tick refreshes. */
  lemma {:induction false} GhostBefore(states: seq<State>, ticks: seq<Tick>, n: nat, id: string, k: nat)
    requires IsRun(states, ticks) && n <= |ticks| && HeldSince(ticks, n, id, k)
    ensures id in states[k + 1].prev && states[k + 1].prev[id].id == id
    ensures id in states[n].dead && Before(states, n, id, k).Some?
    ensures GhostRow(states[n].memory, Before(states, n, id, k).value, ticks[n - 1].window, states[n].dead[id].c)
    ensures AtMostDemoted(Corpse(states[k + 1].prev[id]), Before(states, n, id, k).value)
    ensures Answerable(states[k + 1].prev[id]) ==> id !in states[n].memory
    ensures k + 2 < n ==> HeldSince(ticks, n - 1, id, k)
    decreases n, 0
  {
    GhostRowAfter(states, ticks, n, id, k);
    Promoted(states, ticks, n, id, k);
    if k + 2 < n {
      GhostIsItsRow(states, ticks, n - 1, id, k);
    }
  }

  /** What a ghost may show of the row it was promoted from: all of it, as a dead
      row, or with its pid parked. */
  predicate Shows(p: Conn, g: Conn) {
    && IsDead(g) && SameRecord(p, g) && g.comm == p.comm && g.app == p.app
    && ((g.pid == p.pid && g.wasPid == p.wasPid && g.inherit == p.inherit) ||
        (p.pid > 0 && g.pid == -1 && g.wasPid == p.pid && g.inherit))
  }

  lemma ShownOrParked(p: Conn, g: Conn)
    requires AtMostDemoted(Corpse(p), g)
    ensures Shows(p, g)
  {
  }

  /** What a ghost shows: a dead row, with all that its socket's last live row
      said of it, under the name it was promoted with, and with the pid it was
      promoted with or that pid parked. */
  lemma GhostShows(states: seq<State>, ticks: seq<Tick>, n: nat, id: string, k: nat)
    requires IsRun(states, ticks) && n <= |ticks| && HeldSince(ticks, n, id, k)
    ensures id in states[k + 1].prev && id in states[n].dead
    ensures SameRecord(LastRows(ticks[k].live)[id], states[k + 1].prev[id])
    ensures Shows(states[k + 1].prev[id], states[n].dead[id].c)
  {
    PrevAfter(states, ticks, k, id);
    NamingKeepsRecord(states[k + 1].memory, LastRows(ticks[k].live)[id], ticks[k].window, states[k + 1].prev[id]);
    GhostIsItsRow(states, ticks, n, id, k);
    ShownOrParked(states[k + 1].prev[id], states[n].dead[id].c);
  }

  /** A ghost is filed under its own id. */
  lemma GhostId(states: seq<State>, ticks: seq<Tick>, n: nat, id: string)
    requires IsRun(states, ticks) && n <= |ticks| && id in states[n].dead
    ensures states[n].dead[id].c.id == id
  {
    var k := HeldHasHistory(states, ticks, n, id);
    GhostIsItsRow(states, ticks, n, id, k);
    Promoted(states, ticks, n, id, k);
  }

  lemma GhostsInOrder(states: seq<State>, ticks: seq<Tick>, n: nat)
    requires IsRun(states, ticks) && 0 < n <= |ticks|
    ensures var t := ticks[n - 1];
      |t.live| == |t.rows| && Distinct(t.order) && forall id :: id in t.order <==> id in states[n].dead
  {
    assert StepAt(states, ticks, n - 1);
  }

  lemma GhostIds(states: seq<State>, ticks: seq<Tick>, n: nat)
    requires IsRun(states, ticks) && n <= |ticks|
    ensures forall id :: id in states[n].dead ==> states[n].dead[id].c.id == id
  {
    forall id | id in states[n].dead
      ensures states[n].dead[id].c.id == id
    {
      GhostId(states, ticks, n, id);
    }
  }

  lemma AppendedIds(rows: seq<Conn>, order: seq<string>, dead: map<string, Ghost>, out: seq<Conn>)
    requires Appended(rows, order, dead, out) && forall id :: id in dead ==> dead[id].c.id == id
    ensures |out| == |rows| + |order| && forall k :: 0 <= k < |order| ==> out[|rows| + k].id == order[k]
  {
  }

  lemma OnceFrom(out: seq<Conn>, from: nat, order: seq<string>, id: string)
    requires |out| == from + |order| && Distinct(order)
    requires forall k :: 0 <= k < |order| ==> out[from + k].id == order[k]
    ensures |set r | from <= r < |out| && out[r].id == id| == if id in order then 1 else 0
  {
    var at := set r | from <= r < |out| && out[r].id == id;
    assert forall r :: from <= r < |out| ==> out[r].id == order[r - from];
    if id in order {
      var k :| 0 <= k < |order| && order[k] == id;
      assert at == {from + k};
    } else {
      assert at == {};
    }
  }

  /** Past the live rows a tick returns each ghost the history calls for once,
      and nothing else. */
  lemma GhostsReturnedOnce(states: seq<State>, ticks: seq<Tick>, n: nat, out: seq<Conn>, id: string)
    requires IsRun(states, ticks) && 0 < n <= |ticks|
    requires Appended(ticks[n - 1].rows, ticks[n - 1].order, states[n].dead, out)
    ensures |ticks[n - 1].live| <= |out|
    ensures |set r | |ticks[n - 1].live| <= r < |out| && out[r].id == id| ==
      if exists k: nat :: HeldSince(ticks, n, id, k) then 1 else 0
  {
    GhostsInOrder(states, ticks, n);
    GhostIds(states, ticks, n);
    AppendedIds(ticks[n - 1].rows, ticks[n - 1].order, states[n].dead, out);
    OnceFrom(out, |ticks[n - 1].live|, ticks[n - 1].order, id);
    GhostSetIsHistory(states, ticks, n, id);
  }

  /** One tick of a ghost. */
  lemma GhostStep(states: seq<State>, ticks: seq<Tick>, n: nat, id: string, k: nat)
    requires IsRun(states, ticks) && n <= |ticks| && HeldSince(ticks, n, id, k)
    ensures id in states[k + 1].prev && id in states[n].dead && Before(states, n, id, k).Some?
    ensures var c := Before(states, n, id, k).value;
      && AtMostDemoted(c, states[n].dead[id].c)
      && (id !in states[n].memory || states[n].memory[id].pid != c.pid ==> states[n].dead[id].c == c)
    ensures k + 2 < n ==> HeldSince(ticks, n - 1, id, k)
  {
    GhostBefore(states, ticks, n, id, k);
    RefreshedRow(states[n].memory, states[k + 1].prev[id], Before(states, n, id, k).value, ticks[n - 1].window,
                 states[n].dead[id].c);
  }

  /** So a ghost has the name it was promoted with for as long as it is held,
      and none if it was promoted with none. */
  lemma GhostKeepsName(states: seq<State>, ticks: seq<Tick>, n: nat, id: string, k: nat)
    requires IsRun(states, ticks) && n <= |ticks| && HeldSince(ticks, n, id, k)
    ensures id in states[k + 1].prev && id in states[n].dead && SameName(states[n].dead[id].c, states[k + 1].prev[id])
  {
    GhostIsItsRow(states, ticks, n, id, k);
  }

  /** A ghost carries the name of the last owner of its 4-tuple for as long as
      it is held, whatever the memory has forgotten since. Only the row it was
      promoted from must have been recent. */
  lemma GhostNamed(states: seq<State>, ticks: seq<Tick>, n: nat, id: string, death: nat, k: nat, i: nat)
    requires IsRun(states, ticks) && Clocked(ticks) && n <= |ticks| && HeldSince(ticks, n, id, death)
    requires var c := LastRows(ticks[death].live)[id]; HasOwner(c) || Answerable(c)
    requires OwnerRow(ticks, death + 1, id, k, i)
    requires ticks[death].now - ticks[k].now <= LAST_OWNER_TTL
    ensures id in states[n].dead && SameName(states[n].dead[id].c, ticks[k].live[i])
  {
    PromotedNamed(states, ticks, id, death, k, i);
    GhostKeepsName(states, ticks, n, id, death);
  }

  /** A last row that is owned is its own last word on who owned the id. */
  lemma LastIsOwner(ticks: seq<Tick>, id: string, death: nat, k: nat, i: nat)
    requires death < |ticks| && Present(ticks[death].live, id) && HasOwner(LastRows(ticks[death].live)[id])
    requires OwnerRow(ticks, death + 1, id, k, i)
    ensures ticks[k].live[i] == LastRows(ticks[death].live)[id]
  {
    var last := LastRowsIndex(ticks[death].live, id);
    assert LastOwnedAt(ticks[death].live, id, last);
    LastOwnedAtUnique(ticks[k].live, id, i, last);
  }

  /** The row a ghost is promoted from carries its owner's name. */
  lemma PromotedNamed(states: seq<State>, ticks: seq<Tick>, id: string, death: nat, k: nat, i: nat)
    requires IsRun(states, ticks) && Clocked(ticks) && death < |ticks| && Present(ticks[death].live, id)
    requires var c := LastRows(ticks[death].live)[id]; HasOwner(c) || Answerable(c)
    requires OwnerRow(ticks, death + 1, id, k, i)
    requires ticks[death].now - ticks[k].now <= LAST_OWNER_TTL
    ensures id in states[death + 1].prev && states[death + 1].prev[id].comm != ""
    ensures SameName(states[death + 1].prev[id], ticks[k].live[i])
  {
    PrevAfter(states, ticks, death, id);
    if HasOwner(LastRows(ticks[death].live)[id]) {
      LastIsOwner(ticks, id, death, k, i);
    } else {
      MemoOfOwner(states, ticks, death + 1, id, k, i);
    }
  }

  /** A nameless row that memory may not speak for stays nameless, also as a
      ghost. */
  lemma NeverNamed(states: seq<State>, ticks: seq<Tick>, n: nat, id: string, k: nat)
    requires IsRun(states, ticks) && n <= |ticks| && HeldSince(ticks, n, id, k)
    requires var c := LastRows(ticks[k].live)[id]; c.comm == "" && !Answerable(c)
    ensures id in states[n].dead && states[n].dead[id].c.comm == ""
    ensures states[n].dead[id].c.noPid == LastRows(ticks[k].live)[id].noPid
  {
    PrevAfter(states, ticks, k, id);
    GhostIsItsRow(states, ticks, n, id, k);
  }

  // ---- pids ----

  /** Two readings, one when the owner was recorded and one now, gave the same
      start time: the number still names the same process run. */
  ghost predicate SameRun(seen: Tick, now: Tick, pid: int) {
    exists start: nat :: start != 0 && AliveIn(seen.window, pid, start) && AliveIn(now.window, pid, start)
  }

  ghost predicate AliveIn(w: Window, pid: int, start: nat) {
    exists t: nat :: w.from <= t < w.to && w.answers(t, pid) == Some(start)
  }

  lemma SeenAliveIsSameRun(seen: Tick, now: Tick, c: Conn, memo: Memo)
    requires RememberedRow(seen, c, memo) && SeenAlive(memo, now.window)
    ensures SameRun(seen, now, memo.pid)
  {
    var t: nat :| now.window.from <= t < now.window.to && AliveAt(memo, now.window.answers, t);
    assert now.window.answers(t, memo.pid) == Some(memo.start);
    assert AliveIn(now.window, memo.pid, memo.start);
    var u: nat :| seen.window.from <= u < seen.window.to &&
      StartOrZero(seen.window.answers(u, c.pid)) == memo.start;
    assert seen.window.answers(u, memo.pid) == Some(memo.start);
    assert AliveIn(seen.window, memo.pid, memo.start);
  }

  /** A live row that the kernel gave no pid shows one only if a reading in
      this very tick matched the start time recorded when that process was
      last seen to own the 4-tuple; and that was within two minutes. */
  lemma InheritedPidIsVerified(states: seq<State>, ticks: seq<Tick>, n: nat, row: nat)
    requires IsRun(states, ticks) && Clocked(ticks) && 0 < n <= |ticks|
    requires row < |ticks[n - 1].live| == |ticks[n - 1].rows|
    requires ticks[n - 1].live[row].pid <= 0 < ticks[n - 1].rows[row].pid
    ensures exists k: nat, i: nat ::
      && OwnerRow(ticks, n, ticks[n - 1].live[row].id, k, i)
      && ticks[n - 1].now - ticks[k].now <= LAST_OWNER_TTL
      && ticks[n - 1].rows[row].pid == ticks[k].live[i].pid
      && SameRun(ticks[k], ticks[n - 1], ticks[n - 1].rows[row].pid)
  {
    var id := ticks[n - 1].live[row].id;
    LiveAfter(states, ticks, n - 1, row);
    var memo := states[n].memory[id];
    var k := MemoryHasHistory(states, ticks, n, id);
    var i: nat :| LastOwnedAt(ticks[k].live, id, i) && RememberedRow(ticks[k], ticks[k].live[i], memo);
    SeenAliveIsSameRun(ticks[k], ticks[n - 1], ticks[k].live[i], memo);
    assert OwnerRow(ticks, n, id, k, i);
  }

  /** The row shows the owner's pid, or stands without one, the owner's number
      in WasPID. */
  predicate OwnersPid(r: Conn, owner: Conn) {
    r.pid == owner.pid || PidParked(r, owner)
  }

  predicate PidParked(r: Conn, owner: Conn) {
    r.pid == -1 && r.wasPid == owner.pid && r.inherit
  }

  /** A row that names its owner, or that the scanner left without one for
      memory to name. */
  predicate Attributable(c: Conn) {
    HasOwner(c) || (Answerable(c) && c.pid == -1)
  }

  lemma PromotedPid(states: seq<State>, ticks: seq<Tick>, id: string, death: nat, m: nat, i: nat)
    requires IsRun(states, ticks) && Clocked(ticks) && death < |ticks| && Present(ticks[death].live, id)
    requires OwnerRow(ticks, death + 1, id, m, i)
    requires var c := LastRows(ticks[death].live)[id]; FromScan(c) && (Attributable(c) || c.pid == ticks[m].live[i].pid)
    requires ticks[death].now - ticks[m].now <= LAST_OWNER_TTL
    ensures id in states[death + 1].prev
    ensures OwnersPid(states[death + 1].prev[id], ticks[m].live[i])
  {
    PrevAfter(states, ticks, death, id);
    if HasOwner(LastRows(ticks[death].live)[id]) {
      LastIsOwner(ticks, id, death, m, i);
    } else if Answerable(LastRows(ticks[death].live)[id]) {
      MemoOfOwner(states, ticks, death + 1, id, m, i);
    }
  }

  /** What a ghost may say about a pid: its last owner's, matched in this very
      tick with the process run that owned the 4-tuple, or none at all with
      that number in WasPID. */
  ghost predicate PidKept(g: Conn, owner: Conn, seen: Tick, now: Tick) {
    (g.pid == owner.pid && SameRun(seen, now, g.pid)) || PidParked(g, owner)
  }

  /** What a ghost of the last row `c` does say: that, if the row had a name, or
      was left to memory, or was held by its owner without a name. Any other
      row, refused to us or held by another process without a name, is shown as
      it was. */
  ghost predicate PidOf(c: Conn, g: Conn, owner: Conn, seen: Tick, now: Tick) {
    if Attributable(c) || c.pid == owner.pid then PidKept(g, owner, seen, now) else g == Corpse(c)
  }

  /** The scanner leaves a row to memory without a pid. */
  predicate FromScan(c: Conn) {
    Answerable(c) ==> c.pid == -1
  }

  /** While memory reaches back to the last owned tick, a ghost keeps to that,
      whatever its last row. */
  lemma GhostPidIsVerified(states: seq<State>, ticks: seq<Tick>, n: nat, id: string, k: nat, m: nat, i: nat)
    requires IsRun(states, ticks) && Clocked(ticks) && n <= |ticks| && HeldSince(ticks, n, id, k)
    requires FromScan(LastRows(ticks[k].live)[id]) && OwnerRow(ticks, n, id, m, i)
    requires ticks[n - 1].now - ticks[m].now <= LAST_OWNER_TTL
    ensures id in states[n].dead
    ensures PidOf(LastRows(ticks[k].live)[id], states[n].dead[id].c, ticks[m].live[i], ticks[m], ticks[n - 1])
  {
    GhostIsItsRow(states, ticks, n, id, k);
    if LastRows(ticks[k].live)[id].pid == ticks[m].live[i].pid || Attributable(LastRows(ticks[k].live)[id]) {
      OwnersGhost(states, ticks, n, id, k, m, i);
    } else {
      PrevAfter(states, ticks, k, id);
      StrangersGhost(states, ticks, n, id, k);
    }
  }

  lemma OwnersGhost(states: seq<State>, ticks: seq<Tick>, n: nat, id: string, k: nat, m: nat, i: nat)
    requires IsRun(states, ticks) && Clocked(ticks) && n <= |ticks| && HeldSince(ticks, n, id, k)
    requires FromScan(LastRows(ticks[k].live)[id]) && OwnerRow(ticks, n, id, m, i)
    requires var c := LastRows(ticks[k].live)[id]; Attributable(c) || c.pid == ticks[m].live[i].pid
    requires ticks[n - 1].now - ticks[m].now <= LAST_OWNER_TTL
    ensures id in states[n].dead && PidKept(states[n].dead[id].c, ticks[m].live[i], ticks[m], ticks[n - 1])
  {
    OwnedBeforeDeath(ticks, n, id, k, m, i);
    PromotedPid(states, ticks, id, k, m, i);
    GhostIsItsRow(states, ticks, n, id, k);
    var owner, g := ticks[m].live[i], states[n].dead[id].c;
    if g.pid > 0 {
      MemoOfOwner(states, ticks, n, id, m, i);
      PrevKeeps(states, ticks, k, id);
      UndemotedWasSeen(states, ticks, n, id);
      SeenAliveIsSameRun(ticks[m], ticks[n - 1], owner, states[n].memory[id]);
    }
  }

  /** The last owner of the id, if there was one, had another pid. */
  ghost predicate NotOwners(ticks: seq<Tick>, n: nat, id: string, pid: int) {
    forall m: nat, i: nat :: OwnerRow(ticks, n, id, m, i) ==> ticks[m].live[i].pid != pid
  }

  lemma MemoIsOwners(states: seq<State>, ticks: seq<Tick>, n: nat, id: string, pid: int)
    requires IsRun(states, ticks) && Clocked(ticks) && n <= |ticks| && NotOwners(ticks, n, id, pid)
    ensures id in states[n].memory ==> states[n].memory[id].pid != pid
  {
    if id in states[n].memory {
      var m := MemoryHasHistory(states, ticks, n, id);
      var i: nat :| LastOwnedAt(ticks[m].live, id, i) &&
        RememberedRow(ticks[m], ticks[m].live[i], states[n].memory[id]);
      assert OwnerRow(ticks, n, id, m, i);
    }
  }

  lemma NotOwnersBefore(ticks: seq<Tick>, n: nat, id: string, pid: int)
    requires 0 < n <= |ticks| && !Present(ticks[n - 1].live, id) && NotOwners(ticks, n, id, pid)
    ensures NotOwners(ticks, n - 1, id, pid)
  {
    forall m: nat, i: nat | OwnerRow(ticks, n - 1, id, m, i)
      ensures OwnerRow(ticks, n, id, m, i)
    {
    }
  }

  /** A row that had to be shown as it was, under no number or one that is not
      the last owner's, is never rechecked as a ghost: neither by the memory in
      force when its socket died, nor by what is left of it later. */
  lemma {:induction false} StrangersGhost(states: seq<State>, ticks: seq<Tick>, n: nat, id: string, k: nat)
    requires IsRun(states, ticks) && Clocked(ticks) && n <= |ticks| && HeldSince(ticks, n, id, k)
    requires var c := LastRows(ticks[k].live)[id]; !HasOwner(c) && !Answerable(c) && NotOwners(ticks, n, id, c.pid)
    ensures id in states[n].dead && states[n].dead[id].c == Corpse(LastRows(ticks[k].live)[id])
  {
    var pid := LastRows(ticks[k].live)[id].pid;
    GhostStep(states, ticks, n, id, k);
    MemoIsOwners(states, ticks, n, id, pid);
    if k + 2 < n {
      NotOwnersBefore(ticks, n, id, pid);
      StrangersGhost(states, ticks, n - 1, id, k);
    } else {
      PrevAfter(states, ticks, k, id);
    }
  }

  /** Nobody owned the 4-tuple after the socket died. */
  lemma OwnedBeforeDeath(ticks: seq<Tick>, n: nat, id: string, k: nat, m: nat, i: nat)
    requires LastLive(ticks, n, id, k) && OwnerRow(ticks, n, id, m, i)
    ensures m <= k && OwnerRow(ticks, k + 1, id, m, i)
  {
    assert Present(ticks[m].live, id);
  }

  /** A ghost that shows the pid memory has for it was matched this tick. */
  lemma UndemotedWasSeen(states: seq<State>, ticks: seq<Tick>, n: nat, id: string)
    requires IsRun(states, ticks) && 0 < n <= |ticks|
    requires id in states[n].dead && id in states[n].memory
    requires states[n].dead[id].c.id == id
    requires states[n].dead[id].c.pid == states[n].memory[id].pid > 0
    ensures SeenAlive(states[n].memory[id], ticks[n - 1].window)
  {
    DeadRowAfter(states, ticks, n - 1, id);
  }

  /** The same, by what a caller can check beforehand: the window in force plus
      the gap between the last owned tick and the promotion. */
  lemma GhostPidWithinWindow(states: seq<State>, ticks: seq<Tick>, n: nat, id: string, k: nat, m: nat, i: nat)
    requires IsRun(states, ticks) && Clocked(ticks) && n <= |ticks| && HeldSince(ticks, n, id, k)
    requires FromScan(LastRows(ticks[k].live)[id]) && OwnerRow(ticks, n, id, m, i)
    requires ticks[n - 1].ttl + (ticks[k + 1].now - ticks[m].now) <= LAST_OWNER_TTL
    ensures id in states[n].dead
    ensures PidOf(LastRows(ticks[k].live)[id], states[n].dead[id].c, ticks[m].live[i], ticks[m], ticks[n - 1])
  {
    GhostPidIsVerified(states, ticks, n, id, k, m, i);
  }

  // ---- what the readings decide ----

  /** Every reading of the pid in the window gives this start time. */
  ghost predicate Steady(w: Window, pid: int, start: nat) {
    forall t: nat :: w.from <= t < w.to ==> w.answers(t, pid) == Some(start)
  }

  /** No reading of the pid in the window gives it. */
  ghost predicate Unmatched(w: Window, pid: int, start: nat) {
    forall t: nat :: w.from <= t < w.to ==> w.answers(t, pid) != Some(start)
  }

  lemma MemoStart(seen: Tick, c: Conn, memo: Memo, start: nat)
    requires RememberedRow(seen, c, memo) && Steady(seen.window, c.pid, start)
    ensures memo.start == start
  {
  }

  /** A row left to memory shows its owner's pid if every reading finds that
      process run, and none, the number parked in WasPID, if no reading does. */
  lemma ReadingsDecidePid(states: seq<State>, ticks: seq<Tick>, n: nat, row: nat, k: nat, i: nat, start: nat)
    requires IsRun(states, ticks) && Clocked(ticks) && 0 < n <= |ticks|
    requires row < |ticks[n - 1].live| == |ticks[n - 1].rows| && Answerable(ticks[n - 1].live[row])
    requires OwnerRow(ticks, n, ticks[n - 1].live[row].id, k, i)
    requires ticks[n - 1].now - ticks[k].now <= LAST_OWNER_TTL
    requires start > 0 && Steady(ticks[k].window, ticks[k].live[i].pid, start)
    ensures var owner, c, r := ticks[k].live[i], ticks[n - 1].live[row], ticks[n - 1].rows[row];
      && (owner.pid > 0 && Steady(ticks[n - 1].window, owner.pid, start) ==>
            r.pid == owner.pid && r.wasPid == c.wasPid)
      && (Unmatched(ticks[n - 1].window, owner.pid, start) ==>
            r.pid == c.pid && r.wasPid == owner.pid)
  {
    var id := ticks[n - 1].live[row].id;
    MemoOfOwner(states, ticks, n, id, k, i);
    MemoStart(ticks[k], ticks[k].live[i], states[n].memory[id], start);
    LiveAfter(states, ticks, n - 1, row);
  }

  /** No reading of the pid in the window succeeds. */
  ghost predicate Unreadable(w: Window, pid: int) {
    forall t: nat :: w.from <= t < w.to ==> w.answers(t, pid) == None
  }

  /** A pid whose start time could not be read when it was last seen to own the
      4-tuple never comes back. */
  lemma UnreadPidIsParked(states: seq<State>, ticks: seq<Tick>, n: nat, row: nat, k: nat, i: nat)
    requires IsRun(states, ticks) && Clocked(ticks) && 0 < n <= |ticks|
    requires row < |ticks[n - 1].live| == |ticks[n - 1].rows| && Answerable(ticks[n - 1].live[row])
    requires OwnerRow(ticks, n, ticks[n - 1].live[row].id, k, i)
    requires ticks[n - 1].now - ticks[k].now <= LAST_OWNER_TTL
    requires Unreadable(ticks[k].window, ticks[k].live[i].pid)
    ensures ticks[n - 1].rows[row].pid == ticks[n - 1].live[row].pid
    ensures ticks[n - 1].rows[row].wasPid == ticks[k].live[i].pid
  {
    MemoOfOwner(states, ticks, n, ticks[n - 1].live[row].id, k, i);
    LiveAfter(states, ticks, n - 1, row);
  }

  lemma MemoIsOwnersRun(states: seq<State>, ticks: seq<Tick>, n: nat, id: string, m: nat, i: nat, start: nat)
    requires IsRun(states, ticks) && Clocked(ticks) && n <= |ticks| && OwnerRow(ticks, n, id, m, i)
    requires Steady(ticks[m].window, ticks[m].live[i].pid, start)
    ensures id in states[n].memory ==>
      states[n].memory[id].pid == ticks[m].live[i].pid && states[n].memory[id].start == start
    ensures ticks[n - 1].now - ticks[m].now <= LAST_OWNER_TTL ==> id in states[n].memory
  {
    if id in states[n].memory {
      var m' := MemoryHasHistory(states, ticks, n, id);
      assert m' == m;
    }
    if ticks[n - 1].now - ticks[m].now <= LAST_OWNER_TTL {
      MemoOfOwner(states, ticks, n, id, m, i);
      MemoStart(ticks[m], ticks[m].live[i], states[n].memory[id], start);
    }
  }

  /** One refreshing of a ghost that shows the remembered pid. */
  lemma RefreshedPid(m: Memory, c: Conn, b: Conn, w: Window, r: Conn, start: nat)
    requires GhostRow(m, b, w, r) && AtMostDemoted(Corpse(c), b) && (Answerable(c) ==> c.id !in m)
    requires c.id in m ==> m[c.id].pid == b.pid > 0 && m[c.id].start == start > 0
    ensures Steady(w, b.pid, start) ==> r == b
    ensures c.id in m && Unmatched(w, b.pid, start) ==> r == Demoted(b)
  {
    RefreshedRow(m, c, b, w, r);
  }

  /** So do the readings for a ghost that shows its owner's pid: it keeps the
      number for a tick in which all of them match, and parks it in one in which
      none does. */
  lemma ReadingsDecideGhost(states: seq<State>, ticks: seq<Tick>, n: nat, id: string, k: nat, m: nat, i: nat,
                            start: nat)
    requires IsRun(states, ticks) && Clocked(ticks) && n <= |ticks| && HeldSince(ticks, n, id, k)
    requires OwnerRow(ticks, n, id, m, i) && Steady(ticks[m].window, ticks[m].live[i].pid, start) && start > 0
    requires Before(states, n, id, k).Some? && Before(states, n, id, k).value.pid == ticks[m].live[i].pid > 0
    ensures id in states[n].dead
    ensures Steady(ticks[n - 1].window, ticks[m].live[i].pid, start) ==>
      states[n].dead[id].c.pid == ticks[m].live[i].pid
    ensures Unmatched(ticks[n - 1].window, ticks[m].live[i].pid, start) ==>
      ticks[n - 1].now - ticks[m].now <= LAST_OWNER_TTL ==> PidParked(states[n].dead[id].c, ticks[m].live[i])
  {
    GhostBefore(states, ticks, n, id, k);
    MemoIsOwnersRun(states, ticks, n, id, m, i, start);
    RefreshedPid(states[n].memory, states[k + 1].prev[id], Before(states, n, id, k).value, ticks[n - 1].window,
                 states[n].dead[id].c, start);
  }

  lemma DemotedStays(states: seq<State>, ticks: seq<Tick>, n: nat, id: string, k: nat)
    requires IsRun(states, ticks) && n < |ticks| && HeldSince(ticks, n, id, k) && HeldSince(ticks, n + 1, id, k)
    requires id in states[n].dead && states[n].dead[id].c.pid <= 0
    ensures id in states[n + 1].dead && states[n + 1].dead[id].c == states[n].dead[id].c
  {
    GhostStep(states, ticks, n + 1, id, k);
  }

  /** A ghost without a pid never has one again. */
  lemma {:induction false} DemotedForGood(states: seq<State>, ticks: seq<Tick>, n: nat, later: nat, id: string, k: nat)
    requires IsRun(states, ticks) && n <= later <= |ticks|
    requires HeldSince(ticks, n, id, k) && HeldSince(ticks, later, id, k)
    requires id in states[n].dead && states[n].dead[id].c.pid <= 0
    ensures id in states[later].dead && states[later].dead[id].c == states[n].dead[id].c
    decreases later - n
  {
    if n < later {
      assert HeldSince(ticks, later - 1, id, k);
      DemotedForGood(states, ticks, n, later - 1, id, k);
      DemotedStays(states, ticks, later - 1, id, k);
    }
  }

  /** Past the two minutes nothing is checked any more: a ghost stays what it
      was, pid included. With windows of up to ten minutes this happens. */
  lemma GhostUncheckedWhenForgotten(states: seq<State>, ticks: seq<Tick>, n: nat, id: string, k: nat, m: nat, i: nat)
    requires IsRun(states, ticks) && Clocked(ticks) && n <= |ticks|
    requires HeldSince(ticks, n, id, k) && HeldSince(ticks, n - 1, id, k)
    requires OwnerRow(ticks, n, id, m, i)
    requires ticks[n - 1].now - ticks[m].now > LAST_OWNER_TTL
    ensures id in states[n].dead && id in states[n - 1].dead
    ensures states[n].dead[id].c == states[n - 1].dead[id].c
  {
    GhostStep(states, ticks, n, id, k);
    if id in states[n].memory {
      var m' := MemoryHasHistory(states, ticks, n, id);
      assert false;
    }
  }
}
