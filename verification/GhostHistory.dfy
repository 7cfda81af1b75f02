/** What the maps of LastOwners and Ghosts mean: questions about the whole
    history of ticks, and the promises that follow from them. */
module GhostHistory {
  import opened Common
  import opened Conns
  import opened LastOwner
  import opened Ghosts

  /** A run from the empty state, one tick after another. SetTTL may be called
      between any two ticks, so each tick has its own window length. */
  ghost predicate IsRun(states: seq<State>, ticks: seq<Tick>) {
    && |states| == |ticks| + 1
    && states[0] == INITIAL
    && forall i :: 0 <= i < |ticks| ==> StepAt(states, ticks, i)
  }

  ghost predicate StepAt(states: seq<State>, ticks: seq<Tick>, i: nat)
    requires i < |ticks| < |states|
  {
    0 <= ticks[i].ttl <= MAX_GHOST_TTL && TrackStep(states[i], ticks[i], states[i + 1])
  }

  /** A run may go on with one more tick. */
  lemma RunGrows(states: seq<State>, ticks: seq<Tick>, t: Tick, s: State)
    requires IsRun(states, ticks) && 0 <= t.ttl <= MAX_GHOST_TTL && TrackStep(states[|ticks|], t, s)
    ensures IsRun(states + [s], ticks + [t])
  {
    var ss, ts := states + [s], ticks + [t];
    forall i: nat | i < |ts|
      ensures StepAt(ss, ts, i)
    {
      if i < |ticks| {
        assert StepAt(states, ticks, i);
        assert ss[i] == states[i] && ss[i + 1] == states[i + 1] && ts[i] == ticks[i];
      } else {
        assert ss[i] == states[i] && ss[i + 1] == s && ts[i] == t;
      }
    }
  }

  ghost predicate Clocked(ticks: seq<Tick>) {
    forall i, j :: 0 <= i <= j < |ticks| ==> ticks[i].now <= ticks[j].now
  }

  /** Tick `k` is the latest of the first `n` in which the id is live. */
  ghost predicate LastLive(ticks: seq<Tick>, n: nat, id: string, k: nat) {
    && k < n <= |ticks|
    && Present(ticks[k].live, id)
    && forall j :: k < j < n ==> !Present(ticks[j].live, id)
  }

  /** Tick `k` is the latest of the first `n` in which the id has an owner. */
  ghost predicate LastOwned(ticks: seq<Tick>, n: nat, id: string, k: nat) {
    && k < n <= |ticks|
    && OwnedIn(ticks[k].live, id)
    && forall j :: k < j < n ==> !OwnedIn(ticks[j].live, id)
  }

  /** The id was last live in tick `k`, established, and every window since
      its death has covered it. */
  ghost predicate HeldSince(ticks: seq<Tick>, n: nat, id: string, k: nat) {
    && LastLive(ticks, n, id, k)
    && k + 1 < n
    && LastRows(ticks[k].live)[id].state == Established
    && forall j :: k < j < n ==> ticks[j].ttl > 0 && ticks[j].now - ticks[k + 1].now <= ticks[j].ttl
  }

  // ---- one tick ----

  lemma LastRowsIndex(rows: seq<Conn>, id: string) returns (i: nat)
    requires Present(rows, id)
    ensures i < |rows| && rows[i].id == id && LastRows(rows)[id] == rows[i]
    ensures forall j :: i < j < |rows| ==> rows[j].id != id
  {
    i := |rows| - 1;
    while rows[i].id != id
      invariant i < |rows| && exists k :: 0 <= k <= i && rows[k].id == id
      invariant forall j :: i < j < |rows| ==> rows[j].id != id
      decreases i
    {
      i := i - 1;
    }
    LastRowsAt(rows, i);
  }

  lemma {:induction false} LastRowsAt(rows: seq<Conn>, i: nat)
    requires i < |rows| && forall j :: i < j < |rows| ==> rows[j].id != rows[i].id
    ensures rows[i].id in LastRows(rows) && LastRows(rows)[rows[i].id] == rows[i]
  {
    var n := |rows| - 1;
    LastRowsUnfold(rows);
    if i < n {
      LastRowsAt(rows[..n], i);
    }
  }

  lemma LastRowsUnfold(rows: seq<Conn>)
    requires rows != []
    ensures var last := rows[|rows| - 1]; LastRows(rows) == LastRows(rows[..|rows| - 1])[last.id := last]
  {
  }

  /** The rows of one tick, by id: the last named row is the last row named. */
  lemma LastRowsResolved(m: Memory, live: seq<Conn>, w: Window, rows: seq<Conn>, id: string)
    requires RowsResolved(m, live, w, rows)
    ensures Present(rows, id) <==> Present(live, id)
    ensures Present(live, id) ==> LiveRow(m, LastRows(live)[id], w, LastRows(rows)[id])
  {
    forall i | 0 <= i < |rows|
      ensures rows[i].id == live[i].id
    {
      assert LiveRow(m, live[i], w, rows[i]);
    }
    if Present(live, id) {
      var i := LastRowsIndex(live, id);
      LastRowsAt(rows, i);
    }
  }

  /** One tick of the run: the table kept for the next tick holds, per id, the
      named form of the last scanned row of that id. */
  lemma PrevAfter(states: seq<State>, ticks: seq<Tick>, k: nat, id: string)
    requires IsRun(states, ticks) && k < |ticks|
    ensures id in states[k + 1].prev <==> Present(ticks[k].live, id)
    ensures id in states[k + 1].prev ==>
      LiveRow(states[k + 1].memory, LastRows(ticks[k].live)[id], ticks[k].window, states[k + 1].prev[id])
  {
    assert StepAt(states, ticks, k);
    LastRowsResolved(states[k + 1].memory, ticks[k].live, ticks[k].window, ticks[k].rows, id);
  }

  /** Naming touches neither id nor state. */
  lemma PrevKeeps(states: seq<State>, ticks: seq<Tick>, k: nat, id: string)
    requires IsRun(states, ticks) && k < |ticks| && id in states[k + 1].prev
    ensures Present(ticks[k].live, id)
    ensures states[k + 1].prev[id].id == id && states[k + 1].prev[id].state == LastRows(ticks[k].live)[id].state
  {
    PrevAfter(states, ticks, k, id);
  }

  /** One tick of the run: who is a ghost after it, and since when. */
  lemma DeadAfter(states: seq<State>, ticks: seq<Tick>, k: nat, id: string)
    requires IsRun(states, ticks) && k < |ticks|
    ensures id in states[k + 1].dead <==>
      && !Present(ticks[k].live, id)
      && ticks[k].ttl > 0
      && if id in states[k].dead then ticks[k].now - states[k].dead[id].since <= ticks[k].ttl
         else id in states[k].prev && states[k].prev[id].state == Established
    ensures id in states[k + 1].dead ==>
      states[k + 1].dead[id].since == if id in states[k].dead then states[k].dead[id].since else ticks[k].now
  {
    assert StepAt(states, ticks, k);
  }

  /** And what its row is made from. */
  lemma DeadRowAfter(states: seq<State>, ticks: seq<Tick>, k: nat, id: string)
    requires IsRun(states, ticks) && k < |ticks| && id in states[k + 1].dead
    ensures id in states[k].dead || id in states[k].prev
    ensures GhostRow(states[k + 1].memory,
                     if id in states[k].dead then states[k].dead[id].c else Corpse(states[k].prev[id]),
                     ticks[k].window, states[k + 1].dead[id].c)
  {
    assert StepAt(states, ticks, k);
  }

  /** One tick of the run: what is remembered after it. */
  lemma MemoryAfter(states: seq<State>, ticks: seq<Tick>, k: nat, id: string)
    requires IsRun(states, ticks) && k < |ticks|
    ensures OwnedIn(ticks[k].live, id) ==>
      id in states[k + 1].memory && RememberedFrom(ticks[k], id, states[k + 1].memory[id])
    ensures !OwnedIn(ticks[k].live, id) ==>
      (id in states[k + 1].memory <==>
         id in states[k].memory && ticks[k].now - states[k].memory[id].seen <= LAST_OWNER_TTL)
    ensures !OwnedIn(ticks[k].live, id) && id in states[k + 1].memory ==>
      states[k + 1].memory[id] == states[k].memory[id]
  {
    assert StepAt(states, ticks, k);
    var s, t := states[k], ticks[k];
    if OwnedIn(t.live, id) {
      var i := LastOwnedExists(t.live, id);
      RememberOwned(s.memory, t.live, t.starts, t.now, id, i);
      assert RememberedRow(t, t.live[i], states[k + 1].memory[id]);
    } else {
      RememberUnowned(s.memory, t.live, t.starts, t.now, id);
    }
  }

  // ---- the set of ghosts ----

  lemma FirstHeld(ticks: seq<Tick>, k: nat, id: string)
    requires k + 1 < |ticks| && Present(ticks[k].live, id) && LastRows(ticks[k].live)[id].state == Established
    requires !Present(ticks[k + 1].live, id) && ticks[k + 1].ttl > 0
    ensures HeldSince(ticks, k + 2, id, k)
  {
  }

  lemma StillHeld(ticks: seq<Tick>, n: nat, id: string, k: nat)
    requires HeldSince(ticks, n, id, k) && n < |ticks| && !Present(ticks[n].live, id)
    requires ticks[n].ttl > 0 && ticks[n].now - ticks[k + 1].now <= ticks[n].ttl
    ensures HeldSince(ticks, n + 1, id, k)
  {
  }

  /** Everything held is held for the reason the history gives. */
  lemma {:induction false} HeldHasHistory(states: seq<State>, ticks: seq<Tick>, n: nat, id: string) returns (k: nat)
    requires IsRun(states, ticks) && n <= |ticks|
    requires id in states[n].dead
    ensures HeldSince(ticks, n, id, k)
    ensures states[n].dead[id].since == ticks[k + 1].now
  {
    DeadAfter(states, ticks, n - 1, id);
    if id in states[n - 1].dead {
      k := HeldHasHistory(states, ticks, n - 1, id);
      StillHeld(ticks, n - 1, id, k);
    } else {
      k := n - 2;
      PrevKeeps(states, ticks, k, id);
      FirstHeld(ticks, k, id);
    }
  }

  /** Everything the history calls for is held. */
  lemma {:induction false} HistoryIsHeld(states: seq<State>, ticks: seq<Tick>, n: nat, id: string, k: nat)
    requires IsRun(states, ticks) && n <= |ticks|
    requires HeldSince(ticks, n, id, k)
    ensures id in states[n].dead && states[n].dead[id].since == ticks[k + 1].now
  {
    DeadAfter(states, ticks, n - 1, id);
    if k == n - 2 {
      DeadAfter(states, ticks, k, id);
      PrevAfter(states, ticks, k, id);
      PrevKeeps(states, ticks, k, id);
    } else {
      HistoryIsHeld(states, ticks, n - 1, id, k);
    }
  }

  /** The row a held ghost had before the last tick: the one it was promoted
      from, or its own. */
  function Before(states: seq<State>, n: nat, id: string, k: nat): Option<Conn>
    requires 0 < n <= |states|
  {
    if k + 2 == n then
      if id in states[n - 1].prev then Some(Corpse(states[n - 1].prev[id])) else None
    else if id in states[n - 1].dead then Some(states[n - 1].dead[id].c)
    else None
  }

  lemma GhostRowAfter(states: seq<State>, ticks: seq<Tick>, n: nat, id: string, k: nat)
    requires IsRun(states, ticks) && n <= |ticks| && HeldSince(ticks, n, id, k)
    ensures id in states[n].dead && Before(states, n, id, k).Some?
    ensures GhostRow(states[n].memory, Before(states, n, id, k).value, ticks[n - 1].window, states[n].dead[id].c)
    ensures k + 2 < n ==> HeldSince(ticks, n - 1, id, k)
  {
    HistoryIsHeld(states, ticks, n, id, k);
    DeadRowAfter(states, ticks, n - 1, id);
    if k + 2 == n {
      DeadAfter(states, ticks, k, id);
    } else {
      assert HeldSince(ticks, n - 1, id, k);
      HistoryIsHeld(states, ticks, n - 1, id, k);
    }
  }

  /** The ghost set is exactly the answer to a question about the history. */
  lemma GhostSetIsHistory(states: seq<State>, ticks: seq<Tick>, n: nat, id: string)
    requires IsRun(states, ticks) && n <= |ticks|
    ensures id in states[n].dead <==> exists k: nat :: HeldSince(ticks, n, id, k)
  {
    if id in states[n].dead {
      var k := HeldHasHistory(states, ticks, n, id);
    }
    if k: nat :| HeldSince(ticks, n, id, k) {
      HistoryIsHeld(states, ticks, n, id, k);
    }
  }

  /** Between ticks no id is both live and a ghost, so promotion never meets
      a ghost already held. */
  lemma LiveAndDeadDisjoint(states: seq<State>, ticks: seq<Tick>, n: nat)
    requires IsRun(states, ticks) && n <= |ticks|
    ensures states[n].prev.Keys !! states[n].dead.Keys
  {
    if n > 0 {
      forall id | id in states[n].prev
        ensures id !in states[n].dead
      {
        PrevAfter(states, ticks, n - 1, id);
        DeadAfter(states, ticks, n - 1, id);
      }
    }
  }

  // ---- the memory ----

  /** What is remembered of an id was written in the last tick that owned it. */
  ghost predicate RememberedFrom(t: Tick, id: string, memo: Memo) {
    exists i: nat :: LastOwnedAt(t.live, id, i) && RememberedRow(t, t.live[i], memo)
  }

  ghost predicate RememberedRow(t: Tick, c: Conn, memo: Memo) {
    memo == MemoOf(c, memo.start, t.now) && ReadIn(t.window, c.pid, memo.start)
  }

  lemma {:induction false} MemoryHasHistory(states: seq<State>, ticks: seq<Tick>, n: nat, id: string) returns (k: nat)
    requires IsRun(states, ticks) && Clocked(ticks) && n <= |ticks|
    requires id in states[n].memory
    ensures LastOwned(ticks, n, id, k) && ticks[n - 1].now - ticks[k].now <= LAST_OWNER_TTL
    ensures RememberedFrom(ticks[k], id, states[n].memory[id])
  {
    MemoryAfter(states, ticks, n - 1, id);
    if OwnedIn(ticks[n - 1].live, id) {
      k := n - 1;
    } else {
      k := MemoryHasHistory(states, ticks, n - 1, id);
    }
  }

  lemma {:induction false} HistoryIsRemembered(states: seq<State>, ticks: seq<Tick>, n: nat, id: string, k: nat)
    requires IsRun(states, ticks) && Clocked(ticks) && n <= |ticks|
    requires LastOwned(ticks, n, id, k) && ticks[n - 1].now - ticks[k].now <= LAST_OWNER_TTL
    ensures id in states[n].memory && RememberedFrom(ticks[k], id, states[n].memory[id])
  {
    MemoryAfter(states, ticks, n - 1, id);
    if k < n - 1 {
      HistoryIsRemembered(states, ticks, n - 1, id, k);
    }
  }

  /** A row with a pid and a name is remembered, if it is the last of its id. */
  lemma NamedRowIsRemembered(states: seq<State>, ticks: seq<Tick>, k: nat, i: nat)
    requires IsRun(states, ticks) && k < |ticks| && i < |ticks[k].live|
    requires ticks[k].live[i].pid > 0 && ticks[k].live[i].comm != ""
    requires forall j :: i < j < |ticks[k].live| ==> ticks[k].live[j].id != ticks[k].live[i].id
    ensures ticks[k].live[i].id in states[k + 1].memory
    ensures var memo, c := states[k + 1].memory[ticks[k].live[i].id], ticks[k].live[i];
      memo.pid == c.pid && memo.comm == c.comm && memo.app == c.app && memo.seen == ticks[k].now
  {
    var t, id := ticks[k], ticks[k].live[i].id;
    assert LastOwnedAt(t.live, id, i);
    MemoryAfter(states, ticks, k, id);
    var j: nat :| LastOwnedAt(t.live, id, j) && RememberedRow(t, t.live[j], states[k + 1].memory[id]);
    assert j == i;
  }

  /** Rows without a pid, or without a name, change nothing that is remembered. */
  lemma NamelessRowsChangeNothing(states: seq<State>, ticks: seq<Tick>, k: nat, id: string)
    requires IsRun(states, ticks) && k < |ticks| && id in states[k + 1].memory
    requires forall i :: 0 <= i < |ticks[k].live| && ticks[k].live[i].id == id ==>
      ticks[k].live[i].pid <= 0 || ticks[k].live[i].comm == ""
    ensures id in states[k].memory && states[k + 1].memory[id] == states[k].memory[id]
  {
    MemoryAfter(states, ticks, k, id);
  }

  /** The memory is exactly the owners of the last two minutes. */
  lemma MemoryIsHistory(states: seq<State>, ticks: seq<Tick>, n: nat, id: string)
    requires IsRun(states, ticks) && Clocked(ticks) && n <= |ticks|
    ensures id in states[n].memory <==>
      exists k: nat :: LastOwned(ticks, n, id, k) && ticks[n - 1].now - ticks[k].now <= LAST_OWNER_TTL
  {
    if id in states[n].memory {
      var k := MemoryHasHistory(states, ticks, n, id);
    }
    if k: nat :| LastOwned(ticks, n, id, k) && ticks[n - 1].now - ticks[k].now <= LAST_OWNER_TTL {
      HistoryIsRemembered(states, ticks, n, id, k);
    }
  }
}
