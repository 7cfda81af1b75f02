/** How far the promise about ghost pids reaches, by the last row a ghost had:
    where memory has its say, exactly as far as its two minutes cover the window
    and the gap before it; where it has none, always or never. */
module StalePid {
  import opened Common
  import opened Conns
  import opened LastOwner
  import opened Ghosts
  import opened GhostHistory
  import opened Attribution

  /** A last row: with its owner's name; left to memory; held by a process whose
      name is blank; or refused to us, or the kernel's. */
  datatype Kind = Owned | Left | Blank | Refused

  function KindOf(c: Conn): Kind {
    if HasOwner(c) then Owned
    else if Answerable(c) then Left
    else if c.pid > 0 then Blank
    else Refused
  }

  /** The last owner, before or when the socket died, was seen `gap` before it
      was found dead; or there never was one. */
  ghost predicate OwnedBefore(ticks: seq<Tick>, n: nat, id: string, found: nat, gap: Option<int>)
    requires found < n <= |ticks|
  {
    match gap
    case Some(g) => exists m: nat, i: nat :: OwnerRow(ticks, n, id, m, i) && ticks[found].now - ticks[m].now == g
    case None => forall m: nat :: m < n ==> !OwnedIn(ticks[m].live, id)
  }

  /** A ghost held after `n` ticks under the window `ttl`, its socket last live
      in tick `k`. */
  ghost predicate HeldUnder(states: seq<State>, ticks: seq<Tick>, n: nat, id: string, k: nat, kind: Kind, ttl: int,
                            gap: Option<int>)
  {
    && IsRun(states, ticks) && Clocked(ticks) && n <= |ticks| && HeldSince(ticks, n, id, k)
    && FromScan(LastRows(ticks[k].live)[id]) && KindOf(LastRows(ticks[k].live)[id]) == kind
    && ticks[n - 1].ttl == ttl && OwnedBefore(ticks, n, id, k + 1, gap)
  }

  /** The row shows no pid, or that of the last owner, whose process run a
      reading of this very tick has matched. */
  ghost predicate PidVouched(ticks: seq<Tick>, n: nat, id: string, g: Conn)
    requires 0 < n <= |ticks|
  {
    g.pid <= 0 || exists m: nat, i: nat ::
      OwnerRow(ticks, n, id, m, i) && g.pid == ticks[m].live[i].pid && SameRun(ticks[m], ticks[n - 1], g.pid)
  }

  /** Every run keeps the promise for the ghosts of that kind, under that window
      and after that gap. */
  ghost predicate AlwaysKept(kind: Kind, ttl: int, gap: Option<int>) {
    forall states: seq<State>, ticks: seq<Tick>, n: nat, id: string, k: nat ::
      HeldUnder(states, ticks, n, id, k, kind, ttl, gap) ==>
      id in states[n].dead && PidVouched(ticks, n, id, states[n].dead[id].c)
  }

  predicate Covered(kind: Kind, ttl: int, gap: Option<int>) {
    kind.Refused? || (!kind.Blank? && (gap.None? || ttl + gap.value <= LAST_OWNER_TTL))
  }

  /** That is so for rows refused to us; for owned rows, and rows left to
      memory, unless window and gap together exceed two minutes; for blank
      names never. */
  lemma AlwaysKeptExactly(kind: Kind, ttl: int, gap: Option<int>)
    requires 0 < ttl <= MAX_GHOST_TTL && (gap.Some? ==> 0 <= gap.value)
    ensures AlwaysKept(kind, ttl, gap) <==> Covered(kind, ttl, gap)
  {
    if Covered(kind, ttl, gap) {
      forall states: seq<State>, ticks: seq<Tick>, n: nat, id: string, k: nat |
        HeldUnder(states, ticks, n, id, k, kind, ttl, gap)
        ensures id in states[n].dead && PidVouched(ticks, n, id, states[n].dead[id].c)
      {
        CoveredIsKept(states, ticks, n, id, k, kind, ttl, gap);
      }
    } else if kind.Blank? {
      var states, ticks, n := BlankPidShown(ttl, gap);
      assert HeldUnder(states, ticks, n, "a", n - 2, kind, ttl, gap);
    } else if kind.Left? {
      var states, ticks := InheritedPidShown(ttl, gap.value);
      assert HeldUnder(states, ticks, 4, "a", 1, kind, ttl, gap);
    } else {
      var states, ticks := StalePidShown(ttl, gap.value);
      assert HeldUnder(states, ticks, 3, "a", 0, kind, ttl, gap);
    }
  }

  lemma CoveredIsKept(states: seq<State>, ticks: seq<Tick>, n: nat, id: string, k: nat, kind: Kind, ttl: int,
                      gap: Option<int>)
    requires HeldUnder(states, ticks, n, id, k, kind, ttl, gap) && Covered(kind, ttl, gap)
    ensures id in states[n].dead && PidVouched(ticks, n, id, states[n].dead[id].c)
  {
    if KindOf(LastRows(ticks[k].live)[id]).Owned? {
      OwnedAtDeath(ticks, k, id);
    }
    if kind.Refused? || gap.None? {
      PidlessGhost(states, ticks, n, id, k);
    } else {
      var m: nat, i: nat :| OwnerRow(ticks, n, id, m, i) && ticks[k + 1].now - ticks[m].now == gap.value;
      GhostPidWithinWindow(states, ticks, n, id, k, m, i);
    }
  }

  lemma OwnedAtDeath(ticks: seq<Tick>, k: nat, id: string)
    requires k < |ticks| && Present(ticks[k].live, id) && HasOwner(LastRows(ticks[k].live)[id])
    ensures OwnedIn(ticks[k].live, id)
  {
    var last := LastRowsIndex(ticks[k].live, id);
    assert LastOwnedAt(ticks[k].live, id, last);
  }

  /** A last row without a pid, and with none in memory either, stays without
      one. */
  lemma PidlessGhost(states: seq<State>, ticks: seq<Tick>, n: nat, id: string, k: nat)
    requires IsRun(states, ticks) && Clocked(ticks) && n <= |ticks| && HeldSince(ticks, n, id, k)
    requires FromScan(LastRows(ticks[k].live)[id]) && LastRows(ticks[k].live)[id].pid <= 0
    requires KindOf(LastRows(ticks[k].live)[id]).Refused? || forall m: nat :: m < n ==> !OwnedIn(ticks[m].live, id)
    ensures id in states[n].dead && states[n].dead[id].c.pid <= 0
  {
    PrevAfter(states, ticks, k, id);
    if !KindOf(LastRows(ticks[k].live)[id]).Refused? && id in states[k + 1].memory {
      var m := MemoryHasHistory(states, ticks, k + 1, id);
      assert false;
    }
    GhostIsItsRow(states, ticks, n, id, k);
  }

  // ---- beyond that: runs that end with a number on show that nobody has ----

  /** One process runs until it is seen last, then exits; no other is there. */
  function Answering(t: nat, pid: int): Option<nat> {
    if pid == 42 && t < 3 then Some(7) else None
  }

  const ROW := Conn("a", "tcp", Established, "", 0, "", 0, 42, "brave", "Brave",
                    "", "", "", "", "", "", false, 0, 0, 0.0, 0.0, Attributed, false, 0)
  const MEMORY: Memory := map["a" := Memo(42, "brave", "Brave", 7, 0)]

  /** The same socket without its owner, then as memory names it, and in the
      hands of a process without a name. */
  const LEFT := ROW.(pid := -1, comm := "", app := "", noPid := Gone)
  const NAMED := LEFT.(pid := 42, comm := "brave", app := "Brave", inherit := true)
  const BLANK := ROW.(pid := 43, comm := "", app := "")

  function Showing(c: Conn, m: Memory): State {
    State(map["a" := c], map[], m)
  }

  function Held(c: Conn, m: Memory, since: Time, at: Time): State {
    State(map[], map["a" := Ghost(Corpse(c), since)], Forget(m, at))
  }

  function Seen(ttl: int): Tick {
    Tick([ROW], 0, ttl, Window(Answering, 0, 1), map[42 := 7], [ROW], [])
  }

  function Again(c: Conn, r: Conn, ttl: int): Tick {
    Tick([c], 0, ttl, Window(Answering, 1, 2), map[], [r], [])
  }

  function Died(ttl: int, at: Time): Tick {
    Tick([], at, ttl, Window(Answering, 2, 3), map[], [], ["a"])
  }

  function Stale(ttl: int, at: Time): Tick {
    Tick([], at, ttl, Window(Answering, 3, 4), map[], [], ["a"])
  }

  /** A tick with this one row. */
  lemma OneRow(c: Conn)
    requires c.id == "a"
    ensures LastRows([c]) == map["a" := c] && Present([c], "a")
    ensures HasOwner(c) ==> LastOwnedAt([c], "a", 0)
    ensures !HasOwner(c) ==> !OwnedIn([c], "a")
  {
    assert [c][..0] == [] && [c][0] == c;
  }

  lemma SeenStep(ttl: int)
    ensures TrackStep(INITIAL, Seen(ttl), Showing(ROW, MEMORY))
    ensures LastOwnedAt(Seen(ttl).live, "a", 0) && OwnedIn(Seen(ttl).live, "a")
  {
    OneRow(ROW);
    assert [ROW][..0] == [];
    assert Remember(map[], [], map[42 := 7], 0) == map[];
    assert Remember(map[], [ROW], map[42 := 7], 0) == MEMORY;
    assert Forget(MEMORY, 0) == MEMORY;
    assert StartsRead([ROW], map[42 := 7], Seen(ttl).window) by {
      assert StartOrZero(Answering(0, 42)) == 7;
    }
  }

  /** A row without an owner: left to memory and named by it, or blank. */
  lemma AgainStep(s: State, c: Conn, r: Conn, ttl: int)
    requires (c == LEFT && r == NAMED && s == Showing(ROW, MEMORY)) ||
      (c == r == BLANK && (s == Showing(ROW, MEMORY) || s == INITIAL))
    requires 0 < ttl
    ensures TrackStep(s, Again(c, r, ttl), Showing(r, s.memory))
  {
    OneRow(c);
    OneRow(r);
    assert [c][..0] == [];
    assert Remember(s.memory, [], map[], 0) == s.memory;
    assert Remember(s.memory, [c], map[], 0) == s.memory;
    assert Forget(s.memory, 0) == s.memory;
    if c == LEFT {
      assert AliveAt(MEMORY["a"], Answering, 1);
      assert Resolved(MEMORY, LEFT, Window(Answering, 1, 2), NAMED);
    }
  }

  /** The corpse as it is, whether memory vouches for it, has forgotten it or
      never knew its pid. */
  lemma CorpseStays(c: Conn, m: Memory, now: Time, w: Window)
    requires c.id == "a" && !Answerable(c) && (m == MEMORY || m == map[])
    requires w == Window(Answering, 2, 3) || now > LAST_OWNER_TTL || c.pid != 42
    ensures GhostRow(Forget(m, now), Corpse(c), w, Corpse(c))
  {
    var f := Forget(m, now);
    if "a" in f {
      assert f["a"] == MEMORY["a"];
      assert AliveAt(f["a"], Answering, 2);
    }
    assert LiveRow(f, Corpse(c), w, Corpse(c));
    assert Verified(f, Corpse(c), w, Corpse(c));
  }

  lemma DiedStep(c: Conn, m: Memory, ttl: int, at: Time)
    requires 0 < ttl && c.id == "a" && c.state == Established && !Answerable(c) && (m == MEMORY || m == map[])
    ensures TrackStep(Showing(c, m), Died(ttl, at), Held(c, m, at, at))
  {
    CorpseStays(c, m, at, Died(ttl, at).window);
  }

  lemma StaleStep(c: Conn, ttl: int, since: Time)
    requires 0 < ttl && since + ttl > LAST_OWNER_TTL && c.id == "a" && !Answerable(c)
    ensures TrackStep(Held(c, MEMORY, since, since), Stale(ttl, since + ttl), Held(c, MEMORY, since, since + ttl))
  {
    assert Forget(Forget(MEMORY, since), since + ttl) == Forget(MEMORY, since + ttl);
    CorpseStays(c, MEMORY, since + ttl, Stale(ttl, since + ttl).window);
  }

  /** Nobody has this number, then or later. */
  ghost predicate Unanswered(w: Window, pid: int) {
    forall t: nat :: w.from <= t ==> w.answers(t, pid) == None
  }

  /** From this tick on the socket is gone, within its window. */
  lemma GoneSince(ticks: seq<Tick>, k: nat, c: Conn, ttl: int)
    requires k + 1 < |ticks| && ticks[k].live == [c] && c.id == "a" && c.state == Established
    requires forall j :: k < j < |ticks| ==>
      ticks[j].live == [] && ticks[j].ttl == ttl > 0 && ticks[j].now - ticks[k + 1].now <= ttl
    ensures HeldSince(ticks, |ticks|, "a", k) && LastRows(ticks[k].live)["a"] == c
  {
    OneRow(c);
  }

  /** Tick 0 alone saw an owner. */
  ghost predicate OwnedAtFirst(ticks: seq<Tick>) {
    && ticks != [] && ticks[0].live == [ROW] && ticks[0].now == 0
    && forall j :: 0 < j < |ticks| ==> ticks[j].live == [] || ticks[j].live == [LEFT] || ticks[j].live == [BLANK]
  }

  lemma OwnedOnce(ticks: seq<Tick>)
    requires OwnedAtFirst(ticks)
    ensures OwnerRow(ticks, |ticks|, "a", 0, 0)
    ensures forall m: nat, i: nat :: OwnerRow(ticks, |ticks|, "a", m, i) ==> m == i == 0
  {
    OneRow(ROW);
    OneRow(LEFT);
    OneRow(BLANK);
    forall j | 0 < j < |ticks|
      ensures !OwnedIn(ticks[j].live, "a")
    {
    }
  }

  lemma NotVouched(ticks: seq<Tick>, g: Conn)
    requires OwnedAtFirst(ticks) && (g.pid == 43 || (g.pid == 42 && Unanswered(ticks[|ticks| - 1].window, 42)))
    ensures !PidVouched(ticks, |ticks|, "a", g)
  {
    OwnedOnce(ticks);
  }

  /** Owned, then without an owner, then gone. */
  lemma SeenAndDied(c: Conn, r: Conn, ttl: int, gap: int)
    requires 0 < ttl <= MAX_GHOST_TTL && ((c == LEFT && r == NAMED) || c == r == BLANK)
    ensures IsRun([INITIAL, Showing(ROW, MEMORY), Showing(r, MEMORY), Held(r, MEMORY, gap, gap)],
                  [Seen(ttl), Again(c, r, ttl), Died(ttl, gap)])
  {
    var states := [INITIAL, Showing(ROW, MEMORY), Showing(r, MEMORY), Held(r, MEMORY, gap, gap)];
    var ticks := [Seen(ttl), Again(c, r, ttl), Died(ttl, gap)];
    SeenStep(ttl);
    AgainStep(Showing(ROW, MEMORY), c, r, ttl);
    DiedStep(r, MEMORY, ttl, gap);
    assert StepAt(states, ticks, 0) && StepAt(states, ticks, 1) && StepAt(states, ticks, 2);
  }

  // Owned to the last, held longer than memory lasts.

  function StaleStates(ttl: int, gap: int): seq<State> {
    [INITIAL, Showing(ROW, MEMORY), Held(ROW, MEMORY, gap, gap), Held(ROW, MEMORY, gap, gap + ttl)]
  }

  function StaleTicks(ttl: int, gap: int): seq<Tick> {
    [Seen(ttl), Died(ttl, gap), Stale(ttl, gap + ttl)]
  }

  lemma StaleRun(ttl: int, gap: int)
    requires 0 < ttl <= MAX_GHOST_TTL && 0 <= gap && ttl + gap > LAST_OWNER_TTL
    ensures IsRun(StaleStates(ttl, gap), StaleTicks(ttl, gap))
  {
    var states, ticks := StaleStates(ttl, gap), StaleTicks(ttl, gap);
    SeenStep(ttl);
    DiedStep(ROW, MEMORY, ttl, gap);
    StaleStep(ROW, ttl, gap);
    assert StepAt(states, ticks, 0) && StepAt(states, ticks, 1) && StepAt(states, ticks, 2);
  }

  lemma StalePidShown(ttl: int, gap: int) returns (states: seq<State>, ticks: seq<Tick>)
    requires 0 < ttl <= MAX_GHOST_TTL && 0 <= gap && ttl + gap > LAST_OWNER_TTL
    ensures HeldUnder(states, ticks, 3, "a", 0, Owned, ttl, Some(gap)) && |ticks| == 3
    ensures "a" in states[3].dead && states[3].dead["a"].c.pid == ticks[0].live[0].pid == 42
    ensures Unanswered(ticks[2].window, 42) && !PidVouched(ticks, 3, "a", states[3].dead["a"].c)
  {
    states, ticks := StaleStates(ttl, gap), StaleTicks(ttl, gap);
    StaleRun(ttl, gap);
    GoneSince(ticks, 0, ROW, ttl);
    OwnedOnce(ticks);
    NotVouched(ticks, states[3].dead["a"].c);
  }

  // Left to memory before it died, and given its owner's pid back.

  function InheritedStates(ttl: int, gap: int): seq<State> {
    [INITIAL, Showing(ROW, MEMORY), Showing(NAMED, MEMORY), Held(NAMED, MEMORY, gap, gap),
     Held(NAMED, MEMORY, gap, gap + ttl)]
  }

  function InheritedTicks(ttl: int, gap: int): seq<Tick> {
    [Seen(ttl), Again(LEFT, NAMED, ttl), Died(ttl, gap), Stale(ttl, gap + ttl)]
  }

  lemma InheritedRun(ttl: int, gap: int)
    requires 0 < ttl <= MAX_GHOST_TTL && 0 <= gap && ttl + gap > LAST_OWNER_TTL
    ensures IsRun(InheritedStates(ttl, gap), InheritedTicks(ttl, gap))
  {
    var states := [INITIAL, Showing(ROW, MEMORY), Showing(NAMED, MEMORY), Held(NAMED, MEMORY, gap, gap)];
    var ticks := [Seen(ttl), Again(LEFT, NAMED, ttl), Died(ttl, gap)];
    var last := Held(NAMED, MEMORY, gap, gap + ttl);
    SeenAndDied(LEFT, NAMED, ttl, gap);
    StaleStep(NAMED, ttl, gap);
    RunGrows(states, ticks, Stale(ttl, gap + ttl), last);
    assert states + [last] == InheritedStates(ttl, gap) && ticks + [Stale(ttl, gap + ttl)] == InheritedTicks(ttl, gap);
  }

  lemma InheritedPidShown(ttl: int, gap: int) returns (states: seq<State>, ticks: seq<Tick>)
    requires 0 < ttl <= MAX_GHOST_TTL && 0 <= gap && ttl + gap > LAST_OWNER_TTL
    ensures HeldUnder(states, ticks, 4, "a", 1, Left, ttl, Some(gap)) && |ticks| == 4
    ensures "a" in states[4].dead && states[4].dead["a"].c.pid == 42
    ensures Unanswered(ticks[3].window, 42) && !PidVouched(ticks, 4, "a", states[4].dead["a"].c)
  {
    states, ticks := InheritedStates(ttl, gap), InheritedTicks(ttl, gap);
    InheritedRun(ttl, gap);
    GoneSince(ticks, 1, LEFT, ttl);
    OwnedOnce(ticks);
    NotVouched(ticks, states[4].dead["a"].c);
  }

  // Held under a blank name, after an owner or after none.

  function BlankStates(ttl: int, gap: int): seq<State> {
    [INITIAL, Showing(ROW, MEMORY), Showing(BLANK, MEMORY), Held(BLANK, MEMORY, gap, gap)]
  }

  function BlankTicks(ttl: int, gap: int): seq<Tick> {
    [Seen(ttl), Again(BLANK, BLANK, ttl), Died(ttl, gap)]
  }

  lemma BlankRun(ttl: int, gap: int)
    requires 0 < ttl <= MAX_GHOST_TTL && 0 <= gap
    ensures IsRun(BlankStates(ttl, gap), BlankTicks(ttl, gap))
  {
    SeenAndDied(BLANK, BLANK, ttl, gap);
  }

  ghost predicate NeverAnswered(ticks: seq<Tick>, pid: int) {
    forall j, t: nat :: 0 <= j < |ticks| ==> ticks[j].window.answers(t, pid) == None
  }

  lemma BlankAfterOwner(ttl: int, gap: int) returns (states: seq<State>, ticks: seq<Tick>)
    requires 0 < ttl <= MAX_GHOST_TTL && 0 <= gap
    ensures HeldUnder(states, ticks, 3, "a", 1, Blank, ttl, Some(gap)) && |ticks| == 3
    ensures "a" in states[3].dead && states[3].dead["a"].c.pid == 43
    ensures NeverAnswered(ticks, 43) && !PidVouched(ticks, 3, "a", states[3].dead["a"].c)
  {
    states, ticks := BlankStates(ttl, gap), BlankTicks(ttl, gap);
    BlankRun(ttl, gap);
    GoneSince(ticks, 1, BLANK, ttl);
    OwnedOnce(ticks);
    NotVouched(ticks, states[3].dead["a"].c);
  }

  lemma NobodysRun(ttl: int)
    requires 0 < ttl <= MAX_GHOST_TTL
    ensures IsRun([INITIAL, Showing(BLANK, map[]), Held(BLANK, map[], 0, 0)], [Again(BLANK, BLANK, ttl), Died(ttl, 0)])
  {
    var states, ticks :=
      [INITIAL, Showing(BLANK, map[]), Held(BLANK, map[], 0, 0)], [Again(BLANK, BLANK, ttl), Died(ttl, 0)];
    AgainStep(INITIAL, BLANK, BLANK, ttl);
    DiedStep(BLANK, map[], ttl, 0);
    assert StepAt(states, ticks, 0) && StepAt(states, ticks, 1);
  }

  lemma BlankFromTheFirst(ttl: int) returns (states: seq<State>, ticks: seq<Tick>)
    requires 0 < ttl <= MAX_GHOST_TTL
    ensures HeldUnder(states, ticks, 2, "a", 0, Blank, ttl, None) && |ticks| == 2
    ensures "a" in states[2].dead && states[2].dead["a"].c.pid == 43
    ensures NeverAnswered(ticks, 43) && !PidVouched(ticks, 2, "a", states[2].dead["a"].c)
  {
    states, ticks :=
      [INITIAL, Showing(BLANK, map[]), Held(BLANK, map[], 0, 0)], [Again(BLANK, BLANK, ttl), Died(ttl, 0)];
    NobodysRun(ttl);
    GoneSince(ticks, 0, BLANK, ttl);
    OneRow(BLANK);
    forall m: nat | m < 2
      ensures !OwnedIn(ticks[m].live, "a")
    {
    }
  }

  /** The number on show is one that no reading of any tick ever answers for. */
  lemma BlankPidShown(ttl: int, gap: Option<int>) returns (states: seq<State>, ticks: seq<Tick>, n: nat)
    requires 0 < ttl <= MAX_GHOST_TTL && (gap.Some? ==> 0 <= gap.value)
    ensures n == |ticks| >= 2 && HeldUnder(states, ticks, n, "a", n - 2, Blank, ttl, gap)
    ensures "a" in states[n].dead && states[n].dead["a"].c.pid == 43
    ensures NeverAnswered(ticks, 43) && !PidVouched(ticks, n, "a", states[n].dead["a"].c)
  {
    match gap {
      case Some(g) =>
        states, ticks := BlankAfterOwner(ttl, g);
        n := 3;
      case None =>
        states, ticks := BlankFromTheFirst(ttl);
        n := 2;
    }
  }
}
