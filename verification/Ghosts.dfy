/** Connections that were established and vanished, held for a while
    (ghosts.go). */
module Ghosts {
  import opened Common
  import opened Conns
  import opened LastOwner

  const MAX_GHOST_TTL: int := 600 * SECOND

  datatype Ghost = Ghost(c: Conn, since: Time)

  /** Everything a tick leaves behind for the next one. */
  datatype State = State(prev: map<string, Conn>, dead: map<string, Ghost>, memory: Memory)

  const INITIAL: State := State(map[], map[], map[])

  /** One tick: the scanned rows, the clock, the window in force and the
      readings made; then what came out, live rows first. */
  datatype Tick = Tick(
    live: seq<Conn>, now: Time, ttl: int,
    window: Window, starts: map<int, nat>,
    rows: seq<Conn>, order: seq<string>)

  function ClampGhostTTL(d: int): (r: int)
    ensures 0 <= r <= MAX_GHOST_TTL
    ensures 0 <= d <= MAX_GHOST_TTL ==> r == d
  {
    if d < 0 then 0 else if d > MAX_GHOST_TTL then MAX_GHOST_TTL else d
  }

  const INT64: int := 0x8000_0000_0000_0000

  /** A machine integer. */
  type Int64 = n: int | -INT64 <= n < INT64

  function Wrapped(n: int): Int64 {
    (n + INT64) % (2 * INT64) - INT64
  }

  /** The window a user gets who asks for this many seconds. The product is a
      machine integer; whatever it comes to is clamped. */
  function WindowFor(seconds: Int64): int {
    ClampGhostTTL(Wrapped(seconds * 1_000_000_000))
  }

  /** It is the window asked for, brought into range, unless the product wraps
      to the other side of the range. */
  lemma WindowForExactly(seconds: Int64)
    ensures var asked, got := seconds * 1_000_000_000, Wrapped(seconds * 1_000_000_000);
      WindowFor(seconds) == ClampGhostTTL(asked) <==>
        if asked <= 0 then got <= 0 else asked <= MAX_GHOST_TTL || got >= MAX_GHOST_TTL
    ensures -9_223_372_036 <= seconds <= 9_223_372_036 ==> WindowFor(seconds) == ClampGhostTTL(seconds * 1_000_000_000)
  {
  }

  lemma WrapsOnce(n: int)
    ensures INT64 <= n < 3 * INT64 ==> Wrapped(n) == n - 2 * INT64
    ensures -3 * INT64 <= n < -INT64 ==> Wrapped(n) == n + 2 * INT64
  {
  }

  /** One second more, either way, is already answered with the other extreme. */
  lemma WindowForWraps()
    ensures WindowFor(9_223_372_037) == 0 && WindowFor(-9_223_372_037) == MAX_GHOST_TTL
  {
    WrapsOnce(9_223_372_037_000_000_000);
    WrapsOnce(-9_223_372_037_000_000_000);
  }

  function Corpse(c: Conn): Conn {
    c.(state := Disconnected, upRate := 0.0, downRate := 0.0)
  }

  /** The ghost is this row from now on: dead, and otherwise unchanged. */
  predicate DiedAs(c: Conn, now: Time, g: Ghost) {
    && IsDead(g.c) && g.since == now
    && g.c.(state := c.state, upRate := c.upRate, downRate := c.downRate) == c
  }

  ghost predicate AllDead(dead: map<string, Ghost>) {
    forall id :: id in dead ==> IsDead(dead[id].c)
  }

  /** What a tick starts from: the ghosts held whose socket did not return, and
      the established sockets of the previous tick that are gone. */
  predicate IsCandidate(prev: map<string, Conn>, dead: map<string, Ghost>, live: seq<Conn>, id: string) {
    !Present(live, id) && (id in dead || (id in prev && prev[id].state == Established))
  }

  function Candidate(prev: map<string, Conn>, dead: map<string, Ghost>, now: Time, id: string): Ghost
    requires id in dead || id in prev
  {
    if id in dead then dead[id] else Ghost(Corpse(prev[id]), now)
  }

  predicate IsKept(prev: map<string, Conn>, dead: map<string, Ghost>, live: seq<Conn>, now: Time, ttl: int,
                   id: string)
  {
    && ttl != 0
    && IsCandidate(prev, dead, live, id)
    && now - Candidate(prev, dead, now, id).since <= ttl
  }

  ghost predicate LiveRow(m: Memory, c: Conn, w: Window, r: Conn) {
    if Answerable(c) then Resolved(m, c, w, r) else r == c
  }

  /** A held ghost after a tick: asked for its name once more if it has none,
      then its pid re-checked. */
  ghost predicate GhostRow(m: Memory, c: Conn, w: Window, r: Conn) {
    exists named: Conn :: LiveRow(m, c, w, named) && Verified(m, named, w, r)
  }

  /** Each of these ghosts was refreshed and kept its age. */
  ghost predicate Refreshed(m: Memory, held: map<string, Ghost>, w: Window, dead: map<string, Ghost>,
                            ids: set<string>)
  {
    forall id :: id in ids ==>
      id in held && id in dead && dead[id].since == held[id].since && GhostRow(m, held[id].c, w, dead[id].c)
  }

  /** Exactly the ghosts to be kept were kept, each refreshed. */
  ghost predicate Buried(prev: map<string, Conn>, dead: map<string, Ghost>, live: seq<Conn>, now: Time, ttl: int,
                         m: Memory, w: Window, dead': map<string, Ghost>)
  {
    && (forall id :: id in dead' <==> IsKept(prev, dead, live, now, ttl, id))
    && forall id :: id in dead' ==>
      var g := Candidate(prev, dead, now, id);
      dead'[id].since == g.since && GhostRow(m, g.c, w, dead'[id].c)
  }

  /** `out` is the rows, then the ghosts named by `order`. */
  ghost predicate Appended(rows: seq<Conn>, order: seq<string>, dead: map<string, Ghost>, out: seq<Conn>) {
    && |out| == |rows| + |order|
    && out[..|rows|] == rows
    && forall k :: 0 <= k < |order| ==> order[k] in dead && out[|rows| + k] == dead[order[k]].c
  }

  ghost predicate RowsResolved(m: Memory, given: seq<Conn>, w: Window, rows: seq<Conn>) {
    |rows| == |given| && forall i :: 0 <= i < |rows| ==> LiveRow(m, given[i], w, rows[i])
  }

  ghost predicate TrackStep(s: State, t: Tick, s': State) {
    && StartsRead(t.live, t.starts, t.window)
    && s'.memory == Forget(Remember(s.memory, t.live, t.starts, t.now), t.now)
    && RowsResolved(s'.memory, t.live, t.window, t.rows)
    && s'.prev == LastRows(t.rows)
    && Buried(s.prev, s.dead, t.live, t.now, t.ttl, s'.memory, t.window, s'.dead)
    && Distinct(t.order)
    && (forall id :: id in t.order <==> id in s'.dead)
  }

  /** Naming a row leaves the rest of it alone. */
  lemma NamingKeepsRecord(m: Memory, c: Conn, w: Window, r: Conn)
    requires LiveRow(m, c, w, r)
    ensures SameRecord(c, r)
  {
  }

  lemma RowWidens(m: Memory, c: Conn, w: Window, wide: Window, r: Conn)
    requires w.answers == wide.answers && wide.from <= w.from && w.to <= wide.to
    ensures Resolved(m, c, w, r) ==> Resolved(m, c, wide, r)
    ensures Verified(m, c, w, r) ==> Verified(m, c, wide, r)
    ensures LiveRow(m, c, w, r) ==> LiveRow(m, c, wide, r)
  {
    if c.id in m {
      WindowWidens(m[c.id], w, wide);
    }
  }

  lemma GhostRowWidens(m: Memory, c: Conn, w: Window, wide: Window, r: Conn)
    requires w.answers == wide.answers && wide.from <= w.from && w.to <= wide.to
    requires GhostRow(m, c, w, r)
    ensures GhostRow(m, c, wide, r)
  {
    var named :| LiveRow(m, c, w, named) && Verified(m, named, w, r);
    RowWidens(m, c, w, wide, named);
    RowWidens(m, named, w, wide, r);
  }

  lemma RefreshedWidens(m: Memory, held: map<string, Ghost>, w: Window, wide: Window, dead: map<string, Ghost>,
                        ids: set<string>)
    requires w.answers == wide.answers && wide.from <= w.from && w.to <= wide.to
    requires Refreshed(m, held, w, dead, ids)
    ensures Refreshed(m, held, wide, dead, ids)
  {
    forall id | id in ids
      ensures GhostRow(m, held[id].c, wide, dead[id].c)
    {
      GhostRowWidens(m, held[id].c, w, wide, dead[id].c);
    }
  }

  lemma RefreshedGrows(m: Memory, held: map<string, Ghost>, w: Window, wide: Window,
                       dead: map<string, Ghost>, ids: set<string>, id: string, g: Ghost)
    requires w.answers == wide.answers && wide.from == w.from <= w.to <= wide.to
    requires Refreshed(m, held, w, dead, ids)
    requires id in held && g.since == held[id].since
    requires GhostRow(m, held[id].c, Window(w.answers, w.to, wide.to), g.c)
    ensures Refreshed(m, held, wide, dead[id := g], ids + {id})
  {
    RefreshedWidens(m, held, w, wide, dead, ids);
    GhostRowWidens(m, held[id].c, Window(w.answers, w.to, wide.to), wide, g.c);
  }

  lemma AppendedGrows(rows: seq<Conn>, order: seq<string>, dead: map<string, Ghost>, out: seq<Conn>, id: string,
                      g: Ghost)
    requires Appended(rows, order, dead, out) && id !in order
    ensures Appended(rows, order + [id], dead[id := g], out + [g.c])
  {
    assert (out + [g.c])[..|rows|] == out[..|rows|];
  }

  lemma AppendedDrops(rows: seq<Conn>, order: seq<string>, dead: map<string, Ghost>, out: seq<Conn>, id: string)
    requires Appended(rows, order, dead, out) && id !in order
    ensures Appended(rows, order, dead - {id}, out)
  {
  }

  lemma RowsWiden(m: Memory, given: seq<Conn>, w: Window, wide: Window, rows: seq<Conn>)
    requires w.answers == wide.answers && wide.from <= w.from && w.to <= wide.to
    requires RowsResolved(m, given, w, rows)
    ensures RowsResolved(m, given, wide, rows)
  {
    forall i | 0 <= i < |rows|
      ensures LiveRow(m, given[i], wide, rows[i])
    {
      RowWidens(m, given[i], w, wide, rows[i]);
    }
  }

  /** Refreshing raises nobody. */
  lemma GhostRowStaysDead(m: Memory, c: Conn, w: Window, r: Conn)
    requires GhostRow(m, c, w, r) && IsDead(c)
    ensures IsDead(r)
  {
  }

  lemma BuriedAreDead(prev: map<string, Conn>, dead: map<string, Ghost>, live: seq<Conn>, now: Time, ttl: int,
                      m: Memory, w: Window, dead': map<string, Ghost>)
    requires Buried(prev, dead, live, now, ttl, m, w, dead') && AllDead(dead)
    ensures AllDead(dead')
  {
    forall id | id in dead'
      ensures IsDead(dead'[id].c)
    {
      GhostRowStaysDead(m, Candidate(prev, dead, now, id).c, w, dead'[id].c);
    }
  }

  lemma AppendedAreDead(rows: seq<Conn>, order: seq<string>, dead: map<string, Ghost>, out: seq<Conn>)
    requires Appended(rows, order, dead, out) && AllDead(dead)
    ensures forall i :: |rows| <= i < |out| ==> IsDead(out[i])
  {
    forall i | |rows| <= i < |out|
      ensures IsDead(out[i])
    {
      assert out[i] == dead[order[i - |rows|]].c;
    }
  }

  class GhostTable {
    var ttl: int
    var prev: map<string, Conn>
    var dead: map<string, Ghost>
    const owners: LastOwners

    constructor (ttl: int, procs: ProcTable)
      ensures fresh(owners) && owners.procs == procs
      ensures this.ttl == ClampGhostTTL(ttl) && View() == INITIAL
    {
      this.ttl := ClampGhostTTL(ttl);
      prev, dead := map[], map[];
      owners := new LastOwners(procs);
    }

    ghost function View(): State
      reads this, owners
    {
      State(prev, dead, owners.m)
    }

    method SetTTL(d: int)
      modifies this`ttl
      ensures ttl == ClampGhostTTL(d)
    {
      ttl := ClampGhostTTL(d);
    }

    /** One tick. The live rows are named in place; the result is those rows
        followed by the ghosts. */
    method Track(live: array<Conn>, now: Time) returns (out: seq<Conn>, ghost t: Tick)
      requires 0 <= ttl
      modifies this`prev, this`dead, owners`m, owners.procs, live
      ensures ttl == old(ttl)
      ensures t.live == old(live[..]) && t.now == now && t.ttl == ttl && t.rows == live[..]
      ensures t.window == Window(owners.procs.answers, old(owners.procs.instant), owners.procs.instant)
      ensures TrackStep(old(View()), t, View())
      ensures Appended(t.rows, t.order, dead, out)
      ensures AllDead(old(dead)) ==> AllDead(dead) && forall i :: live.Length <= i < |out| ==> IsDead(out[i])
    {
      ghost var s := View();
      ghost var given := live[..];
      ghost var began := owners.procs.instant;
      ghost var starts := owners.Record(live, now);
      ghost var recorded := owners.procs.instant;
      ResolveLive(live);
      ghost var named := owners.procs.instant;
      ghost var order: seq<string>;
      out, order := Bury(live, now);
      ghost var all := Window(owners.procs.answers, began, owners.procs.instant);
      StartsWiden(given, starts, Window(owners.procs.answers, began, recorded), all);
      RowsWiden(owners.m, given, Window(owners.procs.answers, recorded, named), all, live[..]);
      BuriedWidens(s.prev, s.dead, given, live[..], now, ttl, owners.m, Window(owners.procs.answers, named, all.to),
                   all, dead);
      t := Tick(given, now, ttl, all, starts, live[..], order);
      if AllDead(s.dead) {
        BuriedAreDead(s.prev, s.dead, given, now, ttl, owners.m, all, dead);
        AppendedAreDead(live[..], order, dead, out);
      }
    }

    /** Promotes, expires and refreshes the ghosts, and keeps the live set for
        the next tick. With a zero window everything held is dropped. */
    method Bury(live: array<Conn>, now: Time) returns (out: seq<Conn>, ghost order: seq<string>)
      modifies this`prev, this`dead, owners.procs
      ensures old(owners.procs.instant) <= owners.procs.instant
      ensures prev == LastRows(live[..])
      ensures Buried(old(prev), old(dead), live[..], now, ttl, owners.m,
                     Window(owners.procs.answers, old(owners.procs.instant), owners.procs.instant), dead)
      ensures Distinct(order) && (forall id :: id in order <==> id in dead)
      ensures Appended(live[..], order, dead, out)
    {
      order := [];
      if ttl == 0 {
        dead := map[];
        prev := TakeLive(live);
        out := live[..];
        return;
      }
      CancelReturned(live);
      Promote(live, now);
      out, order := Expire(live[..], now);
      prev := TakeLive(live);
    }

    /** Hands names back to the live rows that memory may speak for. */
    method ResolveLive(live: array<Conn>)
      modifies owners.procs, live
      ensures old(owners.procs.instant) <= owners.procs.instant
      ensures RowsResolved(owners.m, old(live[..]),
                           Window(owners.procs.answers, old(owners.procs.instant), owners.procs.instant), live[..])
    {
      ghost var given := live[..];
      ghost var began := owners.procs.instant;
      for i := 0 to live.Length
        invariant began <= owners.procs.instant
        invariant live[i..] == given[i..]
        invariant RowsResolved(owners.m, given[..i], Window(owners.procs.answers, began, owners.procs.instant),
                               live[..i])
      {
        ghost var w := Window(owners.procs.answers, began, owners.procs.instant);
        ghost var done := live[..i];
        assert live[i] == given[i];
        if Answerable(live[i]) {
          var r, _ := owners.Resolve(live[i]);
          live[i] := r;
        }
        ghost var wide := Window(owners.procs.answers, began, owners.procs.instant);
        RowWidens(owners.m, given[i], Window(owners.procs.answers, w.to, wide.to), wide, live[i]);
        RowsWiden(owners.m, given[..i], w, wide, done);
        assert live[..i] == done;
      }
      assert live[..] == live[..live.Length] && given == given[..live.Length];
    }

    /** A live connection cancels any ghost of the same id. */
    method CancelReturned(live: array<Conn>)
      modifies this`dead
      ensures forall id :: id in dead <==> id in old(dead) && !Present(live[..], id)
      ensures forall id :: id in dead ==> dead[id] == old(dead)[id]
    {
      for i := 0 to live.Length
        invariant forall id :: id in dead <==> id in old(dead) && !Present(live[..i], id)
        invariant forall id :: id in dead ==> dead[id] == old(dead)[id]
      {
        assert live[..i + 1] == live[..i] + [live[i]];
        PresentStep(live[..i], live[i]);
        dead := dead - {live[i].id};
      }
      assert live[..live.Length] == live[..];
    }

    /** Established last tick, gone now, not already held. */
    method Promote(live: array<Conn>, now: Time)
      modifies this`dead
      ensures forall id :: id in dead <==>
        id in old(dead) || (id in prev && !Present(live[..], id) && prev[id].state == Established)
      ensures forall id :: id in dead ==> dead[id] == Candidate(prev, old(dead), now, id)
      ensures forall id :: id in old(dead) ==> dead[id] == old(dead)[id]
      ensures forall id :: id in dead && id !in old(dead) ==> DiedAs(prev[id], now, dead[id])
    {
      var todo := prev.Keys;
      while todo != {}
        invariant todo <= prev.Keys
        invariant forall id :: id in dead <==>
          id in old(dead) || (id in prev && id !in todo && !Present(live[..], id) && prev[id].state == Established)
        invariant forall id :: id in dead ==> dead[id] == Candidate(prev, old(dead), now, id)
        decreases todo
      {
        var id :| id in todo;
        todo := todo - {id};
        if !Present(live[..], id) && prev[id].state == Established && id !in dead {
          dead := dead[id := Ghost(Corpse(prev[id]), now)];
        }
      }
    }

    /** Drops the ghosts past the window, refreshes the others in some order
        and appends them. */
    method Expire(rows: seq<Conn>, now: Time) returns (out: seq<Conn>, ghost order: seq<string>)
      modifies this`dead, owners.procs
      ensures old(owners.procs.instant) <= owners.procs.instant
      ensures forall id :: id in dead <==> id in old(dead) && now - old(dead)[id].since <= ttl
      ensures Refreshed(owners.m, old(dead),
                        Window(owners.procs.answers, old(owners.procs.instant), owners.procs.instant), dead, dead.Keys)
      ensures Distinct(order) && (forall id :: id in order <==> id in dead)
      ensures Appended(rows, order, dead, out)
    {
      ghost var given := dead;
      ghost var began := owners.procs.instant;
      ghost var done: set<string> := {};
      out, order := rows, [];
      var todo := dead.Keys;
      while todo != {}
        invariant todo <= given.Keys && todo !! done && done <= given.Keys
        invariant dead.Keys == todo + done
        invariant began <= owners.procs.instant
        invariant forall id :: id in todo ==> dead[id] == given[id]
        invariant forall id :: id in given && id !in todo ==> (id in done <==> now - given[id].since <= ttl)
        invariant Refreshed(owners.m, given, Window(owners.procs.answers, began, owners.procs.instant), dead, done)
        invariant Distinct(order) && (forall id :: id in order <==> id in done)
        invariant Appended(rows, order, dead, out)
        decreases todo
      {
        var id :| id in todo;
        todo := todo - {id};
        ghost var before, held := owners.procs.instant, dead;
        var kept := Visit(id, now);
        if kept.Some? {
          ghost var g := Ghost(kept.value, held[id].since);
          RefreshedGrows(owners.m, given, Window(owners.procs.answers, began, before),
                         Window(owners.procs.answers, began, owners.procs.instant), held, done, id, g);
          AppendedGrows(rows, order, held, out, id, g);
          done := done + {id};
          out, order := out + [kept.value], order + [id];
        } else {
          AppendedDrops(rows, order, held, out, id);
        }
      }
    }

    /** One held ghost: dropped past the window, else refreshed. */
    method Visit(id: string, now: Time) returns (kept: Option<Conn>)
      requires id in dead
      modifies this`dead, owners.procs
      ensures old(owners.procs.instant) <= owners.procs.instant
      ensures kept.Some? <==> now - old(dead)[id].since <= ttl
      ensures kept.None? ==> dead == old(dead) - {id} && owners.procs.instant == old(owners.procs.instant)
      ensures kept.Some? ==>
        && dead == old(dead)[id := Ghost(kept.value, old(dead)[id].since)]
        && GhostRow(owners.m, old(dead)[id].c,
                    Window(owners.procs.answers, old(owners.procs.instant), owners.procs.instant), kept.value)
    {
      if now - dead[id].since > ttl {
        dead := dead - {id};
        return None;
      }
      var c := Refresh(dead[id].c);
      dead := dead[id := Ghost(c, dead[id].since)];
      kept := Some(c);
    }

    /** One ghost re-examined. */
    method Refresh(c: Conn) returns (r: Conn)
      modifies owners.procs
      ensures old(owners.procs.instant) <= owners.procs.instant
      ensures GhostRow(owners.m, c, Window(owners.procs.answers, old(owners.procs.instant), owners.procs.instant), r)
    {
      ghost var began := owners.procs.instant;
      var named := c;
      if Answerable(c) {
        var found, _ := owners.Resolve(c);
        named := found;
      }
      ghost var middle := owners.procs.instant;
      r := owners.Verify(named);
      ghost var all := Window(owners.procs.answers, began, owners.procs.instant);
      RowWidens(owners.m, c, Window(owners.procs.answers, began, middle), all, named);
      RowWidens(owners.m, named, Window(owners.procs.answers, middle, all.to), all, r);
    }

    /** This tick's live set, kept for the next diff; the last row of an id wins. */
    method TakeLive(live: array<Conn>) returns (table: map<string, Conn>)
      ensures table == LastRows(live[..])
    {
      table := map[];
      for i := 0 to live.Length
        invariant table == LastRows(live[..i])
      {
        assert live[..i + 1][..i] == live[..i];
        table := table[live[i].id := live[i]];
      }
      assert live[..live.Length] == live[..];
    }
  }

  lemma StartsWiden(rows: seq<Conn>, starts: map<int, nat>, w: Window, wide: Window)
    requires w.answers == wide.answers && wide.from <= w.from && w.to <= wide.to
    requires StartsRead(rows, starts, w)
    ensures StartsRead(rows, starts, wide)
  {
    forall pid | pid in starts
      ensures ReadIn(wide, pid, starts[pid])
    {
      assert ReadIn(w, pid, starts[pid]);
      var t: nat :| w.from <= t < w.to && StartOrZero(w.answers(t, pid)) == starts[pid];
      assert StartOrZero(wide.answers(t, pid)) == starts[pid];
    }
  }

  lemma PresentStep(rows: seq<Conn>, c: Conn)
    ensures forall id :: Present(rows + [c], id) <==> Present(rows, id) || id == c.id
  {
    forall id
      ensures Present(rows + [c], id) <==> Present(rows, id) || id == c.id
    {
      assert (rows + [c])[|rows|] == c;
      assert forall i :: 0 <= i < |rows| ==> (rows + [c])[i] == rows[i];
    }
  }

  lemma BuriedWidens(prev: map<string, Conn>, dead: map<string, Ghost>, given: seq<Conn>, live: seq<Conn>, now: Time,
                     ttl: int, m: Memory, w: Window, wide: Window, dead': map<string, Ghost>)
    requires |given| == |live| && forall i :: 0 <= i < |given| ==> given[i].id == live[i].id
    requires w.answers == wide.answers && wide.from <= w.from && w.to <= wide.to
    requires Buried(prev, dead, live, now, ttl, m, w, dead')
    ensures Buried(prev, dead, given, now, ttl, m, wide, dead')
  {
    assert forall id :: Present(given, id) <==> Present(live, id);
    forall id | id in dead'
      ensures GhostRow(m, Candidate(prev, dead, now, id).c, wide, dead'[id].c)
    {
      GhostRowWidens(m, Candidate(prev, dead, now, id).c, w, wide, dead'[id].c);
    }
  }
}
