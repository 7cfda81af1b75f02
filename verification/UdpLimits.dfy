/** How far the UDP bound reaches: which sockets it covers, and which totals
    depend on the ticks that could not read the map (udpstats.go). */
module UdpLimits {
  import opened Common
  import opened Conns
  import opened SocketKeys
  import opened UdpStats
  import opened UdpHistory

  // ---- sockets that share a key ----

  /** A run that adds to these sockets only. */
  ghost predicate RunOver(id: Render, worlds: seq<World>, events: seq<Event>, keys: set<UdpKey>) {
    IsRun(id, worlds, events) && forall i :: 0 <= i < |events| && events[i].Add? ==> events[i].k in keys
  }

  ghost predicate Bounded(id: Render, w: World, k: UdpKey) {
    Leq(Plus(Total(id, w, k), Of(w.base, k)), Of(w.moved, k))
  }

  /** No run over these sockets ever credits one of them with traffic that did
      not move. */
  ghost predicate NeverOver(id: Render, keys: set<UdpKey>) {
    forall worlds, events, n: nat, k ::
      RunOver(id, worlds, events, keys) && n < |worlds| && k in keys ==> Bounded(id, worlds[n], k)
  }

  /** That is so exactly when no two of them are rendered alike. */
  lemma NeverOverExactly(id: Render, keys: set<UdpKey>)
    ensures NeverOver(id, keys) <==> Injective(id, keys)
  {
    if Injective(id, keys) {
      forall worlds, events, n: nat, k | RunOver(id, worlds, events, keys) && n < |worlds| && k in keys
        ensures Bounded(id, worlds[n], k)
      {
        NeverOverCounts(id, worlds, events, n, keys, k);
      }
    } else {
      var k, m :| k in keys && m in keys && id(k) == id(m) && k != m;
      var worlds, events := SharedKeyOverCounts(id, k, m, Val(1, 0));
      assert RunOver(id, worlds, events, keys);
    }
  }

  // ---- a small run: an empty map is read, one socket moves some bytes and is
  // read, or is not ----

  const PRIMED := World(map[], State(map[], map[], true), map[], map[], map[])

  function OneMoved(m: UdpKey, v: Val): World {
    World(map[m := v], PRIMED.stats, map[m := v], map[], map[])
  }

  function OneSeen(id: Render, m: UdpKey, v: Val): World {
    World(map[m := v], State(map[id(m) := v], map[id(m) := Traffic(v.tx, v.rx, 0)], true), map[m := v], map[m := v],
          map[])
  }

  lemma FirstReading(id: Render)
    ensures Next(id, START, Read(map[], 0), PRIMED)
  {
  }

  lemma OneMoves(id: Render, m: UdpKey, v: Val)
    requires IsWord(v)
    ensures Next(id, PRIMED, Add(m, v.tx, v.rx, true), OneMoved(m, v))
  {
    assert Plus(Of(PRIMED.moved, m), v) == v && Counted(Of(PRIMED.kernel, m), v.tx, v.rx) == v;
  }

  lemma OneIsRead(id: Render, m: UdpKey, v: Val)
    ensures Next(id, OneMoved(m, v), Read(map[id(m) := v], 0), OneSeen(id, m, v))
  {
    var s, s', cur := PRIMED.stats, OneSeen(id, m, v).stats, map[id(m) := v];
    assert Rendered(id, map[m := v], cur) by {
      assert m in map[m := v];
    }
    assert s'.cum[id(m)] == UdpStats.Grown(s.prev, s.cum, id(m), v, 0);
    assert Folded(s, cur, 0, s');
  }

  /** What moves on one socket shows on every socket rendered like it. */
  lemma SharedKeyOverCounts(id: Render, k: UdpKey, m: UdpKey, v: Val) returns (worlds: seq<World>, events: seq<Event>)
    requires k != m && id(k) == id(m) && v != Val(0, 0) && IsWord(v)
    ensures IsRun(id, worlds, events) && |worlds| == 4
    ensures events == [Read(map[], 0), Add(m, v.tx, v.rx, true), Read(map[id(m) := v], 0)]
    ensures k !in worlds[3].moved && Total(id, worlds[3], k) == v && !Bounded(id, worlds[3], k)
  {
    worlds, events := SmallRun(id, m, v);
    SeenElsewhere(id, k, m, v);
  }

  lemma SeenElsewhere(id: Render, k: UdpKey, m: UdpKey, v: Val)
    requires k != m && id(k) == id(m) && v != Val(0, 0)
    ensures Total(id, OneSeen(id, m, v), k) == v && !Bounded(id, OneSeen(id, m, v), k)
  {
  }

  lemma SmallRun(id: Render, m: UdpKey, v: Val) returns (worlds: seq<World>, events: seq<Event>)
    requires IsWord(v)
    ensures IsRun(id, worlds, events)
    ensures worlds == [START, PRIMED, OneMoved(m, v), OneSeen(id, m, v)]
    ensures events == [Read(map[], 0), Add(m, v.tx, v.rx, true), Read(map[id(m) := v], 0)]
  {
    var moved, seen := OneMoved(m, v), OneSeen(id, m, v);
    worlds := [START, PRIMED, moved, seen];
    events := [Read(map[], 0), Add(m, v.tx, v.rx, true), Read(map[id(m) := v], 0)];
    FirstReading(id);
    OneMoves(id, m, v);
    OneIsRead(id, m, v);
    ThreeSteps(id, worlds, events);
  }

  lemma ThreeSteps(id: Render, worlds: seq<World>, events: seq<Event>)
    requires |worlds| == 4 && |events| == 3 && worlds[0] == START
    requires Next(id, worlds[0], events[0], worlds[1])
    requires Next(id, worlds[1], events[1], worlds[2])
    requires Next(id, worlds[2], events[2], worlds[3])
    ensures IsRun(id, worlds, events)
  {
    assert StepAt(id, worlds, events, 0) && StepAt(id, worlds, events, 1) && StepAt(id, worlds, events, 2);
  }

  function RenderAs(show: Writing): Render {
    (k: UdpKey) => if k.Valid() then Id(show, k) else ""
  }

  /** The kernel's keys are told apart by their rendering exactly when no IPv4
      socket is among them together with its IPv4-mapped form. */
  lemma RealKeysExactly(show: Writing, keys: set<UdpKey>)
    requires Faithful(show)
    requires forall k :: k in keys ==> k.Valid()
    ensures Injective(RenderAs(show), keys) <==> forall k :: k in keys && k.family == 4 ==> MappedForm(k) !in keys
  {
    if k :| k in keys && k.family == 4 && MappedForm(k) in keys {
      IdExactly(show, k, MappedForm(k));
      assert RenderAs(show)(k) == RenderAs(show)(MappedForm(k));
    } else {
      forall k, m | k in keys && m in keys && RenderAs(show)(k) == RenderAs(show)(m)
        ensures k == m
      {
        IdExactly(show, k, m);
      }
    }
  }

  /** So for real sockets too. */
  lemma RealKeysNeverOver(show: Writing, keys: set<UdpKey>)
    requires Faithful(show)
    requires forall k :: k in keys ==> k.Valid()
    ensures NeverOver(RenderAs(show), keys) <==> forall k :: k in keys && k.family == 4 ==> MappedForm(k) !in keys
  {
    NeverOverExactly(RenderAs(show), keys);
    RealKeysExactly(show, keys);
  }

  // ---- what a row shows ----

  /** A UDP row, its ends decoded from what the kernel prints for the socket. */
  predicate RowOf(show: Writing, k: UdpKey, c: Conn)
    requires k.Valid()
  {
    var (la, lp) := HexAddr(PrintEnd(k.Words(k.saddr), k.sport));
    var (ra, rp) := HexAddr(PrintEnd(k.Words(k.daddr), k.dport));
    && (c.proto == "udp" || c.proto == "udp6")
    && c.laddr == ShowOrInvalid(show, la) && c.lport == lp
    && c.raddr == ShowOrInvalid(show, ra) && c.rport == rp
  }

  /** The two renderings meeting, a socket's row shows that socket's total. */
  lemma RowShowsItsSocket(show: Writing, k: UdpKey, w: World, c: Conn)
    requires k.Valid() && Showable(show) && RowOf(show, k, c) && c.up == c.down == 0
    ensures var r := Filled(w.stats.cum, c); Val(r.up, r.down) == Total(RenderAs(show), w, k)
  {
    KeysMeet(show, k);
  }

  /** Rows of other protocols, and rows of sockets without a total, are left
      alone. */
  lemma OthersUntouched(cum: map<string, Traffic>, c: Conn)
    ensures c.proto == "tcp" || c.proto == "tcp6" ==> Filled(cum, c) == c
    ensures (forall i :: ConnUDPKey(c.laddr, c.lport, c.raddr, c.rport) == Some(i) ==> i !in cum) ==>
      Filled(cum, c) == c
    ensures Filled(cum, c).(up := c.up, down := c.down) == c
  {
    if c.proto == "tcp" || c.proto == "tcp6" {
      assert c.proto[..3][0] == 't';
    }
  }

  /** So no row ever shows more than its socket truly moved since priming. */
  lemma RowsNeverOverCount(show: Writing, worlds: seq<World>, events: seq<Event>, n: nat, keys: set<UdpKey>, k: UdpKey,
                           c: Conn)
    requires IsRun(RenderAs(show), worlds, events) && n < |worlds| && k in keys
    requires forall i :: 0 <= i < |events| && events[i].Add? ==> events[i].k in keys
    requires Faithful(show) && Showable(show)
    requires forall m :: m in keys ==> m.Valid()
    requires forall m :: m in keys && m.family == 4 ==> MappedForm(m) !in keys
    requires RowOf(show, k, c) && c.up == c.down == 0
    ensures var r := Filled(worlds[n].stats.cum, c);
      Leq(Plus(Val(r.up, r.down), Of(worlds[n].base, k)), Of(worlds[n].moved, k))
  {
    RealKeysExactly(show, keys);
    NeverOverCounts(RenderAs(show), worlds, events, n, keys, k);
    RowShowsItsSocket(show, k, worlds[n], c);
  }

  // ---- readings that fail ----

  /** A total after one more reading of its counter. */
  function Grow(total: Val, was: Val, cnt: Val): Val {
    if Leq(was, cnt) then Val(total.tx + cnt.tx - was.tx, total.rx + cnt.rx - was.rx) else total
  }

  /** A reading that adds nothing. */
  predicate Still(was: Val, cnt: Val) {
    !Leq(was, cnt) || was == cnt
  }

  /** Two readings add up to the second alone: the counter only grew, or one of
      them shows what its neighbour shows, or neither of the two nor the second
      alone adds anything. */
  predicate ReadingsAgree(p: Val, m: Val, c: Val) {
    || (Leq(p, m) && Leq(m, c))
    || m == p
    || m == c
    || (!Leq(p, m) && !Leq(m, c) && Still(p, c))
  }

  lemma ReadingsAgreeExactly(total: Val, p: Val, m: Val, c: Val)
    ensures Grow(Grow(total, p, m), m, c) == Grow(total, p, c) <==> ReadingsAgree(p, m, c)
  {
  }

  /** What the monitor knows of one socket: its counter in the last reading, its
      total, and when it was last seen. */
  datatype Account = Account(primed: bool, was: Val, total: Val, last: Option<Time>)

  function AccountOf(s: State, i: string): Account {
    Account(s.primed, Was(s.prev, i), Base(s.cum, i), if i in s.cum then Some(s.cum[i].lastSeen) else None)
  }

  function ReadingAt(cur: map<string, Val>, i: string): Option<Val> {
    if i in cur then Some(cur[i]) else None
  }

  function Shown(r: Option<Val>): Val {
    match r
    case None => Val(0, 0)
    case Some(v) => v
  }

  /** Not yet forgotten at this time. */
  predicate Kept(last: Option<Time>, now: Time) {
    last.Some? && now - last.value <= FORGET_AFTER
  }

  function AfterReading(o: Account, r: Option<Val>, now: Time): Account {
    if !o.primed then Account(true, Shown(r), o.total, o.last)
    else
      match r
      case Some(c) => Account(true, c, Grow(o.total, o.was, c), Some(now))
      case None => if Kept(o.last, now) then o.(was := Val(0, 0)) else Account(true, Val(0, 0), Val(0, 0), None)
  }

  lemma FoldedAccount(s: State, cur: map<string, Val>, now: Time, s': State, i: string)
    requires Folded(s, cur, now, s')
    ensures AccountOf(s', i) == AfterReading(AccountOf(s, i), ReadingAt(cur, i), now)
  {
  }

  /** An account in order: nothing before priming, seen in the past, and no
      total without an entry. */
  predicate Sound(o: Account, now: Time) {
    && (!o.primed ==> o.last.None? && o.was == Val(0, 0))
    && (o.last.None? ==> o.total == Val(0, 0))
    && (o.last.Some? ==> o.last.value <= now)
  }

  /** Missing the reading `mid`, at `t1`, is made good by the next one, `cur` at
      `t2`. Before priming, nothing may be added between the two. A socket in
      the next reading must have counters that agree, or, had its total been
      forgotten at `t1`, a total that forgetting makes up for. A socket gone by
      then must have shown nothing new in the reading missed. */
  predicate MissIsMoot(o: Account, mid: Option<Val>, t1: Time, cur: Option<Val>, t2: Time) {
    if !o.primed then cur.None? || Still(Shown(mid), cur.value)
    else if cur.Some? then
      if mid.Some? || o.last.None? || Kept(o.last, t1) then ReadingsAgree(o.was, Shown(mid), cur.value)
      else Grow(o.total, o.was, cur.value) == cur.value
    else
      || mid.None?
      || t2 - t1 > FORGET_AFTER
      || (Still(o.was, mid.value) && (o.total == Val(0, 0) || Kept(o.last, t2)))
  }

  /** A socket's total with and without the first of two readings. */
  lemma MissedReadingExactly(o: Account, mid: Option<Val>, t1: Time, cur: Option<Val>, t2: Time)
    requires Sound(o, t1) && t1 <= t2
    ensures AfterReading(AfterReading(o, mid, t1), cur, t2).total == AfterReading(o, cur, t2).total <==>
      MissIsMoot(o, mid, t1, cur, t2)
  {
    if cur.Some? {
      ReadingsAgreeExactly(o.total, o.was, Shown(mid), cur.value);
      GrowNothing(o.total, o.was, Shown(mid));
    }
  }

  lemma GrowNothing(total: Val, was: Val, cnt: Val)
    ensures Grow(total, was, cnt) == total <==> Still(was, cnt)
    ensures cnt == Val(0, 0) ==> Grow(total, was, cnt) == total
  {
  }

  // ---- over whole runs ----

  /** Two runs alike but for the reading of event `j`, which the second one
      misses; the next reading is event `n`. */
  ghost predicate MissedIn(read: seq<Event>, missed: seq<Event>, j: nat, n: nat) {
    && |read| == |missed| && j < n < |read|
    && read[j].Read? && missed[j].ReadFails?
    && (forall i :: 0 <= i < |read| && i != j ==> read[i] == missed[i])
    && read[n].Read? && forall i :: j < i < n ==> !read[i].Read?
  }

  ghost predicate Timed(events: seq<Event>) {
    forall i, j :: 0 <= i <= j < |events| && events[i].Read? && events[j].Read? ==> events[i].now <= events[j].now
  }

  /** An event leaves no choice. */
  lemma Deterministic(id: Render, w: World, e: Event, a: World, b: World)
    requires Next(id, w, e, a) && Next(id, w, e, b)
    ensures a == b
  {
    if e.Read? {
      assert a.stats.cum == b.stats.cum;
    }
  }

  lemma {:induction false} SameSoFar(id: Render, a: seq<World>, read: seq<Event>, b: seq<World>, missed: seq<Event>,
                                     j: nat, n: nat, i: nat)
    requires IsRun(id, a, read) && IsRun(id, b, missed) && MissedIn(read, missed, j, n) && i <= j
    ensures a[i] == b[i]
  {
    if i > 0 {
      SameSoFar(id, a, read, b, missed, j, n, i - 1);
      assert StepAt(id, a, read, i - 1) && StepAt(id, b, missed, i - 1);
      Deterministic(id, a[i - 1], read[i - 1], a[i], b[i]);
    }
  }

  /** Between readings nothing changes what the monitor knows. */
  lemma {:induction false} Unread(id: Render, worlds: seq<World>, events: seq<Event>, from: nat, to: nat)
    requires IsRun(id, worlds, events) && from <= to < |worlds|
    requires forall i :: from <= i < to ==> !events[i].Read?
    ensures worlds[to].stats == worlds[from].stats
  {
    if from < to {
      Unread(id, worlds, events, from, to - 1);
      assert StepAt(id, worlds, events, to - 1);
    }
  }

  lemma {:induction false} AlwaysSound(id: Render, worlds: seq<World>, events: seq<Event>, n: nat, t: Time, i: string)
    requires IsRun(id, worlds, events) && n < |worlds|
    requires forall m :: 0 <= m < n && events[m].Read? ==> events[m].now <= t
    ensures Sound(AccountOf(worlds[n].stats, i), t)
  {
    if n > 0 {
      AlwaysSound(id, worlds, events, n - 1, t, i);
      assert StepAt(id, worlds, events, n - 1);
      if events[n - 1].Read? {
        FoldedAccount(worlds[n - 1].stats, events[n - 1].cur, events[n - 1].now, worlds[n].stats, i);
        SoundAfter(AccountOf(worlds[n - 1].stats, i), ReadingAt(events[n - 1].cur, i), events[n - 1].now, t);
      }
    }
  }

  lemma SoundAfter(o: Account, r: Option<Val>, now: Time, t: Time)
    requires Sound(o, t) && now <= t
    ensures Sound(AfterReading(o, r, now), t)
  {
  }

  lemma AccountAfter(id: Render, worlds: seq<World>, events: seq<Event>, n: nat, i: string)
    requires IsRun(id, worlds, events) && n < |events| && events[n].Read?
    ensures AccountOf(worlds[n + 1].stats, i) ==
      AfterReading(AccountOf(worlds[n].stats, i), ReadingAt(events[n].cur, i), events[n].now)
  {
    assert StepAt(id, worlds, events, n);
    FoldedAccount(worlds[n].stats, events[n].cur, events[n].now, worlds[n + 1].stats, i);
  }

  /** A reading that fails changes a socket's next total exactly when missing it
      is not moot; whatever is counted and evicted between, before and after. */
  lemma FailureMattersExactly(id: Render, a: seq<World>, read: seq<Event>, b: seq<World>, missed: seq<Event>, j: nat,
                              n: nat, k: UdpKey)
    requires IsRun(id, a, read) && IsRun(id, b, missed) && MissedIn(read, missed, j, n) && Timed(read)
    ensures Total(id, a[n + 1], k) == Total(id, b[n + 1], k) <==>
      MissIsMoot(AccountOf(a[j].stats, id(k)), ReadingAt(read[j].cur, id(k)), read[j].now,
                 ReadingAt(read[n].cur, id(k)), read[n].now)
  {
    var i := id(k);
    SameSoFar(id, a, read, b, missed, j, n, j);
    AlwaysSound(id, a, read, j, read[j].now, i);
    AccountAfter(id, a, read, j, i);
    Unread(id, a, read, j + 1, n);
    AccountAfter(id, a, read, n, i);
    Unread(id, b, missed, j, n);
    AccountAfter(id, b, missed, n, i);
    MissedReadingExactly(AccountOf(a[j].stats, i), ReadingAt(read[j].cur, i), read[j].now, ReadingAt(read[n].cur, i),
                         read[n].now);
  }

  /** In particular, a counter that only grew, evicted by nobody, catches up. */
  lemma GrowthCatchesUp(o: Account, mid: Val, t1: Time, cur: Val, t2: Time)
    requires o.primed && Leq(o.was, mid) && Leq(mid, cur)
    ensures MissIsMoot(o, Some(mid), t1, Some(cur), t2)
  {
  }

  // ---- a reading missed that matters: the socket is evicted before the next ----

  function Evicted(w: World): World {
    w.(kernel := map[])
  }

  function Gone(w: World): World {
    w.(stats := w.stats.(prev := map[]), at := w.moved)
  }

  lemma EvictedThenRead(id: Render, m: UdpKey, v: Val, w: World)
    requires w == OneSeen(id, m, v) || w == OneMoved(m, v)
    ensures Next(id, w, Evict(m), Evicted(w))
    ensures Next(id, Evicted(w), Read(map[], 0), Gone(Evicted(w)))
  {
    assert map[m := v] - {m} == map[];
  }

  lemma MissedReadingMatters(id: Render, m: UdpKey, v: Val)
    returns (a: seq<World>, read: seq<Event>, b: seq<World>, missed: seq<Event>)
    requires v != Val(0, 0) && IsWord(v)
    ensures IsRun(id, a, read) && IsRun(id, b, missed) && MissedIn(read, missed, 2, 4)
    ensures Total(id, a[5], m) == v && Total(id, b[5], m) == Val(0, 0)
  {
    var seen, moved := OneSeen(id, m, v), OneMoved(m, v);
    var first, rest := SmallRun(id, m, v);
    read := rest + [Evict(m), Read(map[], 0)];
    missed := rest[2 := ReadFails] + [Evict(m), Read(map[], 0)];
    a := first + [Evicted(seen), Gone(Evicted(seen))];
    b := first[3 := moved] + [Evicted(moved), Gone(Evicted(moved))];
    EvictedThenRead(id, m, v, seen);
    EvictedThenRead(id, m, v, moved);
    Continues(id, first, rest, Evicted(seen), Gone(Evicted(seen)), Evict(m), Read(map[], 0));
    FailsInstead(id, first, rest);
    Continues(id, first[3 := moved], rest[2 := ReadFails], Evicted(moved), Gone(Evicted(moved)), Evict(m),
              Read(map[], 0));
  }

  /** A reading that fails keeps the world as it was. */
  lemma FailsInstead(id: Render, worlds: seq<World>, events: seq<Event>)
    requires IsRun(id, worlds, events) && |events| == 3
    ensures IsRun(id, worlds[3 := worlds[2]], events[2 := ReadFails])
  {
    var ws, es := worlds[3 := worlds[2]], events[2 := ReadFails];
    assert StepAt(id, worlds, events, 0) && StepAt(id, worlds, events, 1);
    assert StepAt(id, ws, es, 0) && StepAt(id, ws, es, 1) && StepAt(id, ws, es, 2);
  }

  lemma Continues(id: Render, worlds: seq<World>, events: seq<Event>, w: World, w': World, e: Event, e': Event)
    requires IsRun(id, worlds, events)
    requires Next(id, worlds[|events|], e, w) && Next(id, w, e', w')
    ensures IsRun(id, worlds + [w, w'], events + [e, e'])
  {
    var ws, es := worlds + [w, w'], events + [e, e'];
    forall i: nat | i < |es|
      ensures StepAt(id, ws, es, i)
    {
      if i < |events| {
        assert StepAt(id, worlds, events, i);
      }
    }
  }
}
