/** What one missed reading of the UDP map changes in the long run: all totals
    from the next reading on, whatever is counted, evicted and read by then
    (udpstats.go). */
module MissedReadings {
  import opened Common
  import opened SocketKeys
  import opened UdpStats
  import opened UdpHistory
  import opened UdpLimits

  // ---- one account ----

  datatype LaterReading = LaterReading(shown: Option<Val>, now: Time)

  /** Readings in the order of time, none before `t`. */
  predicate InTime(t: Time, rs: seq<LaterReading>)
    decreases rs
  {
    rs != [] ==> t <= rs[0].now && InTime(rs[0].now, rs[1..])
  }

  function AfterAll(o: Account, rs: seq<LaterReading>): Account
    decreases rs
  {
    if rs == [] then o else AfterAll(AfterReading(o, rs[0].shown, rs[0].now), rs[1..])
  }

  /** Two accounts that no later reading tells apart: nothing to forget, or
      forgotten at the same time. */
  predicate Alike(x: Account, y: Account) {
    && x.primed && y.primed && x.was == y.was && x.total == y.total
    && (x.total == Val(0, 0) || x.last == y.last)
  }

  lemma AlikeStays(x: Account, y: Account, r: Option<Val>, now: Time)
    requires Alike(x, y)
    ensures Alike(AfterReading(x, r, now), AfterReading(y, r, now))
  {
  }

  lemma {:induction false} AlikeAfterAll(x: Account, y: Account, rs: seq<LaterReading>)
    requires Alike(x, y)
    ensures AfterAll(x, rs).total == AfterAll(y, rs).total
    decreases rs
  {
    if rs != [] {
      AlikeStays(x, y, rs[0].shown, rs[0].now);
      AlikeAfterAll(AfterReading(x, rs[0].shown, rs[0].now), AfterReading(y, rs[0].shown, rs[0].now), rs[1..]);
    }
  }

  ghost predicate AlwaysAgree(x: Account, y: Account, t: Time) {
    forall rs :: InTime(t, rs) ==> AfterAll(x, rs).total == AfterAll(y, rs).total
  }

  /** When the one of two accounts that was seen earlier is forgotten. */
  function FirstForgotten(x: Account, y: Account): Time
    requires x.last.Some? && y.last.Some?
  {
    FORGET_AFTER + 1 + if x.last.value < y.last.value then x.last.value else y.last.value
  }

  /** Two sockets that are gone, with one total but seen at different times:
      one of them is forgotten first. */
  lemma ForgottenApart(x: Account, y: Account)
    requires x.primed && y.primed && x.total == y.total != Val(0, 0)
    requires x.last.Some? && y.last.Some? && x.last != y.last
    ensures var t := FirstForgotten(x, y); AfterReading(x, None, t).total != AfterReading(y, None, t).total
  {
  }

  /** The account after the next reading, with and without the one missed. */
  function WithMid(o: Account, mid: Option<Val>, t1: Time, cur: Option<Val>, t2: Time): Account {
    AfterReading(AfterReading(o, mid, t1), cur, t2)
  }

  /** Missing a reading never matters again: to a socket in the next reading, or
      before priming, once the next total is right. To a socket gone by then
      only if the reading missed did not show it, or lies a minute back, or
      added nothing to a total that is zero, or to one not forgotten yet that
      was last seen at the very same time. */
  predicate MootForGood(o: Account, mid: Option<Val>, t1: Time, cur: Option<Val>, t2: Time) {
    if !o.primed || cur.Some? then MissIsMoot(o, mid, t1, cur, t2)
    else
      || mid.None?
      || t2 - t1 > FORGET_AFTER
      || (Still(o.was, mid.value) && (o.total == Val(0, 0) || (Kept(o.last, t2) && o.last == Some(t1))))
  }

  lemma MootForGoodIsAlike(o: Account, mid: Option<Val>, t1: Time, cur: Option<Val>, t2: Time)
    requires Sound(o, t1) && t1 <= t2
    ensures Alike(WithMid(o, mid, t1, cur, t2), AfterReading(o, cur, t2)) <==> MootForGood(o, mid, t1, cur, t2)
  {
    MissedReadingExactly(o, mid, t1, cur, t2);
    if mid.Some? {
      GrowNothing(o.total, o.was, mid.value);
    }
  }

  /** Two accounts held with one total, but seen last at different times. */
  predicate OnlyLastDiffers(x: Account, y: Account, now: Time) {
    && x.primed && y.primed && x.total == y.total != Val(0, 0)
    && x.last != y.last && Kept(x.last, now) && Kept(y.last, now)
  }

  /** Where the totals after the next reading agree but the accounts are not
      alike, the socket is gone. */
  lemma UnlikeIsGone(o: Account, mid: Option<Val>, t1: Time, cur: Option<Val>, t2: Time)
    requires Sound(o, t1) && t1 <= t2 && !MootForGood(o, mid, t1, cur, t2) && MissIsMoot(o, mid, t1, cur, t2)
    ensures cur.None?
    ensures OnlyLastDiffers(WithMid(o, mid, t1, cur, t2), AfterReading(o, cur, t2), t2)
  {
    MissedReadingExactly(o, mid, t1, cur, t2);
    MootForGoodIsAlike(o, mid, t1, cur, t2);
  }

  /** For one account: every later total agrees exactly then. */
  lemma MissedForGoodExactly(o: Account, mid: Option<Val>, t1: Time, cur: Option<Val>, t2: Time)
    requires Sound(o, t1) && t1 <= t2
    ensures AlwaysAgree(WithMid(o, mid, t1, cur, t2), AfterReading(o, cur, t2), t2) <==>
      MootForGood(o, mid, t1, cur, t2)
  {
    var x, y := WithMid(o, mid, t1, cur, t2), AfterReading(o, cur, t2);
    MootForGoodIsAlike(o, mid, t1, cur, t2);
    if MootForGood(o, mid, t1, cur, t2) {
      forall rs | InTime(t2, rs)
        ensures AfterAll(x, rs).total == AfterAll(y, rs).total
      {
        AlikeAfterAll(x, y, rs);
      }
    } else if MissIsMoot(o, mid, t1, cur, t2) {
      UnlikeIsGone(o, mid, t1, cur, t2);
      ForgottenApart(x, y);
      var rs := [LaterReading(None, FirstForgotten(x, y))];
      assert rs[1..] == [] && InTime(t2, rs);
      assert AfterAll(x, rs) == AfterReading(x, None, rs[0].now) && AfterAll(y, rs) == AfterReading(y, None, rs[0].now);
    } else {
      MissedReadingExactly(o, mid, t1, cur, t2);
      assert InTime(t2, []) && AfterAll(x, []) == x && AfterAll(y, []) == y;
    }
  }

  // ---- every reading of the map can be folded in ----

  lemma AccumulatedExists(prev: map<string, Val>, cum: map<string, Traffic>, cur: map<string, Val>, now: Time)
    returns (cum': map<string, Traffic>)
    ensures Accumulated(prev, cum, cur, now, cum')
  {
    cum' := cum;
    var todo := cur.Keys;
    while todo != {}
      invariant todo <= cur.Keys
      invariant forall sock :: sock in cum' <==> sock in cum || (sock in cur && sock !in todo)
      invariant forall sock :: sock in cum' ==>
        cum'[sock] == if sock in cur && sock !in todo then Grown(prev, cum, sock, cur[sock], now) else cum[sock]
      decreases todo
    {
      var sock :| sock in todo;
      todo := todo - {sock};
      cum' := cum'[sock := Grown(prev, cum, sock, cur[sock], now)];
    }
  }

  lemma FoldedExists(s: State, cur: map<string, Val>, now: Time) returns (s': State)
    requires s.primed
    ensures Folded(s, cur, now, s')
  {
    var grown := AccumulatedExists(s.prev, s.cum, cur, now);
    var old' := set i | i in grown && i !in cur && now - grown[i].lastSeen > FORGET_AFTER;
    var kept := grown - old';
    assert Purged(grown, cur, now, kept);
    FoldedInTwo(s, cur, now, grown, kept);
    s' := State(cur, kept, true);
  }

  /** A run may go on with any reading of the map as it stands. */
  lemma ReadsAgain(id: Render, worlds: seq<World>, events: seq<Event>, cur: map<string, Val>, now: Time)
    returns (worlds': seq<World>)
    requires IsRun(id, worlds, events) && worlds[|events|].stats.primed && Rendered(id, worlds[|events|].kernel, cur)
    ensures IsRun(id, worlds', events + [Read(cur, now)]) && worlds'[..|worlds|] == worlds
    ensures worlds'[|worlds|].kernel == worlds[|events|].kernel && worlds'[|worlds|].stats.primed
  {
    var w := worlds[|events|];
    var s := FoldedExists(w.stats, cur, now);
    var w' := w.(stats := s, at := w.moved);
    worlds' := worlds + [w'];
    GoesOn(id, worlds, events, Read(cur, now), w');
  }

  lemma GoesOn(id: Render, worlds: seq<World>, events: seq<Event>, e: Event, w: World)
    requires IsRun(id, worlds, events) && Next(id, worlds[|events|], e, w)
    ensures IsRun(id, worlds + [w], events + [e])
  {
    var ws, es := worlds + [w], events + [e];
    forall i: nat | i < |es|
      ensures StepAt(id, ws, es, i)
    {
      if i < |events| {
        assert StepAt(id, worlds, events, i);
      }
    }
  }

  // ---- over whole runs ----

  /** However both runs go on alike, the socket's totals agree. */
  ghost predicate AgreeEverAfter(id: Render, read: seq<Event>, missed: seq<Event>, k: UdpKey) {
    forall more: seq<Event>, a: seq<World>, b: seq<World> ::
      GoOn(id, a, read, b, missed, more) ==> Total(id, a[|read + more|], k) == Total(id, b[|missed + more|], k)
  }

  ghost predicate GoOn(id: Render, a: seq<World>, read: seq<Event>, b: seq<World>, missed: seq<Event>,
                       more: seq<Event>)
  {
    IsRun(id, a, read + more) && IsRun(id, b, missed + more) && Timed(read + more)
  }

  /** A run is settled by its events. */
  lemma {:induction false} SettledByEvents(id: Render, a: seq<World>, events: seq<Event>, a': seq<World>,
                                           more: seq<Event>, n: nat)
    requires IsRun(id, a, events) && IsRun(id, a', events + more) && n <= |events|
    ensures a[n] == a'[n]
  {
    if n > 0 {
      SettledByEvents(id, a, events, a', more, n - 1);
      assert StepAt(id, a, events, n - 1) && StepAt(id, a', events + more, n - 1);
      Deterministic(id, a[n - 1], events[n - 1], a[n], a'[n]);
    }
  }

  lemma AlikeStep(id: Render, v: World, w: World, e: Event, v': World, w': World, i: string)
    requires Next(id, v, e, v') && Next(id, w, e, w') && Alike(AccountOf(v.stats, i), AccountOf(w.stats, i))
    ensures Alike(AccountOf(v'.stats, i), AccountOf(w'.stats, i))
  {
    if e.Read? {
      FoldedAccount(v.stats, e.cur, e.now, v'.stats, i);
      FoldedAccount(w.stats, e.cur, e.now, w'.stats, i);
      AlikeStays(AccountOf(v.stats, i), AccountOf(w.stats, i), ReadingAt(e.cur, i), e.now);
    }
  }

  lemma {:induction false} AlikeAlong(id: Render, a: seq<World>, read: seq<Event>, b: seq<World>, missed: seq<Event>,
                                      more: seq<Event>, n: nat, i: string)
    requires GoOn(id, a, read, b, missed, more) && |read| == |missed| <= n <= |read + more|
    requires Alike(AccountOf(a[|read|].stats, i), AccountOf(b[|read|].stats, i))
    ensures Alike(AccountOf(a[n].stats, i), AccountOf(b[n].stats, i))
  {
    if n > |read| {
      AlikeAlong(id, a, read, b, missed, more, n - 1, i);
      assert StepAt(id, a, read + more, n - 1) && StepAt(id, b, missed + more, n - 1);
      AlikeStep(id, a[n - 1], b[n - 1], more[n - 1 - |read|], a[n], b[n], i);
    }
  }

  /** The accounts after the next reading. */
  lemma AccountsAfter(id: Render, a: seq<World>, read: seq<Event>, b: seq<World>, missed: seq<Event>, j: nat, n: nat,
                      i: string)
    requires IsRun(id, a, read) && IsRun(id, b, missed) && MissedIn(read, missed, j, n) && Timed(read)
    ensures Sound(AccountOf(a[j].stats, i), read[j].now)
    ensures AccountOf(a[n + 1].stats, i) == WithMid(AccountOf(a[j].stats, i), ReadingAt(read[j].cur, i), read[j].now,
                                                    ReadingAt(read[n].cur, i), read[n].now)
    ensures AccountOf(b[n + 1].stats, i) ==
      AfterReading(AccountOf(a[j].stats, i), ReadingAt(read[n].cur, i), read[n].now)
  {
    SameSoFar(id, a, read, b, missed, j, n, j);
    AlwaysSound(id, a, read, j, read[j].now, i);
    AccountAfter(id, a, read, j, i);
    Unread(id, a, read, j + 1, n);
    AccountAfter(id, a, read, n, i);
    Unread(id, b, missed, j, n);
    AccountAfter(id, b, missed, n, i);
  }

  ghost predicate LastRead(read: seq<Event>, missed: seq<Event>) {
    |read| == |missed| > 0 && read[|read| - 1].Read? && missed[|read| - 1] == read[|read| - 1]
  }

  /** Reading the map again, unchanged, just after the first of two accounts
      may be forgotten. */
  lemma ReadApart(id: Render, a: seq<World>, read: seq<Event>, b: seq<World>, missed: seq<Event>, k: UdpKey)
    requires IsRun(id, a, read) && IsRun(id, b, missed) && Timed(read)
    requires LastRead(read, missed) && id(k) !in read[|read| - 1].cur
    requires OnlyLastDiffers(AccountOf(a[|read|].stats, id(k)), AccountOf(b[|read|].stats, id(k)), read[|read| - 1].now)
    ensures !AgreeEverAfter(id, read, missed, k)
  {
    var n, e := |read|, read[|read| - 1];
    var x, y := AccountOf(a[n].stats, id(k)), AccountOf(b[n].stats, id(k));
    var again := Read(e.cur, FirstForgotten(x, y));
    assert StepAt(id, a, read, n - 1) && StepAt(id, b, missed, n - 1);
    var a' := ReadsAgain(id, a, read, e.cur, again.now);
    var b' := ReadsAgain(id, b, missed, e.cur, again.now);
    AccountAfter(id, a', read + [again], n, id(k));
    AccountAfter(id, b', missed + [again], n, id(k));
    ForgottenApart(x, y);
    assert a'[n] == a'[..n + 1][n] == a[n] && b'[n] == b'[..n + 1][n] == b[n];
    assert GoOn(id, a', read, b', missed, [again]);
  }

  /** Two runs alike but for one reading that the second one misses: however
      they go on, every total from the next reading on agrees exactly when the
      miss is moot for good. */
  lemma FailureNeverMattersExactly(id: Render, a: seq<World>, read: seq<Event>, b: seq<World>, missed: seq<Event>,
                                   j: nat, k: UdpKey)
    requires IsRun(id, a, read) && IsRun(id, b, missed) && |read| > 0 && MissedIn(read, missed, j, |read| - 1) &&
      Timed(read)
    ensures AgreeEverAfter(id, read, missed, k) <==>
      var n := |read| - 1;
      MootForGood(AccountOf(a[j].stats, id(k)), ReadingAt(read[j].cur, id(k)), read[j].now,
                  ReadingAt(read[n].cur, id(k)), read[n].now)
  {
    var i, n := id(k), |read| - 1;
    var o, mid, t1, cur, t2 :=
      AccountOf(a[j].stats, i), ReadingAt(read[j].cur, i), read[j].now, ReadingAt(read[n].cur, i), read[n].now;
    AccountsAfter(id, a, read, b, missed, j, n, i);
    MootForGoodIsAlike(o, mid, t1, cur, t2);
    if MootForGood(o, mid, t1, cur, t2) {
      forall more: seq<Event>, a': seq<World>, b': seq<World> | GoOn(id, a', read, b', missed, more)
        ensures Total(id, a'[|read + more|], k) == Total(id, b'[|missed + more|], k)
      {
        SettledByEvents(id, a, read, a', more, |read|);
        SettledByEvents(id, b, missed, b', more, |read|);
        AlikeAlong(id, a', read, b', missed, more, |read + more|, i);
      }
    } else if MissIsMoot(o, mid, t1, cur, t2) {
      UnlikeIsGone(o, mid, t1, cur, t2);
      ReadApart(id, a, read, b, missed, k);
    } else {
      MissedReadingExactly(o, mid, t1, cur, t2);
      assert read + [] == read && missed + [] == missed;
      assert GoOn(id, a, read, b, missed, []);
    }
  }

  // ---- an agreement that ends: the next total is right, a later one is not ----

  /** A socket evicted, found gone after two seconds and again after 61. */
  function Afterwards(m: UdpKey): seq<Event> {
    [Evict(m), Read(map[], 2 * SECOND), Read(map[], 61 * SECOND)]
  }

  /** A socket that moves some bytes, read twice. */
  function ReadTwice(id: Render, m: UdpKey, v: Val): seq<Event> {
    [Read(map[], 0), Add(m, v.tx, v.rx, true), Read(map[id(m) := v], 0), Read(map[id(m) := v], SECOND)]
  }

  /** Its total is forgotten by then iff it was last seen more than a minute
      before. */
  lemma GoneAndForgotten(id: Render, worlds: seq<World>, events: seq<Event>, m: UdpKey, v: Val, at: Time)
    returns (worlds': seq<World>)
    requires IsRun(id, worlds, events) && worlds[|events|].kernel == map[m := v] && 0 <= at <= SECOND
    requires AccountOf(worlds[|events|].stats, id(m)) == Account(true, v, v, Some(at))
    ensures IsRun(id, worlds', events + Afterwards(m))
    ensures Total(id, worlds'[|events| + 2], m) == v
    ensures Total(id, worlds'[|events| + 3], m) == if at < SECOND then Val(0, 0) else v
  {
    var n, i, e1 := |events|, id(m), events + [Evict(m)];
    assert map[m := v] - {m} == map[];
    var w := worlds[n].(kernel := map[]);
    GoesOn(id, worlds, events, Evict(m), w);
    var e2, e3 := e1 + [Read(map[], 2 * SECOND)], events + Afterwards(m);
    var w2 := ReadsAgain(id, worlds + [w], e1, map[], 2 * SECOND);
    AccountAfter(id, w2, e2, n + 1, i);
    assert w2[n + 1] == w2[..n + 2][n + 1] == w;
    var w3 := ReadsAgain(id, w2, e2, map[], 61 * SECOND);
    assert e2 + [Read(map[], 61 * SECOND)] == e3;
    AccountAfter(id, w3, e3, n + 2, i);
    assert w3[n + 2] == w3[..n + 3][n + 2] == w2[n + 2];
    worlds' := w3;
  }

  /** A second reading that shows what is known, and one that fails. */
  lemma SeenAgainOrNot(id: Render, m: UdpKey, v: Val) returns (one: seq<World>, other: seq<World>)
    requires IsWord(v)
    ensures var events := [Read(map[], 0), Add(m, v.tx, v.rx, true), Read(map[id(m) := v], 0)];
      IsRun(id, one, ReadTwice(id, m, v)) && IsRun(id, other, events + [ReadFails])
    ensures |one| == |other| == 5 && one[4].kernel == other[4].kernel == map[m := v]
    ensures AccountOf(one[4].stats, id(m)) == Account(true, v, v, Some(SECOND))
    ensures AccountOf(other[4].stats, id(m)) == Account(true, v, v, Some(0))
  {
    var worlds, events := SmallRun(id, m, v);
    var seen, again := OneSeen(id, m, v), Read(map[id(m) := v], SECOND);
    assert Rendered(id, seen.kernel, again.cur) by {
      assert m in seen.kernel;
    }
    one := ReadsAgain(id, worlds, events, again.cur, SECOND);
    assert events + [again] == ReadTwice(id, m, v) && one[3] == one[..4][3] == seen;
    AccountAfter(id, one, ReadTwice(id, m, v), 3, id(m));
    GoesOn(id, worlds, events, ReadFails, seen);
    other := worlds + [seen];
  }

  /** For any socket and any traffic: a reading that shows what was known is
      missed, the socket is evicted, and both monitors are right about it a
      second later. A minute on only one of them still is. */
  lemma AgreementEnds(id: Render, m: UdpKey, v: Val)
    returns (a: seq<World>, read: seq<Event>, b: seq<World>, missed: seq<Event>)
    requires v != Val(0, 0) && IsWord(v)
    ensures IsRun(id, a, read) && IsRun(id, b, missed) && MissedIn(read, missed, 3, 5) && Timed(read)
    ensures read == ReadTwice(id, m, v) + Afterwards(m)
    ensures Total(id, a[6], m) == Total(id, b[6], m) == v
    ensures Total(id, a[7], m) == v && Total(id, b[7], m) == Val(0, 0)
  {
    var small := [Read(map[], 0), Add(m, v.tx, v.rx, true), Read(map[id(m) := v], 0)];
    var one, other := SeenAgainOrNot(id, m, v);
    var seen, unseen := ReadTwice(id, m, v), small + [ReadFails];
    a := GoneAndForgotten(id, one, seen, m, v, SECOND);
    b := GoneAndForgotten(id, other, unseen, m, v, 0);
    read, missed := seen + Afterwards(m), unseen + Afterwards(m);
  }
}
