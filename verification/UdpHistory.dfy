/** UDP totals against the traffic that truly moved: the kernel side counting
    and evicting (bpf/udp.c), the monitor reading now and then (udpstats.go). */
module UdpHistory {
  import opened Common
  import opened SocketKeys
  import opened UdpStats

  type Ledger = map<UdpKey, Val>

  /** The kernel map, the monitor, and a ledger kept by nobody: the traffic
      moved, as it stood at the last reading and at priming. */
  datatype World = World(kernel: KernelMap, stats: State, moved: Ledger, at: Ledger, base: Ledger)

  /** The counters of a full map may fail to be created: `counted` is false. */
  datatype Event =
    | Add(k: UdpKey, tx: nat, rx: nat, counted: bool)
    | Evict(k: UdpKey)
    | Read(cur: map<string, Val>, now: Time)
    | ReadFails

  function Of(m: Ledger, k: UdpKey): Val {
    if k in m then m[k] else Val(0, 0)
  }

  function Plus(a: Val, b: Val): Val {
    Val(a.tx + b.tx, a.rx + b.rx)
  }

  predicate Leq(a: Val, b: Val) {
    a.tx <= b.tx && a.rx <= b.rx
  }

  /** Atomic adds on 64-bit words. */
  function Counted(v: Val, tx: nat, rx: nat): Val {
    Val((v.tx + tx) % 0x1_0000_0000_0000_0000, (v.rx + rx) % 0x1_0000_0000_0000_0000)
  }

  ghost predicate Next(id: Render, w: World, e: Event, w': World) {
    match e
    case Add(k, tx, rx, counted) =>
      && w' == w.(moved := w.moved[k := Plus(Of(w.moved, k), Val(tx, rx))],
                  kernel := if counted then w.kernel[k := Counted(Of(w.kernel, k), tx, rx)] else w.kernel)
    case Evict(k) => w' == w.(kernel := w.kernel - {k})
    case Read(cur, now) =>
      && Rendered(id, w.kernel, cur)
      && Folded(w.stats, cur, now, w'.stats)
      && w' == w.(stats := w'.stats, at := w.moved, base := if w.stats.primed then w.base else w.moved)
    case ReadFails => w' == w
  }

  const START: World := World(map[], INITIAL, map[], map[], map[])

  ghost predicate IsRun(id: Render, worlds: seq<World>, events: seq<Event>) {
    && |worlds| == |events| + 1
    && worlds[0] == START
    && forall i :: 0 <= i < |events| ==> StepAt(id, worlds, events, i)
  }

  ghost predicate StepAt(id: Render, worlds: seq<World>, events: seq<Event>, i: nat)
    requires i < |events| < |worlds|
  {
    Next(id, worlds[i], events[i], worlds[i + 1])
  }

  /** No two of these sockets are rendered alike. */
  ghost predicate Injective(id: Render, keys: set<UdpKey>) {
    forall k, m :: k in keys && m in keys && id(k) == id(m) ==> k == m
  }

  /** The monitor's total for a socket. */
  function Total(id: Render, w: World, k: UdpKey): Val
  {
    Base(w.stats.cum, id(k))
  }

  function Was(prev: map<string, Val>, i: string): Val {
    if i in prev then prev[i] else Val(0, 0)
  }

  // ---- never too much ----

  /** One direction of one socket: the ledger is in order, the total covers no
      more than was moved up to the last reading, and what the counter shows
      beyond that reading was moved since. */
  predicate InOrder(live: bool, cnt: nat, was: nat, total: nat, base: nat, at: nat, moved: nat) {
    && base <= at <= moved
    && total + base <= at
    && (live ==> cnt + at <= was + moved)
  }

  /** Both directions. */
  predicate BothInOrder(live: bool, cnt: Val, was: Val, total: Val, base: Val, at: Val, moved: Val) {
    && InOrder(live, cnt.tx, was.tx, total.tx, base.tx, at.tx, moved.tx)
    && InOrder(live, cnt.rx, was.rx, total.rx, base.rx, at.rx, moved.rx)
  }

  predicate SafeKey(id: Render, w: World, k: UdpKey) {
    BothInOrder(k in w.kernel, Of(w.kernel, k), Was(w.stats.prev, id(k)), Total(id, w, k), Of(w.base, k), Of(w.at, k),
                Of(w.moved, k))
  }

  ghost predicate Safe(id: Render, w: World, keys: set<UdpKey>) {
    && w.kernel.Keys <= keys
    && (!w.stats.primed ==> w.stats.prev == map[] && w.stats.cum == map[] && w.at == map[] && w.base == map[])
    && forall k :: k in keys ==> SafeKey(id, w, k)
  }

  /** A reading shows each socket its own counter. */
  lemma ReadingOf(id: Render, kernel: KernelMap, cur: map<string, Val>, keys: set<UdpKey>, k: UdpKey)
    requires Rendered(id, kernel, cur) && Injective(id, keys) && kernel.Keys <= keys && k in keys
    ensures id(k) in cur <==> k in kernel
    ensures k in kernel ==> cur[id(k)] == kernel[k]
  {
    if id(k) in cur {
      var m :| m in kernel && id(m) == id(k) && cur[id(k)] == kernel[m];
      assert m in keys;
    }
  }

  /** One socket's total after a reading. */
  lemma TotalAfter(s: State, cur: map<string, Val>, now: Time, s': State, i: string)
    requires Folded(s, cur, now, s')
    ensures s'.prev == cur && s'.primed
    ensures !s.primed ==> s'.cum == s.cum
    ensures s.primed && i in cur ==> Base(s'.cum, i) == Plus(Base(s.cum, i), Increment(s.prev, i, cur[i]))
    ensures s.primed && i !in cur ==> Base(s'.cum, i) == Base(s.cum, i) || Base(s'.cum, i) == Val(0, 0)
    ensures s.primed && i !in cur && i !in s.cum ==> Base(s'.cum, i) == Val(0, 0)
  {
  }

  /** What a reading means for one socket, without the rest of the world. */
  predicate KeyRead(id: Render, w: World, w': World, k: UdpKey, inc: Val) {
    && Of(w'.kernel, k) == Of(w.kernel, k) && (k in w'.kernel <==> k in w.kernel)
    && Of(w'.moved, k) == Of(w.moved, k) && Of(w'.at, k) == Of(w.moved, k)
    && Of(w'.base, k) == (if w.stats.primed then Of(w.base, k) else Of(w.moved, k))
    && (k in w'.moved <==> k in w.moved) && (k in w'.at <==> k in w.moved)
    && (id(k) in w'.stats.prev <==> k in w.kernel)
    && Was(w'.stats.prev, id(k)) == Of(w.kernel, k)
    && inc == Increment(w.stats.prev, id(k), Of(w.kernel, k))
    && if !w.stats.primed then Total(id, w', k) == Total(id, w, k)
       else if k in w.kernel then Total(id, w', k) == Plus(Total(id, w, k), inc)
       else Total(id, w', k) == Total(id, w, k) || Total(id, w', k) == Val(0, 0)
  }

  lemma ReadKey(id: Render, w: World, e: Event, w': World, keys: set<UdpKey>, k: UdpKey) returns (inc: Val)
    requires Injective(id, keys) && w.kernel.Keys <= keys && e.Read? && Next(id, w, e, w') && k in keys
    ensures KeyRead(id, w, w', k, inc)
  {
    ReadingOf(id, w.kernel, e.cur, keys, k);
    TotalAfter(w.stats, e.cur, e.now, w'.stats, id(k));
    inc := Increment(w.stats.prev, id(k), Of(w.kernel, k));
  }

  lemma ReadInOrder(primed: bool, live: bool, cnt: nat, was: nat, total: nat, base: nat, at: nat, moved: nat,
                    inc: nat, total': nat, base': nat)
    requires InOrder(live, cnt, was, total, base, at, moved)
    requires live ==> inc == 0 || inc + was == cnt
    requires if !primed then base' == moved && total' == 0
             else base' == base && if live then total' == total + inc else total' == total || total' == 0
    ensures InOrder(live, cnt, cnt, total', base', moved, moved)
  {
  }

  /** The increment of one reading. */
  function Step(was: Val, cnt: Val): Val {
    if cnt.tx < was.tx || cnt.rx < was.rx then Val(0, 0) else Val(cnt.tx - was.tx, cnt.rx - was.rx)
  }

  lemma IncrementIsStep(prev: map<string, Val>, i: string, cnt: Val)
    ensures Increment(prev, i, cnt) == Step(Was(prev, i), cnt)
  {
  }

  lemma ReadBothInOrder(live: bool, cnt: Val, was: Val, total: Val, base: Val, at: Val, moved: Val, total': Val)
    requires BothInOrder(live, cnt, was, total, base, at, moved)
    requires if live then total' == Plus(total, Step(was, cnt)) else total' == total || total' == Val(0, 0)
    ensures BothInOrder(live, cnt, cnt, total', base, moved, moved)
  {
    var inc := Step(was, cnt);
    ReadInOrder(true, live, cnt.tx, was.tx, total.tx, base.tx, at.tx, moved.tx, inc.tx, total'.tx, base.tx);
    ReadInOrder(true, live, cnt.rx, was.rx, total.rx, base.rx, at.rx, moved.rx, inc.rx, total'.rx, base.rx);
  }

  lemma PrimingInOrder(live: bool, cnt: Val, moved: Val)
    ensures BothInOrder(live, cnt, cnt, Val(0, 0), moved, moved, moved)
  {
  }

  lemma ReadKeepsSafe(id: Render, w: World, w': World, k: UdpKey, inc: Val)
    requires KeyRead(id, w, w', k, inc) && SafeKey(id, w, k)
    requires !w.stats.primed ==> Total(id, w, k) == Val(0, 0)
    ensures SafeKey(id, w', k)
  {
    IncrementIsStep(w.stats.prev, id(k), Of(w.kernel, k));
    if w.stats.primed {
      ReadBothInOrder(k in w.kernel, Of(w.kernel, k), Was(w.stats.prev, id(k)), Total(id, w, k),
                      Of(w.base, k), Of(w.at, k), Of(w.moved, k), Total(id, w', k));
    } else {
      PrimingInOrder(k in w.kernel, Of(w.kernel, k), Of(w.moved, k));
    }
  }

  lemma AddInOrder(live: bool, cnt: nat, was: nat, total: nat, base: nat, at: nat, moved: nat, d: nat, cnt': nat)
    requires InOrder(live, cnt, was, total, base, at, moved)
    requires cnt' <= cnt + d && (!live ==> cnt == 0)
    ensures InOrder(true, cnt', was, total, base, at, moved + d)
    ensures InOrder(live, cnt, was, total, base, at, moved + d)
  {
  }

  /** What counting means for one socket, without the rest of the world. */
  predicate KeyAdded(id: Render, w: World, w': World, k: UdpKey, d: Val, counted: bool) {
    && Was(w'.stats.prev, id(k)) == Was(w.stats.prev, id(k)) && Total(id, w', k) == Total(id, w, k)
    && Of(w'.base, k) == Of(w.base, k) && Of(w'.at, k) == Of(w.at, k)
    && Of(w'.moved, k) == Plus(Of(w.moved, k), d)
    && (k in w'.kernel <==> k in w.kernel || counted)
    && Of(w'.kernel, k) == if counted then Counted(Of(w.kernel, k), d.tx, d.rx) else Of(w.kernel, k)
  }

  /** Counting for one socket leaves the others alone. */
  lemma AddLeavesOthers(id: Render, w: World, e: Event, w': World, k: UdpKey)
    requires e.Add? && Next(id, w, e, w') && e.k != k && SafeKey(id, w, k)
    ensures SafeKey(id, w', k)
  {
    assert w'.stats == w.stats && w'.base == w.base && w'.at == w.at;
    assert (k in w'.kernel <==> k in w.kernel) && Of(w'.kernel, k) == Of(w.kernel, k);
    assert Of(w'.moved, k) == Of(w.moved, k);
  }

  lemma AddSame(id: Render, w: World, e: Event, w': World)
    requires e.Add? && Next(id, w, e, w')
    ensures KeyAdded(id, w, w', e.k, Val(e.tx, e.rx), e.counted)
  {
    assert w'.stats == w.stats && w'.base == w.base && w'.at == w.at;
    assert Of(w'.moved, e.k) == Plus(Of(w.moved, e.k), Val(e.tx, e.rx));
  }

  lemma AddBothInOrder(live: bool, cnt: Val, was: Val, total: Val, base: Val, at: Val, moved: Val, d: Val, live': bool,
                       cnt': Val)
    requires BothInOrder(live, cnt, was, total, base, at, moved) && (!live ==> cnt == Val(0, 0))
    requires (live' == live && cnt' == cnt) || (live' && cnt' == Counted(cnt, d.tx, d.rx))
    ensures BothInOrder(live', cnt', was, total, base, at, Plus(moved, d))
  {
    AddInOrder(live, cnt.tx, was.tx, total.tx, base.tx, at.tx, moved.tx, d.tx, cnt'.tx);
    AddInOrder(live, cnt.rx, was.rx, total.rx, base.rx, at.rx, moved.rx, d.rx, cnt'.rx);
  }

  lemma AddKeepsSafe(id: Render, w: World, w': World, k: UdpKey, d: Val, counted: bool)
    requires KeyAdded(id, w, w', k, d, counted) && SafeKey(id, w, k)
    ensures SafeKey(id, w', k)
  {
    AddBothInOrder(k in w.kernel, Of(w.kernel, k), Was(w.stats.prev, id(k)), Total(id, w, k),
                   Of(w.base, k), Of(w.at, k), Of(w.moved, k), d, k in w'.kernel, Of(w'.kernel, k));
  }

  lemma StepKeepsSafe(id: Render, w: World, e: Event, w': World, keys: set<UdpKey>)
    requires Injective(id, keys) && Safe(id, w, keys) && Next(id, w, e, w')
    requires e.Add? ==> e.k in keys
    ensures Safe(id, w', keys)
  {
    forall k | k in keys
      ensures SafeKey(id, w', k)
    {
      assert SafeKey(id, w, k);
      match e {
        case Read(_, _) =>
          var inc := ReadKey(id, w, e, w', keys, k);
          ReadKeepsSafe(id, w, w', k, inc);
        case Add(_, _, _, _) =>
          if e.k == k {
            AddSame(id, w, e, w');
            AddKeepsSafe(id, w, w', k, Val(e.tx, e.rx), e.counted);
          } else {
            AddLeavesOthers(id, w, e, w', k);
          }
        case _ =>
      }
    }
  }

  lemma {:induction false} AlwaysSafe(id: Render, worlds: seq<World>, events: seq<Event>, n: nat, keys: set<UdpKey>)
    requires IsRun(id, worlds, events) && n < |worlds| && Injective(id, keys)
    requires forall i :: 0 <= i < |events| && events[i].Add? ==> events[i].k in keys
    ensures Safe(id, worlds[n], keys)
  {
    if n > 0 {
      AlwaysSafe(id, worlds, events, n - 1, keys);
      assert StepAt(id, worlds, events, n - 1);
      StepKeepsSafe(id, worlds[n - 1], events[n - 1], worlds[n], keys);
    }
  }

  /** Whatever the kernel evicts or fails to count, and whenever it is read, no
      socket's total exceeds what truly moved since priming. */
  lemma NeverOverCounts(id: Render, worlds: seq<World>, events: seq<Event>, n: nat, keys: set<UdpKey>, k: UdpKey)
    requires IsRun(id, worlds, events) && n < |worlds| && Injective(id, keys) && k in keys
    requires forall i :: 0 <= i < |events| && events[i].Add? ==> events[i].k in keys
    ensures Leq(Plus(Total(id, worlds[n], k), Of(worlds[n].base, k)), Of(worlds[n].moved, k))
  {
    AlwaysSafe(id, worlds, events, n, keys);
    assert SafeKey(id, worlds[n], k);
  }

  // ---- and exactly, when nothing is lost ----

  predicate Lossless(e: Event) {
    !e.Evict? && (e.Add? ==> e.counted)
  }

  /** One direction: the total is what was moved between priming and the last
      reading. */
  predicate Tallies(total: nat, base: nat, at: nat, moved: nat) {
    base <= at <= moved && total + base == at
  }

  predicate SeesAll(id: Render, w: World, k: UdpKey) {
    && (k in w.kernel <==> k in w.moved)
    && (k in w.moved ==> w.kernel[k] == w.moved[k])
    && (k in w.at ==> k in w.moved)
    && (id(k) in w.stats.prev <==> k in w.at)
    && (k in w.at ==> w.stats.prev[id(k)] == w.at[k])
  }

  predicate BothTally(total: Val, base: Val, at: Val, moved: Val) {
    Tallies(total.tx, base.tx, at.tx, moved.tx) && Tallies(total.rx, base.rx, at.rx, moved.rx)
  }

  predicate ExactKey(id: Render, w: World, k: UdpKey) {
    SeesAll(id, w, k) && BothTally(Total(id, w, k), Of(w.base, k), Of(w.at, k), Of(w.moved, k))
  }

  ghost predicate Exact(id: Render, w: World, keys: set<UdpKey>) {
    && w.kernel.Keys <= keys
    && (!w.stats.primed ==> w.stats.prev == map[] && w.stats.cum == map[] && w.at == map[] && w.base == map[])
    && forall k :: k in keys ==> ExactKey(id, w, k)
  }

  lemma ReadBothTally(live: bool, total: Val, base: Val, at: Val, moved: Val, total': Val)
    requires BothTally(total, base, at, moved) && (!live ==> moved == Val(0, 0))
    requires if live then total' == Plus(total, Step(at, moved)) else total' == total || total' == Val(0, 0)
    ensures BothTally(total', base, moved, moved)
  {
  }

  /** A reading sees every socket. */
  lemma ReadSeesAll(id: Render, w: World, w': World, k: UdpKey, inc: Val)
    requires KeyRead(id, w, w', k, inc) && SeesAll(id, w, k)
    ensures SeesAll(id, w', k) && Was(w.stats.prev, id(k)) == Of(w.at, k) && Of(w.kernel, k) == Of(w.moved, k)
  {
  }

  lemma ReadKeepsExact(id: Render, w: World, w': World, k: UdpKey, inc: Val)
    requires KeyRead(id, w, w', k, inc) && ExactKey(id, w, k)
    requires !w.stats.primed ==> Total(id, w, k) == Val(0, 0)
    ensures ExactKey(id, w', k)
  {
    ReadSeesAll(id, w, w', k, inc);
    IncrementIsStep(w.stats.prev, id(k), Of(w.kernel, k));
    if w.stats.primed {
      ReadBothTally(k in w.kernel, Total(id, w, k), Of(w.base, k), Of(w.at, k), Of(w.moved, k), Total(id, w', k));
    }
  }

  lemma CountedIsPlus(v: Val, tx: nat, rx: nat)
    requires IsWord(Plus(v, Val(tx, rx)))
    ensures Counted(v, tx, rx) == Plus(v, Val(tx, rx))
  {
  }

  lemma AddBothTally(total: Val, base: Val, at: Val, moved: Val, d: Val)
    requires BothTally(total, base, at, moved)
    ensures BothTally(total, base, at, Plus(moved, d))
  {
  }

  lemma AddSeesAll(id: Render, w: World, e: Event, w': World)
    requires e.Add? && e.counted && Next(id, w, e, w') && NoWrap(w') && SeesAll(id, w, e.k)
    ensures SeesAll(id, w', e.k)
  {
    assert IsWord(w'.moved[e.k]) && w'.stats == w.stats && w'.at == w.at;
    CountedIsPlus(Of(w.moved, e.k), e.tx, e.rx);
  }

  lemma AddKeepsExact(id: Render, w: World, e: Event, w': World, k: UdpKey)
    requires e.Add? && e.counted && Next(id, w, e, w') && NoWrap(w') && ExactKey(id, w, k)
    ensures ExactKey(id, w', k)
  {
    assert w'.stats == w.stats && w'.base == w.base && w'.at == w.at;
    if e.k == k {
      AddSeesAll(id, w, e, w');
      AddBothTally(Total(id, w, k), Of(w.base, k), Of(w.at, k), Of(w.moved, k), Val(e.tx, e.rx));
    } else {
      assert (k in w'.kernel <==> k in w.kernel) && (k in w'.moved <==> k in w.moved);
      assert Of(w'.moved, k) == Of(w.moved, k) && Of(w'.kernel, k) == Of(w.kernel, k);
    }
  }

  lemma {:induction false} AlwaysExact(id: Render, worlds: seq<World>, events: seq<Event>, n: nat, keys: set<UdpKey>)
    requires IsRun(id, worlds, events) && n < |worlds| && Injective(id, keys)
    requires forall i :: 0 <= i < |events| ==> Lossless(events[i]) && (events[i].Add? ==> events[i].k in keys)
    requires forall i :: 0 <= i <= n ==> NoWrap(worlds[i])
    ensures Exact(id, worlds[n], keys)
  {
    if n > 0 {
      AlwaysExact(id, worlds, events, n - 1, keys);
      assert StepAt(id, worlds, events, n - 1);
      assert Lossless(events[n - 1]) && NoWrap(worlds[n]);
      StepKeepsExact(id, worlds[n - 1], events[n - 1], worlds[n], keys);
    }
  }

  lemma StepKeepsExact(id: Render, w: World, e: Event, w': World, keys: set<UdpKey>)
    requires Injective(id, keys) && Exact(id, w, keys) && Next(id, w, e, w') && Lossless(e) && NoWrap(w')
    requires e.Add? ==> e.k in keys
    ensures Exact(id, w', keys)
  {
    forall k | k in keys
      ensures ExactKey(id, w', k)
    {
      assert ExactKey(id, w, k);
      match e {
        case Read(_, _) =>
          var inc := ReadKey(id, w, e, w', keys, k);
          ReadKeepsExact(id, w, w', k, inc);
        case Add(_, _, _, _) => AddKeepsExact(id, w, e, w', k);
        case _ =>
      }
    }
  }

  predicate NoWrap(w: World) {
    forall k :: k in w.moved ==> IsWord(w.moved[k])
  }

  lemma ExactTotal(id: Render, w: World, k: UdpKey)
    requires ExactKey(id, w, k)
    ensures Plus(Total(id, w, k), Of(w.base, k)) == Of(w.at, k)
  {
    SumsUp(Total(id, w, k), Of(w.base, k), Of(w.at, k), Of(w.moved, k));
  }

  lemma SumsUp(total: Val, base: Val, at: Val, moved: Val)
    requires BothTally(total, base, at, moved)
    ensures Plus(total, base) == at
  {
  }

  lemma ReadingIsCurrent(id: Render, worlds: seq<World>, events: seq<Event>, n: nat)
    requires IsRun(id, worlds, events) && n < |events| && events[n].Read?
    ensures worlds[n + 1].at == worlds[n + 1].moved
  {
    assert StepAt(id, worlds, events, n);
  }

  /** With nothing evicted, uncounted or wrapped, every reading leaves each
      total equal to what moved between priming and that reading. */
  lemma ExactWithoutEviction(id: Render, worlds: seq<World>, events: seq<Event>, n: nat, keys: set<UdpKey>, k: UdpKey)
    requires IsRun(id, worlds, events) && n < |events| && events[n].Read? && Injective(id, keys) && k in keys
    requires forall i :: 0 <= i < |events| ==> Lossless(events[i]) && (events[i].Add? ==> events[i].k in keys)
    requires forall i :: 0 <= i <= n + 1 ==> NoWrap(worlds[i])
    ensures Plus(Total(id, worlds[n + 1], k), Of(worlds[n + 1].base, k)) == Of(worlds[n + 1].moved, k)
  {
    AlwaysExact(id, worlds, events, n + 1, keys);
    ReadingIsCurrent(id, worlds, events, n);
    ExactTotal(id, worlds[n + 1], k);
  }
}
