/** The cache of address owners: search by prefix, and the trip to disk and
    back (owner.go). Times here are nanoseconds of the Unix clock. */
module OwnerCache {
  import opened Common
  import opened Net

  /** `name` is empty for a negative result. */
  datatype Entry = Entry(name: string, exp: Time)

  /** The on-disk shape: expiry in whole seconds. */
  datatype DiskEntry = DiskEntry(name: string, exp: int)

  type Cache = map<Prefix, Entry>

  /** How prefixes are written and read. */
  datatype Notation = Notation(show: Prefix -> string, parse: string -> Option<Prefix>)

  predicate Live(cache: Cache, p: Prefix, a: Addr, now: Time) {
    p.Contains(a) && p in cache && now <= cache[p].exp
  }

  /** A known owner beats a negative result; among equals the more specific
      prefix wins. */
  predicate Beats(cache: Cache, p: Prefix, q: Prefix)
    requires p in cache && q in cache
  {
    || (cache[p].name != "" && cache[q].name == "")
    || ((cache[p].name != "" <==> cache[q].name != "") && p.len > q.len)
  }

  function FindIn(order: seq<Prefix>, cache: Cache, a: Addr, now: Time): (best: Option<Prefix>)
    ensures best.Some? ==> best.value in order && Live(cache, best.value, a, now)
  {
    if order == [] then None
    else
      var best, p := FindIn(order[..|order| - 1], cache, a, now), order[|order| - 1];
      if Live(cache, p, a, now) && (best.None? || Beats(cache, p, best.value)) then Some(p) else best
  }

  /** Entry `i` of the order is live, and nothing live beats it; of those that
      tie with it, it is the first. */
  ghost predicate IsBest(order: seq<Prefix>, cache: Cache, a: Addr, now: Time, i: nat) {
    && i < |order| && Live(cache, order[i], a, now)
    && forall j :: 0 <= j < |order| && Live(cache, order[j], a, now) ==>
      !Beats(cache, order[j], order[i]) && (j < i ==> Beats(cache, order[i], order[j]))
  }

  /** The search finds the best entry, and misses only when there is none. */
  lemma {:induction false} FindsBest(order: seq<Prefix>, cache: Cache, a: Addr, now: Time)
    ensures match FindIn(order, cache, a, now)
            case None => forall i :: 0 <= i < |order| ==> !Live(cache, order[i], a, now)
            case Some(p) => exists i: nat :: IsBest(order, cache, a, now, i) && order[i] == p
  {
    if order != [] {
      var front, p := order[..|order| - 1], order[|order| - 1];
      FindsBest(front, cache, a, now);
      assert forall j :: 0 <= j < |front| ==> order[j] == front[j];
      var best := FindIn(front, cache, a, now);
      if Live(cache, p, a, now) && (best.None? || Beats(cache, p, best.value)) {
        assert IsBest(order, cache, a, now, |front|);
      } else if best.Some? {
        var i: nat :| IsBest(front, cache, a, now, i) && front[i] == best.value;
        assert IsBest(order, cache, a, now, i);
      }
    }
  }

  /** The entry answers for the address: it covers it bit by bit, and has not
      expired. */
  ghost predicate Answers(cache: Cache, p: Prefix, a: Addr, now: Time)
    requires a.Valid()
  {
    && p in cache && now <= cache[p].exp
    && p.addr.v6 == a.v6 && |p.addr.bits| == |a.bits| && p.len <= |a.bits|
    && forall k :: 0 <= k < p.len ==> p.addr.bits[k] == a.bits[k]
  }

  lemma AnswersExactly(cache: Cache, p: Prefix, a: Addr, now: Time)
    requires a.Valid()
    ensures Answers(cache, p, a, now) <==> Live(cache, p, a, now)
  {
    if Live(cache, p, a, now) {
      forall k | 0 <= k < p.len
        ensures p.addr.bits[k] == a.bits[k]
      {
        assert p.addr.bits[..p.len][k] == a.bits[..p.len][k];
      }
    }
  }

  /** What is found answers for the address; it has a name if any entry that
      answers has one; and none with a name, or none at all where it has none,
      is longer. Nothing is found iff none answers. */
  lemma FoundIsClosest(order: seq<Prefix>, cache: Cache, a: Addr, now: Time)
    requires a.Valid()
    ensures match FindIn(order, cache, a, now)
            case None => forall i :: 0 <= i < |order| ==> !Answers(cache, order[i], a, now)
            case Some(p) =>
              && p in order && Answers(cache, p, a, now)
              && forall i :: 0 <= i < |order| && Answers(cache, order[i], a, now) ==>
                && (cache[p].name == "" ==> cache[order[i]].name == "")
                && ((cache[order[i]].name == "" <==> cache[p].name == "") ==> order[i].len <= p.len)
  {
    FindsBest(order, cache, a, now);
    forall i | 0 <= i < |order|
      ensures Answers(cache, order[i], a, now) <==> Live(cache, order[i], a, now)
    {
      AnswersExactly(cache, order[i], a, now);
    }
  }

  /** No network is cached under two spellings. */
  ghost predicate NoTwins(cache: Cache) {
    forall p, q :: p in cache && q in cache && Twins(p, q) ==> p == q
  }

  lemma MaskedHasNoTwins(cache: Cache)
    requires forall p :: p in cache ==> p.IsMasked()
    ensures NoTwins(cache)
  {
    forall p, q | p in cache && q in cache && Twins(p, q)
      ensures p == q
    {
      MaskedTwinsAreOne(p, q);
    }
  }

  ghost predicate SameElements<T(!new)>(s: seq<T>, t: seq<T>) {
    forall x :: x in s <==> x in t
  }

  /** Without twins the answer does not depend on the order of the entries. */
  lemma OrderIsIrrelevant(order: seq<Prefix>, other: seq<Prefix>, cache: Cache, a: Addr, now: Time)
    requires NoTwins(cache) && SameElements(order, other)
    ensures FindIn(order, cache, a, now) == FindIn(other, cache, a, now)
  {
    FindsBest(order, cache, a, now);
    FindsBest(other, cache, a, now);
    var x, y := FindIn(order, cache, a, now), FindIn(other, cache, a, now);
    if x.Some? {
      assert x.value in other;
      var j :| 0 <= j < |other| && other[j] == x.value;
      assert Live(cache, other[j], a, now);
      assert y.value in order;
      var i :| 0 <= i < |order| && order[i] == y.value;
      assert Live(cache, order[i], a, now);
      assert x.value.len == y.value.len;
      SameLengthTwins(x.value, y.value, a);
    }
  }

  /** An order of exactly the cached entries. */
  ghost predicate Orders(order: seq<Prefix>, cache: Cache) {
    forall p :: p in order <==> p in cache
  }

  /** Two live entries that nothing beats, neither beating the other. */
  ghost predicate Tied(cache: Cache, a: Addr, now: Time, p: Prefix, q: Prefix) {
    && p != q && Live(cache, p, a, now) && Live(cache, q, a, now)
    && !Beats(cache, q, p) && !Beats(cache, p, q)
    && forall r :: Live(cache, r, a, now) ==> !Beats(cache, r, p)
  }

  ghost predicate OrderFree(cache: Cache, a: Addr, now: Time) {
    forall order, other :: Orders(order, cache) && Orders(other, cache) ==>
      FindIn(order, cache, a, now) == FindIn(other, cache, a, now)
  }

  /** All orders give one answer exactly when there is no such tie. */
  lemma OrderFreeExactly(cache: Cache, a: Addr, now: Time)
    ensures OrderFree(cache, a, now) <==> forall p, q :: !Tied(cache, a, now, p, q)
  {
    if p, q :| Tied(cache, a, now, p, q) {
      var rest := SomeOrder(cache.Keys);
      FirstWins([p] + rest, cache, a, now, p);
      FirstWins([q] + rest, cache, a, now, q);
      assert Orders([p] + rest, cache) && Orders([q] + rest, cache);
    } else {
      forall order, other | Orders(order, cache) && Orders(other, cache)
        ensures FindIn(order, cache, a, now) == FindIn(other, cache, a, now)
      {
        AnswersTie(order, other, cache, a, now);
      }
    }
  }

  lemma SomeOrder(s: set<Prefix>) returns (order: seq<Prefix>)
    ensures forall p :: p in order <==> p in s
  {
    if s == {} {
      order := [];
    } else {
      var p :| p in s;
      var rest := SomeOrder(s - {p});
      order := [p] + rest;
    }
  }

  lemma FirstWins(order: seq<Prefix>, cache: Cache, a: Addr, now: Time, p: Prefix)
    requires order != [] && order[0] == p && Live(cache, p, a, now)
    requires forall r :: Live(cache, r, a, now) ==> !Beats(cache, r, p)
    ensures FindIn(order, cache, a, now) == Some(p)
  {
    FindsBest(order, cache, a, now);
    assert Live(cache, order[0], a, now);
  }

  /** Different answers tie. */
  lemma AnswersTie(order: seq<Prefix>, other: seq<Prefix>, cache: Cache, a: Addr, now: Time)
    requires Orders(order, cache) && Orders(other, cache)
    ensures var x, y := FindIn(order, cache, a, now), FindIn(other, cache, a, now);
      x == y || (x.Some? && y.Some? && Tied(cache, a, now, x.value, y.value))
  {
    Unbeaten(order, cache, a, now);
    Unbeaten(other, cache, a, now);
  }

  lemma Unbeaten(order: seq<Prefix>, cache: Cache, a: Addr, now: Time)
    requires Orders(order, cache)
    ensures match FindIn(order, cache, a, now)
            case None => forall r :: !Live(cache, r, a, now)
            case Some(p) => Live(cache, p, a, now) && forall r :: Live(cache, r, a, now) ==> !Beats(cache, r, p)
  {
    FindsBest(order, cache, a, now);
    forall r | Live(cache, r, a, now)
      ensures exists i :: 0 <= i < |order| && order[i] == r
    {
      assert r in order;
    }
  }

  /** Two spellings of one network, neither failed nor expired, tie wherever
      nothing longer or better known is cached. */
  lemma TwinsMakeOrderMatter(a: Addr, p: Prefix, q: Prefix, now: Time)
    requires Twins(p, q) && p != q && p.Contains(a)
    ensures var cache := map[p := Entry("one", now), q := Entry("two", now)]; !OrderFree(cache, a, now)
  {
    var cache: Cache := map[p := Entry("one", now), q := Entry("two", now)];
    assert Tied(cache, a, now, p, q);
    OrderFreeExactly(cache, a, now);
  }

  // ---- recording ----

  function PutOrder(order: seq<Prefix>, cache: Cache, p: Prefix): seq<Prefix> {
    if p in cache then order else order + [p]
  }

  /** A failed probe of another prefix never hides a known name. */
  lemma FailureHidesNoName(order: seq<Prefix>, cache: Cache, a: Addr, now: Time, q: Prefix, exp: Time)
    requires FindIn(order, cache, a, now).Some?
    requires var p := FindIn(order, cache, a, now).value; cache[p].name != "" && p != q
    ensures FindIn(PutOrder(order, cache, q), cache[q := Entry("", exp)], a, now) == FindIn(order, cache, a, now)
    ensures var p := FindIn(order, cache, a, now).value; cache[q := Entry("", exp)][p] == cache[p]
  {
    NegativeChangesNothing(order, cache, a, now, q, exp);
    if q !in cache {
      assert (order + [q])[..|order|] == order;
    }
  }

  lemma {:induction false} NegativeChangesNothing(order: seq<Prefix>, cache: Cache, a: Addr, now: Time, q: Prefix,
                                                  exp: Time)
    ensures var before, after := FindIn(order, cache, a, now), FindIn(order, cache[q := Entry("", exp)], a, now);
      if before.None? || cache[before.value].name == "" then
        after.None? || after.value == q || cache[after.value].name == ""
      else if before.value == q then
        after.None? || after.value == q || cache[after.value].name == "" || after.value.len <= q.len
      else after == before
  {
    if order != [] {
      NegativeChangesNothing(order[..|order| - 1], cache, a, now, q, exp);
    }
  }

  // ---- to disk and back ----

  /** Reading undoes writing. */
  ghost predicate Inverse(n: Notation, cache: Cache) {
    forall p :: p in cache ==> n.parse(n.show(p)) == Some(p)
  }

  function Seconds(t: Time): int {
    t / 1_000_000_000
  }

  function Nanos(seconds: int): Time {
    seconds * 1_000_000_000
  }

  /** An entry as the disk keeps it: its expiry cut to whole seconds. */
  function Floored(e: Entry): Entry {
    Entry(e.name, Nanos(Seconds(e.exp)))
  }

  /** The file holds exactly the cached entries. */
  ghost predicate Written(n: Notation, cache: Cache, file: map<string, DiskEntry>) {
    && (forall p ::
        p in cache ==> n.show(p) in file && file[n.show(p)] == DiskEntry(cache[p].name, Seconds(cache[p].exp)))
    && (forall k :: k in file ==> exists p :: p in cache && n.show(p) == k)
  }

  /** An entry of the file that is still good when it is read. */
  predicate Good(n: Notation, file: map<string, DiskEntry>, k: string, now: Time) {
    k in file && n.parse(k).Some? && file[k].exp != 0 && now <= file[k].exp * SECOND
  }

  predicate ReadFrom(n: Notation, file: map<string, DiskEntry>, k: string, p: Prefix, e: Entry) {
    k in file && n.parse(k) == Some(p) && e == Entry(file[k].name, file[k].exp * SECOND)
  }

  ghost predicate OnFile(n: Notation, file: map<string, DiskEntry>, now: Time, p: Prefix, e: Entry) {
    exists k :: Good(n, file, k, now) && ReadFrom(n, file, k, p, e)
  }

  /** The cache holds exactly the good entries of the file. */
  ghost predicate ReadBack(n: Notation, file: map<string, DiskEntry>, now: Time, cache: Cache) {
    && (forall k :: Good(n, file, k, now) ==> n.parse(k).value in cache)
    && (forall p :: p in cache ==> OnFile(n, file, now, p, cache[p]))
  }

  /** What becomes of one prefix on the trip. */
  lemma EntrySurvives(n: Notation, cache: Cache, file: map<string, DiskEntry>, cache': Cache, loaded: Time, p: Prefix)
    requires Inverse(n, cache) && Written(n, cache, file) && ReadBack(n, file, loaded, cache') && loaded > 0
    ensures p in cache' <==> p in cache && loaded <= Floored(cache[p]).exp
    ensures p in cache' ==> cache'[p] == Floored(cache[p])
  {
    if p in cache' {
      ReadIsWritten(n, cache, file, loaded, p, cache'[p]);
    }
    if p in cache && loaded <= Floored(cache[p]).exp {
      assert n.parse(n.show(p)) == Some(p);
      assert Good(n, file, n.show(p), loaded);
    }
  }

  lemma ReadIsWritten(n: Notation, cache: Cache, file: map<string, DiskEntry>, loaded: Time, p: Prefix, e: Entry)
    requires Inverse(n, cache) && Written(n, cache, file) && OnFile(n, file, loaded, p, e)
    ensures p in cache && e == Floored(cache[p]) && loaded <= e.exp
  {
    var k :| Good(n, file, k, loaded) && ReadFrom(n, file, k, p, e);
    var q :| q in cache && n.show(q) == k;
    assert p == q;
  }

  /** An entry keeps its name on disk, and loses less than a second. */
  lemma FlooredWithin(e: Entry)
    ensures Floored(e).name == e.name
    ensures Floored(e).exp <= e.exp < Floored(e).exp + SECOND
    ensures Floored(e).exp % SECOND == 0
  {
  }

  /** The file holds each entry's name and the second in which it expires, and
      nothing else. */
  lemma WrittenSays(n: Notation, cache: Cache, file: map<string, DiskEntry>)
    requires Written(n, cache, file)
    ensures forall p :: p in cache ==> n.show(p) in file && file[n.show(p)].name == cache[p].name
    ensures forall p :: p in cache ==>
      file[n.show(p)].exp * SECOND <= cache[p].exp < (file[n.show(p)].exp + 1) * SECOND
    ensures forall k :: k in file ==> exists p :: p in cache && n.show(p) == k
  {
    forall p | p in cache
      ensures file[n.show(p)].exp * SECOND <= cache[p].exp < (file[n.show(p)].exp + 1) * SECOND
    {
      FlooredWithin(cache[p]);
    }
  }

  /** What a restart keeps: every entry with a second left to it, under its name
      and until the second it would have expired in; none that has expired, and
      none that was not there. */
  lemma RestartKeeps(n: Notation, cache: Cache, file: map<string, DiskEntry>, loaded: Time, cache': Cache, p: Prefix)
    requires Restarted(n, cache, file, loaded, cache')
    ensures p in cache && loaded + SECOND <= cache[p].exp ==> p in cache'
    ensures p in cache' ==>
      p in cache && cache'[p].name == cache[p].name && cache'[p].exp <= cache[p].exp < cache'[p].exp + SECOND
    ensures p in cache && loaded > cache[p].exp ==> p !in cache'
  {
    EntrySurvives(n, cache, file, cache', loaded, p);
    if p in cache {
      FlooredWithin(cache[p]);
    }
  }

  /** The old cache with its expiries cut to whole seconds. */
  ghost predicate IsFloored(cache: Cache, floored: Cache) {
    floored.Keys == cache.Keys && forall p :: p in cache ==> floored[p] == Floored(cache[p])
  }

  /** A cache written at some point and read back at another, later than the
      epoch. */
  ghost predicate Restarted(n: Notation, cache: Cache, file: map<string, DiskEntry>, loaded: Time, cache': Cache) {
    Inverse(n, cache) && Written(n, cache, file) && ReadBack(n, file, loaded, cache') && 0 < loaded
  }

  /** The file may be read in any order, and the old cache had some order. */
  ghost predicate AnswersAlike(floored: Cache, cache': Cache, a: Addr, now: Time) {
    forall order, order' :: Orders(order, floored) && Orders(order', cache') ==>
      FindIn(order', cache', a, now) == FindIn(order, floored, a, now)
  }

  /** After a restart a search answers as the old cache with its expiries cut to
      seconds, in all orders, exactly when no two of its live entries tie for
      that address then. */
  lemma RestartExactly(n: Notation, cache: Cache, file: map<string, DiskEntry>, cache': Cache, floored: Cache,
                       loaded: Time, a: Addr, now: Time)
    requires Restarted(n, cache, file, loaded, cache') && IsFloored(cache, floored) && loaded <= now
    ensures AnswersAlike(floored, cache', a, now) <==> forall p, q :: !Tied(floored, a, now, p, q)
  {
    LiveSurvive(n, cache, file, cache', floored, loaded, a, now);
    if p, q :| Tied(floored, a, now, p, q) {
      TieTells(floored, cache', a, now, p, q);
    } else {
      forall order, order' | Orders(order, floored) && Orders(order', cache')
        ensures FindIn(order', cache', a, now) == FindIn(order, floored, a, now)
      {
        AnswersTieAcross(order, floored, order', cache', a, now);
      }
    }
  }

  /** A tie before may be answered the other way after. */
  lemma TieTells(floored: Cache, cache': Cache, a: Addr, now: Time, p: Prefix, q: Prefix)
    requires forall p :: p in cache' ==> p in floored && cache'[p] == floored[p]
    requires forall p :: Live(cache', p, a, now) <==> Live(floored, p, a, now)
    requires Tied(floored, a, now, p, q)
    ensures !AnswersAlike(floored, cache', a, now)
  {
    var rest := SomeOrder(floored.Keys);
    var rest' := SomeOrder(cache'.Keys);
    var order, order' := [p] + rest, [q] + rest';
    assert order[0] == p && order'[0] == q;
    FirstWins(order, floored, a, now, p);
    forall r | Live(cache', r, a, now)
      ensures !Beats(cache', r, q)
    {
      assert !Beats(floored, r, p);
    }
    FirstWins(order', cache', a, now, q);
    assert Orders(order, floored) && Orders(order', cache');
  }

  /** Different answers before and after tie in the old cache. */
  lemma AnswersTieAcross(order: seq<Prefix>, floored: Cache, order': seq<Prefix>, cache': Cache, a: Addr, now: Time)
    requires Orders(order, floored) && Orders(order', cache')
    requires forall p :: p in cache' ==> p in floored && cache'[p] == floored[p]
    requires forall p :: Live(cache', p, a, now) <==> Live(floored, p, a, now)
    ensures var x, y := FindIn(order, floored, a, now), FindIn(order', cache', a, now);
      x == y || (x.Some? && y.Some? && Tied(floored, a, now, x.value, y.value))
  {
    Unbeaten(order, floored, a, now);
    Unbeaten(order', cache', a, now);
    var x, y := FindIn(order, floored, a, now), FindIn(order', cache', a, now);
    if x.Some? && y.Some? {
      assert !Beats(cache', x.value, y.value) && !Beats(floored, y.value, x.value);
    }
  }

  /** The same entries are live after the restart, and say the same. */
  lemma LiveSurvive(n: Notation, cache: Cache, file: map<string, DiskEntry>, cache': Cache, floored: Cache,
                    loaded: Time, a: Addr, now: Time)
    requires Restarted(n, cache, file, loaded, cache') && IsFloored(cache, floored) && loaded <= now
    ensures forall p :: p in cache' ==> p in floored && cache'[p] == floored[p]
    ensures forall p :: Live(cache', p, a, now) <==> Live(floored, p, a, now)
  {
    forall p
      ensures p in cache' ==> p in floored && cache'[p] == floored[p]
      ensures Live(cache', p, a, now) <==> Live(floored, p, a, now)
    {
      EntrySurvives(n, cache, file, cache', loaded, p);
    }
  }

  /** In particular where no network is cached under two spellings. */
  lemma RestartAnswersAlike(n: Notation, cache: Cache, file: map<string, DiskEntry>, cache': Cache, floored: Cache,
                            loaded: Time, a: Addr, now: Time)
    requires Restarted(n, cache, file, loaded, cache') && IsFloored(cache, floored) && loaded <= now
    requires NoTwins(cache)
    ensures AnswersAlike(floored, cache', a, now)
    ensures forall p :: p in cache' ==> p in floored && cache'[p] == floored[p]
  {
    LiveSurvive(n, cache, file, cache', floored, loaded, a, now);
    RestartExactly(n, cache, file, cache', floored, loaded, a, now);
    forall p, q
      ensures !Tied(floored, a, now, p, q)
    {
      if Tied(floored, a, now, p, q) {
        SameLengthTwins(p, q, a);
      }
    }
  }

  class OwnerTable {
    var cache: Cache
    var order: seq<Prefix>
    var dirty: bool
    var disk: map<string, DiskEntry>

    /** The order lists exactly the cached prefixes. */
    ghost predicate Valid()
      reads this
    {
      forall p :: p in order <==> p in cache
    }

    /** Starts from the file, its entries read in any order; expired, empty and
        unreadable ones are dropped. */
    constructor Load(n: Notation, file: map<string, DiskEntry>, now: Time)
      ensures Valid() && !dirty && disk == file
      ensures ReadBack(n, file, now, cache)
    {
      cache, order, dirty, disk := map[], [], false, file;
      new;
      var todo := file.Keys;
      while todo != {}
        invariant todo <= file.Keys && Valid() && !dirty && disk == file
        invariant forall k :: k !in todo && Good(n, file, k, now) ==> n.parse(k).value in cache
        invariant forall p :: p in cache ==> OnFile(n, file, now, p, cache[p])
        decreases todo
      {
        var k :| k in todo;
        todo := todo - {k};
        var p := n.parse(k);
        if p.None? {
          continue;
        }
        var exp := Nanos(file[k].exp);
        if file[k].exp == 0 || now > exp {
          continue;
        }
        assert Good(n, file, k, now) && ReadFrom(n, file, k, p.value, Entry(file[k].name, exp));
        cache := cache[p.value := Entry(file[k].name, exp)];
        order := order + [p.value];
      }
    }

    /** The entry that answers for an address. */
    method Find(a: Addr, now: Time) returns (best: Option<Prefix>)
      ensures best == FindIn(order, cache, a, now)
    {
      best := None;
      for i := 0 to |order|
        invariant best == FindIn(order[..i], cache, a, now)
      {
        assert order[..i + 1][..i] == order[..i];
        var p := order[i];
        if !p.Contains(a) {
          continue;
        }
        if p !in cache || now > cache[p].exp {
          continue;
        }
        if best.None? || (cache[p].name != "" && cache[best.value].name == "") ||
           ((cache[p].name != "") == (cache[best.value].name != "") && p.len > best.value.len) {
          best := Some(p);
        }
      }
      assert order[..|order|] == order;
    }

    /** Records an entry, keeping the order in step with the cache. */
    method Put(p: Prefix, name: string, ttl: int, now: Time)
      requires Valid()
      modifies this`cache, this`order, this`dirty
      ensures Valid() && dirty
      ensures order == PutOrder(old(order), old(cache), p)
      ensures cache == old(cache)[p := Entry(name, now + ttl)]
    {
      if p !in cache {
        order := order + [p];
      }
      cache := cache[p := Entry(name, now + ttl)];
      dirty := true;
    }

    /** Writes the cache to disk if it changed since last time. `lands` is
        whether the write and the rename succeed; if not the old file stays,
        and nothing is tried again before the next change. */
    method Flush(n: Notation, lands: bool)
      requires Inverse(n, cache)
      modifies this`dirty, this`disk
      ensures !dirty
      ensures if old(dirty) && lands then Written(n, cache, disk) else disk == old(disk)
    {
      if !dirty {
        return;
      }
      var file := Render(n);
      dirty := false;
      if lands {
        disk := file;
      }
    }

    method Render(n: Notation) returns (m: map<string, DiskEntry>)
      requires Inverse(n, cache)
      ensures Written(n, cache, m)
    {
      m := map[];
      var todo := cache.Keys;
      while todo != {}
        invariant todo <= cache.Keys
        invariant forall p :: p in cache && p !in todo ==>
          n.show(p) in m && m[n.show(p)] == DiskEntry(cache[p].name, Seconds(cache[p].exp))
        invariant forall k :: k in m ==> exists p :: p in cache && n.show(p) == k
        decreases todo
      {
        var p :| p in todo;
        todo := todo - {p};
        assert forall q :: q in cache && n.show(q) == n.show(p) ==> q == p by {
          assert n.parse(n.show(p)) == Some(p);
        }
        m := m[n.show(p) := DiskEntry(cache[p].name, Seconds(cache[p].exp))];
      }
    }
  }
}
