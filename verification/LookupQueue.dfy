/** The lookup queue of dns.go, shared in shape by owner.go: callers that
    enqueue under a mutex, a bounded channel, and workers that receive without
    it. Every atomic step is its own action, so runs are interleavings. */
module LookupQueue {
  import opened Common

  const DNS_TTL: int := 3600 * SECOND
  const DNS_NEG_TTL: int := 600 * SECOND

  /** Where a caller of Lookup is. */
  datatype Caller = Outside | Entered(ip: string) | Sent(ip: string) | Leaving

  /** Where a worker is: between the receive and the lock it holds no lock. */
  datatype Worker = Idle | Looking(ip: string) | Locked(ip: string) | Stored(ip: string) | Unlocking | Stopped

  /** Who holds the mutex. `Other` stands for code that takes it without
      touching the queue. */
  datatype Holder = Free | ByCaller(c: nat) | ByWorker(w: nat) | Other

  /** A cached answer; an empty host is a negative one. */
  datatype Answer = Answer(host: string, at: Time)

  datatype State = State(
    now: Time, cache: map<string, Answer>,
    channel: seq<string>, queued: set<string>,
    holder: Holder, callers: seq<Caller>, workers: seq<Worker>)

  datatype Action =
    | Wait(d: nat)
    | Enter(c: nat, ip: string)
    | Decline(c: nat)
    | Send(c: nat)
    | Mark(c: nat)
    | Leave(c: nat)
    | Receive(w: nat)
    | Lock(w: nat)
    | Store(w: nat, host: string)
    | Delete(w: nat)
    | Unlock(w: nat)
    | Stop(w: nat)
    | Take
    | Release

  predicate Fresh(s: State, ip: string) {
    ip in s.cache && s.now - s.cache[ip].at < if s.cache[ip].host == "" then DNS_NEG_TTL else DNS_TTL
  }

  predicate Can(capacity: nat, s: State, a: Action) {
    match a
    case Wait(_) => true
    case Enter(c, _) => c < |s.callers| && s.callers[c] == Outside && s.holder == Free
    case Decline(c) => c < |s.callers| && s.callers[c].Entered?
    case Send(c) =>
      && c < |s.callers| && s.callers[c].Entered?
      && !Fresh(s, s.callers[c].ip) && s.callers[c].ip !in s.queued && |s.channel| < capacity
    case Mark(c) => c < |s.callers| && s.callers[c].Sent?
    case Leave(c) => c < |s.callers| && s.callers[c] == Leaving
    case Receive(w) => w < |s.workers| && s.workers[w] == Idle && s.channel != []
    case Lock(w) => w < |s.workers| && s.workers[w].Looking? && s.holder == Free
    case Store(w, _) => w < |s.workers| && s.workers[w].Locked?
    case Delete(w) => w < |s.workers| && s.workers[w].Stored?
    case Unlock(w) => w < |s.workers| && s.workers[w] == Unlocking
    case Stop(w) => w < |s.workers| && s.workers[w] == Idle
    case Take => s.holder == Free
    case Release => s.holder == Other
  }

  function After(capacity: nat, s: State, a: Action): State
    requires Can(capacity, s, a)
  {
    match a
    case Wait(d) => s.(now := s.now + d)
    case Enter(c, ip) => s.(holder := ByCaller(c), callers := s.callers[c := Entered(ip)])
    case Decline(c) => s.(callers := s.callers[c := Leaving])
    case Send(c) => s.(channel := s.channel + [s.callers[c].ip], callers := s.callers[c := Sent(s.callers[c].ip)])
    case Mark(c) => s.(queued := s.queued + {s.callers[c].ip}, callers := s.callers[c := Leaving])
    case Leave(c) => s.(holder := Free, callers := s.callers[c := Outside])
    case Receive(w) => s.(channel := s.channel[1..], workers := s.workers[w := Looking(s.channel[0])])
    case Lock(w) => s.(holder := ByWorker(w), workers := s.workers[w := Locked(s.workers[w].ip)])
    case Store(w, host) =>
      s.(cache := s.cache[s.workers[w].ip := Answer(host, s.now)], workers := s.workers[w := Stored(s.workers[w].ip)])
    case Delete(w) => s.(queued := s.queued - {s.workers[w].ip}, workers := s.workers[w := Unlocking])
    case Unlock(w) => s.(holder := Free, workers := s.workers[w := Idle])
    case Stop(w) => s.(workers := s.workers[w := Stopped])
    case Take => s.(holder := Other)
    case Release => s.(holder := Free)
  }

  predicate Initial(s: State) {
    && s.cache == map[] && s.channel == [] && s.queued == {} && s.holder == Free
    && (forall c :: 0 <= c < |s.callers| ==> s.callers[c] == Outside)
    && (forall w :: 0 <= w < |s.workers| ==> s.workers[w] == Idle)
  }

  /** The address a worker has taken and not yet struck from the queued set. */
  predicate Holds(w: Worker, ip: string) {
    match w
    case Looking(x) => x == ip
    case Locked(x) => x == ip
    case Stored(x) => x == ip
    case _ => false
  }

  predicate Taken(workers: seq<Worker>, ip: string) {
    exists w :: 0 <= w < |workers| && Holds(workers[w], ip)
  }

  /** The address is in the channel or with a worker. */
  predicate Outstanding(s: State, ip: string) {
    ip in s.channel || Taken(s.workers, ip)
  }

  /** No address is outstanding twice. */
  ghost predicate Once(s: State) {
    && Distinct(s.channel)
    && (forall v, w, ip ::
        0 <= v < |s.workers| && 0 <= w < |s.workers| && v != w && Holds(s.workers[v], ip) ==> !Holds(s.workers[w], ip))
    && (forall w, ip :: 0 <= w < |s.workers| && Holds(s.workers[w], ip) ==> ip !in s.channel)
  }

  /** Whoever is inside the critical section holds the mutex. */
  ghost predicate Exclusive(s: State) {
    && (s.holder.ByCaller? ==> s.holder.c < |s.callers|)
    && (s.holder.ByWorker? ==> s.holder.w < |s.workers|)
    && (forall c :: 0 <= c < |s.callers| ==> (s.callers[c] != Outside <==> s.holder == ByCaller(c)))
    && (forall w :: 0 <= w < |s.workers| ==>
          (s.workers[w].Locked? || s.workers[w].Stored? || s.workers[w] == Unlocking <==> s.holder == ByWorker(w)))
  }

  /** The one address sent but not yet marked as queued, if its caller is
      between the two. */
  predicate Unmarked(s: State, ip: string) {
    exists c :: 0 <= c < |s.callers| && s.callers[c] == Sent(ip)
  }

  ghost predicate Invariant(capacity: nat, s: State) {
    && Exclusive(s)
    && Once(s)
    && |s.channel| <= capacity
    && (forall ip :: Outstanding(s, ip) <==> ip in s.queued || Unmarked(s, ip))
    && (forall ip :: Unmarked(s, ip) ==> ip !in s.queued)
  }

  lemma InitialHolds(capacity: nat, s: State)
    requires Initial(s)
    ensures Invariant(capacity, s)
  {
  }

  lemma StepKeepsExclusive(capacity: nat, s: State, a: Action)
    requires Exclusive(s) && Can(capacity, s, a)
    ensures Exclusive(After(capacity, s, a))
  {
  }

  lemma ReceiveKeepsOnce(capacity: nat, s: State, w: nat)
    requires Once(s) && Can(capacity, s, Receive(w))
    ensures Once(After(capacity, s, Receive(w)))
  {
    var s' := After(capacity, s, Receive(w));
    var ip := s.channel[0];
    assert ip in s.channel && ip !in s'.channel;
    assert forall x :: x in s'.channel ==> x in s.channel;
    assert forall v :: 0 <= v < |s.workers| ==> !Holds(s.workers[v], ip);
    assert forall v :: 0 <= v < |s.workers| && v != w ==> s'.workers[v] == s.workers[v];
    assert forall x :: Holds(s'.workers[w], x) <==> x == ip;
  }

  lemma StepKeepsOnce(capacity: nat, s: State, a: Action)
    requires Invariant(capacity, s) && Can(capacity, s, a)
    ensures Once(After(capacity, s, a))
  {
    var s' := After(capacity, s, a);
    match a {
      case Send(c) =>
        var ip := s.callers[c].ip;
        NotUnmarkedWhileEntered(s, c);
        assert !Outstanding(s, ip);
      case Receive(w) =>
        ReceiveKeepsOnce(capacity, s, w);
      case _ =>
        assert forall v, ip :: 0 <= v < |s.workers| && Holds(s'.workers[v], ip) ==> Holds(s.workers[v], ip);
    }
  }

  /** One caller inside means no other is between send and mark. */
  lemma NotUnmarkedWhileEntered(s: State, c: nat)
    requires Exclusive(s) && c < |s.callers| && s.callers[c] != Outside && !s.callers[c].Sent?
    ensures forall ip :: !Unmarked(s, ip)
  {
  }

  /** What one step does to the addresses outstanding. */
  lemma StepMovesOutstanding(capacity: nat, s: State, a: Action, ip: string)
    requires Invariant(capacity, s) && Can(capacity, s, a)
    ensures Outstanding(After(capacity, s, a), ip) <==>
      || (Outstanding(s, ip) && !(a.Delete? && s.workers[a.w] == Stored(ip)))
      || (a.Send? && s.callers[a.c].ip == ip)
  {
    var s' := After(capacity, s, a);
    match a {
      case Receive(w) =>
        assert s.channel == [s.channel[0]] + s'.channel;
        assert ip in s.channel <==> ip == s.channel[0] || ip in s'.channel;
        WorkersExcept(s, s', w, ip);
      case Delete(w) =>
        WorkersExcept(s, s', w, ip);
        assert forall v :: 0 <= v < |s.workers| && v != w && Holds(s.workers[w], ip) ==> !Holds(s.workers[v], ip);
      case Lock(w) => WorkersExcept(s, s', w, ip);
      case Store(w, _) => WorkersExcept(s, s', w, ip);
      case Unlock(w) => WorkersExcept(s, s', w, ip);
      case Stop(w) => WorkersExcept(s, s', w, ip);
      case _ =>
    }
  }

  lemma WorkersExcept(s: State, s': State, w: nat, ip: string)
    requires w < |s.workers| == |s'.workers| && s'.workers == s.workers[w := s'.workers[w]]
    ensures Taken(s'.workers, ip) <==>
      Holds(s'.workers[w], ip) || exists v :: 0 <= v < |s.workers| && v != w && Holds(s.workers[v], ip)
    ensures Taken(s.workers, ip) <==>
      Holds(s.workers[w], ip) || exists v :: 0 <= v < |s.workers| && v != w && Holds(s.workers[v], ip)
  {
    assert forall v :: 0 <= v < |s.workers| && v != w ==> s'.workers[v] == s.workers[v];
  }

  /** The send comes before the mark, but the lock is held across both; so the
      invariant survives every step of every interleaving. */
  lemma StepKeepsInvariant(capacity: nat, s: State, a: Action)
    requires Invariant(capacity, s) && Can(capacity, s, a)
    ensures Invariant(capacity, After(capacity, s, a))
  {
    var s' := After(capacity, s, a);
    StepKeepsExclusive(capacity, s, a);
    StepKeepsOnce(capacity, s, a);
    forall ip
      ensures Outstanding(s', ip) <==> ip in s'.queued || Unmarked(s', ip)
      ensures Unmarked(s', ip) ==> ip !in s'.queued
    {
      StepMovesOutstanding(capacity, s, a, ip);
      StepMovesMarks(capacity, s, a, ip);
    }
  }

  /** What one step does to the queued set and to the address not yet in it. */
  lemma StepMovesMarks(capacity: nat, s: State, a: Action, ip: string)
    requires Invariant(capacity, s) && Can(capacity, s, a)
    ensures var s' := After(capacity, s, a);
      && (ip in s'.queued <==>
          (ip in s.queued || (a.Mark? && s.callers[a.c] == Sent(ip))) && !(a.Delete? && s.workers[a.w] == Stored(ip)))
      && (Unmarked(s', ip) <==> if a.Send? then s.callers[a.c].ip == ip else Unmarked(s, ip) && !a.Mark?)
      && (a.Delete? ==> !Unmarked(s, ip))
      && (a.Send? ==> s.callers[a.c].ip !in s.queued)
  {
    var s' := After(capacity, s, a);
    match a {
      case Send(c) =>
        NotUnmarkedWhileEntered(s, c);
        assert s'.callers[c] == Sent(s.callers[c].ip);
        assert forall d :: 0 <= d < |s.callers| && d != c ==> s'.callers[d] == s.callers[d];
      case Mark(c) =>
        assert forall d :: 0 <= d < |s.callers| && d != c ==> s.callers[d] == Outside;
      case Enter(c, _) =>
        assert forall d :: 0 <= d < |s.callers| ==> s.callers[d] == Outside;
      case Decline(c) =>
        NotUnmarkedWhileEntered(s, c);
        NotUnmarkedWhileEntered(s', c);
      case Leave(c) =>
        NotUnmarkedWhileEntered(s, c);
        assert forall d :: 0 <= d < |s.callers| ==> s'.callers[d] == Outside;
      case Delete(w) =>
        assert forall d :: 0 <= d < |s.callers| ==> s.callers[d] == Outside;
      case _ =>
        assert s'.callers == s.callers && s'.queued == s.queued;
    }
  }

  // ---- whole runs ----

  ghost predicate IsRun(capacity: nat, states: seq<State>, actions: seq<Action>) {
    && |states| == |actions| + 1
    && Initial(states[0])
    && forall i :: 0 <= i < |actions| ==> StepAt(capacity, states, actions, i)
  }

  ghost predicate StepAt(capacity: nat, states: seq<State>, actions: seq<Action>, i: nat)
    requires i < |actions| < |states|
  {
    Can(capacity, states[i], actions[i]) && states[i + 1] == After(capacity, states[i], actions[i])
  }

  lemma {:induction false} Always(capacity: nat, states: seq<State>, actions: seq<Action>, n: nat)
    requires IsRun(capacity, states, actions) && n < |states|
    ensures Invariant(capacity, states[n])
  {
    if n == 0 {
      InitialHolds(capacity, states[0]);
    } else {
      Always(capacity, states, actions, n - 1);
      assert StepAt(capacity, states, actions, n - 1);
      StepKeepsInvariant(capacity, states[n - 1], actions[n - 1]);
    }
  }

  /** The time that was waited. */
  function Waited(actions: seq<Action>): nat {
    if actions == [] then 0
    else
      Waited(actions[..|actions| - 1]) + match actions[|actions| - 1] case Wait(d) => d case _ => 0
  }

  /** Nothing else takes any. */
  lemma {:induction false} OnlyWaitingTakesTime(capacity: nat, states: seq<State>, actions: seq<Action>, n: nat)
    requires IsRun(capacity, states, actions) && n < |states|
    ensures states[n].now == states[0].now + Waited(actions[..n])
  {
    if n > 0 {
      OnlyWaitingTakesTime(capacity, states, actions, n - 1);
      assert StepAt(capacity, states, actions, n - 1);
      assert actions[..n][..n - 1] == actions[..n - 1];
    }
  }

  /** Whenever the mutex is free the queued set is exactly what is in the
      channel or with a worker: nothing is lost and nothing is stuck in it. */
  lemma QueuedIsOutstanding(capacity: nat, states: seq<State>, actions: seq<Action>, n: nat)
    requires IsRun(capacity, states, actions) && n < |states| && states[n].holder == Free
    ensures forall ip :: ip in states[n].queued <==> Outstanding(states[n], ip)
  {
    Always(capacity, states, actions, n);
    assert forall ip :: !Unmarked(states[n], ip);
  }

  /** At every instant, locked or not, no address is with two workers, nor with
      a worker and in the channel, nor in the channel twice. */
  lemma NeverLookedUpTwiceAtOnce(capacity: nat, states: seq<State>, actions: seq<Action>, n: nat)
    requires IsRun(capacity, states, actions) && n < |states|
    ensures Once(states[n])
  {
    Always(capacity, states, actions, n);
  }

  /** The work outstanding is bounded by the channel and the workers. */
  lemma QueuedIsBounded(capacity: nat, states: seq<State>, actions: seq<Action>, n: nat)
    requires IsRun(capacity, states, actions) && n < |states|
    ensures |states[n].queued| <= capacity + |states[n].workers|
  {
    Always(capacity, states, actions, n);
    CountOutstanding(states[n].queued, states[n].channel, states[n].workers);
  }

  lemma {:induction false} CountOutstanding(ips: set<string>, channel: seq<string>, workers: seq<Worker>)
    requires forall ip :: ip in ips ==> ip in channel || Taken(workers, ip)
    ensures |ips| <= |channel| + |workers|
    decreases |channel| + |workers|
  {
    if workers != [] {
      var last := workers[|workers| - 1];
      var rest := ips - if last.Looking? || last.Locked? || last.Stored? then {last.ip} else {};
      forall ip | ip in rest
        ensures ip in channel || Taken(workers[..|workers| - 1], ip)
      {
        if ip !in channel {
          var w :| 0 <= w < |workers| && Holds(workers[w], ip);
          assert workers[..|workers| - 1][w] == workers[w];
        }
      }
      CountOutstanding(rest, channel, workers[..|workers| - 1]);
      assert last.Looking? || last.Locked? || last.Stored? ==>
        ips <= rest + {last.ip} && |rest + {last.ip}| <= |rest| + 1;
      SubsetCount(ips, rest + if last.Looking? || last.Locked? || last.Stored? then {last.ip} else {});
    } else if channel != [] {
      var rest := ips - {channel[0]};
      CountOutstanding(rest, channel[1..], workers);
      SubsetCount(ips, rest + {channel[0]});
    } else {
      SubsetCount(ips, {});
    }
  }

  lemma {:induction false} SubsetCount(a: set<string>, b: set<string>)
    requires a <= b
    ensures |a| <= |b|
  {
    if a != {} {
      var x :| x in a;
      SubsetCount(a - {x}, b - {x});
    }
  }

  // ---- what callers are told ----

  /** What Lookup returns: the cached host while it is fresh. */
  function Reply(s: State, ip: string): string {
    if Fresh(s, ip) then s.cache[ip].host else ""
  }

  /** Action `i` records an answer for the address. */
  predicate Answers(states: seq<State>, actions: seq<Action>, i: nat, ip: string)
    requires i < |actions| < |states|
  {
    actions[i].Store? && actions[i].w < |states[i].workers| && states[i].workers[actions[i].w] == Locked(ip)
  }

  /** Of the first `n` actions, `i` is the last that does. */
  ghost predicate LastAnswer(states: seq<State>, actions: seq<Action>, n: nat, ip: string, i: nat)
    requires n <= |actions| < |states|
  {
    i < n && Answers(states, actions, i, ip) && forall j :: i < j < n ==> !Answers(states, actions, j, ip)
  }

  /** The cache holds the last answer to each address ever answered, as it was
      found and when. */
  lemma {:induction false} CacheIsHistory(capacity: nat, states: seq<State>, actions: seq<Action>, n: nat, ip: string)
    requires IsRun(capacity, states, actions) && n <= |actions|
    ensures ip in states[n].cache <==> exists i: nat :: LastAnswer(states, actions, n, ip, i)
    ensures forall i: nat :: LastAnswer(states, actions, n, ip, i) ==>
      ip in states[n].cache && states[n].cache[ip] == Answer(actions[i].host, states[i].now)
  {
    if n > 0 {
      CacheIsHistory(capacity, states, actions, n - 1, ip);
      assert StepAt(capacity, states, actions, n - 1);
      if Answers(states, actions, n - 1, ip) {
        assert LastAnswer(states, actions, n, ip, n - 1);
      } else {
        NoNewAnswer(states, actions, n, ip);
        var m := n - 1;
        if ip in states[m].cache {
          var i: nat :| LastAnswer(states, actions, m, ip, i);
          assert LastAnswer(states, actions, n, ip, i);
        }
      }
    }
  }

  lemma NoNewAnswer(states: seq<State>, actions: seq<Action>, n: nat, ip: string)
    requires 0 < n <= |actions| < |states| && !Answers(states, actions, n - 1, ip)
    ensures forall i: nat :: LastAnswer(states, actions, n, ip, i) <==> LastAnswer(states, actions, n - 1, ip, i)
  {
  }

  /** How long an answer is given: an hour, ten minutes for a failure. */
  predicate StillGood(states: seq<State>, actions: seq<Action>, i: nat, now: Time)
    requires i < |actions| < |states| && actions[i].Store?
  {
    now - states[i].now < if actions[i].host == "" then 600 * SECOND else 3600 * SECOND
  }

  /** A caller is told the last answer there was, while it is good, and nothing
      otherwise. */
  lemma ReplyIsLastAnswer(capacity: nat, states: seq<State>, actions: seq<Action>, n: nat, ip: string)
    requires IsRun(capacity, states, actions) && n <= |actions|
    ensures (forall i: nat :: !LastAnswer(states, actions, n, ip, i)) ==> Reply(states[n], ip) == ""
    ensures forall i: nat :: LastAnswer(states, actions, n, ip, i) ==>
      Reply(states[n], ip) == if StillGood(states, actions, i, states[n].now) then actions[i].host else ""
  {
    CacheIsHistory(capacity, states, actions, n, ip);
  }

  /** A caller enqueues the address iff it has no good answer, is not queued or
      with a worker already, and there is room. */
  lemma SendExactly(capacity: nat, states: seq<State>, actions: seq<Action>, n: nat, c: nat, ip: string)
    requires IsRun(capacity, states, actions) && n <= |actions|
    requires c < |states[n].callers| && states[n].callers[c] == Entered(ip)
    ensures Can(capacity, states[n], Send(c)) <==>
      && (forall i: nat :: LastAnswer(states, actions, n, ip, i) ==> !StillGood(states, actions, i, states[n].now))
      && !Outstanding(states[n], ip) && |states[n].channel| < capacity
  {
    Always(capacity, states, actions, n);
    CacheIsHistory(capacity, states, actions, n, ip);
    NotUnmarkedWhileEntered(states[n], c);
    assert !Unmarked(states[n], ip);
    if Fresh(states[n], ip) {
      var i: nat :| LastAnswer(states, actions, n, ip, i);
      assert StillGood(states, actions, i, states[n].now);
    }
  }

  lemma {:induction false} AnswerStays(capacity: nat, states: seq<State>, actions: seq<Action>, i: nat, n: nat)
    requires IsRun(capacity, states, actions) && i < n < |states|
    requires actions[i].Store? && actions[i].w < |states[i].workers| && states[i].workers[actions[i].w].Locked?
    ensures states[i].now <= states[n].now
    ensures var ip := states[i].workers[actions[i].w].ip;
      ip in states[n].cache && states[n].cache[ip].at >= states[i].now
  {
    assert StepAt(capacity, states, actions, n - 1);
    if i < n - 1 {
      AnswerStays(capacity, states, actions, i, n - 1);
    }
  }

  /** Once answered, an address is not asked about again for ten minutes,
      however many callers keep wanting it. */
  lemma NotAskedAgain(capacity: nat, states: seq<State>, actions: seq<Action>, i: nat, j: nat)
    requires IsRun(capacity, states, actions) && i < j < |actions|
    requires actions[i].Store? && actions[i].w < |states[i].workers| && states[i].workers[actions[i].w].Locked?
    requires actions[j].Send? && actions[j].c < |states[j].callers| && states[j].callers[actions[j].c].Entered?
    requires states[j].callers[actions[j].c].ip == states[i].workers[actions[i].w].ip
    ensures states[j].now - states[i].now >= DNS_NEG_TTL
  {
    AnswerStays(capacity, states, actions, i, j);
    assert StepAt(capacity, states, actions, j);
  }
}
