/** Nothing stays queued for want of a step: from every reachable state an
    address can still be struck off, as long as one worker is left (dns.go). */
module LookupProgress {
  import opened LookupQueue

  /** How much of its round a worker has before it. */
  function Stage(w: Worker): nat {
    match w
    case Looking(_) => 5
    case Locked(_) => 4
    case Stored(_) => 3
    case Unlocking => 2
    case _ => 0
  }

  /** What a worker has before it, of all addresses or of this one. */
  function Share(w: Worker, ip: string, all: bool): nat {
    if all || Holds(w, ip) then Stage(w) else 0
  }

  function Work(workers: seq<Worker>, ip: string, all: bool): nat {
    if workers == [] then 0
    else Work(workers[..|workers| - 1], ip, all) + Share(workers[|workers| - 1], ip, all)
  }

  lemma {:induction false} WorkChanges(workers: seq<Worker>, w: nat, x: Worker, ip: string, all: bool)
    requires w < |workers|
    ensures Work(workers[w := x], ip, all) + Share(workers[w], ip, all) == Work(workers, ip, all) + Share(x, ip, all)
  {
    var n := |workers| - 1;
    if w < n {
      WorkChanges(workers[..n], w, x, ip, all);
      assert workers[w := x][..n] == workers[..n][w := x];
    } else {
      assert workers[w := x][..n] == workers[..n];
    }
  }

  lemma {:induction false} NoWork(workers: seq<Worker>, ip: string)
    requires !Taken(workers, ip)
    ensures Work(workers, ip, false) == 0
  {
    if workers != [] {
      assert !Holds(workers[|workers| - 1], ip);
      NoWork(workers[..|workers| - 1], ip);
    }
  }

  /** The place of an address in the channel, counted from one. */
  function Place(channel: seq<string>, ip: string): (n: nat)
    requires ip in channel
    ensures n >= 1
  {
    if channel[0] == ip then 1 else 1 + Place(channel[1..], ip)
  }

  lemma {:induction false} PlaceAppended(channel: seq<string>, ip: string, last: string)
    requires ip in channel
    ensures Place(channel + [last], ip) == Place(channel, ip)
  {
    if channel[0] != ip {
      assert (channel + [last])[1..] == channel[1..] + [last];
      PlaceAppended(channel[1..], ip, last);
    }
  }

  /** How far an address is from being struck off: the places before it and
      what the workers have under way; or what is left of its own round. */
  function Distance(s: State, ip: string): nat {
    if ip in s.channel then 6 * Place(s.channel, ip) + Work(s.workers, ip, true) else Work(s.workers, ip, false)
  }

  /** How far the mutex is from being free. */
  function Inside(s: State): nat {
    match s.holder
    case Free => 0
    case Other => 1
    case ByCaller(c) =>
      if c >= |s.callers| then 0
      else (match s.callers[c]
            case Entered(_) => 3
            case Sent(_) => 2
            case Leaving => 1
            case Outside => 0)
    case ByWorker(w) =>
      if w >= |s.workers| then 0
      else (match s.workers[w]
            case Locked(_) => 3
            case Stored(_) => 2
            case Unlocking => 1
            case _ => 0)
  }

  function Nearness(s: State, ip: string): nat {
    4 * Distance(s, ip) + Inside(s)
  }

  /** A step of somebody already under way, or of a worker: nobody new comes
      in, no time passes, no worker stops. */
  predicate UnderWay(a: Action) {
    !a.Wait? && !a.Enter? && !a.Take? && !a.Stop?
  }

  predicate Nearer(capacity: nat, s: State, a: Action, ip: string) {
    && Can(capacity, s, a) && UnderWay(a)
    && var s' := After(capacity, s, a);
       !Outstanding(s', ip) || Nearness(s', ip) < Nearness(s, ip)
  }

  ghost predicate SomeWorker(s: State) {
    exists w :: 0 <= w < |s.workers| && s.workers[w] != Stopped
  }

  /** The holder of the mutex can always go on. */
  lemma HolderGoesOn(capacity: nat, s: State, ip: string) returns (a: Action)
    requires Invariant(capacity, s) && Outstanding(s, ip) && s.holder != Free
    ensures Nearer(capacity, s, a, ip)
  {
    match s.holder {
      case Other => a := Release;
      case ByCaller(c) => a := CallerGoesOn(capacity, s, ip, c);
      case ByWorker(w) => a := WorkerGoesOn(capacity, s, ip, w);
    }
  }

  lemma CallerGoesOn(capacity: nat, s: State, ip: string, c: nat) returns (a: Action)
    requires Invariant(capacity, s) && Outstanding(s, ip) && s.holder == ByCaller(c)
    ensures Nearer(capacity, s, a, ip)
  {
    match s.callers[c] {
      case Entered(x) =>
        a := if Can(capacity, s, Send(c)) then Send(c) else Decline(c);
        if a.Send? && ip in s.channel {
          PlaceAppended(s.channel, ip, x);
        }
      case Sent(_) => a := Mark(c);
      case Leaving => a := Leave(c);
    }
  }

  lemma WorkerGoesOn(capacity: nat, s: State, ip: string, w: nat) returns (a: Action)
    requires Invariant(capacity, s) && Outstanding(s, ip) && s.holder == ByWorker(w)
    ensures Nearer(capacity, s, a, ip)
  {
    match s.workers[w] {
      case Locked(_) => a := Store(w, "");
      case Stored(_) => a := Delete(w);
      case Unlocking => a := Unlock(w);
    }
    var s' := After(capacity, s, a);
    WorkChanges(s.workers, w, s'.workers[w], ip, true);
    WorkChanges(s.workers, w, s'.workers[w], ip, false);
    StepMovesOutstanding(capacity, s, a, ip);
  }

  /** With the mutex free a worker can go on. */
  lemma FreeGoesOn(capacity: nat, s: State, ip: string) returns (a: Action)
    requires Invariant(capacity, s) && Outstanding(s, ip) && s.holder == Free && SomeWorker(s)
    ensures Nearer(capacity, s, a, ip)
  {
    var w :| 0 <= w < |s.workers| && if ip in s.channel then s.workers[w] != Stopped else Holds(s.workers[w], ip);
    if s.workers[w] == Idle {
      a := Receive(w);
      ReceivedNearer(capacity, s, ip, w);
    } else {
      a := Lock(w);
      var x := Locked(s.workers[w].ip);
      WorkChanges(s.workers, w, x, ip, true);
      WorkChanges(s.workers, w, x, ip, false);
    }
  }

  lemma ReceivedNearer(capacity: nat, s: State, ip: string, w: nat)
    requires Invariant(capacity, s) && ip in s.channel && s.holder == Free && w < |s.workers| && s.workers[w] == Idle
    ensures Nearer(capacity, s, Receive(w), ip)
  {
    var x := Looking(s.channel[0]);
    WorkChanges(s.workers, w, x, ip, true);
    WorkChanges(s.workers, w, x, ip, false);
    NoWork(s.workers, ip);
    assert s.channel == [s.channel[0]] + s.channel[1..];
  }

  /** In every reachable state some step that is already due brings an
      outstanding address nearer to being struck off, or strikes it off. */
  lemma SomethingIsDue(capacity: nat, s: State, ip: string) returns (a: Action)
    requires Invariant(capacity, s) && Outstanding(s, ip) && SomeWorker(s)
    ensures Nearer(capacity, s, a, ip)
  {
    if s.holder == Free {
      a := FreeGoesOn(capacity, s, ip);
    } else {
      a := HolderGoesOn(capacity, s, ip);
    }
  }

  lemma RunGrows(capacity: nat, states: seq<State>, actions: seq<Action>, a: Action)
    requires IsRun(capacity, states, actions) && Can(capacity, states[|actions|], a)
    ensures IsRun(capacity, states + [After(capacity, states[|actions|], a)], actions + [a])
  {
    var ss, aa := states + [After(capacity, states[|actions|], a)], actions + [a];
    forall i: nat | i < |aa|
      ensures StepAt(capacity, ss, aa, i)
    {
      if i < |actions| {
        assert StepAt(capacity, states, actions, i);
      }
    }
  }

  lemma WorkerStays(capacity: nat, s: State, a: Action)
    requires SomeWorker(s) && Can(capacity, s, a) && UnderWay(a)
    ensures SomeWorker(After(capacity, s, a))
  {
    var w :| 0 <= w < |s.workers| && s.workers[w] != Stopped;
    assert After(capacity, s, a).workers[w] != Stopped;
  }

  /** No address is stuck: every run in which a worker is left can go on, by
      steps already due alone, until the address is neither in the channel nor
      with a worker nor in the queued set. */
  lemma {:induction false} NeverStuck(capacity: nat, states: seq<State>, actions: seq<Action>, ip: string)
    returns (more: seq<State>, due: seq<Action>)
    requires IsRun(capacity, states, actions) && SomeWorker(states[|actions|])
    ensures IsRun(capacity, states + more, actions + due) && forall i :: 0 <= i < |due| ==> UnderWay(due[i])
    ensures |due| <= 1 + Nearness(states[|actions|], ip)
    ensures var s := (states + more)[|actions + due|]; !Outstanding(s, ip) && ip !in s.queued
    decreases Nearness(states[|actions|], ip)
  {
    var s := states[|actions|];
    Always(capacity, states, actions, |actions|);
    if !Outstanding(s, ip) {
      more, due := [], [];
      assert states + more == states && actions + due == actions;
    } else {
      var a := SomethingIsDue(capacity, s, ip);
      var s' := After(capacity, s, a);
      RunGrows(capacity, states, actions, a);
      if Outstanding(s', ip) {
        WorkerStays(capacity, s, a);
        var ss, aa := NeverStuck(capacity, states + [s'], actions + [a], ip);
        more, due := [s'] + ss, [a] + aa;
        assert states + more == states + [s'] + ss && actions + due == actions + [a] + aa;
      } else {
        more, due := [s'], [a];
        Always(capacity, states + more, actions + due, |actions| + 1);
      }
    }
  }
}
