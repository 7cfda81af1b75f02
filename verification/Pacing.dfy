/** Outbound queries paced process-wide (owner.go): a mutex held across the
    wait, any number of workers, and waits that may be cancelled. */
module Pacing {
  import opened Common

  /** ownerMinInterval: 200 ms. */
  const INTERVAL: int := 200_000_000

  datatype Worker = Outside | Sleeping(until: Time) | Ready

  /** `last` is None before the first grant; `grants` are the times at which
      ownerRateWait returned success, as it recorded them. */
  datatype State = State(now: Time, last: Option<Time>, holder: Option<nat>, workers: seq<Worker>, grants: seq<Time>)

  datatype Action = Pass(d: nat) | Enter(w: nat) | Wake(w: nat) | Cancel(w: nat) | Grant(w: nat)

  predicate Can(s: State, a: Action) {
    match a
    case Pass(_) => true
    case Enter(w) => w < |s.workers| && s.workers[w] == Outside && s.holder == None
    case Wake(w) => w < |s.workers| && s.workers[w].Sleeping? && s.now >= s.workers[w].until
    case Cancel(w) => w < |s.workers| && s.workers[w].Sleeping?
    case Grant(w) => w < |s.workers| && s.workers[w] == Ready
  }

  function After(s: State, a: Action): State
    requires Can(s, a)
  {
    match a
    case Pass(d) => s.(now := s.now + d)
    case Enter(w) =>
      var due := s.last.Some? && s.last.value + INTERVAL - s.now > 0;
      s.(holder := Some(w), workers := s.workers[w := if due then Sleeping(s.last.value + INTERVAL) else Ready])
    case Wake(w) => s.(workers := s.workers[w := Ready])
    case Cancel(w) => s.(holder := None, workers := s.workers[w := Outside])
    case Grant(w) =>
      s.(last := Some(s.now), holder := None, workers := s.workers[w := Outside], grants := s.grants + [s.now])
  }

  predicate Initial(s: State) {
    && s.last == None && s.holder == None && s.grants == []
    && forall w :: 0 <= w < |s.workers| ==> s.workers[w] == Outside
  }

  ghost predicate Invariant(s: State) {
    && (forall w :: 0 <= w < |s.workers| ==> (s.workers[w] != Outside <==> s.holder == Some(w)))
    && (s.last == if s.grants == [] then None else Some(s.grants[|s.grants| - 1]))
    && (forall w :: 0 <= w < |s.workers| && s.workers[w] == Ready && s.last.Some? ==> s.now >= s.last.value + INTERVAL)
    && (forall w ::
        0 <= w < |s.workers| && s.workers[w].Sleeping? ==>
          s.last.Some? && s.workers[w].until == s.last.value + INTERVAL)
    && (s.last.Some? ==> s.last.value <= s.now)
    && (forall i :: 0 < i < |s.grants| ==> s.grants[i] - s.grants[i - 1] >= INTERVAL)
  }

  lemma StepKeepsInvariant(s: State, a: Action)
    requires Invariant(s) && Can(s, a)
    ensures Invariant(After(s, a))
  {
  }

  ghost predicate IsRun(states: seq<State>, actions: seq<Action>) {
    && |states| == |actions| + 1
    && Initial(states[0])
    && forall i :: 0 <= i < |actions| ==> Can(states[i], actions[i]) && states[i + 1] == After(states[i], actions[i])
  }

  lemma {:induction false} Always(states: seq<State>, actions: seq<Action>, n: nat)
    requires IsRun(states, actions) && n < |states|
    ensures Invariant(states[n])
  {
    if n > 0 {
      Always(states, actions, n - 1);
      StepKeepsInvariant(states[n - 1], actions[n - 1]);
    }
  }

  lemma {:induction false} Spaced(grants: seq<Time>, i: nat, j: nat)
    requires forall k :: 0 < k < |grants| ==> grants[k] - grants[k - 1] >= INTERVAL
    requires i <= j < |grants|
    ensures grants[j] - grants[i] >= (j - i) * 200_000_000
  {
    if i < j {
      Spaced(grants, i, j - 1);
    }
  }

  /** In every interleaving, however many waits are cancelled, grants are 200 ms
      apart; so no window of length `w` holds more than w / 200 ms + 1. */
  lemma WindowIsBounded(states: seq<State>, actions: seq<Action>, n: nat, i: nat, j: nat, t: Time, w: nat)
    requires IsRun(states, actions) && n < |states|
    requires i <= j < |states[n].grants|
    requires t <= states[n].grants[i] && states[n].grants[j] <= t + w
    ensures states[n].grants[j] - states[n].grants[i] >= (j - i) * 200_000_000
    ensures j - i + 1 <= w / 200_000_000 + 1
  {
    Always(states, actions, n);
    Spaced(states[n].grants, i, j);
  }

  /** How long a waiter that goes in now has to wait: what is left of the 200 ms
      since the last grant. */
  function Due(s: State): nat {
    if s.grants == [] then 0
    else
      var left := s.grants[|s.grants| - 1] + 200_000_000 - s.now;
      if left > 0 then left else 0
  }

  /** It is let through after exactly that, whoever was cancelled before. */
  lemma GrantedWhenDue(s: State, w: nat)
    requires Invariant(s) && s.holder == None && w < |s.workers|
    ensures Can(s, Enter(w))
    ensures var inside := After(After(s, Enter(w)), Pass(Due(s)));
      && (Due(s) > 0 ==> Can(inside, Wake(w)))
      && var awake := if Due(s) > 0 then After(inside, Wake(w)) else inside;
      && Can(awake, Grant(w))
      && After(awake, Grant(w)).grants == s.grants + [s.now + Due(s)]
      && After(awake, Grant(w)).holder == None
  {
    assert s.workers[w] == Outside;
  }

  /** And not before. */
  lemma NotGrantedEarly(s: State, w: nat, d: nat)
    requires Invariant(s) && s.holder == None && w < |s.workers| && d < Due(s)
    ensures Can(s, Enter(w))
    ensures var early := After(After(s, Enter(w)), Pass(d)); !Can(early, Wake(w)) && !Can(early, Grant(w))
  {
    assert s.workers[w] == Outside;
  }

  /** A cancelled wait leaves the way free, and nothing else behind. */
  lemma CancelledLeavesNothing(s: State, w: nat, d: nat)
    requires Invariant(s) && s.holder == None && w < |s.workers| && Due(s) > 0
    ensures Can(s, Enter(w)) && Can(After(After(s, Enter(w)), Pass(d)), Cancel(w))
    ensures After(After(After(s, Enter(w)), Pass(d)), Cancel(w)) == s.(now := s.now + d)
  {
    assert s.workers[w] == Outside;
    assert s.workers[w := Outside] == s.workers;
  }
}
