/** Counters that grow and may restart at zero, read now and then: what adding
    up their increments yields (tcpstats.go, nethogs.go). */
module Counters {

  const WORD: int := 0x1_0000_0000_0000_0000

  /** What a reading adds: the increment, or all of it after a restart. */
  function Credit(was: nat, now: nat): nat {
    if now < was then now else now - was
  }

  /** As computed on 64-bit words: the difference wraps, and is replaced when
      the counter went backwards. */
  function WordCredit(was: nat, now: nat): int {
    var d := (now - was) % 0x1_0000_0000_0000_0000;
    if now < was then now else d
  }

  /** The wrapped difference is never credited. */
  lemma WrapIsNeverCredited(was: nat, now: nat)
    requires was < WORD && now < WORD
    ensures WordCredit(was, now) == Credit(was, now)
  {
  }

  function Last(base: nat, readings: seq<nat>): nat {
    if readings == [] then base else readings[|readings| - 1]
  }

  /** The running total over successive readings, starting from a baseline. */
  function Total(base: nat, readings: seq<nat>): nat {
    if readings == [] then 0
    else
      var front := readings[..|readings| - 1];
      Total(base, front) + Credit(Last(base, front), readings[|readings| - 1])
  }

  /** The sum of the last readings of the nondecreasing stretches. */
  function Peaks(s: seq<nat>): nat {
    if s == [] then 0
    else if |s| == 1 then s[0]
    else (if s[1] < s[0] then s[0] else 0) + Peaks(s[1..])
  }

  lemma {:induction false} PeaksAppend(s: seq<nat>, x: nat)
    requires s != []
    ensures Peaks(s + [x]) == Peaks(s) + Credit(s[|s| - 1], x)
  {
    if |s| == 1 {
      assert (s + [x])[1..] == [x];
    } else {
      assert (s + [x])[1..] == s[1..] + [x];
      PeaksAppend(s[1..], x);
    }
  }

  /** Conservation: the total is the sum of each stretch's last reading, minus
      the baseline. */
  lemma {:induction false} TotalIsPeaks(base: nat, readings: seq<nat>)
    ensures Total(base, readings) + base == Peaks([base] + readings)
  {
    if readings == [] {
      assert [base] + [] == [base];
    } else {
      var front, x := readings[..|readings| - 1], readings[|readings| - 1];
      TotalIsPeaks(base, front);
      PeaksAppend([base] + front, x);
      assert [base] + readings == [base] + front + [x];
    }
  }

  /** Totals never go down. */
  lemma {:induction false} TotalGrows(base: nat, readings: seq<nat>, k: nat)
    requires k <= |readings|
    ensures Total(base, readings[..k]) <= Total(base, readings)
  {
    if k < |readings| {
      var front := readings[..|readings| - 1];
      assert front[..k] == readings[..k];
      TotalGrows(base, front, k);
    } else {
      assert readings[..k] == readings;
    }
  }

  /** What truly moved between one reading and the next: the increment, if the
      counter ran on; if it restarted, at least all it shows. */
  predicate Moved(was: nat, now: nat, moved: nat) {
    now == was + moved || now <= moved
  }

  function Sum(s: seq<nat>): nat {
    if s == [] then 0 else Sum(s[..|s| - 1]) + s[|s| - 1]
  }

  ghost predicate AllMoved(base: nat, readings: seq<nat>, moved: seq<nat>) {
    |readings| == |moved| && forall i :: 0 <= i < |readings| ==> Moved(Last(base, readings[..i]), readings[i], moved[i])
  }

  /** All that moved is credited: the counter ran on, or it restarted, was seen
      to, and shows all of it. */
  predicate Caught(was: nat, now: nat, moved: nat) {
    if now < was then now == moved else now == was + moved
  }

  ghost predicate AllCaught(base: nat, readings: seq<nat>, moved: seq<nat>)
    requires |readings| == |moved|
  {
    forall i :: 0 <= i < |readings| ==> Caught(Last(base, readings[..i]), readings[i], moved[i])
  }

  /** Restarts, noticed or not, can only make the total too small; it is exact
      exactly when each reading catches all that moved. */
  lemma {:induction false} NeverOverCounts(base: nat, readings: seq<nat>, moved: seq<nat>)
    requires AllMoved(base, readings, moved)
    ensures Total(base, readings) <= Sum(moved)
    ensures Total(base, readings) == Sum(moved) <==> AllCaught(base, readings, moved)
  {
    if readings != [] {
      var n := |readings| - 1;
      assert forall i :: 0 <= i <= n ==> readings[..n][..i] == readings[..i];
      assert Moved(Last(base, readings[..n]), readings[n], moved[n]);
      NeverOverCounts(base, readings[..n], moved[..n]);
      assert AllCaught(base, readings, moved) <==>
        AllCaught(base, readings[..n], moved[..n]) && Caught(Last(base, readings[..n]), readings[n], moved[n]);
    }
  }
}
