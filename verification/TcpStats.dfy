/** Per-connection TCP totals from the kernel's cumulative counters
    (tcpstats.go). Totals are kept in bytes, where the program
    divides each increment by 1024. */
module TcpStats {
  import opened Common
  import opened Conns
  import opened Counters

  const FORGET_AFTER: int := 60 * SECOND

  datatype Traffic = Traffic(up: nat, down: nat, rawSent: nat, rawRecv: nat, lastSeen: Time)

  /** One ESTAB line of ss: the socket's key and its two counters. */
  datatype Line = Line(key: string, sent: nat, recv: nat)

  type Table = map<string, Traffic>

  function AfterLine(m: Table, primed: bool, l: Line, now: Time): Table {
    var e :=
      if l.key !in m then
        Traffic(if primed then l.sent else 0, if primed then l.recv else 0, l.sent, l.recv, now)
      else
        Traffic(m[l.key].up + Credit(m[l.key].rawSent, l.sent), m[l.key].down + Credit(m[l.key].rawRecv, l.recv),
                l.sent, l.recv, now);
    m[l.key := e]
  }

  function AfterLines(m: Table, primed: bool, lines: seq<Line>, now: Time): Table {
    if lines == [] then m
    else AfterLine(AfterLines(m, primed, lines[..|lines| - 1], now), primed, lines[|lines| - 1], now)
  }

  function Expired(m: Table, now: Time): Table {
    m - set k | k in m && now - m[k].lastSeen > FORGET_AFTER
  }

  predicate Words(lines: seq<Line>) {
    forall i :: 0 <= i < |lines| ==> lines[i].sent < WORD && lines[i].recv < WORD
  }

  /** The key of a TCP row; rows of other protocols have none. */
  function RowKey(tuple: Conn -> string, c: Conn): Option<string> {
    if |c.proto| >= 3 && c.proto[..3] == "tcp" then Some(tuple(c)) else None
  }

  function Filled(m: Table, tuple: Conn -> string, c: Conn): Conn {
    match RowKey(tuple, c)
    case Some(k) => if k in m then c.(up := m[k].up, down := m[k].down) else c
    case None => c
  }

  class TCPStats {
    var m: Table
    var primed: bool

    ghost predicate Valid()
      reads this
    {
      forall k :: k in m ==> m[k].rawSent < WORD && m[k].rawRecv < WORD
    }

    constructor ()
      ensures Valid() && m == map[] && !primed
    {
      m, primed := map[], false;
    }

    /** Folds one listing of sockets into the totals and fills the rows;
        without a listing nothing changes. */
    method Apply(listing: Option<seq<Line>>, now: Time, tuple: Conn -> string, rows: array<Conn>)
      requires Valid() && (listing.Some? ==> Words(listing.value))
      modifies this, rows
      ensures Valid()
      ensures listing.None? ==> m == old(m) && primed == old(primed) && rows[..] == old(rows[..])
      ensures listing.Some? ==> m == Expired(AfterLines(old(m), old(primed), listing.value, now), now) && primed
      ensures listing.Some? ==> forall i :: 0 <= i < rows.Length ==> rows[i] == Filled(m, tuple, old(rows[i]))
    {
      if listing.None? {
        return;
      }
      Fold(listing.value, now);
      m := m - set k | k in m && now - m[k].lastSeen > FORGET_AFTER;
      primed := true;
      Fill(tuple, rows);
    }

    method Fold(lines: seq<Line>, now: Time)
      requires Valid() && Words(lines)
      modifies this`m
      ensures Valid() && m == AfterLines(old(m), primed, lines, now)
    {
      for i := 0 to |lines|
        invariant Valid() && m == AfterLines(old(m), primed, lines[..i], now)
      {
        assert lines[..i + 1][..i] == lines[..i];
        Read(lines[i], now);
      }
      assert lines[..|lines|] == lines;
    }

    method Fill(tuple: Conn -> string, rows: array<Conn>)
      modifies rows
      ensures forall i :: 0 <= i < rows.Length ==> rows[i] == Filled(m, tuple, old(rows[i]))
    {
      for i := 0 to rows.Length
        invariant forall j :: 0 <= j < i ==> rows[j] == Filled(m, tuple, old(rows[j]))
        invariant forall j :: i <= j < rows.Length ==> rows[j] == old(rows[j])
      {
        rows[i] := Filled(m, tuple, rows[i]);
      }
    }

    method Read(l: Line, now: Time)
      requires Valid() && l.sent < WORD && l.recv < WORD
      modifies this`m
      ensures Valid() && m == AfterLine(old(m), primed, l, now)
    {
      if l.key !in m {
        var e := Traffic(0, 0, 0, 0, now);
        if primed {
          e := e.(up := l.sent, down := l.recv);
        }
        m := m[l.key := e.(rawSent := l.sent, rawRecv := l.recv)];
      } else {
        var e := m[l.key];
        var dS, dR := (l.sent - e.rawSent) % WORD, (l.recv - e.rawRecv) % WORD;
        if l.sent < e.rawSent {
          dS := l.sent;
        }
        if l.recv < e.rawRecv {
          dR := l.recv;
        }
        WrapIsNeverCredited(e.rawSent, l.sent);
        WrapIsNeverCredited(e.rawRecv, l.recv);
        m := m[l.key := Traffic(e.up + dS, e.down + dR, l.sent, l.recv, now)];
      }
    }
  }

  // ---- a key tracked over a whole run ----

  /** The readings a listing holds for a key, in order. */
  function Sent(lines: seq<Line>, key: string): seq<nat> {
    if lines == [] then []
    else
      var front, l := Sent(lines[..|lines| - 1], key), lines[|lines| - 1];
      if l.key == key then front + [l.sent] else front
  }

  function Received(lines: seq<Line>, key: string): seq<nat> {
    if lines == [] then []
    else
      var front, l := Received(lines[..|lines| - 1], key), lines[|lines| - 1];
      if l.key == key then front + [l.recv] else front
  }

  /** An entry that adds up these readings: all of them, or, if the first is
      the baseline of a socket older than the monitor, those after it. */
  ghost predicate AddsUp(total: nat, raw: nat, baseline: bool, readings: seq<nat>) {
    && readings != []
    && raw == readings[|readings| - 1]
    && total == if baseline then Total(readings[0], readings[1..]) else Total(0, readings)
  }

  ghost predicate Tracks(m: Table, key: string, baseline: bool, sent: seq<nat>, recv: seq<nat>) {
    && key in m
    && AddsUp(m[key].up, m[key].rawSent, baseline, sent)
    && AddsUp(m[key].down, m[key].rawRecv, baseline, recv)
  }

  lemma AddsUpStep(total: nat, raw: nat, baseline: bool, readings: seq<nat>, x: nat)
    requires AddsUp(total, raw, baseline, readings)
    ensures AddsUp(total + Credit(raw, x), x, baseline, readings + [x])
  {
    var more := readings + [x];
    assert more[..|more| - 1] == readings;
    assert more[1..][..|more| - 2] == readings[1..];
  }

  lemma AddsUpStart(x: nat)
    ensures AddsUp(0, x, true, [x]) && AddsUp(x, x, false, [x])
  {
    assert [x][..0] == [];
  }

  /** Tracked, or about to be. */
  ghost predicate Ready(m: Table, primed: bool, key: string, baseline: bool, sent: seq<nat>, recv: seq<nat>) {
    if key in m then Tracks(m, key, baseline, sent, recv) else baseline == !primed && sent == [] && recv == []
  }

  lemma LineTracked(m: Table, primed: bool, l: Line, now: Time, baseline: bool, sent: seq<nat>, recv: seq<nat>)
    requires Ready(m, primed, l.key, baseline, sent, recv)
    ensures Tracks(AfterLine(m, primed, l, now), l.key, baseline, sent + [l.sent], recv + [l.recv])
  {
    if l.key in m {
      AddsUpStep(m[l.key].up, m[l.key].rawSent, baseline, sent, l.sent);
      AddsUpStep(m[l.key].down, m[l.key].rawRecv, baseline, recv, l.recv);
    } else {
      assert sent + [l.sent] == [l.sent] && recv + [l.recv] == [l.recv];
      AddsUpStart(l.sent);
      AddsUpStart(l.recv);
    }
  }

  lemma OtherLine(m: Table, primed: bool, l: Line, now: Time, key: string, baseline: bool, sent: seq<nat>,
                  recv: seq<nat>)
    requires Ready(m, primed, key, baseline, sent, recv) && l.key != key
    ensures Ready(AfterLine(m, primed, l, now), primed, key, baseline, sent, recv)
  {
  }

  /** A listing extends what is tracked by the readings it holds. */
  lemma {:induction false} ListingTracked(m: Table, primed: bool, lines: seq<Line>, now: Time, key: string,
                                          baseline: bool, sent: seq<nat>, recv: seq<nat>)
    requires Ready(m, primed, key, baseline, sent, recv)
    ensures Ready(AfterLines(m, primed, lines, now), primed, key, baseline,
                  sent + Sent(lines, key), recv + Received(lines, key))
  {
    if lines == [] {
      assert sent + [] == sent && recv + [] == recv;
    } else {
      var front, l := lines[..|lines| - 1], lines[|lines| - 1];
      ListingTracked(m, primed, front, now, key, baseline, sent, recv);
      var before := AfterLines(m, primed, front, now);
      var s, r := sent + Sent(front, key), recv + Received(front, key);
      if l.key == key {
        LineTracked(before, primed, l, now, baseline, s, r);
        assert sent + (Sent(front, key) + [l.sent]) == s + [l.sent];
        assert recv + (Received(front, key) + [l.recv]) == r + [l.recv];
      } else {
        OtherLine(before, primed, l, now, key, baseline, s, r);
      }
    }
  }

  /** One listing of a run: its lines and when it was read. */
  datatype Tick = Tick(lines: seq<Line>, now: Time)

  function TableAt(ticks: seq<Tick>, n: nat): Table
    requires n <= |ticks|
  {
    if n == 0 then map[]
    else Expired(AfterLines(TableAt(ticks, n - 1), n > 1, ticks[n - 1].lines, ticks[n - 1].now), ticks[n - 1].now)
  }

  function SentSince(ticks: seq<Tick>, b: nat, n: nat, key: string): seq<nat>
    requires b <= n <= |ticks|
  {
    if b == n then [] else SentSince(ticks, b, n - 1, key) + Sent(ticks[n - 1].lines, key)
  }

  function ReceivedSince(ticks: seq<Tick>, b: nat, n: nat, key: string): seq<nat>
    requires b <= n <= |ticks|
  {
    if b == n then [] else ReceivedSince(ticks, b, n - 1, key) + Received(ticks[n - 1].lines, key)
  }

  /** The key has been tracked without a break since it was first listed in
      tick `b`. */
  ghost predicate TrackedSince(ticks: seq<Tick>, n: nat, key: string, b: nat) {
    && b < n <= |ticks|
    && key !in TableAt(ticks, b)
    && forall j :: b < j <= n ==> key in TableAt(ticks, j)
  }

  /** Over any run, a tracked socket's totals add up its readings, those of the
      very first tick being the baseline. */
  lemma {:induction false} TrackedAddsUp(ticks: seq<Tick>, n: nat, key: string, b: nat)
    requires TrackedSince(ticks, n, key, b)
    ensures Tracks(TableAt(ticks, n), key, b == 0, SentSince(ticks, b, n, key), ReceivedSince(ticks, b, n, key))
  {
    var t := ticks[n - 1];
    var m := TableAt(ticks, n - 1);
    var s, r := SentSince(ticks, b, n - 1, key), ReceivedSince(ticks, b, n - 1, key);
    if b < n - 1 {
      TrackedAddsUp(ticks, n - 1, key, b);
    }
    assert key in TableAt(ticks, n);
    ListingTracked(m, n > 1, t.lines, t.now, key, b == 0, s, r);
  }

  /** In closed form: the sum of the last reading of every nondecreasing
      stretch, minus the first reading if it was the baseline. */
  lemma TrackedConserves(ticks: seq<Tick>, n: nat, key: string, b: nat)
    requires TrackedSince(ticks, n, key, b)
    ensures key in TableAt(ticks, n)
    ensures var s := SentSince(ticks, b, n, key);
      s != [] && TableAt(ticks, n)[key].up == Peaks(s) - if b == 0 then s[0] else 0
    ensures var r := ReceivedSince(ticks, b, n, key);
      r != [] && TableAt(ticks, n)[key].down == Peaks(r) - if b == 0 then r[0] else 0
  {
    TrackedAddsUp(ticks, n, key, b);
    PeaksOfReadings(SentSince(ticks, b, n, key), b == 0);
    PeaksOfReadings(ReceivedSince(ticks, b, n, key), b == 0);
  }

  /** What moved between the readings that count, one figure for each: from the
      first on, or, if that was the baseline, from the second. */
  ghost predicate MovedSince(s: seq<nat>, baseline: bool, moved: seq<nat>) {
    s != [] && if baseline then AllMoved(s[0], s[1..], moved) else AllMoved(0, s, moved)
  }

  ghost predicate CaughtSince(s: seq<nat>, baseline: bool, moved: seq<nat>)
    requires MovedSince(s, baseline, moved)
  {
    if baseline then AllCaught(s[0], s[1..], moved) else AllCaught(0, s, moved)
  }

  /** So over any run no socket is shown with more than truly moved while it was
      tracked, and with exactly that iff every reading caught all of it. */
  lemma TrackedNeverOverCounts(ticks: seq<Tick>, n: nat, key: string, b: nat, up: seq<nat>, down: seq<nat>)
    requires TrackedSince(ticks, n, key, b)
    requires MovedSince(SentSince(ticks, b, n, key), b == 0, up) &&
      MovedSince(ReceivedSince(ticks, b, n, key), b == 0, down)
    ensures key in TableAt(ticks, n)
    ensures TableAt(ticks, n)[key].up <= Sum(up) && TableAt(ticks, n)[key].down <= Sum(down)
    ensures TableAt(ticks, n)[key].up == Sum(up) <==> CaughtSince(SentSince(ticks, b, n, key), b == 0, up)
    ensures TableAt(ticks, n)[key].down == Sum(down) <==> CaughtSince(ReceivedSince(ticks, b, n, key), b == 0, down)
  {
    var s, r := SentSince(ticks, b, n, key), ReceivedSince(ticks, b, n, key);
    TrackedAddsUp(ticks, n, key, b);
    if b == 0 {
      NeverOverCounts(s[0], s[1..], up);
      NeverOverCounts(r[0], r[1..], down);
    } else {
      NeverOverCounts(0, s, up);
      NeverOverCounts(0, r, down);
    }
  }

  /** A TCP row shows these totals: sent as up, received as down. */
  lemma RowShowsTotals(ticks: seq<Tick>, n: nat, tuple: Conn -> string, c: Conn, b: nat)
    requires c.proto == "tcp" || c.proto == "tcp6"
    requires TrackedSince(ticks, n, tuple(c), b)
    ensures var r, s := Filled(TableAt(ticks, n), tuple, c), SentSince(ticks, b, n, tuple(c));
      r.(up := c.up, down := c.down) == c && s != [] && r.up == Peaks(s) - if b == 0 then s[0] else 0
    ensures var r, s := Filled(TableAt(ticks, n), tuple, c), ReceivedSince(ticks, b, n, tuple(c));
      s != [] && r.down == Peaks(s) - if b == 0 then s[0] else 0
  {
    TrackedConserves(ticks, n, tuple(c), b);
  }

  /** Rows of other protocols, and of sockets not tracked, are left alone. */
  lemma OthersUntouched(m: Table, tuple: Conn -> string, c: Conn)
    ensures c.proto == "udp" || c.proto == "udp6" || tuple(c) !in m ==> Filled(m, tuple, c) == c
  {
    if c.proto == "udp" || c.proto == "udp6" {
      assert c.proto[..3][0] == 'u';
    }
  }

  // ---- which sockets are tracked ----

  predicate ListedIn(lines: seq<Line>, key: string) {
    exists i :: 0 <= i < |lines| && lines[i].key == key
  }

  /** Of the first `n` listings, `j` is the last to hold the key. */
  ghost predicate LastListed(ticks: seq<Tick>, n: nat, key: string, j: nat) {
    j < n <= |ticks| && ListedIn(ticks[j].lines, key) && forall i :: j < i < n ==> !ListedIn(ticks[i].lines, key)
  }

  lemma {:induction false} ListingSeen(m: Table, primed: bool, lines: seq<Line>, now: Time, key: string)
    ensures key in AfterLines(m, primed, lines, now) <==> key in m || ListedIn(lines, key)
    ensures ListedIn(lines, key) ==> AfterLines(m, primed, lines, now)[key].lastSeen == now
    ensures !ListedIn(lines, key) && key in m ==> AfterLines(m, primed, lines, now)[key] == m[key]
  {
    if lines != [] {
      var n := |lines| - 1;
      var front := lines[..n];
      ListingSeen(m, primed, front, now, key);
      assert forall i :: 0 <= i < n ==> front[i] == lines[i];
      assert ListedIn(lines, key) <==> ListedIn(front, key) || lines[n].key == key;
    }
  }

  /** A socket is tracked iff it was ever listed, and no listing since is more
      than a minute after the last that had it. */
  lemma {:induction false} TrackedExactly(ticks: seq<Tick>, n: nat, key: string)
    requires n <= |ticks|
    ensures key in TableAt(ticks, n) <==> exists j: nat :: KeptSince(ticks, n, key, j)
    ensures forall j: nat :: KeptSince(ticks, n, key, j) ==>
      key in TableAt(ticks, n) && TableAt(ticks, n)[key].lastSeen == ticks[j].now
  {
    if n > 0 {
      TrackedExactly(ticks, n - 1, key);
      var t := ticks[n - 1];
      ListingSeen(TableAt(ticks, n - 1), n > 1, t.lines, t.now, key);
      if ListedIn(t.lines, key) {
        assert KeptSince(ticks, n, key, n - 1);
      } else {
        forall j: nat
          ensures KeptSince(ticks, n, key, j) <==>
            KeptSince(ticks, n - 1, key, j) && t.now - ticks[j].now <= 60 * SECOND
        {
        }
        if key in TableAt(ticks, n) {
          var j: nat :| KeptSince(ticks, n - 1, key, j);
          assert KeptSince(ticks, n, key, j);
        }
      }
    }
  }

  ghost predicate KeptSince(ticks: seq<Tick>, n: nat, key: string, j: nat) {
    LastListed(ticks, n, key, j) && forall i :: j < i < n ==> ticks[i].now - ticks[j].now <= 60 * SECOND
  }

  lemma PeaksOfReadings(s: seq<nat>, baseline: bool)
    requires s != []
    ensures Peaks(s) == if baseline then Total(s[0], s[1..]) + s[0] else Total(0, s)
  {
    if baseline {
      TotalIsPeaks(s[0], s[1..]);
      assert [s[0]] + s[1..] == s;
    } else {
      TotalIsPeaks(0, s);
      assert ([0] + s)[1..] == s;
    }
  }
}
