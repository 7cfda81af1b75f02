/** From kernel socket tables to attributed rows: the walk over /proc, and the
    ageing of sockets nobody holds (conns.go). */
module Scanner {
  import opened Common
  import opened Conns

  const KERNEL_UNOWNED: int := 10 * SECOND
  const WALK_EVERY: int := 30 * SECOND

  /** One line of a socket table: the decoded row, and the socket's inode. */
  datatype Raw = Raw(decoded: Conn, inode: nat)

  /** What a sweep over /proc finds: the holders of sockets, and how many
      processes refused to be looked at. */
  datatype Walk = Walk(inodePid: map<nat, int>, blocked: nat)

  /** The descriptors of a process: refused, unreadable, or what each of
      them points at, None for anything but a socket. */
  datatype Descriptors = Refused | Unreadable | Open(sockets: seq<Option<nat>>)

  /** One entry of /proc; those that are no process have no pid. */
  datatype ProcEntry = ProcEntry(pid: Option<int>, fds: Descriptors)

  /** The names a process goes by. */
  datatype Names = Names(comm: string, app: string)

  datatype State = State(inodePid: map<nat, int>, blocked: nat, lastWalk: Option<Time>,
                         unowned: map<nat, Time>, everOwned: set<nat>)

  /** No walk has been made. */
  const INITIAL: State := State(map[], 0, None, map[], {})

  /** Why a scan found its inode map wanting: this inode, at this reading. */
  datatype Culprit = Culprit(inode: nat, asked: Time)

  /** One scan. `walked` is whether a sweep was attempted, `walk` what it found:
      None if none was made or /proc could not be listed. */
  datatype Pass = Pass(raws: seq<Raw>, walk: Option<Walk>, names: int -> Names,
                       began: Time, walked: bool, culprit: Option<Culprit>, checked: Time, at: Time, now: Time,
                       rows: seq<Conn>)

  /** The clock as the scan reads it: each reading has its own answer. */
  class Clock {
    const readings: nat -> Time
    var reading: nat

    constructor (readings: nat -> Time)
      ensures this.readings == readings && reading == 0
    {
      this.readings := readings;
      reading := 0;
    }

    method Now() returns (t: Time)
      modifies this
      ensures t == readings(old(reading)) && reading == old(reading) + 1
    {
      t := readings(reading);
      reading := reading + 1;
    }
  }

  ghost predicate Nondecreasing(readings: nat -> Time) {
    forall i: nat, j: nat :: i <= j ==> readings(i) <= readings(j)
  }

  predicate InodePresent(raws: seq<Raw>, inode: nat) {
    inode != 0 && exists i :: 0 <= i < |raws| && raws[i].inode == inode
  }

  /** The inode has gone unowned long enough that no walk will help. */
  predicate StaleUnowned(unowned: map<nat, Time>, inode: nat, now: Time) {
    inode in unowned && now - unowned[inode] >= KERNEL_UNOWNED
  }

  predicate KernelOwned(s: State, inode: nat, now: Time) {
    inode !in s.everOwned && StaleUnowned(s.unowned, inode, now)
  }

  function UnownedReason(s: State, inode: nat, now: Time): Reason {
    if s.blocked > 0 then Denied
    else if KernelOwned(s, inode, now) then Kernel
    else Gone
  }

  /** The row built for a table line once the ageing pass is done. */
  function Row(s: State, raw: Raw, names: int -> Names, now: Time): Conn {
    var blank := raw.decoded.(pid := -1, comm := "", app := "", noPid := Attributed, inherit := false, wasPid := 0);
    if raw.inode in s.inodePid && raw.inode != 0 then
      var pid := s.inodePid[raw.inode];
      blank.(pid := pid, comm := names(pid).comm, app := names(pid).app)
    else if raw.inode == 0 then blank.(noPid := NoProc)
    else blank.(noPid := UnownedReason(s, raw.inode, now))
  }

  function Rows(s: State, raws: seq<Raw>, names: int -> Names, now: Time): (rows: seq<Conn>)
    ensures |rows| == |raws|
    ensures forall i :: 0 <= i < |raws| ==> rows[i] == Row(s, raws[i], names, now)
  {
    seq(|raws|, i requires 0 <= i < |raws| => Row(s, raws[i], names, now))
  }

  /** A line nobody is known to hold, and that a walk might still explain. */
  predicate Missing(s: State, raw: Raw, asked: Time) {
    raw.inode != 0 && raw.inode !in s.inodePid && !StaleUnowned(s.unowned, raw.inode, asked)
  }

  /** The sweep's result replaces the map, unless /proc could not be listed. */
  function AfterWalk(s: State, walk: Option<Walk>, at: Time): State {
    match walk
    case None => s
    case Some(w) => s.(inodePid := w.inodePid, blocked := w.blocked, lastWalk := Some(at))
  }

  /** The ageing maps after a scan, given those before it. */
  ghost predicate Aged(s: State, raws: seq<Raw>, now: Time, s': State) {
    && (forall ino :: ino in s'.unowned <==> InodePresent(raws, ino) && ino !in s'.inodePid)
    && (forall ino :: ino in s'.unowned ==>
          s'.unowned[ino] == if ino in s.unowned then s.unowned[ino] else now)
    && (forall ino :: ino in s'.everOwned <==>
          InodePresent(raws, ino) && (ino in s'.inodePid || ino in s.everOwned))
  }

  predicate Due(lastWalk: Option<Time>, now: Time) {
    lastWalk.None? || now - lastWalk.value > WALK_EVERY
  }

  /** Entry `i` is a process, open to us, with this socket among its
      descriptors. */
  predicate Holds(listing: seq<ProcEntry>, i: nat, inode: nat) {
    i < |listing| && listing[i].pid.Some? && listing[i].fds.Open? && Some(inode) in listing[i].fds.sockets
  }

  /** How many processes refused to be looked at. */
  function RefusedIn(listing: seq<ProcEntry>): nat {
    if listing == [] then 0
    else
      var last := listing[|listing| - 1];
      RefusedIn(listing[..|listing| - 1]) + if last.pid.Some? && last.fds == Refused then 1 else 0
  }

  /** The last holder listed. */
  function HolderIn(listing: seq<ProcEntry>, inode: nat): Option<int> {
    if listing == [] then None
    else if Holds(listing, |listing| - 1, inode) then listing[|listing| - 1].pid
    else HolderIn(listing[..|listing| - 1], inode)
  }

  /** That many entries are processes that did. */
  lemma {:induction false} RefusedIsCount(listing: seq<ProcEntry>)
    ensures RefusedIn(listing) == |set i | 0 <= i < |listing| && listing[i].pid.Some? && listing[i].fds == Refused|
  {
    var all := set i | 0 <= i < |listing| && listing[i].pid.Some? && listing[i].fds == Refused;
    if listing == [] {
      assert all == {};
    } else {
      var n := |listing| - 1;
      var front := listing[..n];
      RefusedIsCount(front);
      var before := set i | 0 <= i < |front| && front[i].pid.Some? && front[i].fds == Refused;
      assert all == before + if listing[n].pid.Some? && listing[n].fds == Refused then {n} else {};
    }
  }

  ghost predicate Surveyed(listing: seq<ProcEntry>, w: Walk) {
    && w.blocked == RefusedIn(listing)
    && forall ino :: HolderIn(listing, ino) == if ino in w.inodePid then Some(w.inodePid[ino]) else None
  }

  /** A socket held by several processes goes to the last of them; one held by
      none to nobody. */
  lemma {:induction false} HolderIsLast(listing: seq<ProcEntry>, inode: nat, i: nat)
    requires Holds(listing, i, inode) && forall j: nat :: i < j ==> !Holds(listing, j, inode)
    ensures HolderIn(listing, inode) == listing[i].pid
  {
    var n := |listing| - 1;
    if i < n {
      forall j: nat
        ensures Holds(listing[..n], j, inode) ==> Holds(listing, j, inode)
      {
      }
      HolderIsLast(listing[..n], inode, i);
    }
  }

  lemma {:induction false} NobodyHolds(listing: seq<ProcEntry>, inode: nat)
    requires forall j: nat :: !Holds(listing, j, inode)
    ensures HolderIn(listing, inode) == None
  {
    if listing != [] {
      var n := |listing| - 1;
      forall j: nat
        ensures Holds(listing[..n], j, inode) ==> Holds(listing, j, inode)
      {
      }
      NobodyHolds(listing[..n], inode);
    }
  }

  /** The decision to sweep /proc: some line could still be explained, at the
      time it was asked about, or the periodic sweep is due. */
  ghost predicate Decided(s: State, t: Pass) {
    && t.began <= t.checked
    && (t.culprit.Some? ==>
          && t.began <= t.culprit.value.asked <= t.checked
          && exists i ::
            0 <= i < |t.raws| && t.raws[i].inode == t.culprit.value.inode &&
              Missing(s, t.raws[i], t.culprit.value.asked))
    && (t.culprit.None? ==> forall i :: 0 <= i < |t.raws| ==> !Missing(s, t.raws[i], t.checked))
    && (t.walked <==> t.culprit.Some? || Due(s.lastWalk, t.checked))
  }

  /** What the sweep, if any, did to the inode map. */
  ghost predicate Swept(s: State, t: Pass, s': State) {
    && t.checked <= t.at <= t.now
    && var w := if t.walked then AfterWalk(s, t.walk, t.at) else s;
    s'.inodePid == w.inodePid && s'.blocked == w.blocked && s'.lastWalk == w.lastWalk
  }

  ghost predicate ScanStep(s: State, t: Pass, s': State) {
    && Decided(s, t)
    && Swept(s, t, s')
    && Aged(s, t.raws, t.now, s')
    && t.rows == Rows(s', t.raws, t.names, t.now)
  }

  class SocketScanner {
    var inodePid: map<nat, int>
    var blocked: nat
    var lastWalk: Option<Time>
    var unowned: map<nat, Time>
    var everOwned: set<nat>
    const clock: Clock

    constructor (clock: Clock)
      ensures this.clock == clock && View() == INITIAL
    {
      this.clock := clock;
      inodePid, blocked, lastWalk, unowned, everOwned := map[], 0, None, map[], {};
    }

    function View(): State
      reads this
    {
      State(inodePid, blocked, lastWalk, unowned, everOwned)
    }

    /** One scan over the given tables. */
    method Scan(raws: seq<Raw>, listing: Option<seq<ProcEntry>>, names: int -> Names)
      returns (rows: seq<Conn>, ghost t: Pass)
      requires Nondecreasing(clock.readings)
      modifies this, clock
      ensures old(clock.reading) < clock.reading
      ensures t.raws == raws && t.names == names && t.rows == rows
      ensures t.walked ==> if listing.Some? then t.walk.Some? && Surveyed(listing.value, t.walk.value) else t.walk.None?
      ensures clock.readings(old(clock.reading)) <= t.began && t.now == clock.readings(clock.reading - 1)
      ensures ScanStep(old(View()), t, View())
    {
      ghost var s := View();
      ghost var began := clock.readings(clock.reading);
      var culprit := FindMissing(raws);
      var checked := clock.Now();
      var walked := culprit.Some? || Due(lastWalk, checked);
      ghost var at, walk := checked, None;
      if walked {
        at, walk := Sweep(listing);
      }
      ghost var swept := View();
      var now := clock.Now();
      Age(raws, now);
      rows := Label(raws, names, now);
      t := Pass(raws, walk, names, began, walked, culprit, checked, at, now, rows);
      assert Decided(s, t);
      assert Swept(s, t, swept);
    }

    /** Replaces the inode map by what a sweep over /proc finds; nothing happens
        if /proc cannot be listed. */
    method Sweep(listing: Option<seq<ProcEntry>>) returns (ghost at: Time, ghost walk: Option<Walk>)
      requires Nondecreasing(clock.readings)
      modifies this`inodePid, this`blocked, this`lastWalk, clock
      ensures old(clock.reading) <= clock.reading
      ensures clock.readings(old(clock.reading)) <= at <= clock.readings(clock.reading)
      ensures if listing.Some? then walk.Some? && Surveyed(listing.value, walk.value) else walk.None?
      ensures View() == AfterWalk(old(View()), walk, at)
    {
      at, walk := clock.readings(clock.reading), None;
      if listing.Some? {
        var w := Survey(listing.value);
        walk := Some(w);
        inodePid, blocked := w.inodePid, w.blocked;
        var now := clock.Now();
        lastWalk := Some(now);
      }
    }

    /** Visits every process; a later holder of a socket replaces an earlier one. */
    method Survey(listing: seq<ProcEntry>) returns (w: Walk)
      ensures Surveyed(listing, w)
    {
      var held: map<nat, int>, refused := map[], 0;
      for i := 0 to |listing|
        invariant Surveyed(listing[..i], Walk(held, refused))
      {
        ghost var before := held;
        var e := listing[i];
        if e.pid.Some? {
          match e.fds {
            case Refused => refused := refused + 1;
            case Unreadable =>
            case Open(sockets) => held := Claim(held, e.pid.value, sockets);
          }
        }
        SurveyGrows(listing, i, before, held, Walk(held, refused).blocked);
      }
      assert listing[..|listing|] == listing;
      w := Walk(held, refused);
    }

    /** Notes the process as the holder of its sockets. */
    method Claim(held: map<nat, int>, pid: int, sockets: seq<Option<nat>>) returns (m: map<nat, int>)
      ensures forall ino :: ino in m <==> ino in held || Some(ino) in sockets
      ensures forall ino :: ino in m ==> m[ino] == if Some(ino) in sockets then pid else held[ino]
    {
      m := held;
      for j := 0 to |sockets|
        invariant forall ino :: ino in m <==> ino in held || Some(ino) in sockets[..j]
        invariant forall ino :: ino in m ==> m[ino] == if Some(ino) in sockets[..j] then pid else held[ino]
      {
        assert sockets[..j + 1] == sockets[..j] + [sockets[j]];
        if sockets[j].Some? {
          m := m[sockets[j].value := pid];
        }
      }
      assert sockets[..|sockets|] == sockets;
    }

    /** The first line whose owner is unknown and worth a walk. */
    method FindMissing(raws: seq<Raw>) returns (culprit: Option<Culprit>)
      requires Nondecreasing(clock.readings)
      modifies clock
      ensures old(clock.reading) <= clock.reading
      ensures culprit.Some? ==>
        && clock.readings(old(clock.reading)) <= culprit.value.asked <= clock.readings(clock.reading)
        && exists i ::
          0 <= i < |raws| && raws[i].inode == culprit.value.inode && Missing(View(), raws[i], culprit.value.asked)
      ensures culprit.None? ==> forall i :: 0 <= i < |raws| ==> !Missing(View(), raws[i], clock.readings(clock.reading))
    {
      culprit := None;
      for i := 0 to |raws|
        invariant old(clock.reading) <= clock.reading
        invariant forall j :: 0 <= j < i ==> !Missing(View(), raws[j], clock.readings(clock.reading))
      {
        ghost var before := clock.reading;
        if raws[i].inode != 0 && raws[i].inode !in inodePid {
          var asked := clock.Now();
          if !StaleUnowned(unowned, raws[i].inode, asked) {
            return Some(Culprit(raws[i].inode, asked));
          }
        }
        assert clock.readings(before) <= clock.readings(clock.reading);
      }
    }

    /** Ages every socket nobody holds, and forgets those that are gone. */
    method Age(raws: seq<Raw>, now: Time)
      modifies this`unowned, this`everOwned
      ensures Aged(old(View()), raws, now, View())
    {
      var live: set<nat> := {};
      for i := 0 to |raws|
        invariant forall ino :: ino in live <==> InodePresent(raws[..i], ino)
        invariant forall ino :: ino in unowned <==>
          if ino in live then ino !in inodePid else ino in old(unowned)
        invariant forall ino :: ino in unowned ==>
          unowned[ino] == if ino in old(unowned) then old(unowned)[ino] else now
        invariant forall ino :: ino in everOwned <==> ino in old(everOwned) || (ino in live && ino in inodePid)
      {
        InodeStep(raws, i);
        var ino := raws[i].inode;
        if ino != 0 {
          live := live + {ino};
          if ino in inodePid {
            everOwned := everOwned + {ino};
            unowned := unowned - {ino};
          } else if ino !in unowned {
            unowned := unowned[ino := now];
          }
        }
      }
      assert raws[..|raws|] == raws;
      unowned := unowned - set ino | ino in unowned && ino !in live;
      everOwned := set ino | ino in everOwned && ino in live;
    }

    method Label(raws: seq<Raw>, names: int -> Names, now: Time) returns (rows: seq<Conn>)
      ensures rows == Rows(View(), raws, names, now)
    {
      rows := [];
      for i := 0 to |raws|
        invariant |rows| == i
        invariant forall j :: 0 <= j < i ==> rows[j] == Row(View(), raws[j], names, now)
      {
        var c := raws[i].decoded.(pid := -1, comm := "", app := "", noPid := Attributed, inherit := false, wasPid := 0);
        if raws[i].inode in inodePid && raws[i].inode != 0 {
          var pid := inodePid[raws[i].inode];
          c := c.(pid := pid, comm := names(pid).comm, app := names(pid).app);
        } else if raws[i].inode == 0 {
          c := c.(noPid := NoProc);
        } else {
          c := c.(noPid := UnownedReason(View(), raws[i].inode, now));
        }
        rows := rows + [c];
      }
    }
  }

  /** One more process surveyed. */
  lemma SurveyGrows(listing: seq<ProcEntry>, i: nat, before: map<nat, int>, after: map<nat, int>, refused: nat)
    requires i < |listing| && Surveyed(listing[..i], Walk(before, RefusedIn(listing[..i])))
    requires refused == RefusedIn(listing[..i]) + if listing[i].pid.Some? && listing[i].fds == Refused then 1 else 0
    requires forall ino :: ino in after <==> ino in before || Holds(listing, i, ino)
    requires forall ino ::
      ino in after ==> if Holds(listing, i, ino) then Some(after[ino]) == listing[i].pid else after[ino] == before[ino]
    ensures Surveyed(listing[..i + 1], Walk(after, refused))
  {
    assert listing[..i + 1][..i] == listing[..i];
    forall ino
      ensures HolderIn(listing[..i + 1], ino) == if ino in after then Some(after[ino]) else None
    {
      assert Holds(listing[..i + 1], i, ino) <==> Holds(listing, i, ino);
    }
  }

  lemma InodeStep(raws: seq<Raw>, i: nat)
    requires i < |raws|
    ensures forall ino :: InodePresent(raws[..i + 1], ino) <==>
      InodePresent(raws[..i], ino) || (ino != 0 && ino == raws[i].inode)
  {
    assert raws[..i + 1] == raws[..i] + [raws[i]];
    forall ino
      ensures InodePresent(raws[..i + 1], ino) <==> InodePresent(raws[..i], ino) || (ino != 0 && ino == raws[i].inode)
    {
      assert forall j :: 0 <= j < i ==> raws[..i + 1][j] == raws[..i][j];
      assert raws[..i + 1][i] == raws[i];
    }
  }
}
