/** Per-socket UDP totals from the kernel-side map (udpstats.go). Totals are
    kept in bytes, where the program divides each increment by 1024. */
module UdpStats {
  import opened Common
  import opened Conns
  import opened Counters
  import opened SocketKeys

  const FORGET_AFTER: int := 60 * SECOND

  /** One entry of the kernel map: bytes sent and received. */
  datatype Val = Val(tx: nat, rx: nat)

  type KernelMap = map<UdpKey, Val>

  datatype Traffic = Traffic(up: nat, down: nat, lastSeen: Time)

  datatype State = State(prev: map<string, Val>, cum: map<string, Traffic>, primed: bool)

  const INITIAL: State := State(map[], map[], false)

  predicate IsWord(v: Val) {
    v.tx < WORD && v.rx < WORD
  }

  /** What a reading adds for one socket. A counter that went backwards in
      either direction adds nothing in both. */
  function Increment(prev: map<string, Val>, id: string, cnt: Val): Val {
    if id !in prev then cnt
    else
      var was := prev[id];
      if cnt.tx < was.tx || cnt.rx < was.rx then Val(0, 0) else Val(cnt.tx - was.tx, cnt.rx - was.rx)
  }

  function Base(cum: map<string, Traffic>, id: string): Val {
    if id in cum then Val(cum[id].up, cum[id].down) else Val(0, 0)
  }

  /** How a key is written: udpUdpKey.id. */
  type Render = UdpKey -> string

  /** `cur` is a reading of the kernel map under the sockets' rendered keys.
      Where two keys render alike, either may have been the last. */
  ghost predicate Rendered(id: Render, kernel: KernelMap, cur: map<string, Val>) {
    && (forall k :: k in kernel ==> id(k) in cur)
    && (forall i :: i in cur ==> exists k :: k in kernel && id(k) == i && cur[i] == kernel[k])
  }

  /** One reading folded in. The first one only sets the baseline. */
  ghost predicate Folded(s: State, cur: map<string, Val>, now: Time, s': State) {
    && s'.primed
    && s'.prev == cur
    && if !s.primed then s'.cum == s.cum
       else
         && (forall id :: id in s'.cum <==>
               id in cur || (id in s.cum && now - s.cum[id].lastSeen <= FORGET_AFTER))
         && (forall id :: id in s'.cum ==>
               s'.cum[id] == if id in cur then Grown(s.prev, s.cum, id, cur[id], now) else s.cum[id])
  }

  /** A socket's running total after a reading. */
  function Grown(prev: map<string, Val>, cum: map<string, Traffic>, id: string, cnt: Val, now: Time): Traffic {
    var inc := Increment(prev, id, cnt);
    Traffic(Base(cum, id).tx + inc.tx, Base(cum, id).rx + inc.rx, now)
  }

  ghost predicate Accumulated(prev: map<string, Val>, cum: map<string, Traffic>, cur: map<string, Val>, now: Time,
                              cum': map<string, Traffic>)
  {
    && (forall id :: id in cum' <==> id in cum || id in cur)
    && (forall id :: id in cum' ==> cum'[id] == if id in cur then Grown(prev, cum, id, cur[id], now) else cum[id])
  }

  ghost predicate Purged(cum: map<string, Traffic>, cur: map<string, Val>, now: Time, cum': map<string, Traffic>) {
    && (forall id :: id in cum' <==> id in cum && (id in cur || now - cum[id].lastSeen <= FORGET_AFTER))
    && (forall id :: id in cum' ==> cum'[id] == cum[id])
  }

  lemma FoldedInTwo(s: State, cur: map<string, Val>, now: Time, grown: map<string, Traffic>, kept: map<string, Traffic>)
    requires s.primed && Accumulated(s.prev, s.cum, cur, now, grown) && Purged(grown, cur, now, kept)
    ensures Folded(s, cur, now, State(cur, kept, true))
  {
  }

  predicate IsUdp(c: Conn) {
    |c.proto| >= 3 && c.proto[..3] == "udp"
  }

  /** A UDP row with the totals of its own socket, if there are any. */
  function Filled(cum: map<string, Traffic>, c: Conn): Conn {
    match if IsUdp(c) then ConnUDPKey(c.laddr, c.lport, c.raddr, c.rport) else None
    case Some(sock) => if sock in cum then c.(up := cum[sock].up, down := cum[sock].down) else c
    case None => c
  }

  ghost predicate AllWords(m: map<string, Val>) {
    forall id :: id in m ==> IsWord(m[id])
  }

  class UDPStats {
    var prev: map<string, Val>
    var cum: map<string, Traffic>
    var primed: bool
    const id: Render

    constructor (id: Render)
      ensures this.id == id && View() == INITIAL
    {
      this.id := id;
      prev, cum, primed := map[], map[], false;
    }

    function View(): State
      reads this
    {
      State(prev, cum, primed)
    }

    /** Reads the kernel map, folds it in and fills the rows. An iteration that
        fails changes nothing; the first one fills no rows. */
    method Apply(kernel: Option<KernelMap>, now: Time, rows: array<Conn>) returns (ghost cur: map<string, Val>)
      requires kernel.Some? ==> forall k :: k in kernel.value ==> IsWord(kernel.value[k])
      requires AllWords(prev)
      modifies this, rows
      ensures AllWords(prev)
      ensures kernel.None? ==> View() == old(View())
      ensures kernel.Some? ==> Rendered(id, kernel.value, cur) && Folded(old(View()), cur, now, View())
      ensures kernel.None? || !old(primed) ==> rows[..] == old(rows[..])
      ensures kernel.Some? && old(primed) ==> forall i :: 0 <= i < rows.Length ==> rows[i] == Filled(cum, old(rows[i]))
    {
      cur := map[];
      if kernel.None? {
        return;
      }
      var reading := Iterate(kernel.value);
      cur := reading;
      if !primed {
        prev, primed := reading, true;
        return;
      }
      ghost var before := View();
      Accumulate(reading, now);
      ghost var grown := this.cum;
      Purge(reading, now);
      Fill(rows);
      prev := reading;
      FoldedInTwo(before, reading, now, grown, this.cum);
    }

    method Fill(rows: array<Conn>)
      modifies rows
      ensures forall i :: 0 <= i < rows.Length ==> rows[i] == Filled(cum, old(rows[i]))
    {
      for i := 0 to rows.Length
        invariant forall j :: 0 <= j < i ==> rows[j] == Filled(cum, old(rows[j]))
        invariant forall j :: i <= j < rows.Length ==> rows[j] == old(rows[j])
      {
        var c := FillRow(rows[i]);
        rows[i] := c;
      }
    }

    method FillRow(c: Conn) returns (r: Conn)
      ensures r == Filled(cum, c)
    {
      r := c;
      if IsUdp(c) {
        var sock := ConnUDPKey(c.laddr, c.lport, c.raddr, c.rport);
        if sock.Some? && sock.value in cum {
          r := c.(up := cum[sock.value].up, down := cum[sock.value].down);
        }
      }
    }

    method Iterate(kernel: KernelMap) returns (cur: map<string, Val>)
      requires forall k :: k in kernel ==> IsWord(kernel[k])
      ensures Rendered(id, kernel, cur)
      ensures AllWords(cur)
    {
      cur := map[];
      var todo := kernel.Keys;
      while todo != {}
        invariant todo <= kernel.Keys
        invariant forall k :: k in kernel && k !in todo ==> id(k) in cur
        invariant forall i :: i in cur ==> exists k :: k in kernel && id(k) == i && cur[i] == kernel[k]
        decreases todo
      {
        var k :| k in todo;
        todo := todo - {k};
        cur := cur[id(k) := kernel[k]];
      }
    }

    /** Adds the increments of every socket the map knows. */
    method Accumulate(cur: map<string, Val>, now: Time)
      requires AllWords(cur) && AllWords(prev)
      modifies this`cum
      ensures Accumulated(prev, old(cum), cur, now, cum)
    {
      var todo := cur.Keys;
      while todo != {}
        invariant todo <= cur.Keys
        invariant forall sock :: sock in cum <==> sock in old(cum) || (sock in cur && sock !in todo)
        invariant forall sock :: sock in cum ==>
          cum[sock] ==
            if sock in cur && sock !in todo then Grown(prev, old(cum), sock, cur[sock], now) else old(cum)[sock]
        decreases todo
      {
        var sock :| sock in todo;
        todo := todo - {sock};
        var inc := Delta(sock, cur[sock]);
        var e := if sock in cum then cum[sock] else Traffic(0, 0, now);
        cum := cum[sock := Traffic(e.up + inc.tx, e.down + inc.rx, now)];
      }
    }

    /** The increment, on words that wrap. */
    method Delta(sock: string, cnt: Val) returns (inc: Val)
      requires IsWord(cnt) && (sock in prev ==> IsWord(prev[sock]))
      ensures inc == Increment(prev, sock, cnt)
    {
      var was := if sock in prev then prev[sock] else Val(0, 0);
      var dtx, drx := (cnt.tx - was.tx) % WORD, (cnt.rx - was.rx) % WORD;
      if sock !in prev {
        dtx, drx := cnt.tx, cnt.rx;
      } else if cnt.tx < was.tx || cnt.rx < was.rx {
        dtx, drx := 0, 0;
      } else {
        WrapIsNeverCredited(was.tx, cnt.tx);
        WrapIsNeverCredited(was.rx, cnt.rx);
      }
      inc := Val(dtx, drx);
    }

    /** Forgets the sockets the map dropped a minute ago. */
    method Purge(cur: map<string, Val>, now: Time)
      modifies this`cum
      ensures Purged(old(cum), cur, now, cum)
    {
      var todo := cum.Keys;
      while todo != {}
        invariant todo <= cum.Keys <= old(cum).Keys
        invariant forall sock :: sock in cum ==> cum[sock] == old(cum)[sock]
        invariant forall sock :: sock in old(cum) && sock !in todo ==>
          (sock in cum <==> sock in cur || now - old(cum)[sock].lastSeen <= FORGET_AFTER)
        decreases todo
      {
        var sock :| sock in todo;
        todo := todo - {sock};
        if sock !in cur && now - cum[sock].lastSeen > FORGET_AFTER {
          cum := cum - {sock};
        }
      }
    }
  }
}
