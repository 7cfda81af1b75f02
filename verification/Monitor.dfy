/** The tick loop (main.go): scan, annotate, track, annotate the ghosts again,
    over the components' own objects. */
module Monitor {
  import opened Common
  import opened Conns
  import opened Net
  import opened Rules
  import opened RuleBook
  import opened RuleLaws
  import opened SkippedLookups
  import opened Pipeline

  const NO_RUN := Run([Scanner.INITIAL], [], [Ghosts.INITIAL], [])

  function Grown(run: Run, s: Scanner.State, p: Scanner.Pass, g: Ghosts.State, t: Ghosts.Tick): Run {
    Run(run.scans + [s], run.passes + [p], run.tables + [g], run.ticks + [t])
  }

  /** The states the run has led to, and no tick later than this. */
  ghost predicate LeadsTo(run: Run, s: Scanner.State, g: Ghosts.State, latest: Time) {
    && IsRun(run)
    && run.scans[|run.passes|] == s && run.tables[|run.ticks|] == g
    && forall k :: 0 <= k < |run.ticks| ==> run.ticks[k].now <= latest
  }

  /** What a scan is made over: the socket tables, the entries of /proc, None if
      they cannot be listed, and the names of processes. */
  datatype Sight = Sight(raws: seq<Scanner.Raw>, listing: Option<seq<Scanner.ProcEntry>>, names: int -> Scanner.Names)

  ghost predicate ScannedFrom(p: Scanner.Pass, sight: Sight) {
    && p.raws == sight.raws && p.names == sight.names
    && (p.walked ==>
          if sight.listing.Some? then p.walk.Some? && Scanner.Surveyed(sight.listing.value, p.walk.value)
          else p.walk.None?)
  }

  /** `more` is the run with one more tick, over what was seen and with this
      window. */
  ghost predicate OneMore(run: Run, more: Run, sight: Sight, ttl: int) {
    exists s, p, g, t :: more == Grown(run, s, p, g, t) && ScannedFrom(p, sight) && t.ttl == ttl
  }

  /** A run may go on with one more tick. */
  lemma RunGrows(run: Run, s0: Scanner.State, g0: Ghosts.State, s: Scanner.State, p: Scanner.Pass, g: Ghosts.State,
                 t: Ghosts.Tick, sight: Sight)
    requires LeadsTo(run, s0, g0, t.now) && Fed(p, t.live) && ScannedFrom(p, sight)
    requires Scanner.ScanStep(s0, p, s)
    requires 0 <= t.ttl <= Ghosts.MAX_GHOST_TTL && Ghosts.TrackStep(g0, t, g)
    ensures LeadsTo(Grown(run, s, p, g, t), s, g, t.now)
    ensures OneMore(run, Grown(run, s, p, g, t), sight, t.ttl)
  {
    ScanHistory.RunGrows(run.scans, run.passes, p, s);
    GhostHistory.RunGrows(run.tables, run.ticks, t, g);
    FedGrows(run.passes, run.ticks, p, t);
    ClockGrows(run.ticks, t);
  }

  lemma FedGrows(passes: seq<Scanner.Pass>, ticks: seq<Ghosts.Tick>, p: Scanner.Pass, t: Ghosts.Tick)
    requires |passes| == |ticks| && Fed(p, t.live)
    requires forall k :: 0 <= k < |ticks| ==> Fed(passes[k], ticks[k].live)
    ensures forall k :: 0 <= k < |ticks| + 1 ==> Fed((passes + [p])[k], (ticks + [t])[k].live)
  {
  }

  lemma ClockGrows(ticks: seq<Ghosts.Tick>, t: Ghosts.Tick)
    requires GhostHistory.Clocked(ticks) && forall k :: 0 <= k < |ticks| ==> ticks[k].now <= t.now
    ensures GhostHistory.Clocked(ticks + [t])
    ensures forall k :: 0 <= k < |ticks| + 1 ==> (ticks + [t])[k].now <= t.now
  {
  }

  lemma LeadsLater(run: Run, s: Scanner.State, g: Ghosts.State, earlier: Time, later: Time)
    requires LeadsTo(run, s, g, earlier) && earlier <= later
    ensures LeadsTo(run, s, g, later)
  {
  }

  /** Neither looking names up nor annotating touches the attribution. */
  lemma AnnotatingKeepsAttribution(text: Text, t: Tables, c: Conn)
    ensures SameAttribution(c, Annotated(text, t, c))
  {
    AnnotatedHide(text, t, c);
  }

  lemma PreparingKeepsAttribution(text: Text, t: Tables, c: Conn, remote: Found, local: Found)
    ensures SameAttribution(c, Prepared(text, t, c, remote, local))
  {
    var d := RemoteEnd(text, t, c, remote, false);
    RemoteSkipped(text, t, c, remote);
    LocalSkipped(text, t, d, d, local);
  }

  /** The rules as they now stand would not change the row. */
  predicate UpToDate(text: Text, t: Tables, c: Conn) {
    Annotated(text, t, c) == c
  }

  /** The row with its annotation brought up to date, and nothing else. */
  predicate Refreshed(text: Text, t: Tables, c: Conn, r: Conn) {
    SameAttribution(c, r) && UpToDate(text, t, r)
  }

  lemma AnnotatedIsRefreshed(text: Text, t: Tables, c: Conn)
    ensures Refreshed(text, t, c, Annotated(text, t, c))
  {
    AnnotatingKeepsAttribution(text, t, c);
    ApplyTwice(text, t, c);
  }

  /** The names and both ends of a row. */
  predicate SameNames(a: Conn, b: Conn) {
    && a.proto == b.proto && a.laddr == b.laddr && a.lport == b.lport && a.raddr == b.raddr && a.rport == b.rport
    && a.host == b.host && a.owner == b.owner && a.lhost == b.lhost && a.lowner == b.lowner
  }

  /** A scanned row named and annotated. */
  function Finished(text: Text, t: Tables, c: Conn, remote: Found, local: Found): Conn {
    Annotated(text, t, Prepared(text, t, c, remote, local))
  }

  lemma PreparedIsRefreshed(text: Text, t: Tables, c: Conn, remote: Found, local: Found)
    ensures Refreshed(text, t, c, Finished(text, t, c, remote, local))
  {
    var prepared := Prepared(text, t, c, remote, local);
    PreparingKeepsAttribution(text, t, c, remote, local);
    AnnotatedIsRefreshed(text, t, prepared);
  }

  // ---- what a row is sent with ----

  /** No alias rule in force names the address. */
  ghost predicate Unnamed(text: Text, lists: Lists, addr: string) {
    match text.addr(addr)
    case None => true
    case Some(ip) => forall j :: 0 <= j < |lists.aliases| ==> !AliasNetMatches(text, lists.aliases[j], ip)
  }

  /** The names one end came out with: what the lookups said, the holder only
      when there is no host, if the end was looked up; else what it had. */
  predicate EndNamed(asked: bool, f: Found, host: string, owner: string, host': string, owner': string) {
    if asked then host' == f.host && owner' == if f.host == "" then f.owner else owner
    else host' == host && owner' == owner
  }

  /** The row is the one decoded, named by the lookups at each end that no alias
      rule names and no interface of this host has, and annotated as the stored
      rules say. */
  ghost predicate Presented(text: Text, lists: Lists, decoded: Conn, remote: Found, local: Found, r: Conn) {
    && r.proto == decoded.proto
    && r.laddr == decoded.laddr && r.lport == decoded.lport && r.raddr == decoded.raddr && r.rport == decoded.rport
    && EndNamed(Unnamed(text, lists, decoded.raddr) && remote.iface == "", remote,
                decoded.host, decoded.owner, r.host, r.owner)
    && EndNamed(Unnamed(text, lists, decoded.laddr) && local.iface == "", local,
                decoded.lhost, decoded.lowner, r.lhost, r.lowner)
    && AliasIs(text, lists.aliases, text.addr(r.raddr), "", [r.owner, r.host, r.raddr], r.alias)
    && AliasIs(text, lists.aliases, text.addr(r.laddr), "", [r.lowner, r.lhost, r.laddr], r.lalias)
    && (r.hide <==> IsHidden(text, lists, r))
  }

  /** The first rows are the socket tables' own, in order. */
  ghost predicate AllPresented(text: Text, lists: Lists, raws: seq<Scanner.Raw>, remote: nat -> Found,
                               local: nat -> Found, rows: seq<Conn>)
  {
    |raws| <= |rows| &&
    forall i :: 0 <= i < |raws| ==> Presented(text, lists, raws[i].decoded, remote(i), local(i), rows[i])
  }

  predicate DeadFrom(rows: seq<Conn>, from: nat) {
    forall i :: from <= i < |rows| ==> IsDead(rows[i])
  }

  /** All rows from here on are shown as disconnected. */
  predicate GhostsFrom(rows: seq<Conn>, from: nat) {
    forall i :: from <= i < |rows| ==> rows[i].state == Disconnected
  }

  /** The stored rules would change none of them. */
  ghost predicate AllUpToDate(text: Text, lists: Lists, rows: seq<Conn>) {
    forall i :: 0 <= i < |rows| ==> UpToDate(text, Compiled(text, lists), rows[i])
  }

  lemma UnnamedExactly(text: Text, lists: Lists, addr: string)
    ensures NetAlias(Compiled(text, lists), text.addr(addr)) == "" <==> Unnamed(text, lists, addr)
  {
    if text.addr(addr).Some? {
      BestNetIsDirect(text, lists.aliases, text.addr(addr).value);
    }
  }

  /** An alias the address rules gave beforehand makes no difference. */
  lemma NetAliasGiven(text: Text, lists: Lists, ip: Option<Addr>, names: seq<string>, name: string)
    requires AliasIs(text, lists.aliases, ip, NetAlias(Compiled(text, lists), ip), names, name)
    ensures AliasIs(text, lists.aliases, ip, "", names, name)
  {
    if ip.Some? {
      NetAliasIsDirect(text, lists, ip.value);
    }
    assert NetPart(text, lists.aliases, ip, NetAlias(Compiled(text, lists), ip));
  }

  lemma FinishedIsPresented(text: Text, lists: Lists, c: Conn, remote: Found, local: Found)
    ensures Presented(text, lists, c, remote, local, Finished(text, Compiled(text, lists), c, remote, local))
  {
    var t := Compiled(text, lists);
    var p := Prepared(text, t, c, remote, local);
    CompiledIsDirect(text, lists, p);
    var r := Annotated(text, t, p);
    UnnamedExactly(text, lists, c.raddr);
    UnnamedExactly(text, lists, c.laddr);
    PreparedEnds(text, t, c, remote, local);
    AnnotatedHide(text, t, p);
    NetAliasGiven(text, lists, text.addr(c.raddr), [p.owner, p.host, p.raddr], r.alias);
    NetAliasGiven(text, lists, text.addr(c.laddr), [p.lowner, p.lhost, p.laddr], r.lalias);
  }

  lemma PreparedEnds(text: Text, t: Tables, c: Conn, remote: Found, local: Found)
    ensures var p := Prepared(text, t, c, remote, local);
      && p == c.(alias := p.alias, lalias := p.lalias, host := p.host, owner := p.owner, lhost := p.lhost,
                 lowner := p.lowner)
      && p.alias == NetAlias(t, text.addr(c.raddr)) && p.lalias == NetAlias(t, text.addr(c.laddr))
      && EndNamed(p.alias == "" && remote.iface == "", remote, c.host, c.owner, p.host, p.owner)
      && EndNamed(p.lalias == "" && local.iface == "", local, c.lhost, c.lowner, p.lhost, p.lowner)
  {
  }

  /** Attributing a row does not change how it is presented. */
  lemma AttributingKeepsPresented(text: Text, lists: Lists, decoded: Conn, remote: Found, local: Found,
                                  m: LastOwner.Memory, c: Conn, w: LastOwner.Window, r: Conn)
    requires Ghosts.LiveRow(m, c, w, r) && Presented(text, lists, decoded, remote, local, c)
    ensures Presented(text, lists, decoded, remote, local, r)
  {
    Ghosts.NamingKeepsRecord(m, c, w, r);
    HiddenByRecord(text, lists, c, r);
  }

  lemma HiddenByRecord(text: Text, lists: Lists, c: Conn, r: Conn)
    requires SameRecord(c, r)
    ensures IsHidden(text, lists, c) <==> IsHidden(text, lists, r)
  {
  }

  /** Nor does attributing a row undo its annotation. */
  lemma AttributingKeepsUpToDate(text: Text, t: Tables, m: LastOwner.Memory, c: Conn, w: LastOwner.Window, r: Conn)
    requires Ghosts.LiveRow(m, c, w, r) && UpToDate(text, t, c)
    ensures UpToDate(text, t, r)
  {
    var a := Annotated(text, t, c);
    assert r.(pid := c.pid, comm := c.comm, app := c.app, inherit := c.inherit, wasPid := c.wasPid) == c;
    assert HiddenBy(text, t, r.(hide := c.hide)) == HiddenBy(text, t, a);
  }

  /** What the clients are sent after the last tick of the run: the rows
      tracked, then the ghosts, none changed in who owns it. */
  ghost predicate Ships(run: Run, shipped: seq<Conn>)
    requires IsRun(run) && |run.ticks| > 0
  {
    exists out: seq<Conn> :: Tracked(run, out) && |shipped| == |out| &&
      forall i :: 0 <= i < |out| ==> SameAttribution(out[i], shipped[i])
  }

  ghost predicate Tracked(run: Run, out: seq<Conn>)
    requires IsRun(run) && |run.ticks| > 0
  {
    var n := |run.ticks|;
    Ghosts.Appended(run.ticks[n - 1].rows, run.ticks[n - 1].order, run.tables[n].dead, out)
  }

  lemma ShipsTracked(run: Run, out: seq<Conn>, shipped: seq<Conn>)
    requires IsRun(run) && |run.ticks| > 0 && Tracked(run, out)
    requires |shipped| == |out| && forall i :: 0 <= i < |out| ==> SameAttribution(out[i], shipped[i])
    ensures Ships(run, shipped)
  {
  }

  /** The row sent says what the row scanned, or the last owner, said. */
  lemma ShippedNameOutlivesProcess(run: Run, shipped: seq<Conn>, id: string, k: nat, i: nat, r: nat)
    requires IsRun(run) && |run.ticks| > 0 && Ships(run, shipped)
    requires Attribution.OwnerRow(run.ticks, |run.ticks|, id, k, i)
    requires run.ticks[|run.ticks| - 1].now - run.ticks[k].now <= LastOwner.LAST_OWNER_TTL
    requires Unbroken(run, id, k, |run.ticks|)
    requires r < |shipped| && shipped[r].id == id
    ensures var scanned := run.ticks[|run.ticks| - 1].live;
      if r < |scanned| && HasOwner(scanned[r]) then SameAttribution(scanned[r], shipped[r])
      else Attribution.SameName(shipped[r], run.ticks[k].live[i])
  {
    var out :| Tracked(run, out) && |shipped| == |out| &&
      forall i :: 0 <= i < |out| ==> SameAttribution(out[i], shipped[i]);
    NameOutlivesProcess(run, |run.ticks|, id, k, i, out, r);
  }

  class Monitor {
    const scanner: Scanner.SocketScanner
    const rules: Book
    const ghosts: Ghosts.GhostTable
    ghost var run: Run

    constructor (clock: Scanner.Clock, procs: LastOwner.ProcTable, rules: Book, ttl: int)
      requires rules.Valid() && Scanner.Nondecreasing(clock.readings)
      ensures Valid() && run == NO_RUN && this.rules == rules
    {
      scanner := new Scanner.SocketScanner(clock);
      ghosts := new Ghosts.GhostTable(ttl, procs);
      this.rules := rules;
      run := NO_RUN;
    }

    /** The objects stand where the run of all ticks so far has led. */
    ghost predicate Valid()
      reads this, scanner, scanner.clock, ghosts, ghosts.owners
      reads rules, rules.aliases, rules.hidden, rules.excluded, rules.aliases.data, rules.hidden.data,
        rules.excluded.data
    {
      && rules.Valid() && Scanner.Nondecreasing(scanner.clock.readings)
      && 0 <= ghosts.ttl <= Ghosts.MAX_GHOST_TTL
      && LeadsTo(run, scanner.View(), ghosts.View(), scanner.clock.readings(scanner.clock.reading))
      && Ghosts.AllDead(ghosts.dead)
    }

    /** One tick. Rows are only annotated and sent when somebody watches; the
        ghosts are tracked in any case. */
    method Tick(raws: seq<Scanner.Raw>, listing: Option<seq<Scanner.ProcEntry>>, names: int -> Scanner.Names,
                watched: bool, remote: nat -> Found, local: nat -> Found) returns (shipped: seq<Conn>)
      requires Valid()
      modifies this`run, scanner, scanner.clock, ghosts`prev, ghosts`dead, ghosts.owners`m, ghosts.owners.procs
      ensures Valid() && ghosts.ttl == old(ghosts.ttl)
      ensures OneMore(old(run), run, Sight(raws, listing, names), ghosts.ttl)
      ensures watched ==> Ships(run, shipped) && AllUpToDate(rules.text, rules.Stored(), shipped)
      ensures watched ==> AllPresented(rules.text, rules.Stored(), raws, remote, local, shipped)
      ensures watched ==> GhostsFrom(shipped, |raws|)
    {
      ghost var s0, began := scanner.View(), scanner.clock.readings(scanner.clock.reading);
      ghost var lists := rules.Stored();
      var live, pass := Observe(raws, listing, names, watched, remote, local, lists);
      LeadsLater(run, s0, ghosts.View(), began, scanner.clock.readings(scanner.clock.reading));
      shipped := FollowAndShip(live, s0, pass, Sight(raws, listing, names), watched, lists, remote, local, live[..]);
    }

    /** The stored rules are these, and compiled. */
    ghost predicate RulesStand(lists: Lists)
      reads rules, rules.aliases, rules.hidden, rules.excluded, rules.aliases.data, rules.hidden.data,
        rules.excluded.data
    {
      rules.Valid() && rules.Stored() == lists
    }

    method FollowAndShip(live: array<Conn>, ghost s0: Scanner.State, ghost pass: Scanner.Pass, ghost sight: Sight,
                         watched: bool, ghost lists: Lists, ghost remote: nat -> Found, ghost local: nat -> Found,
                         ghost given: seq<Conn>)
      returns (shipped: seq<Conn>)
      requires RulesStand(lists) && Scanner.Nondecreasing(scanner.clock.readings)
      requires 0 <= ghosts.ttl <= Ghosts.MAX_GHOST_TTL && Ghosts.AllDead(ghosts.dead)
      requires LeadsTo(run, s0, ghosts.View(), scanner.clock.readings(scanner.clock.reading))
      requires Scanner.ScanStep(s0, pass, scanner.View()) && Fed(pass, live[..]) && ScannedFrom(pass, sight)
      requires live[..] == given
      requires watched ==> AllUpToDate(rules.text, lists, given)
      requires watched ==> AllPresented(rules.text, lists, sight.raws, remote, local, given)
      modifies this`run, scanner.clock, ghosts`prev, ghosts`dead, ghosts.owners`m, ghosts.owners.procs, live
      ensures Valid() && RulesStand(lists) && OneMore(old(run), run, sight, ghosts.ttl)
      ensures watched ==> Ships(run, shipped) && AllUpToDate(rules.text, lists, shipped)
      ensures watched ==> AllPresented(rules.text, lists, sight.raws, remote, local, shipped)
      ensures watched ==> GhostsFrom(shipped, |sight.raws|)
    {
      var out, t := Follow(live, s0, pass, sight);
      shipped := out;
      if watched {
        shipped := Ship(out, live.Length, t, lists, sight.raws, remote, local);
      }
    }

    /** Sends the rows; nothing else happens. */
    method Ship(out: seq<Conn>, from: nat, ghost t: Ghosts.Tick, ghost lists: Lists, ghost raws: seq<Scanner.Raw>,
                ghost remote: nat -> Found, ghost local: nat -> Found) returns (shipped: seq<Conn>)
      requires Valid() && RulesStand(lists) && |run.ticks| > 0 && Tracked(run, out)
      requires from == |t.rows| == |raws| <= |out| && out[..from] == t.rows && DeadFrom(out, from)
      requires Ghosts.RowsResolved(ghosts.owners.m, t.live, t.window, t.rows)
      requires AllUpToDate(rules.text, lists, t.live) && AllPresented(rules.text, lists, raws, remote, local, t.live)
      ensures Valid() && RulesStand(lists) && Ships(run, shipped) && GhostsFrom(shipped, from)
      ensures AllUpToDate(rules.text, lists, shipped) && AllPresented(rules.text, lists, raws, remote, local, shipped)
    {
      shipped := Refresh(out, from, t, ghosts.owners.m, lists, raws, remote, local);
    }

    /** Brings the ghosts up to date with the rules; the live rows are already. */
    method Refresh(out: seq<Conn>, from: nat, ghost t: Ghosts.Tick, ghost m: LastOwner.Memory, ghost lists: Lists,
                   ghost raws: seq<Scanner.Raw>, ghost remote: nat -> Found, ghost local: nat -> Found)
      returns (shipped: seq<Conn>)
      requires RulesStand(lists) && IsRun(run) && |run.ticks| > 0 && Tracked(run, out)
      requires from == |t.rows| == |raws| <= |out| && out[..from] == t.rows && DeadFrom(out, from)
      requires Ghosts.RowsResolved(m, t.live, t.window, t.rows)
      requires AllUpToDate(rules.text, lists, t.live) && AllPresented(rules.text, lists, raws, remote, local, t.live)
      ensures Ships(run, shipped) && GhostsFrom(shipped, from)
      ensures AllUpToDate(rules.text, lists, shipped) && AllPresented(rules.text, lists, raws, remote, local, shipped)
    {
      LiveUpToDate(t, m, out);
      shipped := Reannotate(out, from);
      LivePresented(raws, remote, local, t, m, shipped);
      ShipsTracked(run, out, shipped);
    }

    /** Tracks the scanned rows; the run goes on by that tick. */
    method Follow(live: array<Conn>, ghost s0: Scanner.State, ghost pass: Scanner.Pass, ghost sight: Sight)
      returns (out: seq<Conn>, ghost t: Ghosts.Tick)
      requires 0 <= ghosts.ttl <= Ghosts.MAX_GHOST_TTL && Scanner.Nondecreasing(scanner.clock.readings)
      requires LeadsTo(run, s0, ghosts.View(), scanner.clock.readings(scanner.clock.reading))
      requires Scanner.ScanStep(s0, pass, scanner.View()) && Fed(pass, live[..]) && ScannedFrom(pass, sight)
      requires Ghosts.AllDead(ghosts.dead)
      modifies this`run, scanner.clock, ghosts`prev, ghosts`dead, ghosts.owners`m, ghosts.owners.procs, live
      ensures LeadsTo(run, scanner.View(), ghosts.View(), scanner.clock.readings(scanner.clock.reading))
      ensures OneMore(old(run), run, sight, ghosts.ttl) && Tracked(run, out)
      ensures Ghosts.AllDead(ghosts.dead) && DeadFrom(out, |t.rows|)
      ensures t.live == old(live[..]) && Ghosts.RowsResolved(ghosts.owners.m, t.live, t.window, t.rows)
      ensures |t.rows| <= |out| && out[..|t.rows|] == t.rows
    {
      ghost var g0 := ghosts.View();
      var now := scanner.clock.Now();
      out, t := ghosts.Track(live, now);
      RunGrows(run, s0, g0, scanner.View(), pass, ghosts.View(), t, sight);
      run := Grown(run, scanner.View(), pass, ghosts.View(), t);
      LeadsLater(run, scanner.View(), ghosts.View(), now, scanner.clock.readings(scanner.clock.reading));
    }

    /** Scans and, if somebody watches, annotates. */
    method Observe(raws: seq<Scanner.Raw>, listing: Option<seq<Scanner.ProcEntry>>, names: int -> Scanner.Names,
                   watched: bool, remote: nat -> Found, local: nat -> Found, ghost lists: Lists)
      returns (live: array<Conn>, ghost pass: Scanner.Pass)
      requires RulesStand(lists) && Scanner.Nondecreasing(scanner.clock.readings)
      modifies scanner, scanner.clock
      ensures fresh(live) && old(scanner.clock.reading) <= scanner.clock.reading
      ensures ScannedFrom(pass, Sight(raws, listing, names))
      ensures Scanner.ScanStep(old(scanner.View()), pass, scanner.View())
      ensures Fed(pass, live[..]) && live.Length == |raws|
      ensures RulesStand(lists)
      ensures watched ==> AllUpToDate(rules.text, lists, live[..])
      ensures watched ==> AllPresented(rules.text, lists, raws, remote, local, live[..])
    {
      live, pass := ScanRows(raws, listing, names);
      if watched {
        Annotate(live, remote, local);
        RowsFinished(raws, pass, live[..], remote, local);
      }
    }

    method ScanRows(raws: seq<Scanner.Raw>, listing: Option<seq<Scanner.ProcEntry>>, names: int -> Scanner.Names)
      returns (live: array<Conn>, ghost pass: Scanner.Pass)
      requires Scanner.Nondecreasing(scanner.clock.readings)
      modifies scanner, scanner.clock
      ensures fresh(live) && old(scanner.clock.reading) <= scanner.clock.reading
      ensures ScannedFrom(pass, Sight(raws, listing, names))
      ensures Scanner.ScanStep(old(scanner.View()), pass, scanner.View())
      ensures live[..] == pass.rows && |pass.rows| == |raws|
      ensures forall i :: 0 <= i < |raws| ==> SameNames(raws[i].decoded, pass.rows[i])
    {
      var rows;
      rows, pass := scanner.Scan(raws, listing, names);
      live := new Conn[|rows|](i requires 0 <= i < |rows| => rows[i]);
      assert live[..] == rows;
    }

    /** The rows as annotated, against the rows as decoded. */
    lemma RowsFinished(raws: seq<Scanner.Raw>, pass: Scanner.Pass, live: seq<Conn>, remote: nat -> Found,
                       local: nat -> Found)
      requires rules.Valid() && |live| == |pass.rows| == |raws|
      requires forall i :: 0 <= i < |raws| ==> SameNames(raws[i].decoded, pass.rows[i])
      requires forall i :: 0 <= i < |live| ==>
        live[i] == Finished(rules.text, rules.Compiles(), pass.rows[i], remote(i), local(i))
      ensures forall i :: 0 <= i < |live| ==> SameAttribution(pass.rows[i], live[i])
      ensures AllUpToDate(rules.text, rules.Stored(), live)
      ensures AllPresented(rules.text, rules.Stored(), raws, remote, local, live)
    {
      forall i | 0 <= i < |live|
        ensures SameAttribution(pass.rows[i], live[i]) && UpToDate(rules.text, rules.Compiles(), live[i])
        ensures Presented(rules.text, rules.Stored(), raws[i].decoded, remote(i), local(i), live[i])
      {
        PreparedIsRefreshed(rules.text, rules.Compiles(), pass.rows[i], remote(i), local(i));
        FinishedIsPresented(rules.text, rules.Stored(), pass.rows[i], remote(i), local(i));
      }
    }

    /** The live rows sent are presented as they were before tracking. */
    lemma LivePresented(raws: seq<Scanner.Raw>, remote: nat -> Found, local: nat -> Found, t: Ghosts.Tick,
                        m: LastOwner.Memory, shipped: seq<Conn>)
      requires Ghosts.RowsResolved(m, t.live, t.window, t.rows) && |t.live| == |raws| <= |shipped|
      requires shipped[..|t.rows|] == t.rows && rules.Shaped()
      requires AllPresented(rules.text, rules.Stored(), raws, remote, local, t.live)
      ensures AllPresented(rules.text, rules.Stored(), raws, remote, local, shipped)
    {
      forall i | 0 <= i < |raws|
        ensures Presented(rules.text, rules.Stored(), raws[i].decoded, remote(i), local(i), shipped[i])
      {
        AttributingKeepsPresented(rules.text, rules.Stored(), raws[i].decoded, remote(i), local(i), m,
                                  t.live[i], t.window, t.rows[i]);
        assert shipped[i] == shipped[..|t.rows|][i];
      }
    }

    /** The rows as tracked are as up to date as they were before. */
    lemma LiveUpToDate(t: Ghosts.Tick, m: LastOwner.Memory, out: seq<Conn>)
      requires Ghosts.RowsResolved(m, t.live, t.window, t.rows) && |t.rows| <= |out| && out[..|t.rows|] == t.rows
      requires forall i :: 0 <= i < |t.live| ==> UpToDate(rules.text, rules.Compiles(), t.live[i])
      ensures forall i :: 0 <= i < |t.rows| ==> UpToDate(rules.text, rules.Compiles(), out[i])
    {
      forall i | 0 <= i < |t.rows|
        ensures UpToDate(rules.text, rules.Compiles(), out[i])
      {
        AttributingKeepsUpToDate(rules.text, rules.Compiles(), m, t.live[i], t.window, t.rows[i]);
        assert out[i] == out[..|t.rows|][i];
      }
    }

    /** Names and annotates every scanned row. */
    method Annotate(live: array<Conn>, remote: nat -> Found, local: nat -> Found)
      requires rules.Valid()
      modifies live
      ensures forall i :: 0 <= i < live.Length ==>
        live[i] == Finished(rules.text, rules.Compiles(), old(live[i]), remote(i), local(i))
    {
      ghost var given := live[..];
      for i := 0 to live.Length
        invariant |given| == live.Length
        invariant forall j :: 0 <= j < i ==>
          live[j] == Finished(rules.text, rules.Compiles(), given[j], remote(j), local(j))
        invariant forall j :: i <= j < live.Length ==> live[j] == given[j]
      {
        AnnotateOne(live, i, remote(i), local(i));
      }
    }

    method AnnotateOne(live: array<Conn>, i: nat, remote: Found, local: Found)
      requires rules.Valid() && i < live.Length
      modifies live
      ensures live[..] == old(live[..])[i := Finished(rules.text, rules.Compiles(), old(live[i]), remote, local)]
    {
      Prepare(live, i, remote, local);
      rules.Apply(live, i);
    }

    /** The lookups for one row, skipped where the user's alias decides. */
    method Prepare(live: array<Conn>, i: nat, remote: Found, local: Found)
      requires i < live.Length
      modifies live
      ensures live[..] == old(live[..])[i := Prepared(rules.text, rules.Compiles(), old(live[i]), remote, local)]
    {
      PrepareRemote(live, i, remote);
      PrepareLocal(live, i, local);
    }

    method PrepareRemote(live: array<Conn>, i: nat, remote: Found)
      requires i < live.Length
      modifies live
      ensures live[..] == old(live[..])[i := RemoteEnd(rules.text, rules.Compiles(), old(live[i]), remote, false)]
    {
      var alias := rules.AliasFor(live[i].raddr);
      live[i] := live[i].(alias := alias);
      if alias == "" && remote.iface == "" {
        live[i] := live[i].(host := remote.host);
        if remote.host == "" {
          live[i] := live[i].(owner := remote.owner);
        }
      }
    }

    method PrepareLocal(live: array<Conn>, i: nat, local: Found)
      requires i < live.Length
      modifies live
      ensures live[..] == old(live[..])[i := LocalEnd(rules.text, rules.Compiles(), old(live[i]), local, false)]
    {
      var alias := rules.AliasFor(live[i].laddr);
      live[i] := live[i].(lalias := alias);
      if alias == "" && local.iface == "" {
        live[i] := live[i].(lhost := local.host);
        if local.host == "" {
          live[i] := live[i].(lowner := local.owner);
        }
      }
    }

    /** Annotates the rows from `from` on, by the rules as they stand now. */
    method Reannotate(out: seq<Conn>, from: nat) returns (shipped: seq<Conn>)
      requires rules.Valid() && from <= |out|
      requires forall i :: 0 <= i < from ==> UpToDate(rules.text, rules.Compiles(), out[i])
      ensures |shipped| == |out| && shipped[..from] == out[..from]
      ensures forall i ::
        0 <= i < |out| ==> SameAttribution(out[i], shipped[i]) && UpToDate(rules.text, rules.Compiles(), shipped[i])
    {
      var rows := new Conn[|out|](i requires 0 <= i < |out| => out[i]);
      AnnotateFrom(rows, from);
      shipped := rows[..];
    }

    method AnnotateFrom(rows: array<Conn>, from: nat)
      requires rules.Valid() && from <= rows.Length
      modifies rows
      ensures forall i :: 0 <= i < from ==> rows[i] == old(rows[i])
      ensures forall i :: from <= i < rows.Length ==> Refreshed(rules.text, rules.Compiles(), old(rows[i]), rows[i])
    {
      for i := from to rows.Length
        invariant forall j :: 0 <= j < from ==> rows[j] == old(rows[j])
        invariant forall j :: from <= j < i ==> Refreshed(rules.text, rules.Compiles(), old(rows[j]), rows[j])
        invariant forall j :: i <= j < rows.Length ==> rows[j] == old(rows[j])
      {
        AnnotatedIsRefreshed(rules.text, rules.Compiles(), rows[i]);
        rules.Apply(rows, i);
      }
    }

    /** The window the user asks for, in seconds, at any time between ticks. */
    method SetGhostSeconds(seconds: Ghosts.Int64)
      requires Valid()
      modifies ghosts`ttl
      ensures Valid() && run == old(run) && ghosts.ttl == Ghosts.WindowFor(seconds)
    {
      ghosts.SetTTL(Ghosts.ClampGhostTTL(Ghosts.Wrapped(seconds * 1_000_000_000)));
    }

    /** The user's edits of the rules, at any time between ticks. */
    method EditRules(change: Change)
      requires Valid()
      modifies rules.Repr()
      ensures Valid() && run == old(run)
      ensures rules.Stored() == Changed(rules.text, old(rules.Stored()), change)
    {
      rules.Make(change);
    }
  }
}
