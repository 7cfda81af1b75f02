/** The row loop of main.go: names are looked up only where the user has not
    named the address. What that changes, and what it cannot. */
module SkippedLookups {
  import opened Common
  import opened Conns
  import opened Net
  import opened RuleList
  import opened Rules
  import opened RuleLaws

  /** What the lookups would say of an address: the interface that carries it,
      its name, its holder. */
  datatype Found = Found(iface: string, host: string, owner: string)

  /** The names one end gets; a holder is only asked for when the name fails. */
  function Named(c: Conn, f: Found): Conn {
    if f.host == "" then c.(host := "", owner := f.owner) else c.(host := f.host)
  }

  function LocalNamed(c: Conn, f: Found): Conn {
    if f.host == "" then c.(lhost := "", lowner := f.owner) else c.(lhost := f.host)
  }

  /** One end of a row prepared: the alias the address rules give it, and names
      from lookups if it has none, or in any case. */
  function RemoteEnd(text: Text, t: Tables, c: Conn, f: Found, always: bool): Conn {
    var a := c.(alias := NetAlias(t, text.addr(c.raddr)));
    if (a.alias == "" || always) && f.iface == "" then Named(a, f) else a
  }

  function LocalEnd(text: Text, t: Tables, c: Conn, f: Found, always: bool): Conn {
    var a := c.(lalias := NetAlias(t, text.addr(c.laddr)));
    if (a.lalias == "" || always) && f.iface == "" then LocalNamed(a, f) else a
  }

  /** The row as the tick loop prepares it. */
  function Prepared(text: Text, t: Tables, c: Conn, remote: Found, local: Found): Conn {
    LocalEnd(text, t, RemoteEnd(text, t, c, remote, false), local, false)
  }

  /** The row as it would be if a user's alias skipped nothing. */
  function LookedUp(text: Text, t: Tables, c: Conn, remote: Found, local: Found): Conn {
    LocalEnd(text, t, RemoteEnd(text, t, c, remote, true), local, true)
  }

  /** What skipping does to an end that was given no name yet. */
  lemma RemoteSkipped(text: Text, t: Tables, c: Conn, f: Found)
    ensures var p, l := RemoteEnd(text, t, c, f, false), RemoteEnd(text, t, c, f, true);
      && p == c.(alias := p.alias, host := p.host, owner := p.owner)
      && l == c.(alias := p.alias, host := l.host, owner := l.owner)
      && p.alias == NetAlias(t, text.addr(c.raddr))
      && (p.alias == "" ==> p == l)
      && (p == l || (p.host == c.host && p.owner == c.owner))
  {
  }

  lemma LocalSkipped(text: Text, t: Tables, c: Conn, d: Conn, f: Found)
    requires c.laddr == d.laddr && c.lhost == d.lhost && c.lowner == d.lowner
    ensures var p, l := LocalEnd(text, t, c, f, false), LocalEnd(text, t, d, f, true);
      && p == c.(lalias := p.lalias, lhost := p.lhost, lowner := p.lowner)
      && l == d.(lalias := p.lalias, lhost := l.lhost, lowner := l.lowner)
      && p.lalias == NetAlias(t, text.addr(c.laddr))
      && (p.lalias == "" ==> p.lhost == l.lhost && p.lowner == l.lowner)
      && (p.lowner == l.lowner || p.lowner == c.lowner)
  {
  }

  /** Skipping the lookups for an address the user named never changes an
      alias, whatever the lookups would have said. */
  lemma SkippingLookupsKeepsAlias(text: Text, t: Tables, c: Conn, remote: Found, local: Found)
    ensures Annotated(text, t, Prepared(text, t, c, remote, local)).alias ==
      Annotated(text, t, LookedUp(text, t, c, remote, local)).alias
    ensures Annotated(text, t, Prepared(text, t, c, remote, local)).lalias ==
      Annotated(text, t, LookedUp(text, t, c, remote, local)).lalias
  {
    var p, l := Prepared(text, t, c, remote, local), LookedUp(text, t, c, remote, local);
    RemoteSkipped(text, t, c, remote);
    LocalSkipped(text, t, RemoteEnd(text, t, c, remote, false), RemoteEnd(text, t, c, remote, true), local);
    AnnotatedAliases(text, t, p);
    AnnotatedAliases(text, t, l);
  }

  /** Matching fewer names: every name is blank or found among the others. */
  predicate Fewer(some: seq<string>, names: seq<string>) {
    |some| == |names| && forall i :: 0 <= i < |some| ==> some[i] == "" || some[i] == names[i]
  }

  lemma FewerMatchLess(text: Text, patterns: seq<string>, some: seq<string>, names: seq<string>)
    requires Fewer(some, names)
    ensures AnyMatches(text, patterns, some) ==> AnyMatches(text, patterns, names)
  {
    forall k | 0 <= k < |patterns| && MatchesName(text, patterns[k], some)
      ensures MatchesName(text, patterns[k], names)
    {
      var i :| 0 <= i < |some| && some[i] != "" && OccursIn(patterns[k], text.lower(some[i]));
      assert names[i] == some[i];
    }
  }

  /** But it can leave a freshly scanned row visible that the lookups would have
      hidden; never the other way round. */
  lemma SkippingLookupsHidesNoMore(text: Text, t: Tables, c: Conn, remote: Found, local: Found)
    requires c.host == c.owner == c.lhost == c.lowner == ""
    ensures Annotated(text, t, Prepared(text, t, c, remote, local)).hide ==>
            Annotated(text, t, LookedUp(text, t, c, remote, local)).hide
  {
    var p, l := Annotated(text, t, Prepared(text, t, c, remote, local)),
      Annotated(text, t, LookedUp(text, t, c, remote, local));
    SkippingLookupsKeepsAlias(text, t, c, remote, local);
    RemoteSkipped(text, t, c, remote);
    LocalSkipped(text, t, RemoteEnd(text, t, c, remote, false), RemoteEnd(text, t, c, remote, true), local);
    AnnotatedHide(text, t, Prepared(text, t, c, remote, local));
    AnnotatedHide(text, t, LookedUp(text, t, c, remote, local));
    FewerMatchLess(text, t.hideStrs, [p.alias, p.owner, p.host, p.raddr], [l.alias, l.owner, l.host, l.raddr]);
    FewerMatchLess(text, t.exclStrs, [p.owner, p.lowner], [l.owner, l.lowner]);
  }

  // ---- exactly when a row stays visible that lookups would have hidden ----

  predicate Scanned(c: Conn) {
    c.host == c.owner == c.lhost == c.lowner == ""
  }

  /** Some name pattern matches a name the lookups came back with. */
  predicate NamesWouldHide(text: Text, t: Tables, l: Conn) {
    AnyMatches(text, t.hideStrs, [l.owner, l.host]) || AnyMatches(text, t.exclStrs, [l.owner, l.lowner])
  }

  lemma MatchesApart(text: Text, patterns: seq<string>, a: string, b: string, c: string, d: string)
    ensures AnyMatches(text, patterns, [a, b, c, d]) <==>
      AnyMatches(text, patterns, [a, d]) || AnyMatches(text, patterns, [b, c])
  {
    forall sub
      ensures MatchesName(text, sub, [a, b, c, d]) <==> MatchesName(text, sub, [a, d]) || MatchesName(text, sub, [b, c])
    {
      var all, outer, inner := [a, b, c, d], [a, d], [b, c];
      assert all[0] == outer[0] && all[3] == outer[1] && all[1] == inner[0] && all[2] == inner[1];
    }
  }

  /** Skipping makes no difference to a row iff it is hidden all the same or no
      pattern would have matched the names skipped. */
  lemma SkippingShowsExactly(text: Text, t: Tables, c: Conn, remote: Found, local: Found)
    requires Scanned(c)
    ensures var p, l := Prepared(text, t, c, remote, local), LookedUp(text, t, c, remote, local);
      Annotated(text, t, p).hide == Annotated(text, t, l).hide <==>
        Annotated(text, t, p).hide || !NamesWouldHide(text, t, l)
  {
    var p, l := Annotated(text, t, Prepared(text, t, c, remote, local)),
      Annotated(text, t, LookedUp(text, t, c, remote, local));
    SkippingLookupsHidesNoMore(text, t, c, remote, local);
    SkippingLookupsKeepsAlias(text, t, c, remote, local);
    RemoteSkipped(text, t, c, remote);
    LocalSkipped(text, t, RemoteEnd(text, t, c, remote, false), RemoteEnd(text, t, c, remote, true), local);
    AnnotatedHide(text, t, Prepared(text, t, c, remote, local));
    AnnotatedHide(text, t, LookedUp(text, t, c, remote, local));
    MatchesApart(text, t.hideStrs, p.alias, p.owner, p.host, p.raddr);
    MatchesApart(text, t.hideStrs, l.alias, l.owner, l.host, l.raddr);
  }

  // ---- and for which rules it never happens ----

  /** Nothing came back. */
  const NOTHING := Found("", "", "")

  /** Whatever the lookups would say, skipping them changes nothing. */
  ghost predicate NeverMatters(text: Text, t: Tables, c: Conn) {
    forall remote, local :: SameVisibility(text, t, c, remote, local)
  }

  predicate SameVisibility(text: Text, t: Tables, c: Conn, remote: Found, local: Found) {
    Annotated(text, t, Prepared(text, t, c, remote, local)).hide ==
      Annotated(text, t, LookedUp(text, t, c, remote, local)).hide
  }

  predicate HiddenGiven(text: Text, t: Tables, c: Conn, remote: Found) {
    Annotated(text, t, Prepared(text, t, c, remote, NOTHING)).hide
  }

  /** The hide rules catch the remote end, if this is what it is called. */
  predicate HiddenAs(text: Text, t: Tables, c: Conn, name: string) {
    || AnyContains(t.hideNets, text.addr(c.raddr))
    || AnyMatches(text, t.hideStrs, [AliasOf(text, t, text.addr(c.raddr), "", [name, c.raddr]), name, c.raddr])
  }

  /** They catch it without a name, and under the name in every alias pattern. */
  predicate HiddenAsAnything(text: Text, lists: Lists, c: Conn) {
    var t := Compiled(text, lists);
    && HiddenAs(text, t, c, "")
    && forall j :: 0 <= j < |lists.aliases| && IsNameAlias(text, lists.aliases[j]) ==>
         HiddenAs(text, t, c, text.trim(lists.aliases[j].target))
  }

  /** An alias in force on a name pattern. */
  predicate IsNameAlias(text: Text, r: Rule) {
    r.name != "" && !r.off && IsStrRule(text, r)
  }

  /** The patterns of compiled lists come from something that can be matched. */
  lemma {:induction false} HidePatternHasName(text: Text, list: seq<Rule>, i: nat) returns (name: string)
    requires i < |HideStrs(text, list)|
    ensures HideStrs(text, list)[i] != "" && text.lower(name) == HideStrs(text, list)[i]
  {
    var n := |list| - 1;
    if i < |HideStrs(text, list[..n])| {
      name := HidePatternHasName(text, list[..n], i);
    } else {
      name := text.trim(list[n].target);
    }
  }

  lemma {:induction false} ExclusionHasName(text: Text, list: seq<Rule>, i: nat) returns (name: string)
    requires i < |ExclStrs(text, list)|
    ensures ExclStrs(text, list)[i] != "" && text.lower(name) == ExclStrs(text, list)[i]
  {
    var n := |list| - 1;
    if i < |ExclStrs(text, list[..n])| {
      name := ExclusionHasName(text, list[..n], i);
    } else {
      name := text.trim(list[n].target);
    }
  }

  lemma NameMatchesItself(text: Text, patterns: seq<string>, i: nat, name: string, names: seq<string>, j: nat)
    requires i < |patterns| && text.lower(name) == patterns[i] && name != ""
    requires j < |names| && names[j] == name
    ensures AnyMatches(text, patterns, names)
  {
    assert OccursAt(patterns[i], text.lower(name), 0);
    assert MatchesName(text, patterns[i], names);
  }

  /** An end the user named is the same whatever its lookups say. */
  lemma SkippedEnd(text: Text, t: Tables, c: Conn, remote: Found, local: Found)
    ensures NetAlias(t, text.addr(c.raddr)) != "" ==>
      Prepared(text, t, c, remote, local) == Prepared(text, t, c, NOTHING, local)
    ensures NetAlias(t, text.addr(c.laddr)) != "" ==>
      Prepared(text, t, c, remote, local) == Prepared(text, t, c, remote, NOTHING)
  {
  }

  /** A freshly scanned row that is hidden with nothing known of its local end
      is hidden whatever is found there. */
  lemma LocalNamesHideNoLess(text: Text, t: Tables, c: Conn, remote: Found, local: Found)
    requires Scanned(c) && HiddenGiven(text, t, c, remote)
    ensures Annotated(text, t, Prepared(text, t, c, remote, local)).hide
  {
    var d := RemoteEnd(text, t, c, remote, false);
    LocalSkipped(text, t, d, d, NOTHING);
    LocalSkipped(text, t, d, d, local);
    var p, q := Prepared(text, t, c, remote, NOTHING), Prepared(text, t, c, remote, local);
    AnnotatedHide(text, t, p);
    AnnotatedHide(text, t, q);
    AnnotatedAliases(text, t, p);
    AnnotatedAliases(text, t, q);
    RemoteSkipped(text, t, c, remote);
    FewerMatchLess(text, t.exclStrs, [p.owner, p.lowner], [q.owner, q.lowner]);
  }

  // ---- what the remote end may be called ----

  /** Names that match the same patterns. */
  ghost predicate MatchAlike(text: Text, a: seq<string>, b: seq<string>) {
    forall sub :: MatchesName(text, sub, a) <==> MatchesName(text, sub, b)
  }

  lemma {:induction false} FirstStrAlike(text: Text, strs: seq<StrRule>, a: seq<string>, b: seq<string>)
    requires MatchAlike(text, a, b)
    ensures FirstStr(text, strs, a) == FirstStr(text, strs, b)
  {
    if strs != [] {
      FirstStrAlike(text, strs[1..], a, b);
    }
  }

  /** A name is the holder's or the host's, never both. */
  lemma OneName(text: Text, alias: string, owner: string, host: string, name: string, addr: string)
    requires (owner == name && host == "") || (owner == "" && host == name)
    ensures MatchAlike(text, [owner, host, addr], [name, addr])
    ensures MatchAlike(text, [alias, owner, host, addr], [alias, name, addr])
  {
    forall sub
      ensures MatchesName(text, sub, [owner, host, addr]) <==> MatchesName(text, sub, [name, addr])
      ensures MatchesName(text, sub, [alias, owner, host, addr]) <==> MatchesName(text, sub, [alias, name, addr])
    {
      NamesOf(text, sub, alias, owner, host, addr);
      assert [name, addr][0] == name && [name, addr][1] == addr;
      assert [alias, name, addr][0] == alias && [alias, name, addr][1] == name && [alias, name, addr][2] == addr;
    }
  }

  predicate Matches(text: Text, sub: string, name: string) {
    name != "" && OccursIn(sub, text.lower(name))
  }

  lemma NamesOf(text: Text, sub: string, alias: string, owner: string, host: string, addr: string)
    ensures MatchesName(text, sub, [owner, host, addr]) <==>
      Matches(text, sub, owner) || Matches(text, sub, host) || Matches(text, sub, addr)
    ensures MatchesName(text, sub, [alias, owner, host, addr]) <==>
      Matches(text, sub, alias) || Matches(text, sub, owner) || Matches(text, sub, host) || Matches(text, sub, addr)
  {
    var three, four := [owner, host, addr], [alias, owner, host, addr];
    assert three[0] == owner && three[1] == host && three[2] == addr;
    assert four[0] == alias && four[1] == owner && four[2] == host && four[3] == addr;
  }

  lemma AnyMatchAlike(text: Text, patterns: seq<string>, a: seq<string>, b: seq<string>)
    requires MatchAlike(text, a, b)
    ensures AnyMatches(text, patterns, a) <==> AnyMatches(text, patterns, b)
  {
  }

  /** What the lookups call an address. */
  function NameOf(f: Found): string {
    if f.iface != "" then "" else if f.host != "" then f.host else f.owner
  }

  /** A row whose remote end has a name is hidden if the hide rules catch it
      under that name, or its holder is excluded. */
  lemma HiddenByName(text: Text, t: Tables, c: Conn, remote: Found)
    requires Scanned(c) && (NetAlias(t, text.addr(c.raddr)) == "" || remote == NOTHING)
    ensures HiddenAs(text, t, c, NameOf(remote)) ==> HiddenGiven(text, t, c, remote)
    ensures HiddenGiven(text, t, c, remote) ==>
      HiddenAs(text, t, c, NameOf(remote)) || (remote.host == "" && remote.owner != "")
  {
    var p, name := Prepared(text, t, c, remote, NOTHING), NameOf(remote);
    assert p.lowner == "" && p.raddr == c.raddr && p.alias == NetAlias(t, text.addr(c.raddr));
    assert (p.owner == name && p.host == "") || (p.owner == "" && p.host == name);
    AnnotatedAliases(text, t, p);
    AnnotatedHide(text, t, p);
    var r := Annotated(text, t, p);
    OneName(text, r.alias, p.owner, p.host, name, c.raddr);
    FirstStrAlike(text, t.aliasStrs, [p.owner, p.host, c.raddr], [name, c.raddr]);
    assert r.alias == AliasOf(text, t, text.addr(c.raddr), "", [name, c.raddr]);
    AnyMatchAlike(text, t.hideStrs, [r.alias, p.owner, p.host, c.raddr], [r.alias, name, c.raddr]);
    if p.owner == "" {
      NothingExcluded(text, t.exclStrs);
    }
  }

  lemma NothingExcluded(text: Text, patterns: seq<string>)
    ensures !AnyMatches(text, patterns, ["", ""])
  {
  }

  lemma HiddenWithoutName(text: Text, t: Tables, c: Conn)
    requires Scanned(c)
    ensures HiddenGiven(text, t, c, NOTHING) <==> HiddenAs(text, t, c, "")
  {
    HiddenByName(text, t, c, NOTHING);
  }

  /** Each name pattern in force stands in the compiled table. */
  lemma {:induction false} PatternFrom(text: Text, list: seq<Rule>, j: nat) returns (i: nat)
    requires j < |AliasStrs(text, list)|
    ensures i < |list| && IsNameAlias(text, list[i]) && Pattern(text, list[i].target) == AliasStrs(text, list)[j].sub
  {
    var n := |list| - 1;
    if j < |AliasStrs(text, list[..n])| {
      i := PatternFrom(text, list[..n], j);
    } else {
      i := n;
    }
  }

  /** Pattern `j` is the first to match. */
  predicate FirstAt(text: Text, strs: seq<StrRule>, names: seq<string>, j: nat) {
    && j < |strs| && MatchesName(text, strs[j].sub, names)
    && forall i :: 0 <= i < j ==> !MatchesName(text, strs[i].sub, names)
  }

  lemma {:induction false} FirstStrAt(text: Text, strs: seq<StrRule>, names: seq<string>, j: nat)
    requires FirstAt(text, strs, names, j)
    ensures FirstStr(text, strs, names) == strs[j].name
  {
    if j > 0 {
      assert forall i :: 0 <= i < j ==> strs[1..][i] == strs[i + 1];
      FirstStrAt(text, strs[1..], names, j - 1);
    }
  }

  lemma {:induction false} FirstStrNone(text: Text, strs: seq<StrRule>, names: seq<string>)
    requires !AnyTableMatches(text, strs, names)
    ensures FirstStr(text, strs, names) == ""
  {
    if strs != [] {
      assert forall i :: 0 <= i < |strs[1..]| ==> strs[1..][i] == strs[i + 1];
      FirstStrNone(text, strs[1..], names);
    }
  }

  lemma {:induction false} FirstExists(text: Text, strs: seq<StrRule>, names: seq<string>) returns (j: nat)
    requires AnyTableMatches(text, strs, names)
    ensures FirstAt(text, strs, names, j)
  {
    j := 0;
    while !MatchesName(text, strs[j].sub, names)
      invariant j < |strs| && forall i :: 0 <= i < j ==> !MatchesName(text, strs[i].sub, names)
      decreases |strs| - j
    {
      assert exists i :: j < i < |strs| && MatchesName(text, strs[i].sub, names);
      j := j + 1;
    }
  }

  lemma OccursThrough(a: string, b: string, c: string)
    requires OccursIn(a, b) && OccursIn(b, c)
    ensures OccursIn(a, c)
  {
    var i :| 0 <= i <= |b| - |a| && OccursAt(a, b, i);
    var j :| 0 <= j <= |c| - |b| && OccursAt(b, c, j);
    var found := c[j + i..j + i + |a|];
    assert forall k :: 0 <= k < |a| ==> found[k] == c[j..j + |b|][i + k];
    assert forall k :: 0 <= k < |a| ==> found[k] == b[i..i + |a|][k];
    assert OccursAt(a, c, j + i);
  }

  /** What matches a part of a name, or the address, matches the name. */
  lemma PartMatchesLess(text: Text, sub: string, part: string, name: string, addr: string)
    requires name != "" && OccursIn(text.lower(part), text.lower(name)) && MatchesName(text, sub, [part, addr])
    ensures MatchesName(text, sub, [name, addr])
  {
    assert [name, addr][0] == name && [name, addr][1] == addr;
    var i :| 0 <= i < 2 && [part, addr][i] != "" && OccursIn(sub, text.lower([part, addr][i]));
    if i == 0 {
      OccursThrough(sub, text.lower(part), text.lower(name));
    }
  }

  /** Under one alias, a part of a name, or no name, is hidden only if the whole
      name is. */
  lemma PartHidesLess(text: Text, patterns: seq<string>, alias: string, part: string, name: string, addr: string)
    requires part == "" || (name != "" && OccursIn(text.lower(part), text.lower(name)))
    requires AnyMatches(text, patterns, [alias, part, addr])
    ensures AnyMatches(text, patterns, [alias, name, addr])
  {
    var k :| 0 <= k < |patterns| && MatchesName(text, patterns[k], [alias, part, addr]);
    var all := [alias, name, addr];
    assert all[0] == alias && all[1] == name && all[2] == addr;
    var i :| 0 <= i < 3 && [alias, part, addr][i] != "" && OccursIn(patterns[k], text.lower([alias, part, addr][i]));
    if i == 1 {
      OccursThrough(patterns[k], text.lower(part), text.lower(name));
    }
    assert MatchesName(text, patterns[k], all);
  }

  /** Pattern `j` is the first to match, and would not match the address alone. */
  predicate FirstForName(text: Text, strs: seq<StrRule>, name: string, addr: string, j: nat) {
    FirstAt(text, strs, [name, addr], j) && !MatchesName(text, strs[j].sub, ["", addr])
  }

  /** The first pattern that matches a name, if not for the address, names the
      same alias for the text of that pattern. */
  lemma PatternAsName(text: Text, strs: seq<StrRule>, part: string, name: string, addr: string, j: nat)
    requires FirstForName(text, strs, name, addr, j)
    requires part != "" && text.lower(part) == strs[j].sub
    ensures name != "" && OccursIn(text.lower(part), text.lower(name))
    ensures FirstStr(text, strs, [part, addr]) == FirstStr(text, strs, [name, addr])
  {
    assert ["", addr][1] == addr && [part, addr][0] == part;
    var i :| 0 <= i < 2 && [name, addr][i] != "" && OccursIn(strs[j].sub, text.lower([name, addr][i]));
    assert i == 0;
    assert OccursAt(strs[j].sub, text.lower(part), 0);
    forall k | 0 <= k < j
      ensures !MatchesName(text, strs[k].sub, [part, addr])
    {
      if MatchesName(text, strs[k].sub, [part, addr]) {
        PartMatchesLess(text, strs[k].sub, part, name, addr);
      }
    }
    FirstStrAt(text, strs, [part, addr], j);
    FirstStrAt(text, strs, [name, addr], j);
  }

  /** Without the name, the alias is the one the address gives. */
  lemma AddressAsName(text: Text, strs: seq<StrRule>, name: string, addr: string)
    requires forall j: nat :: !FirstForName(text, strs, name, addr, j)
    ensures FirstStr(text, strs, ["", addr]) == FirstStr(text, strs, [name, addr])
  {
    assert [name, addr][1] == ["", addr][1];
    if AnyTableMatches(text, strs, [name, addr]) {
      var j := FirstExists(text, strs, [name, addr]);
      assert !FirstForName(text, strs, name, addr, j);
      assert FirstAt(text, strs, ["", addr], j);
      FirstStrAt(text, strs, ["", addr], j);
      FirstStrAt(text, strs, [name, addr], j);
    } else {
      FirstStrNone(text, strs, ["", addr]);
      FirstStrNone(text, strs, [name, addr]);
    }
  }

  /** So the names in the alias patterns stand for every name there is. */
  lemma HiddenWhateverCalled(text: Text, lists: Lists, c: Conn, name: string)
    requires text.lower("") == "" && NetAlias(Compiled(text, lists), text.addr(c.raddr)) == "" &&
      HiddenAsAnything(text, lists, c)
    ensures HiddenAs(text, Compiled(text, lists), c, name)
  {
    var t := Compiled(text, lists);
    if j: nat :| FirstForName(text, t.aliasStrs, name, c.raddr, j) {
      var i := PatternFrom(text, lists.aliases, j);
      var part := text.trim(lists.aliases[i].target);
      PatternAsName(text, t.aliasStrs, part, name, c.raddr, j);
      if !AnyContains(t.hideNets, text.addr(c.raddr)) {
        PartHidesLess(text, t.hideStrs, FirstStr(text, t.aliasStrs, [name, c.raddr]), part, name, c.raddr);
      }
    } else {
      AddressAsName(text, t.aliasStrs, name, c.raddr);
      if !AnyContains(t.hideNets, text.addr(c.raddr)) {
        PartHidesLess(text, t.hideStrs, FirstStr(text, t.aliasStrs, [name, c.raddr]), "", name, c.raddr);
      }
    }
  }

  /** For every answer the row is hidden iff it is hidden as anything. */
  lemma HiddenAsAnythingExactly(text: Text, lists: Lists, c: Conn)
    requires Scanned(c) && text.lower("") == "" && NetAlias(Compiled(text, lists), text.addr(c.raddr)) == ""
    ensures (forall remote :: HiddenGiven(text, Compiled(text, lists), c, remote)) <==> HiddenAsAnything(text, lists, c)
  {
    var t := Compiled(text, lists);
    if HiddenAsAnything(text, lists, c) {
      forall remote
        ensures HiddenGiven(text, t, c, remote)
      {
        HiddenWhateverCalled(text, lists, c, NameOf(remote));
        HiddenByName(text, t, c, remote);
      }
    }
    if forall remote :: HiddenGiven(text, t, c, remote) {
      HiddenByName(text, t, c, NOTHING);
      forall j | 0 <= j < |lists.aliases| && IsNameAlias(text, lists.aliases[j])
        ensures HiddenAs(text, t, c, text.trim(lists.aliases[j].target))
      {
        HiddenByName(text, t, c, Found("", text.trim(lists.aliases[j].target), ""));
      }
    }
  }

  // ---- and so for which rules ----

  /** The rules alone decide: skipping never matters for a row iff the user
      named neither end; or the remote end, and the row is hidden as it is or
      there are no name patterns at all; or only the local end, and no owner is
      excluded or the row is hidden as it is and under the name in each alias
      pattern. */
  lemma NeverMattersExactly(text: Text, lists: Lists, c: Conn)
    requires Scanned(c) && text.lower("") == ""
    ensures var t := Compiled(text, lists);
      NeverMatters(text, t, c) <==>
        if NetAlias(t, text.addr(c.raddr)) != "" then HiddenAs(text, t, c, "") || (t.hideStrs == [] && t.exclStrs == [])
        else NetAlias(t, text.addr(c.laddr)) == "" || t.exclStrs == [] || HiddenAsAnything(text, lists, c)
  {
    var t := Compiled(text, lists);
    if NetAlias(t, text.addr(c.raddr)) != "" {
      RemoteNamed(text, lists, c);
    } else if NetAlias(t, text.addr(c.laddr)) != "" {
      LocalNamedOnly(text, lists, c);
    } else {
      NeitherNamed(text, t, c);
    }
  }

  lemma NeitherNamed(text: Text, t: Tables, c: Conn)
    requires NetAlias(t, text.addr(c.raddr)) == "" && NetAlias(t, text.addr(c.laddr)) == ""
    ensures NeverMatters(text, t, c)
  {
    forall remote, local
      ensures SameVisibility(text, t, c, remote, local)
    {
      RemoteSkipped(text, t, c, remote);
      assert RemoteEnd(text, t, c, remote, false) == RemoteEnd(text, t, c, remote, true);
      assert Prepared(text, t, c, remote, local) == LookedUp(text, t, c, remote, local);
    }
  }

  lemma RemoteNamed(text: Text, lists: Lists, c: Conn)
    requires Scanned(c) && text.lower("") == ""
    requires NetAlias(Compiled(text, lists), text.addr(c.raddr)) != ""
    ensures var t := Compiled(text, lists);
      NeverMatters(text, t, c) <==> HiddenAs(text, t, c, "") || (t.hideStrs == [] && t.exclStrs == [])
  {
    var t := Compiled(text, lists);
    HiddenWithoutName(text, t, c);
    if HiddenGiven(text, t, c, NOTHING) || (t.hideStrs == [] && t.exclStrs == []) {
      forall remote, local
        ensures SameVisibility(text, t, c, remote, local)
      {
        SkippedEnd(text, t, c, remote, local);
        SkippingShowsExactly(text, t, c, remote, local);
        if HiddenGiven(text, t, c, NOTHING) {
          LocalNamesHideNoLess(text, t, c, NOTHING, local);
        }
      }
    } else {
      var remote := NOTHING;
      if t.hideStrs != [] {
        var name := HidePatternHasName(text, lists.hidden, 0);
        remote := Found("", name, "");
        NameMatchesItself(text, t.hideStrs, 0, name, ["", name], 1);
      } else {
        var name := ExclusionHasName(text, lists.excluded, 0);
        remote := Found("", "", name);
        NameMatchesItself(text, t.exclStrs, 0, name, [name, ""], 0);
      }
      SkippedEnd(text, t, c, remote, NOTHING);
      SkippingShowsExactly(text, t, c, remote, NOTHING);
      assert !SameVisibility(text, t, c, remote, NOTHING);
    }
  }

  lemma LocalNamedSafe(text: Text, t: Tables, c: Conn, remote: Found, local: Found)
    requires Scanned(c) && NetAlias(t, text.addr(c.raddr)) == "" && NetAlias(t, text.addr(c.laddr)) != ""
    requires t.exclStrs == [] || HiddenGiven(text, t, c, remote)
    ensures SameVisibility(text, t, c, remote, local)
  {
    SkippedEnd(text, t, c, remote, local);
    SkippingShowsExactly(text, t, c, remote, local);
    var p, l := Prepared(text, t, c, remote, local), LookedUp(text, t, c, remote, local);
    if t.exclStrs == [] {
      RemoteSkipped(text, t, c, remote);
      LocalSkipped(text, t, RemoteEnd(text, t, c, remote, false), RemoteEnd(text, t, c, remote, true), local);
      assert p.owner == l.owner && p.host == l.host;
      AnnotatedHide(text, t, p);
      var r := Annotated(text, t, p);
      MatchesApart(text, t.hideStrs, r.alias, r.owner, r.host, r.raddr);
    }
  }

  lemma LocalNamedShows(text: Text, t: Tables, c: Conn, remote: Found, name: string)
    requires Scanned(c) && NetAlias(t, text.addr(c.raddr)) == "" && NetAlias(t, text.addr(c.laddr)) != ""
    requires t.exclStrs != [] && name != "" && text.lower(name) == t.exclStrs[0] && !HiddenGiven(text, t, c, remote)
    ensures !SameVisibility(text, t, c, remote, Found("", "", name))
  {
    var local := Found("", "", name);
    SkippedEnd(text, t, c, remote, local);
    SkippingShowsExactly(text, t, c, remote, local);
    var l := LookedUp(text, t, c, remote, local);
    assert l.lowner == name;
    NameMatchesItself(text, t.exclStrs, 0, name, [l.owner, l.lowner], 1);
  }

  lemma LocalNamedOnly(text: Text, lists: Lists, c: Conn)
    requires Scanned(c) && text.lower("") == ""
    requires var t := Compiled(text, lists);
      NetAlias(t, text.addr(c.raddr)) == "" && NetAlias(t, text.addr(c.laddr)) != ""
    ensures var t := Compiled(text, lists);
      NeverMatters(text, t, c) <==> t.exclStrs == [] || HiddenAsAnything(text, lists, c)
  {
    var t := Compiled(text, lists);
    HiddenAsAnythingExactly(text, lists, c);
    forall remote, local | t.exclStrs == [] || HiddenGiven(text, t, c, remote)
      ensures SameVisibility(text, t, c, remote, local)
    {
      LocalNamedSafe(text, t, c, remote, local);
    }
    if t.exclStrs != [] {
      var name := ExclusionHasName(text, lists.excluded, 0);
      forall remote | !HiddenGiven(text, t, c, remote)
        ensures !SameVisibility(text, t, c, remote, Found("", "", name))
      {
        LocalNamedShows(text, t, c, remote, name);
      }
    }
  }

  // ---- such a row ----

  /** The user named the address, excluded its owner, and nobody asks who the
      owner is. Only the one address is read as such, nothing as a network. */
  lemma SkippingLookupsCanShow() returns (text: Text, lists: Lists, c: Conn)
    ensures Scanned(c) && text.addr("") == None && text.addr("evil") == None
    ensures !NeverMatters(text, Compiled(text, lists), c)
  {
    var ip := Addr(false, seq(32, i => i == 0 || i == 1 || i == 22 || i == 31));
    text := Text(s => s, s => s, s => s, s => None, s => if s == "192.0.2.1" then Some(ip) else None);
    lists := Lists([Rule("192.0.2.1", "home", false)], [], [Rule("evil", "excluded", false)]);
    c := Conn("a", "tcp", Established, "10.0.0.1", 1, "192.0.2.1", 2, -1, "", "", "", "", "", "", "", "", false,
              0, 0, 0.0, 0.0, Gone, false, 0);
    CompilesTo(text, lists, ip);
    OwnerUnknown(text, Compiled(text, lists), c, ip);
    NeverMattersExactly(text, lists, c);
  }

  lemma OwnerUnknown(text: Text, t: Tables, c: Conn, ip: Addr)
    requires t == Tables([NetRule(Prefix(ip, |ip.bits|), "home")], [], [], [], ["evil"])
    requires Scanned(c) && text.addr(c.raddr) == Some(ip)
    ensures NetAlias(t, text.addr(c.raddr)) == "home" && !HiddenGiven(text, t, c, NOTHING)
  {
    assert BestNet(t.aliasNets, ip) == (|ip.bits|, "home") by {
      assert t.aliasNets[..0] == [];
    }
    var p := Prepared(text, t, c, NOTHING, NOTHING);
    SkippedEnd(text, t, c, NOTHING, NOTHING);
    AnnotatedHide(text, t, p);
  }

  lemma CompilesTo(text: Text, lists: Lists, ip: Addr)
    requires lists == Lists([Rule("192.0.2.1", "home", false)], [], [Rule("evil", "excluded", false)])
    requires text.trim("192.0.2.1") == "192.0.2.1" && text.prefix("192.0.2.1") == None &&
      text.addr("192.0.2.1") == Some(ip)
    requires text.trim("evil") == "evil" && text.lower("evil") == "evil"
    ensures Compiled(text, lists) == Tables([NetRule(Prefix(ip, |ip.bits|), "home")], [], [], [], ["evil"])
  {
    var r, e := lists.aliases[0], lists.excluded[0];
    assert lists.aliases == [] + [r] && lists.aliases[..0] == [] && lists.excluded[..0] == [];
    assert ParseTarget(text, r.target) == Some(Prefix(ip, |ip.bits|));
    assert Pattern(text, e.target) == "evil";
    assert AliasNets(text, lists.aliases) == [] + [NetRule(Prefix(ip, |ip.bits|), "home")];
    assert AliasStrs(text, lists.aliases) == [];
    assert ExclStrs(text, lists.excluded) == [] + ["evil"];
  }
}
