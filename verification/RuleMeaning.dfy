/** What the stored rules mean, down to the bits of an address and the letters of
    a name (rules.go), with none of the parsing in between. */
module RuleMeaning {
  import opened Common
  import opened Conns
  import opened Net
  import opened RuleList
  import opened Rules

  /** Networks and addresses are read as such only if they are whole. */
  ghost predicate Reads(text: Text) {
    && (forall s :: text.prefix(s).Some? ==> text.prefix(s).value.Valid())
    && (forall s :: text.addr(s).Some? ==> text.addr(s).value.Valid())
  }

  // ---- targets ----

  /** The target is a network or an address, not a name. */
  predicate IsAddress(text: Text, target: string) {
    text.prefix(text.trim(target)).Some? || text.addr(text.trim(target)).Some?
  }

  /** A network names the addresses of its family that share its first bits; an
      address names itself. */
  ghost predicate Names(text: Text, target: string, ip: Addr)
    requires Reads(text) && ip.Valid()
  {
    match text.prefix(text.trim(target))
    case Some(p) => ip.v6 == p.addr.v6 && forall k :: 0 <= k < p.len ==> ip.bits[k] == p.addr.bits[k]
    case None => text.addr(text.trim(target)) == Some(ip)
  }

  /** How closely. */
  function Rank(text: Text, target: string): nat {
    match text.prefix(text.trim(target))
    case Some(p) => p.len
    case None =>
      match text.addr(text.trim(target))
      case Some(a) => |a.bits|
      case None => 0
  }

  /** A name has the target in it somewhere, letter case aside. A blank target is
      in none. */
  ghost predicate Has(text: Text, name: string, target: string) {
    && name != "" && text.lower(text.trim(target)) != ""
    && exists a, b :: text.lower(name) == a + text.lower(text.trim(target)) + b
  }

  lemma TargetMeans(text: Text, target: string)
    requires Reads(text)
    ensures ParseTarget(text, target).Some? <==> IsAddress(text, target)
    ensures IsAddress(text, target) ==>
      var p := ParseTarget(text, target).value;
      p.len == Rank(text, target) && forall ip: Addr :: ip.Valid() ==> (p.Contains(ip) <==> Names(text, target, ip))
  {
    if IsAddress(text, target) {
      forall ip: Addr | ip.Valid()
        ensures ParseTarget(text, target).value.Contains(ip) <==> Names(text, target, ip)
      {
        if text.prefix(text.trim(target)).Some? {
          NetworkMeans(text.prefix(text.trim(target)).value, ip);
        } else {
          AddressMeans(text.addr(text.trim(target)).value, ip);
        }
      }
    }
  }

  lemma NetworkMeans(p: Prefix, ip: Addr)
    requires p.Valid() && ip.Valid()
    ensures p.Masked().Contains(ip) <==>
      ip.v6 == p.addr.v6 && forall k :: 0 <= k < p.len ==> ip.bits[k] == p.addr.bits[k]
  {
    MaskingKeepsNetwork(p, ip);
    if p.Contains(ip) {
      forall k | 0 <= k < p.len
        ensures ip.bits[k] == p.addr.bits[k]
      {
        assert ip.bits[..p.len][k] == p.addr.bits[..p.len][k];
      }
    }
  }

  lemma AddressMeans(a: Addr, ip: Addr)
    requires a.Valid() && ip.Valid()
    ensures Prefix(a, |a.bits|).Contains(ip) <==> a == ip
  {
    assert a.bits[..|a.bits|] == a.bits;
    assert |a.bits| == |ip.bits| ==> ip.bits[..|a.bits|] == ip.bits;
  }

  lemma OccursMeans(needle: string, hay: string)
    ensures OccursIn(needle, hay) <==> exists a, b :: hay == a + needle + b
  {
    if i :| 0 <= i <= |hay| - |needle| && OccursAt(needle, hay, i) {
      assert hay == hay[..i] + needle + hay[i + |needle|..];
    }
    if a, b :| hay == a + needle + b {
      assert OccursAt(needle, a + needle + b, |a|);
    }
  }

  /** Some of the names has the target in it. */
  ghost predicate AnyHas(text: Text, names: seq<string>, target: string) {
    exists i :: 0 <= i < |names| && Has(text, names[i], target)
  }

  lemma MatchMeans(text: Text, target: string, names: seq<string>)
    ensures Pattern(text, target) != "" && MatchesName(text, Pattern(text, target), names) <==>
      AnyHas(text, names, target)
  {
    forall i | 0 <= i < |names|
      ensures Has(text, names[i], target) <==>
        names[i] != "" && Pattern(text, target) != "" && OccursIn(Pattern(text, target), text.lower(names[i]))
    {
      OccursMeans(Pattern(text, target), text.lower(names[i]));
    }
  }

  // ---- rules ----

  /** The alias rule is in force and names this address. */
  ghost predicate NamesAddress(text: Text, r: Rule, ip: Option<Addr>)
    requires Reads(text) && (ip.Some? ==> ip.value.Valid())
  {
    r.name != "" && !r.off && ip.Some? && IsAddress(text, r.target) && Names(text, r.target, ip.value)
  }

  /** It is in force, its target a name, and one of these has it. */
  ghost predicate NamesName(text: Text, r: Rule, names: seq<string>) {
    r.name != "" && !r.off && !IsAddress(text, r.target) && AnyHas(text, names, r.target)
  }

  /** Rule `i` names the address, more closely than any other that does, or as
      closely and before it. */
  ghost predicate Nearest(text: Text, aliases: seq<Rule>, ip: Option<Addr>, i: nat)
    requires Reads(text) && (ip.Some? ==> ip.value.Valid())
  {
    && i < |aliases| && NamesAddress(text, aliases[i], ip)
    && forall j :: 0 <= j < |aliases| && NamesAddress(text, aliases[j], ip) ==>
      || Rank(text, aliases[j].target) < Rank(text, aliases[i].target)
      || (Rank(text, aliases[j].target) == Rank(text, aliases[i].target) && i <= j)
  }

  /** Rule `i` is the first whose name is found. */
  ghost predicate Earliest(text: Text, aliases: seq<Rule>, names: seq<string>, i: nat) {
    && i < |aliases| && NamesName(text, aliases[i], names)
    && forall j :: 0 <= j < i ==> !NamesName(text, aliases[j], names)
  }

  ghost predicate AnyNamesAddress(text: Text, aliases: seq<Rule>, ip: Option<Addr>)
    requires Reads(text) && (ip.Some? ==> ip.value.Valid())
  {
    exists i :: 0 <= i < |aliases| && NamesAddress(text, aliases[i], ip)
  }

  ghost predicate AnyNamesName(text: Text, aliases: seq<Rule>, names: seq<string>) {
    exists i :: 0 <= i < |aliases| && NamesName(text, aliases[i], names)
  }

  /** The alias of an end: from the nearest rule that names its address; else the
      one it came with; else from the first rule that names one of its names;
      else none. */
  ghost predicate AliasMeans(text: Text, aliases: seq<Rule>, ip: Option<Addr>, given: string, names: seq<string>,
                             alias: string)
    requires Reads(text) && (ip.Some? ==> ip.value.Valid())
  {
    if AnyNamesAddress(text, aliases, ip) then NetAliasMeans(text, aliases, ip, alias)
    else if given != "" then alias == given
    else if AnyNamesName(text, aliases, names) then
      exists i: nat :: Earliest(text, aliases, names, i) && alias == aliases[i].name
    else alias == ""
  }

  /** The hide rule is in force and catches the address, or one of the names. */
  ghost predicate Catches(text: Text, r: Rule, ip: Option<Addr>, names: seq<string>)
    requires Reads(text) && (ip.Some? ==> ip.value.Valid())
  {
    && !r.off
    && if IsAddress(text, r.target) then ip.Some? && Names(text, r.target, ip.value) else AnyHas(text, names, r.target)
  }

  /** Some hide rule catches the row's remote end, or some exclusion, read as a
      name, is found in one of its owners. */
  ghost predicate HideMeans(text: Text, lists: Lists, c: Conn)
    requires Reads(text)
  {
    || (exists i :: 0 <= i < |lists.hidden| &&
          Catches(text, lists.hidden[i], text.addr(c.raddr), [c.alias, c.owner, c.host, c.raddr]))
    || (exists i :: 0 <= i < |lists.excluded| &&
          !lists.excluded[i].off && AnyHas(text, [c.owner, c.lowner], lists.excluded[i].target))
  }

  /** `r` is `c` with the aliases and the hide flag the rules mean, and nothing
      else changed. */
  ghost predicate Means(text: Text, lists: Lists, c: Conn, r: Conn)
    requires Reads(text)
  {
    && r.(alias := c.alias, lalias := c.lalias, hide := c.hide) == c
    && AliasMeans(text, lists.aliases, text.addr(c.raddr), c.alias, [c.owner, c.host, c.raddr], r.alias)
    && AliasMeans(text, lists.aliases, text.addr(c.laddr), c.lalias, [c.lowner, c.lhost, c.laddr], r.lalias)
    && (r.hide <==> HideMeans(text, lists, r))
  }

  lemma RuleMeans(text: Text, r: Rule, ip: Option<Addr>, names: seq<string>)
    requires Reads(text) && (ip.Some? ==> ip.value.Valid())
    ensures ip.Some? ==> (AliasNetMatches(text, r, ip.value) <==> NamesAddress(text, r, ip))
    ensures AliasStrMatches(text, r, names) <==> NamesName(text, r, names)
    ensures HideMatches(text, r, ip, names) <==> Catches(text, r, ip, names)
    ensures ExclusionMatches(text, r, names) <==> !r.off && AnyHas(text, names, r.target)
  {
    TargetMeans(text, r.target);
    MatchMeans(text, r.target, names);
  }

  /** The alias the address rules alone give. */
  ghost predicate NetAliasMeans(text: Text, aliases: seq<Rule>, ip: Option<Addr>, net: string)
    requires Reads(text) && (ip.Some? ==> ip.value.Valid())
  {
    if AnyNamesAddress(text, aliases, ip) then exists i: nat :: Nearest(text, aliases, ip, i) && net == aliases[i].name
    else net == ""
  }

  lemma NetPartMeans(text: Text, aliases: seq<Rule>, ip: Option<Addr>, net: string)
    requires Reads(text) && (ip.Some? ==> ip.value.Valid()) && NetPart(text, aliases, ip, net)
    ensures NetAliasMeans(text, aliases, ip, net)
    ensures net == "" <==> !AnyNamesAddress(text, aliases, ip)
  {
    forall j | 0 <= j < |aliases|
      ensures ip.Some? ==> (AliasNetMatches(text, aliases[j], ip.value) <==> NamesAddress(text, aliases[j], ip))
      ensures IsAddress(text, aliases[j].target) ==>
        ParseTarget(text, aliases[j].target).Some? &&
        ParseTarget(text, aliases[j].target).value.len == Rank(text, aliases[j].target)
    {
      RuleMeans(text, aliases[j], ip, []);
      TargetMeans(text, aliases[j].target);
    }
    if ip.Some? && AnyNamesAddress(text, aliases, ip) {
      var i: nat :| BestNetAlias(text, aliases, ip.value, i) && net == aliases[i].name;
      assert Nearest(text, aliases, ip, i);
    }
  }

  lemma NetAliasIsMeant(text: Text, lists: Lists, ip: Option<Addr>)
    requires Reads(text) && (ip.Some? ==> ip.value.Valid())
    ensures NetAliasMeans(text, lists.aliases, ip, NetAlias(Compiled(text, lists), ip))
  {
    if ip.Some? {
      NetAliasIsDirect(text, lists, ip.value);
    }
    NetPartMeans(text, lists.aliases, ip, NetAlias(Compiled(text, lists), ip));
  }

  lemma StrPartMeans(text: Text, aliases: seq<Rule>, names: seq<string>, name: string)
    requires Reads(text) && StrAliasIs(text, aliases, names, name)
    ensures if AnyNamesName(text, aliases, names)
            then exists i: nat :: Earliest(text, aliases, names, i) && name == aliases[i].name
            else name == ""
  {
    forall j | 0 <= j < |aliases|
      ensures AliasStrMatches(text, aliases[j], names) <==> NamesName(text, aliases[j], names)
    {
      RuleMeans(text, aliases[j], None, names);
    }
    if i: nat :| FirstStrAlias(text, aliases, names, i) && name == aliases[i].name {
      assert Earliest(text, aliases, names, i);
    }
  }

  lemma AliasIsMeant(text: Text, aliases: seq<Rule>, ip: Option<Addr>, given: string, names: seq<string>, alias: string)
    requires Reads(text) && (ip.Some? ==> ip.value.Valid()) && AliasIs(text, aliases, ip, given, names, alias)
    ensures AliasMeans(text, aliases, ip, given, names, alias)
  {
    var net :| NetPart(text, aliases, ip, net) &&
      (if net != "" then alias == net else if given != "" then alias == given
       else StrAliasIs(text, aliases, names, alias));
    NetPartMeans(text, aliases, ip, net);
    if net == "" && given == "" {
      StrPartMeans(text, aliases, names, alias);
    }
  }

  lemma HideIsMeant(text: Text, lists: Lists, c: Conn)
    requires Reads(text)
    ensures IsHidden(text, lists, c) <==> HideMeans(text, lists, c)
  {
    var names, owners := [c.alias, c.owner, c.host, c.raddr], [c.owner, c.lowner];
    forall i | 0 <= i < |lists.hidden|
      ensures HideMatches(text, lists.hidden[i], text.addr(c.raddr), names) <==>
        Catches(text, lists.hidden[i], text.addr(c.raddr), names)
    {
      RuleMeans(text, lists.hidden[i], text.addr(c.raddr), names);
    }
    forall i | 0 <= i < |lists.excluded|
      ensures ExclusionMatches(text, lists.excluded[i], owners) <==>
        !lists.excluded[i].off && AnyHas(text, owners, lists.excluded[i].target)
    {
      RuleMeans(text, lists.excluded[i], None, owners);
    }
  }

  /** Annotating a row by the stored rules does what they mean. */
  lemma AnnotatingMeans(text: Text, lists: Lists, c: Conn, r: Conn)
    requires Reads(text) && AnnotatedBy(text, lists, c, r)
    ensures Means(text, lists, c, r)
  {
    AliasIsMeant(text, lists.aliases, text.addr(c.raddr), c.alias, [c.owner, c.host, c.raddr], r.alias);
    AliasIsMeant(text, lists.aliases, text.addr(c.laddr), c.lalias, [c.lowner, c.lhost, c.laddr], r.lalias);
    HideIsMeant(text, lists, r);
  }

  /** And so does annotating it by the compiled tables. */
  lemma CompiledMeans(text: Text, lists: Lists, c: Conn)
    requires Reads(text)
    ensures Means(text, lists, c, Annotated(text, Compiled(text, lists), c))
  {
    CompiledIsDirect(text, lists, c);
    AnnotatingMeans(text, lists, c, Annotated(text, Compiled(text, lists), c));
  }
}
