/** User rules: aliases, hide rules and owner exclusions (rules.go). */
module Rules {
  import opened Common
  import opened Conns
  import opened Net
  import opened RuleList

  /** The text operations the rules rest on, taken as given: trimming, lower
      case, case folding, and the reading of networks and addresses. */
  datatype Text = Text(trim: string -> string, lower: string -> string, fold: Fold,
                       prefix: string -> Option<Prefix>, addr: string -> Option<Addr>)

  datatype Lists = Lists(aliases: seq<Rule>, hidden: seq<Rule>, excluded: seq<Rule>)

  datatype NetRule = NetRule(pfx: Prefix, name: string)
  datatype StrRule = StrRule(sub: string, name: string)

  /** The parsed forms of the lists. */
  datatype Tables = Tables(aliasNets: seq<NetRule>, aliasStrs: seq<StrRule>,
                           hideNets: seq<Prefix>, hideStrs: seq<string>, exclStrs: seq<string>)

  /** A rule target as a network: a prefix masked, an address as its own
      network. None for a name pattern. */
  function ParseTarget(text: Text, target: string): Option<Prefix> {
    var s := text.trim(target);
    match text.prefix(s)
    case Some(p) => Some(if p.len <= |p.addr.bits| then p.Masked() else p)
    case None =>
      match text.addr(s)
      case Some(a) => Some(Prefix(a, |a.bits|))
      case None => None
  }

  function Pattern(text: Text, target: string): string {
    text.lower(text.trim(target))
  }

  predicate OccursIn(needle: string, hay: string) {
    exists i :: 0 <= i <= |hay| - |needle| && OccursAt(needle, hay, i)
  }

  predicate OccursAt(needle: string, hay: string, i: nat) {
    i + |needle| <= |hay| && hay[i..i + |needle|] == needle
  }

  /** The lower-cased needle occurs in some name the row is known by. */
  predicate MatchesName(text: Text, needle: string, names: seq<string>) {
    exists i :: 0 <= i < |names| && names[i] != "" && OccursIn(needle, text.lower(names[i]))
  }

  // ---- what a stored rule means, read directly ----

  predicate IsNetRule(text: Text, r: Rule) {
    ParseTarget(text, r.target).Some?
  }

  predicate IsStrRule(text: Text, r: Rule) {
    ParseTarget(text, r.target).None? && Pattern(text, r.target) != ""
  }

  predicate AliasNetMatches(text: Text, r: Rule, ip: Addr) {
    r.name != "" && !r.off && IsNetRule(text, r) && ParseTarget(text, r.target).value.Contains(ip)
  }

  predicate AliasStrMatches(text: Text, r: Rule, names: seq<string>) {
    r.name != "" && !r.off && IsStrRule(text, r) && MatchesName(text, Pattern(text, r.target), names)
  }

  /** Rule `i` is the longest matching network, the earliest of that length. */
  ghost predicate BestNetAlias(text: Text, aliases: seq<Rule>, ip: Addr, i: nat) {
    && i < |aliases| && AliasNetMatches(text, aliases[i], ip)
    && forall j :: 0 <= j < |aliases| && AliasNetMatches(text, aliases[j], ip) ==>
      var len, mine := ParseTarget(text, aliases[j].target).value.len, ParseTarget(text, aliases[i].target).value.len;
      len < mine || (len == mine && i <= j)
  }

  ghost predicate NetAliasIs(text: Text, aliases: seq<Rule>, ip: Addr, name: string) {
    || (name == "" && forall i :: 0 <= i < |aliases| ==> !AliasNetMatches(text, aliases[i], ip))
    || (exists i: nat :: BestNetAlias(text, aliases, ip, i) && name == aliases[i].name)
  }

  /** The first matching name pattern's alias. */
  ghost predicate StrAliasIs(text: Text, aliases: seq<Rule>, names: seq<string>, name: string) {
    || (name == "" && forall i :: 0 <= i < |aliases| ==> !AliasStrMatches(text, aliases[i], names))
    || (exists i: nat :: FirstStrAlias(text, aliases, names, i) && name == aliases[i].name)
  }

  ghost predicate FirstStrAlias(text: Text, aliases: seq<Rule>, names: seq<string>, i: nat) {
    && i < |aliases| && AliasStrMatches(text, aliases[i], names)
    && forall j :: 0 <= j < i ==> !AliasStrMatches(text, aliases[j], names)
  }

  /** The alias a row end gets: a network rule outranks the alias it came with,
      which outranks the name patterns. */
  ghost predicate AliasIs(text: Text, aliases: seq<Rule>, ip: Option<Addr>, given: string, names: seq<string>,
                          name: string)
  {
    exists net :: NetPart(text, aliases, ip, net) &&
      if net != "" then name == net
      else if given != "" then name == given
      else StrAliasIs(text, aliases, names, name)
  }

  ghost predicate NetPart(text: Text, aliases: seq<Rule>, ip: Option<Addr>, net: string) {
    match ip
    case None => net == ""
    case Some(a) => NetAliasIs(text, aliases, a, net)
  }

  predicate HideMatches(text: Text, r: Rule, ip: Option<Addr>, names: seq<string>) {
    && !r.off
    && if IsNetRule(text, r) then ip.Some? && ParseTarget(text, r.target).value.Contains(ip.value)
       else Pattern(text, r.target) != "" && MatchesName(text, Pattern(text, r.target), names)
  }

  /** Exclusions are names only: a network-like target is a pattern here. */
  predicate ExclusionMatches(text: Text, r: Rule, owners: seq<string>) {
    !r.off && Pattern(text, r.target) != "" && MatchesName(text, Pattern(text, r.target), owners)
  }

  predicate AnyHides(text: Text, list: seq<Rule>, ip: Option<Addr>, names: seq<string>) {
    exists i :: 0 <= i < |list| && HideMatches(text, list[i], ip, names)
  }

  predicate AnyExcludes(text: Text, list: seq<Rule>, owners: seq<string>) {
    exists i :: 0 <= i < |list| && ExclusionMatches(text, list[i], owners)
  }

  predicate IsHidden(text: Text, lists: Lists, c: Conn) {
    || AnyHides(text, lists.hidden, text.addr(c.raddr), [c.alias, c.owner, c.host, c.raddr])
    || AnyExcludes(text, lists.excluded, [c.owner, c.lowner])
  }

  /** Interpreting the stored lists directly: `r` is `c` annotated. */
  ghost predicate AnnotatedBy(text: Text, lists: Lists, c: Conn, r: Conn) {
    && r == c.(alias := r.alias, lalias := r.lalias, hide := r.hide)
    && AliasIs(text, lists.aliases, text.addr(c.raddr), c.alias, [c.owner, c.host, c.raddr], r.alias)
    && AliasIs(text, lists.aliases, text.addr(c.laddr), c.lalias, [c.lowner, c.lhost, c.laddr], r.lalias)
    && (r.hide <==> IsHidden(text, lists, r))
  }

  // ---- compiling ----

  function AliasNets(text: Text, list: seq<Rule>): seq<NetRule> {
    if list == [] then []
    else
      var front, r := AliasNets(text, list[..|list| - 1]), list[|list| - 1];
      if r.name != "" && !r.off && IsNetRule(text, r) then front + [NetRule(ParseTarget(text, r.target).value, r.name)]
      else front
  }

  function AliasStrs(text: Text, list: seq<Rule>): seq<StrRule> {
    if list == [] then []
    else
      var front, r := AliasStrs(text, list[..|list| - 1]), list[|list| - 1];
      if r.name != "" && !r.off && IsStrRule(text, r) then front + [StrRule(Pattern(text, r.target), r.name)] else front
  }

  function HideNets(text: Text, list: seq<Rule>): seq<Prefix> {
    if list == [] then []
    else
      var front, r := HideNets(text, list[..|list| - 1]), list[|list| - 1];
      if !r.off && IsNetRule(text, r) then front + [ParseTarget(text, r.target).value] else front
  }

  function HideStrs(text: Text, list: seq<Rule>): seq<string> {
    if list == [] then []
    else
      var front, r := HideStrs(text, list[..|list| - 1]), list[|list| - 1];
      if !r.off && IsStrRule(text, r) then front + [Pattern(text, r.target)] else front
  }

  function ExclStrs(text: Text, list: seq<Rule>): seq<string> {
    if list == [] then []
    else
      var front, r := ExclStrs(text, list[..|list| - 1]), list[|list| - 1];
      if !r.off && Pattern(text, r.target) != "" then front + [Pattern(text, r.target)] else front
  }

  function Compiled(text: Text, lists: Lists): Tables {
    Tables(AliasNets(text, lists.aliases), AliasStrs(text, lists.aliases),
           HideNets(text, lists.hidden), HideStrs(text, lists.hidden), ExclStrs(text, lists.excluded))
  }

  // ---- matching against the tables ----

  /** The longest network seen so far containing the address, and its alias. */
  function BestNet(nets: seq<NetRule>, ip: Addr): (int, string) {
    if nets == [] then (-1, "")
    else
      var best, n := BestNet(nets[..|nets| - 1], ip), nets[|nets| - 1];
      if n.pfx.Contains(ip) && n.pfx.len > best.0 then (n.pfx.len, n.name) else best
  }

  function FirstStr(text: Text, strs: seq<StrRule>, names: seq<string>): string {
    if strs == [] then ""
    else if MatchesName(text, strs[0].sub, names) then strs[0].name
    else FirstStr(text, strs[1..], names)
  }

  function NetAlias(t: Tables, ip: Option<Addr>): string {
    match ip
    case None => ""
    case Some(a) => BestNet(t.aliasNets, a).1
  }

  function AliasOf(text: Text, t: Tables, ip: Option<Addr>, given: string, names: seq<string>): string {
    if NetAlias(t, ip) != "" then NetAlias(t, ip)
    else if given != "" then given
    else FirstStr(text, t.aliasStrs, names)
  }

  predicate AnyContains(nets: seq<Prefix>, ip: Option<Addr>) {
    ip.Some? && exists i :: 0 <= i < |nets| && nets[i].Contains(ip.value)
  }

  predicate AnyMatches(text: Text, patterns: seq<string>, names: seq<string>) {
    exists i :: 0 <= i < |patterns| && MatchesName(text, patterns[i], names)
  }

  predicate HiddenBy(text: Text, t: Tables, c: Conn) {
    || AnyContains(t.hideNets, text.addr(c.raddr))
    || AnyMatches(text, t.hideStrs, [c.alias, c.owner, c.host, c.raddr])
    || AnyMatches(text, t.exclStrs, [c.owner, c.lowner])
  }

  function Annotated(text: Text, t: Tables, c: Conn): Conn {
    var named := c.(alias := AliasOf(text, t, text.addr(c.raddr), c.alias, [c.owner, c.host, c.raddr]),
                    lalias := AliasOf(text, t, text.addr(c.laddr), c.lalias, [c.lowner, c.lhost, c.laddr]));
    named.(hide := HiddenBy(text, t, named))
  }

  // ---- the tables mean what the lists say ----

  /** The best so far is the best over the list, or nothing matches. */
  ghost predicate BestSoFar(text: Text, list: seq<Rule>, ip: Addr, best: (int, string)) {
    if best.0 < 0 then best == (-1, "") && forall i :: 0 <= i < |list| ==> !AliasNetMatches(text, list[i], ip)
    else exists i: nat ::
      BestNetAlias(text, list, ip, i) && best == (ParseTarget(text, list[i].target).value.len, list[i].name)
  }

  lemma BestStays(text: Text, front: seq<Rule>, r: Rule, ip: Addr, best: (int, string))
    requires BestSoFar(text, front, ip, best)
    requires !AliasNetMatches(text, r, ip) || ParseTarget(text, r.target).value.len <= best.0
    ensures BestSoFar(text, front + [r], ip, best)
  {
    if best.0 >= 0 {
      var i: nat :| BestNetAlias(text, front, ip, i) &&
        best == (ParseTarget(text, front[i].target).value.len, front[i].name);
      assert BestNetAlias(text, front + [r], ip, i);
    }
  }

  lemma BestBeaten(text: Text, front: seq<Rule>, r: Rule, ip: Addr, best: (int, string))
    requires BestSoFar(text, front, ip, best)
    requires AliasNetMatches(text, r, ip) && ParseTarget(text, r.target).value.len > best.0
    ensures BestSoFar(text, front + [r], ip, (ParseTarget(text, r.target).value.len, r.name))
  {
    assert BestNetAlias(text, front + [r], ip, |front|);
  }

  /** The best network over the compiled table is the best over the list. */
  lemma {:induction false} BestNetIsDirect(text: Text, list: seq<Rule>, ip: Addr)
    ensures BestSoFar(text, list, ip, BestNet(AliasNets(text, list), ip))
  {
    if list != [] {
      var front, r := list[..|list| - 1], list[|list| - 1];
      assert list == front + [r];
      BestNetIsDirect(text, front, ip);
      var nets := AliasNets(text, front);
      var best := BestNet(nets, ip);
      if r.name != "" && !r.off && IsNetRule(text, r) {
        assert AliasNets(text, list)[..|nets|] == nets;
      }
      if AliasNetMatches(text, r, ip) && ParseTarget(text, r.target).value.len > best.0 {
        BestBeaten(text, front, r, ip, best);
      } else {
        BestStays(text, front, r, ip, best);
      }
    }
  }

  lemma NetAliasIsDirect(text: Text, lists: Lists, ip: Addr)
    ensures NetAliasIs(text, lists.aliases, ip, NetAlias(Compiled(text, lists), Some(ip)))
  {
    BestNetIsDirect(text, lists.aliases, ip);
  }

  lemma {:induction false} FirstStrAppend(text: Text, strs: seq<StrRule>, last: StrRule, names: seq<string>)
    ensures FirstStr(text, strs + [last], names) ==
      if AnyTableMatches(text, strs, names) then FirstStr(text, strs, names)
      else if MatchesName(text, last.sub, names) then last.name else ""
  {
    if strs == [] {
      assert [] + [last] == [last];
    } else {
      assert (strs + [last])[1..] == strs[1..] + [last];
      FirstStrAppend(text, strs[1..], last, names);
      assert forall i :: 1 <= i < |strs| ==> strs[i] == strs[1..][i - 1];
    }
  }

  ghost predicate AnyStrMatches(text: Text, list: seq<Rule>, names: seq<string>) {
    exists i :: 0 <= i < |list| && AliasStrMatches(text, list[i], names)
  }

  ghost predicate AnyTableMatches(text: Text, strs: seq<StrRule>, names: seq<string>) {
    exists i :: 0 <= i < |strs| && MatchesName(text, strs[i].sub, names)
  }

  lemma StrRuleAppended(text: Text, front: seq<Rule>, r: Rule, names: seq<string>)
    ensures AnyStrMatches(text, front + [r], names) <==>
      AnyStrMatches(text, front, names) || AliasStrMatches(text, r, names)
    ensures forall name ::
      AnyStrMatches(text, front, names) && StrAliasIs(text, front, names, name) ==>
        StrAliasIs(text, front + [r], names, name)
    ensures !AnyStrMatches(text, front, names) ==>
      StrAliasIs(text, front + [r], names, if AliasStrMatches(text, r, names) then r.name else "")
  {
    var list := front + [r];
    assert list[|front|] == r && forall j :: 0 <= j < |front| ==> list[j] == front[j];
    forall name | AnyStrMatches(text, front, names) && StrAliasIs(text, front, names, name)
      ensures StrAliasIs(text, list, names, name)
    {
      var i: nat :| FirstStrAlias(text, front, names, i) && name == front[i].name;
      assert FirstStrAlias(text, list, names, i);
    }
    if !AnyStrMatches(text, front, names) && AliasStrMatches(text, r, names) {
      assert FirstStrAlias(text, list, names, |front|);
    }
  }

  lemma TableAppended(text: Text, strs: seq<StrRule>, last: StrRule, names: seq<string>)
    ensures AnyTableMatches(text, strs + [last], names) <==>
      AnyTableMatches(text, strs, names) || MatchesName(text, last.sub, names)
  {
    assert (strs + [last])[|strs|] == last && forall j :: 0 <= j < |strs| ==> (strs + [last])[j] == strs[j];
  }

  /** The first matching pattern of the compiled table is the first of the list. */
  lemma {:induction false} StrAliasIsDirect(text: Text, list: seq<Rule>, names: seq<string>)
    ensures StrAliasIs(text, list, names, FirstStr(text, AliasStrs(text, list), names))
    ensures AnyTableMatches(text, AliasStrs(text, list), names) <==> AnyStrMatches(text, list, names)
  {
    if list != [] {
      var front, r := list[..|list| - 1], list[|list| - 1];
      assert list == front + [r];
      StrAliasIsDirect(text, front, names);
      StrRuleAppended(text, front, r, names);
      if r.name != "" && !r.off && IsStrRule(text, r) {
        var last := StrRule(Pattern(text, r.target), r.name);
        FirstStrAppend(text, AliasStrs(text, front), last, names);
        TableAppended(text, AliasStrs(text, front), last, names);
      } else {
        if !AnyTableMatches(text, AliasStrs(text, front), names) {
          NoneMatches(text, AliasStrs(text, front), names);
        }
      }
    }
  }

  lemma {:induction false} NoneMatches(text: Text, strs: seq<StrRule>, names: seq<string>)
    requires !AnyTableMatches(text, strs, names)
    ensures FirstStr(text, strs, names) == ""
  {
    if strs != [] {
      assert forall j :: 0 <= j < |strs[1..]| ==> strs[1..][j] == strs[j + 1];
      NoneMatches(text, strs[1..], names);
    }
  }

  lemma AliasIsDirect(text: Text, lists: Lists, ip: Option<Addr>, given: string, names: seq<string>)
    ensures AliasIs(text, lists.aliases, ip, given, names, AliasOf(text, Compiled(text, lists), ip, given, names))
  {
    if ip.Some? {
      NetAliasIsDirect(text, lists, ip.value);
    }
    assert NetPart(text, lists.aliases, ip, NetAlias(Compiled(text, lists), ip));
    StrAliasIsDirect(text, lists.aliases, names);
  }

  lemma {:induction false} HiddenIsDirect(text: Text, list: seq<Rule>, ip: Option<Addr>, names: seq<string>)
    ensures AnyHides(text, list, ip, names) <==>
      AnyContains(HideNets(text, list), ip) || AnyMatches(text, HideStrs(text, list), names)
  {
    if list != [] {
      var front, r := list[..|list| - 1], list[|list| - 1];
      HiddenIsDirect(text, front, ip, names);
      var nets, strs := HideNets(text, front), HideStrs(text, front);
      assert forall j :: 0 <= j < |front| ==> list[j] == front[j];
      assert forall j :: 0 <= j < |nets| ==> HideNets(text, list)[j] == nets[j];
      assert forall j :: 0 <= j < |strs| ==> HideStrs(text, list)[j] == strs[j];
      if !r.off && IsNetRule(text, r) {
        assert HideNets(text, list)[|nets|] == ParseTarget(text, r.target).value;
      } else if !r.off && IsStrRule(text, r) {
        assert HideStrs(text, list)[|strs|] == Pattern(text, r.target);
      }
    }
  }

  lemma {:induction false} ExcludedIsDirect(text: Text, list: seq<Rule>, owners: seq<string>)
    ensures AnyExcludes(text, list, owners) <==> AnyMatches(text, ExclStrs(text, list), owners)
  {
    if list != [] {
      var front, r := list[..|list| - 1], list[|list| - 1];
      ExcludedIsDirect(text, front, owners);
      var strs := ExclStrs(text, front);
      assert forall j :: 0 <= j < |front| ==> list[j] == front[j];
      assert forall j :: 0 <= j < |strs| ==> ExclStrs(text, list)[j] == strs[j];
      if !r.off && Pattern(text, r.target) != "" {
        assert ExclStrs(text, list)[|strs|] == Pattern(text, r.target);
      }
    }
  }

  /** Matching against the compiled tables is interpreting the lists. */
  lemma CompiledIsDirect(text: Text, lists: Lists, c: Conn)
    ensures AnnotatedBy(text, lists, c, Annotated(text, Compiled(text, lists), c))
  {
    var r := Annotated(text, Compiled(text, lists), c);
    AliasIsDirect(text, lists, text.addr(c.raddr), c.alias, [c.owner, c.host, c.raddr]);
    AliasIsDirect(text, lists, text.addr(c.laddr), c.lalias, [c.lowner, c.lhost, c.laddr]);
    HiddenIsDirect(text, lists.hidden, text.addr(c.raddr), [r.alias, r.owner, r.host, r.raddr]);
    ExcludedIsDirect(text, lists.excluded, [r.owner, r.lowner]);
  }

  /** The direct reading leaves no choice: it names one annotated row. */
  lemma DirectReadingIsUnique(text: Text, lists: Lists, c: Conn, r: Conn)
    requires AnnotatedBy(text, lists, c, r)
    ensures r == Annotated(text, Compiled(text, lists), c)
  {
    CompiledIsDirect(text, lists, c);
    var s := Annotated(text, Compiled(text, lists), c);
    AliasUnique(text, lists.aliases, text.addr(c.raddr), c.alias, [c.owner, c.host, c.raddr], r.alias, s.alias);
    AliasUnique(text, lists.aliases, text.addr(c.laddr), c.lalias, [c.lowner, c.lhost, c.laddr], r.lalias, s.lalias);
    assert r.(hide := s.hide) == s;
    assert IsHidden(text, lists, r) == IsHidden(text, lists, s);
  }

  lemma AliasUnique(text: Text, aliases: seq<Rule>, ip: Option<Addr>, given: string, names: seq<string>, a: string,
                    b: string)
    requires AliasIs(text, aliases, ip, given, names, a) && AliasIs(text, aliases, ip, given, names, b)
    ensures a == b
  {
    forall m, n | NetPart(text, aliases, ip, m) && NetPart(text, aliases, ip, n)
      ensures m == n
    {
    }
  }
}
