/** What annotating a row promises, and where it falls short (rules.go and the
    row loop of main.go). */
module RuleLaws {
  import opened Common
  import opened Conns
  import opened Net
  import opened RuleList
  import opened Rules
  import opened RuleBook

  /** Annotating twice is annotating once. */
  lemma ApplyTwice(text: Text, t: Tables, c: Conn)
    ensures Annotated(text, t, Annotated(text, t, c)) == Annotated(text, t, c)
  {
    var r := Annotated(text, t, c);
    var named := r.(alias := AliasOf(text, t, text.addr(c.raddr), r.alias, [c.owner, c.host, c.raddr]),
                    lalias := AliasOf(text, t, text.addr(c.laddr), r.lalias, [c.lowner, c.lhost, c.laddr]));
    assert named == r;
    assert HiddenBy(text, t, r) == HiddenBy(text, t, r.(hide := c.hide));
  }

  /** The hide flag a row came with never matters. */
  lemma HideIsRecomputed(text: Text, t: Tables, c: Conn, before: bool)
    ensures Annotated(text, t, c.(hide := before)) == Annotated(text, t, c)
  {
    var a := Annotated(text, t, c.(hide := before));
    var b := Annotated(text, t, c);
    assert a.(hide := b.hide) == b;
    assert HiddenBy(text, t, a.(hide := before)) == HiddenBy(text, t, b.(hide := c.hide));
  }

  lemma AnnotatedAliases(text: Text, t: Tables, c: Conn)
    ensures Annotated(text, t, c).alias == AliasOf(text, t, text.addr(c.raddr), c.alias, [c.owner, c.host, c.raddr])
    ensures Annotated(text, t, c).lalias == AliasOf(text, t, text.addr(c.laddr), c.lalias, [c.lowner, c.lhost, c.laddr])
  {
  }

  lemma AnnotatedHide(text: Text, t: Tables, c: Conn)
    ensures var r := Annotated(text, t, c);
      && r == c.(alias := r.alias, lalias := r.lalias, hide := r.hide)
      && (r.hide <==> AnyContains(t.hideNets, text.addr(r.raddr))
                      || AnyMatches(text, t.hideStrs, [r.alias, r.owner, r.host, r.raddr])
                      || AnyMatches(text, t.exclStrs, [r.owner, r.lowner]))
  {
  }

  // ---- aliases a row already carries ----

  /** The alias an end carried makes no difference: an address rule names it
      anyway, it carried none, or the name patterns give the same. */
  predicate CarriedIsMoot(text: Text, t: Tables, ip: Option<Addr>, given: string, names: seq<string>) {
    || NetAlias(t, ip) != ""
    || given == ""
    || given == FirstStr(text, t.aliasStrs, names)
  }

  lemma CarriedAlias(text: Text, t: Tables, ip: Option<Addr>, given: string, names: seq<string>)
    ensures AliasOf(text, t, ip, given, names) == AliasOf(text, t, ip, "", names) <==>
      CarriedIsMoot(text, t, ip, given, names)
  {
  }

  /** An alias a row carries yields only to an address rule. So a row frozen
      under a rule since deleted is annotated like a fresh one, hide flag and
      all, iff what it carried is moot at both ends. */
  lemma StaleAliasExactly(text: Text, t: Tables, c: Conn)
    ensures Annotated(text, t, c) == Annotated(text, t, c.(alias := "", lalias := "")) <==>
      && CarriedIsMoot(text, t, text.addr(c.raddr), c.alias, [c.owner, c.host, c.raddr])
      && CarriedIsMoot(text, t, text.addr(c.laddr), c.lalias, [c.lowner, c.lhost, c.laddr])
  {
    var d := c.(alias := "", lalias := "");
    AnnotatedAliases(text, t, c);
    AnnotatedAliases(text, t, d);
    AnnotatedHide(text, t, c);
    AnnotatedHide(text, t, d);
    CarriedAlias(text, t, text.addr(c.raddr), c.alias, [c.owner, c.host, c.raddr]);
    CarriedAlias(text, t, text.addr(c.laddr), c.lalias, [c.lowner, c.lhost, c.laddr]);
  }

  /** Hidden by something other than its alias. */
  predicate HiddenAnyway(text: Text, t: Tables, c: Conn) {
    || AnyContains(t.hideNets, text.addr(c.raddr))
    || AnyMatches(text, t.hideStrs, [c.owner, c.host, c.raddr])
    || AnyMatches(text, t.exclStrs, [c.owner, c.lowner])
  }

  lemma AliasApart(text: Text, patterns: seq<string>, alias: string, names: seq<string>)
    ensures AnyMatches(text, patterns, [alias] + names) <==>
      AnyMatches(text, patterns, [alias]) || AnyMatches(text, patterns, names)
  {
    forall sub
      ensures MatchesName(text, sub, [alias] + names) <==>
        MatchesName(text, sub, [alias]) || MatchesName(text, sub, names)
    {
      var all := [alias] + names;
      assert all[0] == [alias][0];
      assert forall i :: 0 <= i < |names| ==> all[i + 1] == names[i];
    }
  }

  /** The hide flag alone comes out the same iff the row is hidden anyway, or
      its alias is moot, or the hide patterns judge it as they judge the alias
      the name patterns give. */
  lemma StaleHideExactly(text: Text, t: Tables, c: Conn)
    ensures var names := [c.owner, c.host, c.raddr];
      Annotated(text, t, c).hide == Annotated(text, t, c.(alias := "")).hide <==>
        || HiddenAnyway(text, t, c)
        || CarriedIsMoot(text, t, text.addr(c.raddr), c.alias, names)
        || (AnyMatches(text, t.hideStrs, [c.alias]) <==>
            AnyMatches(text, t.hideStrs, [FirstStr(text, t.aliasStrs, names)]))
  {
    var a, b := Annotated(text, t, c), Annotated(text, t, c.(alias := ""));
    AnnotatedAliases(text, t, c);
    AnnotatedAliases(text, t, c.(alias := ""));
    AnnotatedHide(text, t, c);
    AnnotatedHide(text, t, c.(alias := ""));
    var names := [c.owner, c.host, c.raddr];
    assert [a.alias] + names == [a.alias, c.owner, c.host, c.raddr] &&
      [b.alias] + names == [b.alias, c.owner, c.host, c.raddr];
    AliasApart(text, t.hideStrs, a.alias, names);
    AliasApart(text, t.hideStrs, b.alias, names);
  }

  /** A ghost hidden under an alias stays hidden after the user deletes that
      alias, while a fresh row of the same socket shows: for any text, any name
      pattern, and any alias that the one hide rule matches. */
  lemma DeletedAliasStillHides(text: Text, target: string, name: string, hider: Rule, row: Conn)
    returns (named: Lists, deleted: Lists, frozen: Conn)
    requires text.trim(target) == target != "" && text.trim(name) == name != "" && text.trim("") == ""
    requires row.alias == "" && !hider.off
    requires IsStrRule(text, Rule(target, name, false)) &&
      MatchesName(text, Pattern(text, target), [row.owner, row.host, row.raddr])
    requires IsStrRule(text, hider) && MatchesName(text, Pattern(text, hider.target), [name])
    requires !MatchesName(text, Pattern(text, hider.target), [row.owner, row.host, row.raddr])
    ensures named == Changed(text, Lists([], [hider], []), SetAlias(target, name))
    ensures deleted == Changed(text, named, SetAlias(target, ""))
    ensures frozen == Annotated(text, Compiled(text, named), row)
    ensures var kept := Annotated(text, Compiled(text, deleted), frozen); kept.alias == name && kept.hide
    ensures var bare := Annotated(text, Compiled(text, deleted), row); bare.alias == "" && !bare.hide
  {
    named := Changed(text, Lists([], [hider], []), SetAlias(target, name));
    deleted := Changed(text, named, SetAlias(target, ""));
    frozen := Annotated(text, Compiled(text, named), row);
    OneRule(text, Rule(target, name, false), hider);
    PatternNames(text, StrRule(Pattern(text, target), name), Pattern(text, hider.target), row);
    HiderAlone(text, Pattern(text, hider.target), frozen);
    HiderAlone(text, Pattern(text, hider.target), row);
    assert !MatchesName(text, Pattern(text, hider.target), [""]);
  }

  lemma PatternNames(text: Text, s: StrRule, sub: string, c: Conn)
    requires c.alias == "" && MatchesName(text, s.sub, [c.owner, c.host, c.raddr])
    ensures var r := Annotated(text, Tables([], [s], [], [sub], []), c);
      r.alias == s.name && r.owner == c.owner && r.host == c.host && r.raddr == c.raddr
  {
    var t := Tables([], [s], [], [sub], []);
    AnnotatedAliases(text, t, c);
    AnnotatedHide(text, t, c);
    assert t.aliasStrs[0] == s;
  }

  /** With one hide pattern and no other rule. */
  lemma HiderAlone(text: Text, sub: string, c: Conn)
    ensures var r := Annotated(text, Tables([], [], [], [sub], []), c);
      && r.alias == c.alias
      && (r.hide <==> MatchesName(text, sub, [c.alias]) || MatchesName(text, sub, [c.owner, c.host, c.raddr]))
  {
    var t := Tables([], [], [], [sub], []);
    AnnotatedAliases(text, t, c);
    AnnotatedHide(text, t, c);
    AliasApart(text, [sub], c.alias, [c.owner, c.host, c.raddr]);
    assert [c.alias] + [c.owner, c.host, c.raddr] == [c.alias, c.owner, c.host, c.raddr];
    OnePattern(text, sub, [c.alias]);
    OnePattern(text, sub, [c.owner, c.host, c.raddr]);
  }

  lemma OnePattern(text: Text, sub: string, names: seq<string>)
    ensures AnyMatches(text, [sub], names) <==> MatchesName(text, sub, names)
  {
    assert [sub][0] == sub;
  }

  lemma OneRule(text: Text, r: Rule, hider: Rule)
    requires r.name != "" && !r.off && IsStrRule(text, r) && !hider.off && IsStrRule(text, hider)
    ensures Compiled(text, Lists([r], [hider], [])) ==
      Tables([], [StrRule(Pattern(text, r.target), r.name)], [], [Pattern(text, hider.target)], [])
    ensures Compiled(text, Lists([], [hider], [])) == Tables([], [], [], [Pattern(text, hider.target)], [])
    ensures Others(text.fold, [], r.target) == [] && Others(text.fold, [r], r.target) == []
  {
    assert [r][..0] == [] && [hider][..0] == [];
    assert ParseTarget(text, r.target).None? && ParseTarget(text, hider.target).None?;
    assert AliasNets(text, [r]) == [] && HideNets(text, [hider]) == [];
    var none: seq<Rule> := [];
    assert AliasNets(text, none) == [] && AliasStrs(text, none) == [] && ExclStrs(text, none) == [];
    assert AliasStrs(text, [r]) == [] + [StrRule(Pattern(text, r.target), r.name)];
    assert HideStrs(text, [hider]) == [] + [Pattern(text, hider.target)];
  }
}
