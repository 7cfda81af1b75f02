/** Whole editing sessions (rules.go): which rules are in force after them, and
    what that makes of a row. */
module RuleEdits {
  import opened Common
  import opened Conns
  import opened Net
  import opened RuleList
  import opened Rules
  import opened RuleBook

  /** The three lists. */
  datatype Which = Aliases | Hidden | Excluded

  function ListOf(lists: Lists, which: Which): seq<Rule> {
    match which
    case Aliases => lists.aliases
    case Hidden => lists.hidden
    case Excluded => lists.excluded
  }

  /** What a change does to one list. A blank target changes nothing. */
  function EditOf(text: Text, which: Which, change: Change): Option<Edit> {
    var target := text.trim(change.target);
    if target == "" then None
    else
      match (which, change)
      case (Aliases, SetAlias(_, name)) => Some(Write(target, text.trim(name)))
      case (Hidden, SetHidden(_, on)) => Some(Write(target, if on then "hidden" else ""))
      case (Excluded, SetExcluded(_, on)) => Some(Write(target, if on then "excluded" else ""))
      case (Excluded, ParkExclusion(_, off)) => Some(SetOff(target, off))
      case _ => None
  }

  function EditsOf(text: Text, which: Which, changes: seq<Change>): seq<Edit> {
    if changes == [] then []
    else
      var front := EditsOf(text, which, changes[..|changes| - 1]);
      match EditOf(text, which, changes[|changes| - 1])
      case None => front
      case Some(e) => front + [e]
  }

  lemma ChangeEdits(text: Text, lists: Lists, change: Change, which: Which)
    ensures ListOf(Changed(text, lists, change), which) ==
      match EditOf(text, which, change)
      case None => ListOf(lists, which)
      case Some(e) => Edited(text.fold, ListOf(lists, which), e)
  {
  }

  lemma OneMoreChange(fold: Fold, list: seq<Rule>, edits: seq<Edit>, e: Edit)
    ensures EditAll(fold, list, edits + [e]) == Edited(fold, EditAll(fold, list, edits), e)
  {
    assert (edits + [e])[..|edits|] == edits;
  }

  /** Every list goes its own way through a session. */
  lemma {:induction false} SessionEdits(text: Text, file: Lists, changes: seq<Change>, which: Which)
    ensures ListOf(AllChanged(text, file, changes), which) ==
      EditAll(text.fold, ListOf(file, which), EditsOf(text, which, changes))
  {
    if changes != [] {
      var front, last := changes[..|changes| - 1], changes[|changes| - 1];
      SessionEdits(text, file, front, which);
      ChangeEdits(text, AllChanged(text, file, front), last, which);
      var edits := EditsOf(text, which, front);
      match EditOf(text, which, last) {
        case None =>
        case Some(e) => OneMoreChange(text.fold, ListOf(file, which), edits, e);
      }
    }
  }

  // ---- what one edit leaves ----

  /** An alias set is the one rule there is for its target; one set blank leaves
      none. Rules for other targets stay, as do the other lists. */
  lemma AliasSet(text: Text, lists: Lists, target: string, name: string, r: Rule)
    requires text.trim(target) != ""
    ensures var changed := Changed(text, lists, SetAlias(target, name));
      && changed.hidden == lists.hidden && changed.excluded == lists.excluded
      && (r in changed.aliases <==>
            if text.fold(r.target) != text.fold(text.trim(target)) then r in lists.aliases
            else text.trim(name) != "" && r == Rule(text.trim(target), text.trim(name), false))
  {
    InReplaced(text.fold, lists.aliases, text.trim(target), text.trim(name), r);
  }

  /** A target hidden has one hide rule, in force; one shown again has none. */
  lemma HiddenSet(text: Text, lists: Lists, target: string, on: bool, r: Rule)
    requires text.trim(target) != ""
    ensures var changed := Changed(text, lists, SetHidden(target, on));
      && changed.aliases == lists.aliases && changed.excluded == lists.excluded
      && (r in changed.hidden <==>
            if text.fold(r.target) != text.fold(text.trim(target)) then r in lists.hidden
            else on && r == Rule(text.trim(target), "hidden", false))
  {
    InReplaced(text.fold, lists.hidden, text.trim(target), if on then "hidden" else "", r);
  }

  /** The same of exclusions. */
  lemma ExclusionSet(text: Text, lists: Lists, target: string, on: bool, r: Rule)
    requires text.trim(target) != ""
    ensures var changed := Changed(text, lists, SetExcluded(target, on));
      && changed.aliases == lists.aliases && changed.hidden == lists.hidden
      && (r in changed.excluded <==>
            if text.fold(r.target) != text.fold(text.trim(target)) then r in lists.excluded
            else on && r == Rule(text.trim(target), "excluded", false))
  {
    InReplaced(text.fold, lists.excluded, text.trim(target), if on then "excluded" else "", r);
  }

  /** A parked exclusion is there as before, out of force; a revived one in it. */
  lemma ExclusionParked(text: Text, lists: Lists, target: string, off: bool, i: nat)
    requires text.trim(target) != "" && i < |lists.excluded|
    ensures var changed := Changed(text, lists, ParkExclusion(target, off));
      && changed.aliases == lists.aliases && changed.hidden == lists.hidden
      && |changed.excluded| == |lists.excluded|
      && changed.excluded[i].(off := lists.excluded[i].off) == lists.excluded[i]
      && changed.excluded[i].off == if text.fold(lists.excluded[i].target) == text.fold(text.trim(target)) then off
                                    else lists.excluded[i].off
  {
    var parked := Parked(text.fold, lists.excluded, text.trim(target), off);
    assert Changed(text, lists, ParkExclusion(target, off)) == lists.(excluded := parked);
  }

  /** In force after the session: the last write to its target, or a rule of the
      file nothing was written over, parked or not by the last parking since. */
  ghost predicate Stands(text: Text, file: Lists, changes: seq<Change>, which: Which, r: Rule) {
    InForce(text.fold, ListOf(file, which), EditsOf(text, which, changes), r)
  }

  lemma StandsIsListed(text: Text, file: Lists, changes: seq<Change>, which: Which)
    ensures forall r :: r in ListOf(AllChanged(text, file, changes), which) <==> Stands(text, file, changes, which, r)
  {
    SessionEdits(text, file, changes, which);
    forall r
      ensures r in ListOf(AllChanged(text, file, changes), which) <==> Stands(text, file, changes, which, r)
    {
      ListIsInForce(text.fold, ListOf(file, which), EditsOf(text, which, changes), r);
    }
  }

  /** After any session a row is hidden iff some hide rule in force matches it or
      some exclusion in force matches an owner. */
  lemma SessionHides(text: Text, file: Lists, changes: seq<Change>, row: Conn)
    ensures var r := Annotated(text, Compiled(text, AllChanged(text, file, changes)), row);
      r.hide <==>
        || (exists h ::
            Stands(text, file, changes, Hidden, h) &&
              HideMatches(text, h, text.addr(r.raddr), [r.alias, r.owner, r.host, r.raddr]))
        || (exists e :: Stands(text, file, changes, Excluded, e) && ExclusionMatches(text, e, [r.owner, r.lowner]))
  {
    var lists := AllChanged(text, file, changes);
    var r := Annotated(text, Compiled(text, lists), row);
    CompiledIsDirect(text, lists, row);
    StandsIsListed(text, file, changes, Hidden);
    StandsIsListed(text, file, changes, Excluded);
    AnyHidesByMember(text, lists.hidden, text.addr(r.raddr), [r.alias, r.owner, r.host, r.raddr]);
    AnyExcludesByMember(text, lists.excluded, [r.owner, r.lowner]);
  }

  lemma AnyHidesByMember(text: Text, list: seq<Rule>, ip: Option<Addr>, names: seq<string>)
    ensures AnyHides(text, list, ip, names) <==> exists h :: h in list && HideMatches(text, h, ip, names)
  {
    if AnyHides(text, list, ip, names) {
      var i :| 0 <= i < |list| && HideMatches(text, list[i], ip, names);
      assert list[i] in list;
    }
  }

  lemma AnyExcludesByMember(text: Text, list: seq<Rule>, owners: seq<string>)
    ensures AnyExcludes(text, list, owners) <==> exists e :: e in list && ExclusionMatches(text, e, owners)
  {
    if AnyExcludes(text, list, owners) {
      var i :| 0 <= i < |list| && ExclusionMatches(text, list[i], owners);
      assert list[i] in list;
    }
  }

  /** The rule names the address, and no rule in force names it more closely. */
  ghost predicate Closest(text: Text, file: Lists, changes: seq<Change>, ip: Addr, r: Rule) {
    && Stands(text, file, changes, Aliases, r) && AliasNetMatches(text, r, ip)
    && forall q :: Stands(text, file, changes, Aliases, q) && AliasNetMatches(text, q, ip) ==>
         ParseTarget(text, q.target).value.len <= ParseTarget(text, r.target).value.len
  }

  /** The same of a plain list. */
  ghost predicate ClosestIn(text: Text, list: seq<Rule>, ip: Addr, r: Rule) {
    && r in list && AliasNetMatches(text, r, ip)
    && forall q :: q in list && AliasNetMatches(text, q, ip) ==>
         ParseTarget(text, q.target).value.len <= ParseTarget(text, r.target).value.len
  }

  lemma NetAliasByMember(text: Text, list: seq<Rule>, ip: Addr, name: string)
    requires NetAliasIs(text, list, ip, name)
    ensures name == "" <==> forall r :: r in list ==> !AliasNetMatches(text, r, ip)
    ensures name != "" ==> exists r :: ClosestIn(text, list, ip, r) && r.name == name
  {
    if i: nat :| BestNetAlias(text, list, ip, i) && name == list[i].name {
      assert list[i] in list;
      assert ClosestIn(text, list, ip, list[i]);
    }
  }

  /** The alias an address gets is that of a closest rule in force; it gets none
      iff no rule in force names it. */
  lemma SessionAliases(text: Text, file: Lists, changes: seq<Change>, ip: Addr)
    ensures var name := NetAlias(Compiled(text, AllChanged(text, file, changes)), Some(ip));
      && (name == "" <==> forall r :: Stands(text, file, changes, Aliases, r) ==> !AliasNetMatches(text, r, ip))
      && (name != "" ==> exists r :: Closest(text, file, changes, ip, r) && r.name == name)
  {
    var lists := AllChanged(text, file, changes);
    var name := NetAlias(Compiled(text, lists), Some(ip));
    NetAliasIsDirect(text, lists, ip);
    NetAliasByMember(text, lists.aliases, ip, name);
    StandsIsListed(text, file, changes, Aliases);
    if name != "" {
      var r :| ClosestIn(text, lists.aliases, ip, r) && r.name == name;
      assert Closest(text, file, changes, ip, r);
    }
  }

  /** The alias the name patterns give is that of some pattern in force that
      matches; none iff none matches. */
  lemma SessionPatterns(text: Text, file: Lists, changes: seq<Change>, names: seq<string>)
    ensures var name := FirstStr(text, Compiled(text, AllChanged(text, file, changes)).aliasStrs, names);
      && (name == "" <==> forall r :: Stands(text, file, changes, Aliases, r) ==> !AliasStrMatches(text, r, names))
      && (name != "" ==> exists r ::
          Stands(text, file, changes, Aliases, r) && AliasStrMatches(text, r, names) && r.name == name)
  {
    var list := AllChanged(text, file, changes).aliases;
    StrAliasIsDirect(text, list, names);
    PatternByMember(text, list, names, FirstStr(text, AliasStrs(text, list), names));
    StandsIsListed(text, file, changes, Aliases);
  }

  lemma PatternByMember(text: Text, list: seq<Rule>, names: seq<string>, name: string)
    requires StrAliasIs(text, list, names, name)
    ensures name == "" <==> forall r :: r in list ==> !AliasStrMatches(text, r, names)
    ensures name != "" ==> exists r :: r in list && AliasStrMatches(text, r, names) && r.name == name
  {
    if i: nat :| FirstStrAlias(text, list, names, i) && name == list[i].name {
      assert list[i] in list;
    }
  }
}
