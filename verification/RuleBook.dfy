/** The rule store: editing the lists, recompiling, and annotating rows in
    place (rules.go). */
module RuleBook {
  import opened Common
  import opened Conns
  import opened Net
  import opened RuleList
  import opened Rules
  import opened RuleMeaning

  /** The edits a user can make. */
  datatype Change =
    | SetAlias(target: string, name: string)
    | SetHidden(target: string, on: bool)
    | SetExcluded(target: string, on: bool)
    | ParkExclusion(target: string, off: bool)

  function Changed(text: Text, lists: Lists, change: Change): Lists {
    var target := text.trim(change.target);
    if target == "" then lists
    else
      match change
      case SetAlias(_, name) => lists.(aliases := Replaced(text.fold, lists.aliases, target, text.trim(name)))
      case SetHidden(_, on) => lists.(hidden := Replaced(text.fold, lists.hidden, target, if on then "hidden" else ""))
      case SetExcluded(_, on) =>
        lists.(excluded := Replaced(text.fold, lists.excluded, target, if on then "excluded" else ""))
      case ParkExclusion(_, off) => lists.(excluded := Parked(text.fold, lists.excluded, target, off))
  }

  function AllChanged(text: Text, lists: Lists, changes: seq<Change>): Lists {
    if changes == [] then lists
    else Changed(text, AllChanged(text, lists, changes[..|changes| - 1]), changes[|changes| - 1])
  }

  class Book {
    const text: Text
    const aliases: List
    const hidden: List
    const excluded: List
    var aliasNets: seq<NetRule>
    var aliasStrs: seq<StrRule>
    var hideNets: seq<Prefix>
    var hideStrs: seq<string>
    var exclStrs: seq<string>

    ghost predicate Shaped()
      reads this, aliases, hidden, excluded
    {
      && aliases.Valid() && hidden.Valid() && excluded.Valid()
      && aliases != hidden && aliases != excluded && hidden != excluded
      && aliases.data != hidden.data && aliases.data != excluded.data && hidden.data != excluded.data
    }

    ghost function Repr(): set<object>
      reads this, aliases, hidden, excluded
    {
      {this, aliases, hidden, excluded, aliases.data, hidden.data, excluded.data}
    }

    /** The tables always are what the lists compile to. */
    ghost predicate Valid()
      reads this, aliases, hidden, excluded, aliases.data, hidden.data, excluded.data
    {
      Shaped() && Compiles() == Compiled(text, Stored())
    }

    ghost function Stored(): Lists
      requires Shaped()
      reads this, aliases, hidden, excluded, aliases.data, hidden.data, excluded.data
    {
      Lists(aliases.View(), hidden.View(), excluded.View())
    }

    ghost function Compiles(): Tables
      reads this
    {
      Tables(aliasNets, aliasStrs, hideNets, hideStrs, exclStrs)
    }

    /** Starts from what the rules file holds. */
    constructor (text: Text, file: Lists)
      ensures Valid() && this.text == text && Stored() == file
      ensures fresh(Repr())
    {
      this.text := text;
      aliases := new List(file.aliases);
      hidden := new List(file.hidden);
      excluded := new List(file.excluded);
      aliasNets, aliasStrs, hideNets, hideStrs, exclStrs := [], [], [], [], [];
      new;
      Compile();
    }

    /** Rebuilds the matching forms. */
    method Compile()
      requires Shaped()
      modifies this
      ensures Valid() && Stored() == old(Stored())
    {
      aliasNets, aliasStrs := CompileAliases(aliases.View());
      hideNets, hideStrs := CompileHidden(hidden.View());
      exclStrs := CompileExcluded(excluded.View());
    }

    method CompileAliases(list: seq<Rule>) returns (nets: seq<NetRule>, strs: seq<StrRule>)
      ensures nets == AliasNets(text, list) && strs == AliasStrs(text, list)
    {
      nets, strs := [], [];
      for i := 0 to |list|
        invariant nets == AliasNets(text, list[..i]) && strs == AliasStrs(text, list[..i])
      {
        assert list[..i + 1][..i] == list[..i];
        var a := list[i];
        if a.name == "" || a.off {
          continue;
        }
        var p := ParseTarget(text, a.target);
        if p.Some? {
          nets := nets + [NetRule(p.value, a.name)];
        } else {
          var s := text.lower(text.trim(a.target));
          if s != "" {
            strs := strs + [StrRule(s, a.name)];
          }
        }
      }
      assert list[..|list|] == list;
    }

    method CompileHidden(list: seq<Rule>) returns (nets: seq<Prefix>, strs: seq<string>)
      ensures nets == HideNets(text, list) && strs == HideStrs(text, list)
    {
      nets, strs := [], [];
      for i := 0 to |list|
        invariant nets == HideNets(text, list[..i]) && strs == HideStrs(text, list[..i])
      {
        assert list[..i + 1][..i] == list[..i];
        var h := list[i];
        if h.off {
          continue;
        }
        var p := ParseTarget(text, h.target);
        if p.Some? {
          nets := nets + [p.value];
        } else {
          var s := text.lower(text.trim(h.target));
          if s != "" {
            strs := strs + [s];
          }
        }
      }
      assert list[..|list|] == list;
    }

    method CompileExcluded(list: seq<Rule>) returns (strs: seq<string>)
      ensures strs == ExclStrs(text, list)
    {
      strs := [];
      for i := 0 to |list|
        invariant strs == ExclStrs(text, list[..i])
      {
        assert list[..i + 1][..i] == list[..i];
        var s := text.lower(text.trim(list[i].target));
        if !list[i].off && s != "" {
          strs := strs + [s];
        }
      }
      assert list[..|list|] == list;
    }

    /** One edit of the stored lists; the tables follow. */
    method Make(change: Change)
      requires Valid()
      modifies Repr()
      ensures Valid() && Stored() == Changed(text, old(Stored()), change)
      ensures fresh(Repr() - old(Repr()))
    {
      var target := text.trim(change.target);
      if target == "" {
        return;
      }
      Store(change, target);
      Compile();
    }

    method Store(change: Change, target: string)
      requires Shaped() && target == text.trim(change.target) != ""
      modifies Repr()
      ensures Shaped() && Stored() == Changed(text, old(Stored()), change)
      ensures fresh(Repr() - old(Repr()))
    {
      match change {
        case SetAlias(_, name) =>
          aliases.Replace(text.fold, target, text.trim(name));
        case SetHidden(_, on) =>
          hidden.Replace(text.fold, target, if on then "hidden" else "");
        case SetExcluded(_, on) =>
          excluded.Replace(text.fold, target, if on then "excluded" else "");
        case ParkExclusion(_, off) =>
          excluded.Park(text.fold, target, off);
      }
    }

    /** A whole session of edits. */
    method MakeAll(changes: seq<Change>)
      requires Valid()
      modifies Repr()
      ensures Valid() && Stored() == AllChanged(text, old(Stored()), changes)
      ensures fresh(Repr() - old(Repr()))
      decreases |changes|
    {
      if changes != [] {
        MakeAll(changes[..|changes| - 1]);
        Make(changes[|changes| - 1]);
      }
    }

    /** The most specific network's alias, "" if none contains the address. */
    method AliasNet(ip: Addr) returns (name: string)
      ensures name == BestNet(aliasNets, ip).1
    {
      var best: int := -1;
      name := "";
      for i := 0 to |aliasNets|
        invariant (best, name) == BestNet(aliasNets[..i], ip)
      {
        assert aliasNets[..i + 1][..i] == aliasNets[..i];
        var n := aliasNets[i];
        if n.pfx.Contains(ip) && n.pfx.len > best {
          best, name := n.pfx.len, n.name;
        }
      }
      assert aliasNets[..|aliasNets|] == aliasNets;
    }

    /** The alias an address rule gives, before any lookup is made. */
    method AliasFor(addr: string) returns (name: string)
      ensures name == NetAlias(Compiles(), text.addr(addr))
      ensures Valid() && Reads(text) ==> NetAliasMeans(text, Stored().aliases, text.addr(addr), name)
    {
      if Valid() && Reads(text) {
        NetAliasIsMeant(text, Stored(), text.addr(addr));
      }
      var ip := text.addr(addr);
      if ip.None? {
        return "";
      }
      name := AliasNet(ip.value);
    }

    method AliasStr(names: seq<string>) returns (name: string)
      ensures name == FirstStr(text, aliasStrs, names)
    {
      for i := 0 to |aliasStrs|
        invariant FirstStr(text, aliasStrs, names) == FirstStr(text, aliasStrs[i..], names)
      {
        if MatchesName(text, aliasStrs[i].sub, names) {
          return aliasStrs[i].name;
        }
      }
      name := "";
    }

    method AliasEnd(ip: Option<Addr>, given: string, names: seq<string>) returns (alias: string)
      ensures alias == AliasOf(text, Compiles(), ip, given, names)
    {
      alias := given;
      if ip.Some? {
        var n := AliasNet(ip.value);
        if n != "" {
          alias := n;
        }
      }
      if alias == "" {
        alias := AliasStr(names);
      }
    }

    method Hides(c: Conn) returns (found: bool)
      ensures found <==> HiddenBy(text, Compiles(), c)
    {
      var ip := text.addr(c.raddr);
      if ip.Some? {
        for i := 0 to |hideNets|
          invariant forall j :: 0 <= j < i ==> !hideNets[j].Contains(ip.value)
        {
          if hideNets[i].Contains(ip.value) {
            return true;
          }
        }
      }
      for i := 0 to |hideStrs|
        invariant forall j :: 0 <= j < i ==> !MatchesName(text, hideStrs[j], [c.alias, c.owner, c.host, c.raddr])
      {
        if MatchesName(text, hideStrs[i], [c.alias, c.owner, c.host, c.raddr]) {
          return true;
        }
      }
      for i := 0 to |exclStrs|
        invariant forall j :: 0 <= j < i ==> !MatchesName(text, exclStrs[j], [c.owner, c.lowner])
      {
        if MatchesName(text, exclStrs[i], [c.owner, c.lowner]) {
          return true;
        }
      }
      found := false;
    }

    /** Annotates row `i` in place, by the rules stored right now. */
    method Apply(rows: array<Conn>, i: nat)
      requires Valid() && i < rows.Length
      modifies rows
      ensures AnnotatedBy(text, Stored(), old(rows[i]), rows[i])
      ensures Reads(text) ==> Means(text, Stored(), old(rows[i]), rows[i])
      ensures rows[..] == old(rows[..])[i := Annotated(text, Compiles(), old(rows[i]))]
    {
      var given := rows[i];
      var c := rows[i].(hide := false);
      var alias := AliasEnd(text.addr(c.raddr), c.alias, [c.owner, c.host, c.raddr]);
      c := c.(alias := alias);
      var lalias := AliasEnd(text.addr(c.laddr), c.lalias, [c.lowner, c.lhost, c.laddr]);
      c := c.(lalias := lalias);
      var found := Hides(c);
      rows[i] := c.(hide := found);
      assert rows[i] == Annotated(text, Compiles(), given);
      CompiledIsDirect(text, Stored(), given);
      if Reads(text) {
        AnnotatingMeans(text, Stored(), given, rows[i]);
      }
    }
  }
}
