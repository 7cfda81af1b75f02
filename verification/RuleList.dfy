/** The stored rule lists and their in-place editing (rules.go). */
module RuleList {
  import opened Common

  /** A stored rule; `off` parks it without deleting it. */
  datatype Rule = Rule(target: string, name: string, off: bool)

  /** Case folding: two targets are the same rule iff they fold alike. */
  type Fold = string -> string

  /** The rules for other targets, in order. */
  function Others(fold: Fold, list: seq<Rule>, target: string): (r: seq<Rule>)
    ensures |r| <= |list|
  {
    if list == [] then []
    else
      var front := Others(fold, list[..|list| - 1], target);
      var e := list[|list| - 1];
      if fold(e.target) != fold(target) then front + [e] else front
  }

  lemma OthersGrow(fold: Fold, list: seq<Rule>, i: nat, target: string)
    requires i < |list|
    ensures Others(fold, list[..i + 1], target) ==
      if fold(list[i].target) != fold(target) then Others(fold, list[..i], target) + [list[i]]
      else Others(fold, list[..i], target)
  {
    assert list[..i + 1][..i] == list[..i];
  }

  /** Filter, then append: what an edit is meant to do. */
  function Replaced(fold: Fold, list: seq<Rule>, target: string, name: string): seq<Rule> {
    Others(fold, list, target) + if name != "" then [Rule(target, name, false)] else []
  }

  function Parked(fold: Fold, list: seq<Rule>, target: string, off: bool): (r: seq<Rule>)
    ensures |r| == |list|
    ensures forall i :: 0 <= i < |list| ==>
      r[i] == if fold(list[i].target) == fold(target) then list[i].(off := off) else list[i]
  {
    seq(|list|, i requires 0 <= i < |list| =>
      if fold(list[i].target) == fold(target) then list[i].(off := off) else list[i])
  }

  /** A growable list over one backing array, edited in place. */
  class List {
    var data: array<Rule>
    var len: nat

    ghost predicate Valid()
      reads this
    {
      len <= data.Length
    }

    function View(): seq<Rule>
      requires Valid()
      reads this, data
    {
      data[..len]
    }

    constructor (rules: seq<Rule>)
      ensures Valid() && fresh(data) && View() == rules
    {
      data := new Rule[|rules|](i requires 0 <= i < |rules| => rules[i]);
      len := |rules|;
    }

    /** Sets target to name, or removes it when name is empty. */
    method Replace(fold: Fold, target: string, name: string)
      requires Valid()
      modifies this, data
      ensures Valid() && (data == old(data) || fresh(data))
      ensures View() == Replaced(fold, old(View()), target, name)
    {
      len := Filter(fold, target);
      if name != "" {
        Append(Rule(target, name, false));
      }
    }

    /** The first `i` of the given rules are filtered into the first `out` slots;
        the others are where they were. */
    ghost predicate Filtered(fold: Fold, target: string, given: seq<Rule>, i: nat, out: nat)
      requires Valid()
      reads this, data
    {
      && out <= i <= |given| == len
      && data[..out] == Others(fold, given[..i], target)
      && data[i..len] == given[i..]
    }

    /** Moves the rules for other targets to the front. They are written over
        the very slots still being read. */
    method Filter(fold: Fold, target: string) returns (out: nat)
      requires Valid()
      modifies data
      ensures out <= len && data[..out] == Others(fold, old(View()), target)
    {
      ghost var given := View();
      out := 0;
      for i := 0 to len
        invariant Filtered(fold, target, given, i, out)
      {
        out := FilterOne(fold, target, given, i, out);
      }
      assert given[..len] == given;
    }

    method FilterOne(fold: Fold, target: string, ghost given: seq<Rule>, i: nat, out: nat) returns (out': nat)
      requires Valid() && i < len && Filtered(fold, target, given, i, out)
      modifies data
      ensures Filtered(fold, target, given, i + 1, out')
    {
      var e := data[i];
      assert e == data[i..len][0] == given[i..][0];
      assert data[i..len][1..] == given[i..][1..];
      OthersGrow(fold, given, i, target);
      out' := out;
      if fold(e.target) != fold(target) {
        Put(out, e);
        out' := out + 1;
      }
    }

    /** Overwrites one slot. */
    method Put(at: nat, e: Rule)
      requires at < data.Length
      modifies data
      ensures data[..at + 1] == old(data[..at]) + [e]
      ensures forall k :: at < k < data.Length ==> data[k] == old(data[k])
    {
      data[at] := e;
    }

    /** Appends in place while there is room, else in a larger copy. */
    method Append(e: Rule)
      requires Valid()
      modifies this, data
      ensures Valid() && (data == old(data) || fresh(data))
      ensures View() == old(View()) + [e]
    {
      if len < data.Length {
        data[len] := e;
      } else {
        var cells := View() + [e] + View();
        data := new Rule[|cells|](i requires 0 <= i < |cells| => cells[i]);
      }
      len := len + 1;
    }

    /** Parks or revives every rule for the target. */
    method Park(fold: Fold, target: string, off: bool)
      requires Valid()
      modifies data
      ensures Valid() && View() == Parked(fold, old(View()), target, off)
    {
      ghost var want := Parked(fold, View(), target, off);
      for i := 0 to len
        invariant data[..i] == want[..i] && data[i..len] == old(View())[i..]
      {
        assert data[i] == data[i..len][0] == old(View())[i..][0];
        if fold(data[i].target) == fold(target) {
          data[i] := data[i].(off := off);
        }
        assert forall k :: i + 1 <= k < len ==> data[k] == old(View())[k];
      }
    }
  }

  // ---- what editing means ----

  /** The rule in force for a target. */
  function Find(fold: Fold, list: seq<Rule>, target: string): Option<Rule> {
    if list == [] then None
    else
      var e := list[|list| - 1];
      if fold(e.target) == fold(target) then Some(e) else Find(fold, list[..|list| - 1], target)
  }

  /** No two rules are for one target. */
  ghost predicate Unique(fold: Fold, list: seq<Rule>) {
    forall i, j :: 0 <= i < j < |list| ==> fold(list[i].target) != fold(list[j].target)
  }

  lemma {:induction false} OthersFind(fold: Fold, list: seq<Rule>, target: string, key: string)
    ensures Find(fold, Others(fold, list, target), key) ==
      if fold(key) == fold(target) then None else Find(fold, list, key)
  {
    if list != [] {
      var front, e := list[..|list| - 1], list[|list| - 1];
      OthersFind(fold, front, target, key);
      var rest := Others(fold, front, target);
      assert (rest + [e])[..|rest|] == rest;
    }
  }

  /** An edit is a map update, or a deletion when the name is empty: the edited
      target gets the new rule, every other target keeps its own. */
  lemma ReplaceUpdates(fold: Fold, list: seq<Rule>, target: string, name: string, key: string)
    ensures Find(fold, Replaced(fold, list, target, name), key) ==
      if fold(key) != fold(target) then Find(fold, list, key)
      else if name == "" then None else Some(Rule(target, name, false))
  {
    var rest := Others(fold, list, target);
    OthersFind(fold, list, target, key);
    if name != "" {
      var all := rest + [Rule(target, name, false)];
      assert all[..|all| - 1] == rest;
    } else {
      assert rest + [] == rest;
    }
  }

  /** Where a surviving rule came from. */
  lemma {:induction false} OthersFrom(fold: Fold, list: seq<Rule>, target: string)
    ensures forall i ::
      0 <= i < |Others(fold, list, target)| ==> fold(Others(fold, list, target)[i].target) != fold(target)
    ensures Unique(fold, list) ==> Unique(fold, Others(fold, list, target))
    ensures forall e :: e in Others(fold, list, target) ==> e in list
  {
    if list != [] {
      var front, e := list[..|list| - 1], list[|list| - 1];
      OthersFrom(fold, front, target);
      if Unique(fold, list) {
        assert Unique(fold, front);
        assert forall r :: r in front ==> fold(r.target) != fold(e.target) by {
          forall r | r in front
            ensures fold(r.target) != fold(e.target)
          {
            var k :| 0 <= k < |front| && front[k] == r;
            assert list[k] == r;
          }
        }
      }
    }
  }

  /** One rule per target stays one rule per target. */
  lemma ReplaceKeepsUnique(fold: Fold, list: seq<Rule>, target: string, name: string)
    requires Unique(fold, list)
    ensures Unique(fold, Replaced(fold, list, target, name))
  {
    OthersFrom(fold, list, target);
  }

  lemma {:induction false} ParkUpdates(fold: Fold, list: seq<Rule>, target: string, off: bool, key: string)
    ensures Find(fold, Parked(fold, list, target, off), key) ==
      match Find(fold, list, key)
      case None => None
      case Some(r) => Some(if fold(key) == fold(target) then r.(off := off) else r)
  {
    if list != [] {
      var n := |list| - 1;
      assert Parked(fold, list, target, off)[..n] == Parked(fold, list[..n], target, off);
      ParkUpdates(fold, list[..n], target, off, key);
    }
  }

  lemma ParkKeepsUnique(fold: Fold, list: seq<Rule>, target: string, off: bool)
    requires Unique(fold, list)
    ensures Unique(fold, Parked(fold, list, target, off))
  {
  }

  // ---- whole sequences of edits ----

  /** Writing sets or, with an empty name, deletes; parking switches off and on. */
  datatype Edit = Write(target: string, name: string) | SetOff(target: string, off: bool)

  function Edited(fold: Fold, list: seq<Rule>, e: Edit): seq<Rule> {
    match e
    case Write(target, name) => Replaced(fold, list, target, name)
    case SetOff(target, off) => Parked(fold, list, target, off)
  }

  function EditAll(fold: Fold, list: seq<Rule>, edits: seq<Edit>): seq<Rule> {
    if edits == [] then list
    else Edited(fold, EditAll(fold, list, edits[..|edits| - 1]), edits[|edits| - 1])
  }

  predicate Writes(fold: Fold, e: Edit, key: string) {
    e.Write? && fold(e.target) == fold(key)
  }

  predicate Parks(fold: Fold, e: Edit, key: string) {
    e.SetOff? && fold(e.target) == fold(key)
  }

  /** The last edit that writes the key's rule; -1 if none does. */
  function LastWrite(fold: Fold, edits: seq<Edit>, key: string): (w: int)
    ensures -1 <= w < |edits|
    ensures w >= 0 ==> Writes(fold, edits[w], key)
    ensures forall j :: w < j < |edits| ==> !Writes(fold, edits[j], key)
  {
    if edits == [] then -1
    else if Writes(fold, edits[|edits| - 1], key) then |edits| - 1
    else LastWrite(fold, edits[..|edits| - 1], key)
  }

  /** The last edit from `from` on that parks or revives the key's rule; -1 if
      none does. */
  function LastPark(fold: Fold, edits: seq<Edit>, from: nat, key: string): (p: int)
    ensures p == -1 || from <= p < |edits|
    ensures p >= 0 ==> Parks(fold, edits[p], key)
    ensures forall j :: from <= j < |edits| && p < j ==> !Parks(fold, edits[j], key)
  {
    if |edits| <= from then -1
    else if Parks(fold, edits[|edits| - 1], key) then |edits| - 1
    else LastPark(fold, edits[..|edits| - 1], from, key)
  }

  /** What the edits leave a rule at: parked or not by the last edit to say so. */
  function Left(r: Rule, edits: seq<Edit>, p: int): Rule
    requires p < |edits| && (p >= 0 ==> edits[p].SetOff?)
  {
    if p >= 0 then r.(off := edits[p].off) else r
  }

  /** The rule is the key's last write, or an original one if there was no
      write, parked or not by the last parking since. */
  ghost predicate InForce(fold: Fold, list: seq<Rule>, edits: seq<Edit>, r: Rule) {
    var w := LastWrite(fold, edits, r.target);
    LeftBy(fold, list, edits, w, LastPark(fold, edits, w + 1, r.target), r)
  }

  ghost predicate LeftBy(fold: Fold, list: seq<Rule>, edits: seq<Edit>, w: int, p: int, r: Rule)
    requires w < |edits| && (w >= 0 ==> edits[w].Write?) && p < |edits| && (p >= 0 ==> edits[p].SetOff?)
  {
    if w >= 0 then edits[w].name != "" && r == Left(Rule(edits[w].target, edits[w].name, false), edits, p)
    else exists f :: f in list && fold(f.target) == fold(r.target) && r == Left(f, edits, p)
  }

  /** One more edit, seen by one key. */
  lemma OneMoreEdit(fold: Fold, front: seq<Edit>, last: Edit, key: string, from: nat)
    requires from <= |front|
    ensures LastWrite(fold, front + [last], key) ==
      if Writes(fold, last, key) then |front| else LastWrite(fold, front, key)
    ensures LastPark(fold, front + [last], from, key) ==
      if Parks(fold, last, key) then |front| else LastPark(fold, front, from, key)
  {
    assert (front + [last])[..|front|] == front;
  }

  /** Later edits change nothing about earlier ones. */
  lemma LeftByFront(fold: Fold, list: seq<Rule>, front: seq<Edit>, last: Edit, w: int, p: int, r: Rule)
    requires w < |front| && (w >= 0 ==> front[w].Write?) && p < |front| && (p >= 0 ==> front[p].SetOff?)
    ensures LeftBy(fold, list, front + [last], w, p, r) <==> LeftBy(fold, list, front, w, p, r)
  {
  }

  lemma InForceIs(fold: Fold, list: seq<Rule>, edits: seq<Edit>, r: Rule, w: int, p: int)
    requires w == LastWrite(fold, edits, r.target) && p == LastPark(fold, edits, w + 1, r.target)
    ensures InForce(fold, list, edits, r) <==> LeftBy(fold, list, edits, w, p, r)
  {
  }

  /** A write decides its own key and no other. */
  lemma WriteInForce(fold: Fold, list: seq<Rule>, front: seq<Edit>, last: Edit, r: Rule)
    requires last.Write?
    ensures InForce(fold, list, front + [last], r) <==>
      if Writes(fold, last, r.target) then last.name != "" && r == Rule(last.target, last.name, false)
      else InForce(fold, list, front, r)
  {
    var w := LastWrite(fold, front, r.target);
    var p := LastPark(fold, front, w + 1, r.target);
    OneMoreEdit(fold, front, last, r.target, w + 1);
    if Writes(fold, last, r.target) {
      InForceIs(fold, list, front + [last], r, |front|, -1);
    } else {
      InForceIs(fold, list, front + [last], r, w, p);
      InForceIs(fold, list, front, r, w, p);
      LeftByFront(fold, list, front, last, w, p, r);
    }
  }

  /** Parking changes its own key's rule and nothing else of it. */
  lemma ParkInForce(fold: Fold, list: seq<Rule>, front: seq<Edit>, last: Edit, r: Rule)
    requires last.SetOff?
    ensures InForce(fold, list, front + [last], r) <==>
      if Parks(fold, last, r.target) then
        r.off == last.off &&
          (InForce(fold, list, front, r.(off := true)) || InForce(fold, list, front, r.(off := false)))
      else InForce(fold, list, front, r)
  {
    var w := LastWrite(fold, front, r.target);
    var p := LastPark(fold, front, w + 1, r.target);
    OneMoreEdit(fold, front, last, r.target, w + 1);
    if Parks(fold, last, r.target) {
      InForceIs(fold, list, front + [last], r, w, |front|);
      InForceIs(fold, list, front, r.(off := true), w, p);
      InForceIs(fold, list, front, r.(off := false), w, p);
      LeftByParked(fold, list, front, last, w, p, r);
    } else {
      InForceIs(fold, list, front + [last], r, w, p);
      InForceIs(fold, list, front, r, w, p);
      LeftByFront(fold, list, front, last, w, p, r);
    }
  }

  lemma LeftByParked(fold: Fold, list: seq<Rule>, front: seq<Edit>, last: Edit, w: int, p: int, r: Rule)
    requires w < |front| && (w >= 0 ==> front[w].Write?) && p < |front| && (p >= 0 ==> front[p].SetOff?) && last.SetOff?
    ensures LeftBy(fold, list, front + [last], w, |front|, r) <==>
      r.off == last.off &&
        (LeftBy(fold, list, front, w, p, r.(off := true)) || LeftBy(fold, list, front, w, p, r.(off := false)))
  {
    forall f: Rule
      ensures r == f.(off := last.off) <==>
        r.off == last.off && (r.(off := true) == Left(f, front, p) || r.(off := false) == Left(f, front, p))
    {
    }
    assert (front + [last])[|front|] == last;
    if w >= 0 {
      assert (front + [last])[w] == front[w];
    }
  }

  /** After any sequence of edits the list holds exactly the rules in force. */
  lemma {:induction false} ListIsInForce(fold: Fold, list: seq<Rule>, edits: seq<Edit>, r: Rule)
    ensures r in EditAll(fold, list, edits) <==> InForce(fold, list, edits, r)
  {
    if edits == [] {
      assert InForce(fold, list, edits, r) <==> r in list;
    } else {
      var front, last := edits[..|edits| - 1], edits[|edits| - 1];
      assert edits == front + [last];
      var before := EditAll(fold, list, front);
      ListIsInForce(fold, list, front, r);
      match last {
        case Write(target, name) =>
          InReplaced(fold, before, target, name, r);
          WriteInForce(fold, list, front, last, r);
        case SetOff(target, off) =>
          InParked(fold, before, target, off, r);
          ParkInForce(fold, list, front, last, r);
          ListIsInForce(fold, list, front, r.(off := true));
          ListIsInForce(fold, list, front, r.(off := false));
      }
    }
  }

  lemma {:induction false} InOthers(fold: Fold, list: seq<Rule>, target: string, r: Rule)
    ensures r in Others(fold, list, target) <==> r in list && fold(r.target) != fold(target)
  {
    if list != [] {
      var n := |list| - 1;
      InOthers(fold, list[..n], target, r);
      assert list == list[..n] + [list[n]];
    }
  }

  lemma InReplaced(fold: Fold, list: seq<Rule>, target: string, name: string, r: Rule)
    ensures r in Replaced(fold, list, target, name) <==>
      (r in list && fold(r.target) != fold(target)) || (name != "" && r == Rule(target, name, false))
  {
    InOthers(fold, list, target, r);
  }

  lemma InParked(fold: Fold, list: seq<Rule>, target: string, off: bool, r: Rule)
    ensures r in Parked(fold, list, target, off) <==>
      if fold(r.target) != fold(target) then r in list
      else r.off == off && (r.(off := true) in list || r.(off := false) in list)
  {
    var parked := Parked(fold, list, target, off);
    if r in parked {
      var i :| 0 <= i < |parked| && parked[i] == r;
      assert list[i] in list;
    }
    forall f | f in list
      ensures (if fold(f.target) == fold(target) then f.(off := off) else f) in parked
    {
      var i :| 0 <= i < |list| && list[i] == f;
      assert parked[i] in parked;
    }
  }

  /** The key's rule as the edits leave it. */
  function Settled(fold: Fold, list: seq<Rule>, edits: seq<Edit>, key: string): Option<Rule> {
    var w := LastWrite(fold, edits, key);
    var p := LastPark(fold, edits, w + 1, key);
    if w >= 0 then
      if edits[w].name == "" then None else Some(Left(Rule(edits[w].target, edits[w].name, false), edits, p))
    else
      match Find(fold, list, key)
      case None => None
      case Some(r) => Some(Left(r, edits, p))
  }

  lemma OneMoreSettled(fold: Fold, list: seq<Rule>, front: seq<Edit>, last: Edit, key: string)
    ensures Settled(fold, list, front + [last], key) ==
      if Writes(fold, last, key) then
        if last.name == "" then None else Some(Rule(last.target, last.name, false))
      else
        match Settled(fold, list, front, key)
        case None => None
        case Some(r) => Some(if Parks(fold, last, key) then r.(off := last.off) else r)
  {
    var w := LastWrite(fold, front, key);
    OneMoreEdit(fold, front, last, key, w + 1);
    assert w >= 0 ==> (front + [last])[w] == front[w];
  }

  /** Over any sequence of edits the last write to a target wins, with the last
      parking since, and there is never more than one rule for it. */
  lemma {:induction false} LastWriteWins(fold: Fold, list: seq<Rule>, edits: seq<Edit>, key: string)
    requires Unique(fold, list)
    ensures Unique(fold, EditAll(fold, list, edits))
    ensures Find(fold, EditAll(fold, list, edits), key) == Settled(fold, list, edits, key)
  {
    if edits != [] {
      var front, last := edits[..|edits| - 1], edits[|edits| - 1];
      assert edits == front + [last];
      var before := EditAll(fold, list, front);
      LastWriteWins(fold, list, front, key);
      OneMoreSettled(fold, list, front, last, key);
      match last {
        case Write(target, name) =>
          ReplaceKeepsUnique(fold, before, target, name);
          ReplaceUpdates(fold, before, target, name, key);
        case SetOff(target, off) =>
          ParkKeepsUnique(fold, before, target, off);
          ParkUpdates(fold, before, target, off, key);
      }
    }
  }
}
