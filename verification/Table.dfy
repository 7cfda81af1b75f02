/** The connection table of the page (web/index.html): rows bucketed by
    application, laid out in a sequence, and the sequence applied to the DOM. */
module Table {
  import opened Common
  import Strings

  // ---- reconciling the DOM ----

  function Without<T(==)>(s: seq<T>, x: T): seq<T> {
    if s == [] then []
    else if s[|s| - 1] == x then Without(s[..|s| - 1], x)
    else Without(s[..|s| - 1], x) + [s[|s| - 1]]
  }

  lemma {:induction false} WithoutMembers<T>(s: seq<T>, x: T)
    ensures forall y :: y in Without(s, x) <==> y in s && y != x
    ensures x !in s ==> Without(s, x) == s
    ensures Distinct(s) ==> Distinct(Without(s, x))
  {
    if s != [] {
      var front, last := s[..|s| - 1], s[|s| - 1];
      assert s == front + [last];
      WithoutMembers(front, x);
      if Distinct(s) {
        assert last !in front;
      }
    }
  }

  lemma Inserted<T>(s: seq<T>, i: nat, x: T)
    requires Distinct(s) && i <= |s| && x !in s[..i]
    ensures Distinct(s[..i] + [x] + Without(s[i..], x))
  {
    var a, b := s[..i], Without(s[i..], x);
    assert forall j :: i <= j < |s| ==> s[i..][j - i] == s[j];
    WithoutMembers(s[i..], x);
    assert Distinct(a) && Distinct(b) && x !in b;
    forall y | y in a
      ensures y !in b
    {
      var j :| 0 <= j < i && s[j] == y;
      assert y !in s[i..];
    }
    DistinctConcat(a, [x] + b);
    assert a + [x] + b == a + ([x] + b);
  }

  lemma DistinctConcat<T>(a: seq<T>, b: seq<T>)
    requires Distinct(a) && Distinct(b)
    requires forall x :: x in a ==> x !in b
    ensures Distinct(a + b)
  {
    forall i, j | 0 <= i < j < |a + b|
      ensures (a + b)[i] != (a + b)[j]
    {
      if i < |a| <= j {
        assert a[i] in a && b[j - |a|] in b;
      }
    }
  }

  /** The table body: its child elements in order. */
  class Body<Node(==, !new)> {
    var children: seq<Node>

    /** An element is in the document once. */
    ghost predicate Valid()
      reads this
    {
      Distinct(children)
    }

    constructor (children: seq<Node>)
      requires Distinct(children)
      ensures Valid() && this.children == children
    {
      this.children := children;
    }

    method Remove(el: Node)
      requires Valid()
      modifies this
      ensures Valid() && children == Without(old(children), el)
    {
      children := Without(children, el);
      WithoutMembers(old(children), el);
    }

    /** Moves the element, or adds it, to just before the `i`-th child of those
        that remain; at the end when there is none. */
    method InsertAt(el: Node, i: nat)
      requires Valid() && i <= |children| && el !in children[..i]
      requires i < |children| ==> children[i] != el
      modifies this
      ensures Valid() && children == old(children)[..i] + [el] + Without(old(children)[i..], el)
    {
      var rest := Without(children[i..], el);
      Inserted(children, i, el);
      children := children[..i] + [el] + rest;
    }

    /** Makes the children exactly the given sequence, reusing what is there. */
    method ApplySeq(order: seq<Node>)
      requires Valid() && Distinct(order)
      modifies this
      ensures Valid() && children == order
    {
      RemoveUnwanted(order);
      assert children[0..] == children && order[0..] == order;
      // `i` children are in place; the cursor stands before the next one.
      for i := 0 to |order|
        invariant Valid() && i <= |children| && children[..i] == order[..i]
        invariant Within(children[i..], order[i..])
      {
        var el := order[i];
        Uncons(order, i);
        if i < |children| && children[i] == el {
          Uncons(children, i);
          Narrowed(children[i..], children[i + 1..], order[i..], order[i + 1..], el);
        } else {
          ghost var before := children;
          assert el !in order[..i];
          InsertAt(el, i);
          assert children[i + 1..] == Without(before[i..], el);
          WithoutMembers(before[i..], el);
          Narrowed(before[i..], children[i + 1..], order[i..], order[i + 1..], el);
        }
        assert children[..i + 1] == order[..i + 1];
      }
      if children[|order|..] != [] {
        HasMember(children[|order|..]);
      }
    }

    method RemoveUnwanted(order: seq<Node>)
      requires Valid()
      modifies this
      ensures Valid() && forall x :: x in children ==> x in order
    {
      var copy := children;
      for i := 0 to |copy|
        invariant Valid()
        invariant forall x :: x in children ==> x in order || x in copy[i..]
      {
        Uncons(copy, i);
        ghost var before := children;
        if copy[i] !in order {
          Remove(copy[i]);
          WithoutMembers(before, copy[i]);
          assert forall x :: x in children ==> x in before && x != copy[i];
        }
        assert forall x :: x in children ==> x in before;
        assert forall x :: x in children ==> x in order || x in copy[i..];
      }
    }
  }

  ghost predicate Within<T(!new)>(s: seq<T>, t: seq<T>) {
    forall x :: x in s ==> x in t
  }

  lemma Narrowed<T(!new)>(s: seq<T>, s': seq<T>, t: seq<T>, t': seq<T>, el: T)
    requires Within(s, t)
    requires forall x :: x in s' ==> x in s && x != el
    requires forall x :: x in t ==> x == el || x in t'
    ensures Within(s', t')
  {
  }

  lemma HasMember<T>(s: seq<T>)
    requires s != []
    ensures exists x :: x in s
  {
    assert s[0] in s;
  }

  lemma Uncons<T>(s: seq<T>, i: nat)
    requires i < |s|
    ensures forall x :: x in s[i..] <==> x == s[i] || x in s[i + 1..]
    ensures Distinct(s) ==> s[i] !in s[i + 1..]
  {
    assert s[i..] == [s[i]] + s[i + 1..];
    if Distinct(s) {
      assert forall j :: i + 1 <= j < |s| ==> s[i + 1..][j - i - 1] == s[j];
    }
  }

  // ---- bucketing by application ----

  datatype Nums = Nums(downRate: int, upRate: int, down: int, up: int)

  /** A visible row: its element, the application or process it belongs to, its
      protocol and local port, whether it listens, and the figures of its
      connection. */
  datatype Row = Row(el: int, app: string, pid: string, comm: string,
                     slot: string, listening: bool, nums: Nums)

  datatype Group = Group(key: string, rows: seq<Row>, lis: nat, inn: nat, out: nat)

  function Key(r: Row): string {
    if r.app != "" then "app|" + r.app else r.pid + "|" + r.comm
  }

  /** Where something listens: a row there that does not listen itself is an
      incoming connection. */
  function Listens(vis: seq<Row>): set<string> {
    if vis == [] then {}
    else Listens(vis[..|vis| - 1]) + if vis[|vis| - 1].listening then {vis[|vis| - 1].slot} else {}
  }

  lemma {:induction false} ListensAt(vis: seq<Row>, slot: string)
    ensures slot in Listens(vis) <==> exists r :: r in vis && r.listening && r.slot == slot
  {
    if vis != [] {
      var front, last := vis[..|vis| - 1], vis[|vis| - 1];
      assert vis == front + [last];
      ListensAt(front, slot);
    }
  }

  function Joined(g: Group, r: Row, ls: set<string>): Group {
    var h := g.(rows := g.rows + [r]);
    if r.listening then h.(lis := h.lis + 1)
    else if r.slot in ls then h.(inn := h.inn + 1)
    else h.(out := h.out + 1)
  }

  function IndexOf(groups: seq<Group>, key: string): (i: int)
    ensures -1 <= i < |groups|
    ensures i >= 0 ==> groups[i].key == key
    ensures i < 0 ==> forall j :: 0 <= j < |groups| ==> groups[j].key != key
  {
    if groups == [] then -1
    else if groups[|groups| - 1].key == key then |groups| - 1
    else IndexOf(groups[..|groups| - 1], key)
  }

  /** One more row: in its group if there is one, else in a new one. */
  function Placed(groups: seq<Group>, r: Row, ls: set<string>): seq<Group> {
    var i := IndexOf(groups, Key(r));
    if i < 0 then groups + [Joined(Group(Key(r), [], 0, 0, 0), r, ls)] else groups[i := Joined(groups[i], r, ls)]
  }

  function Bucketed(vis: seq<Row>, ls: set<string>): seq<Group> {
    if vis == [] then [] else Placed(Bucketed(vis[..|vis| - 1], ls), vis[|vis| - 1], ls)
  }

  /** `at` is the map from keys to groups. */
  ghost predicate Indexed(groups: seq<Group>, at: map<string, nat>) {
    && (forall k :: k in at ==> at[k] < |groups| && groups[at[k]].key == k)
    && (forall j :: 0 <= j < |groups| ==> groups[j].key in at && at[groups[j].key] == j)
  }

  lemma IndexFound(groups: seq<Group>, at: map<string, nat>, k: string)
    requires Indexed(groups, at)
    ensures IndexOf(groups, k) == if k in at then at[k] else -1
  {
  }

  /** First where something listens, then the bucketing loop. */
  method Bucket(vis: seq<Row>) returns (groups: seq<Group>)
    ensures groups == Bucketed(vis, Listens(vis))
  {
    var ls: set<string> := {};
    for n := 0 to |vis|
      invariant ls == Listens(vis[..n])
    {
      assert vis[..n + 1][..n] == vis[..n];
      if vis[n].listening {
        ls := ls + {vis[n].slot};
      }
    }
    assert vis[..|vis|] == vis;
    groups := [];
    var at: map<string, nat> := map[];
    for n := 0 to |vis|
      invariant groups == Bucketed(vis[..n], ls)
      invariant Indexed(groups, at)
    {
      assert vis[..n + 1][..n] == vis[..n];
      groups, at := BucketOne(groups, at, vis[n], ls);
    }
  }

  method BucketOne(groups: seq<Group>, at: map<string, nat>, r: Row, ls: set<string>)
    returns (groups': seq<Group>, at': map<string, nat>)
    requires Indexed(groups, at)
    ensures Indexed(groups', at')
    ensures groups' == Placed(groups, r, ls)
  {
    var k := Key(r);
    IndexFound(groups, at, k);
    if k !in at {
      at' := at[k := |groups|];
      groups' := groups + [Joined(Group(k, [], 0, 0, 0), r, ls)];
    } else {
      at' := at;
      groups' := groups[at[k] := Joined(groups[at[k]], r, ls)];
    }
  }

  function Add(a: Nums, b: Nums): Nums {
    Nums(a.downRate + b.downRate, a.upRate + b.upRate, a.down + b.down, a.up + b.up)
  }

  const ZERO: Nums := Nums(0, 0, 0, 0)

  /** sumConns: a number is the sum of the rows underneath it. */
  function Sum(rows: seq<Row>): Nums {
    if rows == [] then ZERO else Add(Sum(rows[..|rows| - 1]), rows[|rows| - 1].nums)
  }

  function SumGroups(groups: seq<Group>): Nums {
    if groups == [] then ZERO else Add(SumGroups(groups[..|groups| - 1]), Sum(groups[|groups| - 1].rows))
  }

  function All(groups: seq<Group>): multiset<Row> {
    if groups == [] then multiset{} else All(groups[..|groups| - 1]) + multiset(groups[|groups| - 1].rows)
  }

  lemma AddSwaps(a: Nums, b: Nums, c: Nums)
    ensures Add(Add(a, c), b) == Add(Add(a, b), c)
    ensures Add(a, Add(b, c)) == Add(Add(a, b), c)
  {
  }

  lemma {:induction false} OneMoreRowAdds(groups: seq<Group>, i: nat, r: Row, ls: set<string>)
    requires i < |groups|
    ensures SumGroups(groups[i := Joined(groups[i], r, ls)]) == Add(SumGroups(groups), r.nums)
  {
    var n := |groups| - 1;
    var g := Joined(groups[i], r, ls);
    var more := groups[i := g];
    AddSwaps(SumGroups(groups[..n]), Sum(groups[n].rows), r.nums);
    if i < n {
      assert more[..n] == groups[..n][i := g];
      OneMoreRowAdds(groups[..n], i, r, ls);
    } else {
      assert more[..n] == groups[..n];
      SumAppend(groups[n].rows, r);
    }
  }

  lemma SumAppend(rows: seq<Row>, r: Row)
    ensures Sum(rows + [r]) == Add(Sum(rows), r.nums)
  {
    assert (rows + [r])[..|rows|] == rows;
  }

  lemma JoinedRows(g: Group, r: Row, ls: set<string>)
    ensures multiset(Joined(g, r, ls).rows) == multiset(g.rows) + multiset{r}
  {
  }

  lemma {:induction false} AllReplaced(groups: seq<Group>, i: nat, g: Group, r: Row)
    requires i < |groups| && multiset(g.rows) == multiset(groups[i].rows) + multiset{r}
    ensures All(groups[i := g]) == All(groups) + multiset{r}
  {
    var n := |groups| - 1;
    var more := groups[i := g];
    if i < n {
      assert more[..n] == groups[..n][i := g];
      AllReplaced(groups[..n], i, g, r);
    } else {
      assert more[..n] == groups[..n];
    }
  }

  lemma OneMoreRowAll(groups: seq<Group>, i: nat, r: Row, ls: set<string>)
    requires i < |groups|
    ensures All(groups[i := Joined(groups[i], r, ls)]) == All(groups) + multiset{r}
  {
    JoinedRows(groups[i], r, ls);
    AllReplaced(groups, i, Joined(groups[i], r, ls), r);
  }

  lemma NewGroup(r: Row, ls: set<string>)
    ensures var g := Joined(Group(Key(r), [], 0, 0, 0), r, ls); g.rows == [r] && Sum(g.rows) == r.nums && Tallied(g, ls)
  {
    SumAppend([], r);
    TallyAppend([], r, ls);
    assert [] + [r] == [r];
  }

  lemma PlacedHoldsAll(groups: seq<Group>, r: Row, ls: set<string>)
    ensures All(Placed(groups, r, ls)) == All(groups) + multiset{r}
  {
    var i, g := IndexOf(groups, Key(r)), Joined(Group(Key(r), [], 0, 0, 0), r, ls);
    if i >= 0 {
      OneMoreRowAll(groups, i, r, ls);
    } else {
      NewGroup(r, ls);
      assert (groups + [g])[..|groups|] == groups;
    }
  }

  lemma PlacedAdds(groups: seq<Group>, r: Row, ls: set<string>)
    ensures SumGroups(Placed(groups, r, ls)) == Add(SumGroups(groups), r.nums)
  {
    var i, g := IndexOf(groups, Key(r)), Joined(Group(Key(r), [], 0, 0, 0), r, ls);
    if i >= 0 {
      OneMoreRowAdds(groups, i, r, ls);
    } else {
      NewGroup(r, ls);
      assert (groups + [g])[..|groups|] == groups;
    }
  }

  lemma {:induction false} GroupsHoldAll(vis: seq<Row>, ls: set<string>)
    ensures All(Bucketed(vis, ls)) == multiset(vis)
  {
    if vis != [] {
      var front, r := vis[..|vis| - 1], vis[|vis| - 1];
      assert vis == front + [r];
      GroupsHoldAll(front, ls);
      PlacedHoldsAll(Bucketed(front, ls), r, ls);
    }
  }

  lemma {:induction false} GroupSumsAddUp(vis: seq<Row>, ls: set<string>)
    ensures SumGroups(Bucketed(vis, ls)) == Sum(vis)
  {
    if vis != [] {
      var front, r := vis[..|vis| - 1], vis[|vis| - 1];
      GroupSumsAddUp(front, ls);
      PlacedAdds(Bucketed(front, ls), r, ls);
    }
  }

  // ---- incoming, outgoing, listening ----

  datatype Direction = Listening | Incoming | Outgoing

  function DirectionOf(r: Row, ls: set<string>): Direction {
    if r.listening then Listening else if r.slot in ls then Incoming else Outgoing
  }

  function Tally(rows: seq<Row>, d: Direction, ls: set<string>): nat {
    if rows == [] then 0 else Tally(rows[..|rows| - 1], d, ls) + if DirectionOf(rows[|rows| - 1], ls) == d then 1 else 0
  }

  /** The three counts of a header count its rows. */
  predicate Tallied(g: Group, ls: set<string>) {
    g.lis == Tally(g.rows, Listening, ls) && g.inn == Tally(g.rows, Incoming, ls) &&
      g.out == Tally(g.rows, Outgoing, ls)
  }

  lemma TallyAppend(rows: seq<Row>, r: Row, ls: set<string>)
    ensures forall d :: Tally(rows + [r], d, ls) == Tally(rows, d, ls) + if DirectionOf(r, ls) == d then 1 else 0
  {
    assert (rows + [r])[..|rows|] == rows;
  }

  lemma {:induction false} GroupsTallied(vis: seq<Row>, ls: set<string>)
    ensures forall g :: g in Bucketed(vis, ls) ==> Tallied(g, ls)
  {
    if vis != [] {
      var front, r := vis[..|vis| - 1], vis[|vis| - 1];
      GroupsTallied(front, ls);
      var groups, i := Bucketed(front, ls), IndexOf(Bucketed(front, ls), Key(r));
      if i >= 0 {
        assert groups[i] in groups;
        TallyAppend(groups[i].rows, r, ls);
      } else {
        NewGroup(r, ls);
      }
    }
  }

  /** Each row is in exactly one group, none is lost or made up, and the group
      sums add up to the sum of the visible rows. Every header counts its rows. */
  lemma GroupsPartition(vis: seq<Row>, ls: set<string>)
    ensures All(Bucketed(vis, ls)) == multiset(vis)
    ensures SumGroups(Bucketed(vis, ls)) == Sum(vis)
    ensures forall g :: g in Bucketed(vis, ls) ==> Tallied(g, ls)
  {
    GroupsHoldAll(vis, ls);
    GroupSumsAddUp(vis, ls);
    GroupsTallied(vis, ls);
  }

  // ---- what a header stands for ----

  /** One application, or where there is none one process under one name. */
  predicate SameProcess(r: Row, q: Row) {
    if r.app != "" then q.app == r.app else q.app == "" && q.pid == r.pid && q.comm == r.comm
  }

  /** A pid as it is printed. */
  predicate PidText(s: string) {
    forall i :: 0 <= i < |s| ==> s[i] == '-' || '0' <= s[i] <= '9'
  }

  /** A key names exactly that. */
  lemma KeyExactly(r: Row, q: Row)
    requires PidText(r.pid) && PidText(q.pid)
    ensures Key(r) == Key(q) <==> SameProcess(r, q)
  {
    var a, b := if r.app != "" then "app" else r.pid, if q.app != "" then "app" else q.pid;
    var x, y := if r.app != "" then r.app else r.comm, if q.app != "" then q.app else q.comm;
    assert Key(r) == a + "|" + x && Key(q) == b + "|" + y;
    if Key(r) == Key(q) {
      Strings.SplitAtFirst(a, x, b, y, '|');
      assert "app"[0] == 'a';
    }
  }

  /** Where the rows of one kind stand. */
  function Places(rows: seq<Row>, d: Direction, ls: set<string>): set<nat> {
    set i: nat | i < |rows| && DirectionOf(rows[i], ls) == d
  }

  lemma PlacesGrow(rows: seq<Row>, d: Direction, ls: set<string>)
    requires rows != []
    ensures var n := |rows| - 1;
      Places(rows, d, ls) == Places(rows[..n], d, ls) + if DirectionOf(rows[n], ls) == d then {n} else {}
  {
    var n := |rows| - 1;
    assert forall i :: 0 <= i < n ==> rows[..n][i] == rows[i];
  }

  lemma {:induction false} TallyCounts(rows: seq<Row>, d: Direction, ls: set<string>)
    ensures Tally(rows, d, ls) == |Places(rows, d, ls)|
  {
    if rows != [] {
      var n := |rows| - 1;
      TallyCounts(rows[..n], d, ls);
      PlacesGrow(rows, d, ls);
      assert n !in Places(rows[..n], d, ls);
    }
  }

  ghost predicate ListenedOn(vis: seq<Row>, slot: string) {
    exists r :: r in vis && r.listening && r.slot == slot
  }

  lemma DirectionSays(vis: seq<Row>, r: Row)
    ensures DirectionOf(r, Listens(vis)) == Listening <==> r.listening
    ensures DirectionOf(r, Listens(vis)) == Incoming <==> !r.listening && ListenedOn(vis, r.slot)
    ensures DirectionOf(r, Listens(vis)) == Outgoing <==> !r.listening && !ListenedOn(vis, r.slot)
  {
    ListensAt(vis, r.slot);
  }

  lemma DirectionsSay(vis: seq<Row>, rows: seq<Row>)
    ensures Places(rows, Listening, Listens(vis)) == set i: nat | i < |rows| && rows[i].listening
    ensures Places(rows, Incoming, Listens(vis)) ==
      set i: nat | i < |rows| && !rows[i].listening && ListenedOn(vis, rows[i].slot)
    ensures Places(rows, Outgoing, Listens(vis)) ==
      set i: nat | i < |rows| && !rows[i].listening && !ListenedOn(vis, rows[i].slot)
  {
    forall i: nat | i < |rows|
      ensures DirectionOf(rows[i], Listens(vis)) == Listening <==> rows[i].listening
      ensures DirectionOf(rows[i], Listens(vis)) == Incoming <==> !rows[i].listening && ListenedOn(vis, rows[i].slot)
      ensures DirectionOf(rows[i], Listens(vis)) == Outgoing <==> !rows[i].listening && !ListenedOn(vis, rows[i].slot)
    {
      DirectionSays(vis, rows[i]);
    }
  }

  /** A row is listening, or something visible listens where it ends here, or
      neither: each header counts its rows of the three kinds. */
  lemma HeaderCounts(vis: seq<Row>, g: Group)
    requires g in Bucketed(vis, Listens(vis))
    ensures g.lis == |set i: nat | i < |g.rows| && g.rows[i].listening|
    ensures g.inn == |set i: nat | i < |g.rows| && !g.rows[i].listening && ListenedOn(vis, g.rows[i].slot)|
    ensures g.out == |set i: nat | i < |g.rows| && !g.rows[i].listening && !ListenedOn(vis, g.rows[i].slot)|
  {
    GroupsTallied(vis, Listens(vis));
    TallyCounts(g.rows, Listening, Listens(vis));
    TallyCounts(g.rows, Incoming, Listens(vis));
    TallyCounts(g.rows, Outgoing, Listens(vis));
    DirectionsSay(vis, g.rows);
  }

  /** A sum adds up each of the four figures, and each by itself. */
  lemma EachFigureAdds(rows: seq<Row>, r: Row)
    ensures var s, t := Sum(rows), Sum(rows + [r]);
      && t.downRate == s.downRate + r.nums.downRate && t.upRate == s.upRate + r.nums.upRate
      && t.down == s.down + r.nums.down && t.up == s.up + r.nums.up
    ensures Sum([]) == Nums(0, 0, 0, 0)
  {
    SumAppend(rows, r);
  }
}
