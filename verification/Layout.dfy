/** From groups to the table: the sequence of elements a render lays out, and
    its application (web/index.html). */
module Layout {
  import opened Common
  import opened Table

  /** An element of the table: a connection's row or a group's header. */
  datatype El = RowEl(el: int) | Header(key: string)

  /** A lone row needs no header; a collapsed group shows only its header. */
  function GroupEls(g: Group, open: set<string>): seq<El> {
    if |g.rows| == 1 then [RowEl(g.rows[0].el)]
    else
      [Header(g.key)] +
      if g.key in open then seq(|g.rows|, i requires 0 <= i < |g.rows| => RowEl(g.rows[i].el)) else []
  }

  function Sequence(groups: seq<Group>, open: set<string>): seq<El> {
    if groups == [] then [] else Sequence(groups[..|groups| - 1], open) + GroupEls(groups[|groups| - 1], open)
  }

  /** Every group holds at least one visible row, only rows of its own key, and
      none twice. */
  ghost predicate ProperGroup(g: Group, vis: seq<Row>) {
    && g.rows != []
    && (forall r :: r in multiset(g.rows) ==> r in vis && Key(r) == g.key)
    && (forall r :: r in multiset(g.rows) ==> multiset(g.rows)[r] == 1)
  }

  ghost predicate Proper(groups: seq<Group>, vis: seq<Row>) {
    && (forall i :: 0 <= i < |groups| ==> ProperGroup(groups[i], vis))
    && (forall i, j :: 0 <= i < j < |groups| ==> groups[i].key != groups[j].key)
  }

  /** Each row has its own element. */
  ghost predicate OwnElements(vis: seq<Row>) {
    forall i, j :: 0 <= i < j < |vis| ==> vis[i].el != vis[j].el
  }

  lemma JoinedProper(g: Group, vis: seq<Row>, r: Row, ls: set<string>)
    requires ProperGroup(g, vis) && Key(r) == g.key && r !in vis
    ensures ProperGroup(Joined(g, r, ls), vis + [r])
  {
    assert multiset(g.rows + [r]) == multiset(g.rows) + multiset{r};
  }

  lemma StillProper(g: Group, vis: seq<Row>, r: Row)
    requires ProperGroup(g, vis)
    ensures ProperGroup(g, vis + [r])
  {
  }

  lemma AllStillProper(groups: seq<Group>, vis: seq<Row>, r: Row)
    requires Proper(groups, vis)
    ensures Proper(groups, vis + [r])
  {
    forall j | 0 <= j < |groups|
      ensures ProperGroup(groups[j], vis + [r])
    {
      StillProper(groups[j], vis, r);
    }
  }

  lemma ReplacedProper(groups: seq<Group>, vis: seq<Row>, i: nat, g: Group)
    requires Proper(groups, vis) && i < |groups| && ProperGroup(g, vis) && g.key == groups[i].key
    ensures Proper(groups[i := g], vis)
  {
  }

  lemma AppendedProper(groups: seq<Group>, vis: seq<Row>, g: Group)
    requires Proper(groups, vis) && ProperGroup(g, vis)
    requires forall j :: 0 <= j < |groups| ==> groups[j].key != g.key
    ensures Proper(groups + [g], vis)
  {
  }

  lemma OneMoreProper(groups: seq<Group>, vis: seq<Row>, r: Row, ls: set<string>)
    requires Proper(groups, vis) && r !in vis
    ensures Proper(Placed(groups, r, ls), vis + [r])
  {
    var i := IndexOf(groups, Key(r));
    AllStillProper(groups, vis, r);
    if i >= 0 {
      JoinedProper(groups[i], vis, r, ls);
      ReplacedProper(groups, vis + [r], i, Joined(groups[i], r, ls));
    } else {
      NewProper(vis, r, ls);
      AppendedProper(groups, vis + [r], Joined(Group(Key(r), [], 0, 0, 0), r, ls));
    }
  }

  lemma NewProper(vis: seq<Row>, r: Row, ls: set<string>)
    ensures ProperGroup(Joined(Group(Key(r), [], 0, 0, 0), r, ls), vis + [r])
  {
    var g := Joined(Group(Key(r), [], 0, 0, 0), r, ls);
    assert g.rows == [r];
    assert r in vis + [r];
  }

  lemma {:induction false} BucketedIsProper(vis: seq<Row>, ls: set<string>)
    requires OwnElements(vis)
    ensures Proper(Bucketed(vis, ls), vis)
  {
    if vis != [] {
      var front, r := vis[..|vis| - 1], vis[|vis| - 1];
      assert vis == front + [r];
      assert OwnElements(front) && r !in front;
      BucketedIsProper(front, ls);
      OneMoreProper(Bucketed(front, ls), front, r, ls);
    }
  }

  /** What sorting does: the same groups in some order, each with the same rows
      in some order. */
  ghost predicate Rearranged(groups: seq<Group>, sorted: seq<Group>, order: seq<nat>) {
    && |groups| == |sorted| == |order|
    && Distinct(order)
    && forall i :: 0 <= i < |order| ==>
      && order[i] < |groups|
      && sorted[i].key == groups[order[i]].key
      && multiset(sorted[i].rows) == multiset(groups[order[i]].rows)
  }

  lemma SortedIsProper(groups: seq<Group>, sorted: seq<Group>, order: seq<nat>, vis: seq<Row>)
    requires Proper(groups, vis) && Rearranged(groups, sorted, order)
    ensures Proper(sorted, vis)
  {
    forall i | 0 <= i < |sorted|
      ensures ProperGroup(sorted[i], vis)
    {
      assert ProperGroup(groups[order[i]], vis);
      assert |multiset(sorted[i].rows)| == |multiset(groups[order[i]].rows)|;
    }
  }

  /** Two visible rows are in one group exactly when they are one application's,
      or one nameless process's. */
  lemma GroupedExactly(vis: seq<Row>, ls: set<string>, r: Row, q: Row)
    requires OwnElements(vis) && r in vis && q in vis && PidText(r.pid) && PidText(q.pid)
    ensures (exists i :: 0 <= i < |Bucketed(vis, ls)| && HoldsBoth(Bucketed(vis, ls)[i], r, q)) <==> SameProcess(r, q)
  {
    var groups := Bucketed(vis, ls);
    BucketedIsProper(vis, ls);
    GroupsHoldAll(vis, ls);
    KeyExactly(r, q);
    var i := HolderOf(groups, r);
    var j := HolderOf(groups, q);
    HoldersMeet(groups, vis, i, j, r, q);
    if SameProcess(r, q) {
      assert HoldsBoth(groups[i], r, q);
    }
    if k :| 0 <= k < |groups| && HoldsBoth(groups[k], r, q) {
      HoldersMeet(groups, vis, k, k, r, q);
    }
  }

  lemma HoldersMeet(groups: seq<Group>, vis: seq<Row>, i: nat, j: nat, r: Row, q: Row)
    requires Proper(groups, vis) && i < |groups| && j < |groups|
    requires r in multiset(groups[i].rows) && q in multiset(groups[j].rows)
    ensures i == j <==> Key(r) == Key(q)
  {
    assert ProperGroup(groups[i], vis) && ProperGroup(groups[j], vis);
  }

  ghost predicate HoldsBoth(g: Group, r: Row, q: Row) {
    r in multiset(g.rows) && q in multiset(g.rows)
  }

  lemma {:induction false} HolderOf(groups: seq<Group>, r: Row) returns (i: nat)
    requires r in All(groups)
    ensures i < |groups| && r in multiset(groups[i].rows)
  {
    var n := |groups| - 1;
    if r in multiset(groups[n].rows) {
      i := n;
    } else {
      i := HolderOf(groups[..n], r);
    }
  }

  // ---- no element twice ----

  lemma RowsDistinct(rows: seq<Row>, i: nat, j: nat)
    requires i < j < |rows|
    requires forall r :: r in multiset(rows) ==> multiset(rows)[r] == 1
    ensures rows[i] != rows[j]
  {
    assert rows == rows[..j] + rows[j..];
    assert multiset(rows) == multiset(rows[..j]) + multiset(rows[j..]);
    assert rows[j..][0] == rows[j];
    assert rows[j] in multiset(rows[j..]) && rows[j] in multiset(rows);
    assert rows[..j][i] == rows[i];
    assert rows[i] in multiset(rows[..j]);
  }

  lemma SameElementSameRow(vis: seq<Row>, r: Row, q: Row)
    requires OwnElements(vis) && r in vis && q in vis && r.el == q.el
    ensures r == q
  {
  }

  lemma GroupElsDistinct(g: Group, vis: seq<Row>, open: set<string>)
    requires ProperGroup(g, vis) && OwnElements(vis)
    ensures Distinct(GroupEls(g, open))
  {
    forall i, j | 0 <= i < j < |g.rows|
      ensures g.rows[i].el != g.rows[j].el
    {
      RowsDistinct(g.rows, i, j);
      assert g.rows[i] in multiset(g.rows) && g.rows[j] in multiset(g.rows);
      if g.rows[i].el == g.rows[j].el {
        SameElementSameRow(vis, g.rows[i], g.rows[j]);
      }
    }
  }

  /** The key an element belongs to. */
  ghost predicate BelongsTo(x: El, g: Group) {
    match x
    case Header(k) => k == g.key
    case RowEl(e) => exists r :: r in multiset(g.rows) && r.el == e
  }

  lemma ElsBelong(g: Group, open: set<string>, x: El)
    requires x in GroupEls(g, open)
    ensures BelongsTo(x, g)
  {
    if x.RowEl? {
      var i :| 0 <= i < |g.rows| && g.rows[i].el == x.el;
      assert g.rows[i] in multiset(g.rows);
    }
  }

  lemma {:induction false} SequenceBelongs(groups: seq<Group>, open: set<string>, x: El) returns (i: nat)
    requires x in Sequence(groups, open)
    ensures i < |groups| && BelongsTo(x, groups[i])
  {
    var n := |groups| - 1;
    if x in GroupEls(groups[n], open) {
      i := n;
      ElsBelong(groups[n], open, x);
    } else {
      i := SequenceBelongs(groups[..n], open, x);
    }
  }

  lemma GroupsApart(g: Group, h: Group, vis: seq<Row>, x: El)
    requires ProperGroup(g, vis) && ProperGroup(h, vis) && OwnElements(vis)
    requires BelongsTo(x, g) && BelongsTo(x, h)
    ensures g.key == h.key
  {
    if x.RowEl? {
      var r :| r in multiset(g.rows) && r.el == x.el;
      var q :| q in multiset(h.rows) && q.el == x.el;
      SameElementSameRow(vis, r, q);
    }
  }

  /** A render never lays out an element twice. */
  lemma {:induction false} SequenceDistinct(groups: seq<Group>, vis: seq<Row>, open: set<string>)
    requires Proper(groups, vis) && OwnElements(vis)
    ensures Distinct(Sequence(groups, open))
  {
    if groups != [] {
      var n := |groups| - 1;
      SequenceDistinct(groups[..n], vis, open);
      GroupElsDistinct(groups[n], vis, open);
      forall x | x in Sequence(groups[..n], open)
        ensures x !in GroupEls(groups[n], open)
      {
        var i := SequenceBelongs(groups[..n], open, x);
        if x in GroupEls(groups[n], open) {
          ElsBelong(groups[n], open, x);
          GroupsApart(groups[i], groups[n], vis, x);
        }
      }
      DistinctConcat(Sequence(groups[..n], open), GroupEls(groups[n], open));
    }
  }

  // ---- what is shown, and where ----

  /** A group shows its header if it has several rows, and a row's element if
      that row is alone or the group is open. */
  predicate Shows(g: Group, open: set<string>, x: El) {
    match x
    case Header(k) => g.key == k && |g.rows| > 1
    case RowEl(e) => (|g.rows| == 1 || g.key in open) && exists j :: 0 <= j < |g.rows| && g.rows[j].el == e
  }

  lemma ShownByGroup(g: Group, open: set<string>, x: El)
    requires g.rows != []
    ensures x in GroupEls(g, open) <==> Shows(g, open, x)
  {
    if x.RowEl? && |g.rows| > 1 && g.key in open {
      if j :| 0 <= j < |g.rows| && g.rows[j].el == x.el {
        assert GroupEls(g, open)[1 + j] == x;
      }
    }
  }

  ghost predicate SomeShows(groups: seq<Group>, open: set<string>, x: El) {
    exists i :: 0 <= i < |groups| && Shows(groups[i], open, x)
  }

  lemma OneMoreShows(front: seq<Group>, g: Group, open: set<string>, x: El)
    ensures SomeShows(front + [g], open, x) <==> SomeShows(front, open, x) || Shows(g, open, x)
  {
    var all := front + [g];
    assert all[|front|] == g && forall i :: 0 <= i < |front| ==> all[i] == front[i];
  }

  /** Exactly that is laid out. */
  lemma {:induction false} ShownExactly(groups: seq<Group>, open: set<string>, x: El)
    requires forall i :: 0 <= i < |groups| ==> groups[i].rows != []
    ensures x in Sequence(groups, open) <==> SomeShows(groups, open, x)
  {
    if groups != [] {
      var n := |groups| - 1;
      ShownExactly(groups[..n], open, x);
      ShownByGroup(groups[n], open, x);
      OneMoreShows(groups[..n], groups[n], open, x);
      assert groups == groups[..n] + [groups[n]];
    }
  }

  /** How many elements a group takes up. */
  function Height(g: Group, open: set<string>): nat {
    if |g.rows| > 1 && g.key in open then 1 + |g.rows| else 1
  }

  function Heights(groups: seq<Group>, open: set<string>): nat {
    if groups == [] then 0 else Heights(groups[..|groups| - 1], open) + Height(groups[|groups| - 1], open)
  }

  /** From its place on, a group is laid out as its one row, or as its header
      and, if it is open, its rows in order. */
  predicate LaidOutAt(s: seq<El>, at: nat, g: Group, open: set<string>) {
    && at + Height(g, open) <= |s|
    && (|g.rows| == 1 ==> s[at] == RowEl(g.rows[0].el))
    && (|g.rows| > 1 ==> s[at] == Header(g.key))
    && (|g.rows| > 1 && g.key in open ==> forall k :: 0 <= k < |g.rows| ==> s[at + 1 + k] == RowEl(g.rows[k].el))
  }

  /** Each group has its place, after the groups before it and before those that
      follow, with nothing between them. */
  lemma {:induction false} LaidOutInOrder(groups: seq<Group>, open: set<string>, i: nat)
    requires i < |groups| && forall j :: 0 <= j < |groups| ==> groups[j].rows != []
    ensures LaidOutAt(Sequence(groups, open), Heights(groups[..i], open), groups[i], open)
  {
    if i < |groups| - 1 {
      var front, at := groups[..|groups| - 1], Heights(groups[..i], open);
      assert front[..i] == groups[..i] && front[i] == groups[i];
      LaidOutInOrder(front, open, i);
      LastSequence(groups, open);
      LaidOutLater(Sequence(front, open), Sequence(groups, open), at, groups[i], open);
    } else {
      LastInOrder(groups, open);
    }
  }

  lemma LastInOrder(groups: seq<Group>, open: set<string>)
    requires groups != [] && forall j :: 0 <= j < |groups| ==> groups[j].rows != []
    ensures var n := |groups| - 1; LaidOutAt(Sequence(groups, open), Heights(groups[..n], open), groups[n], open)
  {
    var n := |groups| - 1;
    SequenceHeight(groups[..n], open);
    LastSequence(groups, open);
    LastLaidOut(Sequence(groups[..n], open), Sequence(groups, open), groups[n], open);
  }

  lemma LastSequence(groups: seq<Group>, open: set<string>)
    requires groups != []
    ensures var n := |groups| - 1; Sequence(groups, open) == Sequence(groups[..n], open) + GroupEls(groups[n], open)
  {
  }

  lemma LaidOutLater(s: seq<El>, all: seq<El>, at: nat, g: Group, open: set<string>)
    requires LaidOutAt(s, at, g, open) && s <= all
    ensures LaidOutAt(all, at, g, open)
  {
  }

  lemma LastLaidOut(s: seq<El>, all: seq<El>, g: Group, open: set<string>)
    requires g.rows != [] && all == s + GroupEls(g, open)
    ensures LaidOutAt(all, |s|, g, open)
  {
    var els := GroupEls(g, open);
    assert forall k :: 0 <= k < |els| ==> all[|s| + k] == els[k];
    if |g.rows| > 1 && g.key in open {
      forall k | 0 <= k < |g.rows|
        ensures all[|s| + 1 + k] == RowEl(g.rows[k].el)
      {
        assert els[1 + k] == RowEl(g.rows[k].el);
      }
    }
  }

  lemma {:induction false} SequenceHeight(groups: seq<Group>, open: set<string>)
    requires forall j :: 0 <= j < |groups| ==> groups[j].rows != []
    ensures |Sequence(groups, open)| == Heights(groups, open)
  {
    if groups != [] {
      SequenceHeight(groups[..|groups| - 1], open);
    }
  }

  /** Bucket, sort in any way, lay out, apply: the table's children end up being
      the layout, whatever they were. */
  method Render(body: Body<El>, vis: seq<Row>, sorted: seq<Group>, ghost order: seq<nat>, open: set<string>)
    requires body.Valid() && OwnElements(vis)
    requires Rearranged(Bucketed(vis, Listens(vis)), sorted, order)
    modifies body
    ensures body.Valid() && body.children == Sequence(sorted, open)
  {
    BucketedIsProper(vis, Listens(vis));
    SortedIsProper(Bucketed(vis, Listens(vis)), sorted, order, vis);
    SequenceDistinct(sorted, vis, open);
    body.ApplySeq(Sequence(sorted, open));
  }
}
