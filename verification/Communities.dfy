/**
  Canonical community ids: whatever labels a clustering library gave its classes, equal
  partitions get equal ids, largest class first, ties broken by the smallest member.
 */
module Communities {
  import opened Prelude
  import opened Sorting

  type Node = string

  /** A class number of the clustering library. */
  type Label = nat

  /** A JavaScript `Map` in insertion order: each node once, with the raw label of its class. */
  type Assignments = seq<(Node, Label)>

  ghost predicate KeysDistinct(a: Assignments) {
    forall i, j :: 0 <= i < j < |a| ==> a[i].0 != a[j].0
  }

  /** `before(x, y)` is `x.localeCompare(y) < 0`, taken as a strict total order. */
  ghost predicate StrictTotal(before: (Node, Node) -> bool) {
    && (forall x, y :: before(x, y) ==> !before(y, x))
    && (forall x, y, z :: before(x, y) && before(y, z) ==> before(x, z))
    && (forall x, y :: x == y || before(x, y) || before(y, x))
  }

  // ----- the partition and the canonical rank of a class -----

  ghost function Members(a: Assignments, raw: Label): set<Node> {
    set i | 0 <= i < |a| && a[i].1 == raw :: a[i].0
  }

  ghost function Raws(a: Assignments): set<Label> {
    set i | 0 <= i < |a| :: a[i].1
  }

  ghost function Classes(a: Assignments): set<set<Node>> {
    set r | r in Raws(a) :: Members(a, r)
  }

  /** Larger classes come first; among equals, the one with a member before all of the other's. */
  ghost predicate Precedes(before: (Node, Node) -> bool, b: set<Node>, c: set<Node>) {
    |b| > |c| || (|b| == |c| && exists x :: x in b && forall y :: y in c ==> before(x, y))
  }

  /** The canonical id of a class, defined on the partition alone: one more than the classes that precede it. */
  ghost function Rank(before: (Node, Node) -> bool, classes: set<set<Node>>, c: set<Node>): nat {
    |set b | b in classes && Precedes(before, b, c)| + 1
  }

  // ----- groups -----

  datatype Group = Group(raw: Label, size: nat, minNodeId: Node)

  ghost predicate IsLeast(before: (Node, Node) -> bool, x: Node, c: set<Node>) {
    x in c && forall y :: y in c ==> y == x || before(x, y)
  }

  ghost predicate Describes(before: (Node, Node) -> bool, a: Assignments, g: Group) {
    g.size == |Members(a, g.raw)| && IsLeast(before, g.minNodeId, Members(a, g.raw))
  }

  function GroupLess(before: (Node, Node) -> bool): (Group, Group) -> bool {
    (g: Group, h: Group) => g.size > h.size || (g.size == h.size && before(g.minNodeId, h.minNodeId))
  }

  lemma GroupOrder(before: (Node, Node) -> bool)
    requires StrictTotal(before)
    ensures WeakOrder(GroupLess(before))
  {
    var less := GroupLess(before);
    forall g, h | less(g, h) ensures !less(h, g) {
      if g.size == h.size {
        assert before(g.minNodeId, h.minNodeId);
      }
    }
    forall g, h, k | !less(h, g) && !less(k, h) ensures !less(k, g) {
      if k.size == g.size {
        assert g.minNodeId == h.minNodeId || before(g.minNodeId, h.minNodeId);
        assert h.minNodeId == k.minNodeId || before(h.minNodeId, k.minNodeId);
        assert g.minNodeId == k.minNodeId || before(g.minNodeId, k.minNodeId);
      }
    }
  }

  lemma MembersStep(a: Assignments, n: Node, raw: Label, r: Label)
    ensures Members(a + [(n, raw)], r) == if r == raw then Members(a, r) + {n} else Members(a, r)
  {
    var b := a + [(n, raw)];
    forall x | x in Members(a, r) ensures x in Members(b, r) {
      var i :| 0 <= i < |a| && a[i].1 == r && a[i].0 == x;
      assert b[i] == a[i];
    }
    if r == raw {
      assert b[|a|] == (n, raw);
    }
  }

  /** The group order is the order of the classes. */
  lemma GroupLessIsPrecedes(before: (Node, Node) -> bool, a: Assignments, g: Group, h: Group)
    requires StrictTotal(before) && Describes(before, a, g) && Describes(before, a, h)
    ensures GroupLess(before)(g, h) <==> Precedes(before, Members(a, g.raw), Members(a, h.raw))
  {
    var b, c := Members(a, g.raw), Members(a, h.raw);
    if g.size == h.size {
      if before(g.minNodeId, h.minNodeId) {
        assert forall y :: y in c ==> before(g.minNodeId, y);
      }
      if exists x :: x in b && forall y :: y in c ==> before(x, y) {
        var x :| x in b && forall y :: y in c ==> before(x, y);
        assert before(x, h.minNodeId);
      }
    }
  }

  lemma ClassesDisjoint(a: Assignments, r: Label, s: Label)
    requires KeysDistinct(a) && r != s
    ensures Members(a, r) !! Members(a, s)
  {
    forall x | x in Members(a, r) ensures x !in Members(a, s) {
      var i :| 0 <= i < |a| && a[i].1 == r && a[i].0 == x;
    }
  }

  // ----- the sorted groups enumerate the ranks -----

  /** Every class is described by exactly one group. */
  ghost predicate Complete(before: (Node, Node) -> bool, a: Assignments, groups: seq<Group>) {
    && (forall g :: g in groups ==> g.raw in Raws(a) && Describes(before, a, g))
    && (forall r :: r in Raws(a) ==> exists g :: g in groups && g.raw == r)
    && (forall i, j :: 0 <= i < j < |groups| ==> groups[i].raw != groups[j].raw)
  }

  lemma NoTies(before: (Node, Node) -> bool, a: Assignments, g: Group, h: Group)
    requires StrictTotal(before) && KeysDistinct(a) && g.raw != h.raw
    requires Describes(before, a, g) && Describes(before, a, h)
    ensures g.minNodeId != h.minNodeId && (GroupLess(before)(g, h) || GroupLess(before)(h, g))
  {
    ClassesDisjoint(a, g.raw, h.raw);
  }

  lemma SortedComplete(before: (Node, Node) -> bool, a: Assignments, groups: seq<Group>)
    requires StrictTotal(before) && KeysDistinct(a) && Complete(before, a, groups)
    ensures var sorted := Sort(GroupLess(before), groups);
            && Complete(before, a, sorted)
            && forall i, j :: 0 <= i < j < |sorted| ==> GroupLess(before)(sorted[i], sorted[j])
  {
    GroupOrder(before);
    var less := GroupLess(before);
    var sorted := Sort(less, groups);
    SortKeeps(less, groups);
    SameRawSameGroup(before, a, groups);
    DistinctReordered(groups, sorted);
    forall g ensures g in sorted <==> g in groups {
      assert g in multiset(sorted) <==> g in multiset(groups);
    }
    forall i, j | 0 <= i < j < |sorted| ensures sorted[i].raw != sorted[j].raw && less(sorted[i], sorted[j]) {
      assert sorted[i] in groups && sorted[j] in groups;
      NoTies(before, a, sorted[i], sorted[j]);
    }
  }

  lemma SameRawSameGroup(before: (Node, Node) -> bool, a: Assignments, groups: seq<Group>)
    requires Complete(before, a, groups)
    ensures Distinct(groups)
    ensures forall g, h :: g in groups && h in groups && g.raw == h.raw ==> g == h
  {
  }

  /** The first i classes of the sorted order. */
  ghost function FirstClasses(a: Assignments, sorted: seq<Group>, i: nat): set<set<Node>>
    requires i <= |sorted|
  {
    set j | 0 <= j < i :: Members(a, sorted[j].raw)
  }

  lemma OneMoreClass(a: Assignments, sorted: seq<Group>, i: nat)
    requires i < |sorted|
    ensures FirstClasses(a, sorted, i + 1) == FirstClasses(a, sorted, i) + {Members(a, sorted[i].raw)}
  {
  }

  /** Classes of different labels are different: they are disjoint, and none is empty. */
  lemma NewClass(before: (Node, Node) -> bool, a: Assignments, sorted: seq<Group>, i: nat)
    requires KeysDistinct(a) && Complete(before, a, sorted) && i < |sorted|
    ensures Members(a, sorted[i].raw) !in FirstClasses(a, sorted, i)
  {
    var c := Members(a, sorted[i].raw);
    assert sorted[i] in sorted && sorted[i].minNodeId in c;
    forall j | 0 <= j < i ensures Members(a, sorted[j].raw) != c {
      ClassesDisjoint(a, sorted[j].raw, sorted[i].raw);
    }
  }

  lemma NoClassYet(a: Assignments, sorted: seq<Group>)
    ensures |FirstClasses(a, sorted, 0)| == 0
  {
    assert FirstClasses(a, sorted, 0) == {};
  }

  lemma OneMore<T>(s: set<T>, t: set<T>, x: T)
    requires x !in s && t == s + {x}
    ensures |t| == |s| + 1
  {
  }

  lemma CountOneMore(before: (Node, Node) -> bool, a: Assignments, sorted: seq<Group>, i: nat)
    requires KeysDistinct(a) && Complete(before, a, sorted) && i < |sorted|
    ensures |FirstClasses(a, sorted, i + 1)| == |FirstClasses(a, sorted, i)| + 1
  {
    NewClass(before, a, sorted, i);
    OneMoreClass(a, sorted, i);
    OneMore(FirstClasses(a, sorted, i), FirstClasses(a, sorted, i + 1), Members(a, sorted[i].raw));
  }

  lemma {:induction false} CountFirst(before: (Node, Node) -> bool, a: Assignments, sorted: seq<Group>, i: nat)
    requires KeysDistinct(a) && Complete(before, a, sorted) && i <= |sorted|
    ensures |FirstClasses(a, sorted, i)| == i
  {
    if i == 0 {
      NoClassYet(a, sorted);
    } else {
      CountFirst(before, a, sorted, i - 1);
      CountOneMore(before, a, sorted, i - 1);
    }
  }

  lemma EarlierClasses(before: (Node, Node) -> bool, a: Assignments, sorted: seq<Group>, i: nat, b: set<Node>)
    requires StrictTotal(before) && Complete(before, a, sorted) && i < |sorted|
    requires forall p, q :: 0 <= p < q < |sorted| ==> GroupLess(before)(sorted[p], sorted[q])
    ensures b in Classes(a) && Precedes(before, b, Members(a, sorted[i].raw)) <==> b in FirstClasses(a, sorted, i)
  {
    if b in Classes(a) {
      var r :| r in Raws(a) && Members(a, r) == b;
      var g :| g in sorted && g.raw == r;
      var j :| 0 <= j < |sorted| && sorted[j] == g;
      PositionPrecedes(before, a, sorted, j, i);
    }
    if b in FirstClasses(a, sorted, i) {
      var j :| 0 <= j < i && Members(a, sorted[j].raw) == b;
      assert sorted[j] in sorted;
      PositionPrecedes(before, a, sorted, j, i);
    }
  }

  /** The position of a group in the sorted order is the rank of its class. */
  lemma PositionIsRank(before: (Node, Node) -> bool, a: Assignments, sorted: seq<Group>, i: nat)
    requires StrictTotal(before) && KeysDistinct(a) && Complete(before, a, sorted) && i < |sorted|
    requires forall p, q :: 0 <= p < q < |sorted| ==> GroupLess(before)(sorted[p], sorted[q])
    ensures Rank(before, Classes(a), Members(a, sorted[i].raw)) == i + 1
  {
    var c := Members(a, sorted[i].raw);
    var earlier := set b | b in Classes(a) && Precedes(before, b, c);
    forall b ensures b in earlier <==> b in FirstClasses(a, sorted, i) {
      EarlierClasses(before, a, sorted, i, b);
    }
    assert earlier == FirstClasses(a, sorted, i);
    CountFirst(before, a, sorted, i);
  }

  lemma PositionPrecedes(before: (Node, Node) -> bool, a: Assignments, sorted: seq<Group>, j: nat, i: nat)
    requires StrictTotal(before) && Complete(before, a, sorted) && i < |sorted| && j < |sorted|
    requires forall p, q :: 0 <= p < q < |sorted| ==> GroupLess(before)(sorted[p], sorted[q])
    ensures Precedes(before, Members(a, sorted[j].raw), Members(a, sorted[i].raw)) <==> j < i
  {
    assert sorted[j] in sorted && sorted[i] in sorted;
    GroupLessIsPrecedes(before, a, sorted[j], sorted[i]);
    if i < j {
      assert GroupLess(before)(sorted[i], sorted[j]);
      assert !GroupLess(before)(sorted[j], sorted[i]);
    }
  }

  // ----- the imperative relabelling -----

  /** `order` lists the labels seen, each once, as the keys of the JavaScript `Map` of groups. */
  ghost predicate OrderOk(groups: map<Label, Group>, order: seq<Label>) {
    (forall r :: r in order <==> r in groups) && Distinct(order)
  }

  ghost predicate GroupsOk(before: (Node, Node) -> bool, a: Assignments, groups: map<Label, Group>) {
    groups.Keys == Raws(a) && forall r :: r in groups ==> groups[r].raw == r && Describes(before, a, groups[r])
  }

  lemma RawsStep(a: Assignments, n: Node, raw: Label)
    ensures Raws(a + [(n, raw)]) == Raws(a) + {raw}
  {
    var b := a + [(n, raw)];
    assert b[|a|] == (n, raw);
    forall r | r in Raws(a) ensures r in Raws(b) {
      var i :| 0 <= i < |a| && a[i].1 == r;
      assert b[i] == a[i];
    }
  }

  lemma NewMember(a: Assignments, n: Node, raw: Label)
    requires KeysDistinct(a + [(n, raw)])
    ensures n !in Members(a, raw) && (raw !in Raws(a) ==> Members(a, raw) == {})
  {
    var b := a + [(n, raw)];
    forall i | 0 <= i < |a| ensures a[i].0 != n {
      assert b[i] == a[i] && b[|a|] == (n, raw);
    }
  }

  /** One more member: the group counts it, and keeps the smaller of the two candidates for the minimum. */
  function Joined(before: (Node, Node) -> bool, groups: map<Label, Group>, n: Node, raw: Label): Group {
    if raw !in groups then Group(raw, 1, n)
    else
      var g := groups[raw];
      Group(raw, g.size + 1, if before(n, g.minNodeId) then n else g.minNodeId)
  }

  lemma JoinedDescribes(before: (Node, Node) -> bool, a: Assignments, n: Node, raw: Label, groups: map<Label, Group>)
    requires StrictTotal(before) && KeysDistinct(a + [(n, raw)]) && groups.Keys == Raws(a)
    requires raw in groups ==> groups[raw].raw == raw && Describes(before, a, groups[raw])
    ensures Describes(before, a + [(n, raw)], Joined(before, groups, n, raw))
  {
    NewMember(a, n, raw);
    MembersStep(a, n, raw, raw);
    if raw in groups {
      assert groups[raw].minNodeId in Members(a, raw);
    }
  }

  /** Counting one more member keeps every group a description of its class. */
  lemma GroupsStep(before: (Node, Node) -> bool, a: Assignments, n: Node, raw: Label, groups: map<Label, Group>)
    requires StrictTotal(before) && KeysDistinct(a + [(n, raw)]) && GroupsOk(before, a, groups)
    ensures GroupsOk(before, a + [(n, raw)], groups[raw := Joined(before, groups, n, raw)])
  {
    RawsStep(a, n, raw);
    JoinedDescribes(before, a, n, raw, groups);
    forall r | r in groups && r != raw ensures Describes(before, a + [(n, raw)], groups[r]) {
      MembersStep(a, n, raw, r);
    }
  }

  function EntriesOf(groups: map<Label, Group>, order: seq<Label>): (entries: seq<Group>)
    requires forall k :: 0 <= k < |order| ==> order[k] in groups
    ensures |entries| == |order| && forall k :: 0 <= k < |order| ==> entries[k] == groups[order[k]]
  {
    if order == [] then [] else EntriesOf(groups, order[..|order| - 1]) + [groups[order[|order| - 1]]]
  }

  lemma GroupsComplete(before: (Node, Node) -> bool, a: Assignments, groups: map<Label, Group>, order: seq<Label>)
    requires GroupsOk(before, a, groups) && OrderOk(groups, order)
    requires forall k :: 0 <= k < |order| ==> order[k] in groups
    ensures Complete(before, a, EntriesOf(groups, order))
  {
    var entries := EntriesOf(groups, order);
    forall r | r in Raws(a) ensures exists g :: g in entries && g.raw == r {
      var k :| 0 <= k < |order| && order[k] == r;
      assert entries[k] in entries;
    }
  }

  /** Raw labels to 1, 2, ... in sorted order. */
  method Remap(sorted: seq<Group>) returns (remap: map<Label, nat>)
    requires forall i, j :: 0 <= i < j < |sorted| ==> sorted[i].raw != sorted[j].raw
    ensures forall r :: r in remap <==> exists k :: 0 <= k < |sorted| && sorted[k].raw == r
    ensures forall k :: 0 <= k < |sorted| ==> sorted[k].raw in remap && remap[sorted[k].raw] == k + 1
  {
    remap := map[];
    for i := 0 to |sorted|
      invariant forall r :: r in remap <==> exists k :: 0 <= k < i && sorted[k].raw == r
      invariant forall k :: 0 <= k < i ==> sorted[k].raw in remap && remap[sorted[k].raw] == k + 1
    {
      remap := remap[sorted[i].raw := i + 1];
    }
  }

  /** One turn of the loop over the assignments. */
  method Join(groups: map<Label, Group>, order: seq<Label>, before: (Node, Node) -> bool, nodeId: Node, rawId: Label)
    returns (groups': map<Label, Group>, order': seq<Label>)
    requires rawId in groups ==> groups[rawId].raw == rawId
    ensures groups' == groups[rawId := Joined(before, groups, nodeId, rawId)]
    ensures order' == if rawId in groups then order else order + [rawId]
  {
    groups', order' := groups, order;
    if rawId !in groups' {
      groups' := groups'[rawId := Group(rawId, 0, nodeId)];
      order' := order' + [rawId];
    }
    var group := groups'[rawId];
    group := group.(size := group.size + 1);
    if before(nodeId, group.minNodeId) {
      group := group.(minNodeId := nodeId);
    }
    groups' := groups'[rawId := group];
  }

  lemma OrderStep(groups: map<Label, Group>, order: seq<Label>, rawId: Label, g: Group)
    requires OrderOk(groups, order)
    ensures OrderOk(groups[rawId := g], if rawId in groups then order else order + [rawId])
  {
    assert rawId in groups <==> rawId in order;
  }

  method CollectGroups(a: Assignments, before: (Node, Node) -> bool)
    returns (groups: map<Label, Group>, order: seq<Label>)
    requires KeysDistinct(a) && StrictTotal(before)
    ensures GroupsOk(before, a, groups) && OrderOk(groups, order)
    ensures forall k :: 0 <= k < |order| ==> order[k] in groups
  {
    groups, order := map[], [];
    for i := 0 to |a|
      invariant GroupsOk(before, a[..i], groups) && OrderOk(groups, order)
    {
      var (nodeId, rawId) := a[i];
      assert a[..i + 1] == a[..i] + [(nodeId, rawId)];
      GroupsStep(before, a[..i], nodeId, rawId, groups);
      OrderStep(groups, order, rawId, Joined(before, groups, nodeId, rawId));
      groups, order := Join(groups, order, before, nodeId, rawId);
    }
    assert a[..|a|] == a;
    assert forall k :: 0 <= k < |order| ==> order[k] in order;
  }

  /** Exactly the assigned nodes are keys, and each has the rank of its class. */
  ghost predicate IsCanonical(before: (Node, Node) -> bool, a: Assignments, canonical: map<Node, nat>) {
    && (forall n :: n in canonical <==> exists i :: 0 <= i < |a| && a[i].0 == n)
    && forall i :: 0 <= i < |a| ==>
         a[i].0 in canonical && canonical[a[i].0] == Rank(before, Classes(a), Members(a, a[i].1))
  }

  /** Every node gets the rank of its class. */
  method CanonicalizeAssignments(a: Assignments, before: (Node, Node) -> bool) returns (canonical: map<Node, nat>)
    requires KeysDistinct(a) && StrictTotal(before)
    ensures IsCanonical(before, a, canonical)
  {
    var groups, order := CollectGroups(a, before);
    var entries := EntriesOf(groups, order);
    GroupsComplete(before, a, groups, order);
    SortedComplete(before, a, entries);
    var sorted := Sort(GroupLess(before), entries);
    var remap := Remap(sorted);
    RemapIsRank(before, a, sorted, remap);
    canonical := Relabel(a, remap);
  }

  method Relabel(a: Assignments, remap: map<Label, nat>) returns (canonical: map<Node, nat>)
    requires KeysDistinct(a) && forall i :: 0 <= i < |a| ==> a[i].1 in remap
    ensures forall n :: n in canonical <==> exists i :: 0 <= i < |a| && a[i].0 == n
    ensures forall i :: 0 <= i < |a| ==> a[i].0 in canonical && canonical[a[i].0] == remap[a[i].1]
  {
    canonical := map[];
    for i := 0 to |a|
      invariant forall n :: n in canonical <==> exists k :: 0 <= k < i && a[k].0 == n
      invariant forall k :: 0 <= k < i ==> a[k].0 in canonical && canonical[a[k].0] == remap[a[k].1]
    {
      canonical := canonical[a[i].0 := remap[a[i].1]];
    }
  }

  lemma RemapIsRank(before: (Node, Node) -> bool, a: Assignments, sorted: seq<Group>, remap: map<Label, nat>)
    requires StrictTotal(before) && KeysDistinct(a) && Complete(before, a, sorted)
    requires forall p, q :: 0 <= p < q < |sorted| ==> GroupLess(before)(sorted[p], sorted[q])
    requires forall k :: 0 <= k < |sorted| ==> sorted[k].raw in remap && remap[sorted[k].raw] == k + 1
    ensures forall i :: 0 <= i < |a| ==>
      a[i].1 in remap && remap[a[i].1] == Rank(before, Classes(a), Members(a, a[i].1))
  {
    forall i | 0 <= i < |a| ensures a[i].1 in remap && remap[a[i].1] == Rank(before, Classes(a), Members(a, a[i].1)) {
      assert a[i].1 in Raws(a);
      var g :| g in sorted && g.raw == a[i].1;
      var k :| 0 <= k < |sorted| && sorted[k] == g;
      PositionIsRank(before, a, sorted, k);
    }
  }

  // ----- what the ranks mean -----

  /** Every assignment has its groups, one per label. */
  lemma {:induction false} GroupsExist(before: (Node, Node) -> bool, a: Assignments)
    returns (groups: map<Label, Group>, order: seq<Label>)
    requires StrictTotal(before) && KeysDistinct(a)
    ensures GroupsOk(before, a, groups) && OrderOk(groups, order)
  {
    if a == [] {
      groups, order := map[], [];
    } else {
      var (n, raw) := a[|a| - 1];
      assert a == a[..|a| - 1] + [(n, raw)];
      groups, order := GroupsExist(before, a[..|a| - 1]);
      GroupsStep(before, a[..|a| - 1], n, raw, groups);
      order := if raw in groups then order else order + [raw];
      groups := groups[raw := Joined(before, groups, n, raw)];
    }
  }

  ghost predicate Enumerates(before: (Node, Node) -> bool, a: Assignments, sorted: seq<Group>) {
    && Complete(before, a, sorted)
    && forall p, q :: 0 <= p < q < |sorted| ==> GroupLess(before)(sorted[p], sorted[q])
  }

  lemma EnumerationExists(before: (Node, Node) -> bool, a: Assignments) returns (sorted: seq<Group>)
    requires StrictTotal(before) && KeysDistinct(a)
    ensures Enumerates(before, a, sorted)
  {
    var groups, order := GroupsExist(before, a);
    assert forall k :: 0 <= k < |order| ==> order[k] in order;
    GroupsComplete(before, a, groups, order);
    SortedComplete(before, a, EntriesOf(groups, order));
    sorted := Sort(GroupLess(before), EntriesOf(groups, order));
  }

  lemma PositionOf(before: (Node, Node) -> bool, a: Assignments, sorted: seq<Group>, i: nat) returns (p: nat)
    requires StrictTotal(before) && KeysDistinct(a) && Enumerates(before, a, sorted) && i < |a|
    ensures p < |sorted| && sorted[p].raw == a[i].1
    ensures Rank(before, Classes(a), Members(a, a[i].1)) == p + 1
  {
    assert a[i].1 in Raws(a);
    var g :| g in sorted && g.raw == a[i].1;
    p :| 0 <= p < |sorted| && sorted[p] == g;
    PositionIsRank(before, a, sorted, p);
  }

  /** Two nodes share an id exactly when they share a raw label, and ids follow the order of the classes. */
  lemma RankOrdersNodes(before: (Node, Node) -> bool, a: Assignments, i: nat, j: nat)
    requires StrictTotal(before) && KeysDistinct(a) && i < |a| && j < |a|
    ensures var c, d := Members(a, a[i].1), Members(a, a[j].1);
            && (Rank(before, Classes(a), c) == Rank(before, Classes(a), d) <==> a[i].1 == a[j].1)
            && (Rank(before, Classes(a), c) < Rank(before, Classes(a), d) <==> Precedes(before, c, d))
  {
    var sorted := EnumerationExists(before, a);
    var p := PositionOf(before, a, sorted, i);
    var q := PositionOf(before, a, sorted, j);
    PositionPrecedes(before, a, sorted, p, q);
  }

  /** The ids in use are exactly 1, 2, ..., k for k classes. */
  lemma RanksAreContiguous(before: (Node, Node) -> bool, a: Assignments, id: nat)
    requires StrictTotal(before) && KeysDistinct(a)
    ensures (exists i :: 0 <= i < |a| && Rank(before, Classes(a), Members(a, a[i].1)) == id)
            <==> 1 <= id <= |Classes(a)|
  {
    var sorted := EnumerationExists(before, a);
    AllClasses(before, a, sorted);
    if 1 <= id <= |sorted| {
      PositionIsRank(before, a, sorted, id - 1);
      assert sorted[id - 1] in sorted;
      var i :| 0 <= i < |a| && a[i].1 == sorted[id - 1].raw;
    }
    if exists i :: 0 <= i < |a| && Rank(before, Classes(a), Members(a, a[i].1)) == id {
      var i :| 0 <= i < |a| && Rank(before, Classes(a), Members(a, a[i].1)) == id;
      var p := PositionOf(before, a, sorted, i);
    }
  }

  lemma AllClasses(before: (Node, Node) -> bool, a: Assignments, sorted: seq<Group>)
    requires KeysDistinct(a) && Complete(before, a, sorted)
    ensures |Classes(a)| == |sorted|
  {
    CountFirst(before, a, sorted, |sorted|);
    forall c | c in Classes(a) ensures c in FirstClasses(a, sorted, |sorted|) {
      var r :| r in Raws(a) && Members(a, r) == c;
      var g :| g in sorted && g.raw == r;
      var p :| 0 <= p < |sorted| && sorted[p] == g;
    }
    forall c | c in FirstClasses(a, sorted, |sorted|) ensures c in Classes(a) {
      var p :| 0 <= p < |sorted| && Members(a, sorted[p].raw) == c;
      assert sorted[p] in sorted;
    }
    assert Classes(a) == FirstClasses(a, sorted, |sorted|);
  }

  ghost predicate Renames(f: Label -> Label, a: Assignments) {
    forall r, s :: r in Raws(a) && s in Raws(a) && f(r) == f(s) ==> r == s
  }

  function Renamed(f: Label -> Label, a: Assignments): (r: Assignments)
    ensures |r| == |a| && forall i :: 0 <= i < |a| ==> r[i] == (a[i].0, f(a[i].1))
  {
    seq(|a|, i requires 0 <= i < |a| => (a[i].0, f(a[i].1)))
  }

  lemma RenamedMembers(f: Label -> Label, a: Assignments, raw: Label)
    requires Renames(f, a) && raw in Raws(a)
    ensures Members(Renamed(f, a), f(raw)) == Members(a, raw)
  {
    var b := Renamed(f, a);
    forall x ensures x in Members(b, f(raw)) <==> x in Members(a, raw) {
      if x in Members(b, f(raw)) {
        var i :| 0 <= i < |b| && b[i].1 == f(raw) && b[i].0 == x;
        assert a[i].1 in Raws(a);
      }
      if x in Members(a, raw) {
        var i :| 0 <= i < |a| && a[i].1 == raw && a[i].0 == x;
        assert b[i] == (x, f(raw));
      }
    }
  }

  /** Renaming the raw labels one to one changes neither the classes nor any node's class. */
  lemma RenamingKeepsClasses(f: Label -> Label, a: Assignments)
    requires Renames(f, a)
    ensures Classes(Renamed(f, a)) == Classes(a)
    ensures forall i :: 0 <= i < |a| ==> Members(Renamed(f, a), Renamed(f, a)[i].1) == Members(a, a[i].1)
  {
    var b := Renamed(f, a);
    forall i | 0 <= i < |a| ensures Members(b, b[i].1) == Members(a, a[i].1) && a[i].1 in Raws(a) && b[i].1 in Raws(b) {
      RenamedMembers(f, a, a[i].1);
    }
    forall c | c in Classes(b) ensures c in Classes(a) {
      var r :| r in Raws(b) && Members(b, r) == c;
      var i :| 0 <= i < |b| && b[i].1 == r;
      assert Members(a, a[i].1) == c;
    }
    forall c | c in Classes(a) ensures c in Classes(b) {
      var r :| r in Raws(a) && Members(a, r) == c;
      var i :| 0 <= i < |a| && a[i].1 == r;
      assert Members(b, b[i].1) == c;
    }
  }

  /** Where a node's id comes from. */
  lemma SourceOf(before: (Node, Node) -> bool, a: Assignments, canonical: map<Node, nat>, n: Node) returns (i: nat)
    requires IsCanonical(before, a, canonical) && n in canonical
    ensures i < |a| && a[i].0 == n
  {
    i :| 0 <= i < |a| && a[i].0 == n;
  }

  /** Every position of `a` has one of `b` with the same node and the same class. */
  ghost predicate Carries(a: Assignments, b: Assignments) {
    Classes(a) == Classes(b) && forall i :: 0 <= i < |a| ==> CarriesAt(a, b, i)
  }

  ghost predicate CarriesAt(a: Assignments, b: Assignments, i: nat)
    requires i < |a|
  {
    exists j :: 0 <= j < |b| && b[j].0 == a[i].0 && Members(b, b[j].1) == Members(a, a[i].1)
  }

  lemma CarriedId(before: (Node, Node) -> bool, a: Assignments, b: Assignments, m: map<Node, nat>,
                  m': map<Node, nat>, n: Node)
    requires Carries(a, b) && IsCanonical(before, a, m) && IsCanonical(before, b, m') && n in m
    ensures n in m' && m[n] == m'[n]
  {
    var i := SourceOf(before, a, m, n);
    assert CarriesAt(a, b, i);
    var j :| 0 <= j < |b| && b[j].0 == a[i].0 && Members(b, b[j].1) == Members(a, a[i].1);
  }

  /** Two assignments that carry each other's nodes and classes have one canonical map. */
  lemma SameCanonical(before: (Node, Node) -> bool, a: Assignments, b: Assignments, m: map<Node, nat>,
                      m': map<Node, nat>)
    requires Carries(a, b) && Carries(b, a) && IsCanonical(before, a, m) && IsCanonical(before, b, m')
    ensures m == m'
  {
    forall n | n in m ensures n in m' && m[n] == m'[n] {
      CarriedId(before, a, b, m, m', n);
    }
    forall n | n in m' ensures n in m {
      CarriedId(before, b, a, m', m, n);
    }
  }

  /** Renaming the raw labels one to one leaves the canonical map as it is. */
  lemma RenamingIsInvisible(before: (Node, Node) -> bool, f: Label -> Label, a: Assignments,
                            canonical: map<Node, nat>, other: map<Node, nat>)
    requires Renames(f, a) && IsCanonical(before, a, canonical) && IsCanonical(before, Renamed(f, a), other)
    ensures canonical == other
  {
    RenamingKeepsClasses(f, a);
    var b := Renamed(f, a);
    forall i | 0 <= i < |a| ensures CarriesAt(a, b, i) && CarriesAt(b, a, i) {
      assert b[i].0 == a[i].0 && Members(b, b[i].1) == Members(a, a[i].1);
    }
    SameCanonical(before, a, b, canonical, other);
  }

  lemma PermutedCarries(a: Assignments, b: Assignments)
    requires forall p :: p in a <==> p in b
    ensures Carries(a, b)
  {
    InsertionKeepsClasses(a, b);
    forall i | 0 <= i < |a| ensures CarriesAt(a, b, i) {
      assert a[i] in b;
      var j :| 0 <= j < |b| && b[j] == a[i];
      assert b[j].0 == a[i].0 && Members(b, b[j].1) == Members(a, a[i].1);
    }
  }

  /** The order in which nodes were inserted leaves the canonical map as it is. */
  lemma InsertionOrderIsInvisible(before: (Node, Node) -> bool, a: Assignments, b: Assignments,
                                  canonical: map<Node, nat>, other: map<Node, nat>)
    requires (forall p :: p in a <==> p in b) && IsCanonical(before, a, canonical) && IsCanonical(before, b, other)
    ensures canonical == other
  {
    PermutedCarries(a, b);
    PermutedCarries(b, a);
    SameCanonical(before, a, b, canonical, other);
  }

  /** Nor does insertion order change the classes. */
  lemma InsertionKeepsClasses(a: Assignments, b: Assignments)
    requires forall p :: p in a <==> p in b
    ensures Classes(a) == Classes(b) && forall r :: Members(a, r) == Members(b, r)
  {
    forall r ensures Members(a, r) == Members(b, r) {
      SamePairsSameClass(a, b, r);
      SamePairsSameClass(b, a, r);
    }
    forall r ensures r in Raws(a) <==> r in Raws(b) {
      SamePairsSameClass(a, b, r);
      SamePairsSameClass(b, a, r);
    }
    assert Raws(a) == Raws(b);
  }

  lemma SamePairsSameClass(a: Assignments, b: Assignments, r: Label)
    requires forall p :: p in a <==> p in b
    ensures Members(a, r) <= Members(b, r) && (r in Raws(a) ==> r in Raws(b))
  {
    forall i | 0 <= i < |a| ensures exists j :: 0 <= j < |b| && b[j] == a[i] {
      assert a[i] in b;
    }
    forall x | x in Members(a, r) ensures x in Members(b, r) {
      var i :| 0 <= i < |a| && a[i].1 == r && a[i].0 == x;
      var j :| 0 <= j < |b| && b[j] == a[i];
    }
    if r in Raws(a) {
      var i :| 0 <= i < |a| && a[i].1 == r;
      var j :| 0 <= j < |b| && b[j] == a[i];
    }
  }
}
