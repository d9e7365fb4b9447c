/**
  The dashboard's shortest-path query: a bidirectional breadth-first search that
  expands the smaller frontier and stops at the first vertex seen from both sides.
 */
module GraphPath {
  import opened Prelude
  import opened Reach
  import Sorting

  type Id = string

  datatype Edge = Edge(from: Id, to: Id)

  /**
    The two tables the query reads. `rows(x)` is the answer of the neighbour query for `x`,
    in whatever order the SQL engine returns it.
   */
  datatype Db = Db(nodes: set<Id>, edges: set<Edge>, rows: Id -> seq<Id>)

  /** The edge table read in both directions. */
  ghost function Links(db: Db): Rel<Id> {
    (set e | e in db.edges :: (e.from, e.to)) + (set e | e in db.edges :: (e.to, e.from))
  }

  /** The neighbour query answers with exactly the vertices an edge joins to `x`. */
  ghost predicate Faithful(db: Db) {
    forall x, y :: y in db.rows(x) <==> (x, y) in Links(db)
  }

  /** A JavaScript `Map` from a vertex to its predecessor; the root's predecessor is null. */
  type Parents = map<Id, Option<Id>>

  /** The JavaScript truth value of a nullable string: the empty string is false. */
  predicate Truthy(id: Option<Id>) {
    id.Some? && id.value != ""
  }

  const CODE_PREFIX := "code:"

  function RawNodeId(id: Option<string>): Option<Id> {
    if id.Some? && CODE_PREFIX <= id.value then Some(id.value[|CODE_PREFIX|..]) else id
  }

  // ----- the search as functions -----

  /** One frontier expansion under way: the growing parent map, the next frontier, the meeting vertex. */
  datatype Scan = Scan(mine: Parents, next: seq<Id>, meet: Option<Id>)

  function ScanRows(rows: seq<Id>, node: Id, theirs: Parents, s: Scan): (r: Scan)
    ensures |r.mine| - |s.mine| >= |r.next| - |s.next|
  {
    if rows == [] then s
    else if rows[0] in s.mine then ScanRows(rows[1..], node, theirs, s)
    else
      var mine := s.mine[rows[0] := Some(node)];
      if rows[0] in theirs then Scan(mine, s.next, Some(rows[0]))
      else ScanRows(rows[1..], node, theirs, Scan(mine, s.next + [rows[0]], s.meet))
  }

  function ScanFront(db: Db, front: seq<Id>, theirs: Parents, s: Scan): (r: Scan)
    ensures |r.mine| - |s.mine| >= |r.next| - |s.next|
  {
    if front == [] then s
    else
      var r := ScanRows(db.rows(front[0]), front[0], theirs, s);
      if Truthy(r.meet) then r else ScanFront(db, front[1..], theirs, r)
  }

  /** The loop state; `a` and `b` count the expansions made from each side. */
  datatype Search = Search(parentF: Parents, parentB: Parents, frontF: seq<Id>, frontB: seq<Id>,
                           meet: Option<Id>, a: nat, b: nat)
  {
    function Size(): nat {
      |parentF| + |parentB|
    }

    predicate Running() {
      frontF != [] && frontB != [] && !Truthy(meet)
    }
  }

  function Start(from: Id, to: Id): Search {
    Search(map[from := None], map[to := None], [from], [to], None, 0, 0)
  }

  function ExpandForward(db: Db, st: Search): (r: Search) {
    var r := ScanFront(db, st.frontF, st.parentB, Scan(st.parentF, [], st.meet));
    Search(r.mine, st.parentB, r.next, st.frontB, r.meet, st.a + 1, st.b)
  }

  function ExpandBackward(db: Db, st: Search): (r: Search) {
    var r := ScanFront(db, st.frontB, st.parentF, Scan(st.parentB, [], st.meet));
    Search(st.parentF, r.mine, st.frontF, r.next, r.meet, st.a, st.b + 1)
  }

  /** Expand the smaller frontier. Every vertex put on a frontier was first put in a map. */
  function Expand(db: Db, st: Search): (r: Search)
    requires st.Running()
    ensures r.Size() - st.Size() >= |r.frontF| + |r.frontB| - |st.frontF| - |st.frontB| + 1
  {
    if |st.frontF| <= |st.frontB| then ExpandForward(db, st) else ExpandBackward(db, st)
  }

  /**
    The search loop. It terminates on every database: each round either grows the maps towards the cap
    or shrinks the frontiers.
   */
  function Run(db: Db, st: Search, cap: nat): Search
    decreases cap - st.Size() + |st.frontF| + |st.frontB|
  {
    if !st.Running() then st
    else
      var next := Expand(db, st);
      if next.Size() > cap then next else Run(db, next, cap)
  }

  /** From `n` up to the root of a parent map. */
  function PathFrom(parent: Parents, n: Id, fuel: nat): seq<Id>
    decreases fuel
  {
    if fuel == 0 || n !in parent || parent[n].None? then [n]
    else [n] + PathFrom(parent, parent[n].value, fuel - 1)
  }

  function Reconstruct(st: Search): seq<Id>
    requires st.meet.Some?
  {
    Reversed(PathFrom(st.parentF, st.meet.value, st.a)) + PathFrom(st.parentB, st.meet.value, st.b)[1..]
  }

  function Path(db: Db, fromId: Option<string>, toId: Option<string>, cap: nat): seq<Id> {
    var from, to := RawNodeId(fromId), RawNodeId(toId);
    if !Truthy(from) || !Truthy(to) then []
    else if from == to then [from.value]
    else if from.value !in db.nodes || to.value !in db.nodes then []
    else
      var st := Run(db, Start(from.value, to.value), cap);
      if Truthy(st.meet) then Reconstruct(st) else []
  }

  // ----- the parent maps are trees, whatever the ids -----

  /** Following predecessors from `n` arrives at `s` within `fuel` steps, along edges. */
  ghost predicate Rooted(db: Db, s: Id, parent: Parents, n: Id, fuel: nat)
    decreases fuel
  {
    n in parent &&
    if parent[n].None? then n == s
    else fuel > 0 && n in db.rows(parent[n].value) && Rooted(db, s, parent, parent[n].value, fuel - 1)
  }

  ghost predicate Tree(db: Db, s: Id, k: nat, parent: Parents) {
    forall n :: n in parent ==> Rooted(db, s, parent, n, k)
  }

  /** While level `k + 1` is being recorded, the vertices `base` of the earlier levels stay within `k` steps. */
  ghost predicate Layered(db: Db, s: Id, k: nat, base: set<Id>, sc: Scan) {
    && Tree(db, s, k + 1, sc.mine)
    && (forall n :: n in base ==> Rooted(db, s, sc.mine, n, k))
    && (forall x :: x in sc.next ==> x in sc.mine)
  }

  ghost predicate MeetsBoth(sc: Scan, theirs: Parents) {
    sc.meet.Some? ==> sc.meet.value in sc.mine && sc.meet.value in theirs
  }

  lemma {:induction false} RootedGrows(db: Db, s: Id, parent: Parents, n: Id, fuel: nat, nb: Id, node: Option<Id>)
    requires Rooted(db, s, parent, n, fuel) && nb !in parent
    ensures Rooted(db, s, parent[nb := node], n, fuel)
    decreases fuel
  {
    if parent[n].Some? {
      RootedGrows(db, s, parent, parent[n].value, fuel - 1, nb, node);
    }
  }

  lemma {:induction false} RootedLift(db: Db, s: Id, parent: Parents, n: Id, fuel: nat)
    requires Rooted(db, s, parent, n, fuel)
    ensures Rooted(db, s, parent, n, fuel + 1)
    decreases fuel
  {
    if parent[n].Some? {
      RootedLift(db, s, parent, parent[n].value, fuel - 1);
    }
  }

  lemma AddChild(db: Db, s: Id, k: nat, base: set<Id>, sc: Scan, node: Id, nb: Id, next: seq<Id>, meet: Option<Id>)
    requires Layered(db, s, k, base, sc) && node in base
    requires nb !in sc.mine && nb in db.rows(node)
    requires forall x :: x in next ==> x in sc.next || x == nb
    ensures Layered(db, s, k, base, Scan(sc.mine[nb := Some(node)], next, meet))
  {
    var mine := sc.mine[nb := Some(node)];
    forall n | n in sc.mine ensures Rooted(db, s, mine, n, k + 1) {
      RootedGrows(db, s, sc.mine, n, k + 1, nb, Some(node));
    }
    forall n | n in base ensures Rooted(db, s, mine, n, k) {
      RootedGrows(db, s, sc.mine, n, k, nb, Some(node));
    }
  }

  lemma {:induction false} RowsLayered(db: Db, s: Id, k: nat, base: set<Id>, rows: seq<Id>, node: Id,
                                       theirs: Parents, sc: Scan)
    requires Layered(db, s, k, base, sc) && MeetsBoth(sc, theirs) && node in base
    requires forall nb :: nb in rows ==> nb in db.rows(node)
    ensures var r := ScanRows(rows, node, theirs, sc);
            Layered(db, s, k, base, r) && MeetsBoth(r, theirs)
  {
    if rows != [] {
      assert rows[0] in rows && forall nb :: nb in rows[1..] ==> nb in rows;
      if rows[0] in sc.mine {
        RowsLayered(db, s, k, base, rows[1..], node, theirs, sc);
      } else if rows[0] in theirs {
        AddChild(db, s, k, base, sc, node, rows[0], sc.next, Some(rows[0]));
      } else {
        AddChild(db, s, k, base, sc, node, rows[0], sc.next + [rows[0]], sc.meet);
        var mine := sc.mine[rows[0] := Some(node)];
        RowsLayered(db, s, k, base, rows[1..], node, theirs, Scan(mine, sc.next + [rows[0]], sc.meet));
      }
    }
  }

  lemma {:induction false} FrontLayered(db: Db, s: Id, k: nat, base: set<Id>, front: seq<Id>, theirs: Parents, sc: Scan)
    requires Layered(db, s, k, base, sc) && MeetsBoth(sc, theirs)
    requires forall x :: x in front ==> x in base
    ensures var r := ScanFront(db, front, theirs, sc);
            Layered(db, s, k, base, r) && MeetsBoth(r, theirs)
  {
    if front != [] {
      assert front[0] in front && forall x :: x in front[1..] ==> x in front;
      RowsLayered(db, s, k, base, db.rows(front[0]), front[0], theirs, sc);
      FrontLayered(db, s, k, base, front[1..], theirs, ScanRows(db.rows(front[0]), front[0], theirs, sc));
    }
  }

  lemma LayersStart(db: Db, s: Id, k: nat, parent: Parents, meet: Option<Id>)
    requires Tree(db, s, k, parent)
    ensures Layered(db, s, k, parent.Keys, Scan(parent, [], meet))
  {
    forall n | n in parent ensures Rooted(db, s, parent, n, k + 1) {
      RootedLift(db, s, parent, n, k);
    }
  }

  /** Both parent maps are trees as deep as the expansions made, and a meeting vertex is in both. */
  ghost predicate Trees(db: Db, from: Id, to: Id, st: Search) {
    && Tree(db, from, st.a, st.parentF) && Tree(db, to, st.b, st.parentB)
    && (forall x :: x in st.frontF ==> x in st.parentF)
    && (forall x :: x in st.frontB ==> x in st.parentB)
    && (st.meet.Some? ==> st.meet.value in st.parentF && st.meet.value in st.parentB)
  }

  lemma ExpandTrees(db: Db, from: Id, to: Id, st: Search)
    requires Trees(db, from, to, st) && st.Running()
    ensures Trees(db, from, to, Expand(db, st))
  {
    if |st.frontF| <= |st.frontB| {
      LayersStart(db, from, st.a, st.parentF, st.meet);
      FrontLayered(db, from, st.a, st.parentF.Keys, st.frontF, st.parentB, Scan(st.parentF, [], st.meet));
    } else {
      LayersStart(db, to, st.b, st.parentB, st.meet);
      FrontLayered(db, to, st.b, st.parentB.Keys, st.frontB, st.parentF, Scan(st.parentB, [], st.meet));
    }
  }

  lemma {:induction false} RunTrees(db: Db, from: Id, to: Id, st: Search, cap: nat)
    requires Trees(db, from, to, st)
    ensures Trees(db, from, to, Run(db, st, cap))
    decreases cap - st.Size() + |st.frontF| + |st.frontB|
  {
    if st.Running() {
      ExpandTrees(db, from, to, st);
      var next := Expand(db, st);
      if next.Size() <= cap {
        RunTrees(db, from, to, next, cap);
      }
    }
  }

  // ----- the parent maps are balls, as long as the sides do not meet at the empty id -----

  /** After `k` completed expansions: the map holds exactly the ball, the frontier exactly its surface, once each. */
  ghost predicate Settled(rel: Rel<Id>, s: Id, k: nat, parent: Parents, front: seq<Id>) {
    && (forall x :: x in parent <==> Within(rel, s, k, x))
    && (forall x :: x in front <==> Within(rel, s, k, x) && (k > 0 ==> !Within(rel, s, k - 1, x)))
    && Sorting.Distinct(front)
  }

  /** An expansion does not meet the other side at the empty id, the one value the code takes for "not met". */
  ghost predicate NoEmptyMeeting(db: Db, front: seq<Id>, theirs: Parents) {
    "" in theirs ==> forall x :: x in front ==> "" !in db.rows(x)
  }

  /**
    During an expansion: `mine` is the settled ball `base` plus the vertices found so far,
    each a neighbour of the ball and none of them known to the other side.
   */
  ghost predicate Growing(rel: Rel<Id>, base: set<Id>, theirs: Parents, sc: Scan) {
    && (forall x :: x in sc.mine <==> x in base || x in sc.next)
    && (forall x :: x in sc.next ==> x !in base && exists y :: y in base && (y, x) in rel)
    && (forall x :: x in sc.mine ==> x !in theirs)
    && Sorting.Distinct(sc.next) && sc.meet == None
  }

  ghost predicate Scanned(rel: Rel<Id>, base: set<Id>, theirs: Parents, sc: Scan, r: Scan) {
    || (Growing(rel, base, theirs, r) && forall x :: x in sc.mine ==> x in r.mine)
    || Truthy(r.meet)
  }

  lemma {:induction false} RowsScanned(rel: Rel<Id>, base: set<Id>, rows: seq<Id>, node: Id, theirs: Parents, sc: Scan)
    requires Growing(rel, base, theirs, sc) && node in base
    requires forall nb :: nb in rows ==> (node, nb) in rel && (nb == "" ==> "" !in theirs)
    ensures var r := ScanRows(rows, node, theirs, sc);
            && Scanned(rel, base, theirs, sc, r)
            && (r.meet.None? ==> forall x :: x in rows ==> x in r.mine)
  {
    if rows != [] {
      assert rows[0] in rows && forall nb :: nb in rows[1..] ==> nb in rows;
      if rows[0] in sc.mine {
        RowsScanned(rel, base, rows[1..], node, theirs, sc);
      } else if rows[0] !in theirs {
        var sc' := Scan(sc.mine[rows[0] := Some(node)], sc.next + [rows[0]], sc.meet);
        RowsScanned(rel, base, rows[1..], node, theirs, sc');
      }
    }
  }

  lemma {:induction false} FrontScanned(db: Db, base: set<Id>, front: seq<Id>, theirs: Parents, sc: Scan)
    requires Faithful(db) && NoEmptyMeeting(db, front, theirs) && Growing(Links(db), base, theirs, sc)
    requires forall x :: x in front ==> x in base
    ensures var r := ScanFront(db, front, theirs, sc);
            && Scanned(Links(db), base, theirs, sc, r)
            && (r.meet.None? ==> forall x, nb :: x in front && nb in db.rows(x) ==> nb in r.mine)
  {
    if front != [] {
      assert front[0] in front && forall x :: x in front[1..] ==> x in front;
      RowsScanned(Links(db), base, db.rows(front[0]), front[0], theirs, sc);
      var r := ScanRows(db.rows(front[0]), front[0], theirs, sc);
      if r.meet.None? {
        FrontScanned(db, base, front[1..], theirs, r);
      }
    }
  }

  ghost predicate LevelDone(rel: Rel<Id>, s: Id, k: nat, theirs: Parents, r: Scan) {
    || (Settled(rel, s, k, r.mine, r.next) && (forall x :: x in r.mine ==> x !in theirs) && r.meet == None)
    || Truthy(r.meet)
  }

  /** Ball, new surface and nothing left out: the next level is settled. */
  lemma GrownIsSettled(rel: Rel<Id>, s: Id, k: nat, parent: Parents, front: seq<Id>, theirs: Parents, r: Scan)
    requires Settled(rel, s, k, parent, front) && Growing(rel, parent.Keys, theirs, r)
    requires forall x, nb :: x in front && (x, nb) in rel ==> nb in r.mine
    ensures Settled(rel, s, k + 1, r.mine, r.next)
  {
    forall x ensures x in r.mine <==> Within(rel, s, k + 1, x) {
      if x in r.next {
        var y :| y in parent && (y, x) in rel;
        assert Touches(rel, s, k, x);
      }
      if Touches(rel, s, k, x) && x !in parent {
        var y :| Within(rel, s, k, y) && (y, x) in rel;
        OnSurface(rel, s, k, y, x);
      }
    }
  }

  /** Expanding a settled side settles the next level, or meets the other side on it. */
  lemma LevelExpanded(db: Db, s: Id, k: nat, parent: Parents, front: seq<Id>, theirs: Parents)
    requires Faithful(db) && NoEmptyMeeting(db, front, theirs)
    requires Settled(Links(db), s, k, parent, front) && parent.Keys !! theirs.Keys
    ensures LevelDone(Links(db), s, k + 1, theirs, ScanFront(db, front, theirs, Scan(parent, [], None)))
  {
    FrontScanned(db, parent.Keys, front, theirs, Scan(parent, [], None));
    var r := ScanFront(db, front, theirs, Scan(parent, [], None));
    if r.meet.None? {
      GrownIsSettled(Links(db), s, k, parent, front, theirs, r);
    }
  }

  // ----- the loop invariant and the main theorems -----

  /** Both sides settled, nothing shared; the forward side is expanded first. */
  ghost predicate Searching(db: Db, from: Id, to: Id, st: Search) {
    && st.meet == None && (st.b > 0 ==> st.a > 0)
    && Settled(Links(db), from, st.a, st.parentF, st.frontF)
    && Settled(Links(db), to, st.b, st.parentB, st.frontB)
    && st.parentF.Keys !! st.parentB.Keys
  }

  /** A vertex known to both sides, found by the one expansion that made the two balls overlap. */
  ghost predicate Found(db: Db, from: Id, to: Id, st: Search) {
    && Truthy(st.meet)
    && (|| (st.a > 0 && Apart(Links(db), from, st.a - 1, to, st.b))
        || (st.b > 0 && Apart(Links(db), from, st.a, to, st.b - 1)))
  }

  ghost predicate Inv(db: Db, from: Id, to: Id, st: Search) {
    Searching(db, from, to, st) || Found(db, from, to, st)
  }

  lemma StartInv(db: Db, from: Id, to: Id)
    requires from != to
    ensures Inv(db, from, to, Start(from, to))
  {
  }

  lemma ForwardInv(db: Db, from: Id, to: Id, st: Search, r: Scan)
    requires Searching(db, from, to, st) && LevelDone(Links(db), from, st.a + 1, st.parentB, r)
    ensures Inv(db, from, to, Search(r.mine, st.parentB, r.next, st.frontB, r.meet, st.a + 1, st.b))
  {
    assert Apart(Links(db), from, st.a, to, st.b);
  }

  lemma BackwardInv(db: Db, from: Id, to: Id, st: Search, r: Scan)
    requires Searching(db, from, to, st) && st.a > 0 && LevelDone(Links(db), to, st.b + 1, st.parentF, r)
    ensures Inv(db, from, to, Search(st.parentF, r.mine, st.frontF, r.next, r.meet, st.a, st.b + 1))
  {
    assert Apart(Links(db), from, st.a, to, st.b);
  }

  lemma ExpandForwardInv(db: Db, from: Id, to: Id, st: Search)
    requires Faithful(db) && Searching(db, from, to, st) && NoEmptyMeeting(db, st.frontF, st.parentB)
    ensures Inv(db, from, to, ExpandForward(db, st))
  {
    LevelExpanded(db, from, st.a, st.parentF, st.frontF, st.parentB);
    ForwardInv(db, from, to, st, ScanFront(db, st.frontF, st.parentB, Scan(st.parentF, [], None)));
  }

  lemma ExpandBackwardInv(db: Db, from: Id, to: Id, st: Search)
    requires Faithful(db) && Searching(db, from, to, st) && st.a > 0 && NoEmptyMeeting(db, st.frontB, st.parentF)
    ensures Inv(db, from, to, ExpandBackward(db, st))
  {
    LevelExpanded(db, to, st.b, st.parentB, st.frontB, st.parentF);
    BackwardInv(db, from, to, st, ScanFront(db, st.frontB, st.parentF, Scan(st.parentB, [], None)));
  }

  // ----- the empty id -----

  ghost predicate BesideEmpty(rel: Rel<Id>, x: Id) {
    x != "" && (x, "") in rel
  }

  /** `x` has a neighbour besides the empty id and itself. */
  ghost predicate HasOther(rel: Rel<Id>, x: Id) {
    exists y :: y != "" && y != x && (x, y) in rel
  }

  /** A detour that only the empty id makes: two of its neighbours, not adjacent, one of them with another neighbour. */
  ghost predicate Detour(rel: Rel<Id>, a: Id, b: Id) {
    BesideEmpty(rel, a) && BesideEmpty(rel, b) && a != b && (a, b) !in rel && HasOther(rel, a)
  }

  /** The tables in which the empty id does no harm. */
  ghost predicate HarmlessEmptyId(db: Db) {
    forall a, b :: !Detour(Links(db), a, b)
  }

  /** The first contact of a growing ball with a vertex. */
  lemma {:induction false} FirstContact(rel: Rel<Id>, t: Id, l: nat, x: Id) returns (j: nat, c: Id)
    requires Within(rel, t, l, x) && t != x
    ensures j < l && !Within(rel, t, j, x) && Within(rel, t, j, c) && (c, x) in rel
  {
    if Within(rel, t, l - 1, x) {
      j, c := FirstContact(rel, t, l - 1, x);
    } else {
      j := l - 1;
      c :| Within(rel, t, j, c) && (c, x) in rel;
    }
  }

  /** Whatever a ball without the empty id contains besides its centre has another neighbour. */
  lemma {:induction false} InnerHasOther(rel: Rel<Id>, t: Id, j: nat, c: Id)
    requires Symmetric(rel) && Within(rel, t, j, c) && !Within(rel, t, j, "") && c != t
    ensures HasOther(rel, c)
  {
    if Within(rel, t, j - 1, c) {
      InnerHasOther(rel, t, j - 1, c);
    } else {
      var y :| Within(rel, t, j - 1, y) && (y, c) in rel;
      assert (c, y) in rel;
    }
  }

  /**
    Where two disjoint balls are about to meet at the empty id and it makes no detour, both
    centres are dead ends beside it, and the ball on whose surface the step starts is a point.
   */
  lemma MeetingAtEmpty(db: Db, s: Id, k: nat, t: Id, l: nat, x: Id)
    requires HarmlessEmptyId(db) && Apart(Links(db), s, k, t, l) && t != ""
    requires Within(Links(db), s, k, x) && (k > 0 ==> !Within(Links(db), s, k - 1, x))
    requires (x, "") in Links(db) && Within(Links(db), t, l, "")
    ensures k == 0 && x == s && BesideEmpty(Links(db), t) && !HasOther(Links(db), t)
  {
    var rel := Links(db);
    var j, c := FirstContact(rel, t, l, "");
    WithinGrows(rel, t, j, l, c);
    WithinGrows(rel, t, j + 1, l, c);
    assert x != "" && c != x && c != "";
    if (c, x) in rel {
      assert Touches(rel, t, j, x);
      WithinGrows(rel, t, j + 1, l, x);
    }
    assert !Detour(rel, c, x) && !Detour(rel, x, c);
    if k > 0 {
      WithinGrows(rel, s, 0, k - 1, s);
    }
    if c != t {
      InnerHasOther(rel, t, j, c);
    }
    if x != s {
      InnerHasOther(rel, s, k, x);
    }
  }

  lemma Several(front: seq<Id>, x: Id) returns (y: Id)
    requires Sorting.Distinct(front) && |front| > 1
    ensures y in front && y != x
  {
    y := if front[0] == x then front[1] else front[0];
  }

  /** While the forward side is a point, its frontier is one vertex, so it is the one expanded. */
  lemma BackwardIsLater(db: Db, from: Id, to: Id, st: Search)
    requires Searching(db, from, to, st) && st.Running() && |st.frontF| > |st.frontB|
    ensures st.a > 0
  {
    var y := Several(st.frontF, from);
  }

  /** A first surface of several vertices shows another neighbour. */
  lemma WideSurface(rel: Rel<Id>, s: Id, parent: Parents, front: seq<Id>)
    requires Settled(rel, s, 1, parent, front) && |front| > 1
    ensures HasOther(rel, s)
  {
    var y := Several(front, "");
    assert !Within(rel, s, 0, y) && Touches(rel, s, 0, y);
  }

  lemma ForwardAvoidsEmpty(db: Db, from: Id, to: Id, st: Search)
    requires Faithful(db) && HarmlessEmptyId(db) && Searching(db, from, to, st) && to != ""
    ensures NoEmptyMeeting(db, st.frontF, st.parentB)
  {
    forall x | x in st.frontF && "" in st.parentB ensures "" !in db.rows(x) {
      if "" in db.rows(x) {
        MeetingAtEmpty(db, from, st.a, to, st.b, x);
      }
    }
  }

  /** Two steps from a dead end beside the empty id lie all its neighbours. */
  lemma AcrossEmpty(rel: Rel<Id>, from: Id, to: Id, k: nat)
    requires Symmetric(rel) && (from, "") in rel && (to, "") in rel && k >= 2
    ensures Within(rel, from, k, to)
  {
    assert Within(rel, from, 0, from) && Touches(rel, from, 0, "");
    assert Within(rel, from, 1, "") && ("", to) in rel;
    assert Touches(rel, from, 1, to);
    WithinGrows(rel, from, 2, k, to);
  }

  lemma BackwardAvoidsEmpty(db: Db, from: Id, to: Id, st: Search)
    requires Faithful(db) && HarmlessEmptyId(db) && Searching(db, from, to, st) && from != ""
    requires st.Running() && |st.frontF| > |st.frontB|
    ensures NoEmptyMeeting(db, st.frontB, st.parentF)
  {
    forall x | x in st.frontB && "" in st.parentF ensures "" !in db.rows(x) {
      if "" in db.rows(x) {
        BackwardIsLater(db, from, to, st);
        if st.a == 1 {
          WideSurface(Links(db), from, st.parentF, st.frontF);
        }
        MeetingAtEmpty(db, to, st.b, from, st.a, x);
        if st.a >= 2 {
          AcrossEmpty(Links(db), from, to, st.a);
        }
      }
    }
  }

  /** One expansion keeps the invariant: the heart of the search's correctness. */
  lemma ExpandInv(db: Db, from: Id, to: Id, st: Search)
    requires Faithful(db) && HarmlessEmptyId(db) && from != "" && to != ""
    requires Searching(db, from, to, st) && st.Running()
    ensures Inv(db, from, to, Expand(db, st))
  {
    if |st.frontF| <= |st.frontB| {
      ForwardAvoidsEmpty(db, from, to, st);
      ExpandForwardInv(db, from, to, st);
    } else {
      BackwardIsLater(db, from, to, st);
      BackwardAvoidsEmpty(db, from, to, st);
      ExpandBackwardInv(db, from, to, st);
    }
  }

  /** Where the loop stops: at a meeting vertex, at an exhausted side, or over the cap. */
  lemma {:induction false} RunInv(db: Db, from: Id, to: Id, st: Search, cap: nat)
    requires Faithful(db) && HarmlessEmptyId(db) && from != "" && to != "" && Inv(db, from, to, st)
    ensures var r := Run(db, st, cap);
            Inv(db, from, to, r) && (r.Running() ==> r.Size() > cap)
    decreases cap - st.Size() + |st.frontF| + |st.frontB|
  {
    if st.Running() {
      ExpandInv(db, from, to, st);
      var next := Expand(db, st);
      if next.Size() <= cap {
        RunInv(db, from, to, next, cap);
      }
    }
  }

  lemma {:induction false} PathFromJoins(db: Db, s: Id, parent: Parents, n: Id, fuel: nat)
    requires Faithful(db) && Rooted(db, s, parent, n, fuel)
    ensures Joins(Links(db), PathFrom(parent, n, fuel), n, s)
    ensures |PathFrom(parent, n, fuel)| <= fuel + 1
    decreases fuel
  {
    if parent[n].Some? {
      var p := parent[n].value;
      PathFromJoins(db, s, parent, p, fuel - 1);
      var rest := PathFrom(parent, p, fuel - 1);
      assert (p, n) in Links(db) && (n, p) in Links(db);
      forall i | 0 < i < |rest| + 1 ensures (([n] + rest)[i - 1], ([n] + rest)[i]) in Links(db) {
        assert ([n] + rest)[i] == rest[i - 1];
      }
    }
  }

  /** The reconstructed chain joins the endpoints and is as short as the two levels allow. */
  lemma ReconstructJoins(db: Db, from: Id, to: Id, st: Search)
    requires Faithful(db) && Trees(db, from, to, st) && st.meet.Some?
    ensures Joins(Links(db), Reconstruct(st), from, to)
    ensures |Reconstruct(st)| <= st.a + st.b + 1
  {
    var m := st.meet.value;
    PathFromJoins(db, from, st.parentF, m, st.a);
    ReverseWalk(Links(db), PathFrom(st.parentF, m, st.a), m, from);
    PathFromJoins(db, to, st.parentB, m, st.b);
    JoinWalks(Links(db), Reversed(PathFrom(st.parentF, m, st.a)), PathFrom(st.parentB, m, st.b), from, m, to);
  }

  ghost predicate Connected(db: Db, from: Id, to: Id) {
    exists p :: Joins(Links(db), p, from, to)
  }

  /** Whatever the ids, a non-empty answer is a chain of edges from one endpoint to the other. */
  lemma PathIsChain(db: Db, fromId: Option<string>, toId: Option<string>, cap: nat)
    requires Faithful(db) && Path(db, fromId, toId, cap) != []
    ensures var from, to := RawNodeId(fromId), RawNodeId(toId);
            from.Some? && to.Some? && Joins(Links(db), Path(db, fromId, toId, cap), from.value, to.value)
  {
    var from, to := RawNodeId(fromId).value, RawNodeId(toId).value;
    if from != to {
      RunTrees(db, from, to, Start(from, to), cap);
      ReconstructJoins(db, from, to, Run(db, Start(from, to), cap));
    }
  }

  lemma FoundIsShortest(db: Db, from: Id, to: Id, st: Search, q: seq<Id>)
    requires Faithful(db) && Trees(db, from, to, st) && Found(db, from, to, st)
    requires Joins(Links(db), q, from, to)
    ensures |Reconstruct(st)| <= |q|
  {
    ReconstructJoins(db, from, to, st);
    if st.a > 0 && Apart(Links(db), from, st.a - 1, to, st.b) {
      ApartIsFar(Links(db), from, st.a - 1, to, st.b, q);
    } else {
      ApartIsFar(Links(db), from, st.a, to, st.b - 1, q);
    }
  }

  lemma SearchEnds(db: Db, from: Id, to: Id, cap: nat)
    requires Faithful(db) && HarmlessEmptyId(db) && from != to && from != "" && to != ""
    ensures var st := Run(db, Start(from, to), cap);
            Inv(db, from, to, st) && Trees(db, from, to, st) && (st.Running() ==> st.Size() > cap)
  {
    StartInv(db, from, to);
    RunInv(db, from, to, Start(from, to), cap);
    RunTrees(db, from, to, Start(from, to), cap);
  }

  /** Where the empty id does no harm, no chain between the endpoints is shorter than a non-empty answer. */
  lemma PathIsShortest(db: Db, fromId: Option<string>, toId: Option<string>, cap: nat, q: seq<Id>)
    requires Faithful(db) && HarmlessEmptyId(db)
    requires Path(db, fromId, toId, cap) != []
    requires Joins(Links(db), q, RawNodeId(fromId).GetOr(""), RawNodeId(toId).GetOr(""))
    ensures |Path(db, fromId, toId, cap)| <= |q|
  {
    var from, to := RawNodeId(fromId).value, RawNodeId(toId).value;
    if from != to {
      SearchEnds(db, from, to, cap);
      FoundIsShortest(db, from, to, Run(db, Start(from, to), cap), q);
    }
  }

  /** Every id that occurs in the two tables. */
  ghost function Ids(db: Db): set<Id> {
    db.nodes + (set e | e in db.edges :: e.from) + (set e | e in db.edges :: e.to)
  }

  lemma {:induction false} WithinIds(db: Db, s: Id, k: nat, x: Id)
    requires s in db.nodes && Within(Links(db), s, k, x)
    ensures x in Ids(db)
  {
    if k > 0 && Touches(Links(db), s, k - 1, x) {
      var y :| Within(Links(db), s, k - 1, y) && (y, x) in Links(db);
    } else if k > 0 {
      WithinIds(db, s, k - 1, x);
    }
  }

  /** A side whose frontier is empty has found everything its root is connected to. */
  lemma ExhaustedSideIsClosed(rel: Rel<Id>, s: Id, k: nat, parent: Parents, p: seq<Id>, t: Id)
    requires Settled(rel, s, k, parent, []) && Joins(rel, p, s, t)
    ensures t in parent
  {
    assert forall x :: Within(rel, s, k, x) ==> x !in [];
    WithinGrows(rel, s, 0, k, s);
    assert s in parent && k > 0;
    forall x | Touches(rel, s, k, x) ensures Within(rel, s, k, x) {
      var y :| Within(rel, s, k, y) && (y, x) in rel;
      assert Touches(rel, s, k - 1, x);
    }
    WalkWithin(rel, p, s, t);
    if |p| - 1 <= k {
      WithinGrows(rel, s, |p| - 1, k, t);
    } else {
      StuckForever(rel, s, k, |p| - 1, t);
    }
  }

  lemma DisjointSizes(x: set<Id>, y: set<Id>, all: set<Id>)
    requires x !! y && x <= all && y <= all
    ensures |x| + |y| <= |all|
  {
    SubsetSize(x + y, all);
    assert |x + y| == |x| + |y|;
  }

  /** A search that has not met ends neither by exhaustion nor by a cap that covers every id, if a chain exists. */
  lemma SearchWithoutMeeting(db: Db, from: Id, to: Id, st: Search, p: seq<Id>)
    requires from in db.nodes && to in db.nodes
    requires Searching(db, from, to, st) && Joins(Links(db), p, from, to)
    ensures st.Running() && st.Size() <= |Ids(db)|
  {
    forall x | x in st.parentF ensures x in Ids(db) { WithinIds(db, from, st.a, x); }
    forall x | x in st.parentB ensures x in Ids(db) { WithinIds(db, to, st.b, x); }
    DisjointSizes(st.parentF.Keys, st.parentB.Keys, Ids(db));
    WithinGrows(Links(db), from, 0, st.a, from);
    WithinGrows(Links(db), to, 0, st.b, to);
    if st.frontF == [] {
      ExhaustedSideIsClosed(Links(db), from, st.a, st.parentF, p, to);
    } else if st.frontB == [] {
      ReverseWalk(Links(db), p, from, to);
      ExhaustedSideIsClosed(Links(db), to, st.b, st.parentB, Reversed(p), from);
    }
  }

  /** One round of the search from a state whose maps fit the cap. */
  ghost predicate OneRoundFrom(db: Db, st: Search, cap: nat) {
    exists before: Search :: before.Running() && before.Size() <= cap && st == Expand(db, before)
  }

  /** The search stops only when it has met, has nothing to expand, or one round has outgrown the cap. */
  lemma {:induction false} CapBoundsTheSearch(db: Db, st: Search, cap: nat)
    requires st.Size() <= cap
    ensures var end := Run(db, st, cap);
            && (end.Running() ==> end.Size() > cap)
            && (end.Size() > cap ==> OneRoundFrom(db, end, cap))
    decreases cap - st.Size() + |st.frontF| + |st.frontB|
  {
    if st.Running() {
      var next := Expand(db, st);
      if next.Size() > cap {
        assert OneRoundFrom(db, next, cap);
      } else {
        CapBoundsTheSearch(db, next, cap);
      }
    }
  }

  /** When the cap covers every id, the search answers exactly the connected pairs. */
  lemma PathFindsEveryConnection(db: Db, fromId: Option<string>, toId: Option<string>, cap: nat)
    requires Faithful(db) && HarmlessEmptyId(db)
    requires var from, to := RawNodeId(fromId), RawNodeId(toId);
             Truthy(from) && Truthy(to) && from.value in db.nodes && to.value in db.nodes
    requires |Ids(db)| <= cap
    ensures Path(db, fromId, toId, cap) != []
            <==> Connected(db, RawNodeId(fromId).value, RawNodeId(toId).value)
  {
    var from, to := RawNodeId(fromId).value, RawNodeId(toId).value;
    if Path(db, fromId, toId, cap) != [] {
      PathIsChain(db, fromId, toId, cap);
    } else if Connected(db, from, to) {
      var p :| Joins(Links(db), p, from, to);
      SearchEnds(db, from, to, cap);
      var st := Run(db, Start(from, to), cap);
      if Found(db, from, to, st) {
        ReconstructJoins(db, from, to, st);
      } else {
        SearchWithoutMeeting(db, from, to, st, p);
      }
    }
  }

  // ----- the imperative search -----

  /** Expand one frontier: record every vertex not yet seen from this side, stop at one the other side has. */
  method ExpandFrontier(db: Db, front: seq<Id>, known: Parents, theirs: Parents, met: Option<Id>)
    returns (mine: Parents, next: seq<Id>, meet: Option<Id>)
    ensures Scan(mine, next, meet) == ScanFront(db, front, theirs, Scan(known, [], met))
  {
    mine, next, meet := known, [], met;
    ghost var goal := ScanFront(db, front, theirs, Scan(known, [], met));
    for i := 0 to |front|
      invariant ScanFront(db, front[i..], theirs, Scan(mine, next, meet)) == goal
    {
      var node := front[i];
      var rows := db.rows(node);
      ghost var scanned := ScanRows(rows, node, theirs, Scan(mine, next, meet));
      assert front[i..][1..] == front[i + 1..];
      assert goal == if Truthy(scanned.meet) then scanned else ScanFront(db, front[i + 1..], theirs, scanned);
      var j := 0;
      while j < |rows|
        invariant 0 <= j <= |rows|
        invariant ScanRows(rows[j..], node, theirs, Scan(mine, next, meet)) == scanned
      {
        var nb := rows[j];
        assert rows[j..][1..] == rows[j + 1..];
        j := j + 1;
        if nb in mine {
          continue;
        }
        mine := mine[nb := Some(node)];
        if nb in theirs {
          meet := Some(nb);
          break;
        }
        next := next + [nb];
      }
      assert Scan(mine, next, meet) == scanned;
      if Truthy(meet) {
        return;
      }
    }
  }

  ghost function Up(parent: Parents, n: Option<Id>, fuel: nat): seq<Id> {
    if n.Some? then PathFrom(parent, n.value, fuel) else []
  }

  lemma UpStep(db: Db, s: Id, parent: Parents, n: Id, left: nat, out: seq<Id>)
    requires Rooted(db, s, parent, n, left)
    ensures parent[n].Some? ==> left > 0 && Rooted(db, s, parent, parent[n].value, left - 1)
    ensures out + Up(parent, Some(n), left)
         == (out + [n]) + Up(parent, parent[n], if parent[n].Some? then left - 1 else left)
  {
    var rest := Up(parent, parent[n], if parent[n].Some? then left - 1 else left);
    assert Up(parent, Some(n), left) == [n] + rest;
    assert out + ([n] + rest) == (out + [n]) + rest;
  }

  /** Follow predecessors from `start` until there is none. */
  method Ancestors(db: Db, ghost s: Id, parent: Parents, start: Option<Id>, ghost fuel: nat) returns (out: seq<Id>)
    requires start.Some? ==> Rooted(db, s, parent, start.value, fuel)
    ensures out == Up(parent, start, fuel)
  {
    out := [];
    var n := start;
    ghost var left := fuel;
    while n.Some?
      invariant n.Some? ==> Rooted(db, s, parent, n.value, left)
      invariant Up(parent, start, fuel) == out + Up(parent, n, left)
      decreases n.Some?, left
    {
      UpStep(db, s, parent, n.value, left, out);
      out := out + [n.value];
      n := parent[n.value];
      left := if n.Some? then left - 1 else left;
    }
  }

  /** The chain through the meeting vertex. */
  method ReconstructPath(db: Db, ghost from: Id, ghost to: Id, parentF: Parents, parentB: Parents, mid: Id,
                         ghost st: Search)
    returns (chain: seq<Id>)
    requires Trees(db, from, to, st) && st.meet == Some(mid)
    requires st.parentF == parentF && st.parentB == parentB
    ensures chain == Reconstruct(st)
  {
    var left := Ancestors(db, from, parentF, Some(mid), st.a);
    var next := parentB[mid];
    var right := Ancestors(db, to, parentB, next, if next.Some? then st.b - 1 else 0);
    assert PathFrom(parentB, mid, st.b) == [mid] + right;
    chain := Reversed(left) + right;
  }

  /** The search loop, ending in the state the functional search ends in. */
  method BidirectionalSearch(db: Db, from: Id, to: Id, cap: nat)
    returns (parentF: Parents, parentB: Parents, meet: Option<Id>)
    requires from != to
    ensures var st := Run(db, Start(from, to), cap);
            parentF == st.parentF && parentB == st.parentB && meet == st.meet && Trees(db, from, to, st)
  {
    parentF, parentB := map[from := None], map[to := None];
    var frontF, frontB := [from], [to];
    meet := None;
    ghost var st := Start(from, to);
    RunTrees(db, from, to, st, cap);
    while frontF != [] && frontB != [] && !Truthy(meet)
      invariant st == Search(parentF, parentB, frontF, frontB, meet, st.a, st.b)
      invariant Run(db, st, cap) == Run(db, Start(from, to), cap)
      decreases cap - st.Size() + |st.frontF| + |st.frontB|
    {
      st := Expand(db, st);
      if |frontF| <= |frontB| {
        parentF, frontF, meet := ExpandFrontier(db, frontF, parentF, parentB, meet);
      } else {
        parentB, frontB, meet := ExpandFrontier(db, frontB, parentB, parentF, meet);
      }
      if |parentF| + |parentB| > cap {
        return;
      }
    }
  }

  /** The query as the server runs it. */
  method ComputePath(db: Db, fromId: Option<string>, toId: Option<string>, cap: nat := 20000)
    returns (chain: seq<Id>)
    ensures chain == Path(db, fromId, toId, cap)
  {
    var from, to := RawNodeId(fromId), RawNodeId(toId);
    if !Truthy(from) || !Truthy(to) {
      return [];
    }
    if from == to {
      return [from.value];
    }
    if from.value !in db.nodes || to.value !in db.nodes {
      return [];
    }
    var parentF, parentB, meet := BidirectionalSearch(db, from.value, to.value, cap);
    ghost var st := Run(db, Start(from.value, to.value), cap);
    if !Truthy(meet) {
      return [];
    }
    chain := ReconstructPath(db, from.value, to.value, parentF, parentB, meet.value, st);
  }

  // ----- where the search is right -----

  /** A caller may write an id as it is, unless it begins with the dashboard's prefix, or behind that prefix. */
  predicate Spells(written: string, id: Id) {
    || written == ['c', 'o', 'd', 'e', ':'] + id
    || (written == id && !(['c', 'o', 'd', 'e', ':'] <= id))
  }

  /** The answer for two existing vertices: empty exactly when they are not connected, and otherwise shortest. */
  ghost predicate RightChain(db: Db, a: Id, b: Id, chain: seq<Id>) {
    && (chain != [] <==> Connected(db, a, b))
    && (chain != [] ==> Joins(Links(db), chain, a, b))
    && forall q :: Joins(Links(db), q, a, b) ==> |chain| <= |q|
  }

  /** However the caller writes the two ids, the answer is right. */
  ghost predicate Right(db: Db, a: Id, b: Id, cap: nat) {
    forall v, w :: Spells(v, a) && Spells(w, b) ==> RightChain(db, a, b, Path(db, Some(v), Some(w), cap))
  }

  ghost predicate RightIn(db: Db, rows: Id -> seq<Id>, a: Id, b: Id, cap: nat) {
    var d := db.(rows := rows);
    Faithful(d) && a in db.nodes && b in db.nodes ==> Right(d, a, b, cap)
  }

  /** The search answers rightly between all vertices, in whatever order the engine returns rows. */
  ghost predicate RightInEveryOrder(db: Db, cap: nat) {
    forall rows: Id -> seq<Id>, a: Id, b: Id :: RightIn(db, rows, a, b, cap)
  }

  /** The same between vertices other than the empty id. */
  ghost predicate RightBetweenNamed(db: Db, cap: nat) {
    forall rows: Id -> seq<Id>, a: Id, b: Id :: a != "" && b != "" ==> RightIn(db, rows, a, b, cap)
  }

  lemma Prefixed(a: Id)
    ensures RawNodeId(Some(CODE_PREFIX + a)) == Some(a) && Spells(CODE_PREFIX + a, a)
  {
    assert (CODE_PREFIX + a)[|CODE_PREFIX|..] == a;
  }

  /** What a written id stands for is what it spells, and it spells one id only. */
  lemma SpelledId(written: string, id: Id)
    ensures Spells(written, id) <==> RawNodeId(Some(written)) == Some(id)
  {
    if Spells(written, id) && written == CODE_PREFIX + id {
      Prefixed(id);
    }
    if CODE_PREFIX <= written {
      assert written == CODE_PREFIX + written[|CODE_PREFIX|..];
    }
  }

  /** The answer does not depend on how the ids are written; a missing one is answered with no path. */
  lemma SpellingIsIrrelevant(db: Db, a: Id, b: Id, v: string, w: string, cap: nat)
    requires Spells(v, a) && Spells(w, b)
    ensures Path(db, Some(v), Some(w), cap) == Path(db, Some(CODE_PREFIX + a), Some(CODE_PREFIX + b), cap)
    ensures Path(db, None, Some(w), cap) == Path(db, Some(v), None, cap) == []
  {
    SpelledId(v, a);
    SpelledId(w, b);
    Prefixed(a);
    Prefixed(b);
  }

  /** An id is its own path to itself, in the graph or not, and no path leads to or from another unknown id. */
  lemma TrivialPaths(db: Db, a: Id, b: Id, v: string, w: string, cap: nat)
    requires Spells(v, a) && Spells(w, b) && a != "" && b != ""
    ensures a == b ==> Path(db, Some(v), Some(w), cap) == [a]
    ensures a != b && (a !in db.nodes || b !in db.nodes) ==> Path(db, Some(v), Some(w), cap) == []
  {
    SpelledId(v, a);
    SpelledId(w, b);
  }

  lemma {:induction false} RowsUnmet(rows: seq<Id>, node: Id, theirs: Parents, s: Scan)
    requires forall nb :: nb in rows ==> nb !in theirs
    ensures ScanRows(rows, node, theirs, s).meet == s.meet
    decreases |rows|
  {
    if rows != [] {
      assert rows[0] in rows && forall nb :: nb in rows[1..] ==> nb in rows;
      if rows[0] in s.mine {
        RowsUnmet(rows[1..], node, theirs, s);
      } else {
        RowsUnmet(rows[1..], node, theirs, Scan(s.mine[rows[0] := Some(node)], s.next + [rows[0]], s.meet));
      }
    }
  }

  lemma ScanOne(db: Db, node: Id, theirs: Parents, s: Scan)
    ensures ScanFront(db, [node], theirs, s) == ScanRows(db.rows(node), node, theirs, s)
  {
    var r := ScanRows(db.rows(node), node, theirs, s);
    assert [node][1..] == [];
    assert ScanFront(db, [], theirs, r) == r;
  }

  /** The first expansion from one end of a detour finds the empty id and another vertex, and meets nothing. */
  lemma DetourFirstStep(db: Db, a: Id, b: Id) returns (r: Scan)
    requires Faithful(db) && Detour(Links(db), a, b)
    ensures ExpandForward(db, Start(a, b)) == Search(r.mine, map[b := None], r.next, [b], None, 1, 0)
    ensures "" in r.mine && |r.next| >= 2
  {
    var theirs: Parents := map[b := None];
    r := ScanFront(db, [a], theirs, Scan(map[a := None], [], None));
    ScanOne(db, a, theirs, Scan(map[a := None], [], None));
    RowsUnmet(db.rows(a), a, theirs, Scan(map[a := None], [], None));
    LevelExpanded(db, a, 0, map[a := None], [a], theirs);
    var y :| y != "" && y != a && (a, y) in Links(db);
    assert Within(Links(db), a, 0, a);
    assert Touches(Links(db), a, 0, "") && Touches(Links(db), a, 0, y);
    assert "" in r.next && y in r.next;
    TwoMembers(r.next, "", y);
  }

  lemma TwoMembers(s: seq<Id>, x: Id, y: Id)
    requires x in s && y in s && x != y
    ensures |s| >= 2
  {
    var i :| 0 <= i < |s| && s[i] == x;
    var j :| 0 <= j < |s| && s[j] == y;
  }

  /** Meeting at the empty id is taken for not having met, and ends the scan of that vertex's rows. */
  lemma ScanEmptyMeeting(db: Db, node: Id, theirs: Parents)
    requires db.rows(node) != [] && db.rows(node)[0] == "" && node != "" && "" in theirs
    ensures ScanFront(db, [node], theirs, Scan(map[node := None], [], None))
            == Scan(map[node := None]["" := Some(node)], [], Some(""))
  {
    ScanOne(db, node, theirs, Scan(map[node := None], [], None));
  }

  /**
    The empty id is a legal primary key, and the search mishandles it: when it is the vertex
    both sides meet at, JavaScript reads `meet` as false, the scan goes on without that vertex
    on any frontier, and two connected vertices get the answer "no path".
   */
  lemma DetourLosesAPath(db: Db, a: Id, b: Id, cap: nat)
    requires Faithful(db) && Detour(Links(db), a, b) && db.rows(b)[..1] == [""]
    ensures Connected(db, a, b) && Path(db, Some(CODE_PREFIX + a), Some(CODE_PREFIX + b), cap) == []
  {
    assert Joins(Links(db), [a, "", b], a, b);
    Prefixed(a);
    Prefixed(b);
    assert db.rows(b)[0] == db.rows(b)[..1][0];
    var r := DetourFirstStep(db, a, b);
    ScanEmptyMeeting(db, b, r.mine);
    var s1 := Expand(db, Start(a, b));
    if s1.Size() <= cap {
      var s2 := Expand(db, s1);
      assert s2.frontB == [] && s2.meet == Some("");
      assert Run(db, s2, cap) == s2;
      assert Run(db, s1, cap) == s2;
    }
    assert !Truthy(Run(db, Start(a, b), cap).meet);
  }

  function Without(rows: seq<Id>, x: Id): (r: seq<Id>)
    ensures forall y :: y in r <==> y in rows && y != x
  {
    if rows == [] then [] else (if rows[0] == x then [] else [rows[0]]) + Without(rows[1..], x)
  }

  /** The same tables, with the empty id first among the neighbours of `b`. */
  function EmptyFirst(db: Db, b: Id): Db {
    db.(rows := (x: Id) => if x == b then [""] + Without(db.rows(b), "") else db.rows(x))
  }

  lemma EmptyFirstFaithful(db: Db, b: Id)
    requires Faithful(db) && BesideEmpty(Links(db), b)
    ensures Faithful(EmptyFirst(db, b)) && Links(EmptyFirst(db, b)) == Links(db)
    ensures EmptyFirst(db, b).rows(b)[..1] == [""]
  {
    var d := EmptyFirst(db, b);
    assert (b, "") in Links(db) ==> "" in db.rows(b);
    forall x, y ensures y in d.rows(x) <==> (x, y) in Links(d) {
      assert y in db.rows(x) <==> (x, y) in Links(db);
    }
  }

  lemma RightWhereHarmless(db: Db, a: Id, b: Id, cap: nat)
    requires Faithful(db) && HarmlessEmptyId(db) && |Ids(db)| <= cap
    requires a in db.nodes && b in db.nodes && a != "" && b != ""
    ensures Right(db, a, b, cap)
  {
    forall v, w | Spells(v, a) && Spells(w, b) ensures RightChain(db, a, b, Path(db, Some(v), Some(w), cap)) {
      SpelledId(v, a);
      SpelledId(w, b);
      PathFindsEveryConnection(db, Some(v), Some(w), cap);
      if Path(db, Some(v), Some(w), cap) != [] {
        PathIsChain(db, Some(v), Some(w), cap);
        forall q | Joins(Links(db), q, a, b) ensures |Path(db, Some(v), Some(w), cap)| <= |q| {
          PathIsShortest(db, Some(v), Some(w), cap, q);
        }
      }
    }
  }

  /** Ids as they stand in the graph, without the prefix, are answered rightly. */
  lemma PlainIdsAreAnswered(db: Db, a: Id, b: Id, cap: nat)
    requires Faithful(db) && HarmlessEmptyId(db) && |Ids(db)| <= cap
    requires a in db.nodes && b in db.nodes && a != "" && b != ""
    requires !(['c', 'o', 'd', 'e', ':'] <= a) && !(['c', 'o', 'd', 'e', ':'] <= b)
    ensures RightChain(db, a, b, Path(db, Some(a), Some(b), cap))
  {
    RightWhereHarmless(db, a, b, cap);
    assert Spells(a, a) && Spells(b, b);
  }

  /** The same edges beside another node table. The engine does not enforce that edges join nodes. */
  ghost function WithNodes(db: Db, nodes: set<Id>): (d: Db)
    ensures Faithful(d) == Faithful(db) && Links(d) == Links(db)
    ensures nodes <= Ids(db) ==> Ids(d) <= Ids(db) && |Ids(d)| <= |Ids(db)|
    ensures nodes == Ids(db) ==> Ids(d) == d.nodes == Ids(db)
  {
    var d := db.(nodes := nodes);
    assert Links(d) == Links(db);
    assert nodes <= Ids(db) ==> Ids(d) <= Ids(db);
    if nodes <= Ids(db) then
      SubsetSize(Ids(d), Ids(db));
      d
    else d
  }

  /** Where the empty id makes no detour the answers between other vertices are right, whichever ids are nodes. */
  lemma HarmlessIsRight(db: Db, cap: nat)
    requires Faithful(db) && |Ids(db)| <= cap && HarmlessEmptyId(db)
    ensures RightBetweenNamed(db, cap)
  {
    forall rows: Id -> seq<Id>, a: Id, b: Id | a != "" && b != "" ensures RightIn(db, rows, a, b, cap) {
      var d := db.(rows := rows);
      assert Links(d) == Links(db) && Ids(d) == Ids(db);
      if Faithful(d) && a in db.nodes && b in db.nodes {
        RightWhereHarmless(d, a, b, cap);
      }
    }
  }

  /** A detour between two nodes loses a path in some order of rows. */
  lemma DetourIsWrong(db: Db, a: Id, b: Id, cap: nat)
    requires Faithful(db) && Detour(Links(db), a, b) && a in db.nodes && b in db.nodes
    ensures !RightBetweenNamed(db, cap)
  {
    var d := EmptyFirst(db, b);
    EmptyFirstFaithful(db, b);
    DetourLosesAPath(d, a, b, cap);
    Prefixed(a);
    Prefixed(b);
    assert !RightChain(d, a, b, Path(d, Some(CODE_PREFIX + a), Some(CODE_PREFIX + b), cap));
    assert !RightIn(db, d.rows, a, b, cap);
  }

  /**
    Where the empty id may stand between the endpoints. For every node table, every pair of other
    vertices and every order of rows the answers are complete and shortest if and only if no two
    vertices beside the empty id are unlinked while one of them has another neighbour. Where all ids
    are nodes, the same holds of the table at hand.
   */
  lemma NamedExactlyWhereHarmless(db: Db, cap: nat)
    requires Faithful(db) && |Ids(db)| <= cap
    ensures HarmlessEmptyId(db)
            <==> forall nodes :: nodes <= Ids(db) ==> RightBetweenNamed(WithNodes(db, nodes), cap)
    ensures Ids(db) <= db.nodes ==> (HarmlessEmptyId(db) <==> RightBetweenNamed(db, cap))
  {
    if HarmlessEmptyId(db) {
      HarmlessIsRight(db, cap);
      forall nodes | nodes <= Ids(db) ensures RightBetweenNamed(WithNodes(db, nodes), cap) {
        HarmlessIsRight(WithNodes(db, nodes), cap);
      }
    } else {
      var a, b :| Detour(Links(db), a, b);
      EndsAreIds(db, a, "");
      EndsAreIds(db, b, "");
      DetourIsWrong(WithNodes(db, Ids(db)), a, b, cap);
      if Ids(db) <= db.nodes {
        DetourIsWrong(db, a, b, cap);
      }
    }
  }

  /** The empty id is refused as an endpoint, even of the path from it to itself. */
  lemma EmptyEndpointLosesAPath(db: Db, a: Id, cap: nat)
    ensures Path(db, Some(CODE_PREFIX + a), Some(CODE_PREFIX), cap) == []
    ensures Connected(db, "", "") && ((a, "") in Links(db) ==> Connected(db, a, ""))
    ensures !Right(db, "", "", cap)
  {
    Prefixed(a);
    Prefixed("");
    assert CODE_PREFIX + "" == CODE_PREFIX;
    assert Spells(CODE_PREFIX, "") && Path(db, Some(CODE_PREFIX), Some(CODE_PREFIX), cap) == [];
    assert Joins(Links(db), [""], "", "");
    if (a, "") in Links(db) {
      assert Joins(Links(db), [a, ""], a, "");
    }
  }

  /** Without an empty id nothing stands in the way between any two vertices. */
  lemma NoEmptyIdIsRight(db: Db, cap: nat)
    requires Faithful(db) && |Ids(db)| <= cap && "" !in Ids(db)
    ensures RightInEveryOrder(db, cap)
  {
    forall a, b ensures !Detour(Links(db), a, b) {
      if (a, "") in Links(db) {
        EndsAreIds(db, a, "");
      }
    }
    HarmlessIsRight(db, cap);
    forall rows: Id -> seq<Id>, a: Id, b: Id ensures RightIn(db, rows, a, b, cap) {
      assert a != "" && b != "" ==> RightIn(db, rows, a, b, cap);
    }
  }

  lemma EmptyNodeIsWrong(db: Db, cap: nat)
    requires Faithful(db) && "" in db.nodes
    ensures !RightInEveryOrder(db, cap)
  {
    EmptyEndpointLosesAPath(db, "", cap);
    assert db.(rows := db.rows) == db;
    assert !RightIn(db, db.rows, "", "", cap);
  }

  /**
    Exactly where the search is right. Under a cap no smaller than the number of ids, for every node
    table, all pairs of nodes and every order of rows the answers are complete and shortest if and
    only if neither a node nor an edge carries the empty id. Where all ids are nodes, the same holds
    of the table at hand.
   */
  lemma RightExactlyWithoutEmptyId(db: Db, cap: nat)
    requires Faithful(db) && |Ids(db)| <= cap
    ensures "" !in Ids(db)
            <==> forall nodes :: nodes <= Ids(db) ==> RightInEveryOrder(WithNodes(db, nodes), cap)
    ensures Ids(db) <= db.nodes ==> ("" !in db.nodes <==> RightInEveryOrder(db, cap))
  {
    if "" !in Ids(db) {
      NoEmptyIdIsRight(db, cap);
      forall nodes | nodes <= Ids(db) ensures RightInEveryOrder(WithNodes(db, nodes), cap) {
        NoEmptyIdIsRight(WithNodes(db, nodes), cap);
      }
    } else {
      EmptyNodeIsWrong(WithNodes(db, Ids(db)), cap);
      if Ids(db) <= db.nodes {
        EmptyNodeIsWrong(db, cap);
      }
    }
  }

  lemma EndsAreIds(db: Db, x: Id, y: Id)
    requires (x, y) in Links(db)
    ensures x in Ids(db) && y in Ids(db)
  {
  }

  // ----- concrete failures -----

  /** One edge from a vertex to the empty id: connected, harmless to all others, and answered "no path". */
  lemma EmptyEndpointExample(a: Id, cap: nat)
    requires a != ""
    ensures var db := Db({a, ""}, {Edge(a, "")}, (id: Id) => if id == a then [""] else if id == "" then [a] else []);
            && Faithful(db) && HarmlessEmptyId(db) && Ids(db) <= db.nodes && Connected(db, a, "")
            && Path(db, Some(CODE_PREFIX + a), Some(CODE_PREFIX), cap) == []
  {
    var db := Db({a, ""}, {Edge(a, "")}, (id: Id) => if id == a then [""] else if id == "" then [a] else []);
    assert Links(db) == {(a, ""), ("", a)};
    EmptyEndpointLosesAPath(db, a, cap);
  }

  /** a - "" - b, with a dead end y beside a. */
  function Hub(a: Id, b: Id, y: Id): Db {
    Db({a, b}, {Edge(a, ""), Edge("", b), Edge(a, y)},
       (id: Id) =>
         if id == a then ["", y]
         else if id == "" then [a, b]
         else if id == b then [""]
         else if id == y then [a]
         else [])
  }

  /** Three different ids, and the empty one on edges only: the ends of a path through it get the answer "no path". */
  lemma EmptyIdLosesAPath(a: Id, b: Id, y: Id, cap: nat)
    requires a !in [b, y, ""] && b !in [y, ""] && y != ""
    ensures var db := Hub(a, b, y);
            Faithful(db) && "" !in db.nodes && Connected(db, a, b)
            && Path(db, Some(CODE_PREFIX + a), Some(CODE_PREFIX + b), cap) == []
  {
    var db := Hub(a, b, y);
    assert Links(db) == {(a, ""), ("", a), ("", b), (b, ""), (a, y), (y, a)};
    assert (a, y) in Links(db);
    DetourLosesAPath(db, a, b, cap);
  }
}
