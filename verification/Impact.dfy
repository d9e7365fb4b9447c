/**
  The dashboard's blast radius: everything that depends on a node, found by walking
  dependency edges backward, bounded in depth and in the number of results.
 */
module Impact {
  import opened Prelude
  import opened Reach
  import Sorting
  import opened GraphPath

  const IMPACT_RELATIONS: set<string> :=
    {"CALLS", "REFERENCES", "USES_TYPE", "TESTS", "INVOKES", "PASSES_THROUGH"}

  datatype Dependency = Dependency(from: Id, to: Id, relation: string)

  /**
    `callers(frontier)` answers the query for the distinct (source, relation) pairs of the edges
    into the frontier, in the SQL engine's order.
   */
  datatype DepDb = DepDb(nodes: set<Id>, edges: set<Dependency>, callers: seq<Id> -> seq<(Id, string)>)

  ghost predicate Answers(db: DepDb) {
    forall frontier: seq<Id>, id: Id, relation: string ::
      (id, relation) in db.callers(frontier)
      <==> exists to :: to in frontier && Dependency(id, to, relation) in db.edges
  }

  /** The relations through which a change to one end affects the other. */
  predicate Propagates(relation: string) {
    || relation == "CALLS" || relation == "REFERENCES" || relation == "USES_TYPE" || relation == "TESTS"
    || relation == "INVOKES" || relation == "PASSES_THROUGH"
  }

  /** From a node to what depends on it directly. */
  ghost function Dependents(db: DepDb): Rel<Id> {
    set e | e in db.edges && Propagates(e.relation) :: (e.to, e.from)
  }

  // ----- the traversal as functions -----

  datatype Wave = Wave(affected: seq<Id>, next: seq<Id>)

  function ScanCallers(rows: seq<(Id, string)>, start: Id, cap: nat, w: Wave): Wave {
    if rows == [] then w
    else if rows[0].1 !in IMPACT_RELATIONS || rows[0].0 == start || rows[0].0 in w.affected
    then ScanCallers(rows[1..], start, cap, w)
    else
      var w' := Wave(w.affected + [rows[0].0], w.next + [rows[0].0]);
      if |w'.affected| >= cap then w' else ScanCallers(rows[1..], start, cap, w')
  }

  function Spread(db: DepDb, start: Id, depth: nat, cap: nat, hops: nat, w: Wave): seq<Id>
    decreases depth - hops
  {
    if w.next == [] || hops >= depth || |w.affected| >= cap then w.affected
    else Spread(db, start, depth, cap, hops + 1, ScanCallers(db.callers(w.next), start, cap, Wave(w.affected, [])))
  }

  datatype Answer = Answer(changed: seq<Id>, affected: seq<Id>)

  function ImpactOf(db: DepDb, nodeId: Option<string>, depth: nat, cap: nat): Answer {
    var start := RawNodeId(nodeId);
    if start.None? || start.value !in db.nodes then Answer([], [])
    else Answer([start.value], Spread(db, start.value, depth, cap, 0, Wave([], [start.value])))
  }

  // ----- what every traversal keeps, capped or not -----

  ghost predicate Sound(db: DepDb, start: Id, hops: nat, cap: nat, affected: seq<Id>) {
    && Sorting.Distinct(affected) && |affected| <= cap
    && forall x :: x in affected ==> x != start && Within(Dependents(db), start, hops, x)
  }

  lemma {:induction false} ScanSound(db: DepDb, start: Id, hops: nat, cap: nat, rows: seq<(Id, string)>, w: Wave)
    requires Sound(db, start, hops, cap, w.affected) && |w.affected| < cap
    requires forall x :: x in w.next ==> x in w.affected
    requires forall r :: r in rows && r.1 in IMPACT_RELATIONS ==> Within(Dependents(db), start, hops, r.0)
    ensures var r := ScanCallers(rows, start, cap, w);
            && Sound(db, start, hops, cap, r.affected)
            && (forall x :: x in r.next ==> x in r.affected)
            && (forall x :: x in w.affected ==> x in r.affected)
            && (|r.affected| < cap ==>
                  && (forall r' :: r' in rows && r'.1 in IMPACT_RELATIONS && r'.0 != start ==> r'.0 in r.affected)
                  && (forall x :: x in r.affected && x !in w.affected ==> x in r.next)
                  && (forall x :: x in r.next && x !in w.next ==> x !in w.affected)
                  && (forall x :: x in w.next ==> x in r.next))
  {
    if rows != [] {
      assert rows[0] in rows && forall r :: r in rows[1..] ==> r in rows;
      if rows[0].1 !in IMPACT_RELATIONS || rows[0].0 == start || rows[0].0 in w.affected {
        ScanSound(db, start, hops, cap, rows[1..], w);
      } else if |w.affected| + 1 < cap {
        ScanSound(db, start, hops, cap, rows[1..], Wave(w.affected + [rows[0].0], w.next + [rows[0].0]));
      }
    }
  }

  lemma CallersAreWithin(db: DepDb, start: Id, hops: nat, frontier: seq<Id>)
    requires Answers(db) && forall x :: x in frontier ==> Within(Dependents(db), start, hops, x)
    ensures forall r :: r in db.callers(frontier) && r.1 in IMPACT_RELATIONS
                        ==> Within(Dependents(db), start, hops + 1, r.0)
  {
    forall r | r in db.callers(frontier) && r.1 in IMPACT_RELATIONS
      ensures Within(Dependents(db), start, hops + 1, r.0)
    {
      assert (r.0, r.1) in db.callers(frontier);
      var to :| to in frontier && Dependency(r.0, to, r.1) in db.edges;
      assert (to, r.0) in Dependents(db);
      assert Touches(Dependents(db), start, hops, r.0);
    }
  }

  lemma SoundLater(db: DepDb, start: Id, hops: nat, cap: nat, affected: seq<Id>)
    requires Sound(db, start, hops, cap, affected)
    ensures Sound(db, start, hops + 1, cap, affected)
  {
  }

  /** Uncapped so far: the results are exactly the nodes within `hops`, the frontier exactly those at `hops`. */
  ghost predicate Exact(db: DepDb, start: Id, hops: nat, w: Wave) {
    && (forall x :: x == start || x in w.affected <==> Within(Dependents(db), start, hops, x))
    && (forall x :: x in w.next <==>
          Within(Dependents(db), start, hops, x) && (hops > 0 ==> !Within(Dependents(db), start, hops - 1, x)))
  }

  ghost predicate Frontier(db: DepDb, start: Id, hops: nat, w: Wave) {
    forall x :: x in w.next ==> Within(Dependents(db), start, hops, x)
  }

  lemma ExactStep(db: DepDb, start: Id, hops: nat, cap: nat, w: Wave, r: Wave)
    requires Answers(db) && Exact(db, start, hops, w) && Sound(db, start, hops + 1, cap, r.affected)
    requires forall c :: c in db.callers(w.next) && c.1 in IMPACT_RELATIONS && c.0 != start ==> c.0 in r.affected
    requires forall x :: x in w.affected ==> x in r.affected
    requires forall x :: x in r.next <==> x in r.affected && x !in w.affected
    ensures Exact(db, start, hops + 1, r)
  {
    var rel := Dependents(db);
    WithinGrows(rel, start, 0, hops + 1, start);
    forall x | Within(rel, start, hops + 1, x) && x != start ensures x in r.affected {
      if !Within(rel, start, hops, x) {
        assert Touches(rel, start, hops, x);
        var y :| Within(rel, start, hops, y) && (y, x) in rel;
        OnSurface(rel, start, hops, y, x);
        var e :| e in db.edges && Propagates(e.relation) && (e.to, e.from) == (y, x);
        assert y in w.next && Dependency(x, y, e.relation) in db.edges;
        assert (x, e.relation) in db.callers(w.next);
      }
    }
    WithinGrows(rel, start, 0, hops, start);
  }

  lemma {:induction false} SpreadSound(db: DepDb, start: Id, depth: nat, cap: nat, hops: nat, w: Wave)
    requires Answers(db) && Sound(db, start, hops, cap, w.affected) && hops <= depth
    requires Frontier(db, start, hops, w)
    requires |w.affected| < cap ==> Exact(db, start, hops, w)
    ensures var out := Spread(db, start, depth, cap, hops, w);
            && Sound(db, start, depth, cap, out)
            && (|out| < cap ==> forall x :: x == start || x in out <==> Within(Dependents(db), start, depth, x))
    decreases depth - hops
  {
    var rel := Dependents(db);
    if w.next == [] || hops >= depth || |w.affected| >= cap {
      forall x | x in w.affected ensures Within(rel, start, depth, x) { WithinGrows(rel, start, hops, depth, x); }
      if |w.affected| < cap {
        WithinGrows(rel, start, 0, depth, start);
        if hops < depth {
          NothingFurther(db, start, hops, w);
          forall x | Within(rel, start, depth, x) ensures Within(rel, start, hops, x) {
            StuckForever(rel, start, hops, depth, x);
          }
        }
      }
    } else {
      SoundLater(db, start, hops, cap, w.affected);
      CallersAreWithin(db, start, hops, w.next);
      ScanSound(db, start, hops + 1, cap, db.callers(w.next), Wave(w.affected, []));
      var r := ScanCallers(db.callers(w.next), start, cap, Wave(w.affected, []));
      if |r.affected| < cap {
        ExactStep(db, start, hops, cap, w, r);
      }
      SpreadSound(db, start, depth, cap, hops + 1, r);
    }
  }

  lemma NothingFurther(db: DepDb, start: Id, hops: nat, w: Wave)
    requires Exact(db, start, hops, w) && w.next == []
    ensures Stuck(Dependents(db), start, hops)
  {
    var rel := Dependents(db);
    WithinGrows(rel, start, 0, hops, start);
    assert forall x :: x !in w.next;
    assert hops > 0;
    forall x | Touches(rel, start, hops, x) ensures Within(rel, start, hops, x) {
      var y :| Within(rel, start, hops, y) && (y, x) in rel;
      assert Touches(rel, start, hops - 1, x);
    }
  }

  /**
    The blast radius of an existing node, with or without the dashboard's prefix, lists distinct nodes
    other than itself, at most `cap` of them, all depending on it through at most `depth` edges; and a
    list shorter than the cap is all of them.
   */
  lemma ImpactIsBoundedReachability(db: DepDb, id: Id, written: string, depth: nat, cap: nat)
    requires Answers(db) && id in db.nodes && Spells(written, id)
    ensures var out := ImpactOf(db, Some(written), depth, cap);
            && out.changed == [id] && Sorting.Distinct(out.affected) && |out.affected| <= cap
            && (forall x :: x in out.affected ==> x != id && Within(Dependents(db), id, depth, x))
            && (|out.affected| < cap ==>
                  forall x :: x != id && Within(Dependents(db), id, depth, x) ==> x in out.affected)
  {
    SpelledId(written, id);
    SpreadSound(db, id, depth, cap, 0, Wave([], [id]));
  }

  /** A missing id, or one that is no node, has no blast radius and is not said to have changed. */
  lemma UnknownNodeHasNoImpact(db: DepDb, id: Id, written: string, depth: nat, cap: nat)
    requires id !in db.nodes && Spells(written, id)
    ensures ImpactOf(db, Some(written), depth, cap) == ImpactOf(db, None, depth, cap) == Answer([], [])
  {
    SpelledId(written, id);
  }

  // ----- the imperative traversal -----

  method ComputeImpact(db: DepDb, nodeId: Option<string>, depth: nat := 3, cap: nat := 2000) returns (out: Answer)
    ensures out == ImpactOf(db, nodeId, depth, cap)
  {
    var start := RawNodeId(nodeId);
    if start.None? || start.value !in db.nodes {
      return Answer([], []);
    }
    var affected: seq<Id>, frontier, hops: nat := [], [start.value], 0;
    while frontier != [] && hops < depth && |affected| < cap
      invariant Spread(db, start.value, depth, cap, hops, Wave(affected, frontier))
             == Spread(db, start.value, depth, cap, 0, Wave([], [start.value]))
      decreases depth - hops
    {
      var rows := db.callers(frontier);
      var next := [];
      ghost var goal := ScanCallers(rows, start.value, cap, Wave(affected, []));
      var i := 0;
      while i < |rows|
        invariant 0 <= i <= |rows|
        invariant ScanCallers(rows[i..], start.value, cap, Wave(affected, next)) == goal
      {
        var (id, relation) := rows[i];
        assert rows[i..][1..] == rows[i + 1..];
        i := i + 1;
        if relation !in IMPACT_RELATIONS || id == start.value || id in affected {
          continue;
        }
        affected := affected + [id];
        next := next + [id];
        if |affected| >= cap {
          break;
        }
      }
      frontier := next;
      hops := hops + 1;
    }
    out := Answer([start.value], affected);
  }
}
