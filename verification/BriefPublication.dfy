/**
  Publishing a brief only if it describes one graph: the facts are read without a lock between two
  captures of the graph's generation, while rebuilds may commit at any moment.
 */
module BriefPublication {
  import opened Prelude

  const MAX_ASSEMBLY_ATTEMPTS := 2

  /** A published generation; `None` where the graph carries none. */
  type Generation = Option<nat>

  type Fact = string

  /**
    The graphs of a repository, numbered in the order they were committed: the generation each
    carries, and what the next query answers on it after the facts read so far, on which it may
    depend. A query that is skipped answers the same on every graph.
   */
  datatype World = World(generation: nat -> Generation, answer: (seq<Fact>, nat) -> Fact)

  /** No two committed graphs carry the same generation. */
  ghost predicate NeverRecurs(w: World) {
    forall i: nat, j: nat :: i < j ==> w.generation(i) != w.generation(j)
  }

  /** A brief: how many queries it makes between the captures and after the second one, and how it is rendered. */
  datatype Plan = Plan(early: nat, late: nat, render: (seq<Fact>, seq<Fact>) -> seq<(string, string)>)

  /** How many rebuilds commit before each access of one attempt. */
  type Gaps = seq<nat>

  predicate Fits(plan: Plan, gaps: Gaps) {
    |gaps| == plan.early + plan.late + 2
  }

  // ----- one attempt -----

  function Sum(s: seq<nat>): nat {
    if s == [] then 0 else Sum(s[..|s| - 1]) + s[|s| - 1]
  }

  /** The graph an attempt that starts at graph `g` sees at its access `i`. */
  function GraphAt(g: nat, gaps: Gaps, i: nat): nat
    requires i < |gaps|
  {
    g + Sum(gaps[..i + 1])
  }

  datatype Assembly = Assembly(start: Generation, end: Generation, writes: seq<(string, string)>)

  /** The facts `seen` and `n` more, each from the graph of its own moment; the first is read at access `first`. */
  function ReadMore(w: World, g: nat, gaps: Gaps, first: nat, seen: seq<Fact>, n: nat): (r: seq<Fact>)
    requires first + n <= |gaps|
    ensures |r| == |seen| + n && r[..|seen|] == seen
  {
    if n == 0 then seen
    else
      var before := ReadMore(w, g, gaps, first, seen, n - 1);
      before + [w.answer(before, GraphAt(g, gaps, first + n - 1))]
  }

  function EarlyFacts(w: World, plan: Plan, g: nat, gaps: Gaps): (r: seq<Fact>)
    requires Fits(plan, gaps)
    ensures |r| == plan.early
  {
    ReadMore(w, g, gaps, 1, [], plan.early)
  }

  /** The queries after the second capture. */
  function LateFacts(w: World, plan: Plan, g: nat, gaps: Gaps): (r: seq<Fact>)
    requires Fits(plan, gaps)
    ensures |r| == plan.late
  {
    ReadMore(w, g, gaps, plan.early + 2, EarlyFacts(w, plan, g, gaps), plan.late)[plan.early..]
  }

  function Assemble(w: World, plan: Plan, g: nat, gaps: Gaps): Assembly
    requires Fits(plan, gaps)
  {
    Assembly(w.generation(GraphAt(g, gaps, 0)), w.generation(GraphAt(g, gaps, plan.early + 1)),
             plan.render(EarlyFacts(w, plan, g, gaps), LateFacts(w, plan, g, gaps)))
  }

  predicate Straddled(a: Assembly) {
    a.start != a.end
  }

  // ----- writing -----

  function Current(files: map<string, string>, name: string): Option<string> {
    if name in files then Some(files[name]) else None
  }

  /** The files after writing, and the names that were written because their content differed. */
  function Publish(files: map<string, string>, writes: seq<(string, string)>): (map<string, string>, seq<string>) {
    if writes == [] then (files, [])
    else
      var (before, written) := Publish(files, writes[..|writes| - 1]);
      var (name, content) := writes[|writes| - 1];
      if Current(before, name) == Some(content) then (before, written)
      else (before[name := content], written + [name])
  }

  // ----- all attempts -----

  datatype Outcome =
    | Published(attempts: nat, changed: nat)
    | Refused(attempts: nat, straddles: seq<(Generation, Generation)>)

  /** An outcome, the files it leaves, and the names it wrote. */
  datatype Effect = Effect(outcome: Outcome, files: map<string, string>, written: seq<string>)

  predicate Schedule(plan: Plan, gaps: seq<Gaps>) {
    |gaps| == MAX_ASSEMBLY_ATTEMPTS && forall a :: 0 <= a < |gaps| ==> Fits(plan, gaps[a])
  }

  function Begin(g: nat, gaps: seq<Gaps>, attempt: nat): nat
    requires attempt <= |gaps|
  {
    if attempt == 0 then g else Begin(g, gaps, attempt - 1) + Sum(gaps[attempt - 1])
  }

  function Attempt(w: World, plan: Plan, g: nat, gaps: seq<Gaps>, attempt: nat): Assembly
    requires Schedule(plan, gaps) && attempt < |gaps|
  {
    Assemble(w, plan, Begin(g, gaps, attempt), gaps[attempt])
  }

  function FromAttempt(w: World, plan: Plan, g: nat, gaps: seq<Gaps>, files: map<string, string>, attempt: nat,
                       straddles: seq<(Generation, Generation)>): Effect
    requires Schedule(plan, gaps) && attempt <= |gaps|
    decreases |gaps| - attempt
  {
    if attempt == |gaps| then Effect(Refused(MAX_ASSEMBLY_ATTEMPTS, straddles), files, [])
    else
      var a := Attempt(w, plan, g, gaps, attempt);
      if Straddled(a) then FromAttempt(w, plan, g, gaps, files, attempt + 1, straddles + [(a.start, a.end)])
      else
        var (files', written) := Publish(files, a.writes);
        Effect(Published(attempt + 1, |written|), files', written)
  }

  function Generate(w: World, plan: Plan, g: nat, gaps: seq<Gaps>, files: map<string, string>): Effect
    requires Schedule(plan, gaps)
  {
    FromAttempt(w, plan, g, gaps, files, 0, [])
  }

  // ----- one graph between the captures -----

  lemma {:induction false} SumGrows(s: seq<nat>, i: nat, j: nat)
    requires i <= j <= |s|
    ensures Sum(s[..i]) <= Sum(s[..j])
    ensures Sum(s[..i]) == Sum(s[..j]) <==> forall k :: i <= k < j ==> s[k] == 0
    decreases j
  {
    if i < j {
      SumGrows(s, i, j - 1);
      assert s[..j][..j - 1] == s[..j - 1];
    }
  }

  /** No rebuild commits between the two captures. */
  predicate Quiet(plan: Plan, gaps: Gaps)
    requires Fits(plan, gaps)
  {
    forall k :: 1 <= k < plan.early + 2 ==> gaps[k] == 0
  }

  lemma QuietSeesOneGraph(plan: Plan, g: nat, gaps: Gaps, i: nat)
    requires Fits(plan, gaps) && i <= plan.early + 1
    ensures GraphAt(g, gaps, 0) <= GraphAt(g, gaps, i) <= GraphAt(g, gaps, plan.early + 1)
    ensures Quiet(plan, gaps) <==> GraphAt(g, gaps, 0) == GraphAt(g, gaps, plan.early + 1)
  {
    SumGrows(gaps, 1, i + 1);
    SumGrows(gaps, i + 1, plan.early + 2);
    SumGrows(gaps, 1, plan.early + 2);
  }

  /** The captures tell exactly whether a rebuild came between them. */
  lemma StraddledMeansRebuilt(w: World, plan: Plan, g: nat, gaps: Gaps)
    requires NeverRecurs(w) && Fits(plan, gaps)
    ensures Straddled(Assemble(w, plan, g, gaps)) <==> !Quiet(plan, gaps)
  {
    QuietSeesOneGraph(plan, g, gaps, 0);
  }

  /** Attempt `gaps` from graph `g` is recognised for what it is. */
  ghost predicate Recognised(w: World, plan: Plan, g: nat, gaps: Gaps) {
    Fits(plan, gaps) ==> (Straddled(Assemble(w, plan, g, gaps)) <==> !Quiet(plan, gaps))
  }

  /** An attempt from graph `i` during which the graph becomes `j`, just after the first capture. */
  function Jump(plan: Plan, i: nat, j: nat): (gaps: Gaps)
    requires i < j
    ensures Fits(plan, gaps) && gaps[1] == j - i
  {
    seq(plan.early + plan.late + 2, k requires 0 <= k < plan.early + plan.late + 2 => if k == 1 then j - i else 0)
  }

  lemma JumpSees(plan: Plan, i: nat, j: nat)
    requires i < j
    ensures GraphAt(i, Jump(plan, i, j), 0) == i && GraphAt(i, Jump(plan, i, j), plan.early + 1) == j
  {
    var gaps := Jump(plan, i, j);
    assert gaps[..1] == [0] && gaps[..2] == [0, j - i];
    assert [0][..0] == [] && Sum([0]) == 0;
    assert [0, j - i][..1] == [0];
    SumGrows(gaps, 2, plan.early + 2);
  }

  /** Comparing the captures is right for every attempt exactly when no generation ever recurs. */
  lemma DetectionNeedsFreshGenerations(w: World, plan: Plan)
    ensures NeverRecurs(w) <==> forall g: nat, gaps: Gaps :: Recognised(w, plan, g, gaps)
  {
    if NeverRecurs(w) {
      forall g: nat, gaps: Gaps ensures Recognised(w, plan, g, gaps) {
        if Fits(plan, gaps) {
          StraddledMeansRebuilt(w, plan, g, gaps);
        }
      }
    } else {
      var i: nat, j: nat :| i < j && w.generation(i) == w.generation(j);
      JumpSees(plan, i, j);
      assert !Recognised(w, plan, i, Jump(plan, i, j));
    }
  }

  /** The first `n` facts of a brief, all as one graph answers them. */
  function FactsOf(w: World, graph: nat, n: nat): seq<Fact> {
    if n == 0 then [] else
      var before := FactsOf(w, graph, n - 1);
      before + [w.answer(before, graph)]
  }

  lemma {:induction false} QuietReadsOneGraph(w: World, plan: Plan, g: nat, gaps: Gaps, n: nat)
    requires Fits(plan, gaps) && Quiet(plan, gaps) && n <= plan.early
    ensures ReadMore(w, g, gaps, 1, [], n) == FactsOf(w, GraphAt(g, gaps, 0), n)
  {
    if n > 0 {
      QuietReadsOneGraph(w, plan, g, gaps, n - 1);
      QuietSeesOneGraph(plan, g, gaps, n);
    }
  }

  // ----- what is published -----

  predicate DistinctNames(writes: seq<(string, string)>) {
    forall i, j :: 0 <= i < j < |writes| ==> writes[i].0 != writes[j].0
  }

  /** Publishing leaves every named file with its content and every other file alone. */
  lemma {:induction false} PublishWrites(files: map<string, string>, writes: seq<(string, string)>)
    requires DistinctNames(writes)
    ensures var (files', written) := Publish(files, writes);
            && (forall i :: 0 <= i < |writes| ==> Current(files', writes[i].0) == Some(writes[i].1))
            && (forall name :: (forall i :: 0 <= i < |writes| ==> writes[i].0 != name)
                  ==> Current(files', name) == Current(files, name))
  {
    if writes != [] {
      PublishWrites(files, writes[..|writes| - 1]);
    }
  }

  /** A file is written exactly when its content changes. */
  lemma {:induction false} OnlyChangesAreWritten(files: map<string, string>, writes: seq<(string, string)>,
                                                 name: string)
    requires DistinctNames(writes)
    ensures var (files', written) := Publish(files, writes);
            name in written <==> Current(files', name) != Current(files, name)
  {
    if writes != [] {
      var rest := writes[..|writes| - 1];
      OnlyChangesAreWritten(files, rest, name);
      PublishWrites(files, rest);
      assert forall i :: 0 <= i < |rest| ==> rest[i].0 != writes[|writes| - 1].0;
    }
  }

  /** An attempt is discarded, leaving only its two generations, exactly when a rebuild interrupted it. */
  lemma OneAttempt(w: World, plan: Plan, g: nat, gaps: seq<Gaps>, files: map<string, string>, attempt: nat,
                   straddles: seq<(Generation, Generation)>)
    requires NeverRecurs(w) && Schedule(plan, gaps) && attempt < |gaps|
    ensures var a := Attempt(w, plan, g, gaps, attempt);
            && (!Quiet(plan, gaps[attempt]) ==> a.start != a.end)
            && FromAttempt(w, plan, g, gaps, files, attempt, straddles)
               == if !Quiet(plan, gaps[attempt]) then
                    FromAttempt(w, plan, g, gaps, files, attempt + 1, straddles + [(a.start, a.end)])
                  else
                    var (files', written) := Publish(files, a.writes);
                    Effect(Published(attempt + 1, |written|), files', written)
  {
    StraddledMeansRebuilt(w, plan, Begin(g, gaps, attempt), gaps[attempt]);
  }

  /**
    Whatever rebuilds commit and whenever: a brief is published from the first attempt no rebuild
    interrupted between its captures, every fact read between them is that of one graph, and the
    files are left as that attempt rendered them.
   */
  lemma PublishedDescribesOneGraph(w: World, plan: Plan, g: nat, gaps: seq<Gaps>, files: map<string, string>)
    requires NeverRecurs(w) && Schedule(plan, gaps) && Generate(w, plan, g, gaps, files).outcome.Published?
    ensures var e := Generate(w, plan, g, gaps, files);
            var n := e.outcome.attempts;
            && 1 <= n <= MAX_ASSEMBLY_ATTEMPTS && Quiet(plan, gaps[n - 1]) && (n == 2 ==> !Quiet(plan, gaps[0]))
            && (e.files, e.written)
               == Publish(files, plan.render(FactsOf(w, GraphAt(Begin(g, gaps, n - 1), gaps[n - 1], 0), plan.early),
                                             LateFacts(w, plan, Begin(g, gaps, n - 1), gaps[n - 1])))
            && e.outcome.changed == |e.written|
  {
    OneAttempt(w, plan, g, gaps, files, 0, []);
    if Quiet(plan, gaps[0]) {
      QuietReadsOneGraph(w, plan, Begin(g, gaps, 0), gaps[0], plan.early);
    } else {
      var a := Attempt(w, plan, g, gaps, 0);
      OneAttempt(w, plan, g, gaps, files, 1, [] + [(a.start, a.end)]);
      if Quiet(plan, gaps[1]) {
        QuietReadsOneGraph(w, plan, Begin(g, gaps, 1), gaps[1], plan.early);
      }
    }
  }

  /**
    A refusal means a rebuild interrupted both attempts; no file is touched, and the receipt names two
    differing pairs.
   */
  lemma RefusalTouchesNothing(w: World, plan: Plan, g: nat, gaps: seq<Gaps>, files: map<string, string>)
    requires NeverRecurs(w) && Schedule(plan, gaps)
    ensures var e := Generate(w, plan, g, gaps, files);
            && (e.outcome.Refused? <==> !Quiet(plan, gaps[0]) && !Quiet(plan, gaps[1]))
            && (e.outcome.Refused? ==>
                  && e.files == files && e.written == [] && |e.outcome.straddles| == MAX_ASSEMBLY_ATTEMPTS
                  && forall i :: 0 <= i < |e.outcome.straddles|
                       ==> e.outcome.straddles[i].0 != e.outcome.straddles[i].1)
  {
    var a := Attempt(w, plan, g, gaps, 0);
    OneAttempt(w, plan, g, gaps, files, 0, []);
    OneAttempt(w, plan, g, gaps, files, 1, [] + [(a.start, a.end)]);
  }

  // ----- the facts read after the second capture -----

  /** Fact number `i` after the first `|seen|` is the answer of the graph of its own moment. */
  lemma {:induction false} FactAt(w: World, g: nat, gaps: Gaps, first: nat, seen: seq<Fact>, n: nat, i: nat)
    requires i < n && first + n <= |gaps|
    ensures ReadMore(w, g, gaps, first, seen, n)[|seen| + i]
            == w.answer(ReadMore(w, g, gaps, first, seen, i), GraphAt(g, gaps, first + i))
  {
    if i < n - 1 {
      FactAt(w, g, gaps, first, seen, n - 1, i);
    }
  }

  /** The guarantee ends at the second capture: a rebuild after it reaches the published late facts unseen. */
  lemma LateFactsMayBeNewer(w: World, plan: Plan, g: nat, gaps: seq<Gaps>, files: map<string, string>)
    requires NeverRecurs(w) && Schedule(plan, gaps) && plan.late > 0
    requires Quiet(plan, gaps[0]) && gaps[0][plan.early + 2] > 0
    ensures Generate(w, plan, g, gaps, files).outcome.Published?
    ensures LateFacts(w, plan, g, gaps[0])[0]
            == w.answer(EarlyFacts(w, plan, g, gaps[0]), GraphAt(g, gaps[0], plan.early + 2))
    ensures GraphAt(g, gaps[0], plan.early + 2) > GraphAt(g, gaps[0], plan.early + 1)
  {
    StraddledMeansRebuilt(w, plan, g, gaps[0]);
    SumGrows(gaps[0], plan.early + 2, plan.early + 3);
    FactAt(w, g, gaps[0], plan.early + 2, EarlyFacts(w, plan, g, gaps[0]), plan.late, 0);
  }

  /** No rebuild commits between the first capture and the last query. */
  predicate QuietThroughout(gaps: Gaps) {
    forall k :: 1 <= k < |gaps| ==> gaps[k] == 0
  }

  /** Every fact of the brief, read between the captures or after them, is that of the captured graph. */
  ghost predicate DescribesOneGraph(w: World, plan: Plan, g: nat, gaps: Gaps)
    requires Fits(plan, gaps)
  {
    EarlyFacts(w, plan, g, gaps) + LateFacts(w, plan, g, gaps)
    == FactsOf(w, GraphAt(g, gaps, 0), plan.early + plan.late)
  }

  lemma {:induction false} StillReadsOneGraph(w: World, plan: Plan, g: nat, gaps: Gaps, n: nat)
    requires Fits(plan, gaps) && QuietThroughout(gaps) && n <= plan.late
    ensures ReadMore(w, g, gaps, plan.early + 2, EarlyFacts(w, plan, g, gaps), n)
            == FactsOf(w, GraphAt(g, gaps, 0), plan.early + n)
  {
    if n == 0 {
      QuietReadsOneGraph(w, plan, g, gaps, plan.early);
    } else {
      StillReadsOneGraph(w, plan, g, gaps, n - 1);
      SumGrows(gaps, 1, plan.early + 2 + n);
    }
  }

  /** Graphs whose generations are their numbers, and whose every answer tells the number by its length. */
  function TellingWorld(): (w: World) {
    World((i: nat) => Some(i), (seen: seq<Fact>, graph: nat) => seq(graph, _ => 'I'))
  }

  lemma {:induction false} FactsTell(graph: nat, n: nat, i: nat)
    requires i < n
    ensures |FactsOf(TellingWorld(), graph, n)| == n && |FactsOf(TellingWorld(), graph, n)[i]| == graph
  {
    if i < n - 1 {
      FactsTell(graph, n - 1, i);
    } else if n > 1 {
      FactsTell(graph, n - 1, 0);
    }
  }

  /** In the telling world, late fact `i` of a brief tells the graph it was read from. */
  lemma LateFactTells(plan: Plan, g: nat, gaps: Gaps, i: nat)
    requires Fits(plan, gaps) && i < plan.late
    ensures |LateFacts(TellingWorld(), plan, g, gaps)[i]| == GraphAt(g, gaps, plan.early + 2 + i)
  {
    var w := TellingWorld();
    FactAt(w, g, gaps, plan.early + 2, EarlyFacts(w, plan, g, gaps), plan.late, i);
  }

  lemma LaterGraph(g: nat, gaps: Gaps, k: nat)
    requires 1 <= k < |gaps| && gaps[k] > 0
    ensures GraphAt(g, gaps, k) != GraphAt(g, gaps, 0)
  {
    SumGrows(gaps, 1, k + 1);
  }

  /** A rebuild after the second capture and before a query shows in what that query tells. */
  lemma LateRebuildShows(plan: Plan, g: nat, gaps: Gaps, k: nat)
    requires Fits(plan, gaps) && plan.early + 2 <= k < |gaps| && gaps[k] > 0
    ensures !DescribesOneGraph(TellingWorld(), plan, g, gaps)
  {
    var i := k - plan.early - 2;
    LateFactTells(plan, g, gaps, i);
    LaterGraph(g, gaps, k);
    FactsTell(GraphAt(g, gaps, 0), plan.early + plan.late, plan.early + i);
    Behind(EarlyFacts(TellingWorld(), plan, g, gaps), LateFacts(TellingWorld(), plan, g, gaps), i);
  }

  lemma Behind(early: seq<Fact>, late: seq<Fact>, i: nat)
    requires i < |late|
    ensures (early + late)[|early| + i] == late[i]
  {
  }

  /**
    When a published brief describes one graph altogether: whatever graphs there are, its facts are
    those of the captured graph if and only if no rebuild commits until its last query.
   */
  lemma WholeBriefExactlyWhenQuietThroughout(plan: Plan, g: nat, gaps: Gaps)
    requires Fits(plan, gaps) && Quiet(plan, gaps)
    ensures (forall w :: NeverRecurs(w) ==> DescribesOneGraph(w, plan, g, gaps)) <==> QuietThroughout(gaps)
  {
    if QuietThroughout(gaps) {
      forall w | NeverRecurs(w) ensures DescribesOneGraph(w, plan, g, gaps) {
        StillReadsOneGraph(w, plan, g, gaps, plan.late);
      }
    } else {
      var k :| 1 <= k < |gaps| && gaps[k] != 0;
      LateRebuildShows(plan, g, gaps, k);
      assert NeverRecurs(TellingWorld());
    }
  }

  /** Where graphs carry no generation there is nothing to compare: the first attempt is published whatever commits. */
  lemma UnlabelledGraphsAreNotGuarded(w: World, plan: Plan, g: nat, gaps: seq<Gaps>, files: map<string, string>)
    requires Schedule(plan, gaps) && forall i: nat :: w.generation(i) == None
    ensures Generate(w, plan, g, gaps, files).outcome.Published?
    ensures Generate(w, plan, g, gaps, files).outcome.attempts == 1
  {
    var a := Attempt(w, plan, g, gaps, 0);
    assert a.start == None && a.end == None;
  }

  // ----- the generator -----

  /** The live database: rebuilds commit while an attempt runs. */
  method AssembleBrief(w: World, plan: Plan, g: nat, gaps: Gaps) returns (a: Assembly)
    requires Fits(plan, gaps)
    ensures a == Assemble(w, plan, g, gaps)
  {
    var start := w.generation(GraphAt(g, gaps, 0));
    var facts: seq<Fact> := [];
    for k := 0 to plan.early
      invariant facts == ReadMore(w, g, gaps, 1, [], k)
    {
      facts := facts + [w.answer(facts, GraphAt(g, gaps, 1 + k))];
    }
    var end := w.generation(GraphAt(g, gaps, plan.early + 1));
    for k := 0 to plan.late
      invariant facts == ReadMore(w, g, gaps, plan.early + 2, EarlyFacts(w, plan, g, gaps), k)
    {
      facts := facts + [w.answer(facts, GraphAt(g, gaps, plan.early + 2 + k))];
    }
    return Assembly(start, end, plan.render(facts[..plan.early], facts[plan.early..]));
  }

  /** The directory the briefs live in. */
  class BriefDirectory {
    var files: map<string, string>

    constructor (files: map<string, string>)
      ensures this.files == files
    {
      this.files := files;
    }

    /** Write what differs. */
    method WriteChanged(writes: seq<(string, string)>) returns (changed: nat)
      modifies this
      ensures files == Publish(old(files), writes).0 && changed == |Publish(old(files), writes).1|
    {
      changed := 0;
      for i := 0 to |writes|
        invariant files == Publish(old(files), writes[..i]).0 && changed == |Publish(old(files), writes[..i]).1|
      {
        assert writes[..i + 1][..i] == writes[..i];
        var (name, content) := writes[i];
        if Current(files, name) != Some(content) {
          files := files[name := content];
          changed := changed + 1;
        }
      }
      assert writes[..|writes|] == writes;
    }

    method GenerateBrief(w: World, plan: Plan, g: nat, gaps: seq<Gaps>) returns (outcome: Outcome)
      requires Schedule(plan, gaps)
      modifies this
      ensures outcome == Generate(w, plan, g, gaps, old(files)).outcome
      ensures files == Generate(w, plan, g, gaps, old(files)).files
    {
      var straddles: seq<(Generation, Generation)> := [];
      for attempt := 0 to MAX_ASSEMBLY_ATTEMPTS
        invariant files == old(files)
        invariant FromAttempt(w, plan, g, gaps, files, attempt, straddles) == Generate(w, plan, g, gaps, files)
      {
        var assembled := AssembleBrief(w, plan, Begin(g, gaps, attempt), gaps[attempt]);
        if Straddled(assembled) {
          straddles := straddles + [(assembled.start, assembled.end)];
          continue;
        }
        var changed := WriteChanged(assembled.writes);
        return Published(attempt + 1, changed);
      }
      return Refused(MAX_ASSEMBLY_ATTEMPTS, straddles);
    }
  }
}
