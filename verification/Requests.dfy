/**
  The request table of the LSP client: JSON-RPC 2.0 requests in flight (sections 4 and 5),
  their timers, and every call made to a request's resolve or reject function.
 */
module Requests {
  import opened Prelude

  /** The `id` or progress token of a message: any JSON value the client compares by identity. */
  datatype JsId = Number(n: int) | Text(s: string) | NullId | Undefined

  datatype Progress = Progress(kind: Option<string>, token: JsId)

  /** The `method` of a message, as far as the client tells methods apart. */
  datatype Verb =
    | CreateProgress        // window/workDoneProgress/create
    | ProgressNote          // $/progress
    | IndexingStarted       // indexingStarted, intelephense/indexingStarted
    | IndexingEnded         // indexingEnded, intelephense/indexingEnded
    | PublishDiagnostics    // textDocument/publishDiagnostics
    | OtherVerb(name: string)

  /** A parsed message; `verb` is its `method`, and `error` is present when it is truthy. */
  datatype Message = Message(id: JsId, verb: Option<Verb>, error: Option<string>, result: string,
                             progress: Progress, uri: Option<string>)

  datatype Outcome = Resolved(result: string) | Rejected(error: string) | TimedOut | Exited | NotConnected

  /**
    `calls[i]` lists the calls to request i's resolve and reject functions in order; a promise
    keeps the first. `refused` are the requests whose message could not be sent.
   */
  datatype Table = Table(nextId: nat, pending: set<nat>, armed: set<nat>, calls: map<nat, seq<Outcome>>,
                         refused: set<nat>, dead: bool)

  const EMPTY := Table(1, {}, {}, map[], {}, false)

  function Issue(t: Table, writable: bool): Table {
    var id := t.nextId;
    var sent := writable && !t.dead;
    t.(nextId := id + 1, pending := t.pending + {id}, armed := t.armed + {id},
       calls := t.calls[id := if sent then [] else [NotConnected]],
       refused := if sent then t.refused else t.refused + {id})
  }

  function Called(t: Table, id: nat, o: Outcome): map<nat, seq<Outcome>> {
    if id in t.calls then t.calls[id := t.calls[id] + [o]] else t.calls
  }

  /** A response carries an id and no method; a request of the server carries both and is never taken for one. */
  predicate Answers(t: Table, m: Message) {
    m.id.Number? && m.verb.None? && m.id.n in t.pending
  }

  function Reply(t: Table, m: Message): Table {
    if !Answers(t, m) then t
    else
      var o := if m.error.Some? then Rejected(m.error.value) else Resolved(m.result);
      t.(pending := t.pending - {m.id.n}, armed := t.armed - {m.id.n}, calls := Called(t, m.id.n, o))
  }

  function Expire(t: Table, id: nat): Table {
    if id !in t.armed then t
    else t.(pending := t.pending - {id}, armed := t.armed - {id}, calls := Called(t, id, TimedOut))
  }

  function Exit(t: Table): Table {
    t.(dead := true, pending := {}, armed := t.armed - t.pending,
       calls := map i | i in t.calls :: if i in t.pending then t.calls[i] + [Exited] else t.calls[i])
  }

  // ----- runs -----

  datatype Event = Issued(writable: bool) | Received(m: Message) | TimerFired(id: nat) | ProcessExited

  function Step(t: Table, e: Event): Table {
    match e
    case Issued(writable) => Issue(t, writable)
    case Received(m) => Reply(t, m)
    case TimerFired(id) => Expire(t, id)
    case ProcessExited => Exit(t)
  }

  function After(events: seq<Event>): Table {
    if events == [] then EMPTY else Step(After(events[..|events| - 1]), events[|events| - 1])
  }

  /** What the caller's promise has settled to. */
  function Promise(t: Table, id: nat): Option<Outcome> {
    if id in t.calls && t.calls[id] != [] then Some(t.calls[id][0]) else None
  }

  predicate Issuable(t: Table, id: nat) {
    1 <= id < t.nextId
  }

  /**
    The account every step balances: a request that went out is called once, exactly when it
    leaves `pending`; one that could not be sent is rejected at once and, being left in
    `pending` with its timer, a second time to no effect.
   */
  ghost predicate Balanced(t: Table) {
    && t.nextId >= 1
    && t.pending == t.armed
    && (forall i: nat :: i in t.calls <==> Issuable(t, i))
    && (forall i :: i in t.pending || i in t.refused ==> Issuable(t, i))
    && (forall i :: i in t.calls ==>
          |t.calls[i]| == (if i in t.refused then 1 else 0) + (if i in t.pending then 0 else 1))
    && (t.dead ==> t.pending <= t.refused)
    && (forall i :: i in t.refused ==> t.calls[i][0] == NotConnected)
  }

  lemma StepBalanced(t: Table, e: Event)
    requires Balanced(t)
    ensures Balanced(Step(t, e))
  {
  }

  lemma StepKeeps(t: Table, e: Event, t': Table)
    requires Balanced(t) && t' == Step(t, e)
    ensures Balanced(t')
  {
    StepBalanced(t, e);
  }

  lemma {:induction false} AlwaysBalanced(events: seq<Event>)
    ensures Balanced(After(events))
  {
    if events != [] {
      AlwaysBalanced(events[..|events| - 1]);
      StepBalanced(After(events[..|events| - 1]), events[|events| - 1]);
    }
  }

  /**
    Over any run: a request that was sent is settled by at most one call, and an unsettled one is
    pending with its timer armed.
   */
  lemma SettledOnce(events: seq<Event>, id: nat)
    requires Issuable(After(events), id)
    ensures var t := After(events);
            && id in t.calls
            && (id !in t.refused ==> |t.calls[id]| <= 1)
            && (Promise(t, id).None? <==> id in t.pending && id !in t.refused)
            && (id in t.pending <==> id in t.armed)
            && (t.dead ==> Promise(t, id).Some?)
  {
    AlwaysBalanced(events);
  }

  lemma StepExtends(t: Table, e: Event, id: nat)
    requires Balanced(t) && id in t.calls
    ensures id in Step(t, e).calls && t.calls[id] <= Step(t, e).calls[id]
  {
  }

  lemma AfterAppend(events: seq<Event>, e: Event)
    ensures After(events + [e]) == Step(After(events), e)
  {
    assert (events + [e])[..|events|] == events;
  }

  /** A settled promise stays settled as it is, whatever happens afterwards. */
  lemma {:induction false} SettledForGood(events: seq<Event>, more: seq<Event>, id: nat)
    requires Promise(After(events), id).Some?
    ensures Promise(After(events + more), id) == Promise(After(events), id)
    decreases |more|
  {
    if more == [] {
      assert events + more == events;
    } else {
      var n := |more| - 1;
      var before := events + more[..n];
      assert events + more == before + [more[n]];
      AfterAppend(before, more[n]);
      SettledForGood(events, more[..n], id);
      AlwaysBalanced(before);
      StepExtends(After(before), more[n], id);
    }
  }

  /**
    Only a message with the request's own id and no method settles it with the server's answer;
    a server request with a colliding id changes nothing at all.
   */
  lemma OnlyItsResponseAnswers(t: Table, e: Event, id: nat)
    requires Balanced(t) && id in t.calls
    ensures Step(t, e).calls[id] != t.calls[id] && Step(t, e).calls[id][|t.calls[id]|].Resolved?
            ==> e.Received? && e.m.id == Number(id) && e.m.verb.None? && e.m.error.None?
    ensures Step(t, e).calls[id] != t.calls[id] && Step(t, e).calls[id][|t.calls[id]|].Rejected?
            ==> e.Received? && e.m.id == Number(id) && e.m.verb.None? && e.m.error.Some?
    ensures e.Received? && e.m.verb.Some? ==> Step(t, e) == t
  {
  }

  /** A request that was sent and has not left `pending` yet. */
  predicate InFlight(t: Table, id: nat) {
    id in t.pending && id !in t.refused
  }

  /** In any run: the response to a request in flight settles its promise with the message's error or result. */
  lemma ResponseSettles(events: seq<Event>, id: nat, m: Message)
    requires InFlight(After(events), id) && m.id == Number(id) && m.verb.None?
    ensures Promise(After(events + [Received(m)]), id)
            == Some(if m.error.Some? then Rejected(m.error.value) else Resolved(m.result))
    ensures forall j: nat :: j != id ==> Unaffected(After(events), After(events + [Received(m)]), j)
  {
    AlwaysBalanced(events);
    AfterAppend(events, Received(m));
  }

  /** In any run: the timer of a request in flight rejects it as timed out, and no other. */
  lemma TimerSettles(events: seq<Event>, id: nat)
    requires InFlight(After(events), id)
    ensures Promise(After(events + [TimerFired(id)]), id) == Some(TimedOut)
    ensures forall j: nat :: j != id ==> Unaffected(After(events), After(events + [TimerFired(id)]), j)
  {
    AlwaysBalanced(events);
    AfterAppend(events, TimerFired(id));
  }

  /** In any run: the exit rejects every request in flight, and settles no other promise anew. */
  lemma ExitSettles(events: seq<Event>, id: nat)
    requires Issuable(After(events), id)
    ensures Promise(After(events + [ProcessExited]), id)
            == if InFlight(After(events), id) then Some(Exited) else Promise(After(events), id)
  {
    AlwaysBalanced(events);
    AfterAppend(events, ProcessExited);
  }

  /** A new request takes the next number: it is in flight exactly when it can be sent, and no other changes. */
  lemma IssuedIsInFlight(events: seq<Event>, writable: bool)
    ensures var t, t' := After(events), After(events + [Issued(writable)]);
            && t'.nextId == t.nextId + 1 && t.nextId in t'.pending
            && (InFlight(t', t.nextId) <==> writable && ProcessExited !in events)
            && forall j: nat :: j != t.nextId ==> Unaffected(t, t', j)
  {
    AlwaysBalanced(events);
    DeadSinceExit(events);
    AfterAppend(events, Issued(writable));
  }

  /** Request `j` stands in `t'` as it stood in `t`. */
  predicate Unaffected(t: Table, t': Table, j: nat) {
    && (InFlight(t', j) <==> InFlight(t, j)) && (j in t'.pending <==> j in t.pending)
    && Promise(t', j) == Promise(t, j)
  }

  /** The client is dead exactly after an exit of the process. */
  lemma {:induction false} DeadSinceExit(events: seq<Event>)
    ensures After(events).dead <==> ProcessExited in events
  {
    if events != [] {
      var n := |events| - 1;
      DeadSinceExit(events[..n]);
      assert events == events[..n] + [events[n]];
    }
  }

  /** Event `i` of a run issues a request whose message cannot be sent. */
  predicate Unsendable(events: seq<Event>, i: nat)
    requires i < |events|
  {
    events[i].Issued? && !(events[i].writable && !After(events[..i]).dead)
  }

  lemma StepKeepsRefused(t: Table, e: Event, id: nat)
    requires Balanced(t) && id in t.calls
    ensures id in Step(t, e).refused <==> id in t.refused
  {
  }

  lemma {:induction false} RefusedFromTheStart(events: seq<Event>, i: nat)
    requires i < |events| && events[i].Issued?
    ensures var id := After(events[..i]).nextId;
            id in After(events).calls && (id in After(events).refused <==> Unsendable(events, i))
    decreases |events|
  {
    var n := |events| - 1;
    var before := events[..n];
    AlwaysBalanced(before);
    if i < n {
      assert before[..i] == events[..i];
      RefusedFromTheStart(before, i);
      StepKeepsRefused(After(before), events[n], After(events[..i]).nextId);
      StepExtends(After(before), events[n], After(events[..i]).nextId);
    }
  }

  /**
    Exactly the requests that could not be sent are ever settled and still pending: the one issued
    at event `i` is so for as long as it is pending at all.
   */
  lemma SettledYetPending(events: seq<Event>, i: nat)
    requires i < |events| && events[i].Issued?
    ensures var id, t := After(events[..i]).nextId, After(events);
            Promise(t, id).Some? && id in t.pending <==> Unsendable(events, i) && id in t.pending
  {
    RefusedFromTheStart(events, i);
    AlwaysBalanced(events);
  }

  /**
    The table is not idle-safe after a refused request: it still counts as pending although its
    promise is rejected.
   */
  lemma RefusedStaysPending()
    ensures var t := After([Issued(false)]);
            Promise(t, 1) == Some(NotConnected) && 1 in t.pending
    ensures var t := After([Issued(false), TimerFired(1)]);
            t.calls[1] == [NotConnected, TimedOut] && 1 !in t.pending
  {
    assert [Issued(false)][..0] == [];
    assert After([Issued(false)]) == Issue(EMPTY, false);
    assert [Issued(false), TimerFired(1)][..1] == [Issued(false)];
  }
}
