/**
  The LSP client: one object whose methods and callbacks update the receive buffer, the request
  table, the readiness state and the diagnostics waiters. Every method is proved to make exactly
  the step of the functional models it belongs to.
 */
module LspClient {
  import opened Prelude
  import opened Framing
  import opened Requests
  import Readiness
  import Diagnostics

  datatype Outgoing = RequestOut(number: nat) | NullReply(id: JsId) | MethodNotFound(id: JsId, verb: Verb)

  /** Foreign code: JSON parsing (None: it threw) and printing, and the canonical spelling of a URI. */
  datatype Host = Host(parse: Bytes -> Option<Message>, stringify: Outgoing -> Bytes, canon: string -> string)

  /** Everything the client remembers, apart from the bytes not yet decoded. */
  datatype Session = Session(requests: Table, ready: Readiness.State, diagnostics: Diagnostics.State, written: Bytes)

  /** The server's input after one more message, when it can still be written to. */
  function Written(host: Host, written: Bytes, sendable: bool, o: Outgoing): Bytes {
    if sendable then written + Encode(host.stringify(o)) else written
  }

  function Write(host: Host, s: Session, writable: bool, o: Outgoing): Session {
    s.(written := Written(host, s.written, writable && !s.requests.dead, o))
  }

  /** What one message does to the session. */
  function HandleMessage(host: Host, s: Session, writable: bool, m: Message): Session {
    if m.verb == Some(CreateProgress) && m.id != Undefined then
      Write(host, s, writable, NullReply(m.id))
    else if m.verb == Some(ProgressNote) then
      s.(ready := Readiness.HandleProgress(s.ready, m.progress))
    else if m.verb == Some(IndexingStarted) then
      s.(ready := Readiness.IndexingStarted(s.ready))
    else if m.verb == Some(IndexingEnded) then
      s.(ready := Readiness.IndexingEnded(s.ready))
    else if Answers(s.requests, m) then
      s.(requests := Reply(s.requests, m))
    else if m.verb == Some(PublishDiagnostics) then
      s.(diagnostics := Diagnostics.Publish(s.diagnostics, host.canon, m.uri))
    else if m.id != Undefined && m.verb.Some? then
      Write(host, s, writable, MethodNotFound(m.id, m.verb.value))
    else s
  }

  function HandleBody(host: Host, s: Session, writable: bool, body: Bytes): Session {
    var m := host.parse(body);
    if m.Some? then HandleMessage(host, s, writable, m.value) else s
  }

  function HandleAll(host: Host, s: Session, writable: bool, bodies: seq<Bytes>): Session
    decreases |bodies|
  {
    if bodies == [] then s
    else HandleAll(host, HandleBody(host, s, writable, bodies[0]), writable, bodies[1..])
  }

  /** The session and residual buffer after a stream that arrived in the given chunks. */
  function Receive(host: Host, s: Session, writable: bool, buffer: Bytes, chunks: seq<Bytes>): (Session, Bytes)
    decreases |chunks|
  {
    if chunks == [] then (s, buffer)
    else
      var d := Drain(buffer + chunks[0]);
      Receive(host, HandleAll(host, s, writable, d.bodies), writable, d.rest, chunks[1..])
  }

  lemma {:induction false} HandleAllJoins(host: Host, s: Session, writable: bool, a: seq<Bytes>, b: seq<Bytes>)
    ensures HandleAll(host, s, writable, a + b) == HandleAll(host, HandleAll(host, s, writable, a), writable, b)
    decreases |a|
  {
    if a == [] {
      assert a + b == b;
    } else {
      assert (a + b)[1..] == a[1..] + b;
      HandleAllJoins(host, HandleBody(host, s, writable, a[0]), writable, a[1..], b);
    }
  }

  lemma {:induction false} ReceiveIsFeed(host: Host, s: Session, writable: bool, buffer: Bytes, chunks: seq<Bytes>)
    ensures var d := Feed(buffer, chunks);
            Receive(host, s, writable, buffer, chunks) == (HandleAll(host, s, writable, d.bodies), d.rest)
    decreases |chunks|
  {
    if chunks != [] {
      var d := Drain(buffer + chunks[0]);
      ReceiveIsFeed(host, HandleAll(host, s, writable, d.bodies), writable, d.rest, chunks[1..]);
      HandleAllJoins(host, s, writable, d.bodies, Feed(d.rest, chunks[1..]).bodies);
    }
  }

  /** Two ways of cutting one stream leave the client in the same state with the same residual bytes. */
  lemma ClientIgnoresChunking(host: Host, s: Session, writable: bool, buffer: Bytes, chunks: seq<Bytes>,
                              others: seq<Bytes>)
    requires DecodeOne(buffer).NeedMore? && Concat(chunks) == Concat(others)
    ensures Receive(host, s, writable, buffer, chunks) == Receive(host, s, writable, buffer, others)
  {
    ReceiveIsFeed(host, s, writable, buffer, chunks);
    ReceiveIsFeed(host, s, writable, buffer, others);
    ChunkingIsIrrelevant(buffer, chunks);
    ChunkingIsIrrelevant(buffer, others);
  }

  /** Drain a buffer into a session: the session afterwards and the bytes left. */
  function Digest(host: Host, s: Session, writable: bool, buffer: Bytes): (Session, Bytes) {
    var d := Drain(buffer);
    (HandleAll(host, s, writable, d.bodies), d.rest)
  }

  lemma DigestStep(host: Host, s: Session, writable: bool, buffer: Bytes)
    ensures match DecodeOne(buffer)
            case NeedMore => Digest(host, s, writable, buffer) == (s, buffer)
            case Skipped(rest) => Digest(host, s, writable, buffer) == Digest(host, s, writable, rest)
            case Framed(body, rest) =>
              Digest(host, s, writable, buffer) == Digest(host, HandleBody(host, s, writable, body), writable, rest)
  {
    match DecodeOne(buffer)
    case NeedMore =>
    case Skipped(rest) =>
    case Framed(body, rest) =>
      assert ([body] + Drain(rest).bodies)[1..] == Drain(rest).bodies;
  }

  lemma ReceiveOne(host: Host, s: Session, writable: bool, buffer: Bytes, chunk: Bytes)
    ensures Receive(host, s, writable, buffer, [chunk]) == Digest(host, s, writable, buffer + chunk)
  {
    assert [chunk][1..] == [];
  }

  // ----- whole sessions -----

  /** The three invariants of the parts, together. */
  ghost predicate Sound(host: Host, s: Session) {
    Balanced(s.requests) && Readiness.Inv(s.ready) && Diagnostics.Inv(s.diagnostics, host.canon)
  }

  lemma ReadinessKept(r: Readiness.State, m: Message)
    requires Readiness.Inv(r)
    ensures Readiness.Inv(Readiness.HandleProgress(r, m.progress))
    ensures Readiness.Inv(Readiness.IndexingStarted(r)) && Readiness.Inv(Readiness.IndexingEnded(r))
  {
    Readiness.StepInv(r, Readiness.ProgressSeen(m.progress));
    Readiness.StepInv(r, Readiness.Started);
    Readiness.StepInv(r, Readiness.Ended);
  }

  lemma MessageTouches(host: Host, s: Session, writable: bool, m: Message)
    ensures var r := HandleMessage(host, s, writable, m);
            && (r.requests == s.requests || r.requests == Reply(s.requests, m))
            && (|| r.ready == s.ready || r.ready == Readiness.HandleProgress(s.ready, m.progress)
                || r.ready == Readiness.IndexingStarted(s.ready) || r.ready == Readiness.IndexingEnded(s.ready))
            && (|| r.diagnostics == s.diagnostics
                || r.diagnostics == Diagnostics.Publish(s.diagnostics, host.canon, m.uri))
  {
  }

  lemma MessageKeepsSound(host: Host, s: Session, writable: bool, m: Message, r: Session)
    requires Diagnostics.Canonical(host.canon) && Sound(host, s) && r == HandleMessage(host, s, writable, m)
    ensures Sound(host, r)
  {
    MessageTouches(host, s, writable, m);
    assert Readiness.Inv(r.ready) by {
      ReadinessKept(s.ready, m);
    }
    assert Balanced(r.requests) by {
      StepBalanced(s.requests, Received(m));
    }
    assert Diagnostics.Inv(r.diagnostics, host.canon) by {
      Diagnostics.PublishInv(s.diagnostics, host.canon, m.uri);
    }
  }

  lemma {:induction false} BodiesKeepSound(host: Host, s: Session, writable: bool, bodies: seq<Bytes>)
    requires Diagnostics.Canonical(host.canon) && Sound(host, s)
    ensures Sound(host, HandleAll(host, s, writable, bodies))
    decreases |bodies|
  {
    if bodies != [] {
      var m := host.parse(bodies[0]);
      if m.Some? {
        MessageKeepsSound(host, s, writable, m.value, HandleMessage(host, s, writable, m.value));
      }
      BodiesKeepSound(host, HandleBody(host, s, writable, bodies[0]), writable, bodies[1..]);
    }
  }

  /** What happens to a client: bytes arrive, or a caller, a timer or the process acts on one of its parts. */
  datatype Happening =
    | Arrived(chunk: Bytes, writable: bool)
    | OnRequests(e: Requests.Event)
    | OnReadiness(r: Readiness.Event)
    | OnDiagnostics(d: Diagnostics.Event)

  function Happen(host: Host, at: (Session, Bytes), h: Happening): (Session, Bytes) {
    match h
    case Arrived(chunk, writable) => Digest(host, at.0, writable, at.1 + chunk)
    case OnRequests(e) => (at.0.(requests := Requests.Step(at.0.requests, e)), at.1)
    case OnReadiness(r) => (at.0.(ready := Readiness.Step(at.0.ready, r)), at.1)
    case OnDiagnostics(d) => (at.0.(diagnostics := Diagnostics.Step(at.0.diagnostics, host.canon, d)), at.1)
  }

  const START := (Session(EMPTY, Readiness.INITIAL, Diagnostics.INITIAL, []), [])

  function Lived(host: Host, life: seq<Happening>): (Session, Bytes) {
    if life == [] then START else Happen(host, Lived(host, life[..|life| - 1]), life[|life| - 1])
  }

  /**
    Whatever bytes the server sends, cut up in whatever way, and whatever callers, timers and the
    process do in between: the request table balances, tokens mean indexing, and no waiter misses
    its publication.
   */
  lemma {:induction false} AlwaysSound(host: Host, life: seq<Happening>)
    requires Diagnostics.Canonical(host.canon)
    ensures Sound(host, Lived(host, life).0)
  {
    if life != [] {
      var at, h := Lived(host, life[..|life| - 1]), life[|life| - 1];
      AlwaysSound(host, life[..|life| - 1]);
      match h
      case Arrived(chunk, writable) => BodiesKeepSound(host, at.0, writable, Drain(at.1 + chunk).bodies);
      case OnRequests(e) => StepBalanced(at.0.requests, e);
      case OnReadiness(r) => Readiness.StepInv(at.0.ready, r);
      case OnDiagnostics(d) => Diagnostics.StepInv(at.0.diagnostics, host.canon, d);
    }
  }

  // ----- a life of the client is a run of each of its parts -----

  /** What the client owes the server for a message: null, "method not found", or nothing. */
  function Owed(m: Message): Option<Outgoing> {
    if m.id == Undefined then None
    else match m.verb
      case None => None
      case Some(CreateProgress) => Some(NullReply(m.id))
      case Some(OtherVerb(name)) => Some(MethodNotFound(m.id, OtherVerb(name)))
      case Some(_) => None
  }

  function ToReadiness(m: Message): seq<Readiness.Event> {
    match m.verb
    case Some(ProgressNote) => [Readiness.ProgressSeen(m.progress)]
    case Some(IndexingStarted) => [Readiness.Started]
    case Some(IndexingEnded) => [Readiness.Ended]
    case _ => []
  }

  function ToDiagnostics(m: Message): seq<Diagnostics.Event> {
    if m.verb == Some(PublishDiagnostics) then [Diagnostics.Published(m.uri)] else []
  }

  /**
    Every message reaches each part as its own event or not at all, whatever the state; and what the
    client owes for it, and nothing else, is written while the server can be written to.
   */
  lemma MessageDoes(host: Host, s: Session, writable: bool, m: Message)
    ensures var r := HandleMessage(host, s, writable, m);
            && r.requests == Requests.Step(s.requests, Received(m))
            && (ToReadiness(m) == [] ==> r.ready == s.ready)
            && (ToReadiness(m) != [] ==> r.ready == Readiness.Step(s.ready, ToReadiness(m)[0]))
            && (ToDiagnostics(m) == [] ==> r.diagnostics == s.diagnostics)
            && (ToDiagnostics(m) != [] ==>
                  r.diagnostics == Diagnostics.Step(s.diagnostics, host.canon, ToDiagnostics(m)[0]))
            && r.written == if Owed(m).Some? && writable && !s.requests.dead
                            then s.written + Encode(host.stringify(Owed(m).value)) else s.written
  {
  }

  /** One run for each part. */
  datatype Runs = Runs(requests: seq<Requests.Event>, ready: seq<Readiness.Event>, diagnostics: seq<Diagnostics.Event>)

  /** The session is where the three runs lead. */
  ghost predicate LedTo(host: Host, runs: Runs, s: Session) {
    && s.requests == Requests.After(runs.requests)
    && s.ready == Readiness.After(runs.ready)
    && s.diagnostics == Diagnostics.After(host.canon, runs.diagnostics)
  }

  function Extended(runs: Runs, m: Message): Runs {
    Runs(runs.requests + [Received(m)], runs.ready + ToReadiness(m), runs.diagnostics + ToDiagnostics(m))
  }

  function ExtendedBy(host: Host, runs: Runs, bodies: seq<Bytes>): Runs
    decreases |bodies|
  {
    if bodies == [] then runs
    else
      var m := host.parse(bodies[0]);
      ExtendedBy(host, if m.Some? then Extended(runs, m.value) else runs, bodies[1..])
  }

  lemma MessageLeads(host: Host, runs: Runs, s: Session, writable: bool, m: Message)
    requires LedTo(host, runs, s)
    ensures LedTo(host, Extended(runs, m), HandleMessage(host, s, writable, m))
  {
    MessageDoes(host, s, writable, m);
    Requests.AfterAppend(runs.requests, Received(m));
    if ToReadiness(m) != [] {
      Readiness.AfterAppend(runs.ready, ToReadiness(m)[0]);
      assert ToReadiness(m) == [ToReadiness(m)[0]];
    } else {
      assert runs.ready + [] == runs.ready;
    }
    if ToDiagnostics(m) != [] {
      Diagnostics.AfterAppend(host.canon, runs.diagnostics, ToDiagnostics(m)[0]);
      assert ToDiagnostics(m) == [ToDiagnostics(m)[0]];
    } else {
      assert runs.diagnostics + [] == runs.diagnostics;
    }
  }

  lemma {:induction false} BodiesLead(host: Host, runs: Runs, s: Session, writable: bool, bodies: seq<Bytes>)
    requires LedTo(host, runs, s)
    ensures LedTo(host, ExtendedBy(host, runs, bodies), HandleAll(host, s, writable, bodies))
    decreases |bodies|
  {
    if bodies != [] {
      var m := host.parse(bodies[0]);
      if m.Some? {
        MessageLeads(host, runs, s, writable, m.value);
      }
      BodiesLead(host, if m.Some? then Extended(runs, m.value) else runs, HandleBody(host, s, writable, bodies[0]),
                 writable, bodies[1..]);
    }
  }

  /** The runs a life consists of: the messages its chunks complete, and what the parts' own events are. */
  function RunsOf(host: Host, life: seq<Happening>): Runs {
    if life == [] then Runs([], [], [])
    else
      var before := life[..|life| - 1];
      var runs := RunsOf(host, before);
      match life[|life| - 1]
      case Arrived(chunk, _) => ExtendedBy(host, runs, Drain(Lived(host, before).1 + chunk).bodies)
      case OnRequests(e) => runs.(requests := runs.requests + [e])
      case OnReadiness(e) => runs.(ready := runs.ready + [e])
      case OnDiagnostics(e) => runs.(diagnostics := runs.diagnostics + [e])
  }

  /** So every theorem about runs of a part holds of the client, whatever its life. */
  lemma {:induction false} LifeIsThreeRuns(host: Host, life: seq<Happening>)
    ensures LedTo(host, RunsOf(host, life), Lived(host, life).0)
  {
    if life != [] {
      var before := life[..|life| - 1];
      var runs, at := RunsOf(host, before), Lived(host, before);
      LifeIsThreeRuns(host, before);
      match life[|life| - 1]
      case Arrived(chunk, writable) => BodiesLead(host, runs, at.0, writable, Drain(at.1 + chunk).bodies);
      case OnRequests(e) => Requests.AfterAppend(runs.requests, e);
      case OnReadiness(e) => Readiness.AfterAppend(runs.ready, e);
      case OnDiagnostics(e) => Diagnostics.AfterAppend(host.canon, runs.diagnostics, e);
    }
  }

  /** In any life, the response to a request in flight settles its promise with the message's error or result. */
  lemma ResponseSettlesPromise(host: Host, life: seq<Happening>, writable: bool, m: Message, id: nat)
    requires InFlight(Lived(host, life).0.requests, id) && m.id == Number(id) && m.verb.None?
    ensures Promise(HandleMessage(host, Lived(host, life).0, writable, m).requests, id)
            == Some(if m.error.Some? then Rejected(m.error.value) else Resolved(m.result))
  {
    LifeIsThreeRuns(host, life);
    MessageDoes(host, Lived(host, life).0, writable, m);
    ResponseSettles(RunsOf(host, life).requests, id, m);
    Requests.AfterAppend(RunsOf(host, life).requests, Received(m));
  }

  // ----- the loops over pending requests and waiters -----

  /** Reject every pending request and stop its timer. */
  method RejectAll(pending: set<nat>, calls: map<nat, seq<Outcome>>, armed: set<nat>)
    returns (calls': map<nat, seq<Outcome>>, armed': set<nat>)
    ensures armed' == armed - pending
    ensures calls' == map i | i in calls :: if i in pending then calls[i] + [Exited] else calls[i]
  {
    calls', armed' := calls, armed;
    var rest := pending;
    while rest != {}
      invariant rest <= pending
      invariant armed' == armed - (pending - rest)
      invariant calls'.Keys == calls.Keys
      invariant forall i :: i in calls ==> calls'[i] == if i in pending - rest then calls[i] + [Exited] else calls[i]
    {
      var id :| id in rest;
      rest := rest - {id};
      armed' := armed' - {id};
      if id in calls' {
        calls' := calls'[id := calls'[id] + [Exited]];
      }
    }
  }

  /** Answer every parked waiter alike. */
  method AnswerAll(parked: set<nat>, answers: map<nat, Readiness.Answer>, a: Readiness.Answer)
    returns (answers': map<nat, Readiness.Answer>)
    ensures answers' == map w | w in answers.Keys + parked :: if w in parked then a else answers[w]
  {
    answers' := answers;
    var rest := parked;
    while rest != {}
      invariant rest <= parked
      invariant answers'.Keys == answers.Keys + (parked - rest)
      invariant forall w :: w in answers' ==> answers'[w] == if w in parked - rest then a else answers[w]
    {
      var w :| w in rest;
      rest := rest - {w};
      answers' := answers'[w := a];
    }
  }

  /** Answer the waiters a publication satisfies and keep the others parked. */
  method SettleDue(parked: map<nat, Diagnostics.Waiter>, verdicts: map<nat, Diagnostics.Verdict>, uri: string,
                   count: nat)
    returns (parked': map<nat, Diagnostics.Waiter>, verdicts': map<nat, Diagnostics.Verdict>)
    ensures var due := Diagnostics.Due(parked, uri, count);
            && parked' == parked - due
            && verdicts' == verdicts + map w | w in due :: Diagnostics.Verdict(parked[w], true, count)
  {
    parked', verdicts' := parked, verdicts;
    ghost var due := Diagnostics.Due(parked, uri, count);
    var rest := parked.Keys;
    while rest != {}
      invariant rest <= parked.Keys
      invariant parked' == parked - (due - rest)
      invariant verdicts'.Keys == verdicts.Keys + (due - rest)
      invariant forall w :: w in due - rest ==> verdicts'[w] == Diagnostics.Verdict(parked[w], true, count)
      invariant forall w :: w in verdicts && w !in due - rest ==> verdicts'[w] == verdicts[w]
    {
      var w :| w in rest;
      rest := rest - {w};
      if parked'[w].uri == uri && count > parked'[w].since {
        verdicts' := verdicts'[w := Diagnostics.Verdict(parked'[w], true, count)];
        parked' := parked' - {w};
      }
    }
    assert due - rest == due;
  }

  /**
    The client object. Its fields are grouped into the three records the models above step:
    the request table, the readiness state and the diagnostics state.
   */
  class Client {
    const host: Host
    var buffer: Bytes
    var written: Bytes
    var writable: bool
    var requests: Table
    var ready: Readiness.State
    var diagnostics: Diagnostics.State

    function State(): Session
      reads this
    {
      Session(requests, ready, diagnostics, written)
    }

    /** What every method keeps: the table balances, tokens mean indexing, no waiter misses its publication. */
    ghost predicate Valid()
      reads this
    {
      Diagnostics.Canonical(host.canon) && Sound(host, State())
    }

    constructor (host: Host)
      requires Diagnostics.Canonical(host.canon)
      ensures this.host == host && buffer == [] && writable && Valid()
      ensures State() == Session(EMPTY, Readiness.INITIAL, Diagnostics.INITIAL, [])
    {
      this.host := host;
      buffer, written, writable := [], [], true;
      requests, ready, diagnostics := EMPTY, Readiness.INITIAL, Diagnostics.INITIAL;
    }

    /** Write one framed message; fails when the server is gone. */
    method Send(o: Outgoing) returns (sent: bool)
      modifies this`written
      ensures sent == (writable && !requests.dead)
      ensures written == Written(host, old(written), sent, o)
    {
      if requests.dead || !writable {
        return false;
      }
      written := written + Encode(host.stringify(o));
      return true;
    }

    /** Issue a request: its promise is `id`, rejected on the spot when the message cannot be sent. */
    method Request() returns (id: nat)
      requires Valid()
      modifies this`requests, this`written
      ensures Valid()
      ensures id == old(requests).nextId
      ensures requests == Issue(old(requests), writable)
      ensures written == Written(host, old(written), writable && !requests.dead, RequestOut(id))
    {
      id := requests.nextId;
      requests := requests.(nextId := id + 1);
      requests := requests.(armed := requests.armed + {id});
      requests := requests.(pending := requests.pending + {id}, calls := requests.calls[id := []]);
      var sent := Send(RequestOut(id));
      if !sent {
        requests := requests.(calls := requests.calls[id := [NotConnected]], refused := requests.refused + {id});
      }
      StepKeeps(old(requests), Issued(writable), requests);
    }

    method OnRequestTimer(id: nat)
      requires id in requests.armed
      requires Valid()
      modifies this`requests
      ensures Valid()
      ensures requests == Expire(old(requests), id)
    {
      requests := requests.(armed := requests.armed - {id});
      requests := requests.(pending := requests.pending - {id});
      requests := requests.(calls := Called(requests, id, TimedOut));
      StepKeeps(old(requests), TimerFired(id), requests);
    }

    /** The server process is gone: every pending request is rejected. */
    method OnProcExit()
      requires Valid()
      modifies this`requests
      ensures Valid()
      ensures requests == Exit(old(requests))
    {
      requests := requests.(dead := true);
      var calls, armed := RejectAll(requests.pending, requests.calls, requests.armed);
      requests := requests.(calls := calls, armed := armed, pending := {});
      StepKeeps(old(requests), ProcessExited, requests);
    }

    method DidOpen()
      requires Valid()
      modifies this`ready
      ensures Valid()
      ensures ready == Readiness.DidOpen(old(ready))
    {
      ready := ready.(now := ready.now.(warm := ready.now.warm + 1));
      Readiness.StepInv(old(ready), Readiness.Opened);
    }

    /** Answer every parked waiter, when fresh. */
    method ResolveReadyWaiters()
      modifies this`ready
      ensures ready == Readiness.ReleaseReady(old(ready))
    {
      if Readiness.FreshnessOf(ready.now) != Readiness.Fresh {
        return;
      }
      var answers := AnswerAll(ready.parked, ready.answers, Readiness.Answer(Readiness.Fresh, ready.now));
      ready := ready.(answers := answers, parked := {});
    }

    method MarkIndexingStarted()
      modifies this`ready
      ensures ready == Readiness.IndexingStarted(old(ready))
    {
      ready := ready.(now := ready.now.(indexing := Readiness.Indexing));
    }

    method MarkIndexingEnded()
      modifies this`ready
      ensures ready == Readiness.IndexingEnded(old(ready))
    {
      var indexing := if ready.now.tokens != {} then Readiness.Indexing else Readiness.Ready;
      ready := ready.(now := ready.now.(indexing := indexing));
      ResolveReadyWaiters();
    }

    method HandleProgress(p: Progress)
      modifies this`ready
      ensures ready == Readiness.HandleProgress(old(ready), p)
    {
      if p.kind == Some("begin") {
        ready := ready.(now := ready.now.(tokens := ready.now.tokens + {p.token}));
        MarkIndexingStarted();
      } else if p.kind == Some("end") {
        ready := ready.(now := ready.now.(tokens := ready.now.tokens - {p.token}));
        MarkIndexingEnded();
      }
    }

    /** Answer at once, or park under the returned number. */
    method WaitForReady(timeoutMs: int) returns (waiter: nat)
      requires Valid()
      modifies this`ready
      ensures Valid()
      ensures waiter == old(ready).nextWaiter
      ensures ready == Readiness.WaitForReady(old(ready), timeoutMs)
    {
      waiter := ready.nextWaiter;
      ready := ready.(nextWaiter := waiter + 1);
      var freshness := Readiness.FreshnessOf(ready.now);
      if freshness == Readiness.Fresh || timeoutMs <= 0 {
        ready := ready.(answers := ready.answers[waiter := Readiness.Answer(freshness, ready.now)]);
      } else {
        ready := ready.(parked := ready.parked + {waiter});
      }
      Readiness.WaitInv(old(ready), timeoutMs);
    }

    method OnReadyTimer(waiter: nat)
      requires waiter in ready.parked
      requires Valid()
      modifies this`ready
      ensures Valid()
      ensures ready == Readiness.ReadyTimerFires(old(ready), waiter)
    {
      ready := ready.(parked := ready.parked - {waiter});
      var answer := Readiness.Answer(Readiness.FreshnessOf(ready.now), ready.now);
      ready := ready.(answers := ready.answers[waiter := answer]);
      Readiness.StepInv(old(ready), Readiness.ReadyTimerFired(waiter));
    }

    method DecideWait(wait: nat, result: bool, reason: string)
      modifies this`ready
      ensures ready == Readiness.Decide(old(ready), wait, result, reason)
    {
      ready := ready.(waits := ready.waits[wait := Readiness.Decided(Readiness.WaitResult(result, reason), ready.now)]);
    }

    /** The synchronous stretch of the wait for the index between two sleeps. */
    method PollIndexReady(wait: nat, elapsed: int, settleMs: int, remaining: int)
      requires Valid()
      requires wait < ready.nextWait
      modifies this`ready
      ensures Valid()
      ensures ready == Readiness.Poll(old(ready), wait, elapsed, settleMs, remaining)
    {
      Readiness.PollInv(ready, wait, elapsed, settleMs, remaining);
      var now := ready.now;
      if elapsed < settleMs && now.indexing != Readiness.Indexing {
        if Readiness.FreshnessOf(now) == Readiness.Fresh {
          DecideWait(wait, true, "ready_no_index_needed");
        } else {
          ready := ready.(waits := ready.waits[wait := Readiness.Polling]);
        }
        return;
      }
      if now.indexing != Readiness.Indexing && now.tokens == {} {
        if now.warm > 0 {
          DecideWait(wait, true, "no_progress_signalled");
        } else {
          DecideWait(wait, false, "cold_no_warm");
        }
        return;
      }
      var waiter := WaitForReady(remaining);
      ready := ready.(waits := ready.waits[wait := Readiness.Waiting(waiter, now)]);
    }

    method WaitForIndexReady(elapsed: int, settleMs: int, remaining: int) returns (wait: nat)
      requires Valid()
      modifies this`ready
      ensures Valid()
      ensures wait == old(ready).nextWait
      ensures ready == Readiness.WaitForIndexReady(old(ready), elapsed, settleMs, remaining)
    {
      wait := ready.nextWait;
      ready := ready.(nextWait := wait + 1);
      Readiness.NumberedInv(old(ready));
      if Readiness.FreshnessOf(ready.now) == Readiness.Fresh {
        DecideWait(wait, true, "already_ready");
        Readiness.StepKeeps(old(ready), Readiness.IndexWaitBegun(elapsed, settleMs, remaining), ready);
        return;
      }
      PollIndexReady(wait, elapsed, settleMs, remaining);
    }

    method WaitForDiagnostics(rawUri: string, since: nat, waitMs: int) returns (w: nat)
      requires Valid()
      modifies this`diagnostics
      ensures Valid()
      ensures w == old(diagnostics).next
      ensures diagnostics == Diagnostics.WaitFor(old(diagnostics), host.canon, rawUri, since, waitMs)
    {
      Diagnostics.WaitInv(diagnostics, host.canon, rawUri, since, waitMs);
      var waiter := Diagnostics.Waiter(host.canon(rawUri), since);
      w := diagnostics.next;
      diagnostics := diagnostics.(next := w + 1);
      var count := Diagnostics.Count(diagnostics.published, host.canon, waiter.uri);
      if count > since {
        diagnostics := diagnostics.(verdicts := diagnostics.verdicts[w := Diagnostics.Verdict(waiter, true, count)]);
      } else if waitMs <= 0 {
        diagnostics := diagnostics.(verdicts := diagnostics.verdicts[w := Diagnostics.Verdict(waiter, false, count)]);
      } else {
        diagnostics := diagnostics.(parked := diagnostics.parked[w := waiter]);
      }
    }

    method OnDiagnosticsTimer(w: nat)
      requires w in diagnostics.parked
      requires Valid()
      modifies this`diagnostics
      ensures Valid()
      ensures diagnostics == Diagnostics.TimerFires(old(diagnostics), host.canon, w)
    {
      var waiter := diagnostics.parked[w];
      var count := Diagnostics.Count(diagnostics.published, host.canon, waiter.uri);
      diagnostics := diagnostics.(parked := diagnostics.parked - {w});
      diagnostics := diagnostics.(verdicts := diagnostics.verdicts[w := Diagnostics.Verdict(waiter, false, count)]);
      Diagnostics.TimerInv(old(diagnostics), host.canon, w);
    }

    /** Count a publication and resolve the waiters it satisfies. */
    method OnPublish(rawUri: Option<string>)
      modifies this`diagnostics
      ensures diagnostics == Diagnostics.Publish(old(diagnostics), host.canon, rawUri)
    {
      if rawUri.None? || host.canon(rawUri.value) == "" {
        return;
      }
      var uri := host.canon(rawUri.value);
      var count := Diagnostics.Count(diagnostics.published, host.canon, uri) + 1;
      var parked, verdicts := SettleDue(diagnostics.parked, diagnostics.verdicts, uri, count);
      var published := diagnostics.published[uri := count];
      diagnostics := diagnostics.(published := published, parked := parked, verdicts := verdicts);
    }

    /** Settle the request a response answers. */
    method OnResponse(m: Message)
      requires Answers(requests, m)
      modifies this`requests
      ensures requests == Reply(old(requests), m)
    {
      var id := m.id.n;
      requests := requests.(pending := requests.pending - {id});
      requests := requests.(armed := requests.armed - {id});
      if m.error.Some? {
        requests := requests.(calls := Called(requests, id, Rejected(m.error.value)));
      } else {
        requests := requests.(calls := Called(requests, id, Resolved(m.result)));
      }
    }

    method Handle(m: Message)
      requires Valid()
      modifies this`written, this`requests, this`ready, this`diagnostics
      ensures Valid()
      ensures State() == HandleMessage(host, old(State()), writable, m)
    {
      MessageKeepsSound(host, State(), writable, m, HandleMessage(host, State(), writable, m));
      if m.verb == Some(CreateProgress) && m.id != Undefined {
        var _ := Send(NullReply(m.id));
      } else if m.verb == Some(ProgressNote) {
        HandleProgress(m.progress);
      } else if m.verb == Some(IndexingStarted) {
        MarkIndexingStarted();
      } else if m.verb == Some(IndexingEnded) {
        MarkIndexingEnded();
      } else if Answers(requests, m) {
        OnResponse(m);
      } else if m.verb == Some(PublishDiagnostics) {
        OnPublish(m.uri);
      } else if m.id != Undefined && m.verb.Some? {
        var _ := Send(MethodNotFound(m.id, m.verb.value));
      }
    }

    /** A chunk of the server's output: decode and handle every complete frame, keep the rest. */
    method OnData(chunk: Bytes)
      requires Valid()
      modifies this`buffer, this`written, this`requests, this`ready, this`diagnostics
      ensures Valid()
      ensures (State(), buffer) == Receive(host, old(State()), writable, old(buffer), [chunk])
    {
      ReceiveOne(host, State(), writable, buffer, chunk);
      buffer := buffer + chunk;
      while true
        invariant Valid()
        invariant Digest(host, State(), writable, buffer) == Receive(host, old(State()), writable, old(buffer), [chunk])
        decreases |buffer|
      {
        DigestStep(host, State(), writable, buffer);
        match DecodeOne(buffer)
        case NeedMore =>
          return;
        case Skipped(rest) =>
          buffer := rest;
        case Framed(body, rest) =>
          buffer := rest;
          var parsed := host.parse(body);
          if parsed.Some? {
            Handle(parsed.value);
          }
      }
    }
  }
}
