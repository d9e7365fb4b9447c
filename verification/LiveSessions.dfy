/**
  The live session manager: at most one language server per (language, project root), shared by
  concurrent callers, evicted when it crashes and shut down when it has been idle. Every
  synchronous stretch between two awaits is one atomic step; steps interleave freely.
 */
module LiveSessions {
  import opened Prelude

  /** The cache key built from a language and a project root. */
  type Key = string

  datatype Phase = Starting | Started | Failed

  /** A spawned client: `asked` once its shutdown has been requested, `watched` once its exit evicts its session. */
  datatype Client = Client(key: Key, phase: Phase, dead: bool, asked: bool, watched: bool, inFlight: nat)

  /**
    `sessions` and `starting` are the two module-level maps; `timers` are the sessions with an
    armed idle timer, and `unfinished` the starts whose `finally` block has not run.
   */
  datatype State = State(clients: map<nat, Client>, sessions: map<Key, nat>, starting: map<Key, nat>,
                         timers: set<nat>, unfinished: set<nat>, next: nat)

  const INITIAL := State(map[], map[], map[], {}, {}, 0)

  /** What an acquiring caller is given. */
  datatype Ticket = Session(client: nat) | Awaiting(start: nat) | Unsupported

  // ----- the atomic steps -----

  predicate Usable(s: State, key: Key) {
    key in s.sessions && s.sessions[key] in s.clients && !s.clients[s.sessions[key]].dead
  }

  function Acquire(s: State, key: Key, supported: bool): (State, Ticket) {
    if Usable(s, key) then (s.(timers := s.timers + {s.sessions[key]}), Session(s.sessions[key]))
    else
      var s' := s.(sessions := s.sessions - {key});
      if key in s.starting then (s', Awaiting(s.starting[key]))
      else if !supported then (s', Unsupported)
      else
        var c := s.next;
        (s'.(clients := s.clients[c := Client(key, Starting, false, false, false, 0)],
             starting := s.starting[key := c], unfinished := s.unfinished + {c}, next := c + 1),
         Awaiting(c))
  }

  predicate IsStarting(s: State, c: nat) {
    c in s.clients && s.clients[c].phase == Starting
  }

  function StartCompletes(s: State, c: nat): State
    requires IsStarting(s, c)
  {
    s.(clients := s.clients[c := s.clients[c].(phase := Started, watched := true)],
       sessions := s.sessions[s.clients[c].key := c], timers := s.timers + {c})
  }

  function StartFails(s: State, c: nat): State
    requires IsStarting(s, c)
  {
    s.(clients := s.clients[c := s.clients[c].(phase := Failed)])
  }

  /** The `finally` block of the call that made the start: it deletes by key. */
  function Finally(s: State, c: nat): State
    requires c in s.clients
  {
    s.(starting := s.starting - {s.clients[c].key}, unfinished := s.unfinished - {c})
  }

  function Crash(s: State, c: nat): State
    requires c in s.clients
  {
    var key := s.clients[c].key;
    s.(clients := s.clients[c := s.clients[c].(dead := true, inFlight := 0)],
       sessions := if s.clients[c].watched && key in s.sessions && s.sessions[key] == c
                   then s.sessions - {key} else s.sessions)
  }

  predicate IsCurrent(s: State, c: nat)
    requires c in s.clients
  {
    s.clients[c].key in s.sessions && s.sessions[s.clients[c].key] == c
  }

  function IdleTick(s: State, c: nat): State
    requires c in s.clients
  {
    var s' := s.(timers := s.timers - {c});
    if !IsCurrent(s, c) then s'
    else if s.clients[c].inFlight > 0 then s
    else s'.(sessions := s.sessions - {s.clients[c].key}, clients := s.clients[c := s.clients[c].(asked := true)])
  }

  datatype Event =
    | Acquired(key: Key, supported: bool)
    | StartCompleted(c: nat)
    | StartFailed(c: nat)
    | FinallyRan(c: nat)
    | Crashed(c: nat)
    | IdleTicked(c: nat)
    | ParentLost(c: nat)
    | Requests(c: nat, inFlight: nat)

  /**
    An exit rejects the pending `initialize`, so the start of a client that has died can only fail. A
    start completes in the reactions to its response, between which no exit is
    reported; only then does it begin to watch its parent process.
   */
  predicate Enabled(s: State, e: Event) {
    match e
    case Acquired(_, _) => true
    case StartCompleted(c) => IsStarting(s, c) && !s.clients[c].dead
    case StartFailed(c) => IsStarting(s, c)
    case FinallyRan(c) => c in s.clients && c in s.unfinished && !IsStarting(s, c)
    case Crashed(c) => c in s.clients
    case IdleTicked(c) => c in s.clients && c in s.timers
    case ParentLost(c) => c in s.clients && s.clients[c].phase == Started && !s.clients[c].dead
    case Requests(c, _) => c in s.clients
  }

  /** An event that is not enabled does not happen. */
  function Step(s: State, e: Event): State {
    if !Enabled(s, e) then s
    else match e
      case Acquired(key, supported) => Acquire(s, key, supported).0
      case StartCompleted(c) => StartCompletes(s, c)
      case StartFailed(c) => StartFails(s, c)
      case FinallyRan(c) => Finally(s, c)
      case Crashed(c) => Crash(s, c)
      case IdleTicked(c) => IdleTick(s, c)
      case ParentLost(c) => s.(clients := s.clients[c := s.clients[c].(asked := true)])
      case Requests(c, n) => s.(clients := s.clients[c := s.clients[c].(inFlight := n)])
  }

  function After(events: seq<Event>): State {
    if events == [] then INITIAL else Step(After(events[..|events| - 1]), events[|events| - 1])
  }

  // ----- the invariant -----

  /** A successfully started client that is neither dead nor asked to shut down. */
  predicate Live(s: State, c: nat) {
    c in s.clients && s.clients[c].phase == Started && !s.clients[c].dead && !s.clients[c].asked
  }

  /** Whatever `sessions` holds was started and is not dead, evicts itself on exit and has its idle timer armed. */
  ghost predicate SessionsOk(s: State) {
    forall key :: key in s.sessions ==>
      var c := s.sessions[key];
      && c in s.clients && s.clients[c].key == key && s.clients[c].phase == Started
      && !s.clients[c].dead && s.clients[c].watched && c in s.timers
  }

  /** A live client is the session of its key. */
  ghost predicate LiveIsCurrent(s: State) {
    forall c :: Live(s, c) ==> IsCurrent(s, c)
  }

  /** A start that has not settled: its key has no session yet, and nobody asks its client to stop. */
  predicate UnderWay(s: State, c: nat)
    requires c in s.clients
  {
    c in s.unfinished && s.clients[c].key !in s.sessions && !s.clients[c].asked
  }

  /** Every start under way is the one registered for its key. */
  ghost predicate StartsOk(s: State) {
    && (forall c :: IsStarting(s, c) ==> UnderWay(s, c))
    && (forall c :: c in s.unfinished ==>
          c in s.clients && s.clients[c].key in s.starting && s.starting[s.clients[c].key] == c)
    && (forall key :: key in s.starting ==> s.starting[key] in s.unfinished && s.clients[s.starting[key]].key == key)
  }

  ghost predicate Inv(s: State) {
    && (forall c :: c in s.clients ==> c < s.next)
    && SessionsOk(s) && StartsOk(s) && LiveIsCurrent(s)
  }

  /** The session of a key may be dropped when its client is not live. */
  lemma DropInv(s: State, key: Key)
    requires Inv(s) && !Usable(s, key)
    ensures Inv(s.(sessions := s.sessions - {key}))
  {
    var r := s.(sessions := s.sessions - {key});
    forall c | Live(r, c) ensures IsCurrent(r, c) {
      assert Live(s, c);
    }
    forall c | IsStarting(r, c) ensures UnderWay(r, c) {
      assert IsStarting(s, c);
    }
  }

  /** The state in which client `c` has just been spawned for a key. */
  function Spawned(s: State, key: Key): State {
    var c := s.next;
    s.(clients := s.clients[c := Client(key, Starting, false, false, false, 0)],
       starting := s.starting[key := c], unfinished := s.unfinished + {c}, next := c + 1)
  }

  lemma SpawnStartsOk(s: State, key: Key)
    requires Inv(s) && key !in s.sessions && key !in s.starting
    ensures StartsOk(Spawned(s, key))
  {
    var r := Spawned(s, key);
    forall c | IsStarting(r, c) ensures UnderWay(r, c) {
      assert c != s.next ==> IsStarting(s, c);
    }
  }

  lemma SpawnInv(s: State, key: Key)
    requires Inv(s) && key !in s.sessions && key !in s.starting
    ensures Inv(Spawned(s, key))
  {
    var r := Spawned(s, key);
    SpawnStartsOk(s, key);
    forall c | Live(r, c) ensures IsCurrent(r, c) {
      assert Live(s, c);
    }
  }

  lemma AcquireInv(s: State, key: Key, supported: bool)
    requires Inv(s)
    ensures Inv(Acquire(s, key, supported).0)
  {
    if Usable(s, key) {
      TouchInv(s, s.sessions[key]);
    } else {
      var s' := s.(sessions := s.sessions - {key});
      DropInv(s, key);
      if key !in s.starting && supported {
        SpawnInv(s', key);
        assert Acquire(s, key, supported).0 == Spawned(s', key);
      }
    }
  }

  /** Arming one more timer. */
  lemma TouchInv(s: State, c: nat)
    requires Inv(s)
    ensures Inv(s.(timers := s.timers + {c}))
  {
    var r := s.(timers := s.timers + {c});
    forall d | Live(r, d) ensures IsCurrent(r, d) {
      assert Live(s, d);
    }
    forall d | IsStarting(r, d) ensures UnderWay(r, d) {
      assert IsStarting(s, d);
    }
  }

  lemma CompleteInv(s: State, c: nat)
    requires Inv(s) && IsStarting(s, c) && !s.clients[c].dead
    ensures Inv(StartCompletes(s, c))
  {
    var r := StartCompletes(s, c);
    forall d | IsStarting(r, d) ensures UnderWay(r, d) {
      assert IsStarting(s, d);
    }
    forall d | Live(r, d) ensures IsCurrent(r, d) {
      assert d != c ==> Live(s, d);
    }
  }

  lemma FailInv(s: State, c: nat)
    requires Inv(s) && IsStarting(s, c)
    ensures Inv(StartFails(s, c))
  {
    var r := StartFails(s, c);
    forall d | IsStarting(r, d) ensures UnderWay(r, d) {
      assert IsStarting(s, d);
    }
    forall d | Live(r, d) ensures IsCurrent(r, d) {
      assert Live(s, d);
    }
  }

  lemma FinallyInv(s: State, c: nat)
    requires Inv(s) && c in s.unfinished && !IsStarting(s, c)
    ensures Inv(Finally(s, c))
  {
    var r := Finally(s, c);
    forall d | Live(r, d) ensures IsCurrent(r, d) {
      assert Live(s, d);
    }
    forall d | IsStarting(r, d) ensures UnderWay(r, d) {
      assert IsStarting(s, d);
    }
  }

  /** A client's own flags may change: it does not become live again, or dead as a session, or asked as it starts. */
  predicate FlagsMayBecome(s: State, c: nat, k: Client)
    requires c in s.clients
  {
    && k.key == s.clients[c].key && k.phase == s.clients[c].phase && k.watched == s.clients[c].watched
    && (k.dead || k.asked || (!s.clients[c].dead && !s.clients[c].asked))
    && (k.dead ==> s.clients[c].dead || !IsCurrent(s, c)) && (k.asked && IsStarting(s, c) ==> s.clients[c].asked)
  }

  lemma FlagsStartsOk(s: State, c: nat, k: Client)
    requires StartsOk(s) && c in s.clients && FlagsMayBecome(s, c, k)
    ensures StartsOk(s.(clients := s.clients[c := k]))
  {
    var r := s.(clients := s.clients[c := k]);
    forall d | IsStarting(r, d) ensures UnderWay(r, d) {
      assert IsStarting(s, d);
    }
  }

  lemma FlagsLive(s: State, c: nat, k: Client)
    requires LiveIsCurrent(s) && c in s.clients && FlagsMayBecome(s, c, k)
    ensures LiveIsCurrent(s.(clients := s.clients[c := k]))
  {
    var r := s.(clients := s.clients[c := k]);
    forall d | Live(r, d) ensures IsCurrent(r, d) {
      assert Live(s, d);
    }
  }

  lemma FlagsInv(s: State, c: nat, k: Client)
    requires Inv(s) && c in s.clients && FlagsMayBecome(s, c, k)
    ensures Inv(s.(clients := s.clients[c := k]))
  {
    FlagsStartsOk(s, c, k);
    FlagsLive(s, c, k);
  }

  /** A session may be removed once its client is dead or asked to stop; its timer may go with it. */
  lemma RemoveInv(s: State, c: nat, timers: set<nat>)
    requires Inv(s) && c in s.clients && IsCurrent(s, c) && (s.clients[c].dead || s.clients[c].asked)
    requires s.timers - {c} <= timers
    ensures Inv(s.(sessions := s.sessions - {s.clients[c].key}, timers := timers))
  {
    var r := s.(sessions := s.sessions - {s.clients[c].key}, timers := timers);
    forall d | Live(r, d) ensures IsCurrent(r, d) {
      assert Live(s, d);
    }
    forall d | IsStarting(r, d) ensures UnderWay(r, d) {
      assert IsStarting(s, d);
    }
  }

  /** The timer of a client that is no session may be forgotten. */
  lemma ForgetTimerInv(s: State, c: nat)
    requires Inv(s) && c in s.clients && !IsCurrent(s, c)
    ensures Inv(s.(timers := s.timers - {c}))
  {
    var r := s.(timers := s.timers - {c});
    forall d | Live(r, d) ensures IsCurrent(r, d) {
      assert Live(s, d);
    }
    forall d | IsStarting(r, d) ensures UnderWay(r, d) {
      assert IsStarting(s, d);
    }
  }

  /** The exit of the current session's client evicts it in the same step. */
  lemma EvictInv(s: State, c: nat)
    requires Inv(s) && c in s.clients && IsCurrent(s, c)
    ensures Inv(Crash(s, c))
  {
    var r := Crash(s, c);
    assert s.clients[c].watched;
    forall d | Live(r, d) ensures IsCurrent(r, d) {
      assert Live(s, d);
    }
    forall d | IsStarting(r, d) ensures UnderWay(r, d) {
      assert IsStarting(s, d);
    }
  }

  lemma CrashInv(s: State, c: nat)
    requires Inv(s) && c in s.clients
    ensures Inv(Crash(s, c))
  {
    if IsCurrent(s, c) {
      EvictInv(s, c);
    } else {
      var k := s.clients[c].(dead := true, inFlight := 0);
      FlagsInv(s, c, k);
      assert Crash(s, c) == s.(clients := s.clients[c := k]);
    }
  }

  lemma IdleInv(s: State, c: nat)
    requires Inv(s) && c in s.clients
    ensures Inv(IdleTick(s, c))
  {
    if !IsCurrent(s, c) {
      ForgetTimerInv(s, c);
    } else if s.clients[c].inFlight == 0 {
      var k := s.clients[c].(asked := true);
      FlagsInv(s, c, k);
      var r := s.(clients := s.clients[c := k]);
      RemoveInv(r, c, s.timers - {c});
      assert IdleTick(s, c) == r.(sessions := r.sessions - {k.key}, timers := s.timers - {c});
    }
  }

  lemma StepInv(s: State, e: Event)
    requires Inv(s)
    ensures Inv(Step(s, e))
  {
    if Enabled(s, e) {
      match e
      case Acquired(key, supported) => AcquireInv(s, key, supported);
      case StartCompleted(c) => CompleteInv(s, c);
      case StartFailed(c) => FailInv(s, c);
      case FinallyRan(c) => FinallyInv(s, c);
      case Crashed(c) => CrashInv(s, c);
      case IdleTicked(c) => IdleInv(s, c);
      case ParentLost(c) => FlagsInv(s, c, s.clients[c].(asked := true));
      case Requests(c, n) => FlagsInv(s, c, s.clients[c].(inFlight := n));
    }
  }

  lemma {:induction false} AlwaysInv(events: seq<Event>)
    ensures Inv(After(events))
  {
    if events != [] {
      AlwaysInv(events[..|events| - 1]);
      StepInv(After(events[..|events| - 1]), events[|events| - 1]);
    }
  }

  // ----- what the manager promises -----

  /** Over every interleaving: one live client per key at most, and it is the one callers are given. */
  lemma OneLiveClientPerKey(events: seq<Event>, c: nat, d: nat)
    requires var s := After(events); Live(s, c) && Live(s, d) && s.clients[c].key == s.clients[d].key
    ensures c == d && IsCurrent(After(events), c)
  {
    AlwaysInv(events);
  }

  /** Over every interleaving: at most one start per key is under way, and it is the one concurrent callers join. */
  lemma OneStartPerKey(events: seq<Event>, c: nat, supported: bool)
    requires IsStarting(After(events), c)
    ensures var s := After(events);
            var (s', ticket) := Acquire(s, s.clients[c].key, supported);
            && ticket == Awaiting(c) && s'.clients == s.clients
            && forall d :: IsStarting(s, d) && s.clients[d].key == s.clients[c].key ==> d == c
  {
    AlwaysInv(events);
  }

  /**
    A session returned at once is that of a client of the key, started and not known to be dead. An
    exit has evicted its session before anyone can ask, so the test for a dead client never decides.
   */
  lemma NoDeadSessionHandedOut(events: seq<Event>, key: Key, supported: bool)
    ensures var (s', ticket) := Acquire(After(events), key, supported);
            && (ticket.Session? <==> key in After(events).sessions)
            && (ticket.Session? ==>
                  var c := ticket.client;
                  c in s'.clients && s'.clients[c].key == key && s'.clients[c].phase == Started
                  && !s'.clients[c].dead && IsCurrent(s', c))
  {
    AlwaysInv(events);
  }

  /** Clients are never forgotten and keep their key; a start that has settled stays settled as it was. */
  lemma StepKeepsClient(s: State, e: Event, c: nat)
    requires Inv(s) && c in s.clients
    ensures c in Step(s, e).clients && Step(s, e).clients[c].key == s.clients[c].key
    ensures s.clients[c].phase != Starting ==> Step(s, e).clients[c].phase == s.clients[c].phase
    ensures s.clients[c].dead ==> Step(s, e).clients[c].dead
  {
  }

  lemma {:induction false} RunKeepsClient(events: seq<Event>, more: seq<Event>, c: nat)
    requires c in After(events).clients
    ensures var k, k' := After(events).clients[c], After(events + more);
            && c in k'.clients && k'.clients[c].key == k.key
            && (k.phase != Starting ==> k'.clients[c].phase == k.phase) && (k.dead ==> k'.clients[c].dead)
    decreases |more|
  {
    if more == [] {
      assert events + more == events;
    } else {
      var n := |more| - 1;
      RunKeepsClient(events, more[..n], c);
      AfterAppend(events + more[..n], more[n]);
      assert events + more == events + more[..n] + [more[n]];
      AlwaysInv(events + more[..n]);
      StepKeepsClient(After(events + more[..n]), more[n], c);
    }
  }

  lemma AfterAppend(events: seq<Event>, e: Event)
    ensures After(events + [e]) == Step(After(events), e)
  {
    assert (events + [e])[..|events|] == events;
  }

  /** What can run between a start's completion and the resumption of its callers: no exit and no timer. */
  predicate IsReaction(e: Event) {
    !e.Crashed? && !e.IdleTicked? && !e.ParentLost?
  }

  lemma ReactionKeepsLive(s: State, e: Event, c: nat)
    requires Inv(s) && Live(s, c) && IsReaction(e)
    ensures Live(Step(s, e), c)
  {
  }

  lemma {:induction false} ReactionsKeepLive(events: seq<Event>, more: seq<Event>, c: nat)
    requires Live(After(events), c) && forall e :: e in more ==> IsReaction(e)
    ensures Live(After(events + more), c)
    decreases |more|
  {
    if more == [] {
      assert events + more == events;
    } else {
      var n := |more| - 1;
      ReactionsKeepLive(events, more[..n], c);
      AfterAppend(events + more[..n], more[n]);
      assert events + more == events + more[..n] + [more[n]];
      AlwaysInv(events + more[..n]);
      ReactionKeepsLive(After(events + more[..n]), more[n], c);
    }
  }

  /**
    What a caller that joined a start is given when the start completes: the client of that start. It
    has the caller's key, and when the caller resumes it is started, neither dead nor asked to stop,
    and the current session.
   */
  lemma AwaitedSession(events: seq<Event>, key: Key, supported: bool, during: seq<Event>, more: seq<Event>)
    requires Acquire(After(events), key, supported).1.Awaiting?
    requires Enabled(After(events + [Acquired(key, supported)] + during),
                     StartCompleted(Acquire(After(events), key, supported).1.start))
    requires forall e :: e in more ==> IsReaction(e)
    ensures var c := Acquire(After(events), key, supported).1.start;
            var s := After(events + [Acquired(key, supported)] + during + [StartCompleted(c)] + more);
            Live(s, c) && s.clients[c].key == key && IsCurrent(s, c)
  {
    var c := Acquire(After(events), key, supported).1.start;
    var now := events + [Acquired(key, supported)];
    AlwaysInv(events);
    AfterAppend(events, Acquired(key, supported));
    RunKeepsClient(now, during, c);
    AlwaysInv(now + during);
    AfterAppend(now + during, StartCompleted(c));
    var done := now + during + [StartCompleted(c)];
    assert Live(After(done), c);
    ReactionsKeepLive(done, more, c);
    RunKeepsClient(done, more, c);
    AlwaysInv(done + more);
  }

  /** A client that dies while it starts is never a session: its start can only fail. */
  lemma {:induction false} DeadStartNeverCompletes(events: seq<Event>, more: seq<Event>, c: nat)
    requires IsStarting(After(events), c) && After(events).clients[c].dead
    ensures var s := After(events + more);
            && c in s.clients && s.clients[c].dead && s.clients[c].phase != Started
            && forall key :: key in s.sessions ==> s.sessions[key] != c
    decreases |more|
  {
    AlwaysInv(events + more);
    if more == [] {
      assert events + more == events;
    } else {
      var n := |more| - 1;
      DeadStartNeverCompletes(events, more[..n], c);
      AfterAppend(events + more[..n], more[n]);
      assert events + more == events + more[..n] + [more[n]];
      AlwaysInv(events + more[..n]);
      DeadStaysUnstarted(After(events + more[..n]), more[n], c);
    }
  }

  lemma DeadStaysUnstarted(s: State, e: Event, c: nat)
    requires Inv(s) && c in s.clients && s.clients[c].dead && s.clients[c].phase != Started
    ensures c in Step(s, e).clients && Step(s, e).clients[c].dead && Step(s, e).clients[c].phase != Started
  {
  }

  /**
    The idle timer asks only its own client to shut down, and only when that client is the
    current session of its key with no request in flight; it never touches a replacement.
   */
  lemma IdleSparesBusyAndReplaced(events: seq<Event>, c: nat, d: nat)
    requires var s := After(events); Enabled(s, IdleTicked(c)) && d in s.clients
    ensures var s := After(events);
            var s' := Step(s, IdleTicked(c));
            && (s'.clients[d].asked && !s.clients[d].asked ==>
                  d == c && IsCurrent(s, c) && s.clients[c].inFlight == 0)
            && (Live(s, d) && !Live(s', d) ==> d == c)
            && (d != c && IsCurrent(s, d) ==> IsCurrent(s', d))
            && (IsCurrent(s', c) ==> c in s'.timers)
  {
    AlwaysInv(events);
    StepInv(After(events), IdleTicked(c));
  }

  /** Over every run: what an acquire gives, from the session, the start and the support its key has. */
  lemma AcquireGives(events: seq<Event>, key: Key, supported: bool)
    ensures var s := After(events);
            var (s', ticket) := Acquire(s, key, supported);
            && (ticket.Session? <==> key in s.sessions)
            && (ticket.Unsupported? <==> key !in s.sessions && key !in s.starting && !supported)
            && (key !in s.sessions && key in s.starting ==> ticket == Awaiting(s.starting[key]))
            && (!Spawns(s, key, supported) ==>
                  s'.clients == s.clients && s'.starting == s.starting && s'.sessions == s.sessions)
  {
    AlwaysInv(events);
    assert key !in After(events).sessions ==> After(events).sessions - {key} == After(events).sessions;
  }

  /** Neither a session nor a start, and a server for the language. */
  predicate Spawns(s: State, key: Key, supported: bool) {
    key !in s.sessions && key !in s.starting && supported
  }

  /** Then one new client is spawned for the key, and its start is the one the next callers join. */
  lemma AcquireSpawns(events: seq<Event>, key: Key, supported: bool)
    requires Spawns(After(events), key, supported)
    ensures var s := After(events);
            var (s', ticket) := Acquire(s, key, supported);
            && ticket.Awaiting? && ticket.start !in s.clients && IsStarting(s', ticket.start)
            && s'.clients == s.clients[ticket.start := s'.clients[ticket.start]]
            && s'.clients[ticket.start].key == key && !s'.clients[ticket.start].dead
            && s'.starting == s.starting[key := ticket.start] && s'.sessions == s.sessions
  {
    AlwaysInv(events);
    assert After(events).sessions - {key} == After(events).sessions;
  }

  /**
    The idle tick of the current session, whose timer is always armed: without requests it ends the
    session and asks its client to stop.
   */
  lemma IdleEndsTheSession(events: seq<Event>, c: nat)
    requires c in After(events).clients
    ensures var s := After(events);
            var s' := Step(s, IdleTicked(c));
            && (IsCurrent(s, c) && s.clients[c].inFlight == 0 ==>
                  s'.clients[c].asked && s.clients[c].key !in s'.sessions && c !in s'.timers)
            && (IsCurrent(s, c) && s.clients[c].inFlight > 0 ==> s' == s)
            && (!IsCurrent(s, c) ==> s' == s.(timers := s.timers - {c}))
  {
    AlwaysInv(events);
  }

  /** The exit of a client is noticed and evicts its own session only, so that the next acquire starts anew. */
  lemma ExitEvicts(events: seq<Event>, c: nat, d: nat)
    requires c in After(events).clients && d in After(events).clients
    ensures var s, s' := After(events), After(events + [Crashed(c)]);
            && s'.clients[c].dead && !IsCurrent(s', c)
            && (d != c ==> s'.clients[d] == s.clients[d] && (IsCurrent(s', d) <==> IsCurrent(s, d)))
            && (IsCurrent(s, c) && s.clients[c].key !in s.starting ==> Spawns(s', s.clients[c].key, true))
  {
    AfterAppend(events, Crashed(c));
    AlwaysInv(events);
  }

  /** A start is registered until its call has settled, and then no longer, whether it completed or failed. */
  lemma SettledStartIsForgotten(events: seq<Event>, c: nat)
    requires Enabled(After(events), FinallyRan(c))
    ensures var s, s' := After(events), After(events + [FinallyRan(c)]);
            && s.clients[c].key in s.starting && s.starting[s.clients[c].key] == c
            && s'.starting == s.starting - {s.clients[c].key}
            && s'.sessions == s.sessions && s'.clients == s.clients
  {
    AfterAppend(events, FinallyRan(c));
    AlwaysInv(events);
  }

  /** A failed start leaves its key without a session. */
  lemma FailedStartIsNoSession(events: seq<Event>, c: nat)
    requires IsStarting(After(events), c)
    ensures var s, s' := After(events), After(events + [StartFailed(c)]);
            s'.clients[c].phase == Failed && s.clients[c].key !in s'.sessions && s'.sessions == s.sessions
  {
    AfterAppend(events, StartFailed(c));
    AlwaysInv(events);
  }

  // ----- the manager object -----

  class Manager {
    var clients: map<nat, Client>
    var SESSIONS: map<Key, nat>
    var STARTING: map<Key, nat>
    var timers: set<nat>
    var unfinished: set<nat>
    var next: nat

    ghost function Current(): State
      reads this
    {
      State(clients, SESSIONS, STARTING, timers, unfinished, next)
    }

    constructor ()
      ensures Current() == INITIAL
    {
      clients, SESSIONS, STARTING, timers, unfinished, next := map[], map[], map[], {}, {}, 0;
    }

    /** The stretch of `getLiveSession` up to its first await. */
    method GetLiveSession(key: Key, supported: bool) returns (ticket: Ticket)
      modifies this
      ensures (Current(), ticket) == Acquire(old(Current()), key, supported)
    {
      if key in SESSIONS && SESSIONS[key] in clients && !clients[SESSIONS[key]].dead {
        timers := timers + {SESSIONS[key]};
        return Session(SESSIONS[key]);
      }
      SESSIONS := SESSIONS - {key};
      if key in STARTING {
        return Awaiting(STARTING[key]);
      }
      if !supported {
        return Unsupported;
      }
      var c := next;
      next := next + 1;
      clients := clients[c := Client(key, Starting, false, false, false, 0)];
      STARTING := STARTING[key := c];
      unfinished := unfinished + {c};
      return Awaiting(c);
    }

    /** The stretch after a successful `client.start()`. */
    method OnStarted(c: nat)
      requires IsStarting(Current(), c)
      modifies this`clients, this`SESSIONS, this`timers
      ensures Current() == StartCompletes(old(Current()), c)
    {
      SESSIONS := SESSIONS[clients[c].key := c];
      timers := timers + {c};
      clients := clients[c := clients[c].(phase := Started, watched := true)];
    }

    method OnStartSettled(c: nat)
      requires c in clients
      modifies this`STARTING, this`unfinished
      ensures Current() == Finally(old(Current()), c)
    {
      STARTING := STARTING - {clients[c].key};
      unfinished := unfinished - {c};
    }

    method OnExit(c: nat)
      requires c in clients
      modifies this`clients, this`SESSIONS
      ensures Current() == Crash(old(Current()), c)
    {
      var key := clients[c].key;
      if clients[c].watched && key in SESSIONS && SESSIONS[key] == c {
        SESSIONS := SESSIONS - {key};
      }
      clients := clients[c := clients[c].(dead := true, inFlight := 0)];
    }

    method OnIdle(c: nat)
      requires c in clients && c in timers
      modifies this`clients, this`SESSIONS, this`timers
      ensures Current() == IdleTick(old(Current()), c)
    {
      var key := clients[c].key;
      timers := timers - {c};
      if key !in SESSIONS || SESSIONS[key] != c {
        return;
      }
      if clients[c].inFlight > 0 {
        timers := timers + {c};
        return;
      }
      SESSIONS := SESSIONS - {key};
      clients := clients[c := clients[c].(asked := true)];
    }
  }
}
