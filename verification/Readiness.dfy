/**
  Progress and readiness of the language server: outstanding progress tokens, the indexing
  state, parked readiness waiters, the bounded wait for the index, and the three-valued
  answer that licenses an exhaustive result.
 */
module Readiness {
  import opened Prelude
  import opened Requests

  datatype IndexState = Unclassified | Indexing | Ready

  datatype Freshness = Stale | Cold | Fresh | Unknown

  /** The part of the client that readiness is judged on. */
  datatype Snapshot = Snapshot(tokens: set<JsId>, indexing: IndexState, warm: nat)

  function FreshnessOf(s: Snapshot): Freshness {
    if s.indexing == Indexing then Stale
    else if s.warm == 0 then Cold
    else if s.indexing == Ready then Fresh
    else Unknown
  }

  /** How a parked or immediate readiness wait was answered, and what the client looked like then. */
  datatype Answer = Answer(freshness: Freshness, seen: Snapshot)

  datatype WaitResult = WaitResult(ready: bool, reason: string)

  /** A wait for the index: polling, handed to readiness waiter `waiter`, or decided on the spot. */
  datatype IndexWait =
    | Polling
    | Waiting(waiter: nat, began: Snapshot)
    | Decided(result: WaitResult, seen: Snapshot)

  datatype State = State(now: Snapshot, parked: set<nat>, answers: map<nat, Answer>, nextWaiter: nat,
                         waits: map<nat, IndexWait>, nextWait: nat)

  const INITIAL := State(Snapshot({}, Unclassified, 0), {}, map[], 0, map[], 0)

  // ----- the client's steps -----

  function DidOpen(s: State): State {
    s.(now := s.now.(warm := s.now.warm + 1))
  }

  function IndexingStarted(s: State): State {
    s.(now := s.now.(indexing := Indexing))
  }

  /** Release every parked waiter, when the client is fresh. */
  function ReleaseReady(s: State): State {
    if FreshnessOf(s.now) != Fresh then s
    else s.(parked := {},
            answers := map w | w in s.answers.Keys + s.parked ::
              if w in s.parked then Answer(Fresh, s.now) else s.answers[w])
  }

  function IndexingEnded(s: State): State {
    ReleaseReady(s.(now := s.now.(indexing := if s.now.tokens != {} then Indexing else Ready)))
  }

  function HandleProgress(s: State, p: Progress): State {
    if p.kind == Some("begin") then IndexingStarted(s.(now := s.now.(tokens := s.now.tokens + {p.token})))
    else if p.kind == Some("end") then IndexingEnded(s.(now := s.now.(tokens := s.now.tokens - {p.token})))
    else s
  }

  /** Answer at once, or park a waiter under the next number. */
  function WaitForReady(s: State, timeoutMs: int): State {
    var w := s.nextWaiter;
    if FreshnessOf(s.now) == Fresh || timeoutMs <= 0
    then s.(nextWaiter := w + 1, answers := s.answers[w := Answer(FreshnessOf(s.now), s.now)])
    else s.(nextWaiter := w + 1, parked := s.parked + {w})
  }

  function ReadyTimerFires(s: State, w: nat): State {
    if w !in s.parked then s
    else s.(parked := s.parked - {w}, answers := s.answers[w := Answer(FreshnessOf(s.now), s.now)])
  }

  function Decide(s: State, k: nat, ready: bool, reason: string): State {
    s.(waits := s.waits[k := Decided(WaitResult(ready, reason), s.now)])
  }

  /**
    One turn of the polling loop of wait `k`: `elapsed` when the loop condition is evaluated,
    `remaining` what is left of the timeout when the waiter is parked.
   */
  function Poll(s: State, k: nat, elapsed: int, settleMs: int, remaining: int): State {
    if elapsed < settleMs && s.now.indexing != Indexing then
      if FreshnessOf(s.now) == Fresh then Decide(s, k, true, "ready_no_index_needed")
      else s.(waits := s.waits[k := Polling])
    else if s.now.indexing != Indexing && s.now.tokens == {} then
      if s.now.warm > 0 then Decide(s, k, true, "no_progress_signalled")
      else Decide(s, k, false, "cold_no_warm")
    else
      WaitForReady(s, remaining).(waits := s.waits[k := Waiting(s.nextWaiter, s.now)])
  }

  function WaitForIndexReady(s: State, elapsed: int, settleMs: int, remaining: int): State {
    var k := s.nextWait;
    var s' := s.(nextWait := k + 1);
    if FreshnessOf(s.now) == Fresh then Decide(s', k, true, "already_ready")
    else Poll(s', k, elapsed, settleMs, remaining)
  }

  function PollAgain(s: State, k: nat, elapsed: int, settleMs: int, remaining: int): State {
    if k in s.waits && s.waits[k].Polling? then Poll(s, k, elapsed, settleMs, remaining) else s
  }

  /** What a wait for the index has resolved to, once it has. */
  function Result(s: State, k: nat): Option<WaitResult> {
    if k !in s.waits then None
    else match s.waits[k]
      case Polling => None
      case Decided(result, _) => Some(result)
      case Waiting(w, _) =>
        if w !in s.answers then None
        else if s.answers[w].freshness == Fresh then Some(WaitResult(true, "index_drained"))
        else Some(WaitResult(false, "index_wait_timeout"))
  }

  // ----- the three-valued answer -----

  const PROVEN_READY: set<string> := {"index_drained", "already_ready", "ready_no_index_needed"}
  const ESTABLISHED_NOT_READY: set<string> := {"index_wait_timeout"}

  function IndexReadyFromWaitResult(r: Option<WaitResult>): Option<bool> {
    if r.None? then None
    else if !r.value.ready then if r.value.reason in ESTABLISHED_NOT_READY then Some(false) else None
    else if r.value.reason in PROVEN_READY then Some(true) else None
  }

  // ----- runs -----

  datatype Event =
    | Opened
    | ProgressSeen(p: Progress)
    | Started
    | Ended
    | ReadyWaitBegun(timeoutMs: int)
    | ReadyTimerFired(w: nat)
    | IndexWaitBegun(elapsed: int, settleMs: int, remaining: int)
    | Polled(k: nat, elapsed: int, settleMs: int, remaining: int)

  function Step(s: State, e: Event): State {
    match e
    case Opened => DidOpen(s)
    case ProgressSeen(p) => HandleProgress(s, p)
    case Started => IndexingStarted(s)
    case Ended => IndexingEnded(s)
    case ReadyWaitBegun(t) => WaitForReady(s, t)
    case ReadyTimerFired(w) => ReadyTimerFires(s, w)
    case IndexWaitBegun(elapsed, settleMs, remaining) => WaitForIndexReady(s, elapsed, settleMs, remaining)
    case Polled(k, elapsed, settleMs, remaining) => PollAgain(s, k, elapsed, settleMs, remaining)
  }

  function After(events: seq<Event>): State {
    if events == [] then INITIAL else Step(After(events[..|events| - 1]), events[|events| - 1])
  }

  /** Outstanding progress tokens always mean the server is indexing. */
  ghost predicate TokensMeanIndexing(now: Snapshot) {
    now.tokens != {} ==> now.indexing == Indexing
  }

  ghost predicate WaitOk(s: State, k: nat)
    requires k in s.waits
  {
    match s.waits[k]
    case Polling => true
    case Waiting(w, began) => w < s.nextWaiter && began.indexing == Indexing && (w in s.parked || w in s.answers)
    case Decided(result, seen) =>
      TokensMeanIndexing(seen) && DecidedOn(result, seen)
  }

  /** The four results a wait can be decided with on the spot, and what each says of the client. */
  predicate DecidedOn(result: WaitResult, seen: Snapshot) {
    || (result in [WaitResult(true, "already_ready"), WaitResult(true, "ready_no_index_needed")]
        && seen.indexing == Ready && seen.warm > 0)
    || (result == WaitResult(true, "no_progress_signalled") && seen.indexing != Indexing && seen.warm > 0)
    || (result == WaitResult(false, "cold_no_warm") && seen.indexing != Indexing && seen.warm == 0)
  }

  ghost predicate Inv(s: State) {
    && TokensMeanIndexing(s.now)
    && (forall w :: w in s.parked ==> w < s.nextWaiter && w !in s.answers)
    && (forall w :: w in s.answers ==> w < s.nextWaiter && TokensMeanIndexing(s.answers[w].seen)
                                       && s.answers[w].freshness == FreshnessOf(s.answers[w].seen))
    && (forall k :: k in s.waits ==> k < s.nextWait && WaitOk(s, k))
  }

  lemma ReleaseInv(s: State)
    requires Inv(s)
    ensures Inv(ReleaseReady(s))
  {
    var r := ReleaseReady(s);
    forall k | k in r.waits ensures WaitOk(r, k) {
      assert WaitOk(s, k);
    }
  }

  lemma NowInv(s: State, now: Snapshot)
    requires Inv(s) && TokensMeanIndexing(now)
    ensures Inv(s.(now := now))
  {
    forall k | k in s.waits ensures WaitOk(s.(now := now), k) {
      assert WaitOk(s, k);
    }
  }

  lemma WaitInv(s: State, timeoutMs: int)
    requires Inv(s)
    ensures Inv(WaitForReady(s, timeoutMs))
  {
    var r := WaitForReady(s, timeoutMs);
    forall k | k in r.waits ensures WaitOk(r, k) {
      assert WaitOk(s, k);
    }
  }

  lemma SetWaitInv(s: State, k: nat, wait: IndexWait)
    requires Inv(s) && k < s.nextWait
    requires WaitOk(s.(waits := s.waits[k := wait]), k)
    ensures Inv(s.(waits := s.waits[k := wait]))
  {
    var r := s.(waits := s.waits[k := wait]);
    forall j | j in r.waits ensures WaitOk(r, j) {
      assert j != k ==> WaitOk(s, j);
    }
  }

  lemma DecideInv(s: State, k: nat, ready: bool, reason: string)
    requires Inv(s) && k < s.nextWait && DecidedOn(WaitResult(ready, reason), s.now)
    ensures Inv(Decide(s, k, ready, reason))
  {
    SetWaitInv(s, k, Decided(WaitResult(ready, reason), s.now));
  }

  lemma PollInv(s: State, k: nat, elapsed: int, settleMs: int, remaining: int)
    requires Inv(s) && k < s.nextWait
    ensures Inv(Poll(s, k, elapsed, settleMs, remaining))
  {
    WaitInv(s, remaining);
    var parked := WaitForReady(s, remaining);
    if elapsed < settleMs && s.now.indexing != Indexing {
      if FreshnessOf(s.now) == Fresh {
        DecideInv(s, k, true, "ready_no_index_needed");
      } else {
        SetWaitInv(s, k, Polling);
      }
    } else if s.now.indexing != Indexing && s.now.tokens == {} {
      if s.now.warm > 0 {
        DecideInv(s, k, true, "no_progress_signalled");
      } else {
        DecideInv(s, k, false, "cold_no_warm");
      }
    } else {
      SetWaitInv(parked, k, Waiting(s.nextWaiter, s.now));
    }
  }

  /** The two reasons that prove nothing are in neither list. */
  lemma Distinguished()
    ensures "no_progress_signalled" !in PROVEN_READY + ESTABLISHED_NOT_READY
    ensures "cold_no_warm" !in PROVEN_READY + ESTABLISHED_NOT_READY
    ensures "ready_no_index_needed" !in ESTABLISHED_NOT_READY && "already_ready" !in ESTABLISHED_NOT_READY
    ensures "no_progress_signalled" !in ["already_ready", "ready_no_index_needed", "index_drained"]
  {
    assert |"no_progress_signalled"| == 21 && |"cold_no_warm"| == 12 && |"index_wait_timeout"| == 18;
    assert |"index_drained"| == 13 && |"already_ready"| == 13 && |"ready_no_index_needed"| == 21;
    assert "no_progress_signalled"[0] == 'n' && "ready_no_index_needed"[0] == 'r';
  }

  /** Taking the next number for a wait changes nothing else. */
  lemma NumberedInv(s: State)
    requires Inv(s)
    ensures Inv(s.(nextWait := s.nextWait + 1))
  {
    var r := s.(nextWait := s.nextWait + 1);
    forall k | k in r.waits ensures WaitOk(r, k) {
      assert WaitOk(s, k);
    }
  }

  lemma TimerInv(s: State, w: nat)
    requires Inv(s)
    ensures Inv(ReadyTimerFires(s, w))
  {
    var r := ReadyTimerFires(s, w);
    forall k | k in r.waits ensures WaitOk(r, k) {
      assert WaitOk(s, k);
    }
  }

  lemma BeginInv(s: State, elapsed: int, settleMs: int, remaining: int)
    requires Inv(s)
    ensures Inv(WaitForIndexReady(s, elapsed, settleMs, remaining))
  {
    var s' := s.(nextWait := s.nextWait + 1);
    NumberedInv(s);
    if FreshnessOf(s.now) == Fresh {
      DecideInv(s', s.nextWait, true, "already_ready");
    } else {
      PollInv(s', s.nextWait, elapsed, settleMs, remaining);
    }
  }

  lemma ProgressInv(s: State, p: Progress)
    requires Inv(s)
    ensures Inv(HandleProgress(s, p))
  {
    if p.kind == Some("begin") {
      NowInv(s, HandleProgress(s, p).now);
    } else if p.kind == Some("end") {
      EndInv(s, s.now.tokens - {p.token});
    }
  }

  lemma StepInv(s: State, e: Event)
    requires Inv(s)
    ensures Inv(Step(s, e))
  {
    match e
    case Opened => NowInv(s, DidOpen(s).now);
    case ProgressSeen(p) => ProgressInv(s, p);
    case Started => NowInv(s, IndexingStarted(s).now);
    case Ended => EndInv(s, s.now.tokens);
    case ReadyWaitBegun(t) => WaitInv(s, t);
    case ReadyTimerFired(w) => TimerInv(s, w);
    case IndexWaitBegun(elapsed, settleMs, remaining) => BeginInv(s, elapsed, settleMs, remaining);
    case Polled(k, elapsed, settleMs, remaining) =>
      if k in s.waits && s.waits[k].Polling? {
        PollInv(s, k, elapsed, settleMs, remaining);
      }
  }

  lemma StepKeeps(s: State, e: Event, s': State)
    requires Inv(s) && s' == Step(s, e)
    ensures Inv(s')
  {
    StepInv(s, e);
  }

  lemma EndInv(s: State, tokens: set<JsId>)
    requires Inv(s)
    ensures Inv(IndexingEnded(s.(now := s.now.(tokens := tokens))))
  {
    var now := Snapshot(tokens, if tokens != {} then Indexing else Ready, s.now.warm);
    NowInv(s, now);
    ReleaseInv(s.(now := now));
  }

  lemma {:induction false} AlwaysInv(events: seq<Event>)
    ensures Inv(After(events))
  {
    if events != [] {
      AlwaysInv(events[..|events| - 1]);
      StepInv(After(events[..|events| - 1]), events[|events| - 1]);
    }
  }

  /** Over any run, while a progress token is outstanding the client reports that it is indexing. */
  lemma OutstandingTokensMeanIndexing(events: seq<Event>)
    ensures After(events).now.tokens != {} ==> FreshnessOf(After(events).now) == Stale
  {
    AlwaysInv(events);
  }

  /** What the client looked like when wait `k` resolved. */
  function Seen(s: State, k: nat): Snapshot
    requires Result(s, k).Some?
  {
    match s.waits[k]
    case Decided(_, seen) => seen
    case Waiting(w, _) => s.answers[w].seen
  }

  /**
    Whatever the run: an index answer of true means that at the resolving step the server was
    ready, no progress token was outstanding and a file was open; an answer of false means the
    wait saw the server indexing when it began to wait and ended while it was not fresh.
   */
  lemma IndexAnswerIsEarned(events: seq<Event>, k: nat)
    requires Result(After(events), k).Some?
    ensures var s := After(events);
            var verdict := IndexReadyFromWaitResult(Result(s, k));
            && (verdict == Some(true) ==>
                  Seen(s, k).indexing == Ready && Seen(s, k).tokens == {} && Seen(s, k).warm > 0)
            && (verdict == Some(false) ==>
                  s.waits[k].Waiting? && s.waits[k].began.indexing == Indexing
                  && FreshnessOf(Seen(s, k)) != Fresh)
  {
    IndexAnswerExactly(events, k);
    AlwaysInv(events);
    assert WaitOk(After(events), k);
  }

  /**
    The exact answer: true when the wait resolved on a fresh client, unless it resolved for having
    heard nothing; false when it was handed to a waiter that was answered by a client not fresh;
    unknown otherwise, and whenever there is no result.
   */
  lemma IndexAnswerExactly(events: seq<Event>, k: nat)
    requires Result(After(events), k).Some?
    ensures var s := After(events);
            var verdict := IndexReadyFromWaitResult(Result(s, k));
            var current := FreshnessOf(Seen(s, k)) == Fresh;
            && (verdict == Some(true) <==> current && Result(s, k).value.reason != "no_progress_signalled")
            && (verdict == Some(false) <==> s.waits[k].Waiting? && !current)
            && (s.waits[k].Waiting? ==> Result(s, k).value.ready == current)
    ensures IndexReadyFromWaitResult(None) == None
  {
    AlwaysInv(events);
    assert WaitOk(After(events), k);
    Distinguished();
  }

  // ----- what the run says -----

  predicate IsBegin(e: Event, t: JsId) {
    e.ProgressSeen? && e.p.kind == Some("begin") && e.p.token == t
  }

  predicate IsEnd(e: Event, t: JsId) {
    e.ProgressSeen? && e.p.kind == Some("end") && e.p.token == t
  }

  /** The last begin or end of `t` in the run is a begin. */
  predicate Outstanding(events: seq<Event>, t: JsId) {
    events != [] &&
    var last := events[|events| - 1];
    IsBegin(last, t) || (!IsEnd(last, t) && Outstanding(events[..|events| - 1], t))
  }

  lemma {:induction false} TokensAreOutstanding(events: seq<Event>, t: JsId)
    ensures t in After(events).now.tokens <==> Outstanding(events, t)
  {
    if events != [] {
      TokensAreOutstanding(events[..|events| - 1], t);
      StepTokens(After(events[..|events| - 1]), events[|events| - 1], t);
    }
  }

  lemma StepTokens(s: State, e: Event, t: JsId)
    ensures t in Step(s, e).now.tokens <==> IsBegin(e, t) || (!IsEnd(e, t) && t in s.now.tokens)
  {
    assert "begin"[0] != "end"[0];
  }

  predicate StartsIndexing(e: Event) {
    e.Started? || (e.ProgressSeen? && e.p.kind == Some("begin"))
  }

  predicate EndsIndexing(e: Event) {
    e.Ended? || (e.ProgressSeen? && e.p.kind == Some("end"))
  }

  /** What the last signal of the run says: an end counts only when it leaves no token outstanding. */
  ghost function Signalled(events: seq<Event>): IndexState {
    if events == [] then Unclassified
    else
      var last := events[|events| - 1];
      if StartsIndexing(last) || (EndsIndexing(last) && exists t :: Outstanding(events, t)) then Indexing
      else if EndsIndexing(last) then Ready
      else Signalled(events[..|events| - 1])
  }

  function OpenedIn(events: seq<Event>): nat {
    if events == [] then 0
    else OpenedIn(events[..|events| - 1]) + if events[|events| - 1].Opened? then 1 else 0
  }

  /** The state readiness is judged on is what the run signalled and the number of files it opened. */
  lemma {:induction false} StateTellsTheRun(events: seq<Event>)
    ensures After(events).now.indexing == Signalled(events) && After(events).now.warm == OpenedIn(events)
  {
    if events != [] {
      StateTellsTheRun(events[..|events| - 1]);
      forall t ensures t in After(events).now.tokens <==> Outstanding(events, t) {
        TokensAreOutstanding(events, t);
      }
      StepNow(After(events[..|events| - 1]), events[|events| - 1]);
    }
  }

  /** The four answers, by what the run signalled and whether it opened a file. */
  lemma FreshnessTellsTheRun(events: seq<Event>)
    ensures var f := FreshnessOf(After(events).now);
            var warm := OpenedIn(events) > 0;
            && (f == Stale <==> Signalled(events) == Indexing)
            && (f == Cold <==> Signalled(events) != Indexing && !warm)
            && (f == Fresh <==> Signalled(events) == Ready && warm)
            && (f == Unknown <==> Signalled(events) == Unclassified && warm)
  {
    StateTellsTheRun(events);
  }

  lemma StepNow(s: State, e: Event)
    ensures Step(s, e).now.warm == s.now.warm + if e.Opened? then 1 else 0
    ensures Step(s, e).now.indexing
            == if StartsIndexing(e) then Indexing
               else if EndsIndexing(e) then if Step(s, e).now.tokens != {} then Indexing else Ready
               else s.now.indexing
  {
    assert "begin"[0] != "end"[0];
  }

  /**
    The end that leaves no token outstanding makes the client ready. With an opened file it answers
    every parked waiter that the client is fresh, and every index wait handed to one of them has seen
    the index drain. Without one nobody is released.
   */
  lemma DrainReleases(events: seq<Event>, e: Event)
    requires EndsIndexing(e) && forall t :: !Outstanding(events + [e], t)
    ensures var s, s' := After(events), After(events + [e]);
            && s'.now.indexing == Ready && s'.now.tokens == {}
            && (OpenedIn(events) == 0 ==> s'.parked == s.parked && s'.answers == s.answers)
            && (OpenedIn(events) > 0 ==>
                  && s'.parked == {}
                  && (forall w :: w in s.parked ==> w in s'.answers && s'.answers[w] == Answer(Fresh, s'.now))
                  && forall k :: k in s.waits && s.waits[k].Waiting? && s.waits[k].waiter in s.parked
                       ==> Result(s', k) == Some(WaitResult(true, "index_drained")))
  {
    forall t ensures t !in After(events + [e]).now.tokens {
      TokensAreOutstanding(events + [e], t);
    }
    assert After(events + [e]).now.tokens == {};
    AfterAppend(events, e);
    StateTellsTheRun(events);
    StepNow(After(events), e);
    assert "begin"[0] != "end"[0];
  }

  /** The event releases parked waiters: an end after which the client is fresh. */
  predicate Releases(s: State, e: Event) {
    EndsIndexing(e) && FreshnessOf(Step(s, e).now) == Fresh
  }

  /** Only such an end, or its own timer, ends a parked wait; the timer answers how the client stands then. */
  lemma ParkedUntilReleased(events: seq<Event>, w: nat, e: Event)
    requires w in After(events).parked
    ensures var s, s' := After(events), After(events + [e]);
            && (w in s'.parked <==> !Releases(s, e) && e != ReadyTimerFired(w))
            && (e == ReadyTimerFired(w) ==>
                  w in s'.answers && s'.answers[w] == Answer(FreshnessOf(s.now), s.now) && s'.now == s.now)
  {
    AlwaysInv(events);
    AfterAppend(events, e);
    assert "begin"[0] != "end"[0];
  }

  /** A readiness wait is answered at once when the client is fresh or there is no time, and else parked. */
  lemma ReadyWaitBegins(events: seq<Event>, timeoutMs: int)
    ensures var s, s' := After(events), After(events + [ReadyWaitBegun(timeoutMs)]);
            if FreshnessOf(s.now) == Fresh || timeoutMs <= 0
            then s'.answers == s.answers[s.nextWaiter := Answer(FreshnessOf(s.now), s.now)] && s'.parked == s.parked
            else s'.parked == s.parked + {s.nextWaiter} && s'.answers == s.answers
  {
    AfterAppend(events, ReadyWaitBegun(timeoutMs));
  }

  /** What one look at the client does to a wait for the index, in and after its settle window. */
  ghost predicate Looked(s: State, s': State, k: nat, first: bool, elapsed: int, settleMs: int, remaining: int) {
    var current, indexing, settled := FreshnessOf(s.now) == Fresh, s.now.indexing == Indexing, elapsed >= settleMs;
    && (current && first ==> Result(s', k) == Some(WaitResult(true, "already_ready")))
    && (current && !first && !settled ==> Result(s', k) == Some(WaitResult(true, "ready_no_index_needed")))
    && (!current && !indexing && !settled ==> k in s'.waits && s'.waits[k] == Polling && Result(s', k) == None)
    && (!(current && first) && !indexing && settled ==>
          Result(s', k) == Some(if s.now.warm > 0 then WaitResult(true, "no_progress_signalled")
                                else WaitResult(false, "cold_no_warm")))
    && (indexing ==>
          && k in s'.waits && s'.waits[k] == Waiting(s.nextWaiter, s.now)
          && (remaining > 0 ==> s.nextWaiter in s'.parked && Result(s', k) == None)
          && (remaining <= 0 ==> Result(s', k) == Some(WaitResult(false, "index_wait_timeout"))))
  }

  lemma PollLooks(s: State, k: nat, first: bool, elapsed: int, settleMs: int, remaining: int)
    requires Inv(s) && (first ==> FreshnessOf(s.now) != Fresh)
    ensures Looked(s, Poll(s, k, elapsed, settleMs, remaining), k, first, elapsed, settleMs, remaining)
  {
  }

  /** The first look at the client, when a wait for the index begins. */
  lemma IndexWaitBegins(events: seq<Event>, elapsed: int, settleMs: int, remaining: int)
    ensures var s, s' := After(events), After(events + [IndexWaitBegun(elapsed, settleMs, remaining)]);
            Looked(s, s', s.nextWait, true, elapsed, settleMs, remaining)
  {
    var s := After(events);
    AlwaysInv(events);
    AfterAppend(events, IndexWaitBegun(elapsed, settleMs, remaining));
    NumberedInv(s);
    if FreshnessOf(s.now) != Fresh {
      PollLooks(s.(nextWait := s.nextWait + 1), s.nextWait, true, elapsed, settleMs, remaining);
    }
  }

  /** Every later look, while the wait is polling. */
  lemma IndexWaitPolls(events: seq<Event>, k: nat, elapsed: int, settleMs: int, remaining: int)
    requires k in After(events).waits && After(events).waits[k] == Polling
    ensures var s, s' := After(events), After(events + [Polled(k, elapsed, settleMs, remaining)]);
            Looked(s, s', k, false, elapsed, settleMs, remaining)
  {
    AlwaysInv(events);
    AfterAppend(events, Polled(k, elapsed, settleMs, remaining));
    PollLooks(After(events), k, false, elapsed, settleMs, remaining);
  }

  /**
    A fresh client is answered "unknown" by a poll exactly when the settle window is over: that the
    server became ready during the last sleep is not told from having heard nothing.
   */
  lemma ReadyInTheLastSleepIsUnknown(events: seq<Event>, k: nat, elapsed: int, settleMs: int, remaining: int)
    requires k in After(events).waits && After(events).waits[k] == Polling
    requires FreshnessOf(After(events).now) == Fresh
    ensures var verdict := IndexReadyFromWaitResult(
                             Result(After(events + [Polled(k, elapsed, settleMs, remaining)]), k));
            && (verdict == None <==> elapsed >= settleMs)
            && (verdict == Some(true) <==> elapsed < settleMs)
  {
    IndexWaitPolls(events, k, elapsed, settleMs, remaining);
    Distinguished();
  }

  // ----- the recorded snapshots are states the run went through -----

  ghost predicate Occurred(events: seq<Event>, seen: Snapshot) {
    exists i :: 0 <= i <= |events| && After(events[..i]).now == seen
  }

  /** `seen` is the evidence some answer or wait of the state was recorded with. */
  ghost predicate Recorded(s: State, seen: Snapshot) {
    || (exists w :: w in s.answers && s.answers[w].seen == seen)
    || (exists k :: k in s.waits && s.waits[k].Waiting? && s.waits[k].began == seen)
    || (exists k :: k in s.waits && s.waits[k].Decided? && s.waits[k].seen == seen)
  }

  lemma StepRecordsNow(s: State, e: Event, seen: Snapshot)
    requires Recorded(Step(s, e), seen)
    ensures Recorded(s, seen) || seen == s.now || seen == Step(s, e).now
  {
  }

  lemma AfterAppend(events: seq<Event>, e: Event)
    ensures After(events + [e]) == Step(After(events), e)
  {
    assert (events + [e])[..|events|] == events;
  }

  lemma OccurredStill(events: seq<Event>, e: Event, seen: Snapshot)
    requires Occurred(events, seen) || seen == After(events).now
    ensures Occurred(events + [e], seen)
  {
    assert events[..|events|] == events;
    var i :| 0 <= i <= |events| && After(events[..i]).now == seen;
    assert (events + [e])[..i] == events[..i];
  }

  /** No evidence is made up: every recorded snapshot is how the client stood at some point of the run. */
  lemma {:induction false} SnapshotsOccurred(events: seq<Event>, seen: Snapshot)
    requires Recorded(After(events), seen)
    ensures Occurred(events, seen)
  {
    if events != [] {
      var before, e := events[..|events| - 1], events[|events| - 1];
      assert events == before + [e];
      AfterAppend(before, e);
      StepRecordsNow(After(before), e, seen);
      if Recorded(After(before), seen) {
        SnapshotsOccurred(before, seen);
        OccurredStill(before, e, seen);
      } else if seen == After(before).now {
        OccurredStill(before, e, seen);
      } else {
        assert events[..|events|] == events;
      }
    }
  }
}
