/**
  Diagnostics by publication: how many times each document's diagnostics were published, and
  the waiters parked until the next publication or their timer.
 */
module Diagnostics {
  import opened Prelude

  type Uri = string

  /** Waiting for publication number `since + 1` or later of `uri`. */
  datatype Waiter = Waiter(uri: Uri, since: nat)

  /** How a wait ended, and the publish count of its document at that moment. */
  datatype Verdict = Verdict(waiter: Waiter, newer: bool, count: nat)

  datatype State = State(published: map<Uri, nat>, parked: map<nat, Waiter>, verdicts: map<nat, Verdict>, next: nat)

  const INITIAL := State(map[], map[], map[], 0)

  /** One spelling per document, stable under a second application. */
  ghost predicate Canonical(canon: Uri -> Uri) {
    forall u :: canon(canon(u)) == canon(u)
  }

  /** The publish count is always looked up through the canonical spelling. */
  function Count(published: map<Uri, nat>, canon: Uri -> Uri, uri: Uri): nat {
    var key := canon(uri);
    if key in published then published[key] else 0
  }

  function WaitFor(s: State, canon: Uri -> Uri, rawUri: Uri, since: nat, waitMs: int): State {
    var uri := canon(rawUri);
    var count := Count(s.published, canon, uri);
    var s' := s.(next := s.next + 1);
    if count > since then s'.(verdicts := s.verdicts[s.next := Verdict(Waiter(uri, since), true, count)])
    else if waitMs <= 0 then s'.(verdicts := s.verdicts[s.next := Verdict(Waiter(uri, since), false, count)])
    else s'.(parked := s.parked[s.next := Waiter(uri, since)])
  }

  /** The waiters a publication of `uri` with the given count satisfies. */
  function Due(parked: map<nat, Waiter>, uri: Uri, count: nat): set<nat> {
    set w | w in parked && parked[w].uri == uri && count > parked[w].since
  }

  function Publish(s: State, canon: Uri -> Uri, rawUri: Option<Uri>): State {
    if rawUri.None? || canon(rawUri.value) == "" then s
    else
      var uri := canon(rawUri.value);
      var count := Count(s.published, canon, uri) + 1;
      var due := Due(s.parked, uri, count);
      s.(published := s.published[uri := count], parked := s.parked - due,
         verdicts := s.verdicts + map w | w in due :: Verdict(s.parked[w], true, count))
  }

  function TimerFires(s: State, canon: Uri -> Uri, w: nat): State {
    if w !in s.parked then s
    else s.(parked := s.parked - {w},
            verdicts := s.verdicts[w := Verdict(s.parked[w], false, Count(s.published, canon, s.parked[w].uri))])
  }

  // ----- runs -----

  datatype Event = Waited(uri: Uri, since: nat, waitMs: int) | Published(raw: Option<Uri>) | TimerFired(w: nat)

  function Step(s: State, canon: Uri -> Uri, e: Event): State {
    match e
    case Waited(uri, since, waitMs) => WaitFor(s, canon, uri, since, waitMs)
    case Published(raw) => Publish(s, canon, raw)
    case TimerFired(w) => TimerFires(s, canon, w)
  }

  function After(canon: Uri -> Uri, events: seq<Event>): State {
    if events == [] then INITIAL
    else Step(After(canon, events[..|events| - 1]), canon, events[|events| - 1])
  }

  ghost predicate ParkedOk(s: State, canon: Uri -> Uri, w: nat)
    requires w in s.parked
  {
    && canon(s.parked[w].uri) == s.parked[w].uri
    && s.parked[w].since >= Count(s.published, canon, s.parked[w].uri)
  }

  ghost predicate Inv(s: State, canon: Uri -> Uri) {
    && (forall w :: w in s.parked ==> ParkedOk(s, canon, w))
    && (forall w :: w in s.verdicts ==> s.verdicts[w].newer == (s.verdicts[w].count > s.verdicts[w].waiter.since))
    && (forall w: nat :: w < s.next <==> w in s.parked || w in s.verdicts)
    && s.parked.Keys !! s.verdicts.Keys
  }

  lemma AnsweredInv(s: State, canon: Uri -> Uri, v: Verdict)
    requires Inv(s, canon) && v.newer == (v.count > v.waiter.since)
    ensures Inv(s.(next := s.next + 1, verdicts := s.verdicts[s.next := v]), canon)
  {
    var r := s.(next := s.next + 1, verdicts := s.verdicts[s.next := v]);
    forall w | w in r.parked ensures ParkedOk(r, canon, w) {
      assert ParkedOk(s, canon, w);
    }
  }

  lemma ParkInv(s: State, canon: Uri -> Uri, w: Waiter)
    requires Inv(s, canon) && canon(w.uri) == w.uri && w.since >= Count(s.published, canon, w.uri)
    ensures Inv(s.(next := s.next + 1, parked := s.parked[s.next := w]), canon)
  {
    var r := s.(next := s.next + 1, parked := s.parked[s.next := w]);
    forall v | v in r.parked ensures ParkedOk(r, canon, v) {
      assert v in s.parked ==> ParkedOk(s, canon, v);
    }
  }

  lemma WaitInv(s: State, canon: Uri -> Uri, uri: Uri, since: nat, waitMs: int)
    requires Canonical(canon) && Inv(s, canon)
    ensures Inv(WaitFor(s, canon, uri, since, waitMs), canon)
  {
    var waiter := Waiter(canon(uri), since);
    var count := Count(s.published, canon, canon(uri));
    if count > since || waitMs <= 0 {
      AnsweredInv(s, canon, Verdict(waiter, count > since, count));
    } else {
      ParkInv(s, canon, waiter);
    }
  }

  lemma PublishInv(s: State, canon: Uri -> Uri, raw: Option<Uri>)
    requires Canonical(canon) && Inv(s, canon)
    ensures Inv(Publish(s, canon, raw), canon)
  {
    var r := Publish(s, canon, raw);
    forall w | w in r.parked ensures ParkedOk(r, canon, w) {
      assert ParkedOk(s, canon, w);
    }
  }

  lemma TimerInv(s: State, canon: Uri -> Uri, w: nat)
    requires Inv(s, canon)
    ensures Inv(TimerFires(s, canon, w), canon)
  {
    var r := TimerFires(s, canon, w);
    assert w in s.parked ==> ParkedOk(s, canon, w);
    forall v | v in r.parked ensures ParkedOk(r, canon, v) {
      assert ParkedOk(s, canon, v);
    }
  }

  lemma StepInv(s: State, canon: Uri -> Uri, e: Event)
    requires Canonical(canon) && Inv(s, canon)
    ensures Inv(Step(s, canon, e), canon)
  {
    match e
    case Waited(uri, since, waitMs) => WaitInv(s, canon, uri, since, waitMs);
    case Published(raw) => PublishInv(s, canon, raw);
    case TimerFired(w) => TimerInv(s, canon, w);
  }

  /**
    Over any run: a wait is either parked or answered, never both; a parked wait still lacks the
    publication it waits for (no wake-up is missed); and an answer says exactly whether the
    publish count had passed the caller's mark.
   */
  lemma {:induction false} NoMissedPublication(canon: Uri -> Uri, events: seq<Event>)
    requires Canonical(canon)
    ensures Inv(After(canon, events), canon)
  {
    if events != [] {
      NoMissedPublication(canon, events[..|events| - 1]);
      StepInv(After(canon, events[..|events| - 1]), canon, events[|events| - 1]);
    }
  }

  // ----- what the run says -----

  predicate Publishes(canon: Uri -> Uri, e: Event, uri: Uri) {
    e.Published? && e.raw.Some? && canon(e.raw.value) != "" && canon(e.raw.value) == canon(uri)
  }

  /** How many publications of a document, under any spelling, the run holds. */
  function Publications(canon: Uri -> Uri, events: seq<Event>, uri: Uri): nat {
    if events == [] then 0
    else
      Publications(canon, events[..|events| - 1], uri)
      + if Publishes(canon, events[|events| - 1], uri) then 1 else 0
  }

  lemma StepCounts(s: State, canon: Uri -> Uri, e: Event, uri: Uri)
    requires Canonical(canon)
    ensures Count(Step(s, canon, e).published, canon, uri)
            == Count(s.published, canon, uri) + if Publishes(canon, e, uri) then 1 else 0
  {
  }

  lemma {:induction false} CountsPublications(canon: Uri -> Uri, events: seq<Event>, uri: Uri)
    requires Canonical(canon)
    ensures Count(After(canon, events).published, canon, uri) == Publications(canon, events, uri)
  {
    if events != [] {
      CountsPublications(canon, events[..|events| - 1], uri);
      StepCounts(After(canon, events[..|events| - 1]), canon, events[|events| - 1], uri);
    }
  }

  lemma AfterAppend(canon: Uri -> Uri, events: seq<Event>, e: Event)
    ensures After(canon, events + [e]) == Step(After(canon, events), canon, e)
  {
    assert (events + [e])[..|events|] == events;
  }

  /**
    A wait for publication `since + 1` or later: answered yes at once when the run holds as many
    publications, no at once when it may not wait, and parked otherwise.
   */
  lemma WaitBegins(canon: Uri -> Uri, events: seq<Event>, uri: Uri, since: nat, waitMs: int)
    requires Canonical(canon)
    ensures var s, s' := After(canon, events), After(canon, events + [Waited(uri, since, waitMs)]);
            var waiter, count := Waiter(canon(uri), since), Publications(canon, events, uri);
            if count > since || waitMs <= 0
            then s'.parked == s.parked && s'.verdicts == s.verdicts[s.next := Verdict(waiter, count > since, count)]
            else s'.parked == s.parked[s.next := waiter] && s'.verdicts == s.verdicts
  {
    AfterAppend(canon, events, Waited(uri, since, waitMs));
    CountsPublications(canon, events, uri);
  }

  /**
    A parked wait ends with the publication that is the first past its mark, answered yes, or with its
    timer, answered no; nothing else ends it.
   */
  lemma WaitEnds(canon: Uri -> Uri, events: seq<Event>, w: nat, e: Event)
    requires Canonical(canon) && w in After(canon, events).parked
    ensures var s, s' := After(canon, events), After(canon, events + [e]);
            var waiter := s.parked[w];
            var count := Publications(canon, events + [e], waiter.uri);
            && (w in s'.verdicts <==> count > waiter.since || e == TimerFired(w))
            && (w in s'.parked <==> w !in s'.verdicts)
            && (w in s'.parked ==> s'.parked[w] == waiter)
            && (w in s'.verdicts ==> s'.verdicts[w] == Verdict(waiter, count > waiter.since, count))
  {
    NoMissedPublication(canon, events);
    AfterAppend(canon, events, e);
    var s := After(canon, events);
    assert ParkedOk(s, canon, w);
    CountsPublications(canon, events + [e], s.parked[w].uri);
    CountsPublications(canon, events, s.parked[w].uri);
    StepCounts(s, canon, e, s.parked[w].uri);
  }
}
