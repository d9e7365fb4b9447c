/**
  One collection's view of the documents it validates against: a bounded cache without eviction.
  The file system may change between any two accesses.
 */
module DocumentSnapshot {
  import opened Prelude
  import opened Strings

  /** A canonical file identity. */
  type Key = string

  datatype Reason = DirectoryUri | FileStatusUnavailable | CountBudget | BytesBudget

  /** What reading a file gives; `bytes` is the length of the text's UTF-8 encoding. */
  datatype Content = Text(text: string, bytes: nat) | IsDirectory | Unreadable

  /** The file system at one moment: `size` is `None` where `stat` throws. */
  datatype Disk = Disk(realpath: string -> string, size: Key -> Option<nat>, content: Key -> Content)

  /** One access: the file asked for, and what the file system would say about it at that moment. */
  datatype Request = Request(key: Key, size: Option<nat>, content: Content)

  datatype Config = Config(maxDocuments: nat, maxRetainedBytes: nat)

  datatype Entry = Captured(text: string, bytes: nat) | Failed(reason: Reason)

  datatype Answer = Ok(text: string) | Unavailable(reason: Reason)

  datatype Counters = Counters(accesses: nat, hits: nat, captured: nat, readFailures: nat, bytesRefusals: nat,
                               countRefusals: nat, readsAttempted: nat, statsAttempted: nat)

  datatype State = State(documents: map<Key, Entry>, retainedBytes: nat, counters: Counters)

  const INITIAL := State(map[], 0, Counters(0, 0, 0, 0, 0, 0, 0, 0))

  // ----- keys -----

  function Upper(c: char): char {
    if 'a' <= c <= 'z' then c - ('a' - 'A') else c
  }

  predicate HasDrive(p: string) {
    |p| >= 2 && p[1] == ':' && 'A' <= Upper(p[0]) <= 'Z'
  }

  /** `realpath` resolves the path; separators and the drive letter are all that is normalised after it. */
  function CanonicalKey(d: Disk, path: string): Key {
    var p := Slashed(d.realpath(path));
    if HasDrive(p) then [Upper(p[0])] + p[1..] else p
  }

  function Observe(d: Disk, path: string): Request {
    var key := CanonicalKey(d, path);
    Request(key, d.size(key), d.content(key))
  }

  predicate SameButDrive(a: string, b: string) {
    a == b || (HasDrive(a) && HasDrive(b) && Upper(a[0]) == Upper(b[0]) && a[1..] == b[1..])
  }

  /** Two paths share a key exactly when they resolve to one file, up to slashes and the case of the drive letter. */
  lemma KeysKeepFilesApart(d: Disk, p: string, q: string)
    ensures CanonicalKey(d, p) == CanonicalKey(d, q) <==> SameButDrive(Slashed(d.realpath(p)), Slashed(d.realpath(q)))
  {
    var a, b := Slashed(d.realpath(p)), Slashed(d.realpath(q));
    assert a != [] ==> a == [a[0]] + a[1..];
    assert b != [] ==> b == [b[0]] + b[1..];
    if CanonicalKey(d, p) == CanonicalKey(d, q) {
      assert HasDrive(a) ==> CanonicalKey(d, p)[1..] == a[1..];
      assert HasDrive(b) ==> CanonicalKey(d, q)[1..] == b[1..];
    }
  }

  /** The key is the resolved path with forward slashes; a drive letter at its front, and nothing else, is a capital. */
  lemma KeyIsSpelled(d: Disk, path: string)
    ensures var p, key := Slashed(d.realpath(path)), CanonicalKey(d, path);
            && |key| == |p| && (|p| > 0 ==> key[1..] == p[1..])
            && (|p| >= 2 && p[1] as int == 58 && 97 <= p[0] as int <= 122 ==> key[0] as int == p[0] as int - 32)
            && (|p| > 0 && !(|p| >= 2 && p[1] as int == 58 && 97 <= p[0] as int <= 122) ==> key == p)
  {
    var p := Slashed(d.realpath(path));
    if |p| > 0 {
      assert p == [p[0]] + p[1..];
    }
  }

  // ----- one access -----

  function Served(e: Entry): Answer {
    match e
    case Captured(text, _) => Ok(text)
    case Failed(reason) => Unavailable(reason)
  }

  /** `stat` already shows that the file does not fit, so it is not read. */
  predicate Preflighted(cfg: Config, r: Request, retained: nat) {
    r.size.Some? && retained + r.size.value > cfg.maxRetainedBytes
  }

  /** What a first access makes of a document, with `retained` bytes already held. */
  function FirstLook(cfg: Config, r: Request, retained: nat): Entry {
    if Preflighted(cfg, r, retained) then Failed(BytesBudget)
    else match r.content
      case IsDirectory => Failed(DirectoryUri)
      case Unreadable => Failed(FileStatusUnavailable)
      case Text(text, bytes) =>
        if retained + bytes > cfg.maxRetainedBytes then Failed(BytesBudget) else Captured(text, bytes)
  }

  function Weight(e: Entry): nat {
    if e.Captured? then e.bytes else 0
  }

  /** An access, its answer, and the key it went to the file system for. */
  datatype Outcome = Outcome(state: State, answer: Answer, probed: Option<Key>)

  function CountFirst(n: Counters, e: Entry, read: bool): Counters {
    n.(accesses := n.accesses + 1,
       captured := n.captured + (if e.Captured? then 1 else 0),
       bytesRefusals := n.bytesRefusals + (if e == Failed(BytesBudget) then 1 else 0),
       readFailures := n.readFailures + (if e.Failed? && e.reason != BytesBudget then 1 else 0),
       readsAttempted := n.readsAttempted + (if read then 1 else 0),
       statsAttempted := n.statsAttempted + 1)
  }

  /** The state after filing `e` for a key not seen before. */
  function Filed(s: State, key: Key, e: Entry, read: bool): State {
    State(s.documents[key := e], s.retainedBytes + Weight(e), CountFirst(s.counters, e, read))
  }

  function Access(cfg: Config, s: State, r: Request): Outcome {
    var key := r.key;
    var n := s.counters;
    if key in s.documents then
      Outcome(s.(counters := n.(accesses := n.accesses + 1, hits := n.hits + 1)), Served(s.documents[key]), None)
    else if |s.documents| >= cfg.maxDocuments then
      Outcome(s.(counters := n.(accesses := n.accesses + 1, countRefusals := n.countRefusals + 1)),
              Unavailable(CountBudget), None)
    else
      var e := FirstLook(cfg, r, s.retainedBytes);
      Outcome(Filed(s, key, e, !Preflighted(cfg, r, s.retainedBytes)), Served(e), Some(key))
  }

  // ----- accounting -----

  ghost function Total(documents: map<Key, Entry>, weight: Entry -> nat): nat {
    if documents == map[] then 0
    else
      var k :| k in documents;
      weight(documents[k]) + Total(documents - {k}, weight)
  }

  lemma {:induction false} TotalTake(documents: map<Key, Entry>, weight: Entry -> nat, key: Key)
    requires key in documents
    ensures Total(documents, weight) == weight(documents[key]) + Total(documents - {key}, weight)
    decreases |documents|
  {
    var k :| k in documents && Total(documents, weight) == weight(documents[k]) + Total(documents - {k}, weight);
    if k != key {
      TotalTake(documents - {k}, weight, key);
      TotalTake(documents - {key}, weight, k);
      assert documents - {k} - {key} == documents - {key} - {k};
    }
  }

  lemma TotalAdd(documents: map<Key, Entry>, weight: Entry -> nat, key: Key, e: Entry)
    requires key !in documents
    ensures Total(documents[key := e], weight) == Total(documents, weight) + weight(e)
  {
    TotalTake(documents[key := e], weight, key);
    assert documents[key := e] - {key} == documents;
  }

  const BYTES := (e: Entry) => Weight(e)
  const ONE_CAPTURED := (e: Entry) => if e.Captured? then 1 else 0
  const ONE_OVERSIZED := (e: Entry) => if e == Failed(BytesBudget) then 1 else 0
  const ONE_UNREADABLE := (e: Entry) => if e.Failed? && e.reason != BytesBudget then 1 else 0

  /** The bytes held are those of the captured documents, and every counter counts what it says. */
  ghost predicate Accounted(s: State) {
    && s.retainedBytes == Total(s.documents, BYTES)
    && s.counters.captured == Total(s.documents, ONE_CAPTURED)
    && s.counters.bytesRefusals == Total(s.documents, ONE_OVERSIZED)
    && s.counters.readFailures == Total(s.documents, ONE_UNREADABLE)
  }

  /** Both budgets hold, and every access is exactly one of a hit, a capture, a cached failure or a count refusal. */
  predicate Bounded(cfg: Config, s: State) {
    && s.retainedBytes <= cfg.maxRetainedBytes && |s.documents| <= cfg.maxDocuments
    && var n := s.counters;
       && n.accesses == n.hits + n.captured + (n.readFailures + n.bytesRefusals) + n.countRefusals
       && |s.documents| == n.captured + n.readFailures + n.bytesRefusals
       && n.statsAttempted == |s.documents|
       && n.captured + n.readFailures <= n.readsAttempted <= n.statsAttempted
  }

  ghost predicate Inv(cfg: Config, s: State) {
    Accounted(s) && Bounded(cfg, s)
  }

  lemma FiledAccounted(s: State, key: Key, e: Entry, read: bool)
    requires Accounted(s) && key !in s.documents
    ensures Accounted(Filed(s, key, e, read))
  {
    TotalAdd(s.documents, BYTES, key, e);
    TotalAdd(s.documents, ONE_CAPTURED, key, e);
    TotalAdd(s.documents, ONE_OVERSIZED, key, e);
    TotalAdd(s.documents, ONE_UNREADABLE, key, e);
  }

  lemma FiledBounded(cfg: Config, s: State, key: Key, e: Entry, read: bool)
    requires Bounded(cfg, s) && key !in s.documents && |s.documents| < cfg.maxDocuments
    requires s.retainedBytes + Weight(e) <= cfg.maxRetainedBytes && (e != Failed(BytesBudget) ==> read)
    ensures Bounded(cfg, Filed(s, key, e, read))
  {
  }

  lemma AccessInv(cfg: Config, s: State, r: Request, s': State)
    requires Inv(cfg, s) && s' == Access(cfg, s, r).state
    ensures Inv(cfg, s')
  {
    var key := r.key;
    if key !in s.documents && |s.documents| < cfg.maxDocuments {
      var e := FirstLook(cfg, r, s.retainedBytes);
      FiledAccounted(s, key, e, !Preflighted(cfg, r, s.retainedBytes));
      FiledBounded(cfg, s, key, e, !Preflighted(cfg, r, s.retainedBytes));
    }
  }

  // ----- whole collections -----

  /** The state after the first `n` accesses of a run. */
  function After(cfg: Config, run: seq<Request>, n: nat): State
    requires n <= |run|
  {
    if n == 0 then INITIAL else Access(cfg, After(cfg, run, n - 1), run[n - 1]).state
  }

  /** What happens at access `i` of a run. */
  function At(cfg: Config, run: seq<Request>, i: nat): Outcome
    requires i < |run|
  {
    Access(cfg, After(cfg, run, i), run[i])
  }

  lemma AfterOne(cfg: Config, run: seq<Request>, n: nat)
    requires n < |run|
    ensures After(cfg, run, n + 1) == Access(cfg, After(cfg, run, n), run[n]).state
  {
  }

  lemma InvNext(cfg: Config, run: seq<Request>, n: nat)
    requires n < |run| && Inv(cfg, After(cfg, run, n))
    ensures Inv(cfg, After(cfg, run, n + 1))
  {
    AfterOne(cfg, run, n);
    AccessInv(cfg, After(cfg, run, n), run[n], After(cfg, run, n + 1));
  }

  lemma InitialInv(cfg: Config)
    ensures Inv(cfg, INITIAL)
  {
  }

  /** Over every collection, whatever happens on disk, the accounts balance and the budgets hold. */
  lemma {:induction false} AlwaysInv(cfg: Config, run: seq<Request>, n: nat)
    requires n <= |run|
    ensures Inv(cfg, After(cfg, run, n))
  {
    if n == 0 {
      InitialInv(cfg);
    } else {
      AlwaysInv(cfg, run, n - 1);
      InvNext(cfg, run, n - 1);
    }
  }

  /** The answer the snapshot is committed to give for `key`. */
  predicate Committed(cfg: Config, s: State, key: Key, a: Answer) {
    if key in s.documents then a == Served(s.documents[key])
    else |s.documents| >= cfg.maxDocuments && a == Unavailable(CountBudget)
  }

  lemma BecomesCommitted(cfg: Config, s: State, r: Request)
    ensures Committed(cfg, Access(cfg, s, r).state, r.key, Access(cfg, s, r).answer)
    ensures Access(cfg, s, r).probed.Some? ==> r.key in Access(cfg, s, r).state.documents
  {
  }

  lemma KeepsCommitment(cfg: Config, s: State, r: Request, key: Key, a: Answer)
    requires Committed(cfg, s, key, a)
    ensures Committed(cfg, Access(cfg, s, r).state, key, a)
    ensures key in s.documents ==> key in Access(cfg, s, r).state.documents
  {
  }

  lemma {:induction false} StaysCommitted(cfg: Config, run: seq<Request>, i: nat, j: nat)
    requires i < j <= |run|
    ensures Committed(cfg, After(cfg, run, j), run[i].key, At(cfg, run, i).answer)
    ensures At(cfg, run, i).probed.Some? ==> run[i].key in After(cfg, run, j).documents
    decreases j
  {
    var s := After(cfg, run, j - 1);
    if i < j - 1 {
      StaysCommitted(cfg, run, i, j - 1);
      KeepsCommitment(cfg, s, run[j - 1], run[i].key, At(cfg, run, i).answer);
    } else {
      BecomesCommitted(cfg, s, run[j - 1]);
    }
  }

  /**
    Once the snapshot has answered for a file, every later access to that file gets the identical
    answer, whatever the disk does in between and whatever else is read.
   */
  lemma AnswersAreStable(cfg: Config, run: seq<Request>, i: nat, j: nat)
    requires i < j < |run| && run[i].key == run[j].key
    ensures At(cfg, run, i).answer == At(cfg, run, j).answer
  {
    StaysCommitted(cfg, run, i, j);
  }

  /** No file is looked at twice on disk in one collection. */
  lemma ProbedOnce(cfg: Config, run: seq<Request>, i: nat, j: nat)
    requires i < j < |run| && At(cfg, run, i).probed.Some?
    ensures At(cfg, run, j).probed != At(cfg, run, i).probed
  {
    StaysCommitted(cfg, run, i, j);
  }

  /** Access `i` captured `text` for its key from the disk of that moment. */
  predicate CapturedAt(cfg: Config, run: seq<Request>, i: nat, key: Key, text: string) {
    && i < |run| && run[i].key == key && At(cfg, run, i).probed == Some(key)
    && run[i].content.Text? && run[i].content.text == text
  }

  lemma {:induction false} CapturesAreReads(cfg: Config, run: seq<Request>, n: nat, key: Key)
    requires n <= |run| && key in After(cfg, run, n).documents && After(cfg, run, n).documents[key].Captured?
    ensures exists i: nat :: i < n && CapturedAt(cfg, run, i, key, After(cfg, run, n).documents[key].text)
  {
    if n > 0 {
      if key in After(cfg, run, n - 1).documents {
        CapturesAreReads(cfg, run, n - 1, key);
      } else {
        assert CapturedAt(cfg, run, n - 1, key, After(cfg, run, n).documents[key].text);
      }
    }
  }

  /** Every text handed out was read from disk, once, by an access to that file no later than this one. */
  lemma TextsWereRead(cfg: Config, run: seq<Request>, j: nat)
    requires j < |run| && At(cfg, run, j).answer.Ok?
    ensures exists i: nat :: i <= j && CapturedAt(cfg, run, i, run[j].key, At(cfg, run, j).answer.text)
  {
    CapturesAreReads(cfg, run, j + 1, run[j].key);
  }

  /** A file is in the snapshot exactly when some access went to disk for it. */
  lemma {:induction false} KnownExactlyWhenProbed(cfg: Config, run: seq<Request>, n: nat, key: Key)
    requires n <= |run|
    ensures key in After(cfg, run, n).documents <==> exists i: nat :: i < n && At(cfg, run, i).probed == Some(key)
  {
    if n > 0 {
      KnownExactlyWhenProbed(cfg, run, n - 1, key);
      if key in After(cfg, run, n).documents && key !in After(cfg, run, n - 1).documents {
        assert At(cfg, run, n - 1).probed == Some(key);
      }
    }
  }

  /** The document fits beside `retained` bytes, by its size on disk where that is known and by its text. */
  predicate Fits(cfg: Config, r: Request, retained: nat) {
    && r.content.Text? && retained + r.content.bytes <= cfg.maxRetainedBytes
    && (r.size.Some? ==> retained + r.size.value <= cfg.maxRetainedBytes)
  }

  /**
    The answer to the first look at a file: refused unseen when there is no room for another document,
    its text exactly when it is readable and fits, and otherwise the reason why not.
   */
  lemma FirstLookAnswers(cfg: Config, run: seq<Request>, i: nat)
    requires i < |run| && forall j: nat :: j < i ==> At(cfg, run, j).probed != Some(run[i].key)
    ensures var s, r, o := After(cfg, run, i), run[i], At(cfg, run, i);
            var room := |s.documents| < cfg.maxDocuments;
            && (o.answer == Unavailable(CountBudget) <==> !room)
            && (o.probed == if room then Some(r.key) else None)
            && (o.answer.Ok? <==> room && Fits(cfg, r, s.retainedBytes))
            && (o.answer.Ok? ==> o.answer.text == r.content.text)
            && (o.answer == Unavailable(DirectoryUri)
                <==> room && r.content.IsDirectory? && !Preflighted(cfg, r, s.retainedBytes))
            && (o.answer == Unavailable(FileStatusUnavailable)
                <==> room && r.content.Unreadable? && !Preflighted(cfg, r, s.retainedBytes))
  {
    KnownExactlyWhenProbed(cfg, run, i, run[i].key);
  }

  datatype Kind = Hit | CountRefused | ReadFromDisk

  /** What kind of access a request is in the state it meets. */
  predicate IsKind(cfg: Config, s: State, r: Request, kind: Kind) {
    match kind
    case Hit => r.key in s.documents
    case CountRefused => r.key !in s.documents && |s.documents| >= cfg.maxDocuments
    case ReadFromDisk =>
      r.key !in s.documents && |s.documents| < cfg.maxDocuments && !Preflighted(cfg, r, s.retainedBytes)
  }

  /** How many of the first `n` accesses are of a kind. */
  function Tally(cfg: Config, run: seq<Request>, n: nat, kind: Kind): nat
    requires n <= |run|
  {
    if n == 0 then 0
    else Tally(cfg, run, n - 1, kind) + if IsKind(cfg, After(cfg, run, n - 1), run[n - 1], kind) then 1 else 0
  }

  function Counter(c: Counters, kind: Kind): nat {
    match kind
    case Hit => c.hits
    case CountRefused => c.countRefusals
    case ReadFromDisk => c.readsAttempted
  }

  lemma AccessCounts(cfg: Config, s: State, r: Request, kind: Kind)
    ensures var c, c' := s.counters, Access(cfg, s, r).state.counters;
            && c'.accesses == c.accesses + 1
            && Counter(c', kind) == Counter(c, kind) + if IsKind(cfg, s, r, kind) then 1 else 0
  {
  }

  /** The counters that the documents do not tell count the accesses of their kind. */
  lemma {:induction false} CountersTally(cfg: Config, run: seq<Request>, n: nat, kind: Kind)
    requires n <= |run|
    ensures After(cfg, run, n).counters.accesses == n
    ensures Counter(After(cfg, run, n).counters, kind) == Tally(cfg, run, n, kind)
  {
    if n > 0 {
      CountersTally(cfg, run, n - 1, kind);
      AccessCounts(cfg, After(cfg, run, n - 1), run[n - 1], kind);
    }
  }

  // ----- the snapshot -----

  class Snapshot {
    const cfg: Config
    var documents: map<Key, Entry>
    var retainedBytes: nat
    var counters: Counters

    ghost function Current(): State
      reads this
    {
      State(documents, retainedBytes, counters)
    }

    constructor (cfg: Config)
      ensures this.cfg == cfg && Current() == INITIAL
    {
      this.cfg := cfg;
      documents, retainedBytes, counters := map[], 0, Counters(0, 0, 0, 0, 0, 0, 0, 0);
    }

    /** File the outcome of a first look under its key. */
    method Settle(key: Key, e: Entry, read: bool) returns (a: Answer)
      modifies this
      ensures Current() == Filed(old(Current()), key, e, read)
      ensures a == Served(e)
    {
      documents := documents[key := e];
      retainedBytes := retainedBytes + Weight(e);
      counters := CountFirst(counters, e, read);
      return Served(e);
    }

    method Read(d: Disk, path: string) returns (a: Answer)
      modifies this
      ensures Current() == Access(cfg, old(Current()), Observe(d, path)).state
      ensures a == Access(cfg, old(Current()), Observe(d, path)).answer
    {
      var key := CanonicalKey(d, path);
      if key in documents {
        counters := counters.(accesses := counters.accesses + 1, hits := counters.hits + 1);
        return Served(documents[key]);
      }
      if |documents| >= cfg.maxDocuments {
        counters := counters.(accesses := counters.accesses + 1, countRefusals := counters.countRefusals + 1);
        return Unavailable(CountBudget);
      }
      match d.size(key) {
        case Some(size) =>
          if retainedBytes + size > cfg.maxRetainedBytes {
            a := Settle(key, Failed(BytesBudget), false);
            return;
          }
        case None =>
      }
      match d.content(key) {
        case IsDirectory => a := Settle(key, Failed(DirectoryUri), true);
        case Unreadable => a := Settle(key, Failed(FileStatusUnavailable), true);
        case Text(text, bytes) =>
          if retainedBytes + bytes > cfg.maxRetainedBytes {
            a := Settle(key, Failed(BytesBudget), true);
          } else {
            a := Settle(key, Captured(text, bytes), true);
          }
      }
    }
  }
}
