/**
  When each document was last committed: a parser for the NUL-delimited output of
  `git log --format=@%cs --name-only -z`, run in batches of paths.
 */
module DocumentRecency {
  import opened Prelude
  import opened Strings

  type Path = string

  /** A date as git prints it, `YYYY-MM-DD`. */
  type Date = string

  const NUL := '\0'
  const BATCH := 150

  // ----- the log and its printed form -----

  /** One commit and the paths it lists, newest commit first in a log. */
  datatype Commit = Commit(date: Date, paths: seq<Path>)

  predicate Digit(c: char) {
    '0' <= c <= '9'
  }

  predicate DateShaped(d: string) {
    && |d| == 10 && d[4] == '-' && d[7] == '-'
    && forall i :: 0 <= i < 10 && i != 4 && i != 7 ==> Digit(d[i])
  }

  /** The record a commit's date is printed as. */
  predicate DateRecord(r: string) {
    |r| == 11 && r[0] == '@' && DateShaped(r[1..])
  }

  /** A file name git can print and the parser can tell from a date. */
  predicate PlainName(p: Path) {
    p != [] && NUL !in p && !DateRecord(p)
  }

  predicate PlainCommit(c: Commit) {
    DateShaped(c.date) && forall p :: p in c.paths ==> PlainName(p)
  }

  predicate Plain(log: seq<Commit>) {
    forall c :: c in log ==> PlainCommit(c)
  }

  /** The records of a commit: its date, then its paths, the first one with a newline before it. */
  function Records(c: Commit): seq<string> {
    [['@'] + c.date] + if c.paths == [] then [] else [['\n'] + c.paths[0]] + c.paths[1..]
  }

  function LogRecords(log: seq<Commit>): seq<string> {
    if log == [] then [] else Records(log[0]) + LogRecords(log[1..])
  }

  function Terminated(records: seq<string>): string {
    if records == [] then [] else records[0] + [NUL] + Terminated(records[1..])
  }

  /** What git writes for a log. */
  function Printed(log: seq<Commit>): string {
    Terminated(LogRecords(log))
  }

  // ----- the parser as functions -----

  datatype Reader = Reader(date: Option<Date>, afterDate: bool, out: map<Path, Date>)

  function ReadRecord(requested: set<Path>, r: Reader, record: string): Reader {
    var rec := if r.afterDate && record != [] && record[0] == '\n' then record[1..] else record;
    if rec == [] then r.(afterDate := false)
    else if DateRecord(rec) then r.(date := Some(rec[1..]), afterDate := true)
    else if r.date.Some? && rec in requested && rec !in r.out then
      r.(afterDate := false, out := r.out[rec := r.date.value])
    else r.(afterDate := false)
  }

  function ReadRecords(requested: set<Path>, r: Reader, records: seq<string>): Reader
    decreases |records|
  {
    if records == [] then r else ReadRecords(requested, ReadRecord(requested, r, records[0]), records[1..])
  }

  function ReadRaw(requested: set<Path>, out: map<Path, Date>, raw: string): map<Path, Date> {
    ReadRecords(requested, Reader(None, false, out), Split(raw, NUL)).out
  }

  function Batch(paths: seq<Path>, i: nat): seq<Path>
    requires i <= |paths|
  {
    paths[i..if i + BATCH < |paths| then i + BATCH else |paths|]
  }

  /** `git(batch)` is the output for a batch of paths, `None` where the call fails. */
  function FromBatch(git: seq<Path> -> Option<string>, paths: seq<Path>, i: nat, out: map<Path, Date>): map<Path, Date>
    requires i <= |paths|
    decreases |paths| - i
  {
    if i == |paths| then out
    else
      var out' := match git(Batch(paths, i))
        case None => out
        case Some(raw) => ReadRaw(ToSet(paths), out, raw);
      FromBatch(git, paths, i + |Batch(paths, i)|, out')
  }

  function ToSet(s: seq<Path>): set<Path> {
    set p | p in s
  }

  function Recency(git: seq<Path> -> Option<string>, paths: seq<Path>): map<Path, Date> {
    FromBatch(git, paths, 0, map[])
  }

  // ----- the reference: the first commit that lists a path -----

  function FirstDate(log: seq<Commit>, p: Path): Option<Date> {
    if log == [] then None else if p in log[0].paths then Some(log[0].date) else FirstDate(log[1..], p)
  }

  function Lookup(m: map<Path, Date>, p: Path): Option<Date> {
    if p in m then Some(m[p]) else None
  }

  // ----- splitting undoes printing -----

  lemma {:induction false} SplitTerminated(records: seq<string>)
    requires forall r :: r in records ==> NUL !in r
    ensures Split(Terminated(records), NUL) == records + [[]]
  {
    if records != [] {
      assert records[0] in records && forall r :: r in records[1..] ==> r in records;
      SplitTerminated(records[1..]);
      SplitAppend(records[0], Terminated(records[1..]), NUL);
      SplitWhole(records[0], NUL);
    }
  }

  lemma DatesAreClean(d: Date)
    requires DateShaped(d)
    ensures NUL !in d
  {
    forall i | 0 <= i < |d| ensures d[i] != NUL {
      assert i == 4 || i == 7 || Digit(d[i]);
    }
  }

  lemma {:induction false} RecordsAreClean(log: seq<Commit>)
    requires Plain(log)
    ensures forall r :: r in LogRecords(log) ==> NUL !in r
  {
    if log != [] {
      RecordsAreClean(log[1..]);
      var c := log[0];
      assert PlainCommit(c);
      DatesAreClean(c.date);
      forall r | r in Records(c) ensures NUL !in r {
        if c.paths != [] {
          assert c.paths[0] in c.paths && forall p :: p in c.paths[1..] ==> p in c.paths;
        }
      }
    }
  }

  // ----- reading a commit -----

  lemma {:induction false} ReadAppend(requested: set<Path>, r: Reader, a: seq<string>, b: seq<string>)
    ensures ReadRecords(requested, r, a + b) == ReadRecords(requested, ReadRecords(requested, r, a), b)
    decreases |a|
  {
    if a == [] {
      assert a + b == b;
    } else {
      ReadAppend(requested, ReadRecord(requested, r, a[0]), a[1..], b);
      assert (a + b)[1..] == a[1..] + b;
    }
  }

  /** The paths of a commit, filed under its date where they are wanted and new. */
  function File(requested: set<Path>, out: map<Path, Date>, date: Date, paths: seq<Path>): map<Path, Date>
    decreases |paths|
  {
    if paths == [] then out
    else
      var p := paths[0];
      File(requested, if p in requested && p !in out then out[p := date] else out, date, paths[1..])
  }

  lemma {:induction false} ReadPaths(requested: set<Path>, date: Date, out: map<Path, Date>, paths: seq<Path>)
    requires forall p :: p in paths ==> PlainName(p)
    ensures ReadRecords(requested, Reader(Some(date), false, out), paths)
            == Reader(Some(date), false, File(requested, out, date, paths))
    decreases |paths|
  {
    if paths != [] {
      var p := paths[0];
      assert p in paths && forall q :: q in paths[1..] ==> q in paths;
      ReadPaths(requested, date, if p in requested && p !in out then out[p := date] else out, paths[1..]);
    }
  }

  /** A date record is recognised, and the one structural newline after it is taken off the first path. */
  lemma ReadCommit(requested: set<Path>, r: Reader, c: Commit)
    requires PlainCommit(c)
    ensures ReadRecords(requested, r, Records(c))
            == Reader(Some(c.date), c.paths == [], File(requested, r.out, c.date, c.paths))
  {
    var first := ['@'] + c.date;
    var dated := Reader(Some(c.date), true, r.out);
    assert first[1..] == c.date;
    assert ReadRecord(requested, r, first) == dated;
    if c.paths == [] {
      assert Records(c) == [first];
      assert ReadRecords(requested, r, [first]) == ReadRecords(requested, dated, []);
    } else {
      var p := c.paths[0];
      var second := ['\n'] + p;
      var out := if p in requested && p !in r.out then r.out[p := c.date] else r.out;
      assert second[1..] == p && p in c.paths && PlainName(p);
      assert forall q :: q in c.paths[1..] ==> q in c.paths;
      assert ReadRecord(requested, dated, second) == Reader(Some(c.date), false, out);
      assert Records(c) == [first] + ([second] + c.paths[1..]);
      assert ReadRecords(requested, r, Records(c)) == ReadRecords(requested, dated, [second] + c.paths[1..]);
      assert ([second] + c.paths[1..])[1..] == c.paths[1..];
      ReadPaths(requested, c.date, out, c.paths[1..]);
    }
  }

  lemma {:induction false} FileLookup(requested: set<Path>, out: map<Path, Date>, date: Date, paths: seq<Path>, p: Path)
    ensures Lookup(File(requested, out, date, paths), p)
            == if p in out then Some(out[p]) else if p in requested && p in paths then Some(date) else None
    decreases |paths|
  {
    if paths != [] {
      var q := paths[0];
      FileLookup(requested, if q in requested && q !in out then out[q := date] else out, date, paths[1..], p);
    }
  }

  lemma {:induction false} ReadLog(requested: set<Path>, r: Reader, log: seq<Commit>, p: Path)
    requires Plain(log)
    ensures Lookup(ReadRecords(requested, r, LogRecords(log)).out, p)
            == if p in r.out then Some(r.out[p]) else if p in requested then FirstDate(log, p) else None
    decreases |log|
  {
    if log != [] {
      var c := log[0];
      ReadAppend(requested, r, Records(c), LogRecords(log[1..]));
      ReadCommit(requested, r, c);
      FileLookup(requested, r.out, c.date, c.paths, p);
      ReadLog(requested, ReadRecords(requested, r, Records(c)), log[1..], p);
    }
  }

  /**
    Reading one printed log gives each requested path it lists the date of the first commit
    listing it, keeps every date known before, and adds no other key.
   */
  lemma ReadsPrintedLog(requested: set<Path>, out: map<Path, Date>, log: seq<Commit>, p: Path)
    requires Plain(log)
    ensures Lookup(ReadRaw(requested, out, Printed(log)), p)
            == if p in out then Some(out[p]) else if p in requested then FirstDate(log, p) else None
  {
    var r, records := Reader(None, false, out), LogRecords(log);
    RecordsAreClean(log);
    SplitTerminated(records);
    ReadAppend(requested, r, records, [[]]);
    var r' := ReadRecords(requested, r, records);
    assert ReadRecords(requested, r', [[]]).out == r'.out by {
      assert ReadRecords(requested, r', [[]]) == ReadRecords(requested, ReadRecord(requested, r', []), []);
    }
    ReadLog(requested, r, log, p);
  }

  /** Why date-shaped names are excluded: such a file re-dates whatever its commit lists after it. */
  lemma DateNamedFileRedates(requested: set<Path>, actual: Date, named: Date, p: Path)
    requires DateShaped(actual) && DateShaped(named) && PlainName(p) && p[0] != '\n' && p in requested
    ensures var c := Commit(actual, [['@'] + named, p]);
            Lookup(ReadRecords(requested, Reader(None, false, map[]), Records(c)).out, p) == Some(named)
  {
    var c := Commit(actual, [['@'] + named, p]);
    var r := Reader(None, false, map[]);
    var first, second := ['@'] + actual, ['\n', '@'] + named;
    assert first[1..] == actual && second[1..] == ['@'] + named && second[1..][1..] == named;
    assert ReadRecord(requested, r, first) == Reader(Some(actual), true, map[]);
    assert ReadRecord(requested, Reader(Some(actual), true, map[]), second) == Reader(Some(named), true, map[]);
    assert ['\n'] + c.paths[0] == second;
    assert Records(c) == [first] + ([second] + [p]);
    ReadAppend(requested, r, [first], [second] + [p]);
    ReadAppend(requested, Reader(Some(actual), true, map[]), [second], [p]);
    var dated := Reader(Some(named), true, map[]);
    assert ReadRecord(requested, dated, p).out == map[p := named];
  }

  /** What a log must be for git to print it: shaped dates, and names that are neither empty nor hold a NUL. */
  ghost predicate Printable(log: seq<Commit>) {
    forall c :: c in log ==> DateShaped(c.date) && forall p :: p in c.paths ==> p != [] && NUL !in p
  }

  /** Reading the printed log dates `p` as it should when `requested` was asked for. */
  ghost predicate ReadRight(log: seq<Commit>, requested: set<Path>, p: Path) {
    Lookup(ReadRaw(requested, map[], Printed(log)), p) == if p in requested then FirstDate(log, p) else None
  }

  /** A record shaped like a date is never a key. */
  lemma {:induction false} DatesAreNeverKeys(requested: set<Path>, r: Reader, records: seq<string>)
    requires forall p :: p in r.out ==> !DateRecord(p)
    ensures forall p :: p in ReadRecords(requested, r, records).out ==> !DateRecord(p)
    decreases |records|
  {
    if records != [] {
      DatesAreNeverKeys(requested, ReadRecord(requested, r, records[0]), records[1..]);
    }
  }

  lemma {:induction false} ListedHasADate(log: seq<Commit>, c: Commit, p: Path)
    requires c in log && p in c.paths
    ensures FirstDate(log, p).Some?
  {
    if p !in log[0].paths {
      ListedHasADate(log[1..], c, p);
    }
  }

  /** Of all printable logs, exactly those without a name shaped like a date record are read right for every request. */
  lemma ReadRightExactlyWhenPlain(log: seq<Commit>)
    requires Printable(log)
    ensures Plain(log) <==> forall requested: set<Path>, p: Path :: ReadRight(log, requested, p)
  {
    if Plain(log) {
      forall requested: set<Path>, p: Path ensures ReadRight(log, requested, p) {
        ReadsPrintedLog(requested, map[], log, p);
      }
    } else {
      var c :| c in log && !PlainCommit(c);
      var p :| p in c.paths && !PlainName(p);
      ListedHasADate(log, c, p);
      DatesAreNeverKeys({p}, Reader(None, false, map[]), Split(Printed(log), NUL));
      assert !ReadRight(log, {p}, p);
    }
  }

  /** Records written out and read again. */
  lemma RawRecords(requested: set<Path>, records: seq<string>)
    requires forall r :: r in records ==> NUL !in r
    ensures ReadRaw(requested, map[], Terminated(records))
            == ReadRecords(requested, ReadRecords(requested, Reader(None, false, map[]), records), [[]]).out
  {
    SplitTerminated(records);
    ReadAppend(requested, Reader(None, false, map[]), records, [[]]);
  }

  lemma ReadOne(requested: set<Path>, r: Reader, record: string)
    ensures ReadRecords(requested, r, [record]) == ReadRecord(requested, r, record)
  {
    assert [record][1..] == [];
  }

  /** A newline before any date is part of its record, so this is no date. */
  lemma NoNewlineBeforeADate(requested: set<Path>, d: Date, p: Path)
    requires DateShaped(d) && PlainName(p)
    ensures ReadRaw(requested, map[], Terminated([['\n', '@'] + d] + [p])) == map[]
  {
    var start, first := Reader(None, false, map[]), ['\n', '@'] + d;
    DatesAreClean(d);
    RawRecords(requested, [first] + [p]);
    ReadOne(requested, start, first);
    ReadOne(requested, start, p);
    ReadOne(requested, start, []);
    ReadAppend(requested, start, [first], [p]);
    assert ReadRecord(requested, start, first) == start && ReadRecord(requested, start, p) == start;
  }

  /** Nor is a newline structural once an empty record has come between: it is part of the name. */
  lemma NoNewlineAfterAnEmptyRecord(d: Date, p: Path)
    requires DateShaped(d) && PlainName(p)
    ensures p !in ReadRecords({p}, Reader(None, false, map[]), [['@'] + d] + ([[]] + [['\n'] + p])).out
  {
    var start, dated := Reader(None, false, map[]), Reader(Some(d), true, map[]);
    var first, last := ['@'] + d, ['\n'] + p;
    assert first[1..] == d && last != p;
    ReadOne({p}, start, first);
    ReadOne({p}, dated, []);
    ReadOne({p}, dated.(afterDate := false), last);
    ReadAppend({p}, start, [first], [[]] + [last]);
    ReadAppend({p}, dated, [[]], [last]);
  }

  // ----- all batches -----

  /** `git` prints the log of each batch, where the call succeeds. */
  ghost predicate Prints(git: seq<Path> -> Option<string>, logs: seq<Path> -> Option<seq<Commit>>) {
    forall b: seq<Path> :: match logs(b)
      case None => git(b).None?
      case Some(log) => Plain(log) && git(b) == Some(Printed(log))
  }

  /** The logs of the batches from position `i` on, one after the other; a failed batch has none. */
  function LogFrom(logs: seq<Path> -> Option<seq<Commit>>, paths: seq<Path>, i: nat): seq<Commit>
    requires i <= |paths|
    decreases |paths| - i
  {
    if i == |paths| then []
    else logs(Batch(paths, i)).GetOr([]) + LogFrom(logs, paths, i + |Batch(paths, i)|)
  }

  lemma {:induction false} FirstDateAppend(a: seq<Commit>, b: seq<Commit>, p: Path)
    ensures FirstDate(a + b, p) == if FirstDate(a, p).Some? then FirstDate(a, p) else FirstDate(b, p)
  {
    if a == [] {
      assert a + b == b;
    } else {
      FirstDateAppend(a[1..], b, p);
      assert (a + b)[1..] == a[1..] + b;
    }
  }

  lemma {:induction false} BatchesRead(git: seq<Path> -> Option<string>, logs: seq<Path> -> Option<seq<Commit>>,
                                       paths: seq<Path>, i: nat, out: map<Path, Date>, p: Path)
    requires Prints(git, logs) && i <= |paths|
    ensures Lookup(FromBatch(git, paths, i, out), p)
            == if p in out then Some(out[p]) else if p in paths then FirstDate(LogFrom(logs, paths, i), p) else None
    decreases |paths| - i
  {
    if i < |paths| {
      var b := Batch(paths, i);
      var next := i + |b|;
      match logs(b) {
        case None =>
          assert logs(b).GetOr([]) + LogFrom(logs, paths, next) == LogFrom(logs, paths, next);
          BatchesRead(git, logs, paths, next, out, p);
        case Some(log) =>
          ReadsPrintedLog(ToSet(paths), out, log, p);
          FirstDateAppend(log, LogFrom(logs, paths, next), p);
          BatchesRead(git, logs, paths, next, ReadRaw(ToSet(paths), out, Printed(log)), p);
      }
    }
  }

  /**
    The map holds exactly the requested paths some successful batch's log lists, each with the
    date of the first commit listing it; names may begin with spaces or newlines.
   */
  lemma EachPathGetsItsFirstDate(git: seq<Path> -> Option<string>, logs: seq<Path> -> Option<seq<Commit>>,
                                 paths: seq<Path>, p: Path)
    requires Prints(git, logs)
    ensures Lookup(Recency(git, paths), p) == if p in paths then FirstDate(LogFrom(logs, paths, 0), p) else None
  {
    BatchesRead(git, logs, paths, 0, map[], p);
  }

  /** The batches from position `i` on. */
  function Batches(paths: seq<Path>, i: nat): seq<seq<Path>>
    requires i <= |paths|
    decreases |paths| - i
  {
    if i == |paths| then [] else [Batch(paths, i)] + Batches(paths, i + |Batch(paths, i)|)
  }

  function Flat(batches: seq<seq<Path>>): seq<Path> {
    if batches == [] then [] else batches[0] + Flat(batches[1..])
  }

  lemma FlatFront(b: seq<Path>, rest: seq<seq<Path>>)
    ensures Flat([b] + rest) == b + Flat(rest)
  {
    assert ([b] + rest)[1..] == rest;
  }

  lemma Slices(paths: seq<Path>, i: nat, j: nat)
    requires i <= j <= |paths|
    ensures paths[i..j] + paths[j..] == paths[i..]
  {
  }

  /** Every path is asked for once, in order, with at most 150 in one call. */
  lemma {:induction false} BatchesAskForAll(paths: seq<Path>, i: nat)
    requires i <= |paths|
    ensures Flat(Batches(paths, i)) == paths[i..]
    ensures forall b :: b in Batches(paths, i) ==> 1 <= |b| <= 150
    decreases |paths| - i
  {
    if i < |paths| {
      var b := Batch(paths, i);
      BatchesAskForAll(paths, i + |b|);
      FlatFront(b, Batches(paths, i + |b|));
      Slices(paths, i, i + |b|);
    }
  }

  predicate Digits(s: string, n: nat) {
    |s| == n && forall c :: c in s ==> '0' <= c <= '9'
  }

  /** A date is four, two and two digits with hyphens between them. */
  lemma DateIsSpelled(d: Date)
    ensures DateShaped(d) <==> |d| >= 8 && Digits(d[..4], 4) && d[4] == '-' && Digits(d[5..7], 2) && d[7] == '-'
                               && Digits(d[8..], 2)
  {
    if |d| >= 8 && Digits(d[..4], 4) && d[4] == '-' && Digits(d[5..7], 2) && d[7] == '-' && Digits(d[8..], 2) {
      forall i | 0 <= i < 10 && i != 4 && i != 7 ensures Digit(d[i]) {
        assert if i < 4 then d[i] in d[..4] else if i < 7 then d[i] in d[5..7] else d[i] in d[8..];
      }
    }
  }

  // ----- the parser -----

  method ReadBatch(requested: set<Path>, out: map<Path, Date>, raw: string) returns (out': map<Path, Date>)
    ensures out' == ReadRaw(requested, out, raw)
  {
    var date: Option<Date>, afterDate := None, false;
    out' := out;
    var records := Split(raw, NUL);
    for i := 0 to |records|
      invariant ReadRecords(requested, Reader(date, afterDate, out'), records[i..]).out == ReadRaw(requested, out, raw)
    {
      var rec := records[i];
      assert records[i..][1..] == records[i + 1..];
      if afterDate && rec != [] && rec[0] == '\n' {
        rec := rec[1..];
      }
      afterDate := false;
      if rec == [] {
        continue;
      }
      if DateRecord(rec) {
        date, afterDate := Some(rec[1..]), true;
        continue;
      }
      if date.Some? && rec in requested && rec !in out' {
        out' := out'[rec := date.value];
      }
    }
    assert records[|records|..] == [];
  }

  method FindRecency(git: seq<Path> -> Option<string>, paths: seq<Path>) returns (out: map<Path, Date>)
    ensures out == Recency(git, paths)
  {
    out := map[];
    var requested := ToSet(paths);
    var i := 0;
    while i < |paths|
      invariant i <= |paths| && FromBatch(git, paths, i, out) == Recency(git, paths)
    {
      var batch := Batch(paths, i);
      match git(batch) {
        case None =>
        case Some(raw) => out := ReadBatch(requested, out, raw);
      }
      i := i + |batch|;
    }
  }
}
