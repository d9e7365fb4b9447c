/**
  May a caller set be called exhaustive? A verdict over the compile database and a census of the
  sources on disk, with a time-limited cache in front of the census.
 */
module CompileDbCoverage {
  import opened Prelude
  import opened SourceWalk

  type Root = Path
  type Hash = nat

  const DISK_WALK_TTL_MS := 60_000

  /** A prepared compile database: `files` are the first-party sources it has a command for. */
  datatype Prep = Prep(found: bool, hash: Hash, foreignToolchain: bool, unity: bool, unityExpanded: bool,
                       firstPartyCount: nat, files: set<Key>)

  datatype Flags = Flags(hash: Hash, foreignToolchain: bool, unity: bool, unityUnexpanded: bool)

  /** A census and the time it was taken. */
  datatype Census = Census(hash: Hash, at: int, walked: Walked)

  /** The two module-level caches, by project root. */
  datatype Caches = Caches(censuses: map<Root, Census>, flags: map<Root, Flags>)

  /** The file a caller asked about, its path already made relative to the root and lower-cased. */
  datatype QueriedFile = QueriedFile(key: Key, header: bool)

  datatype Cause =
    | NoFirstParty | TooLarge | PoorlyCovered | FileUncovered
    | ForeignToolchain | UnityUnexpanded | PartlyCovered | CensusRecalled

  datatype Verdict =
    | NoDatabase
    | Verdict(complete: bool, fullyCovered: bool, censusFresh: bool, reason: Option<Cause>,
              onDisk: nat, covered: nat, capped: bool)
  {
    predicate Grants() {
      Verdict? && complete
    }
  }

  // ----- the verdict -----

  function FlagsOf(prep: Prep): Flags {
    Flags(prep.hash, prep.foreignToolchain, prep.unity, prep.unity && !prep.unityExpanded)
  }

  /** The flags a call uses: cached ones as long as the database's hash is the same. */
  function FlagsFor(c: Caches, root: Root, prep: Prep): Flags {
    if root in c.flags && c.flags[root].hash == prep.hash then c.flags[root] else FlagsOf(prep)
  }

  /** The ratio of covered to all sources is below nine tenths; the ratio of an empty census is not a number. */
  predicate LowRatio(covered: nat, onDisk: nat) {
    onDisk > 0 && 10 * covered < 9 * onDisk
  }

  predicate Uncovered(prep: Prep, file: Option<QueriedFile>, poorly: bool) {
    && file.Some? && prep.firstPartyCount != 0 && !(file.value.header && !poorly)
    && file.value.key !in prep.files
  }

  /** The verdict from a census; `measured` when it was measured in this call. */
  function Judge(f: Flags, prep: Prep, file: Option<QueriedFile>, wsl: bool, w: Walked, covered: nat,
                 measured: bool): Verdict {
    var onDisk := |w.sources|;
    var poorly := w.capped || LowRatio(covered, onDisk);
    var fully := !w.capped && onDisk > 0 && covered == onDisk;
    var none := prep.firstPartyCount == 0;
    var fileUncovered := Uncovered(prep, file, poorly);
    var foreign := f.foreignToolchain && !wsl;
    Verdict(!foreign && !f.unityUnexpanded && !none && !poorly && !fileUncovered && fully && measured,
            fully, measured,
            if none then Some(NoFirstParty)
            else if poorly && w.capped then Some(TooLarge)
            else if poorly then Some(PoorlyCovered)
            else if fileUncovered then Some(FileUncovered)
            else if foreign then Some(ForeignToolchain)
            else if f.unityUnexpanded then Some(UnityUnexpanded)
            else if !fully && !w.capped && onDisk > 0 then Some(PartlyCovered)
            else if !measured then Some(CensusRecalled)
            else None,
            onDisk, covered, w.capped)
  }

  function JudgeAll(f: Flags, prep: Prep, file: Option<QueriedFile>, wsl: bool, w: Walked, measured: bool): Verdict {
    Judge(f, prep, file, wsl, w, |prep.files * w.sources|, measured)
  }

  // ----- the census and its cache -----

  /** A cached census still young enough to be recalled. */
  predicate Recallable(c: Caches, root: Root, hash: Hash, now: int) {
    root in c.censuses && c.censuses[root].hash == hash && now - c.censuses[root].at < DISK_WALK_TTL_MS
  }

  /** A recalled census that would license the grant is measured again before it does. */
  predicate WouldGrant(prep: Prep, w: Walked) {
    !w.capped && w.sources != {} && |prep.files| >= |w.sources|
  }

  predicate Recalls(c: Caches, root: Root, prep: Prep, now: int) {
    Recallable(c, root, prep.hash, now) && !WouldGrant(prep, c.censuses[root].walked)
  }

  /** The answer of one call, and the caches it leaves. */
  function Answer(c: Caches, d: Disk, root: Root, prep: Prep, file: Option<QueriedFile>, wsl: bool,
                  now: int): (Verdict, Caches) {
    if !prep.found then (NoDatabase, c)
    else
      var f := FlagsFor(c, root, prep);
      var c' := c.(flags := c.flags[root := f]);
      if Recalls(c, root, prep, now) then (JudgeAll(f, prep, file, wsl, c.censuses[root].walked, false), c')
      else
        var w := Walk(d, root);
        (JudgeAll(f, prep, file, wsl, w, true), c'.(censuses := c.censuses[root := Census(prep.hash, now, w)]))
  }

  /** The same call without a census cache. */
  function UncachedAnswer(c: Caches, d: Disk, root: Root, prep: Prep, file: Option<QueriedFile>, wsl: bool): Verdict {
    if !prep.found then NoDatabase else JudgeAll(FlagsFor(c, root, prep), prep, file, wsl, Walk(d, root), true)
  }

  // ----- what a grant means -----

  lemma SameSize<T>(part: set<T>, all: set<T>)
    requires part <= all && |part| == |all|
    ensures part == all
  {
    assert all == part + (all - part);
    assert |all - part| == 0;
  }

  lemma CoveredAll(files: set<Key>, sources: set<Key>)
    ensures |files * sources| == |sources| <==> sources <= files
    ensures sources <= files ==> |sources| <= |files|
  {
    if |files * sources| == |sources| {
      SameSize(files * sources, sources);
    }
    if sources <= files {
      assert files * sources == sources;
      SubsetSize(sources, files);
    }
  }

  /** What the disk and the database must be for an exhaustive claim. */
  ghost predicate Licensed(f: Flags, d: Disk, root: Root, prep: Prep, file: Option<QueriedFile>, wsl: bool) {
    var w := Walk(d, root);
    && prep.found && prep.firstPartyCount > 0
    && (f.foreignToolchain ==> wsl) && !f.unityUnexpanded
    && !w.capped && w.sources != {} && w.sources <= prep.files
    && (file.Some? && !file.value.header ==> file.value.key in prep.files)
  }

  lemma UncachedGrantIsLicence(c: Caches, d: Disk, root: Root, prep: Prep, file: Option<QueriedFile>, wsl: bool)
    ensures UncachedAnswer(c, d, root, prep, file, wsl).Grants()
            <==> Licensed(FlagsFor(c, root, prep), d, root, prep, file, wsl)
  {
    CoveredAll(prep.files, Walk(d, root).sources);
  }

  /**
    Whatever the caches hold, a call that grants walked the disk in that same call to the end,
    found at least one source, and every source it found is in the compile database.
   */
  lemma GrantIsMeasured(c: Caches, d: Disk, root: Root, prep: Prep, file: Option<QueriedFile>, wsl: bool, now: int)
    requires Answer(c, d, root, prep, file, wsl, now).0.Grants()
    ensures Licensed(FlagsFor(c, root, prep), d, root, prep, file, wsl)
    ensures var c' := Answer(c, d, root, prep, file, wsl, now).1;
            root in c'.censuses && c'.censuses[root] == Census(prep.hash, now, Walk(d, root))
  {
    UncachedGrantIsLicence(c, d, root, prep, file, wsl);
  }

  /** Every cached census is what a walk of the disk would find now. */
  ghost predicate Current(c: Caches, d: Disk) {
    forall root :: root in c.censuses ==> c.censuses[root].walked == Walk(d, root)
  }

  /** While the disk stays as the cache saw it, the cache never changes whether a call grants. */
  lemma CacheNeverDecides(c: Caches, d: Disk, root: Root, prep: Prep, file: Option<QueriedFile>, wsl: bool, now: int)
    requires Current(c, d)
    ensures Answer(c, d, root, prep, file, wsl, now).0.Grants()
            <==> UncachedAnswer(c, d, root, prep, file, wsl).Grants()
    ensures Current(Answer(c, d, root, prep, file, wsl, now).1, d)
  {
    if prep.found && Recalls(c, root, prep, now) {
      CoveredAll(prep.files, Walk(d, root).sources);
    }
  }

  datatype Call = Call(root: Root, prep: Prep, file: Option<QueriedFile>, wsl: bool, now: int)

  const EMPTY := Caches(map[], map[])

  function CachesAfter(d: Disk, calls: seq<Call>): Caches {
    if calls == [] then EMPTY
    else
      var last := calls[|calls| - 1];
      Answer(CachesAfter(d, calls[..|calls| - 1]), d, last.root, last.prep, last.file, last.wsl, last.now).1
  }

  /** Flags are never anything but those of a database with the hash they are filed under. */
  ghost predicate FlagsFrom(c: Caches, calls: seq<Call>) {
    forall root :: root in c.flags ==>
      exists i :: 0 <= i < |calls| && calls[i].root == root && c.flags[root] == FlagsOf(calls[i].prep)
  }

  lemma FlagsOfACall(c: Caches, calls: seq<Call>, call: Call)
    requires FlagsFrom(c, calls)
    ensures exists i :: 0 <= i <= |calls| && (calls + [call])[i].root == call.root
                        && FlagsFor(c, call.root, call.prep) == FlagsOf((calls + [call])[i].prep)
                        && (calls + [call])[i].prep.hash == call.prep.hash
  {
    var root := call.root;
    if root in c.flags && c.flags[root].hash == call.prep.hash {
      var i :| 0 <= i < |calls| && calls[i].root == root && c.flags[root] == FlagsOf(calls[i].prep);
      assert (calls + [call])[i] == calls[i];
    } else {
      assert (calls + [call])[|calls|] == call;
    }
  }

  lemma {:induction false} RunKeepsCurrent(d: Disk, calls: seq<Call>)
    ensures Current(CachesAfter(d, calls), d)
  {
    if calls != [] {
      var last := calls[|calls| - 1];
      RunKeepsCurrent(d, calls[..|calls| - 1]);
      CacheNeverDecides(CachesAfter(d, calls[..|calls| - 1]), d, last.root, last.prep, last.file, last.wsl, last.now);
    }
  }

  lemma {:induction false} RunKeepsFlags(d: Disk, calls: seq<Call>)
    ensures FlagsFrom(CachesAfter(d, calls), calls)
  {
    if calls != [] {
      var rest, last := calls[..|calls| - 1], calls[|calls| - 1];
      RunKeepsFlags(d, rest);
      var c, c' := CachesAfter(d, rest), CachesAfter(d, calls);
      FlagsOfACall(c, rest, last);
      assert calls == rest + [last];
      forall root | root in c'.flags
        ensures exists i :: 0 <= i < |calls| && calls[i].root == root && c'.flags[root] == FlagsOf(calls[i].prep)
      {
        if root != last.root || !last.prep.found {
          var i :| 0 <= i < |rest| && rest[i].root == root && c.flags[root] == FlagsOf(rest[i].prep);
          assert calls[i] == rest[i];
        }
      }
    }
  }

  /** The flags are those of a database: its toolchain, and whether it is a unity build left unexpanded. */
  predicate FlagsSayOf(f: Flags, prep: Prep) {
    && f.hash == prep.hash && (f.foreignToolchain <==> prep.foreignToolchain) && (f.unity <==> prep.unity)
    && (f.unityUnexpanded <==> prep.unity && !prep.unityExpanded)
  }

  /**
    Over any sequence of calls on an unchanging disk, each call grants exactly when its licence
    holds: the census cache, its age limit and the re-measurement never show.
   */
  lemma RunGrantsExactlyLicences(d: Disk, calls: seq<Call>, call: Call)
    ensures var c := CachesAfter(d, calls);
            Answer(c, d, call.root, call.prep, call.file, call.wsl, call.now).0.Grants()
            <==> Licensed(FlagsFor(c, call.root, call.prep), d, call.root, call.prep, call.file, call.wsl)
    ensures exists i :: 0 <= i <= |calls| && (calls + [call])[i].root == call.root
                        && (calls + [call])[i].prep.hash == call.prep.hash
                        && FlagsSayOf(FlagsFor(CachesAfter(d, calls), call.root, call.prep), (calls + [call])[i].prep)
  {
    var c := CachesAfter(d, calls);
    RunKeepsCurrent(d, calls);
    RunKeepsFlags(d, calls);
    CacheNeverDecides(c, d, call.root, call.prep, call.file, call.wsl, call.now);
    UncachedGrantIsLicence(c, d, call.root, call.prep, call.file, call.wsl);
    FlagsOfACall(c, calls, call);
  }

  /** A census that ran to the end and found nothing is refused without a reason when nothing else is wrong. */
  ghost predicate NothingToName(f: Flags, prep: Prep, file: Option<QueriedFile>, wsl: bool, w: Walked, measured: bool) {
    && w == Walked({}, false) && measured && prep.firstPartyCount > 0
    && (f.foreignToolchain ==> wsl) && !f.unityUnexpanded
    && (file.Some? && !file.value.header ==> file.value.key in prep.files)
  }

  lemma JudgeExplains(f: Flags, prep: Prep, file: Option<QueriedFile>, wsl: bool, w: Walked, measured: bool)
    ensures var v := JudgeAll(f, prep, file, wsl, w, measured);
            && (v.complete ==> v.reason.None?)
            && (!v.complete && v.reason.None? <==> NothingToName(f, prep, file, wsl, w, measured))
  {
    assert w.sources == {} <==> |w.sources| == 0;
  }

  /**
    A grant carries no reason; a refusal carries none exactly when a walk of this call found no source
    and nothing else is wrong.
   */
  lemma UnexplainedRefusal(c: Caches, d: Disk, root: Root, prep: Prep, file: Option<QueriedFile>, wsl: bool, now: int)
    requires Current(c, d) && prep.found
    ensures var v := Answer(c, d, root, prep, file, wsl, now).0;
            && (v.complete ==> v.reason.None?)
            && (!v.complete && v.reason.None?
                <==> NothingToName(FlagsFor(c, root, prep), prep, file, wsl, Walk(d, root),
                                   !Recalls(c, root, prep, now)))
  {
    JudgeExplains(FlagsFor(c, root, prep), prep, file, wsl, Walk(d, root), true);
    JudgeExplains(FlagsFor(c, root, prep), prep, file, wsl, Walk(d, root), false);
  }

  /** On an empty disk, a database that lists one source is refused without a reason. */
  lemma UnexplainedExample(root: Root, key: Key, now: int)
    ensures var d := Disk((p: Path) => None, (p: Path) => Some([]));
            var prep := Prep(true, 1, false, false, false, 1, {key});
            var v := Answer(EMPTY, d, root, prep, None, false, now).0;
            !v.Grants() && v.reason.None?
  {
    var d := Disk((p: Path) => None, (p: Path) => Some([]));
    var prep := Prep(true, 1, false, false, false, 1, {key});
    var s0 := State([root], {}, [], {});
    var s1 := State([], {root}, [root], {});
    assert Visit(d, s0) == s1;
    assert Loop(d, s1) == s1 && Loop(d, s0) == Loop(d, s1);
    assert Walk(d, root) == Walked({}, false);
    UnexplainedRefusal(EMPTY, d, root, prep, None, false, now);
  }

  /** The walk was cut short, or the database has less than nine tenths of what it found. */
  predicate Poor(prep: Prep, w: Walked) {
    w.capped || (w.sources != {} && |prep.files * w.sources| as real / |w.sources| as real < 0.9)
  }

  lemma PoorIsPoorly(prep: Prep, w: Walked)
    ensures Poor(prep, w) <==> w.capped || LowRatio(|prep.files * w.sources|, |w.sources|)
  {
    if w.sources != {} {
      NineTenths(|prep.files * w.sources| as real, |w.sources| as real);
    }
  }

  /** What a caller is told against the grant, in the order it is looked for. */
  predicate Against(cause: Cause, f: Flags, prep: Prep, file: Option<QueriedFile>, wsl: bool, w: Walked,
                    measured: bool) {
    match cause
    case NoFirstParty => prep.firstPartyCount == 0
    case TooLarge => w.capped
    case PoorlyCovered => Poor(prep, w) && !w.capped
    case FileUncovered => file.Some? && file.value.key !in prep.files && (file.value.header ==> Poor(prep, w))
    case ForeignToolchain => f.foreignToolchain && !wsl
    case UnityUnexpanded => f.unityUnexpanded
    case PartlyCovered => w.sources != {} && !(w.sources <= prep.files)
    case CensusRecalled => !measured
  }

  const ORDER: seq<Cause> := [NoFirstParty, TooLarge, PoorlyCovered, FileUncovered, ForeignToolchain,
                              UnityUnexpanded, PartlyCovered, CensusRecalled]

  /**
    The reason a verdict carries is the first thing against the grant, and none when there is nothing;
    and its figures are the sources on disk and those of them the database has.
   */
  lemma ReasonIsTheFirstAgainst(f: Flags, prep: Prep, file: Option<QueriedFile>, wsl: bool, w: Walked,
                                measured: bool, i: nat)
    requires i < |ORDER|
    ensures var v := JudgeAll(f, prep, file, wsl, w, measured);
            && (v.reason == Some(ORDER[i])
                <==> && Against(ORDER[i], f, prep, file, wsl, w, measured)
                     && forall j :: 0 <= j < i ==> !Against(ORDER[j], f, prep, file, wsl, w, measured))
            && v.onDisk == |w.sources| && v.covered == |prep.files * w.sources| && v.capped == w.capped
            && v.censusFresh == measured
            && (v.fullyCovered <==> !w.capped && w.sources != {} && w.sources <= prep.files)
  {
    PoorIsPoorly(prep, w);
    CoveredAll(prep.files, w.sources);
    assert ORDER[0] == NoFirstParty && ORDER[1] == TooLarge && ORDER[2] == PoorlyCovered;
    assert ORDER[3] == FileUncovered && ORDER[4] == ForeignToolchain && ORDER[5] == UnityUnexpanded;
    assert ORDER[6] == PartlyCovered && ORDER[7] == CensusRecalled;
  }

  /**
    A census is recalled exactly when the cache has one of the same database that is less than a minute
    old and would not license the grant; otherwise it is measured, and remembered with the time.
   */
  lemma RecalledExactlyWhenYoung(c: Caches, d: Disk, root: Root, prep: Prep, file: Option<QueriedFile>, wsl: bool,
                                 now: int)
    requires prep.found
    ensures var (v, c') := Answer(c, d, root, prep, file, wsl, now);
            && (v.censusFresh <==>
                  !(root in c.censuses && c.censuses[root].hash == prep.hash && now - c.censuses[root].at < 60_000
                    && (var w := c.censuses[root].walked;
                        w.capped || w.sources == {} || |prep.files| < |w.sources|)))
            && c'.censuses == (if v.censusFresh then c.censuses[root := Census(prep.hash, now, Walk(d, root))]
                               else c.censuses)
            && c'.flags == c.flags[root := FlagsFor(c, root, prep)]
  {
  }

  lemma NineTenths(c: real, n: real)
    requires n > 0.0
    ensures 10.0 * c < 9.0 * n <==> c / n < 0.9
  {
    var q := c / n;
    assert c == q * n;
    if q < 0.9 {
      assert (0.9 - q) * n > 0.0;
    } else {
      assert (q - 0.9) * n >= 0.0;
    }
  }

  /** Coverage is called poor exactly when the walk was cut short or the covered share is below 0.9. */
  lemma PoorBelowNineTenths(f: Flags, prep: Prep, file: Option<QueriedFile>, wsl: bool, w: Walked, measured: bool)
    requires prep.firstPartyCount > 0
    ensures var v := JudgeAll(f, prep, file, wsl, w, measured);
            && (v.reason == Some(TooLarge) <==> w.capped)
            && (v.reason == Some(PoorlyCovered) <==>
                  !w.capped && w.sources != {} && |prep.files * w.sources| as real / |w.sources| as real < 0.9)
  {
    if w.sources != {} {
      NineTenths(|prep.files * w.sources| as real, |w.sources| as real);
    }
  }

  // ----- the gate -----

  lemma CountOne(files: set<Key>, rest: set<Key>, sources: set<Key>, rel: Key)
    requires rel in rest && rest <= files
    ensures |(files - (rest - {rel})) * sources| == |(files - rest) * sources| + if rel in sources then 1 else 0
  {
    var counted := (files - rest) * sources;
    assert (files - (rest - {rel})) * sources == if rel in sources then counted + {rel} else counted;
  }

  /** Count the database's sources that are on disk. */
  method CountCovered(files: set<Key>, sources: set<Key>) returns (covered: nat)
    ensures covered == |files * sources|
  {
    covered := 0;
    var rest := files;
    while rest != {}
      invariant rest <= files && covered == |(files - rest) * sources|
    {
      var rel :| rel in rest;
      CountOne(files, rest, sources, rel);
      rest := rest - {rel};
      if rel in sources {
        covered := covered + 1;
      }
    }
    assert files - rest == files;
  }

  class Gate {
    var caches: Caches

    constructor ()
      ensures caches == EMPTY
    {
      caches := EMPTY;
    }

    method FirstPartySourcesOnDisk(d: Disk, root: Root, hash: Hash, force: bool, now: int)
      returns (w: Walked, measured: bool)
      modifies this
      ensures measured == (force || !Recallable(old(caches), root, hash, now))
      ensures w == if measured then Walk(d, root) else old(caches).censuses[root].walked
      ensures caches == if measured then old(caches).(censuses := old(caches).censuses[root := Census(hash, now, w)])
                        else old(caches)
    {
      if !force && Recallable(caches, root, hash, now) {
        return caches.censuses[root].walked, false;
      }
      var found, capped := WalkFirstPartySourcesOnDisk(d, root);
      w, measured := Walked(found, capped), true;
      caches := caches.(censuses := caches.censuses[root := Census(hash, now, w)]);
    }

    /** Read the cache first; where that would license the grant, measure again. */
    method TakeCensus(d: Disk, root: Root, prep: Prep, now: int) returns (w: Walked, measured: bool)
      modifies this
      ensures measured == !Recalls(old(caches), root, prep, now)
      ensures w == if measured then Walk(d, root) else old(caches).censuses[root].walked
      ensures caches == if measured then
                          old(caches).(censuses := old(caches).censuses[root := Census(prep.hash, now, w)])
                        else old(caches)
    {
      w, measured := FirstPartySourcesOnDisk(d, root, prep.hash, false, now);
      if !measured && !w.capped && |w.sources| > 0 {
        if |prep.files| >= |w.sources| {
          w, measured := FirstPartySourcesOnDisk(d, root, prep.hash, true, now);
        }
      }
    }

    method ComputeCompileDbCoverage(d: Disk, root: Root, prep: Prep, file: Option<QueriedFile>, wsl: bool, now: int)
      returns (v: Verdict)
      modifies this
      ensures (v, caches) == Answer(old(caches), d, root, prep, file, wsl, now)
    {
      if !prep.found {
        return NoDatabase;
      }
      var f := FlagsFor(caches, root, prep);
      caches := caches.(flags := caches.flags[root := f]);
      var w, measured := TakeCensus(d, root, prep, now);
      var onDisk, covered := |w.sources|, 0;
      if onDisk > 0 {
        covered := CountCovered(prep.files, w.sources);
      }
      assert covered == |prep.files * w.sources|;
      v := Judge(f, prep, file, wsl, w, covered, measured);
    }
  }
}
