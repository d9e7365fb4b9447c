/**
  Computing the selection digest of a compile database: fail closed on any entry that cannot be
  described, and publish the rows in the digest's own order.
 */
module Selection {
  import opened Prelude
  import opened Framing
  import opened Sorting
  import opened SelectionDigest
  import U = Utf8

  datatype Cause =
    | NoProjectRoot
    | NoEntries
    | MalformedEntry
    | NoArgumentVector
    | EntryOutsideProjectRoot
    | CompileDirectoryOutsideProjectRoot
    | MainFileUnreadable

  /** One element of the entries array; a field is None when it is not of the expected type. */
  datatype RawEntry =
    | NotAnObject
    | Entry(file: Option<U.Str>, directory: Option<U.Str>, arguments: Option<seq<Option<U.Str>>>)

  datatype Pair = Pair(row: Bytes, member: Member)

  datatype Processed = Bad(cause: Cause) | Good(pair: Pair)

  datatype Selection = Refused(cause: Cause) | Selected(digest: Bytes, rows: seq<Member>)

  /** A path relative to the project root, normalised; None outside the root. */
  function CanonicalRelative(env: Env, p: U.Str): Option<U.Str> {
    var r := env.relative(p);
    if r.Some? then Some(env.nfc(r.value)) else None
  }

  function Strings(arguments: seq<Option<U.Str>>): seq<U.Str>
    requires forall a :: a in arguments ==> a.Some?
  {
    seq(|arguments|, i requires 0 <= i < |arguments| => arguments[i].value)
  }

  /** One entry: its row and member, or the first reason it has none. */
  function Process(env: Env, e: RawEntry): Processed {
    if e.NotAnObject? then Bad(MalformedEntry)
    else if e.file.None? || e.file.value == [] then Bad(MalformedEntry)
    else if e.directory.None? || e.directory.value == [] then Bad(MalformedEntry)
    else if e.arguments.None? then Bad(NoArgumentVector)
    else if exists a :: a in e.arguments.value && a.None? then Bad(MalformedEntry)
    else
      var abs := env.locate(e.file.value, e.directory.value);
      var relPath := CanonicalRelative(env, abs);
      var relDir := CanonicalRelative(env, e.directory.value);
      var raw := env.read(abs);
      if relPath.None? then Bad(EntryOutsideProjectRoot)
      else if relDir.None? then Bad(CompileDirectoryOutsideProjectRoot)
      else if raw.None? then Bad(MainFileUnreadable)
      else
        var m := Member(relPath.value, relDir.value, Strings(e.arguments.value), |raw.value|, env.sha(raw.value));
        Good(Pair(EncodeRow(env, m), m))
  }

  // ----- what a row says of its entry, and why an entry has none -----

  /** An object with a file, a directory and an argument vector of strings. */
  predicate WellShaped(e: RawEntry) {
    && e.Entry? && Present(e.file) && Present(e.directory)
    && e.arguments.Some? && forall a :: a in e.arguments.value ==> a.Some?
  }

  predicate Present(s: Option<U.Str>) {
    s.Some? && s.value != []
  }

  /** Where the entry's file is, and what is read there. */
  function FileOf(env: Env, e: RawEntry): U.Str
    requires WellShaped(e)
  {
    env.locate(e.file.value, e.directory.value)
  }

  /**
    The member of an entry names the normalised relative paths of its file and of its directory, and
    its arguments, and carries the size and the hash of the bytes read at its file.
   */
  lemma MemberSaysTheEntry(env: Env, e: RawEntry)
    requires Process(env, e).Good?
    ensures WellShaped(e)
    ensures var m := Process(env, e).pair.member;
            var path, directory, content := env.relative(FileOf(env, e)), env.relative(e.directory.value),
                                            env.read(FileOf(env, e));
            && path.Some? && directory.Some? && content.Some?
            && m.path == env.nfc(path.value) && m.directory == env.nfc(directory.value)
            && m.size == |content.value| && m.sha256 == env.sha(content.value)
            && |m.argv| == |e.arguments.value|
            && (forall i :: 0 <= i < |m.argv| ==> e.arguments.value[i] == Some(m.argv[i]))
            && Process(env, e).pair.row == EncodeRow(env, m)
  {
  }

  /** Every outcome, by what the entry lacks; the first lack in this order is the one that is named. */
  lemma CauseNamesTheLack(env: Env, e: RawEntry)
    ensures Process(env, e) == Bad(NoArgumentVector)
            <==> e.Entry? && Present(e.file) && Present(e.directory) && e.arguments.None?
    ensures Process(env, e) == Bad(MalformedEntry)
            <==> !WellShaped(e) && !(e.Entry? && Present(e.file) && Present(e.directory) && e.arguments.None?)
    ensures !WellShaped(e) ==> Process(env, e).Bad?
    ensures WellShaped(e) ==>
              var outside, astray := env.relative(FileOf(env, e)).None?, env.relative(e.directory.value).None?;
              && (Process(env, e) == Bad(EntryOutsideProjectRoot) <==> outside)
              && (Process(env, e) == Bad(CompileDirectoryOutsideProjectRoot) <==> !outside && astray)
              && (Process(env, e) == Bad(MainFileUnreadable)
                  <==> !outside && !astray && env.read(FileOf(env, e)).None?)
              && (Process(env, e).Good? <==> !outside && !astray && env.read(FileOf(env, e)).Some?)
  {
  }

  predicate AllGood(env: Env, entries: seq<RawEntry>) {
    forall e :: e in entries ==> Process(env, e).Good?
  }

  function Pairs(env: Env, entries: seq<RawEntry>): (r: seq<Pair>)
    requires AllGood(env, entries)
    ensures |r| == |entries| && forall i :: 0 <= i < |r| ==> r[i] == Process(env, entries[i]).pair
  {
    seq(|entries|, i requires 0 <= i < |entries| => assert entries[i] in entries; Process(env, entries[i]).pair)
  }

  function PairLess(): (Pair, Pair) -> bool {
    (p: Pair, q: Pair) => Less(p.row, q.row)
  }

  function RowsOf(pairs: seq<Pair>): (r: seq<Bytes>)
    ensures |r| == |pairs| && forall i :: 0 <= i < |r| ==> r[i] == pairs[i].row
  {
    seq(|pairs|, i requires 0 <= i < |pairs| => pairs[i].row)
  }

  function MembersOf(pairs: seq<Pair>): (r: seq<Member>)
    ensures |r| == |pairs| && forall i :: 0 <= i < |r| ==> r[i] == pairs[i].member
  {
    seq(|pairs|, i requires 0 <= i < |pairs| => pairs[i].member)
  }

  function Publish(env: Env, pairs: seq<Pair>): Selection {
    var sorted := Sort(PairLess(), pairs);
    Selected(AggregateRows(env, RowsOf(sorted)), MembersOf(sorted))
  }

  /** The cause of the first entry that has no row. */
  function FirstCause(env: Env, entries: seq<RawEntry>): Option<Cause> {
    if entries == [] then None
    else
      match Process(env, entries[0])
      case Bad(cause) => Some(cause)
      case Good(_) => FirstCause(env, entries[1..])
  }

  lemma {:induction false} NoCauseIsAllGood(env: Env, entries: seq<RawEntry>)
    ensures FirstCause(env, entries).None? <==> AllGood(env, entries)
  {
    if entries != [] {
      NoCauseIsAllGood(env, entries[1..]);
      assert entries == [entries[0]] + entries[1..];
    }
  }

  /** Which entry's cause a refusal names follows the order of the entries. */
  lemma RefusalCauseFollowsOrder(env: Env, d: RawEntry, e: RawEntry, rest: seq<RawEntry>)
    requires Process(env, d).Bad? && Process(env, e).Bad? && Process(env, d).cause != Process(env, e).cause
    ensures FirstCause(env, [d, e] + rest) == Some(Process(env, d).cause)
    ensures FirstCause(env, [e, d] + rest) == Some(Process(env, e).cause)
  {
  }

  /** An entry that is no object and one without an argument vector: two orders, two causes. */
  lemma RefusalCauseExample(env: Env)
    ensures var d, e := NotAnObject, Entry(Some([97]), Some([97]), None);
            FirstCause(env, [d, e]) == Some(MalformedEntry) && FirstCause(env, [e, d]) == Some(NoArgumentVector)
  {
    var d, e := NotAnObject, Entry(Some([97]), Some([97]), None);
    RefusalCauseFollowsOrder(env, d, e, []);
    assert [d, e] + [] == [d, e] && [e, d] + [] == [e, d];
  }

  /** The call: refused with the first entry's cause, or selected. */
  method SelectedTuSetDigest(env: Env, projectRoot: Option<U.Str>, entries: Option<seq<RawEntry>>)
    returns (r: Selection)
    ensures projectRoot.None? || projectRoot.value == [] ==> r == Refused(NoProjectRoot)
    ensures projectRoot.Some? && projectRoot.value != [] && entries.None? ==> r == Refused(NoEntries)
    ensures projectRoot.Some? && projectRoot.value != [] && entries.Some? ==>
              if AllGood(env, entries.value) then r == Publish(env, Pairs(env, entries.value))
              else FirstCause(env, entries.value).Some? && r == Refused(FirstCause(env, entries.value).value)
  {
    if projectRoot.None? || projectRoot.value == [] {
      return Refused(NoProjectRoot);
    }
    if entries.None? {
      return Refused(NoEntries);
    }
    var cause, pairs := CollectPairs(env, entries.value);
    if cause.Some? {
      return Refused(cause.value);
    }
    r := Publish(env, pairs);
  }

  lemma OneMoreGood(env: Env, entries: seq<RawEntry>, e: RawEntry)
    requires AllGood(env, entries) && Process(env, e).Good?
    ensures AllGood(env, entries + [e]) && Pairs(env, entries + [e]) == Pairs(env, entries) + [Process(env, e).pair]
  {
  }

  lemma CauseSkipsGood(env: Env, entries: seq<RawEntry>, i: nat)
    requires i < |entries|
    ensures FirstCause(env, entries[i..])
            == if Process(env, entries[i]).Bad? then Some(Process(env, entries[i]).cause)
               else FirstCause(env, entries[i + 1..])
  {
    assert entries[i..][0] == entries[i] && entries[i..][1..] == entries[i + 1..];
  }

  /** The loop over the entries: their pairs, or the first cause. */
  method CollectPairs(env: Env, entries: seq<RawEntry>) returns (cause: Option<Cause>, pairs: seq<Pair>)
    ensures cause == FirstCause(env, entries) && (cause.None? <==> AllGood(env, entries))
    ensures cause.None? ==> pairs == Pairs(env, entries)
  {
    pairs := [];
    NoCauseIsAllGood(env, entries);
    for i := 0 to |entries|
      invariant AllGood(env, entries[..i]) && pairs == Pairs(env, entries[..i])
      invariant FirstCause(env, entries[i..]) == FirstCause(env, entries)
    {
      var p := Process(env, entries[i]);
      CauseSkipsGood(env, entries, i);
      if p.Bad? {
        return Some(p.cause), pairs;
      }
      OneMoreGood(env, entries[..i], entries[i]);
      assert entries[..i + 1] == entries[..i] + [entries[i]];
      pairs := pairs + [p.pair];
    }
    assert entries[..|entries|] == entries && entries[|entries|..] == [];
    cause := None;
  }

  // ----- the order of the entries does not matter -----

  lemma PairOrder()
    ensures WeakOrder(PairLess())
  {
    RowOrder();
    forall p: Pair, q: Pair | Less(p.row, q.row) ensures !Less(q.row, p.row) { LessAsymmetric(p.row, q.row); }
    forall p: Pair, q: Pair, r: Pair | !Less(q.row, p.row) && !Less(r.row, q.row) ensures !Less(r.row, p.row) {
      LessTransitive(p.row, q.row, r.row);
    }
  }

  function PairOf(env: Env): RawEntry -> Pair {
    (e: RawEntry) => var p := Process(env, e); if p.Good? then p.pair else Pair([], Member([], [], [], 0, []))
  }

  lemma PairsIsMap(env: Env, entries: seq<RawEntry>)
    requires AllGood(env, entries)
    ensures Pairs(env, entries) == MapSeq(PairOf(env), entries)
  {
    forall i | 0 <= i < |entries| ensures MapSeq(PairOf(env), entries)[i] == Pairs(env, entries)[i] {
      assert entries[i] in entries;
    }
  }

  lemma PairsMultiset(env: Env, a: seq<RawEntry>, b: seq<RawEntry>)
    requires AllGood(env, a) && AllGood(env, b) && multiset(a) == multiset(b)
    ensures multiset(Pairs(env, a)) == multiset(Pairs(env, b))
  {
    PairsIsMap(env, a);
    PairsIsMap(env, b);
    MapMultiset(PairOf(env), a, b);
  }

  lemma RowsMultiset(p: seq<Pair>, q: seq<Pair>)
    requires multiset(p) == multiset(q)
    ensures multiset(RowsOf(p)) == multiset(RowsOf(q))
  {
    var f := (x: Pair) => x.row;
    assert MapSeq(f, p) == RowsOf(p) && MapSeq(f, q) == RowsOf(q);
    MapMultiset(f, p, q);
  }

  lemma PermutedEntriesAgreeOnAvailability(env: Env, a: seq<RawEntry>, b: seq<RawEntry>)
    requires multiset(a) == multiset(b)
    ensures AllGood(env, a) <==> AllGood(env, b)
  {
    forall e ensures e in a <==> e in b {
      assert e in multiset(a) <==> e in multiset(b);
    }
  }

  /** Whether a digest is available, and which, depends only on the multiset of entries. */
  lemma DigestForgetsOrder(env: Env, a: seq<RawEntry>, b: seq<RawEntry>)
    requires AllGood(env, a) && multiset(a) == multiset(b)
    ensures AllGood(env, b) && Publish(env, Pairs(env, a)).digest == Publish(env, Pairs(env, b)).digest
  {
    PermutedEntriesAgreeOnAvailability(env, a, b);
    PairsMultiset(env, a, b);
    PairOrder();
    var x, y := Sort(PairLess(), Pairs(env, a)), Sort(PairLess(), Pairs(env, b));
    SortKeeps(PairLess(), Pairs(env, a));
    SortKeeps(PairLess(), Pairs(env, b));
    RowsMultiset(x, y);
    RowOrder();
    SortForgetsOrder(RowLess(), RowsOf(x), RowsOf(y));
  }

  /** No two entries have the same row and different members. */
  ghost predicate RowsIdentify(env: Env, entries: seq<RawEntry>)
    requires AllGood(env, entries)
  {
    forall d, e :: d in entries && e in entries && Process(env, d).pair.row == Process(env, e).pair.row
                   ==> Process(env, d).pair.member == Process(env, e).pair.member
  }

  lemma RowsForgetOrder(env: Env, a: seq<RawEntry>, b: seq<RawEntry>)
    requires AllGood(env, a) && AllGood(env, b) && multiset(a) == multiset(b) && RowsIdentify(env, a)
    ensures Publish(env, Pairs(env, a)) == Publish(env, Pairs(env, b))
  {
    PairsMultiset(env, a, b);
    PairOrder();
    var p := Pairs(env, a);
    forall x, y | x in multiset(p) && y in multiset(p) && Tied(PairLess(), x, y) ensures x == y {
      LessTotal(x.row, y.row);
      var i :| 0 <= i < |p| && p[i] == x;
      var j :| 0 <= j < |p| && p[j] == y;
      assert a[i] in a && a[j] in a;
    }
    SortForgetsOrder(PairLess(), p, Pairs(env, b));
  }

  lemma {:induction false} TiesFromFront(probe: Pair, x: Pair, s: seq<Pair>)
    ensures TiesOf(PairLess(), probe, [x] + s)
         == (if Tied(PairLess(), probe, x) then [x] else []) + TiesOf(PairLess(), probe, s)
  {
    if s == [] {
      assert [x] + s == [] + [x];
      TiesOfAppend(PairLess(), probe, [], x);
    } else {
      var rest, last := s[..|s| - 1], s[|s| - 1];
      TiesFromFront(probe, x, rest);
      TiesOfLast(probe, [x] + s, [x] + rest, last);
      TiesOfLast(probe, s, rest, last);
    }
  }

  lemma TiesOfLast(probe: Pair, s: seq<Pair>, rest: seq<Pair>, last: Pair)
    requires s == rest + [last]
    ensures TiesOf(PairLess(), probe, s)
            == TiesOf(PairLess(), probe, rest) + if Tied(PairLess(), probe, last) then [last] else []
  {
    TiesOfAppend(PairLess(), probe, rest, last);
  }

  /** The sorted rows of two permutations agree, so sorted pairs differ only in their members. */
  lemma SamePairs(env: Env, a: seq<RawEntry>, b: seq<RawEntry>)
    requires AllGood(env, a) && AllGood(env, b) && multiset(a) == multiset(b)
    requires MembersOf(Sort(PairLess(), Pairs(env, a))) == MembersOf(Sort(PairLess(), Pairs(env, b)))
    ensures Sort(PairLess(), Pairs(env, a)) == Sort(PairLess(), Pairs(env, b))
  {
    PairOrder();
    PairsMultiset(env, a, b);
    var x, y := Sort(PairLess(), Pairs(env, a)), Sort(PairLess(), Pairs(env, b));
    SortKeeps(PairLess(), Pairs(env, a));
    SortKeeps(PairLess(), Pairs(env, b));
    RowsMultiset(x, y);
    RowOrder();
    SortedUnique(RowLess(), RowsOf(x), RowsOf(y));
    forall i | 0 <= i < |x| ensures x[i] == y[i] {
      assert RowsOf(x)[i] == RowsOf(y)[i] && MembersOf(x)[i] == MembersOf(y)[i];
    }
  }

  lemma LessIrreflexive(a: Bytes)
    ensures !Less(a, a)
  {
    if Less(a, a) {
      LessAsymmetric(a, a);
    }
  }

  /** The pairs of one row, in order. */
  function OfRow(row: Bytes, pairs: seq<Pair>): seq<Pair> {
    if pairs == [] then [] else (if pairs[0].row == row then [pairs[0]] else []) + OfRow(row, pairs[1..])
  }

  lemma {:induction false} OfRowIsTies(x: Pair, pairs: seq<Pair>)
    ensures OfRow(x.row, pairs) == TiesOf(PairLess(), x, pairs)
    decreases |pairs|
  {
    if pairs != [] {
      var y, rest := pairs[0], pairs[1..];
      OfRowIsTies(x, rest);
      TiesFromFront(x, y, rest);
      assert pairs == [y] + rest;
      TiedMeansSameRow(x, y);
    }
  }

  lemma TiedMeansSameRow(x: Pair, y: Pair)
    ensures Tied(PairLess(), x, y) <==> x.row == y.row
  {
    LessIrreflexive(x.row);
    if !Less(x.row, y.row) && !Less(y.row, x.row) {
      LessTotal(x.row, y.row);
    }
  }

  /** Pairs of one row are published in the order they came in. */
  lemma PublishedInInputOrder(x: Pair, pairs: seq<Pair>)
    ensures OfRow(x.row, Sort(PairLess(), pairs)) == OfRow(x.row, pairs)
  {
    PairOrder();
    SortStable(PairLess(), pairs, x);
    OfRowIsTies(x, pairs);
    OfRowIsTies(x, Sort(PairLess(), pairs));
  }

  /** Two pairs of one row are published first and second in either order, ahead of the others of their row. */
  lemma CollidingRowsKeepInputOrder(x: Pair, y: Pair, rest: seq<Pair>)
    requires x.row == y.row
    ensures OfRow(x.row, Sort(PairLess(), [x, y] + rest)) == [x, y] + OfRow(x.row, rest)
    ensures OfRow(x.row, Sort(PairLess(), [y, x] + rest)) == [y, x] + OfRow(x.row, rest)
  {
    PublishedInInputOrder(x, [x, y] + rest);
    PublishedInInputOrder(x, [y, x] + rest);
    TwoOfRow(x, y, rest);
    TwoOfRow(y, x, rest);
  }

  lemma TwoOfRow(x: Pair, y: Pair, rest: seq<Pair>)
    requires x.row == y.row
    ensures OfRow(x.row, [x, y] + rest) == [x, y] + OfRow(x.row, rest)
  {
    var all := [x, y] + rest;
    assert all[1..] == [y] + rest && all[1..][1..] == rest;
    assert OfRow(x.row, all) == [x] + OfRow(x.row, all[1..]);
    assert OfRow(x.row, all[1..]) == [y] + OfRow(x.row, rest);
  }

  lemma SwappedRowsDiffer(x: Pair, y: Pair, rest: seq<Pair>)
    requires x.row == y.row && x != y
    ensures Sort(PairLess(), [x, y] + rest) != Sort(PairLess(), [y, x] + rest)
  {
    CollidingRowsKeepInputOrder(x, y, rest);
    assert ([x, y] + OfRow(x.row, rest))[0] == x && ([y, x] + OfRow(x.row, rest))[0] == y;
  }

  lemma MapTwo<A, B>(f: A -> B, x: A, y: A, rest: seq<A>)
    ensures MapSeq(f, [x, y] + rest) == [f(x), f(y)] + MapSeq(f, rest)
  {
  }

  lemma GoodParts(env: Env, d: RawEntry, e: RawEntry, rest: seq<RawEntry>)
    requires AllGood(env, [d, e] + rest)
    ensures Process(env, d).Good? && Process(env, e).Good? && AllGood(env, rest)
  {
    var all := [d, e] + rest;
    assert all[0] in all && all[1] in all && forall x :: x in rest ==> x in all;
  }

  lemma PairsOfTwo(env: Env, d: RawEntry, e: RawEntry, rest: seq<RawEntry>)
    requires AllGood(env, [d, e] + rest)
    ensures Process(env, d).Good? && Process(env, e).Good? && AllGood(env, rest)
    ensures Pairs(env, [d, e] + rest) == [Process(env, d).pair, Process(env, e).pair] + Pairs(env, rest)
  {
    GoodParts(env, d, e, rest);
    PairsIsMap(env, [d, e] + rest);
    PairsIsMap(env, rest);
    MapTwo(PairOf(env), d, e, rest);
  }

  /** Entries whose rows collide make the published members depend on their order. */
  lemma CollidingEntriesShowOrder(env: Env, d: RawEntry, e: RawEntry, rest: seq<RawEntry>)
    requires AllGood(env, [d, e] + rest) && AllGood(env, [e, d] + rest)
    requires Process(env, d).Good? && Process(env, e).Good?
    requires Process(env, d).pair.row == Process(env, e).pair.row
    requires Process(env, d).pair.member != Process(env, e).pair.member
    ensures Publish(env, Pairs(env, [d, e] + rest)).rows != Publish(env, Pairs(env, [e, d] + rest)).rows
  {
    var a, b := [d, e] + rest, [e, d] + rest;
    PairsOfTwo(env, d, e, rest);
    PairsOfTwo(env, e, d, rest);
    SwappedRowsDiffer(Process(env, d).pair, Process(env, e).pair, Pairs(env, rest));
    SwapMultiset(d, e, rest);
    if MembersOf(Sort(PairLess(), Pairs(env, a))) == MembersOf(Sort(PairLess(), Pairs(env, b))) {
      SamePairs(env, a, b);
    }
  }

  lemma SwapMultiset<T>(x: T, y: T, rest: seq<T>)
    ensures multiset([x, y] + rest) == multiset{x, y} + multiset(rest) == multiset([y, x] + rest)
  {
    assert multiset([x, y]) == multiset{x, y} == multiset([y, x]);
  }

  ghost predicate Reordering(env: Env, a: seq<RawEntry>, entries: seq<RawEntry>) {
    multiset(a) == multiset(entries) && AllGood(env, a)
  }

  ghost predicate OrderIrrelevant(env: Env, entries: seq<RawEntry>) {
    forall a, b :: Reordering(env, a, entries) && Reordering(env, b, entries)
      ==> Publish(env, Pairs(env, a)).rows == Publish(env, Pairs(env, b)).rows
  }

  lemma BringForward(entries: seq<RawEntry>, d: RawEntry, e: RawEntry) returns (rest: seq<RawEntry>)
    requires d in entries && e in entries && d != e
    ensures multiset([d, e] + rest) == multiset(entries) && multiset([e, d] + rest) == multiset(entries)
  {
    var i, once := TakeOut(entries, d);
    StillThere(multiset(entries), multiset(once), d, e);
    var j;
    j, rest := TakeOut(once, e);
    SwapMultiset(d, e, rest);
    TwoBack(multiset(rest), d, e);
  }

  lemma StillThere<T>(s: multiset<T>, t: multiset<T>, d: T, e: T)
    requires s == t + multiset{d} && e in s && d != e
    ensures e in t
  {
  }

  lemma TwoBack<T>(t: multiset<T>, d: T, e: T)
    ensures multiset{d, e} + t == t + multiset{e} + multiset{d}
  {
  }

  lemma TwoOrdersDiffer(env: Env, entries: seq<RawEntry>, a: seq<RawEntry>, b: seq<RawEntry>)
    requires Reordering(env, a, entries) && Reordering(env, b, entries)
    requires Publish(env, Pairs(env, a)).rows != Publish(env, Pairs(env, b)).rows
    ensures !OrderIrrelevant(env, entries)
  {
  }

  lemma CollisionShowsOrder(env: Env, entries: seq<RawEntry>, d: RawEntry, e: RawEntry)
    requires AllGood(env, entries) && d in entries && e in entries
    requires Process(env, d).pair.row == Process(env, e).pair.row
    requires Process(env, d).pair.member != Process(env, e).pair.member
    ensures !OrderIrrelevant(env, entries)
  {
    var rest := BringForward(entries, d, e);
    var a, b := [d, e] + rest, [e, d] + rest;
    PermutedEntriesAgreeOnAvailability(env, entries, a);
    PermutedEntriesAgreeOnAvailability(env, entries, b);
    CollidingEntriesShowOrder(env, d, e, rest);
    TwoOrdersDiffer(env, entries, a, b);
  }

  lemma IdentifyingRowsHideOrder(env: Env, entries: seq<RawEntry>)
    requires AllGood(env, entries) && RowsIdentify(env, entries)
    ensures OrderIrrelevant(env, entries)
  {
    forall a, b | Reordering(env, a, entries) && Reordering(env, b, entries)
      ensures Publish(env, Pairs(env, a)).rows == Publish(env, Pairs(env, b)).rows
    {
      RowsForgetOrder(env, entries, a);
      RowsForgetOrder(env, entries, b);
    }
  }

  /** All entries without a row lack it for one cause. */
  predicate OneCause(env: Env, entries: seq<RawEntry>) {
    forall d, e :: d in entries && e in entries && Process(env, d).Bad? && Process(env, e).Bad?
                   ==> Process(env, d).cause == Process(env, e).cause
  }

  lemma {:induction false} CauseIsSomeEntrys(env: Env, entries: seq<RawEntry>)
    requires FirstCause(env, entries).Some?
    ensures exists e :: e in entries && Process(env, e) == Bad(FirstCause(env, entries).value)
  {
    if Process(env, entries[0]).Good? {
      CauseIsSomeEntrys(env, entries[1..]);
    }
  }

  /** With one cause, every order names it. */
  lemma OneCauseIsNamed(env: Env, a: seq<RawEntry>, b: seq<RawEntry>)
    requires multiset(a) == multiset(b) && OneCause(env, a)
    ensures FirstCause(env, b) == FirstCause(env, a)
  {
    NoCauseIsAllGood(env, a);
    NoCauseIsAllGood(env, b);
    PermutedEntriesAgreeOnAvailability(env, a, b);
    if FirstCause(env, a).Some? {
      CauseIsSomeEntrys(env, a);
      CauseIsSomeEntrys(env, b);
      var e :| e in b && Process(env, e) == Bad(FirstCause(env, b).value);
      assert e in multiset(a);
    }
  }

  /** A refusal names one cause in every order exactly when all entries without a row lack it for one cause. */
  lemma CauseForgetsOrderExactlyWhenOne(env: Env, entries: seq<RawEntry>)
    ensures (forall b :: multiset(b) == multiset(entries) ==> FirstCause(env, b) == FirstCause(env, entries))
            <==> OneCause(env, entries)
  {
    if OneCause(env, entries) {
      forall b | multiset(b) == multiset(entries) ensures FirstCause(env, b) == FirstCause(env, entries) {
        OneCauseIsNamed(env, entries, b);
      }
    } else {
      var d, e :| d in entries && e in entries && Process(env, d).Bad? && Process(env, e).Bad?
                  && Process(env, d).cause != Process(env, e).cause;
      var rest := BringForward(entries, d, e);
      RefusalCauseFollowsOrder(env, d, e, rest);
      assert FirstCause(env, [d, e] + rest) != FirstCause(env, [e, d] + rest);
    }
  }

  /** The published rows are independent of the entries' order exactly when rows identify members. */
  lemma RowOrderIndependence(env: Env, entries: seq<RawEntry>)
    requires AllGood(env, entries)
    ensures OrderIrrelevant(env, entries) <==> RowsIdentify(env, entries)
  {
    if RowsIdentify(env, entries) {
      IdentifyingRowsHideOrder(env, entries);
    } else {
      var d, e :| d in entries && e in entries && Process(env, d).pair.row == Process(env, e).pair.row
                  && Process(env, d).pair.member != Process(env, e).pair.member;
      CollisionShowsOrder(env, entries, d, e);
    }
  }

  /** NFC is a normal form: applying it twice changes nothing. */
  ghost predicate NormalForm(env: Env) {
    forall s :: env.nfc(env.nfc(s)) == env.nfc(s)
  }

  /** The members of two entries. */
  ghost predicate AlikeEntries(env: Env, d: RawEntry, e: RawEntry)
    requires Process(env, d).Good? && Process(env, e).Good?
  {
    Alike(env, Process(env, d).pair.member, Process(env, e).pair.member)
  }

  lemma RowOfMember(env: Env, e: RawEntry)
    requires Process(env, e).Good?
    ensures Process(env, e).pair.row == EncodeRow(env, Process(env, e).pair.member)
  {
  }

  lemma AlikeIsSameRow(env: Env, d: RawEntry, e: RawEntry)
    requires Process(env, d).Good? && Process(env, e).Good?
    requires Encodable(env, Process(env, d).pair.member) && Encodable(env, Process(env, e).pair.member)
    ensures Process(env, d).pair.row == Process(env, e).pair.row <==> AlikeEntries(env, d, e)
  {
    RowOfMember(env, d);
    RowOfMember(env, e);
    RowsForgetExactlySurrogates(env, Process(env, d).pair.member, Process(env, e).pair.member);
  }

  /** Entries that are alike are published as one member. */
  ghost predicate AlikeAreEqual(env: Env, entries: seq<RawEntry>)
    requires AllGood(env, entries)
  {
    forall d, e :: d in entries && e in entries ==> AlikeMeansEqual(env, d, e)
  }

  ghost predicate AlikeMeansEqual(env: Env, d: RawEntry, e: RawEntry)
    requires Process(env, d).Good? && Process(env, e).Good?
  {
    AlikeEntries(env, d, e) ==> Process(env, d).pair.member == Process(env, e).pair.member
  }

  lemma RowsIdentifyExactlyThose(env: Env, entries: seq<RawEntry>)
    requires AllGood(env, entries)
    requires forall e :: e in entries ==> Encodable(env, Process(env, e).pair.member)
    ensures RowsIdentify(env, entries) <==> AlikeAreEqual(env, entries)
  {
    forall d, e | d in entries && e in entries
      ensures Process(env, d).pair.row == Process(env, e).pair.row <==> AlikeEntries(env, d, e)
    {
      AlikeIsSameRow(env, d, e);
    }
    if AlikeAreEqual(env, entries) {
      forall d, e | d in entries && e in entries && Process(env, d).pair.row == Process(env, e).pair.row
        ensures Process(env, d).pair.member == Process(env, e).pair.member
      {
        assert AlikeMeansEqual(env, d, e);
      }
    }
  }

  /**
    In terms of what the entries say: the published rows are independent of the entries' order
    exactly when no two entries differ only in unpaired surrogates of their normalised paths and
    arguments, with files of one size and hash.
   */
  lemma OrderShowsExactlySurrogates(env: Env, entries: seq<RawEntry>)
    requires AllGood(env, entries)
    requires forall e :: e in entries ==> Encodable(env, Process(env, e).pair.member)
    ensures OrderIrrelevant(env, entries) <==> AlikeAreEqual(env, entries)
  {
    RowOrderIndependence(env, entries);
    RowsIdentifyExactlyThose(env, entries);
  }

  // ----- the published body -----

  function EncodedRows(env: Env, members: seq<Member>): (r: seq<Bytes>)
    ensures |r| == |members| && forall i :: 0 <= i < |r| ==> r[i] == EncodeRow(env, members[i])
  {
    seq(|members|, i requires 0 <= i < |members| => EncodeRow(env, members[i]))
  }

  /**
    The body determines its own digest: it holds every member as often as the entries do, in the order
    of the rows they encode to, and the digest is computed from the body alone.
   */
  lemma BodyDeterminesDigest(env: Env, entries: seq<RawEntry>)
    requires AllGood(env, entries)
    ensures var body := Publish(env, Pairs(env, entries));
            && body.digest == AggregateRows(env, EncodedRows(env, body.rows))
            && multiset(body.rows) == multiset(MembersOf(Pairs(env, entries)))
            && Sorted(RowLess(), EncodedRows(env, body.rows))
  {
    PairOrder();
    var pairs := Pairs(env, entries);
    var sorted := Sort(PairLess(), pairs);
    SortKeeps(PairLess(), pairs);
    forall i | 0 <= i < |sorted| ensures sorted[i].row == EncodeRow(env, sorted[i].member) {
      assert sorted[i] in multiset(pairs);
      var j :| 0 <= j < |pairs| && pairs[j] == sorted[i];
      assert entries[j] in entries;
      RowOfMember(env, entries[j]);
    }
    assert RowsOf(sorted) == EncodedRows(env, MembersOf(sorted));
    MembersMultiset(sorted, pairs);
  }

  lemma MembersMultiset(p: seq<Pair>, q: seq<Pair>)
    requires multiset(p) == multiset(q)
    ensures multiset(MembersOf(p)) == multiset(MembersOf(q))
  {
    var f := (x: Pair) => x.member;
    assert MapSeq(f, p) == MembersOf(p) && MapSeq(f, q) == MembersOf(q);
    MapMultiset(f, p, q);
  }

  // ----- what a digest says of the files -----

  /** What an entry selects, once unpaired surrogates are replaced: paths, arguments and the bytes of its file. */
  datatype Choice = Choice(path: U.Str, directory: U.Str, argv: seq<U.Str>, content: Bytes)

  function ReplacedAll(strings: seq<Option<U.Str>>): (r: seq<U.Str>)
    requires forall s :: s in strings ==> s.Some?
    ensures |r| == |strings| && forall i :: 0 <= i < |r| ==> r[i] == U.Replaced(strings[i].value)
  {
    seq(|strings|, i requires 0 <= i < |strings| => U.Replaced(strings[i].value))
  }

  function ChoiceOf(env: Env, e: RawEntry): Choice
    requires Process(env, e).Good?
  {
    Choice(U.Replaced(env.nfc(env.relative(FileOf(env, e)).value)),
           U.Replaced(env.nfc(env.relative(e.directory.value).value)),
           ReplacedAll(e.arguments.value), env.read(FileOf(env, e)).value)
  }

  /** The same normalisation and hash; where files lie and what they hold may differ. */
  ghost predicate SameHost(env: Env, other: Env) {
    other.nfc == env.nfc && other.sha == env.sha
  }

  /** The hash keeps apart the contents of the two files. */
  predicate ContentsApart(env: Env, d: RawEntry, other: Env, e: RawEntry)
    requires Process(env, d).Good? && Process(other, e).Good?
  {
    var x, y := ChoiceOf(env, d).content, ChoiceOf(other, e).content;
    env.sha(x) == env.sha(y) ==> x == y
  }

  lemma ArgumentsSay(env: Env, d: RawEntry, other: Env, e: RawEntry)
    requires Process(env, d).Good? && Process(other, e).Good?
    ensures var x, y := Process(env, d).pair.member.argv, Process(other, e).pair.member.argv;
            ReplacedAll(d.arguments.value) == ReplacedAll(e.arguments.value)
            <==> |x| == |y| && forall i :: 0 <= i < |x| ==> U.Replaced(x[i]) == U.Replaced(y[i])
  {
    MemberSaysTheEntry(env, d);
    MemberSaysTheEntry(other, e);
    var x, y := Process(env, d).pair.member.argv, Process(other, e).pair.member.argv;
    var r, s := ReplacedAll(d.arguments.value), ReplacedAll(e.arguments.value);
    forall i | 0 <= i < |x| ensures r[i] == U.Replaced(x[i]) {
      assert d.arguments.value[i] == Some(x[i]);
    }
    forall i | 0 <= i < |y| ensures s[i] == U.Replaced(y[i]) {
      assert e.arguments.value[i] == Some(y[i]);
    }
  }

  /** Two rows, of two calls perhaps, are equal exactly when their entries make one choice. */
  lemma RowIsTheChoice(env: Env, d: RawEntry, other: Env, e: RawEntry)
    requires SameHost(env, other) && NormalForm(env) && Process(env, d).Good? && Process(other, e).Good?
    requires Encodable(env, Process(env, d).pair.member) && Encodable(other, Process(other, e).pair.member)
    requires ContentsApart(env, d, other, e)
    ensures Process(env, d).pair.row == Process(other, e).pair.row <==> ChoiceOf(env, d) == ChoiceOf(other, e)
  {
    var m, n := Process(env, d).pair.member, Process(other, e).pair.member;
    MemberSaysTheEntry(env, d);
    MemberSaysTheEntry(other, e);
    ArgumentsSay(env, d, other, e);
    assert EncodeRow(other, n) == EncodeRow(env, n);
    RowsForgetExactlySurrogates(env, m, n);
  }

  /** An entry's row and choice, together. */
  function Told(env: Env, entries: seq<RawEntry>): (r: seq<(Bytes, Choice)>)
    requires AllGood(env, entries)
    ensures |r| == |entries|
    ensures forall i :: 0 <= i < |r| ==> r[i] == (Process(env, entries[i]).pair.row, ChoiceOf(env, entries[i]))
  {
    seq(|entries|, i requires 0 <= i < |entries| =>
      assert entries[i] in entries; (Process(env, entries[i]).pair.row, ChoiceOf(env, entries[i])))
  }

  function Choices(env: Env, entries: seq<RawEntry>): (r: seq<Choice>)
    requires AllGood(env, entries)
    ensures |r| == |entries| && forall i :: 0 <= i < |r| ==> r[i] == ChoiceOf(env, entries[i])
  {
    seq(|entries|, i requires 0 <= i < |entries| => assert entries[i] in entries; ChoiceOf(env, entries[i]))
  }

  /** The rows in the digest's order, and the bytes the digest is the hash of. */
  function Preimage(env: Env, entries: seq<RawEntry>): Bytes
    requires AllGood(env, entries)
  {
    SetPreimage(Sort(RowLess(), RowsOf(Sort(PairLess(), Pairs(env, entries)))))
  }

  /** Everything a call can write down, with rows that fit their length fields. */
  predicate Writable(env: Env, entries: seq<RawEntry>) {
    && AllGood(env, entries) && |entries| < TWO_TO_64
    && forall e :: e in entries ==> Encodable(env, Process(env, e).pair.member)
  }

  /** Two calls' entries, one of each: the hash keeps their contents apart. */
  ghost predicate AllApart(env: Env, a: seq<RawEntry>, other: Env, b: seq<RawEntry>)
    requires AllGood(env, a) && AllGood(other, b)
  {
    forall d, e :: d in a && e in b ==> ContentsApart(env, d, other, e)
  }

  /** The hash does not collide on anything the two calls hash. */
  ghost predicate NoCollision(env: Env, a: seq<RawEntry>, other: Env, b: seq<RawEntry>)
    requires AllGood(env, a) && AllGood(other, b)
  {
    && AllApart(env, a, other, b) && AllApart(env, a, env, a) && AllApart(other, b, other, b)
    && (env.sha(Preimage(env, a)) == env.sha(Preimage(other, b)) ==> Preimage(env, a) == Preimage(other, b))
  }

  lemma ToldAt(env: Env, entries: seq<RawEntry>, p: (Bytes, Choice)) returns (e: RawEntry)
    requires AllGood(env, entries) && p in Told(env, entries)
    ensures e in entries && p == (Process(env, e).pair.row, ChoiceOf(env, e))
  {
    var i :| 0 <= i < |entries| && Told(env, entries)[i] == p;
    e := entries[i];
  }

  /** Rows and choices decide each other, within each call and between the two. */
  lemma ToldDecide(env: Env, a: seq<RawEntry>, other: Env, b: seq<RawEntry>)
    requires SameHost(env, other) && NormalForm(env) && Writable(env, a) && Writable(other, b)
    requires NoCollision(env, a, other, b)
    ensures DecideEachOther(Told(env, a) + Told(other, b))
  {
    var s, t := Told(env, a), Told(other, b);
    forall p: (Bytes, Choice), q: (Bytes, Choice) | p in s + t && q in s + t ensures p.0 == q.0 <==> p.1 == q.1 {
      if p in s && q in s {
        var d := ToldAt(env, a, p);
        var e := ToldAt(env, a, q);
        RowIsTheChoice(env, d, env, e);
      } else if p in s {
        var d := ToldAt(env, a, p);
        var e := ToldAt(other, b, q);
        RowIsTheChoice(env, d, other, e);
      } else if q in s {
        var d := ToldAt(env, a, q);
        var e := ToldAt(other, b, p);
        RowIsTheChoice(env, d, other, e);
      } else {
        var d := ToldAt(other, b, p);
        var e := ToldAt(other, b, q);
        RowIsTheChoice(other, d, other, e);
      }
    }
  }

  lemma SortedRows(env: Env, entries: seq<RawEntry>)
    requires Writable(env, entries)
    ensures var sorted := Sort(PairLess(), Pairs(env, entries));
            && multiset(RowsOf(sorted)) == multiset(Firsts(Told(env, entries)))
            && RowsFit(RowsOf(sorted))
  {
    PairOrder();
    var pairs := Pairs(env, entries);
    var sorted := Sort(PairLess(), pairs);
    SortKeeps(PairLess(), pairs);
    RowsMultiset(sorted, pairs);
    assert RowsOf(pairs) == Firsts(Told(env, entries));
    forall r | r in RowsOf(sorted) ensures Fits(r) {
      assert r in multiset(RowsOf(pairs));
      var i :| 0 <= i < |pairs| && pairs[i].row == r;
      assert entries[i] in entries;
      RowOfMember(env, entries[i]);
    }
    assert |multiset(sorted)| == |multiset(pairs)|;
  }

  /**
    What the digest stands for. Where the hash does not collide, two calls publish one digest exactly
    when their entries make the same choices as often: normalised paths, arguments and the bytes of the
    files, up to unpaired surrogates. A file whose bytes change changes the digest, its size or not.
   */
  lemma DigestTellsTheChoices(env: Env, a: seq<RawEntry>, other: Env, b: seq<RawEntry>)
    requires SameHost(env, other) && NormalForm(env) && Writable(env, a) && Writable(other, b)
    requires NoCollision(env, a, other, b)
    ensures Publish(env, Pairs(env, a)).digest == Publish(other, Pairs(other, b)).digest
            <==> multiset(Choices(env, a)) == multiset(Choices(other, b))
  {
    var x, y := RowsOf(Sort(PairLess(), Pairs(env, a))), RowsOf(Sort(PairLess(), Pairs(other, b)));
    SortedRows(env, a);
    SortedRows(other, b);
    assert AggregateRows(other, y) == AggregateRows(env, y);
    DigestIsMultiset(env, x, y);
    ToldDecide(env, a, other, b);
    PartsDecideMultisets(Told(env, a), Told(other, b));
    assert Seconds(Told(env, a)) == Choices(env, a) && Seconds(Told(other, b)) == Choices(other, b);
  }

  /** The entry of a file, compiled with one argument. */
  function OneArgument(file: U.Str, directory: U.Str, argument: U.Str): RawEntry {
    Entry(Some(file), Some(directory), Some([Some(argument)]))
  }

  lemma OneArgumentMember(env: Env, file: U.Str, directory: U.Str, x: U.Str, y: U.Str)
    requires Process(env, OneArgument(file, directory, x)).Good?
    ensures Process(env, OneArgument(file, directory, y)).Good?
    ensures var m := Process(env, OneArgument(file, directory, x)).pair.member;
            && m == m.(argv := [x])
            && Process(env, OneArgument(file, directory, y)).pair
               == Pair(EncodeRow(env, m.(argv := [y])), m.(argv := [y]))
  {
    assert Strings([Some(x)]) == [x] && Strings([Some(y)]) == [y];
  }

  /** Two entries that differ in one unpaired surrogate: what is published follows their order. */
  lemma SurrogatesShowOrder(env: Env, file: U.Str, directory: U.Str)
    requires Process(env, OneArgument(file, directory, [0xD800])).Good?
    ensures var d, e := OneArgument(file, directory, [0xD800]), OneArgument(file, directory, [0xD801]);
            AllGood(env, [d, e]) && !OrderIrrelevant(env, [d, e])
  {
    var d, e := OneArgument(file, directory, [0xD800]), OneArgument(file, directory, [0xD801]);
    OneArgumentMember(env, file, directory, [0xD800], [0xD800]);
    OneArgumentMember(env, file, directory, [0xD800], [0xD801]);
    SurrogateArgumentsCollide(env, Process(env, d).pair.member);
    CollisionShowsOrder(env, [d, e], d, e);
  }

  /** A concrete environment in which the two entries above have rows. */
  lemma SurrogateExample()
    ensures var env := Env((s: U.Str) => s, (b: Bytes) => [], (s: U.Str) => Some(s), (f: U.Str, d: U.Str) => f,
                           (s: U.Str) => Some([]));
            !OrderIrrelevant(env, [OneArgument([97], [97], [0xD800]), OneArgument([97], [97], [0xD801])])
  {
    var env := Env((s: U.Str) => s, (b: Bytes) => [], (s: U.Str) => Some(s), (f: U.Str, d: U.Str) => f,
                   (s: U.Str) => Some([]));
    SurrogatesShowOrder(env, [97], [97]);
  }

  /** A member the encoder can write, with no unpaired surrogate in any of its strings. */
  predicate Clean(env: Env, m: Member) {
    && Encodable(env, m) && U.WellFormed(m.path) && U.WellFormed(m.directory)
    && forall a :: a in m.argv ==> U.WellFormed(a)
  }

  lemma CleanRowIdentifies(env: Env, d: RawEntry, e: RawEntry)
    requires NormalForm(env) && Process(env, d).Good? && Process(env, e).Good?
    requires Clean(env, Process(env, d).pair.member) && Clean(env, Process(env, e).pair.member)
    requires Process(env, d).pair.row == Process(env, e).pair.row
    ensures Process(env, d).pair.member == Process(env, e).pair.member
  {
    RowInjective(env, Process(env, d).pair.member, Process(env, e).pair.member);
  }

  /** A caller can see to it beforehand: entries without unpaired surrogates are published in a fixed order. */
  lemma CleanEntriesForgetOrder(env: Env, entries: seq<RawEntry>)
    requires NormalForm(env) && AllGood(env, entries)
    requires forall e :: e in entries ==> Clean(env, Process(env, e).pair.member)
    ensures OrderIrrelevant(env, entries)
  {
    forall d, e | d in entries && e in entries && Process(env, d).pair.row == Process(env, e).pair.row
      ensures Process(env, d).pair.member == Process(env, e).pair.member
    {
      CleanRowIdentifies(env, d, e);
    }
    IdentifyingRowsHideOrder(env, entries);
  }
}
