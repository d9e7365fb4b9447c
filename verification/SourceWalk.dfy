/**
  The census of first-party sources on disk: a depth-first walk over directories that may form
  cycles through links, bounded in directories and in sources.
 */
module SourceWalk {
  import opened Prelude

  type Path = string

  /** A source's path relative to the project root, in lower case. */
  type Key = string

  const FILE_CAP := 200_000
  const DIR_CAP := 50_000

  /** What a directory entry is; for a link, whether what it points at could be read and is a directory. */
  datatype Kind = Directory | Link(toDirectory: bool) | Plain

  /** `skipped`: its relative path is empty or in a dependency directory; `source`: its name has a source extension. */
  datatype Entry = Entry(path: Path, key: Key, skipped: bool, hidden: bool, source: bool, kind: Kind)

  /** The file system during one walk; `None` where the call throws. */
  datatype Disk = Disk(realpath: Path -> Option<Path>, listing: Path -> Option<seq<Entry>>)

  datatype Walked = Walked(sources: set<Key>, capped: bool)

  function Real(d: Disk, p: Path): Path {
    d.realpath(p).GetOr(p)
  }

  function Entries(d: Disk, p: Path): seq<Entry> {
    d.listing(p).GetOr([])
  }

  predicate IsDir(e: Entry) {
    e.kind.Directory? || (e.kind.Link? && e.kind.toDirectory)
  }

  predicate IsSubdir(e: Entry) {
    !e.skipped && IsDir(e) && !e.hidden
  }

  predicate IsSource(e: Entry) {
    !e.skipped && !IsDir(e) && e.source
  }

  // ----- the walk as functions -----

  function Subdirs(entries: seq<Entry>): (r: seq<Path>)
    ensures forall p :: p in r <==> exists e :: e in entries && IsSubdir(e) && e.path == p
  {
    if entries == [] then []
    else
      var rest, last := entries[..|entries| - 1], entries[|entries| - 1];
      assert entries == rest + [last];
      Subdirs(rest) + if IsSubdir(last) then [last.path] else []
  }

  function SourceKeys(entries: seq<Entry>): (r: set<Key>)
    ensures forall k :: k in r <==> exists e :: e in entries && IsSource(e) && e.key == k
  {
    if entries == [] then {}
    else
      var rest, last := entries[..|entries| - 1], entries[|entries| - 1];
      assert entries == rest + [last];
      SourceKeys(rest) + if IsSource(last) then {last.key} else {}
  }

  /** `expanded` lists the directories expanded so far, in order; its length is the source's `dirs`. */
  datatype State = State(stack: seq<Path>, seen: set<Path>, expanded: seq<Path>, found: set<Key>)

  predicate Full(s: State) {
    |s.found| >= FILE_CAP || |s.expanded| >= DIR_CAP
  }

  function Visit(d: Disk, s: State): State
    requires s.stack != []
  {
    var dir, rest := s.stack[|s.stack| - 1], s.stack[..|s.stack| - 1];
    if Real(d, dir) in s.seen then s.(stack := rest)
    else State(rest + Subdirs(Entries(d, dir)), s.seen + {Real(d, dir)}, s.expanded + [dir],
               s.found + SourceKeys(Entries(d, dir)))
  }

  function Loop(d: Disk, s: State): State
    decreases DIR_CAP - |s.expanded|, |s.stack|
  {
    if s.stack == [] || Full(s) then s else Loop(d, Visit(d, s))
  }

  /** The walk's last state. */
  function Final(d: Disk, root: Path): State {
    Loop(d, State([root], {}, [], {}))
  }

  function Walk(d: Disk, root: Path): Walked {
    Walked(Final(d, root).found, Final(d, root).stack != [])
  }

  // ----- the invariant -----

  ghost predicate SeenIsExpanded(d: Disk, seen: set<Path>, expanded: seq<Path>) {
    && (forall p :: p in expanded ==> Real(d, p) in seen)
    && (forall r :: r in seen ==> exists p :: p in expanded && Real(d, p) == r)
    && (forall i, j :: 0 <= i < j < |expanded| ==> Real(d, expanded[i]) != Real(d, expanded[j]))
    && |seen| == |expanded|
  }

  /** A file that is a source of the project itself. */
  predicate FirstParty(e: Entry) {
    (e.kind == Plain || e.kind == Link(false)) && e.source && !e.skipped
  }

  /** A directory, or a link to one, that is neither hidden nor a dependency's. */
  predicate Walkable(e: Entry) {
    (e.kind == Directory || e.kind == Link(true)) && !e.hidden && !e.skipped
  }

  /** `key` names a first-party source listed in one of `dirs`. */
  ghost predicate Listed(d: Disk, dirs: seq<Path>, key: Key) {
    exists p, e :: p in dirs && e in Entries(d, p) && FirstParty(e) && e.key == key
  }

  ghost predicate FoundIsListed(d: Disk, s: State) {
    forall key :: key in s.found <==> Listed(d, s.expanded, key)
  }

  /** The root, or a directory a member of `dirs` lists. */
  ghost predicate Offered(d: Disk, root: Path, dirs: seq<Path>, p: Path) {
    p == root || exists q, e :: q in dirs && e in Entries(d, q) && Walkable(e) && e.path == p
  }

  /** Nothing offered is forgotten, and nothing else is on the stack or was expanded. */
  ghost predicate NothingForgotten(d: Disk, root: Path, s: State) {
    && (forall p :: Offered(d, root, s.expanded, p) ==> p in s.stack || Real(d, p) in s.seen)
    && (forall p :: p in s.stack ==> Offered(d, root, s.expanded, p))
    && (forall i :: 0 <= i < |s.expanded| ==> Offered(d, root, s.expanded[..i], s.expanded[i]))
  }

  ghost predicate Inv(d: Disk, root: Path, s: State) {
    && SeenIsExpanded(d, s.seen, s.expanded) && FoundIsListed(d, s) && NothingForgotten(d, root, s)
    && |s.expanded| <= DIR_CAP
  }

  lemma VisitKeepsFound(d: Disk, s: State)
    requires FoundIsListed(d, s) && s.stack != []
    ensures FoundIsListed(d, Visit(d, s))
  {
    var s', dir := Visit(d, s), s.stack[|s.stack| - 1];
    if Real(d, dir) !in s.seen {
      forall key ensures key in s'.found <==> Listed(d, s'.expanded, key) {
        if Listed(d, s.expanded, key) {
          var p, e :| p in s.expanded && e in Entries(d, p) && FirstParty(e) && e.key == key;
          assert p in s'.expanded;
        }
        if key in SourceKeys(Entries(d, dir)) {
          assert dir in s'.expanded;
        }
      }
    }
  }

  lemma OfferedLater(d: Disk, root: Path, dirs: seq<Path>, dir: Path, p: Path)
    ensures Offered(d, root, dirs + [dir], p) <==> Offered(d, root, dirs, p) || p in Subdirs(Entries(d, dir))
  {
    if Offered(d, root, dirs, p) && p != root {
      var q, e :| q in dirs && e in Entries(d, q) && Walkable(e) && e.path == p;
      assert q in dirs + [dir];
    }
    if p in Subdirs(Entries(d, dir)) {
      assert dir in dirs + [dir];
    }
  }

  lemma VisitForgetsNothing(d: Disk, root: Path, s: State)
    requires NothingForgotten(d, root, s) && s.stack != []
    ensures NothingForgotten(d, root, Visit(d, s))
  {
    var s', dir := Visit(d, s), s.stack[|s.stack| - 1];
    assert s.stack == s.stack[..|s.stack| - 1] + [dir];
    if Real(d, dir) in s.seen {
      forall p | Offered(d, root, s'.expanded, p) ensures p in s'.stack || Real(d, p) in s'.seen {
        assert p in s.stack ==> p in s'.stack || p == dir;
      }
    } else {
      forall p
        ensures Offered(d, root, s'.expanded, p) <==> Offered(d, root, s.expanded, p) || p in Subdirs(Entries(d, dir))
      {
        OfferedLater(d, root, s.expanded, dir, p);
      }
      forall i | 0 <= i < |s'.expanded| ensures Offered(d, root, s'.expanded[..i], s'.expanded[i]) {
        assert s'.expanded[..i] == s.expanded[..i];
        assert i == |s.expanded| ==> s.expanded[..i] == s.expanded && dir in s.stack;
      }
    }
  }

  lemma SeenGrows(d: Disk, seen: set<Path>, expanded: seq<Path>, dir: Path)
    requires SeenIsExpanded(d, seen, expanded) && Real(d, dir) !in seen
    ensures SeenIsExpanded(d, seen + {Real(d, dir)}, expanded + [dir])
  {
    var now := expanded + [dir];
    assert dir in now && forall p :: p in expanded ==> p in now;
    forall i, j | 0 <= i < j < |now| ensures Real(d, now[i]) != Real(d, now[j]) {
      assert now[i] in expanded;
    }
  }

  lemma VisitKeeps(d: Disk, root: Path, s: State)
    requires Inv(d, root, s) && s.stack != [] && !Full(s)
    ensures Inv(d, root, Visit(d, s))
  {
    var dir := s.stack[|s.stack| - 1];
    if Real(d, dir) !in s.seen {
      SeenGrows(d, s.seen, s.expanded, dir);
    }
    VisitKeepsFound(d, s);
    VisitForgetsNothing(d, root, s);
  }

  lemma {:induction false} LoopKeeps(d: Disk, root: Path, s: State)
    requires Inv(d, root, s)
    ensures Inv(d, root, Loop(d, s))
    ensures Loop(d, s).stack != [] ==> Full(Loop(d, s))
    decreases DIR_CAP - |s.expanded|, |s.stack|
  {
    if s.stack != [] && !Full(s) {
      VisitKeeps(d, root, s);
      LoopKeeps(d, root, Visit(d, s));
    }
  }

  lemma WalkKeeps(d: Disk, root: Path)
    ensures Inv(d, root, Final(d, root))
    ensures Walk(d, root).capped ==> Full(Final(d, root))
  {
    LoopKeeps(d, root, State([root], {}, [], {}));
  }

  // ----- the theorems -----

  /** Every real directory is expanded at most once, and at most `DIR_CAP` are. */
  lemma EachDirectoryOnce(d: Disk, root: Path, i: nat, j: nat)
    requires i < j < |Final(d, root).expanded|
    ensures Real(d, Final(d, root).expanded[i]) != Real(d, Final(d, root).expanded[j])
    ensures |Final(d, root).expanded| <= DIR_CAP
  {
    WalkKeeps(d, root);
  }

  /**
    The sources collected are exactly the first-party sources of the directories expanded, and a
    walk that reports it was not capped expanded every directory it was offered: under the path
    it met first, for the root and for every subdirectory of an expanded directory.
   */
  lemma WalkCollectsExactly(d: Disk, root: Path)
    ensures var dirs := Final(d, root).expanded;
            && (forall key :: key in Walk(d, root).sources <==> Listed(d, dirs, key))
            && (forall i :: 0 <= i < |dirs| ==> Offered(d, root, dirs[..i], dirs[i]))
            && (!Walk(d, root).capped ==>
                  forall p :: Offered(d, root, dirs, p) ==> exists q :: q in dirs && Real(d, q) == Real(d, p))
  {
    WalkKeeps(d, root);
  }

  /** The real directories a walk can meet. */
  ghost predicate Closed(d: Disk, root: Path, dirs: set<Path>) {
    && Real(d, root) in dirs
    && forall p, e :: Real(d, p) in dirs && e in Entries(d, p) && Walkable(e) ==> Real(d, e.path) in dirs
  }

  lemma {:induction false} OpenedWithin(d: Disk, root: Path, dirs: set<Path>, expanded: seq<Path>)
    requires Closed(d, root, dirs)
    requires forall i :: 0 <= i < |expanded| ==> Offered(d, root, expanded[..i], expanded[i])
    ensures forall p :: p in expanded ==> Real(d, p) in dirs
  {
    if expanded != [] {
      var rest, last := expanded[..|expanded| - 1], expanded[|expanded| - 1];
      forall i | 0 <= i < |rest| ensures Offered(d, root, rest[..i], rest[i]) {
        assert rest[..i] == expanded[..i];
      }
      OpenedWithin(d, root, dirs, rest);
      assert Offered(d, root, rest, last);
      assert expanded == rest + [last];
    }
  }

  /** However its links form cycles, a tree with fewer real directories than the cap is walked to the end. */
  lemma CyclesDoNotCap(d: Disk, root: Path, dirs: set<Path>)
    requires Closed(d, root, dirs) && |dirs| < DIR_CAP
    ensures Walk(d, root).capped ==> |Walk(d, root).sources| >= FILE_CAP
  {
    WalkKeeps(d, root);
    var s := Final(d, root);
    OpenedWithin(d, root, dirs, s.expanded);
    SubsetSize(s.seen, dirs);
  }

  /** The sources listed in the given directories. */
  function KeysIn(d: Disk, dirs: seq<Path>): set<Key> {
    if dirs == [] then {} else KeysIn(d, dirs[..|dirs| - 1]) + SourceKeys(Entries(d, dirs[|dirs| - 1]))
  }

  /** Directory `i` was expanded while there was room for more sources and more directories. */
  predicate HadRoom(d: Disk, expanded: seq<Path>, i: nat)
    requires i <= |expanded|
  {
    i < 50_000 && |KeysIn(d, expanded[..i])| < 200_000
  }

  ghost predicate ExpandedInRoom(d: Disk, s: State) {
    s.found == KeysIn(d, s.expanded) && forall i :: 0 <= i < |s.expanded| ==> HadRoom(d, s.expanded, i)
  }

  lemma KeysOfOneMore(d: Disk, dirs: seq<Path>, dir: Path)
    ensures KeysIn(d, dirs + [dir]) == KeysIn(d, dirs) + SourceKeys(Entries(d, dir))
  {
    assert (dirs + [dir])[..|dirs|] == dirs;
  }

  lemma HadRoomStill(d: Disk, expanded: seq<Path>, dir: Path, i: nat)
    requires i <= |expanded|
    ensures HadRoom(d, expanded + [dir], i) <==> i < 50_000 && |KeysIn(d, expanded[..i])| < 200_000
  {
    assert (expanded + [dir])[..i] == expanded[..i];
  }

  lemma VisitInRoom(d: Disk, s: State)
    requires ExpandedInRoom(d, s) && s.stack != [] && !Full(s)
    ensures ExpandedInRoom(d, Visit(d, s))
  {
    var dir := s.stack[|s.stack| - 1];
    if Real(d, dir) !in s.seen {
      KeysOfOneMore(d, s.expanded, dir);
      assert s.expanded[..|s.expanded|] == s.expanded;
      forall i | 0 <= i < |s.expanded + [dir]| ensures HadRoom(d, s.expanded + [dir], i) {
        HadRoomStill(d, s.expanded, dir, i);
        assert i < |s.expanded| ==> HadRoom(d, s.expanded, i);
      }
    }
  }

  lemma {:induction false} LoopInRoom(d: Disk, s: State)
    requires ExpandedInRoom(d, s)
    ensures ExpandedInRoom(d, Loop(d, s))
    decreases DIR_CAP - |s.expanded|, |s.stack|
  {
    if s.stack != [] && !Full(s) {
      VisitInRoom(d, s);
      LoopInRoom(d, Visit(d, s));
    }
  }

  /**
    The two bounds: no directory is expanded once 200,000 sources are found or 50,000 directories
    expanded, and a walk is cut short only then.
   */
  lemma CapsBoundTheWalk(d: Disk, root: Path)
    ensures ExpandedInRoom(d, Final(d, root))
    ensures Walk(d, root).capped ==>
              |Walk(d, root).sources| >= 200_000 || |Final(d, root).expanded| >= 50_000
  {
    LoopInRoom(d, State([root], {}, [], {}));
    WalkKeeps(d, root);
  }

  // ----- the walk -----

  /** List one directory: what it adds to the stack and to the sources. */
  method ScanEntries(entries: seq<Entry>, stack: seq<Path>, found: set<Key>)
    returns (stack': seq<Path>, found': set<Key>)
    ensures stack' == stack + Subdirs(entries) && found' == found + SourceKeys(entries)
  {
    stack', found' := stack, found;
    for i := 0 to |entries|
      invariant stack' == stack + Subdirs(entries[..i]) && found' == found + SourceKeys(entries[..i])
    {
      var e := entries[i];
      assert entries[..i + 1][..i] == entries[..i] && entries[..i + 1][i] == e;
      if !e.skipped {
        if IsDir(e) {
          if !e.hidden {
            stack' := stack' + [e.path];
          }
        } else if e.source {
          found' := found' + {e.key};
        }
      }
    }
    assert entries[..|entries|] == entries;
  }

  method WalkFirstPartySourcesOnDisk(d: Disk, root: Path) returns (found: set<Key>, capped: bool)
    ensures Walked(found, capped) == Walk(d, root)
  {
    var stack, seen, dirs := [root], {}, 0;
    found, capped := {}, false;
    ghost var expanded: seq<Path> := [];
    while stack != []
      invariant dirs == |expanded| && !capped
      invariant Loop(d, State(stack, seen, expanded, found)) == Final(d, root)
      decreases DIR_CAP - dirs, |stack|
    {
      if |found| >= FILE_CAP || dirs >= DIR_CAP {
        capped := true;
        break;
      }
      ghost var before := State(stack, seen, expanded, found);
      var dir := stack[|stack| - 1];
      stack := stack[..|stack| - 1];
      var target := Real(d, dir);
      if target !in seen {
        seen, dirs, expanded := seen + {target}, dirs + 1, expanded + [dir];
        match d.listing(dir)
        case None =>
        case Some(entries) => stack, found := ScanEntries(entries, stack, found);
      }
      assert State(stack, seen, expanded, found) == Visit(d, before);
    }
  }
}
