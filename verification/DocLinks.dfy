/**
  Path references in documents: a written path resolves to exactly one indexed file node, by two
  exact anchorings and then by a unique path suffix, or is refused.
 */
module DocLinks {
  import opened Prelude
  import opened Sorting
  import opened Strings

  type Id = nat

  const DOT: string := ['.']
  const DOT_DOT: string := ['.', '.']
  const NULL: string := ['n', 'u', 'l', 'l']

  /** A file-level node; `rank` orders the node types that may share a path, best first. */
  datatype FileNode = FileNode(id: Id, path: string, rank: nat)

  datatype Held = Held(id: Id, rank: nat)

  /** `keys` are the paths in insertion order. */
  datatype Index = Index(byPath: map<string, Held>, keys: seq<string>)

  datatype Target = Target(id: Id, tier: nat)

  // ----- normalising -----

  /** Fold the segments onto `out`; going up from the top fails, or is ignored below an absolute root. */
  function Fold(parts: seq<string>, out: seq<string>, absolute: bool): Option<seq<string>>
    decreases |parts|
  {
    if parts == [] then Some(out)
    else if parts[0] == [] || parts[0] == DOT then Fold(parts[1..], out, absolute)
    else if parts[0] == DOT_DOT then
      if out != [] then Fold(parts[1..], out[..|out| - 1], absolute)
      else if absolute then Fold(parts[1..], out, absolute)
      else None
    else Fold(parts[1..], out + [parts[0]], absolute)
  }

  function Parts(path: string): seq<string> {
    Split(Slashed(path), '/')
  }

  function Rejoined(out: Option<seq<string>>): Option<string> {
    if out.None? || out.value == [] then None else Some(Join(out.value, '/'))
  }

  function Normalize(path: string): Option<string> {
    Rejoined(Fold(Parts(path), [], false))
  }

  /** A segment that names something. */
  predicate Named(s: string) {
    s != [] && s != DOT && s != DOT_DOT && '/' !in s && '\\' !in s
  }

  lemma {:induction false} FoldNamed(parts: seq<string>, out: seq<string>, absolute: bool)
    requires forall s :: s in parts ==> '/' !in s && '\\' !in s
    requires forall s :: s in out ==> Named(s)
    ensures var r := Fold(parts, out, absolute); r.Some? ==> forall s :: s in r.value ==> Named(s)
    decreases |parts|
  {
    if parts != [] {
      assert parts[0] in parts && forall s :: s in parts[1..] ==> s in parts;
      if parts[0] == [] || parts[0] == DOT {
        FoldNamed(parts[1..], out, absolute);
      } else if parts[0] == DOT_DOT {
        if out != [] {
          FoldNamed(parts[1..], out[..|out| - 1], absolute);
        } else if absolute {
          FoldNamed(parts[1..], out, absolute);
        }
      } else {
        FoldNamed(parts[1..], out + [parts[0]], absolute);
      }
    }
  }

  lemma {:induction false} FoldKeeps(parts: seq<string>, out: seq<string>, absolute: bool)
    requires forall s :: s in parts ==> Named(s)
    ensures Fold(parts, out, absolute) == Some(out + parts)
    decreases |parts|
  {
    if parts == [] {
      assert out + parts == out;
    } else {
      assert parts[0] in parts && forall s :: s in parts[1..] ==> s in parts;
      FoldKeeps(parts[1..], out + [parts[0]], absolute);
      assert out + [parts[0]] + parts[1..] == out + parts;
    }
  }

  lemma {:induction false} SplitCharsOf(s: string, sep: char, c: char)
    requires c !in s
    ensures forall p :: p in Split(s, sep) ==> c !in p
  {
    if s != [] {
      assert s[0] in s && forall d :: d in s[1..] ==> d in s;
      SplitCharsOf(s[1..], sep, c);
      var rest := Split(s[1..], sep);
      assert rest[0] in rest && forall p :: p in rest[1..] ==> p in rest;
    }
  }

  lemma PartsAreClean(path: string)
    ensures forall s :: s in Parts(path) ==> '/' !in s && '\\' !in s
  {
    SplitParts(Slashed(path), '/');
    SplitCharsOf(Slashed(path), '/', '\\');
  }

  lemma {:induction false} JoinWithout(parts: seq<string>, c: char)
    requires c != '/' && forall s :: s in parts ==> c !in s
    ensures c !in Join(parts, '/')
  {
    if parts != [] {
      assert parts[0] in parts && forall s :: s in parts[1..] ==> s in parts;
      if |parts| > 1 {
        JoinWithout(parts[1..], c);
      }
    }
  }

  lemma RejoinedReads(out: seq<string>)
    requires out != [] && forall s :: s in out ==> Named(s)
    ensures Parts(Join(out, '/')) == out && Normalize(Join(out, '/')) == Some(Join(out, '/'))
  {
    JoinWithout(out, '\\');
    SplitJoin(out, '/');
    FoldKeeps(out, [], false);
    assert [] + out == out;
  }

  /** A normalised path has named segments only: none empty, `.` or `..`, and no backslash. */
  lemma NormalizedIsNamed(path: string, absolute: bool)
    ensures var r := Rejoined(Fold(Parts(path), [], absolute));
            r.Some? ==> (forall s :: s in Parts(r.value) ==> Named(s)) && Parts(r.value) == Split(r.value, '/')
  {
    PartsAreClean(path);
    FoldNamed(Parts(path), [], absolute);
    var out := Fold(Parts(path), [], absolute);
    if out.Some? && out.value != [] {
      RejoinedReads(out.value);
      JoinWithout(out.value, '\\');
    }
  }

  /** Normalising twice is normalising once. */
  lemma NormalizeIdempotent(path: string)
    requires Normalize(path).Some?
    ensures Normalize(Normalize(path).value) == Normalize(path)
  {
    PartsAreClean(path);
    FoldNamed(Parts(path), [], false);
    RejoinedReads(Fold(Parts(path), [], false).value);
  }

  /** Folding two stretches of segments is folding the second onto what the first leaves. */
  lemma {:induction false} FoldAppend(a: seq<string>, b: seq<string>, out: seq<string>, absolute: bool)
    ensures Fold(a + b, out, absolute)
            == match Fold(a, out, absolute) case None => None case Some(o) => Fold(b, o, absolute)
    decreases |a|
  {
    if a == [] {
      assert a + b == b;
    } else {
      assert (a + b)[1..] == a[1..] + b;
      if a[0] == [] || a[0] == DOT {
        FoldAppend(a[1..], b, out, absolute);
      } else if a[0] == DOT_DOT {
        if out != [] {
          FoldAppend(a[1..], b, out[..|out| - 1], absolute);
        } else if absolute {
          FoldAppend(a[1..], b, out, absolute);
        }
      } else {
        FoldAppend(a[1..], b, out + [a[0]], absolute);
      }
    }
  }

  lemma FoldMiddle(a: seq<string>, middle: seq<string>, b: seq<string>, ab: seq<string>)
    requires ab == a + b
    requires var o := Fold(a, [], false); o.Some? ==> Fold(middle, o.value, false) == o
    ensures Fold(a + middle + b, [], false) == Fold(ab, [], false)
  {
    FoldAppend(a + middle, b, [], false);
    FoldAppend(a, middle, [], false);
    FoldAppend(a, b, [], false);
  }

  lemma SlashedAppend(a: string, b: string)
    ensures Slashed(a + ['/'] + b) == Slashed(a) + ['/'] + Slashed(b)
  {
  }

  lemma PartsAppend(a: string, b: string)
    ensures Parts(a + ['/'] + b) == Parts(a) + Parts(b)
  {
    SlashedAppend(a, b);
    SplitAppend(Slashed(a), Slashed(b), '/');
  }

  lemma PartsAround(a: string, x: string, b: string)
    ensures Parts(a + ['/'] + x + ['/'] + b) == Parts(a) + Parts(x) + Parts(b)
  {
    PartsAppend(a + ['/'] + x, b);
    PartsAppend(a, x);
  }

  lemma OnePart(x: string)
    requires '/' !in x && '\\' !in x
    ensures Parts(x) == [x]
  {
    SplitWhole(x, '/');
  }

  lemma UpAndDown(x: string, out: seq<string>)
    requires Named(x)
    ensures Fold([x, DOT_DOT], out, false) == Some(out)
  {
    assert [x, DOT_DOT][1..] == [DOT_DOT] && [DOT_DOT][1..] == [];
    assert (out + [x])[..|out|] == out;
    assert Fold([DOT_DOT], out + [x], false) == Fold([], out, false);
  }

  /** An empty segment and a dot count for nothing. */
  lemma SkipLaw(a: string, s: string, b: string)
    requires s == [] || s == DOT
    ensures Normalize(a + ['/'] + s + ['/'] + b) == Normalize(a + ['/'] + b)
  {
    OnePart(s);
    PartsAround(a, s, b);
    PartsAppend(a, b);
    assert [s][1..] == [];
    FoldMiddle(Parts(a), [s], Parts(b), Parts(a + ['/'] + b));
  }

  /** Two dots take the named segment before them away. */
  lemma UpLaw(a: string, x: string, b: string)
    requires Named(x)
    ensures Normalize(a + ['/'] + (x + ['/'] + DOT_DOT) + ['/'] + b) == Normalize(a + ['/'] + b)
  {
    OnePart(x);
    OnePart(DOT_DOT);
    PartsAppend(x, DOT_DOT);
    assert [x] + [DOT_DOT] == [x, DOT_DOT];
    PartsAround(a, x + ['/'] + DOT_DOT, b);
    PartsAppend(a, b);
    var o := Fold(Parts(a), [], false);
    if o.Some? {
      UpAndDown(x, o.value);
    }
    FoldMiddle(Parts(a), [x, DOT_DOT], Parts(b), Parts(a + ['/'] + b));
  }

  /** A path that begins with two dots has no normal form. */
  lemma TopLaw(b: string)
    ensures Normalize(DOT_DOT + ['/'] + b) == None
  {
    OnePart(DOT_DOT);
    PartsAppend(DOT_DOT, b);
    FoldAppend([DOT_DOT], Parts(b), [], false);
  }

  /** A named segment stays as it is, and a backslash is a slash. */
  lemma NameLaw(a: string, x: string, b: string)
    requires Named(x)
    ensures Normalize(x) == Some(x) && Normalize(a + ['\\'] + b) == Normalize(a + ['/'] + b)
  {
    OnePart(x);
    FoldKeeps([x], [], false);
    assert [] + [x] == [x] && Join([x], '/') == x;
    assert Slashed(a + ['\\'] + b) == Slashed(a + ['/'] + b);
  }

  // ----- the index -----

  function AddNode(index: Index, n: FileNode): Index {
    match Normalize(n.path)
    case None => index
    case Some(p) =>
      if p !in index.byPath then Index(index.byPath[p := Held(n.id, n.rank)], index.keys + [p])
      else if n.rank < index.byPath[p].rank then index.(byPath := index.byPath[p := Held(n.id, n.rank)])
      else index
  }

  function IndexOf(nodes: seq<FileNode>): Index {
    if nodes == [] then Index(map[], []) else AddNode(IndexOf(nodes[..|nodes| - 1]), nodes[|nodes| - 1])
  }

  predicate IsAt(n: FileNode, p: string) {
    Normalize(n.path) == Some(p)
  }

  /** No node at the same path has a better rank. */
  ghost predicate Best(nodes: seq<FileNode>, n: FileNode, p: string) {
    n in nodes && IsAt(n, p) && forall m :: m in nodes && IsAt(m, p) ==> n.rank <= m.rank
  }

  ghost predicate Distinctly(index: Index) {
    (forall p :: p in index.keys <==> p in index.byPath) && Distinct(index.keys)
  }

  /** The index holds, for every path some node is at, a node of best rank there. */
  ghost predicate HoldsBest(nodes: seq<FileNode>, index: Index) {
    && (forall n, p :: n in nodes && IsAt(n, p) ==> p in index.byPath)
    && (forall p :: p in index.byPath ==> exists n :: Best(nodes, n, p) && index.byPath[p] == Held(n.id, n.rank))
  }

  /** The better of two nodes, the older one where they tie. */
  lemma BestAfterAdding(nodes: seq<FileNode>, n: FileNode, m: FileNode, p: string)
    requires Best(nodes, m, p)
    ensures Best(nodes + [n], if IsAt(n, p) && n.rank < m.rank then n else m, p)
  {
    assert n in nodes + [n] && forall k :: k in nodes ==> k in nodes + [n];
  }

  lemma AddKeepsBest(nodes: seq<FileNode>, index: Index, n: FileNode)
    requires HoldsBest(nodes, index)
    ensures HoldsBest(nodes + [n], AddNode(index, n))
  {
    var all, index' := nodes + [n], AddNode(index, n);
    assert n in all && forall m :: m in nodes ==> m in all;
    forall p | p in index'.byPath ensures exists m :: Best(all, m, p) && index'.byPath[p] == Held(m.id, m.rank) {
      if p in index.byPath {
        var m :| Best(nodes, m, p) && index.byPath[p] == Held(m.id, m.rank);
        BestAfterAdding(nodes, n, m, p);
      } else {
        assert Best(all, n, p);
      }
    }
  }

  lemma {:induction false} IndexHoldsBest(nodes: seq<FileNode>)
    ensures HoldsBest(nodes, IndexOf(nodes)) && Distinctly(IndexOf(nodes))
  {
    if nodes != [] {
      var rest, last := nodes[..|nodes| - 1], nodes[|nodes| - 1];
      IndexHoldsBest(rest);
      AddKeepsBest(rest, IndexOf(rest), last);
      assert nodes == rest + [last];
    }
  }

  /** Two nodes of best rank at one path, with different ids. */
  ghost predicate Contested(nodes: seq<FileNode>, p: string) {
    exists m, n :: Best(nodes, m, p) && Best(nodes, n, p) && m.id != n.id
  }

  lemma SameElements(a: seq<FileNode>, b: seq<FileNode>)
    requires multiset(a) == multiset(b)
    ensures forall n :: n in a <==> n in b
  {
    forall n ensures n in a <==> n in b {
      assert n in a <==> n in multiset(a);
      assert n in b <==> n in multiset(b);
    }
  }

  lemma HeldAgree(a: seq<FileNode>, b: seq<FileNode>, p: string)
    requires multiset(a) == multiset(b) && !Contested(a, p)
    ensures p in IndexOf(a).byPath <==> p in IndexOf(b).byPath
    ensures p in IndexOf(a).byPath ==> IndexOf(a).byPath[p] == IndexOf(b).byPath[p]
  {
    SameElements(a, b);
    IndexHoldsBest(a);
    IndexHoldsBest(b);
    if p in IndexOf(a).byPath {
      var m :| Best(a, m, p) && IndexOf(a).byPath[p] == Held(m.id, m.rank);
      assert p in IndexOf(b).byPath;
      var n :| Best(b, n, p) && IndexOf(b).byPath[p] == Held(n.id, n.rank);
      assert Best(a, n, p);
    }
    if p in IndexOf(b).byPath {
      var n :| Best(b, n, p) && IndexOf(b).byPath[p] == Held(n.id, n.rank);
      assert n in a;
    }
  }

  lemma {:induction false} FirstBestIsHeld(nodes: seq<FileNode>, p: string)
    requires nodes != [] && Best(nodes, nodes[0], p)
    ensures p in IndexOf(nodes).byPath && IndexOf(nodes).byPath[p] == Held(nodes[0].id, nodes[0].rank)
  {
    if |nodes| > 1 {
      var rest, last := nodes[..|nodes| - 1], nodes[|nodes| - 1];
      assert last in nodes && forall n :: n in rest ==> n in nodes;
      assert rest[0] in rest;
      FirstBestIsHeld(rest, p);
    } else {
      assert nodes[..0] == [];
    }
  }

  // ----- resolving -----

  /** What is left of a written path once its fragment and query are dropped. */
  function UpTo(s: string, c: char): string {
    Split(s, c)[0]
  }

  function Cleaned(written: string): string {
    Trim(UpTo(UpTo(written, '#'), '?'))
  }

  /** The part of a path before its last slash. */
  function DirOf(path: string): (dir: string)
    ensures dir <= path
  {
    if path == [] then []
    else if path[|path| - 1] == '/' || path[|path| - 1] == '\\' then path[..|path| - 1]
    else DirOf(path[..|path| - 1])
  }

  /** The written path relative to the document's directory; `join` lets an absolute result absorb `..` at its top. */
  function FromDocument(docPath: string, cleaned: string): Option<string> {
    var dir := DirOf(docPath);
    var joined := Slashed(if dir == [] then cleaned else dir + ['/'] + cleaned);
    Rejoined(Fold(Parts(joined), [], joined != [] && joined[0] == '/'))
  }

  function Hit(index: Index, p: Option<string>): Option<Id> {
    if p.Some? && p.value in index.byPath then Some(index.byPath[p.value].id) else None
  }

  /** `/${rootRel}`: JavaScript prints a missing path as `null`. */
  function Needle(rootRel: Option<string>): string {
    ['/'] + rootRel.GetOr(NULL)
  }

  predicate EndsWith(s: string, suffix: string) {
    |suffix| <= |s| && s[|s| - |suffix|..] == suffix
  }

  predicate IsHit(p: string, rootRel: Option<string>) {
    Some(p) == rootRel || EndsWith(p, Needle(rootRel))
  }

  function SuffixHits(keys: seq<string>, rootRel: Option<string>): seq<string> {
    if keys == [] then []
    else SuffixHits(keys[..|keys| - 1], rootRel) + if IsHit(keys[|keys| - 1], rootRel) then [keys[|keys| - 1]] else []
  }

  lemma {:induction false} HitsAreKeys(keys: seq<string>, rootRel: Option<string>)
    ensures forall p :: p in SuffixHits(keys, rootRel) <==> p in keys && IsHit(p, rootRel)
    ensures Distinct(keys) ==> Distinct(SuffixHits(keys, rootRel))
  {
    if keys != [] {
      var rest, last := keys[..|keys| - 1], keys[|keys| - 1];
      assert keys == rest + [last];
      HitsAreKeys(rest, rootRel);
      if Distinct(keys) {
        assert Distinct(rest) && last !in rest;
      }
    }
  }

  function BySuffix(index: Index, cleaned: string, rootRel: Option<string>): Option<Target>
    requires forall p :: p in index.keys ==> p in index.byPath
  {
    HitsAreKeys(index.keys, rootRel);
    var hits := SuffixHits(index.keys, rootRel);
    if '/' in cleaned && |hits| == 1 then
      assert hits[0] in hits;
      Some(Target(index.byPath[hits[0]].id, 3))
    else None
  }

  function Resolve(written: string, docPath: string, index: Index): Option<Target>
    requires forall p :: p in index.keys ==> p in index.byPath
  {
    var cleaned := Cleaned(written);
    if cleaned == [] then None
    else
      var rootRel := Normalize(cleaned);
      var fromRoot, fromDoc := Hit(index, rootRel), Hit(index, FromDocument(docPath, cleaned));
      if fromRoot.Some? && fromDoc.Some? then
        (if fromRoot == fromDoc then Some(Target(fromRoot.value, 1)) else None)
      else if fromRoot.Some? then Some(Target(fromRoot.value, 1))
      else if fromDoc.Some? then Some(Target(fromDoc.value, 1))
      else BySuffix(index, cleaned, rootRel)
  }

  /** Resolution in the index of a graph's nodes. */
  function ResolveIn(nodes: seq<FileNode>, written: string, docPath: string): Option<Target> {
    IndexHoldsBest(nodes);
    Resolve(written, docPath, IndexOf(nodes))
  }

  /** A fragment or a query is dropped with what follows it, wherever the other stands. */
  lemma FragmentAndQueryAreDropped(p: string, rest: string)
    ensures Cleaned(p + ['#'] + rest) == Cleaned(p) == Cleaned(p + ['?'] + rest)
  {
    SplitAppend(p, rest, '#');
    if '#' in p {
      BeforeFirst(p, ['?'] + rest, '#');
      assert p + (['?'] + rest) == p + ['?'] + rest;
    } else {
      var more := UpTo(rest, '#');
      SplitWhole(p, '#');
      UpToAppend(p + ['?'], rest, '#');
      SplitAppend(p, more, '?');
    }
  }

  /** What follows the first separator does not matter. */
  lemma {:induction false} BeforeFirst(p: string, rest: string, c: char)
    requires c in p
    ensures UpTo(p + rest, c) == UpTo(p, c)
  {
    assert (p + rest)[1..] == p[1..] + rest;
    if p[0] != c {
      BeforeFirst(p[1..], rest, c);
    }
  }

  lemma {:induction false} UpToAppend(p: string, rest: string, c: char)
    requires c !in p
    ensures UpTo(p + rest, c) == p + UpTo(rest, c)
  {
    if p == [] {
      assert p + rest == rest;
    } else {
      assert p[0] in p && forall d :: d in p[1..] ==> d in p;
      assert (p + rest)[1..] == p[1..] + rest;
      UpToAppend(p[1..], rest, c);
    }
  }

  /** White space around a path is dropped, and a path without fragment and query is left as it is. */
  lemma SpaceIsDropped(front: string, p: string, back: string)
    requires AllSpace(front) && AllSpace(back)
    requires p != [] && !IsSpace(p[0]) && !IsSpace(p[|p| - 1]) && '#' !in p && '?' !in p
    ensures Cleaned(front + p + back) == p
  {
    SplitWhole(front + p + back, '#');
    SplitWhole(front + p + back, '?');
    TrimTakesSpaceOff(front, p, back);
  }

  lemma {:induction false} DirBefore(dir: string, name: string)
    requires '/' !in name && '\\' !in name
    ensures DirOf(dir + ['/'] + name) == dir && DirOf(name) == []
  {
    var path := dir + ['/'] + name;
    if name == [] {
      assert path[|path| - 1] == '/';
    } else {
      var n := |name| - 1;
      assert name[n] in name && forall c :: c in name[..n] ==> c in name;
      DirBefore(dir, name[..n]);
      assert path[..|path| - 1] == dir + ['/'] + name[..n];
    }
  }

  /** A path written in a document is taken from the document's own directory. */
  lemma TakenFromTheDirectory(dir: string, name: string, p: string)
    requires '/' !in name && '\\' !in name
    ensures dir != [] && dir[0] != '/' && dir[0] != '\\' ==>
              FromDocument(dir + ['/'] + name, p) == Normalize(dir + ['/'] + p)
    ensures p != [] && p[0] != '/' && p[0] != '\\' ==> FromDocument(name, p) == Normalize(p)
  {
    DirBefore(dir, name);
    assert Slashed(Slashed(p)) == Slashed(p);
    assert Slashed(Slashed(dir + ['/'] + p)) == Slashed(dir + ['/'] + p);
  }

  /** An answer is of the first or the third tier. */
  lemma NoOtherTier(nodes: seq<FileNode>, written: string, docPath: string)
    ensures var r := ResolveIn(nodes, written, docPath); r.Some? ==> r.value.tier in {1, 3}
    ensures Cleaned(written) == [] ==> ResolveIn(nodes, written, docPath) == None
  {
  }

  // ----- row order -----

  lemma OneHit(hits: seq<string>, p: string)
    requires Distinct(hits)
    ensures hits == [p] <==> p in hits && forall q :: q in hits ==> q == p
  {
    if p in hits && forall q :: q in hits ==> q == p {
      if |hits| > 1 {
        assert hits[0] in hits && hits[1] in hits;
      }
    }
  }

  lemma SuffixForgetsOrder(a: Index, b: Index, cleaned: string, rootRel: Option<string>)
    requires Distinctly(a) && Distinctly(b) && a.byPath == b.byPath
    ensures BySuffix(a, cleaned, rootRel) == BySuffix(b, cleaned, rootRel)
  {
    HitsAreKeys(a.keys, rootRel);
    HitsAreKeys(b.keys, rootRel);
    var x, y := SuffixHits(a.keys, rootRel), SuffixHits(b.keys, rootRel);
    assert forall p :: p in x <==> p in y;
    if |x| == 1 {
      assert x == [x[0]];
      OneHit(x, x[0]);
      OneHit(y, x[0]);
    }
    if |y| == 1 {
      assert y == [y[0]];
      OneHit(y, y[0]);
      OneHit(x, y[0]);
    }
  }

  lemma SameByPath(a: seq<FileNode>, b: seq<FileNode>)
    requires multiset(a) == multiset(b) && forall p :: !Contested(a, p)
    ensures IndexOf(a).byPath == IndexOf(b).byPath
  {
    forall p ensures p in IndexOf(a).byPath <==> p in IndexOf(b).byPath {
      HeldAgree(a, b, p);
    }
    forall p | p in IndexOf(a).byPath ensures IndexOf(a).byPath[p] == IndexOf(b).byPath[p] {
      HeldAgree(a, b, p);
    }
  }

  lemma ResolveForgetsOrder(a: Index, b: Index, written: string, docPath: string)
    requires Distinctly(a) && Distinctly(b) && a.byPath == b.byPath
    ensures Resolve(written, docPath, a) == Resolve(written, docPath, b)
  {
    SuffixForgetsOrder(a, b, Cleaned(written), Normalize(Cleaned(written)));
  }

  /** Where no path is contested, resolution does not depend on the order the graph's rows come in. */
  lemma RowOrderIsIrrelevant(a: seq<FileNode>, b: seq<FileNode>, written: string, docPath: string)
    requires multiset(a) == multiset(b) && forall p :: !Contested(a, p)
    ensures ResolveIn(a, written, docPath) == ResolveIn(b, written, docPath)
  {
    IndexHoldsBest(a);
    IndexHoldsBest(b);
    SameByPath(a, b);
    ResolveForgetsOrder(IndexOf(a), IndexOf(b), written, docPath);
  }

  lemma PutFirst(nodes: seq<FileNode>, n: FileNode) returns (r: seq<FileNode>)
    requires n in nodes
    ensures r != [] && r[0] == n && multiset(r) == multiset(nodes)
  {
    var i, rest := TakeOut(nodes, n);
    r := [n] + rest;
  }

  /** And only there: two orders of the rows of a contested path file different nodes under it. */
  lemma ContestedPathFollowsRowOrder(nodes: seq<FileNode>, p: string) returns (a: seq<FileNode>, b: seq<FileNode>)
    requires Contested(nodes, p)
    ensures multiset(a) == multiset(nodes) && multiset(b) == multiset(nodes)
    ensures p in IndexOf(a).byPath && p in IndexOf(b).byPath && IndexOf(a).byPath[p].id != IndexOf(b).byPath[p].id
  {
    var m, n :| Best(nodes, m, p) && Best(nodes, n, p) && m.id != n.id;
    a := PutFirst(nodes, m);
    b := PutFirst(nodes, n);
    SameElements(a, nodes);
    SameElements(b, nodes);
    FirstBestIsHeld(a, p);
    FirstBestIsHeld(b, p);
  }

  /**
    A normalised path that survives cleaning, written in a top-level document, is answered with the
    node held there.
   */
  lemma WrittenAsItIs(index: Index, p: string)
    requires Distinctly(index) && p in index.byPath && Cleaned(p) == p && Normalize(p) == Some(p)
    ensures Resolve(p, [], index) == Some(Target(index.byPath[p].id, 1))
  {
    assert DirOf([]) == [];
    NormalizedIsNamed(p, false);
    NormalizedIsNamed(p, true);
    assert Slashed(p) == p by {
      JoinSplit(Slashed(p), '/');
      JoinSplit(p, '/');
    }
    FoldKeeps(Parts(p), [], true);
    FoldKeeps(Parts(p), [], false);
  }

  /**
    Then the two orders get two answers: row order is irrelevant for all such paths exactly where none
    is contested.
   */
  lemma ContestedPathIsAnsweredByRowOrder(nodes: seq<FileNode>, p: string) returns (a: seq<FileNode>, b: seq<FileNode>)
    requires Contested(nodes, p) && Cleaned(p) == p
    ensures multiset(a) == multiset(nodes) && multiset(b) == multiset(nodes)
    ensures ResolveIn(a, p, []) != ResolveIn(b, p, [])
  {
    a, b := ContestedPathFollowsRowOrder(nodes, p);
    var m :| Best(nodes, m, p);
    NormalizeIdempotent(m.path);
    IndexHoldsBest(a);
    IndexHoldsBest(b);
    WrittenAsItIs(IndexOf(a), p);
    WrittenAsItIs(IndexOf(b), p);
  }

  // ----- what each tier means -----

  /** The ids of best-ranked nodes the two anchorings lead to. */
  ghost predicate Anchored(nodes: seq<FileNode>, written: string, docPath: string, id: Id) {
    var cleaned := Cleaned(written);
    exists n, p :: Best(nodes, n, p) && n.id == id
                   && (Normalize(cleaned) == Some(p) || FromDocument(docPath, cleaned) == Some(p))
  }

  lemma HitIsBest(nodes: seq<FileNode>, p: Option<string>, id: Id)
    requires forall q :: !Contested(nodes, q)
    ensures Hit(IndexOf(nodes), p) == Some(id) <==> p.Some? && exists n :: Best(nodes, n, p.value) && n.id == id
  {
    IndexHoldsBest(nodes);
    if p.Some? && p.value in IndexOf(nodes).byPath {
      var m :| Best(nodes, m, p.value) && IndexOf(nodes).byPath[p.value] == Held(m.id, m.rank);
      assert !Contested(nodes, p.value);
    }
  }

  lemma AnchoredIsHit(nodes: seq<FileNode>, written: string, docPath: string, id: Id)
    requires forall q :: !Contested(nodes, q)
    ensures var index, cleaned := IndexOf(nodes), Cleaned(written);
            Anchored(nodes, written, docPath, id)
            <==> Hit(index, Normalize(cleaned)) == Some(id) || Hit(index, FromDocument(docPath, cleaned)) == Some(id)
  {
    var cleaned := Cleaned(written);
    HitIsBest(nodes, Normalize(cleaned), id);
    HitIsBest(nodes, FromDocument(docPath, cleaned), id);
  }

  lemma TierOneIsHits(index: Index, written: string, docPath: string, id: Id)
    requires Distinctly(index)
    ensures var cleaned := Cleaned(written);
            var root, doc := Hit(index, Normalize(cleaned)), Hit(index, FromDocument(docPath, cleaned));
            Resolve(written, docPath, index) == Some(Target(id, 1))
            <==> cleaned != [] && (root == Some(id) || doc == Some(id)) && root.GetOr(id) == id && doc.GetOr(id) == id
    ensures var cleaned := Cleaned(written);
            var root, doc := Hit(index, Normalize(cleaned)), Hit(index, FromDocument(docPath, cleaned));
            root.Some? && doc.Some? && root != doc ==> Resolve(written, docPath, index) == None
  {
  }

  /**
    A first-tier answer names the one node both anchorings allow; when they lead to two nodes the
    reference is refused, and no weaker tier is asked.
   */
  lemma TierOneNamesOneNode(nodes: seq<FileNode>, written: string, docPath: string, id: Id)
    requires forall p :: !Contested(nodes, p)
    ensures ResolveIn(nodes, written, docPath) == Some(Target(id, 1))
            <==> Cleaned(written) != [] && Anchored(nodes, written, docPath, id)
                 && forall other: Id :: Anchored(nodes, written, docPath, other) ==> other == id
    ensures (forall other: Id ::
               other != id && Anchored(nodes, written, docPath, other) && Anchored(nodes, written, docPath, id)
               ==> ResolveIn(nodes, written, docPath) == None)
  {
    IndexHoldsBest(nodes);
    TierOneIsHits(IndexOf(nodes), written, docPath, id);
    AnchoredIsHit(nodes, written, docPath, id);
    var cleaned := Cleaned(written);
    var root, doc := Hit(IndexOf(nodes), Normalize(cleaned)), Hit(IndexOf(nodes), FromDocument(docPath, cleaned));
    forall other: Id ensures Anchored(nodes, written, docPath, other) <==> root == Some(other) || doc == Some(other) {
      AnchoredIsHit(nodes, written, docPath, other);
    }
    if root.Some? {
      assert Anchored(nodes, written, docPath, root.value);
    }
    if doc.Some? {
      assert Anchored(nodes, written, docPath, doc.value);
    }
  }

  /** The written path is the end of `p`, segment for segment, with something before it. */
  predicate WholeSegmentSuffix(p: string, q: string) {
    var x, y := Split(p, '/'), Split(q, '/');
    |y| < |x| && x[|x| - |y|..] == y
  }

  lemma SuffixHasSegments(p: string, q: string)
    requires EndsWith(p, ['/'] + q)
    ensures WholeSegmentSuffix(p, q)
  {
    var head := p[..|p| - |q| - 1];
    assert p == head + ['/'] + q;
    SplitAppend(head, q, '/');
    assert Split(p, '/')[|Split(head, '/')|..] == Split(q, '/');
  }

  /** The path before a whole-segment suffix. */
  lemma HeadOf(p: string, q: string) returns (head: string)
    requires WholeSegmentSuffix(p, q)
    ensures Split(p, '/') == Split(head, '/') + Split(q, '/')
  {
    var x, y := Split(p, '/'), Split(q, '/');
    var parts := x[..|x| - |y|];
    SplitParts(p, '/');
    assert forall s :: s in parts ==> s in x;
    SplitJoin(parts, '/');
    assert x == parts + y;
    head := Join(parts, '/');
  }

  lemma SegmentsHaveSuffix(p: string, q: string)
    requires WholeSegmentSuffix(p, q)
    ensures EndsWith(p, ['/'] + q)
  {
    var head := HeadOf(p, q);
    SplitAppend(head, q, '/');
    SplitInjective(p, head + ['/'] + q, '/');
    assert p == head + (['/'] + q);
  }

  lemma SuffixIsWholeSegments(p: string, q: string)
    ensures EndsWith(p, ['/'] + q) <==> WholeSegmentSuffix(p, q)
  {
    if EndsWith(p, ['/'] + q) {
      SuffixHasSegments(p, q);
    }
    if WholeSegmentSuffix(p, q) {
      SegmentsHaveSuffix(p, q);
    }
  }

  /** Exactly one indexed path has `q` as a whole-segment suffix, and `id` is held there. */
  ghost predicate OnlySuffix(index: Index, q: string, id: Id) {
    exists p :: p in index.byPath && index.byPath[p].id == id && WholeSegmentSuffix(p, q)
                && forall p' :: p' in index.byPath && WholeSegmentSuffix(p', q) ==> p' == p
  }

  lemma BySuffixIsOnly(index: Index, cleaned: string, rootRel: Option<string>, id: Id)
    requires Distinctly(index) && (rootRel.Some? ==> rootRel.value !in index.byPath)
    ensures BySuffix(index, cleaned, rootRel) == Some(Target(id, 3))
            <==> '/' in cleaned && OnlySuffix(index, rootRel.GetOr(NULL), id)
  {
    var q := rootRel.GetOr(NULL);
    var hits := SuffixHits(index.keys, rootRel);
    HitsAreKeys(index.keys, rootRel);
    forall p | p in index.byPath ensures IsHit(p, rootRel) <==> WholeSegmentSuffix(p, q) {
      SuffixIsWholeSegments(p, q);
    }
    if |hits| == 1 {
      assert hits == [hits[0]];
      OneHit(hits, hits[0]);
    }
    if OnlySuffix(index, q, id) {
      var p :| p in index.byPath && index.byPath[p].id == id && WholeSegmentSuffix(p, q)
               && forall p' :: p' in index.byPath && WholeSegmentSuffix(p', q) ==> p' == p;
      OneHit(hits, p);
    }
  }

  /**
    A third-tier answer is given exactly when neither anchoring hits, the path was written with a
    slash, and one indexed path alone ends with it in whole segments. That is what the code does
    for a path that normalises; one that climbs out of the repository, or folds to its root, is
    looked up as `null`.
   */
  lemma TierThreeIsUniqueSuffix(nodes: seq<FileNode>, written: string, docPath: string, id: Id)
    ensures var cleaned, index := Cleaned(written), IndexOf(nodes);
            var rootRel := Normalize(cleaned);
            ResolveIn(nodes, written, docPath) == Some(Target(id, 3))
            <==> && Hit(index, rootRel).None? && Hit(index, FromDocument(docPath, cleaned)).None?
                 && '/' in cleaned && OnlySuffix(index, rootRel.GetOr(NULL), id)
  {
    var cleaned, index := Cleaned(written), IndexOf(nodes);
    var rootRel := Normalize(cleaned);
    IndexHoldsBest(nodes);
    if Hit(index, rootRel).None? {
      BySuffixIsOnly(index, cleaned, rootRel, id);
    }
  }

  /**
    The third tier answers for a path that does not normalise exactly when one indexed file named
    `null` lies below some directory: the promise about suffixes holds if and only if the path
    normalises or there is no such single file.
   */
  lemma UnnormalisedPathFindsNull(nodes: seq<FileNode>, written: string, docPath: string, id: Id)
    requires Normalize(Cleaned(written)).None? && Hit(IndexOf(nodes), FromDocument(docPath, Cleaned(written))).None?
    ensures ResolveIn(nodes, written, docPath) == Some(Target(id, 3))
            <==> '/' in Cleaned(written) && OnlySuffix(IndexOf(nodes), NULL, id)
  {
    TierThreeIsUniqueSuffix(nodes, written, docPath, id);
  }

  lemma UpFromTop(written: string, rest: string)
    requires written == DOT_DOT + ['/'] + rest && '/' !in rest && '\\' !in rest
    ensures Normalize(written) == None
  {
    SplitAppend(DOT_DOT, rest, '/');
    SplitWhole(DOT_DOT, '/');
  }

  lemma NothingToClean(written: string)
    requires written != [] && '#' !in written && '?' !in written
    requires !IsSpace(written[0]) && !IsSpace(written[|written| - 1])
    ensures Cleaned(written) == written
  {
    SplitWhole(written, '#');
    SplitWhole(written, '?');
  }

  const NULL_FILE: string := ['a', '/', 'n', 'u', 'l', 'l']
  const CLIMBING: string := ['.', '.', '/', 'x']

  lemma NullFileParts()
    ensures Split(NULL_FILE, '/') == [['a'], NULL] && Split(NULL, '/') == [NULL]
    ensures Normalize(NULL_FILE) == Some(NULL_FILE)
  {
    var segments: seq<string> := [['a'], NULL];
    assert segments[1..] == [NULL];
    assert Join(segments, '/') == NULL_FILE;
    RejoinedReads(segments);
    JoinWithout(segments, '\\');
    SplitWhole(NULL, '/');
  }

  lemma FromTopDocument(doc: char, cleaned: string)
    requires doc != '/' && doc != '\\' && cleaned != [] && cleaned[0] != '/' && '\\' !in cleaned
    ensures FromDocument([doc], cleaned) == Normalize(cleaned)
  {
    assert [doc][..0] == [];
    assert DirOf([doc]) == [];
    assert Slashed(cleaned) == cleaned;
  }

  lemma ClimbingLeaves()
    ensures Cleaned(CLIMBING) == CLIMBING && Normalize(CLIMBING) == None && FromDocument(['d'], CLIMBING) == None
  {
    NothingToClean(CLIMBING);
    assert CLIMBING == DOT_DOT + ['/'] + ['x'];
    UpFromTop(CLIMBING, ['x']);
    FromTopDocument('d', CLIMBING);
  }

  lemma OneNodeIndex(n: FileNode)
    requires Normalize(n.path) == Some(n.path)
    ensures IndexOf([n]) == Index(map[n.path := Held(n.id, n.rank)], [n.path])
  {
    assert [n][..0] == [];
  }

  lemma SoleNullFile(n: FileNode, written: string, docPath: string)
    requires Normalize(n.path) == Some(n.path) && WholeSegmentSuffix(n.path, NULL)
    requires Normalize(Cleaned(written)) == None && FromDocument(docPath, Cleaned(written)) == None
    requires '/' in Cleaned(written)
    ensures ResolveIn([n], written, docPath) == Some(Target(n.id, 3))
  {
    OneNodeIndex(n);
    assert n.path in IndexOf([n]).byPath;
    UnnormalisedPathFindsNull([n], written, docPath, n.id);
  }

  const FOLDING: string := ['a', '/', '.', '.']

  lemma FoldingParts()
    ensures Parts(FOLDING) == [['a'], DOT_DOT]
  {
    assert Slashed(FOLDING) == FOLDING == ['a'] + ['/'] + DOT_DOT;
    SplitAppend(['a'], DOT_DOT, '/');
    SplitWhole(['a'], '/');
    SplitWhole(DOT_DOT, '/');
  }

  lemma FoldingIsEmpty()
    ensures Cleaned(FOLDING) == FOLDING && Normalize(FOLDING) == None && FromDocument(['d'], FOLDING) == None
  {
    NothingToClean(FOLDING);
    FoldingParts();
    FoldsAway(['a']);
    FromTopDocument('d', FOLDING);
  }

  lemma FoldsAway(name: string)
    requires Named(name)
    ensures Fold([name, DOT_DOT], [], false) == Some([])
  {
    assert [name, DOT_DOT][1..] == [DOT_DOT] && [DOT_DOT][1..] == [] && [] + [name] == [name];
    assert Fold([DOT_DOT], [name], false) == Fold([], [], false);
  }

  /** So is one that writes `a/..`, which stays inside the repository and folds to its root. */
  lemma FoldingExample(id: Id)
    ensures ResolveIn([FileNode(id, NULL_FILE, 0)], FOLDING, ['d']) == Some(Target(id, 3))
  {
    NullFileParts();
    FoldingIsEmpty();
    assert FOLDING[1] == '/';
    SoleNullFile(FileNode(id, NULL_FILE, 0), FOLDING, ['d']);
  }

  /** In a graph of the one file `a/null`, a top-level document that writes `../x` is linked to it. */
  lemma NullExample(id: Id)
    ensures ResolveIn([FileNode(id, NULL_FILE, 0)], CLIMBING, ['d']) == Some(Target(id, 3))
  {
    NullFileParts();
    ClimbingLeaves();
    assert CLIMBING[2] == '/';
    SoleNullFile(FileNode(id, NULL_FILE, 0), CLIMBING, ['d']);
  }

  // ----- the resolver -----

  method NormalizePath(path: string) returns (r: Option<string>)
    ensures r == Normalize(path)
  {
    var parts := Parts(path);
    var out: seq<string> := [];
    for i := 0 to |parts|
      invariant Fold(parts[i..], out, false) == Fold(parts, [], false)
    {
      assert parts[i..][1..] == parts[i + 1..];
      if parts[i] == [] || parts[i] == DOT {
        continue;
      }
      if parts[i] == DOT_DOT {
        if |out| == 0 {
          return None;
        }
        out := out[..|out| - 1];
        continue;
      }
      out := out + [parts[i]];
    }
    assert parts[|parts|..] == [];
    return if |out| > 0 then Some(Join(out, '/')) else None;
  }

  method BuildIndex(nodes: seq<FileNode>) returns (index: Index)
    ensures index == IndexOf(nodes)
  {
    var byPath: map<string, Held>, keys: seq<string> := map[], [];
    for i := 0 to |nodes|
      invariant Index(byPath, keys) == IndexOf(nodes[..i])
    {
      assert nodes[..i + 1][..i] == nodes[..i];
      var n := nodes[i];
      var p := NormalizePath(n.path);
      if p.None? {
        continue;
      }
      if p.value !in byPath {
        byPath, keys := byPath[p.value := Held(n.id, n.rank)], keys + [p.value];
      } else if n.rank < byPath[p.value].rank {
        byPath := byPath[p.value := Held(n.id, n.rank)];
      }
    }
    assert nodes[..|nodes|] == nodes;
    return Index(byPath, keys);
  }

  /** Collect indexed paths that end with the written one, giving up at the second. */
  method FindSuffixHits(keys: seq<string>, rootRel: Option<string>) returns (hits: seq<string>)
    ensures |SuffixHits(keys, rootRel)| <= 1 ==> hits == SuffixHits(keys, rootRel)
    ensures |SuffixHits(keys, rootRel)| > 1 ==> |hits| > 1
  {
    hits := [];
    for i := 0 to |keys|
      invariant hits == SuffixHits(keys[..i], rootRel) && |hits| <= 1
    {
      assert keys[..i + 1][..i] == keys[..i];
      if IsHit(keys[i], rootRel) {
        hits := hits + [keys[i]];
      }
      if |hits| > 1 {
        HitsGrow(keys, rootRel, i + 1);
        return;
      }
    }
    assert keys[..|keys|] == keys;
  }

  lemma {:induction false} HitsGrow(keys: seq<string>, rootRel: Option<string>, i: nat)
    requires i <= |keys|
    ensures |SuffixHits(keys[..i], rootRel)| <= |SuffixHits(keys, rootRel)|
    decreases |keys| - i
  {
    if i < |keys| {
      HitsGrow(keys, rootRel, i + 1);
      assert keys[..i + 1][..i] == keys[..i];
    } else {
      assert keys[..i] == keys;
    }
  }

  /** The id a hit adds to the candidates. */
  function AsSet(hit: Option<Id>): set<Id> {
    if hit.Some? then {hit.value} else {}
  }

  lemma TwoCandidates(x: Option<Id>, y: Option<Id>)
    ensures var c := AsSet(x) + AsSet(y);
            && (|c| == 0 <==> x.None? && y.None?)
            && (|c| > 1 <==> x.Some? && y.Some? && x != y)
            && (|c| == 1 ==> c == AsSet(if x.Some? then x else y))
  {
    if x.Some? && y.Some? && x != y {
      assert |AsSet(x) + AsSet(y)| == |AsSet(x)| + 1;
    }
  }

  /** Put what an anchoring leads to among the candidates. */
  method AddCandidate(candidates: set<Id>, index: Index, p: Option<string>) returns (more: set<Id>)
    ensures more == candidates + AsSet(Hit(index, p))
  {
    more := candidates;
    if p.Some? && p.value in index.byPath {
      more := more + {index.byPath[p.value].id};
    }
  }

  /** The third tier. */
  method ResolveBySuffix(index: Index, cleaned: string, rootRel: Option<string>) returns (r: Option<Target>)
    requires forall p :: p in index.keys ==> p in index.byPath
    ensures r == BySuffix(index, cleaned, rootRel)
  {
    if '/' in cleaned {
      var hits := FindSuffixHits(index.keys, rootRel);
      HitsAreKeys(index.keys, rootRel);
      if |hits| == 1 {
        assert hits[0] in SuffixHits(index.keys, rootRel);
        return Some(Target(index.byPath[hits[0]].id, 3));
      }
    }
    return None;
  }

  method ResolveDocPath(written: string, docPath: string, index: Index) returns (r: Option<Target>)
    requires forall p :: p in index.keys ==> p in index.byPath
    ensures r == Resolve(written, docPath, index)
  {
    var cleaned := Cleaned(written);
    if cleaned == [] {
      return None;
    }
    var rootRel := NormalizePath(cleaned);
    var docRel := FromDocument(docPath, cleaned);
    var candidates := AddCandidate({}, index, rootRel);
    candidates := AddCandidate(candidates, index, docRel);
    TwoCandidates(Hit(index, rootRel), Hit(index, docRel));
    if |candidates| == 1 {
      var id :| id in candidates;
      return Some(Target(id, 1));
    }
    if |candidates| > 1 {
      return None;
    }
    r := ResolveBySuffix(index, cleaned, rootRel);
  }
}
