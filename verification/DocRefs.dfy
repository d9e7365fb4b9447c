/**
  Symbol references in documents: a written chain such as `Type::method` is looked up by suffix in
  an index of the symbols' qualified names.
 */
module DocRefs {
  import opened Prelude
  import opened Strings

  type Id = nat

  const MAX_CHAIN_SEGMENTS := 4

  /** A graph node: `qname` is `None` where the node carries no qualified name. */
  datatype Node = Node(id: Id, fileLevel: bool, qname: Option<string>)

  /** From a dotted suffix to the ids filed under it. */
  type Index = map<string, seq<Id>>

  datatype Resolution = Resolved(id: Id) | NoSuchSymbol | AmbiguousSymbol

  // ----- the index as functions -----

  function NonEmpty(parts: seq<string>): seq<string> {
    if parts == [] then []
    else NonEmpty(parts[..|parts| - 1]) + if parts[|parts| - 1] == [] then [] else [parts[|parts| - 1]]
  }

  /** The segments of a node's qualified name; none for nodes that are no symbols. */
  function Segments(n: Node): seq<string> {
    if n.fileLevel || n.qname.None? then [] else NonEmpty(Split(n.qname.value, '.'))
  }

  function Put(index: Index, key: string, id: Id): Index {
    index[key := (if key in index then index[key] else []) + [id]]
  }

  /** File a node under the suffixes from position `start` down to position `deepest`. */
  function PutSuffixes(index: Index, segments: seq<string>, id: Id, start: int, deepest: nat): Index
    requires start < |segments|
    decreases start - deepest
  {
    if start < deepest then index
    else PutSuffixes(Put(index, Join(segments[start..], '.'), id), segments, id, start - 1, deepest)
  }

  function Deepest(segments: seq<string>): nat {
    if |segments| > MAX_CHAIN_SEGMENTS then |segments| - MAX_CHAIN_SEGMENTS else 0
  }

  function PutNode(index: Index, n: Node): Index {
    var s := Segments(n);
    PutSuffixes(index, s, n.id, |s| - 2, Deepest(s))
  }

  function SymbolIndex(nodes: seq<Node>): Index {
    if nodes == [] then map[] else PutNode(SymbolIndex(nodes[..|nodes| - 1]), nodes[|nodes| - 1])
  }

  predicate Joint(s: string) {
    |s| >= 2 && ((s[0] == ':' && s[1] == ':') || (s[0] == '-' && s[1] == '>'))
  }

  function NormalizeChain(written: string): string {
    if written == [] then []
    else if Joint(written) then ['.'] + NormalizeChain(written[2..])
    else [written[0]] + NormalizeChain(written[1..])
  }

  function Unique(s: seq<Id>): set<Id> {
    set x | x in s
  }

  function Resolve(written: string, index: Index): Resolution {
    var key := NormalizeChain(written);
    if key !in index || index[key] == [] then NoSuchSymbol
    else if |Unique(index[key])| > 1 then AmbiguousSymbol
    else Resolved(index[key][0])
  }

  // ----- the reference: scan every node -----

  /** The chain has two to four segments and the node's qualified name ends with them. */
  predicate EndsWith(n: Node, chain: seq<string>) {
    var s := Segments(n);
    2 <= |chain| <= 4 && |chain| <= |s| && s[|s| - |chain|..] == chain
  }

  function Matching(nodes: seq<Node>, chain: seq<string>): set<Id> {
    set n | n in nodes && EndsWith(n, chain) :: n.id
  }

  // ----- a key is a suffix -----

  lemma {:induction false} NonEmptyParts(parts: seq<string>)
    ensures forall p :: p in NonEmpty(parts) ==> p != [] && p in parts
  {
    if parts != [] {
      assert parts == parts[..|parts| - 1] + [parts[|parts| - 1]];
      NonEmptyParts(parts[..|parts| - 1]);
    }
  }

  lemma {:induction false} NonEmptyKeepsOrder(parts: seq<string>, more: seq<string>)
    ensures NonEmpty(parts + more) == NonEmpty(parts) + NonEmpty(more)
    decreases |more|
  {
    if more == [] {
      assert parts + more == parts;
    } else {
      var n := |more| - 1;
      NonEmptyKeepsOrder(parts, more[..n]);
      assert (parts + more)[..|parts + more| - 1] == parts + more[..n];
    }
  }

  lemma {:induction false} NonEmptyKeepsAll(parts: seq<string>)
    requires forall p :: p in parts ==> p != []
    ensures NonEmpty(parts) == parts
  {
    if parts != [] {
      var n := |parts| - 1;
      assert parts[n] in parts && forall p :: p in parts[..n] ==> p in parts;
      NonEmptyKeepsAll(parts[..n]);
      assert parts == parts[..n] + [parts[n]];
    }
  }

  predicate DotFree(parts: seq<string>) {
    forall s :: s in parts ==> '.' !in s
  }

  predicate NoneEmpty(parts: seq<string>) {
    forall s :: s in parts ==> s != []
  }

  lemma SegmentsOfJoined(n: Node, parts: seq<string>)
    requires parts != [] && DotFree(parts) && n.qname == Some(Join(parts, '.'))
    ensures Segments(n) == if n.fileLevel then [] else NonEmpty(parts)
  {
    SplitJoin(parts, '.');
  }

  lemma EmptyInTheMiddle(front: seq<string>, back: seq<string>, empty: seq<string>)
    requires NoneEmpty(front) && NoneEmpty(back) && empty == [[]]
    ensures NonEmpty(front + empty + back) == front + back
  {
    NonEmptyKeepsAll(front);
    NonEmptyKeepsAll(back);
    NonEmptyKeepsOrder(front, empty);
    NonEmptyKeepsOrder(front + empty, back);
    assert empty[..0] == [] && NonEmpty(empty) == [];
    assert front + [] == front;
  }

  /**
    The segments of a symbol are those its name was joined from, in their order; doubled dots count for
    nothing, and a file-level node or one without a name has none.
   */
  lemma SegmentsOfName(n: Node, front: seq<string>, back: seq<string>, empty: seq<string>)
    requires empty == [[]] && DotFree(front) && DotFree(back) && NoneEmpty(front) && NoneEmpty(back)
    requires n.qname == Some(Join(front + empty + back, '.')) || (front != [] && n.qname == Some(Join(front, '.')))
    ensures n.fileLevel ==> Segments(n) == []
    ensures !n.fileLevel && n.qname == Some(Join(front + empty + back, '.')) ==> Segments(n) == front + back
    ensures !n.fileLevel && front != [] && n.qname == Some(Join(front, '.')) ==> Segments(n) == front
    ensures Segments(n.(qname := None)) == []
  {
    if n.qname == Some(Join(front + empty + back, '.')) {
      SegmentsOfJoined(n, front + empty + back);
      EmptyInTheMiddle(front, back, empty);
    }
    if front != [] && n.qname == Some(Join(front, '.')) {
      SegmentsOfJoined(n, front);
      NonEmptyKeepsAll(front);
    }
  }

  lemma SegmentsAreParts(n: Node)
    ensures forall p :: p in Segments(n) ==> p != [] && '.' !in p
  {
    if !n.fileLevel && n.qname.Some? {
      SplitParts(n.qname.value, '.');
      NonEmptyParts(Split(n.qname.value, '.'));
    }
  }

  lemma SuffixKey(n: Node, start: nat, key: string)
    requires start < |Segments(n)|
    ensures key == Join(Segments(n)[start..], '.') <==> Split(key, '.') == Segments(n)[start..]
  {
    var suffix := Segments(n)[start..];
    SegmentsAreParts(n);
    assert forall p :: p in suffix ==> p in Segments(n);
    SplitJoin(suffix, '.');
    JoinSplit(key, '.');
  }

  /** The ids filed under a key. */
  function Under(index: Index, key: string): seq<Id> {
    if key in index then index[key] else []
  }

  lemma {:induction false} SuffixesFiled(index: Index, n: Node, start: int, key: string)
    requires start < |Segments(n)|
    ensures var s := Segments(n);
            var after := Under(PutSuffixes(index, s, n.id, start, Deepest(s)), key);
            forall id :: id in after <==>
              id in Under(index, key)
              || (id == n.id && exists i :: Deepest(s) <= i <= start && Split(key, '.') == s[i..])
    decreases start - Deepest(Segments(n))
  {
    var s := Segments(n);
    if start >= Deepest(s) {
      var index' := Put(index, Join(s[start..], '.'), n.id);
      SuffixKey(n, start, key);
      SuffixesFiled(index', n, start - 1, key);
      forall id ensures id in Under(index', key) <==>
                        id in Under(index, key) || (id == n.id && Split(key, '.') == s[start..])
      {
      }
    }
  }

  /** Some indexed suffix of the name reads as the chain exactly when the name ends with the chain. */
  lemma SomeSuffix(n: Node, chain: seq<string>)
    ensures var s := Segments(n); (exists i :: Deepest(s) <= i <= |s| - 2 && chain == s[i..]) <==> EndsWith(n, chain)
  {
    var s := Segments(n);
    if EndsWith(n, chain) {
      var i := |s| - |chain|;
      assert Deepest(s) <= i <= |s| - 2 && chain == s[i..];
    }
    forall i | Deepest(s) <= i <= |s| - 2 && chain == s[i..] ensures EndsWith(n, chain) {
      assert |chain| == |s| - i;
    }
  }

  lemma NodeFiled(index: Index, n: Node, key: string)
    ensures forall id :: id in Under(PutNode(index, n), key)
                         <==> id in Under(index, key) || (id == n.id && EndsWith(n, Split(key, '.')))
  {
    SuffixesFiled(index, n, |Segments(n)| - 2, key);
    SomeSuffix(n, Split(key, '.'));
  }

  lemma MatchingOneMore(rest: seq<Node>, last: Node, chain: seq<string>)
    ensures Matching(rest + [last], chain) == Matching(rest, chain) + if EndsWith(last, chain) then {last.id} else {}
  {
    assert forall n :: n in rest ==> n in rest + [last];
    assert last in rest + [last];
  }

  lemma {:induction false} IndexHolds(nodes: seq<Node>, key: string)
    ensures Unique(Under(SymbolIndex(nodes), key)) == Matching(nodes, Split(key, '.'))
  {
    var chain := Split(key, '.');
    if nodes != [] {
      var rest, last := nodes[..|nodes| - 1], nodes[|nodes| - 1];
      assert nodes == rest + [last];
      IndexHolds(rest, key);
      NodeFiled(SymbolIndex(rest), last, key);
      MatchingOneMore(rest, last, chain);
      forall id ensures id in Unique(Under(SymbolIndex(nodes), key)) <==> id in Matching(nodes, chain) {
        assert id in Unique(Under(SymbolIndex(rest), key)) <==> id in Matching(rest, chain);
      }
    }
  }

  lemma ManyIds(s: set<Id>, x: Id)
    requires x in s
    ensures |s| > 1 <==> s != {x}
  {
    assert s == {x} + (s - {x});
  }

  /**
    The index answers as a scan of all nodes would: with an id exactly when that is the only
    symbol whose name ends with the chain, with `AmbiguousSymbol` exactly when several do, and with
    `NoSuchSymbol` exactly when none does; chains outside two to four segments name nothing.
   */
  lemma LookupIsScan(nodes: seq<Node>, written: string)
    ensures var ids := Matching(nodes, Split(NormalizeChain(written), '.'));
            match Resolve(written, SymbolIndex(nodes))
            case Resolved(id) => ids == {id}
            case NoSuchSymbol => ids == {}
            case AmbiguousSymbol => |ids| > 1
  {
    var key, index := NormalizeChain(written), SymbolIndex(nodes);
    IndexHolds(nodes, key);
    var hits := Under(index, key);
    if hits != [] {
      assert hits[0] in Unique(hits);
      ManyIds(Unique(hits), hits[0]);
    } else {
      assert Unique(hits) == {};
    }
  }

  // ----- every way of writing a chain -----

  /** A segment that holds no character a joint is made of. */
  predicate PlainSegment(s: string) {
    ':' !in s && '-' !in s
  }

  datatype Style = DotStyle | ColonStyle | ArrowStyle

  function JointOf(j: Style): string {
    match j
    case DotStyle => ['.']
    case ColonStyle => [':', ':']
    case ArrowStyle => ['-', '>']
  }

  /** Segments written one after the other, each with its own joint before the next. */
  function Written(segments: seq<string>, joints: seq<Style>): string
    requires |joints| + 1 == |segments|
  {
    if joints == [] then segments[0] else segments[0] + JointOf(joints[0]) + Written(segments[1..], joints[1..])
  }

  lemma NormalizeFront(s: string, rest: string)
    requires s != [] && s[0] != ':' && s[0] != '-' && s[1..] == rest
    ensures NormalizeChain(s) == [s[0]] + NormalizeChain(rest)
  {
  }

  lemma {:induction false} NormalizePlain(segment: string, rest: string)
    requires PlainSegment(segment)
    ensures NormalizeChain(segment + rest) == segment + NormalizeChain(rest)
  {
    if segment == [] {
      assert segment + rest == rest;
    } else {
      var c, more := segment[0], segment[1..];
      assert c in segment && forall d :: d in more ==> d in segment;
      NormalizePlain(more, rest);
      NormalizeFront(segment + rest, more + rest);
      assert segment == [c] + more;
      assert [c] + (more + NormalizeChain(rest)) == [c] + more + NormalizeChain(rest);
    }
  }

  lemma NormalizeJoint(j: Style, rest: string)
    ensures NormalizeChain(JointOf(j) + rest) == ['.'] + NormalizeChain(rest)
  {
    var w := JointOf(j) + rest;
    if j.DotStyle? {
      assert w[1..] == rest;
    } else {
      assert w[2..] == rest;
    }
  }

  lemma NormalizeHead(segment: string, j: Style, rest: string)
    requires PlainSegment(segment)
    ensures NormalizeChain(segment + JointOf(j) + rest) == segment + ['.'] + NormalizeChain(rest)
  {
    assert segment + JointOf(j) + rest == segment + (JointOf(j) + rest);
    NormalizePlain(segment, JointOf(j) + rest);
    NormalizeJoint(j, rest);
  }

  /** However its joints are written, a chain is looked up as its segments joined with dots. */
  lemma {:induction false} JointsDoNotMatter(segments: seq<string>, joints: seq<Style>)
    requires |joints| + 1 == |segments| && forall s :: s in segments ==> PlainSegment(s)
    ensures NormalizeChain(Written(segments, joints)) == Join(segments, '.')
    decreases |segments|
  {
    assert segments[0] in segments;
    if joints == [] {
      NormalizePlain(segments[0], []);
      assert segments[0] + [] == segments[0];
    } else {
      assert forall s :: s in segments[1..] ==> s in segments;
      JointsDoNotMatter(segments[1..], joints[1..]);
      NormalizeHead(segments[0], joints[0], Written(segments[1..], joints[1..]));
    }
  }

  // ----- building and resolving -----

  /** File one node under its suffixes, shortest first. */
  method AddSuffixes(index: Index, segments: seq<string>, id: Id) returns (index': Index)
    ensures index' == PutSuffixes(index, segments, id, |segments| - 2, Deepest(segments))
  {
    index' := index;
    var start := |segments| - 2;
    while start >= Deepest(segments)
      invariant start <= |segments| - 2
      invariant PutSuffixes(index', segments, id, start, Deepest(segments))
                == PutSuffixes(index, segments, id, |segments| - 2, Deepest(segments))
      decreases start
    {
      index' := Put(index', Join(segments[start..], '.'), id);
      start := start - 1;
    }
  }

  method BuildSymbolIndex(nodes: seq<Node>) returns (bySuffix: Index)
    ensures bySuffix == SymbolIndex(nodes)
  {
    bySuffix := map[];
    for i := 0 to |nodes|
      invariant bySuffix == SymbolIndex(nodes[..i])
    {
      assert nodes[..i + 1][..i] == nodes[..i];
      if nodes[i].fileLevel || nodes[i].qname.None? {
        continue;
      }
      bySuffix := AddSuffixes(bySuffix, Segments(nodes[i]), nodes[i].id);
    }
    assert nodes[..|nodes|] == nodes;
  }

  method ResolveSymbolChain(written: string, index: Index) returns (r: Resolution)
    ensures r == Resolve(written, index)
  {
    var key := NormalizeChain(written);
    if key !in index || |index[key]| == 0 {
      return NoSuchSymbol;
    }
    var unique := Unique(index[key]);
    if |unique| > 1 {
      return AmbiguousSymbol;
    }
    return Resolved(index[key][0]);
  }
}
