/**
  The selection digest: a length-framed encoding of compile entries, aggregated as a multiset,
  published with the members it was computed from.
 */
module SelectionDigest {
  import opened Prelude
  import opened Framing
  import opened Sorting
  import U = Utf8

  // ----- lengths and frames -----

  const TWO_TO_64: nat := 0x1_0000_0000_0000_0000

  function BigEndian(n: nat, k: nat): (b: Bytes)
    ensures |b| == k
  {
    if k == 0 then [] else BigEndian(n / 256, k - 1) + [n % 256]
  }

  function Pow256(k: nat): nat {
    if k == 0 then 1 else 256 * Pow256(k - 1)
  }

  function U64(n: nat): (b: Bytes)
    ensures |b| == 8
  {
    BigEndian(n, 8)
  }

  function Frame(x: Bytes): Bytes {
    U64(|x|) + x
  }

  function Frames(xs: seq<Bytes>): Bytes {
    if xs == [] then [] else Frame(xs[0]) + Frames(xs[1..])
  }

  /** The 64-bit length writer throws on anything longer. */
  predicate Fits(x: Bytes) {
    |x| < TWO_TO_64
  }

  lemma {:induction false} BigEndianInjective(n: nat, m: nat, k: nat)
    requires n < Pow256(k) && m < Pow256(k) && BigEndian(n, k) == BigEndian(m, k)
    ensures n == m
  {
    if k > 0 {
      var a, b := BigEndian(n / 256, k - 1), BigEndian(m / 256, k - 1);
      assert BigEndian(n, k)[k - 1] == n % 256 && BigEndian(m, k)[k - 1] == m % 256;
      assert a == BigEndian(n, k)[..k - 1] && b == BigEndian(m, k)[..k - 1];
      BigEndianInjective(n / 256, m / 256, k - 1);
    }
  }

  lemma U64Range()
    ensures Pow256(8) == TWO_TO_64
  {
    assert Pow256(2) == 0x1_0000;
    assert Pow256(4) == 0x1_0000_0000;
    assert Pow256(6) == 0x1_0000_0000_0000;
  }

  lemma U64Split(n: nat, m: nat, s: Bytes, t: Bytes)
    requires n < TWO_TO_64 && m < TWO_TO_64 && U64(n) + s == U64(m) + t
    ensures n == m && s == t
  {
    assert U64(n) == (U64(n) + s)[..8] && U64(m) == (U64(m) + t)[..8];
    assert s == (U64(n) + s)[8..] && t == (U64(m) + t)[8..];
    U64Range();
    BigEndianInjective(n, m, 8);
  }

  /** A frame cannot be mistaken for another, whatever follows it. */
  lemma FrameSplit(x: Bytes, y: Bytes, s: Bytes, t: Bytes)
    requires Fits(x) && Fits(y) && Frame(x) + s == Frame(y) + t
    ensures x == y && s == t
  {
    assert Frame(x) + s == U64(|x|) + (x + s) && Frame(y) + t == U64(|y|) + (y + t);
    U64Split(|x|, |y|, x + s, y + t);
    assert x == (x + s)[..|x|] && y == (y + t)[..|y|];
    assert s == (x + s)[|x|..] && t == (y + t)[|y|..];
  }

  lemma FramesFront(xs: seq<Bytes>, s: Bytes)
    requires xs != []
    ensures Frames(xs) + s == Frame(xs[0]) + (Frames(xs[1..]) + s)
  {
  }

  lemma {:induction false} FramesSplit(xs: seq<Bytes>, ys: seq<Bytes>, s: Bytes, t: Bytes)
    requires |xs| == |ys| && Frames(xs) + s == Frames(ys) + t
    requires (forall x :: x in xs ==> Fits(x)) && (forall y :: y in ys ==> Fits(y))
    ensures xs == ys && s == t
    decreases |xs|
  {
    if xs == [] {
      assert [] + s == s && [] + t == t;
    } else {
      FramesFront(xs, s);
      FramesFront(ys, t);
      FrameSplit(xs[0], ys[0], Frames(xs[1..]) + s, Frames(ys[1..]) + t);
      FramesSplit(xs[1..], ys[1..], s, t);
      assert xs == [xs[0]] + xs[1..] && ys == [ys[0]] + ys[1..];
    }
  }

  /** The number that bytes denote, most significant first. */
  function Weigh(b: Bytes): nat {
    if b == [] then 0
    else
      var last: nat := b[|b| - 1];
      256 * Weigh(b[..|b| - 1]) + last
  }

  lemma {:induction false} BigEndianWeighs(n: nat, k: nat)
    requires n < Pow256(k)
    ensures Weigh(BigEndian(n, k)) == n
  {
    if k > 0 {
      BigEndianWeighs(n / 256, k - 1);
      assert BigEndian(n, k)[..k - 1] == BigEndian(n / 256, k - 1);
    }
  }

  // ----- reading what was written -----

  /** Eight bytes off the front, as a number. */
  function ReadU64(b: Bytes): Option<(nat, Bytes)> {
    if |b| < 8 then None else Some((Weigh(b[..8]), b[8..]))
  }

  /** A length and that many bytes off the front. */
  function ReadFrame(b: Bytes): Option<(Bytes, Bytes)> {
    match ReadU64(b)
    case None => None
    case Some((n, rest)) => if |rest| < n then None else Some((rest[..n], rest[n..]))
  }

  function ReadFrames(b: Bytes, k: nat): Option<(seq<Bytes>, Bytes)> {
    if k == 0 then Some(([], b))
    else
      match ReadFrame(b)
      case None => None
      case Some((x, rest)) =>
        match ReadFrames(rest, k - 1)
        case None => None
        case Some((xs, rest')) => Some(([x] + xs, rest'))
  }

  lemma ReadsU64(n: nat, rest: Bytes)
    requires n < TWO_TO_64
    ensures ReadU64(U64(n) + rest) == Some((n, rest))
  {
    U64Range();
    BigEndianWeighs(n, 8);
    assert (U64(n) + rest)[..8] == U64(n) && (U64(n) + rest)[8..] == rest;
  }

  lemma ReadsFrame(x: Bytes, rest: Bytes)
    requires Fits(x)
    ensures ReadFrame(Frame(x) + rest) == Some((x, rest))
  {
    assert Frame(x) + rest == U64(|x|) + (x + rest);
    ReadsU64(|x|, x + rest);
    assert (x + rest)[..|x|] == x && (x + rest)[|x|..] == rest;
  }

  lemma {:induction false} ReadsFrames(xs: seq<Bytes>, rest: Bytes)
    requires forall x :: x in xs ==> Fits(x)
    ensures ReadFrames(Frames(xs) + rest, |xs|) == Some((xs, rest))
    decreases |xs|
  {
    if xs == [] {
      assert Frames(xs) + rest == rest;
    } else {
      FramesFront(xs, rest);
      ReadsFrame(xs[0], Frames(xs[1..]) + rest);
      ReadsFrames(xs[1..], rest);
      assert xs == [xs[0]] + xs[1..];
    }
  }

  // ----- one row -----

  /** One member of the published body: the entry, and the size and hash of its main file. */
  datatype Member = Member(path: U.Str, directory: U.Str, argv: seq<U.Str>, size: nat, sha256: Bytes)

  /** "apg.compile-entry.v1" and "apg.selected-tu-set.v1" */
  const DOMAIN_ROW: Bytes :=
    [97, 112, 103, 46, 99, 111, 109, 112, 105, 108, 101, 45, 101, 110, 116, 114, 121, 46, 118, 49]
  const DOMAIN_SET: Bytes :=
    [97, 112, 103, 46, 115, 101, 108, 101, 99, 116, 101, 100, 45, 116, 117, 45, 115, 101, 116, 46, 118, 49]

  /**
    Foreign code and the file system during one call: NFC, SHA-256, the path of a file relative
    to the project root before normalisation (None when it is outside), the location of an
    entry's file, and the bytes read there.
   */
  datatype Env = Env(nfc: U.Str -> U.Str, sha: Bytes -> Bytes, relative: U.Str -> Option<U.Str>,
                     locate: (U.Str, U.Str) -> U.Str, read: U.Str -> Option<Bytes>)

  function EncodeAll(strings: seq<U.Str>): (r: seq<Bytes>)
    ensures |r| == |strings| && forall i :: 0 <= i < |r| ==> r[i] == U.Encode(strings[i])
  {
    seq(|strings|, i requires 0 <= i < |strings| => U.Encode(strings[i]))
  }

  function EncodeRow(env: Env, m: Member): Bytes {
    Frame(DOMAIN_ROW)
    + (Frame(U.Encode(env.nfc(m.path)))
       + (Frame(U.Encode(env.nfc(m.directory)))
          + (U64(|m.argv|)
             + (Frames(EncodeAll(m.argv))
                + (U64(m.size)
                   + Frame(m.sha256))))))
  }

  predicate Encodable(env: Env, m: Member) {
    && Fits(U.Encode(env.nfc(m.path))) && Fits(U.Encode(env.nfc(m.directory)))
    && |m.argv| < TWO_TO_64 && (forall a :: a in EncodeAll(m.argv) ==> Fits(a))
    && m.size < TWO_TO_64 && Fits(m.sha256) && Fits(EncodeRow(env, m))
  }

  /** Two rows with the same bytes agree on every field, as encoded. */
  lemma RowDeterminesFields(env: Env, m: Member, n: Member)
    requires Encodable(env, m) && Encodable(env, n) && EncodeRow(env, m) == EncodeRow(env, n)
    ensures U.Encode(env.nfc(m.path)) == U.Encode(env.nfc(n.path))
    ensures U.Encode(env.nfc(m.directory)) == U.Encode(env.nfc(n.directory))
    ensures EncodeAll(m.argv) == EncodeAll(n.argv) && m.size == n.size && m.sha256 == n.sha256
  {
    var m6, n6 := Frame(m.sha256), Frame(n.sha256);
    var m5, n5 := U64(m.size) + m6, U64(n.size) + n6;
    var m4, n4 := Frames(EncodeAll(m.argv)) + m5, Frames(EncodeAll(n.argv)) + n5;
    var m3, n3 := U64(|m.argv|) + m4, U64(|n.argv|) + n4;
    var md, nd := U.Encode(env.nfc(m.directory)), U.Encode(env.nfc(n.directory));
    var m2, n2 := Frame(md) + m3, Frame(nd) + n3;
    var mp, np := U.Encode(env.nfc(m.path)), U.Encode(env.nfc(n.path));
    FrameSplit(DOMAIN_ROW, DOMAIN_ROW, Frame(mp) + m2, Frame(np) + n2);
    FrameSplit(mp, np, m2, n2);
    FrameSplit(md, nd, m3, n3);
    U64Split(|m.argv|, |n.argv|, m4, n4);
    FramesSplit(EncodeAll(m.argv), EncodeAll(n.argv), m5, n5);
    U64Split(m.size, n.size, m6, n6);
    assert m6 == m6 + [] && n6 == n6 + [];
    FrameSplit(m.sha256, n.sha256, [], []);
  }

  /** The fields of a row, in the order they are read. */
  datatype Fields = Fields(domain: Bytes, path: Bytes, directory: Bytes, argv: seq<Bytes>, size: nat, sha256: Bytes)

  /** The frames of a row before its argument list. */
  function ReadHead(b: Bytes): Option<(Bytes, Bytes, Bytes, Bytes)> {
    match ReadFrame(b)
    case None => None
    case Some((domain, b1)) =>
      match ReadFrame(b1)
      case None => None
      case Some((path, b2)) =>
        match ReadFrame(b2)
        case None => None
        case Some((directory, b3)) => Some((domain, path, directory, b3))
  }

  /** The argument list with its count, the size and the hash, to the end. */
  function ReadTail(b: Bytes): Option<(seq<Bytes>, nat, Bytes)> {
    match ReadU64(b)
    case None => None
    case Some((count, b1)) =>
      match ReadFrames(b1, count)
      case None => None
      case Some((argv, b2)) =>
        match ReadU64(b2)
        case None => None
        case Some((size, b3)) =>
          match ReadFrame(b3)
          case None => None
          case Some((sha256, end)) => if end == [] then Some((argv, size, sha256)) else None
  }

  function ReadRow(b: Bytes): Option<Fields> {
    match ReadHead(b)
    case None => None
    case Some((domain, path, directory, rest)) =>
      match ReadTail(rest)
      case None => None
      case Some((argv, size, sha256)) => Some(Fields(domain, path, directory, argv, size, sha256))
  }

  /** What stands in a row behind its directory. */
  function RowTail(m: Member): Bytes {
    U64(|m.argv|) + (Frames(EncodeAll(m.argv)) + (U64(m.size) + Frame(m.sha256)))
  }

  lemma ReadsTail(m: Member)
    requires |m.argv| < TWO_TO_64 && (forall a :: a in EncodeAll(m.argv) ==> Fits(a))
    requires m.size < TWO_TO_64 && Fits(m.sha256)
    ensures ReadTail(RowTail(m)) == Some((EncodeAll(m.argv), m.size, m.sha256))
  {
    ReadsU64(|m.argv|, Frames(EncodeAll(m.argv)) + (U64(m.size) + Frame(m.sha256)));
    ReadsFrames(EncodeAll(m.argv), U64(m.size) + Frame(m.sha256));
    ReadsU64(m.size, Frame(m.sha256));
    ReadsFrame(m.sha256, []);
    assert Frame(m.sha256) + [] == Frame(m.sha256);
  }

  lemma ReadsHead(domain: Bytes, path: Bytes, directory: Bytes, tail: Bytes)
    requires Fits(domain) && Fits(path) && Fits(directory)
    ensures ReadHead(Frame(domain) + (Frame(path) + (Frame(directory) + tail))) == Some((domain, path, directory, tail))
  {
    ReadsFrame(domain, Frame(path) + (Frame(directory) + tail));
    ReadsFrame(path, Frame(directory) + tail);
    ReadsFrame(directory, tail);
  }

  /** A row reads back as its domain, the member's normalised paths, arguments, size and hash, and nothing more. */
  lemma RowReadsBack(env: Env, m: Member)
    requires Encodable(env, m)
    ensures ReadRow(EncodeRow(env, m))
            == Some(Fields(DOMAIN_ROW, U.Encode(env.nfc(m.path)), U.Encode(env.nfc(m.directory)), EncodeAll(m.argv),
                           m.size, m.sha256))
  {
    ReadsHead(DOMAIN_ROW, U.Encode(env.nfc(m.path)), U.Encode(env.nfc(m.directory)), RowTail(m));
    ReadsTail(m);
  }

  const ROW_NAME: string := "apg.compile-entry.v1"
  const SET_NAME: string := "apg.selected-tu-set.v1"

  lemma RowNameIsSpelled()
    ensures Ascii(ROW_NAME) && BytesOf(ROW_NAME) == DOMAIN_ROW
  {
    assert ROW_NAME
        == ['a', 'p', 'g', '.', 'c', 'o', 'm', 'p', 'i', 'l', 'e', '-', 'e', 'n', 't', 'r', 'y', '.', 'v', '1'];
    SameBytes(ROW_NAME, DOMAIN_ROW);
  }

  lemma SetNameIsSpelled()
    ensures Ascii(SET_NAME) && BytesOf(SET_NAME) == DOMAIN_SET
  {
    assert SET_NAME
        == ['a', 'p', 'g', '.', 's', 'e', 'l', 'e', 'c', 't', 'e', 'd', '-', 't', 'u', '-', 's', 'e', 't',
            '.', 'v', '1'];
    SameBytes(SET_NAME, DOMAIN_SET);
  }

  /** A member as it is published: paths in NFC, no unpaired surrogate in any string. */
  ghost predicate WellFormedMember(env: Env, m: Member) {
    && env.nfc(m.path) == m.path && env.nfc(m.directory) == m.directory
    && U.WellFormed(m.path) && U.WellFormed(m.directory) && forall a :: a in m.argv ==> U.WellFormed(a)
  }

  /** On well-formed members the row encoding is injective. */
  lemma RowInjective(env: Env, m: Member, n: Member)
    requires Encodable(env, m) && Encodable(env, n) && WellFormedMember(env, m) && WellFormedMember(env, n)
    requires EncodeRow(env, m) == EncodeRow(env, n)
    ensures m == n
  {
    RowDeterminesFields(env, m, n);
    U.EncodeInjective(m.path, n.path);
    U.EncodeInjective(m.directory, n.directory);
    forall i | 0 <= i < |m.argv| ensures m.argv[i] == n.argv[i] {
      assert EncodeAll(m.argv)[i] == EncodeAll(n.argv)[i];
      U.EncodeInjective(m.argv[i], n.argv[i]);
    }
  }

  /** Without that condition it is not: two arguments that differ in an unpaired surrogate give one row. */
  lemma SurrogateArgumentsCollide(env: Env, m: Member)
    ensures EncodeRow(env, m.(argv := [[0xD800]])) == EncodeRow(env, m.(argv := [[0xD801]]))
    ensures m.(argv := [[0xD800]]) != m.(argv := [[0xD801]])
  {
    U.SurrogatesCollide();
    assert EncodeAll([[0xD800]]) == EncodeAll([[0xD801]]);
    var a: seq<U.Str>, b: seq<U.Str> := [[0xD800]], [[0xD801]];
    assert a[0][0] != b[0][0];
  }

  /** Two members that cannot be told apart once unpaired surrogates are replaced. */
  ghost predicate Alike(env: Env, m: Member, n: Member) {
    && U.Replaced(env.nfc(m.path)) == U.Replaced(env.nfc(n.path))
    && U.Replaced(env.nfc(m.directory)) == U.Replaced(env.nfc(n.directory))
    && |m.argv| == |n.argv| && (forall i :: 0 <= i < |m.argv| ==> U.Replaced(m.argv[i]) == U.Replaced(n.argv[i]))
    && m.size == n.size && m.sha256 == n.sha256
  }

  lemma ArgumentsAlike(x: seq<U.Str>, y: seq<U.Str>)
    ensures EncodeAll(x) == EncodeAll(y)
            <==> |x| == |y| && forall i :: 0 <= i < |x| ==> U.Replaced(x[i]) == U.Replaced(y[i])
  {
    if |x| == |y| {
      forall i | 0 <= i < |x|
        ensures EncodeAll(x)[i] == EncodeAll(y)[i] <==> U.Replaced(x[i]) == U.Replaced(y[i])
      {
        U.EncodingForgetsExactlySurrogates(x[i], y[i]);
      }
    }
  }

  /** Exactly the members that are alike share a row. */
  lemma RowsForgetExactlySurrogates(env: Env, m: Member, n: Member)
    requires Encodable(env, m) && Encodable(env, n)
    ensures EncodeRow(env, m) == EncodeRow(env, n) <==> Alike(env, m, n)
  {
    ArgumentsAlike(m.argv, n.argv);
    U.EncodingForgetsExactlySurrogates(env.nfc(m.path), env.nfc(n.path));
    U.EncodingForgetsExactlySurrogates(env.nfc(m.directory), env.nfc(n.directory));
    if EncodeRow(env, m) == EncodeRow(env, n) {
      RowDeterminesFields(env, m, n);
      assert |EncodeAll(m.argv)| == |m.argv| && |EncodeAll(n.argv)| == |n.argv|;
    }
  }

  // ----- the set -----

  /** `Buffer.compare`: lexicographic by bytes. */
  predicate Less(a: Bytes, b: Bytes)
    decreases |a|
  {
    if b == [] then false
    else if a == [] then true
    else if a[0] != b[0] then a[0] < b[0]
    else Less(a[1..], b[1..])
  }

  /** The first place where the two differ. */
  predicate DifferFirstAt(a: Bytes, b: Bytes, i: nat) {
    i < |a| && i < |b| && a[..i] == b[..i] && a[i] < b[i]
  }

  lemma SameStart(a: Bytes, b: Bytes, i: nat)
    requires 0 < i <= |a| && i <= |b| && a[..i] == b[..i]
    ensures a[0] == b[0]
  {
    assert a[..i][0] == b[..i][0];
  }

  /** A proper prefix comes first, and otherwise the smaller byte at the first difference. */
  lemma {:induction false} LessIsLexicographic(a: Bytes, b: Bytes)
    ensures Less(a, b) <==> (a <= b && a != b) || exists i: nat :: DifferFirstAt(a, b, i)
    decreases |a|
  {
    if a != [] && b != [] && a[0] == b[0] {
      LessIsLexicographic(a[1..], b[1..]);
      assert a == [a[0]] + a[1..] && b == [b[0]] + b[1..];
      forall i: nat | DifferFirstAt(a[1..], b[1..], i) ensures DifferFirstAt(a, b, i + 1) {
        assert a[..i + 1] == [a[0]] + a[1..][..i] && b[..i + 1] == [b[0]] + b[1..][..i];
      }
      forall i: nat | DifferFirstAt(a, b, i) ensures i > 0 && DifferFirstAt(a[1..], b[1..], i - 1) {
        assert a[1..][..i - 1] == a[..i][1..] && b[1..][..i - 1] == b[..i][1..];
      }
    } else if a != [] && b != [] {
      assert a[0] < b[0] ==> DifferFirstAt(a, b, 0);
      forall i: nat | DifferFirstAt(a, b, i) ensures i == 0 {
        if i > 0 {
          SameStart(a, b, i);
        }
      }
    }
  }

  function RowLess(): (Bytes, Bytes) -> bool {
    (a: Bytes, b: Bytes) => Less(a, b)
  }

  lemma {:induction false} LessAsymmetric(a: Bytes, b: Bytes)
    requires Less(a, b)
    ensures !Less(b, a)
    decreases |a|
  {
    if a != [] && a[0] == b[0] {
      LessAsymmetric(a[1..], b[1..]);
    }
  }

  lemma {:induction false} LessTransitive(a: Bytes, b: Bytes, c: Bytes)
    requires !Less(b, a) && !Less(c, b)
    ensures !Less(c, a)
    decreases |a|
  {
    if a != [] && b != [] && c != [] && a[0] == b[0] == c[0] {
      LessTransitive(a[1..], b[1..], c[1..]);
    }
  }

  lemma {:induction false} LessTotal(a: Bytes, b: Bytes)
    requires !Less(a, b) && !Less(b, a)
    ensures a == b
    decreases |a|
  {
    if a != [] && b != [] {
      LessTotal(a[1..], b[1..]);
      assert a == [a[0]] + a[1..] && b == [b[0]] + b[1..];
    }
  }

  lemma RowOrder()
    ensures WeakOrder(RowLess()) && forall s :: TiesAreEqual(RowLess(), s)
  {
    forall a, b | Less(a, b) ensures !Less(b, a) { LessAsymmetric(a, b); }
    forall a, b, c | !Less(b, a) && !Less(c, b) ensures !Less(c, a) { LessTransitive(a, b, c); }
    forall a, b | !Less(a, b) && !Less(b, a) ensures a == b { LessTotal(a, b); }
  }

  function SetPreimage(sorted: seq<Bytes>): Bytes {
    Frame(DOMAIN_SET) + (U64(|sorted|) + Frames(sorted))
  }

  function AggregateRows(env: Env, rows: seq<Bytes>): Bytes {
    env.sha(SetPreimage(Sort(RowLess(), rows)))
  }

  /** The preimage reads back as its domain, the number of rows and the rows, and nothing more. */
  lemma PreimageReadsBack(sorted: seq<Bytes>, counted: Bytes, framed: Bytes)
    requires RowsFit(sorted) && framed == Frames(sorted) && counted == U64(|sorted|) + framed
    ensures ReadFrame(SetPreimage(sorted)) == Some((DOMAIN_SET, counted))
    ensures ReadU64(counted) == Some((|sorted|, framed))
    ensures ReadFrames(framed, |sorted|) == Some((sorted, []))
  {
    ReadsFrame(DOMAIN_SET, counted);
    ReadsU64(|sorted|, framed);
    ReadsFrames(sorted, []);
    assert framed + [] == framed;
  }

  ghost predicate RowsFit(rows: seq<Bytes>) {
    |rows| < TWO_TO_64 && forall r :: r in rows ==> Fits(r)
  }

  lemma SortedRowsFit(rows: seq<Bytes>)
    requires RowsFit(rows)
    ensures RowsFit(Sort(RowLess(), rows))
  {
    RowOrder();
    SortKeeps(RowLess(), rows);
    forall r | r in Sort(RowLess(), rows) ensures Fits(r) {
      assert r in multiset(rows);
    }
  }

  /** The preimage of the set digest stands for exactly one multiset of rows: order is forgotten, duplicates count. */
  lemma PreimageIsMultiset(a: seq<Bytes>, b: seq<Bytes>)
    requires RowsFit(a) && RowsFit(b)
    ensures SetPreimage(Sort(RowLess(), a)) == SetPreimage(Sort(RowLess(), b)) <==> multiset(a) == multiset(b)
  {
    RowOrder();
    var x, y := Sort(RowLess(), a), Sort(RowLess(), b);
    SortKeeps(RowLess(), a);
    SortKeeps(RowLess(), b);
    if multiset(a) == multiset(b) {
      SortForgetsOrder(RowLess(), a, b);
    }
    if SetPreimage(x) == SetPreimage(y) {
      SortedRowsFit(a);
      SortedRowsFit(b);
      FrameSplit(DOMAIN_SET, DOMAIN_SET, U64(|x|) + Frames(x), U64(|y|) + Frames(y));
      U64Split(|x|, |y|, Frames(x), Frames(y));
      assert Frames(x) + [] == Frames(x) && Frames(y) + [] == Frames(y);
      FramesSplit(x, y, [], []);
    }
  }

  /** Where the hash does not collide on the two preimages, equal digests mean equal multisets of rows. */
  lemma DigestIsMultiset(env: Env, a: seq<Bytes>, b: seq<Bytes>)
    requires RowsFit(a) && RowsFit(b)
    requires var x, y := SetPreimage(Sort(RowLess(), a)), SetPreimage(Sort(RowLess(), b));
             env.sha(x) == env.sha(y) ==> x == y
    ensures AggregateRows(env, a) == AggregateRows(env, b) <==> multiset(a) == multiset(b)
  {
    PreimageIsMultiset(a, b);
  }
}
