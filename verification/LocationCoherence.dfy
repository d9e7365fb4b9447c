/**
  Admission of locations a language server returned: a location becomes evidence only once the
  bytes of its document show the expected token in its range.
 */
module LocationCoherence {
  import opened Prelude
  import opened DocumentSnapshot
  import opened Strings

  // ----- locations as they arrive -----

  /** `None`: not an integer. */
  datatype RawPoint = NoPoint | RawPoint(line: Option<int>, character: Option<int>)

  /** `Missing` is `null` or `undefined`; `Junk` any other value that is not an object. */
  datatype RawRange = Missing | Junk | RawRange(start: RawPoint, end: RawPoint)

  /** A returned location; `uri` and `targetUri` are `None` where they are not strings. */
  datatype Location =
    | NotAnObject
    | Location(uri: Option<string>, range: RawRange,
               targetUri: Option<string>, targetSelectionRange: RawRange, targetRange: RawRange)

  /** `character` counts UTF-16 code units; a `char` of a text stands for one of them. */
  datatype Point = Point(line: nat, character: nat)

  datatype Range = Range(start: Point, end: Point)

  datatype Why =
    | UnknownShape | NotAFileUri | Directory | InvalidRangeSyntax | RangeOutOfBounds | TokenMismatch
    | StatusUnavailable | TokenUnverifiable
    | OutOfScope(policy: string)

  datatype Decoded = Undecoded(why: Why, from: Option<string>) | Decoded(uri: string, range: Range)

  function ReadShape(l: Location): Option<(string, RawRange)> {
    if l.NotAnObject? then None
    else if l.uri.Some? then Some((l.uri.value, l.range))
    else if l.targetUri.Some? then
      Some((l.targetUri.value, if l.targetSelectionRange.Missing? then l.targetRange else l.targetSelectionRange))
    else None
  }

  predicate PointOk(p: RawPoint) {
    p.RawPoint? && p.line.Some? && p.line.value >= 0 && p.character.Some? && p.character.value >= 0
  }

  function ToPoint(p: RawPoint): Point
    requires PointOk(p)
  {
    Point(p.line.value, p.character.value)
  }

  predicate Ordered(r: Range) {
    r.start.line < r.end.line || (r.start.line == r.end.line && r.start.character <= r.end.character)
  }

  function ReadRange(r: RawRange): Option<Range> {
    if r.RawRange? && PointOk(r.start) && PointOk(r.end) then
      var range := Range(ToPoint(r.start), ToPoint(r.end));
      if Ordered(range) then Some(range) else None
    else None
  }

  function DecodeLocation(l: Location): Decoded {
    match ReadShape(l)
    case None => Undecoded(UnknownShape, None)
    case Some((uri, raw)) =>
      match ReadRange(raw)
      case None => Undecoded(InvalidRangeSyntax, Some(uri))
      case Some(range) => Decoded(uri, range)
  }

  // ----- lines and tokens -----

  /** The first newline at or after `from`, or the end of the text. */
  function LineEnd(text: string, from: nat): (e: nat)
    requires from <= |text|
    ensures from <= e <= |text| && '\n' !in text[from..e] && (e < |text| ==> text[e] == '\n')
    decreases |text| - from
  {
    if from == |text| || text[from] == '\n' then from
    else
      var e := LineEnd(text, from + 1);
      assert text[from..e] == [text[from]] + text[from + 1..e];
      e
  }

  /** Where the line that ends at `e` stops once its carriage return is dropped. */
  function WithoutReturn(text: string, from: nat, e: nat): nat
    requires from <= e <= |text|
  {
    if e > from && text[e - 1] == '\r' then e - 1 else e
  }

  /** `text.split(/\r?\n/)`, from position `from` on. */
  function LinesFrom(text: string, from: nat): seq<string>
    requires from <= |text|
    decreases |text| - from
  {
    var e := LineEnd(text, from);
    if e == |text| then [text[from..]]
    else [text[from..WithoutReturn(text, from, e)]] + LinesFrom(text, e + 1)
  }

  function Lines(text: string): seq<string> {
    LinesFrom(text, 0)
  }

  predicate OccursAt(hay: string, needle: string, k: nat) {
    k + |needle| <= |hay| && hay[k..k + |needle|] == needle
  }

  predicate Contains(hay: string, needle: string) {
    exists k: nat :: k <= |hay| && OccursAt(hay, needle, k)
  }

  /** The last part of a name split at its double colons, from the left. */
  function LastPart(name: string, from: nat): string
    requires from <= |name|
    decreases |name| - from
  {
    if from + 1 >= |name| then name
    else if name[from] == ':' && name[from + 1] == ':' then LastPart(name[from + 2..], 0)
    else LastPart(name, from + 1)
  }

  function LeafOf(name: string): string {
    Trim(LastPart(name, 0))
  }

  predicate Letter(c: char) {
    'A' <= c <= 'Z' || 'a' <= c <= 'z' || c == '_'
  }

  predicate PlainIdentifier(s: string) {
    s != [] && Letter(s[0]) && forall c :: c in s ==> Letter(c) || '0' <= c <= '9'
  }

  predicate InBounds(lines: seq<string>, r: Range) {
    && r.start.line < |lines| && r.end.line < |lines|
    && r.start.character <= |lines[r.start.line]| && r.end.character <= |lines[r.end.line]|
  }

  /** The text a range covers on its first line. */
  function Covered(lines: seq<string>, r: Range): string
    requires Ordered(r) && InBounds(lines, r)
  {
    if r.start.line == r.end.line then lines[r.start.line][r.start.character..r.end.character]
    else lines[r.start.line][r.start.character..]
  }

  // ----- the verdict -----

  datatype Lane = Admitted | Refused | Unverified | Skipped

  /** Where a location goes, and the row that explains it there. */
  datatype Fate = Fate(lane: Lane, uri: Option<string>, why: Option<Why>, detail: Option<Reason>)

  /** The verdict on a decoded location, given the snapshot's answer for its document. */
  function DocumentVerdict(uri: string, range: Range, token: string, a: Answer): Fate
    requires Ordered(range)
  {
    match a
    case Unavailable(DirectoryUri) => Fate(Refused, Some(uri), Some(Directory), None)
    case Unavailable(reason) => Fate(Unverified, Some(uri), Some(StatusUnavailable), Some(reason))
    case Ok(text) =>
      var lines, leaf := Lines(text), LeafOf(token);
      if !InBounds(lines, range) then Fate(Refused, Some(uri), Some(RangeOutOfBounds), None)
      else if !PlainIdentifier(leaf) then Fate(Unverified, Some(uri), Some(TokenUnverifiable), None)
      else if !Contains(Covered(lines, range), leaf) then Fate(Refused, Some(uri), Some(TokenMismatch), None)
      else Fate(Admitted, Some(uri), None, None)
  }

  /** `pathOf` is `fileURLToPath`, `None` where it throws; `policy` names why a URI is out of scope. */
  datatype Env = Env(pathOf: string -> Option<string>, policy: string -> Option<string>)

  /** One location offered for validation, with the token its request asked about and the disk at that moment. */
  datatype Offer = Offer(location: Location, token: string, disk: Disk)

  /** The document an offer needs read, if it gets that far. */
  function Document(env: Env, o: Offer): Option<string> {
    match DecodeLocation(o.location)
    case Undecoded(_, _) => None
    case Decoded(uri, _) => if env.policy(uri).Some? then None else env.pathOf(uri)
  }

  lemma DecodedIsOrdered(l: Location)
    ensures DecodeLocation(l).Decoded? ==> Ordered(DecodeLocation(l).range)
  {
  }

  /** The fate of an offer that needs no document. */
  function FateUnread(env: Env, o: Offer): Fate
    requires Document(env, o).None?
  {
    match DecodeLocation(o.location)
    case Undecoded(why, from) => Fate(Refused, from, Some(why), None)
    case Decoded(uri, _) =>
      if env.policy(uri).Some? then Fate(Skipped, Some(uri), Some(OutOfScope(env.policy(uri).value)), None)
      else Fate(Refused, Some(uri), Some(NotAFileUri), None)
  }

  function FateRead(env: Env, o: Offer, a: Answer): Fate
    requires Document(env, o).Some?
  {
    var dec := DecodeLocation(o.location);
    DecodedIsOrdered(o.location);
    DocumentVerdict(dec.uri, dec.range, o.token, a)
  }

  function RequestOf(env: Env, o: Offer): Request
    requires Document(env, o).Some?
  {
    Observe(o.disk, Document(env, o).value)
  }

  function StateAfter(cfg: Config, env: Env, s: State, o: Offer): State {
    if Document(env, o).None? then s else Access(cfg, s, RequestOf(env, o)).state
  }

  function FateOf(cfg: Config, env: Env, s: State, o: Offer): Fate {
    if Document(env, o).None? then FateUnread(env, o) else FateRead(env, o, Access(cfg, s, RequestOf(env, o)).answer)
  }

  /** The snapshot after the first `n` offers of a collection. */
  function Later(cfg: Config, env: Env, s: State, offers: seq<Offer>, n: nat): State
    requires n <= |offers|
  {
    if n == 0 then s else StateAfter(cfg, env, Later(cfg, env, s, offers, n - 1), offers[n - 1])
  }

  function FateAt(cfg: Config, env: Env, s: State, offers: seq<Offer>, i: nat): Fate
    requires i < |offers|
  {
    FateOf(cfg, env, Later(cfg, env, s, offers, i), offers[i])
  }

  datatype Lists = Lists(admitted: seq<Location>, refused: seq<Fate>, unavailable: seq<Fate>, scopeSkipped: seq<Fate>)

  function Push(lists: Lists, l: Location, f: Fate): Lists {
    match f.lane
    case Admitted => lists.(admitted := lists.admitted + [l])
    case Refused => lists.(refused := lists.refused + [f])
    case Unverified => lists.(unavailable := lists.unavailable + [f])
    case Skipped => lists.(scopeSkipped := lists.scopeSkipped + [f])
  }

  /** The four lists after the first `n` locations. */
  function Sorted(offers: seq<Offer>, fates: seq<Fate>, n: nat): Lists
    requires n <= |offers| == |fates|
  {
    if n == 0 then Lists([], [], [], [])
    else Push(Sorted(offers, fates, n - 1), offers[n - 1].location, fates[n - 1])
  }

  function Fates(cfg: Config, env: Env, s: State, offers: seq<Offer>): (r: seq<Fate>)
    ensures |r| == |offers|
  {
    seq(|offers|, i requires 0 <= i < |offers| => FateAt(cfg, env, s, offers, i))
  }

  // ----- every location lands in exactly one list -----

  /** How many of the first `n` fates are in a lane. */
  function Rank(fates: seq<Fate>, lane: Lane, n: nat): nat
    requires n <= |fates|
  {
    if n == 0 then 0 else Rank(fates, lane, n - 1) + if fates[n - 1].lane == lane then 1 else 0
  }

  function Length(lists: Lists, lane: Lane): nat {
    match lane
    case Admitted => |lists.admitted|
    case Refused => |lists.refused|
    case Unverified => |lists.unavailable|
    case Skipped => |lists.scopeSkipped|
  }

  /** Position `p` of a lane's list is this location, or the row of this fate. */
  predicate Holds(lists: Lists, p: nat, l: Location, f: Fate) {
    p < Length(lists, f.lane)
    && match f.lane
       case Admitted => lists.admitted[p] == l
       case Refused => lists.refused[p] == f
       case Unverified => lists.unavailable[p] == f
       case Skipped => lists.scopeSkipped[p] == f
  }

  lemma PushKeeps(lists: Lists, l: Location, f: Fate, p: nat, l': Location, f': Fate)
    requires Holds(lists, p, l', f')
    ensures Holds(Push(lists, l, f), p, l', f')
  {
  }

  lemma PushAdds(lists: Lists, l: Location, f: Fate, lane: Lane)
    ensures Holds(Push(lists, l, f), Length(lists, f.lane), l, f)
    ensures Length(Push(lists, l, f), lane) == Length(lists, lane) + if lane == f.lane then 1 else 0
  {
  }

  lemma {:induction false} LaneLength(offers: seq<Offer>, fates: seq<Fate>, n: nat, lane: Lane)
    requires n <= |offers| == |fates|
    ensures Length(Sorted(offers, fates, n), lane) == Rank(fates, lane, n)
  {
    if n > 0 {
      LaneLength(offers, fates, n - 1, lane);
      PushAdds(Sorted(offers, fates, n - 1), offers[n - 1].location, fates[n - 1], lane);
    }
  }

  lemma {:induction false} RanksTotal(fates: seq<Fate>, n: nat)
    requires n <= |fates|
    ensures Rank(fates, Admitted, n) + Rank(fates, Refused, n)
            + Rank(fates, Unverified, n) + Rank(fates, Skipped, n) == n
  {
    if n > 0 {
      RanksTotal(fates, n - 1);
    }
  }

  lemma {:induction false} LandsInLane(offers: seq<Offer>, fates: seq<Fate>, n: nat, i: nat)
    requires i < n <= |offers| == |fates|
    ensures Holds(Sorted(offers, fates, n), Rank(fates, fates[i].lane, i), offers[i].location, fates[i])
  {
    var before, l, f := Sorted(offers, fates, n - 1), offers[n - 1].location, fates[n - 1];
    if i < n - 1 {
      LandsInLane(offers, fates, n - 1, i);
      PushKeeps(before, l, f, Rank(fates, fates[i].lane, i), offers[i].location, fates[i]);
    } else {
      LaneLength(offers, fates, n - 1, f.lane);
      PushAdds(before, l, f, f.lane);
    }
  }

  /**
    The four lists partition the locations: together they are as long as the input, each list is
    exactly as long as its lane, and location `i` is in its own lane, at the position given by how
    many earlier locations share that lane, so the order is kept.
   */
  lemma {:induction false} EveryLocationInOneList(offers: seq<Offer>, fates: seq<Fate>, lists: Lists)
    requires |offers| == |fates| && lists == Sorted(offers, fates, |offers|)
    ensures |lists.admitted| + |lists.refused| + |lists.unavailable| + |lists.scopeSkipped| == |offers|
    ensures forall lane :: Length(lists, lane) == Rank(fates, lane, |offers|)
    ensures forall i :: 0 <= i < |offers| ==> Holds(lists, Rank(fates, fates[i].lane, i), offers[i].location, fates[i])
  {
    forall lane ensures Length(lists, lane) == Rank(fates, lane, |offers|) {
      LaneLength(offers, fates, |offers|, lane);
    }
    RanksTotal(fates, |offers|);
    assert Length(lists, Admitted) + Length(lists, Refused)
           + Length(lists, Unverified) + Length(lists, Skipped) == |offers|;
    forall i | 0 <= i < |offers| ensures Holds(lists, Rank(fates, fates[i].lane, i), offers[i].location, fates[i]) {
      LandsInLane(offers, fates, |offers|, i);
    }
  }

  // ----- a location offered twice -----

  lemma {:induction false} StillCommitted(cfg: Config, env: Env, s: State, offers: seq<Offer>, i: nat, j: nat,
                                          key: Key, a: Answer)
    requires i <= j <= |offers| && Committed(cfg, Later(cfg, env, s, offers, i), key, a)
    ensures Committed(cfg, Later(cfg, env, s, offers, j), key, a)
    decreases j
  {
    if i < j {
      StillCommitted(cfg, env, s, offers, i, j - 1, key, a);
      if Document(env, offers[j - 1]).Some? {
        KeepsCommitment(cfg, Later(cfg, env, s, offers, j - 1), RequestOf(env, offers[j - 1]), key, a);
      }
    }
  }

  /** The file system still resolves the document's path to the same file. */
  predicate SameFile(env: Env, a: Offer, b: Offer) {
    Document(env, a).Some? && Document(env, b).Some? ==> RequestOf(env, a).key == RequestOf(env, b).key
  }

  /**
    A location offered again for the same token, anywhere later in the collection, gets the same
    fate: edits to its document, and budgets exhausted in between, change nothing.
   */
  lemma RepeatedLocationSameFate(cfg: Config, env: Env, s: State, offers: seq<Offer>, i: nat, j: nat)
    requires i < j < |offers| && offers[i].location == offers[j].location && offers[i].token == offers[j].token
    requires SameFile(env, offers[i], offers[j])
    ensures FateAt(cfg, env, s, offers, i) == FateAt(cfg, env, s, offers, j)
  {
    if Document(env, offers[i]).Some? {
      var r, before := RequestOf(env, offers[i]), Later(cfg, env, s, offers, i);
      BecomesCommitted(cfg, before, r);
      StillCommitted(cfg, env, s, offers, i + 1, j, r.key, Access(cfg, before, r).answer);
      CommittedAnswers(cfg, Later(cfg, env, s, offers, j), RequestOf(env, offers[j]), Access(cfg, before, r).answer);
    }
  }

  lemma CommittedAnswers(cfg: Config, s: State, r: Request, a: Answer)
    requires Committed(cfg, s, r.key, a)
    ensures Access(cfg, s, r).answer == a
  {
  }

  // ----- what admission means -----

  function Newlines(s: string): nat {
    if s == [] then 0 else Newlines(s[..|s| - 1]) + if s[|s| - 1] == '\n' then 1 else 0
  }

  /** Line `k`, counted from zero, begins at position `p`. */
  predicate Begins(text: string, k: nat, p: nat) {
    p <= |text| && Newlines(text[..p]) == k && (p > 0 ==> text[p - 1] == '\n')
  }

  lemma {:induction false} NoNewlines(text: string, from: nat, to: nat)
    requires from <= to <= |text| && '\n' !in text[from..to]
    ensures Newlines(text[..to]) == Newlines(text[..from])
  {
    if from < to {
      assert text[from..to][to - 1 - from] == text[to - 1];
      assert forall c :: c in text[from..to - 1] ==> c in text[from..to];
      NoNewlines(text, from, to - 1);
      assert text[..to][..to - 1] == text[..to - 1];
    }
  }

  lemma NextBegins(text: string, k: nat, from: nat)
    requires Begins(text, k, from) && LineEnd(text, from) < |text|
    ensures Begins(text, k + 1, LineEnd(text, from) + 1)
  {
    var e := LineEnd(text, from);
    NoNewlines(text, from, e);
    assert text[..e + 1][..e] == text[..e];
  }

  /** Where the split's line `k`, counted from the one at `from`, begins. */
  function StartOf(text: string, from: nat, k: nat): (p: nat)
    requires from <= |text| && k < |LinesFrom(text, from)|
    ensures p <= |text| && if k == 0 then p == from else p > LineEnd(text, from)
    decreases k
  {
    if k == 0 then from else StartOf(text, LineEnd(text, from) + 1, k - 1)
  }

  lemma {:induction false} StartBegins(text: string, base: nat, from: nat, k: nat)
    requires Begins(text, base, from) && k < |LinesFrom(text, from)|
    ensures Begins(text, base + k, StartOf(text, from, k))
    decreases k
  {
    if k > 0 {
      NextBegins(text, base, from);
      StartBegins(text, base + 1, LineEnd(text, from) + 1, k - 1);
    }
  }

  lemma {:induction false} LinesShift(text: string, from: nat, k: nat)
    requires from <= |text| && k < |LinesFrom(text, from)|
    ensures LinesFrom(text, StartOf(text, from, k)) == LinesFrom(text, from)[k..]
    decreases k
  {
    if k > 0 {
      LinesShift(text, LineEnd(text, from) + 1, k - 1);
      assert LinesFrom(text, from)[1..] == LinesFrom(text, LineEnd(text, from) + 1);
      assert LinesFrom(text, from)[k..] == LinesFrom(text, from)[1..][k - 1..];
    }
  }

  /** The first line of a split stands where the split starts. */
  lemma FirstLine(text: string, from: nat)
    requires from <= |text|
    ensures LinesFrom(text, from) != [] && OccursAt(text, LinesFrom(text, from)[0], from)
    ensures from + |LinesFrom(text, from)[0]| <= LineEnd(text, from)
  {
  }

  /** The token stands in the text between the two ends of the range. */
  ghost predicate TokenInRange(text: string, r: Range, leaf: string) {
    exists p: nat, q: nat, o: nat ::
      && Begins(text, r.start.line, p) && Begins(text, r.end.line, q) && OccursAt(text, leaf, o)
      && p + r.start.character <= o && o + |leaf| <= q + r.end.character <= |text|
  }

  /** Line `k` of the split `lines` from `from` on stands at the position it begins at. */
  lemma LineStands(text: string, base: nat, from: nat, lines: seq<string>, k: nat) returns (p: nat)
    requires Begins(text, base, from) && lines == LinesFrom(text, from) && k < |lines|
    ensures p == StartOf(text, from, k) && Begins(text, base + k, p) && OccursAt(text, lines[k], p)
    ensures p + |lines[k]| <= LineEnd(text, p) && LinesFrom(text, p) == lines[k..]
  {
    p := StartOf(text, from, k);
    StartBegins(text, base, from, k);
    LinesShift(text, from, k);
    FirstLine(text, p);
  }

  lemma TwoLines(text: string, lines: seq<string>, i: nat, j: nat) returns (p: nat, q: nat)
    requires lines == LinesFrom(text, 0) && i <= j < |lines|
    ensures Begins(text, i, p) && Begins(text, j, q)
    ensures OccursAt(text, lines[i], p) && OccursAt(text, lines[j], q)
    ensures if i == j then p == q else p + |lines[i]| < q
  {
    p := LineStands(text, 0, 0, lines, i);
    q := LineStands(text, i, p, lines[i..], j - i);
  }

  lemma OccursInside(text: string, line: string, p: nat, c: nat, to: nat, leaf: string, k: nat)
    requires OccursAt(text, line, p) && c <= to <= |line| && OccursAt(line[c..to], leaf, k)
    ensures OccursAt(text, leaf, p + c + k) && p + c + k + |leaf| <= p + to
  {
    var at := p + c + k;
    forall m | 0 <= m < |leaf| ensures text[at..at + |leaf|][m] == leaf[m] {
      assert line[c..to][k..k + |leaf|][m] == line[c + k + m];
      assert text[p..p + |line|][c + k + m] == text[at + m];
    }
  }

  lemma CoveredIsInRange(text: string, r: Range, leaf: string)
    requires Ordered(r) && InBounds(Lines(text), r) && Contains(Covered(Lines(text), r), leaf)
    ensures TokenInRange(text, r, leaf)
  {
    var p, q := TwoLines(text, Lines(text), r.start.line, r.end.line);
    var line := Lines(text)[r.start.line];
    var to := if r.start.line == r.end.line then r.end.character else |line|;
    var k: nat :| k <= |Covered(Lines(text), r)| && OccursAt(Covered(Lines(text), r), leaf, k);
    assert line[r.start.character..to] == Covered(Lines(text), r);
    OccursInside(text, line, p, r.start.character, to, leaf, k);
  }

  /**
    An admitted location names a document in scope whose text, as the snapshot holds it, has the
    requested token standing inside the claimed range.
   */
  lemma AdmittedIsVerified(cfg: Config, env: Env, s: State, o: Offer)
    requires FateOf(cfg, env, s, o).lane == Admitted
    ensures Document(env, o).Some? && DecodeLocation(o.location).Decoded?
    ensures Access(cfg, s, RequestOf(env, o)).answer.Ok?
    ensures PlainIdentifier(LeafOf(o.token))
    ensures TokenInRange(Access(cfg, s, RequestOf(env, o)).answer.text, DecodeLocation(o.location).range,
                         LeafOf(o.token))
  {
    var dec := DecodeLocation(o.location);
    DecodedIsOrdered(o.location);
    CoveredIsInRange(Access(cfg, s, RequestOf(env, o)).answer.text, dec.range, LeafOf(o.token));
  }

  /** Where the line that begins at `p` stops: before its line ending, or at the end of the text. */
  function StopOf(text: string, p: nat): (e: nat)
    requires p <= |text|
    ensures p <= e <= |text|
  {
    var e := LineEnd(text, p);
    if e == |text| then e else WithoutReturn(text, p, e)
  }

  lemma {:induction false} NewlinesGrow(text: string, i: nat, j: nat)
    requires i <= j <= |text|
    ensures Newlines(text[..i]) <= Newlines(text[..j])
  {
    if i < j {
      NewlinesGrow(text, i, j - 1);
      assert text[..j][..j - 1] == text[..j - 1];
    }
  }

  /** A line has one beginning. */
  lemma BeginsOnce(text: string, k: nat, p: nat, q: nat)
    requires Begins(text, k, p) && Begins(text, k, q)
    ensures p == q
  {
    if p < q {
      EarlierBegins(text, k, p, q);
    } else if q < p {
      EarlierBegins(text, k, q, p);
    }
  }

  lemma EarlierBegins(text: string, k: nat, p: nat, q: nat)
    requires p < q <= |text| && text[q - 1] == '\n' && Newlines(text[..p]) == k
    ensures Newlines(text[..q]) > k
  {
    NewlinesGrow(text, p, q - 1);
    assert text[..q][..q - 1] == text[..q - 1];
  }

  lemma {:induction false} LineCount(text: string, from: nat)
    requires from <= |text|
    ensures |LinesFrom(text, from)| + Newlines(text[..from]) == Newlines(text) + 1
    decreases |text| - from
  {
    var e := LineEnd(text, from);
    NoNewlines(text, from, e);
    if e < |text| {
      assert text[..e + 1][..e] == text[..e];
      LineCount(text, e + 1);
    } else {
      assert text[..|text|] == text;
    }
  }

  /** A line exists exactly when it begins somewhere, and then it is what stands there. */
  lemma LineAt(text: string, k: nat, p: nat)
    requires Begins(text, k, p)
    ensures k < |Lines(text)| && Lines(text)[k] == text[p..StopOf(text, p)]
  {
    NewlinesGrow(text, p, |text|);
    assert text[..|text|] == text && text[..0] == [];
    LineCount(text, 0);
    var lines := LinesFrom(text, 0);
    var q := LineStands(text, 0, 0, lines, k);
    BeginsOnce(text, k, p, q);
    assert LinesFrom(text, p)[0] == lines[k];
  }

  /** Both ends of the range lie in the text, and the token stands in the part of the range on its first line. */
  ghost predicate TokenOnFirstLine(text: string, r: Range, leaf: string) {
    exists p: nat, q: nat ::
      Begins(text, r.start.line, p) && Begins(text, r.end.line, q) && TokenBetween(text, r, p, q, leaf)
  }

  /** The same, for a first line that begins at `p` and a last one that begins at `q`. */
  predicate TokenBetween(text: string, r: Range, p: nat, q: nat, leaf: string)
    requires p <= |text| && q <= |text|
  {
    && p + r.start.character <= StopOf(text, p) && q + r.end.character <= StopOf(text, q)
    && exists o: nat :: o <= |text| && OccursAt(text, leaf, o) && p + r.start.character <= o
                        && o + |leaf| <= if r.start.line == r.end.line then q + r.end.character else StopOf(text, p)
  }

  lemma InsideOccurs(text: string, from: nat, to: nat, leaf: string, o: nat)
    requires from <= to <= |text| && OccursAt(text, leaf, o) && from <= o && o + |leaf| <= to
    ensures OccursAt(text[from..to], leaf, o - from)
  {
    forall m | 0 <= m < |leaf| ensures text[from..to][o - from..o - from + |leaf|][m] == leaf[m] {
      assert text[o..o + |leaf|][m] == text[o + m];
    }
  }

  lemma OutsideOccurs(text: string, from: nat, to: nat, leaf: string, k: nat)
    requires from <= to <= |text| && OccursAt(text[from..to], leaf, k)
    ensures OccursAt(text, leaf, from + k) && from + k + |leaf| <= to
  {
    forall m | 0 <= m < |leaf| ensures text[from + k..from + k + |leaf|][m] == leaf[m] {
      assert text[from..to][k..k + |leaf|][m] == text[from + k + m];
    }
  }

  /** The part of the text a range covers on its first line. */
  lemma CoveredSlice(text: string, r: Range, p: nat, q: nat)
    requires Ordered(r) && Begins(text, r.start.line, p) && Begins(text, r.end.line, q)
    ensures InBounds(Lines(text), r) <==>
              p + r.start.character <= StopOf(text, p) && q + r.end.character <= StopOf(text, q)
    ensures InBounds(Lines(text), r) ==>
              var to := if r.start.line == r.end.line then q + r.end.character else StopOf(text, p);
              p + r.start.character <= to <= |text| && Covered(Lines(text), r) == text[p + r.start.character..to]
  {
    LineAt(text, r.start.line, p);
    LineAt(text, r.end.line, q);
    if r.start.line == r.end.line {
      BeginsOnce(text, r.start.line, p, q);
    }
    if InBounds(Lines(text), r) {
      var e := StopOf(text, p);
      SliceOfSlice(text, p, e, r.start.character, if r.start.line == r.end.line then r.end.character else e - p);
    }
  }

  lemma ContainsBetween(text: string, from: nat, to: nat, leaf: string)
    requires from <= to <= |text|
    ensures Contains(text[from..to], leaf)
            <==> exists o: nat :: o <= |text| && OccursAt(text, leaf, o) && from <= o && o + |leaf| <= to
  {
    if Contains(text[from..to], leaf) {
      var k: nat :| k <= |text[from..to]| && OccursAt(text[from..to], leaf, k);
      OutsideOccurs(text, from, to, leaf, k);
    }
    if o: nat :| o <= |text| && OccursAt(text, leaf, o) && from <= o && o + |leaf| <= to {
      InsideOccurs(text, from, to, leaf, o);
    }
  }

  lemma BetweenIsCovered(text: string, r: Range, p: nat, q: nat, leaf: string)
    requires Ordered(r) && Begins(text, r.start.line, p) && Begins(text, r.end.line, q)
    ensures TokenBetween(text, r, p, q, leaf) <==> InBounds(Lines(text), r) && Contains(Covered(Lines(text), r), leaf)
  {
    CoveredSlice(text, r, p, q);
    if InBounds(Lines(text), r) {
      if r.start.line == r.end.line {
        BeginsOnce(text, r.start.line, p, q);
      }
      ContainsBetween(text, p + r.start.character,
                      if r.start.line == r.end.line then q + r.end.character else StopOf(text, p), leaf);
    }
  }

  /** The lines-and-slices test of the code, in terms of offsets into the text. */
  lemma CoveredMeansOnFirstLine(text: string, r: Range, leaf: string)
    requires Ordered(r)
    ensures InBounds(Lines(text), r) && Contains(Covered(Lines(text), r), leaf) <==> TokenOnFirstLine(text, r, leaf)
  {
    if InBounds(Lines(text), r) {
      var p := LineStands(text, 0, 0, Lines(text), r.start.line);
      var q := LineStands(text, 0, 0, Lines(text), r.end.line);
      BetweenIsCovered(text, r, p, q, leaf);
    }
    forall p: nat, q: nat | Begins(text, r.start.line, p) && Begins(text, r.end.line, q)
      ensures TokenBetween(text, r, p, q, leaf) ==> InBounds(Lines(text), r) && Contains(Covered(Lines(text), r), leaf)
    {
      BetweenIsCovered(text, r, p, q, leaf);
    }
  }

  /** What an offer must be to be admitted on the snapshot's answer. */
  ghost predicate Admissible(env: Env, o: Offer, a: Answer) {
    && DecodeLocation(o.location).Decoded? && a.Ok? && PlainIdentifier(LeafOf(o.token))
    && TokenOnFirstLine(a.text, DecodeLocation(o.location).range, LeafOf(o.token))
  }

  /**
    Exactly the locations are admitted that decode, are in scope, name a file, whose document is
    readable, and whose range has the plain token inside its part on its first line.
   */
  lemma AdmittedExactlyWhenShown(cfg: Config, env: Env, s: State, o: Offer)
    ensures FateOf(cfg, env, s, o).lane == Admitted
            <==> Document(env, o).Some? && Admissible(env, o, Access(cfg, s, RequestOf(env, o)).answer)
  {
    if Document(env, o).Some? {
      var a, dec := Access(cfg, s, RequestOf(env, o)).answer, DecodeLocation(o.location);
      DecodedIsOrdered(o.location);
      if a.Ok? {
        CoveredMeansOnFirstLine(a.text, dec.range, LeafOf(o.token));
      }
    }
  }

  /** The range that a location's own fields say: lines and characters in whole non-negative numbers, in order. */
  predicate Says(raw: RawRange, r: Range) {
    && raw.RawRange? && raw.start.RawPoint? && raw.end.RawPoint?
    && raw.start.line == Some(r.start.line) && raw.start.character == Some(r.start.character)
    && raw.end.line == Some(r.end.line) && raw.end.character == Some(r.end.character)
    && (r.start.line == r.end.line ==> r.start.character <= r.end.character) && r.start.line <= r.end.line
  }

  /** The range that goes with the location's URI: of a link, the selection unless there is none. */
  function RangeOf(l: Location): RawRange
    requires l.Location?
  {
    if l.uri.Some? then l.range
    else if l.targetSelectionRange.Missing? then l.targetRange
    else l.targetSelectionRange
  }

  /** A location decodes to the URI and the range its own fields say, both of one shape, or to the first defect. */
  lemma DecodesToItsFields(l: Location, uri: string, r: Range)
    ensures DecodeLocation(l) == Decoded(uri, r)
            <==> l.Location? && Says(RangeOf(l), r) && Some(uri) == if l.uri.Some? then l.uri else l.targetUri
    ensures DecodeLocation(l) == Undecoded(UnknownShape, None)
            <==> l.NotAnObject? || (l.uri.None? && l.targetUri.None?)
    ensures DecodeLocation(l) == Undecoded(InvalidRangeSyntax, Some(uri))
            <==> l.Location? && Some(uri) == (if l.uri.Some? then l.uri else l.targetUri)
                 && forall s :: !Says(RangeOf(l), s)
  {
    if l.Location? {
      var raw := RangeOf(l);
      if ReadRange(raw).Some? {
        assert Says(raw, ReadRange(raw).value);
      }
      forall s | Says(raw, s) ensures ReadRange(raw) == Some(s) {
        RangeSaid(raw, s);
      }
    }
  }

  lemma RangeSaid(raw: RawRange, r: Range)
    requires Says(raw, r)
    ensures ReadRange(raw) == Some(r)
  {
  }

  /** Both ends of the range lie in the text. */
  ghost predicate InText(text: string, r: Range) {
    exists p: nat, q: nat ::
      && Begins(text, r.start.line, p) && Begins(text, r.end.line, q)
      && p + r.start.character <= StopOf(text, p) && q + r.end.character <= StopOf(text, q)
  }

  lemma InBoundsIsInText(text: string, r: Range)
    requires Ordered(r) && InBounds(Lines(text), r)
    ensures InText(text, r)
  {
    var p := LineStands(text, 0, 0, Lines(text), r.start.line);
    var q := LineStands(text, 0, 0, Lines(text), r.end.line);
    CoveredSlice(text, r, p, q);
  }

  lemma InTextIsInBounds(text: string, r: Range)
    requires Ordered(r) && InText(text, r)
    ensures InBounds(Lines(text), r)
  {
    var p: nat, q: nat :|
      && Begins(text, r.start.line, p) && Begins(text, r.end.line, q)
      && p + r.start.character <= StopOf(text, p) && q + r.end.character <= StopOf(text, q);
    CoveredSlice(text, r, p, q);
  }

  lemma InBoundsMeansInText(text: string, r: Range)
    requires Ordered(r)
    ensures InBounds(Lines(text), r) <==> InText(text, r)
  {
    if InBounds(Lines(text), r) {
      InBoundsIsInText(text, r);
    }
    if InText(text, r) {
      InTextIsInBounds(text, r);
    }
  }

  /** Every verdict on a document, by what is wrong with it; the first defect in this order is the one named. */
  lemma VerdictNamesTheDefect(uri: string, r: Range, token: string, a: Answer)
    requires Ordered(r)
    ensures var f, leaf := DocumentVerdict(uri, r, token, a), LeafOf(token);
            && f.uri == Some(uri)
            && (f == Fate(Refused, Some(uri), Some(Directory), None) <==> a == Unavailable(DirectoryUri))
            && (forall reason :: f == Fate(Unverified, Some(uri), Some(StatusUnavailable), Some(reason))
                                 <==> a == Unavailable(reason) && reason != DirectoryUri)
            && (f == Fate(Refused, Some(uri), Some(RangeOutOfBounds), None) <==> a.Ok? && !InText(a.text, r))
            && (f == Fate(Unverified, Some(uri), Some(TokenUnverifiable), None)
                <==> a.Ok? && InText(a.text, r) && !PlainIdentifier(leaf))
            && (f == Fate(Refused, Some(uri), Some(TokenMismatch), None)
                <==> a.Ok? && InText(a.text, r) && PlainIdentifier(leaf) && !TokenOnFirstLine(a.text, r, leaf))
  {
    if a.Ok? {
      InBoundsMeansInText(a.text, r);
      CoveredMeansOnFirstLine(a.text, r, LeafOf(token));
    }
  }

  /** Scope is asked before any document is read, and a location outside it is neither refused nor admitted. */
  lemma ScopeComesFirst(cfg: Config, env: Env, s: State, o: Offer)
    requires DecodeLocation(o.location).Decoded?
    ensures var uri, f := DecodeLocation(o.location).uri, FateOf(cfg, env, s, o);
            && (f.lane == Skipped <==> env.policy(uri).Some?)
            && (f.lane == Skipped ==> f.why == Some(OutOfScope(env.policy(uri).value))
                                      && StateAfter(cfg, env, s, o) == s)
            && (f == Fate(Refused, Some(uri), Some(NotAFileUri), None)
                <==> env.policy(uri).None? && env.pathOf(uri).None?)
            && (env.policy(uri).None? && env.pathOf(uri).Some? ==>
                  Document(env, o) == env.pathOf(uri))
  {
    DecodedIsOrdered(o.location);
  }

  /** A token that stands only on a later line of its range is taken for a mismatch. */
  lemma LaterLineIsRefused(uri: string, token: string)
    requires LeafOf(token) == ['f']
    ensures DocumentVerdict(uri, Range(Point(0, 0), Point(1, 1)), token, Ok(['a', '\n', 'f']))
            == Fate(Refused, Some(uri), Some(TokenMismatch), None)
  {
    var text: string := ['a', '\n', 'f'];
    EndOfLine(text, 0, 1);
    EndOfLine(text, 2, 3);
    LinesStep(text, 0, 1, ['a']);
    assert LinesFrom(text, 2) == [['f']];
    assert Lines(text) == [['a'], ['f']];
    assert !OccursAt(['a'], ['f'], 0) && !OccursAt(['a'], ['f'], 1);
  }

  /** How lines are written: each ends in a newline, with or without a carriage return before it. */
  function Typed(lines: seq<string>, crs: seq<bool>): string
    requires |crs| + 1 == |lines|
  {
    if crs == [] then lines[0]
    else lines[0] + Ending(crs[0]) + Typed(lines[1..], crs[1..])
  }

  /** A line that can be typed: no newline in it, and no carriage return at its end. */
  predicate OneTypedLine(line: string) {
    '\n' !in line && (line != [] ==> line[|line| - 1] != '\r')
  }

  lemma {:induction false} EndOfLine(text: string, from: nat, e: nat)
    requires from <= e <= |text| && '\n' !in text[from..e] && (e < |text| ==> text[e] == '\n')
    ensures LineEnd(text, from) == e
    decreases e - from
  {
    if from < e {
      assert text[from..e][0] == text[from];
      assert text[from..e] == [text[from]] + text[from + 1..e];
      EndOfLine(text, from + 1, e);
    }
  }

  function Ending(cr: bool): string {
    if cr then ['\r', '\n'] else ['\n']
  }

  lemma TypedLineEnd(text: string, from: nat, to: nat, cr: bool)
    requires from <= to && to + |Ending(cr)| <= |text| && text[to..to + |Ending(cr)|] == Ending(cr)
    requires OneTypedLine(text[from..to])
    ensures LineEnd(text, from) == to + |Ending(cr)| - 1
    ensures WithoutReturn(text, from, to + |Ending(cr)| - 1) == to
  {
    var e := to + |Ending(cr)| - 1;
    assert text[e] == text[to..e + 1][e - to];
    if cr {
      assert text[to] == text[to..e + 1][0];
      assert text[from..e] == text[from..to] + ['\r'];
    } else if from < to {
      assert text[to - 1] == text[from..to][to - from - 1];
    }
    EndOfLine(text, from, e);
  }

  lemma MiddleSlices(text: string, a: string, b: string, c: string, d: string)
    requires text == a + (b + c + d)
    ensures text == a + b + c + d
    ensures text[|a|..|a| + |b|] == b && text[|a| + |b|..|a| + |b| + |c|] == c
  {
  }

  lemma LinesStep(text: string, from: nat, e: nat, line: string)
    requires from <= |text| && e == LineEnd(text, from) < |text| && line == text[from..WithoutReturn(text, from, e)]
    ensures LinesFrom(text, from) == [line] + LinesFrom(text, e + 1)
  {
  }

  /** A typed line is split off at its ending, whichever it is. */
  lemma SplitsOff(text: string, from: nat, line: string, cr: bool, next: nat)
    requires next == from + |line| + |Ending(cr)| <= |text| && OneTypedLine(line)
    requires text[from..from + |line|] == line && text[from + |line|..next] == Ending(cr)
    ensures LinesFrom(text, from) == [line] + LinesFrom(text, next)
  {
    TypedLineEnd(text, from, from + |line|, cr);
    LinesStep(text, from, next - 1, line);
  }

  lemma LastTypedLine(text: string, pre: string, line: string)
    requires text == pre + line && OneTypedLine(line)
    ensures LinesFrom(text, |pre|) == [line]
  {
    assert text[|pre|..] == line;
    EndOfLine(text, |pre|, |text|);
  }

  lemma FirstTypedLine(text: string, pre: string, line: string, cr: bool, rest: string)
    requires text == pre + (line + Ending(cr) + rest) && OneTypedLine(line)
    ensures text == pre + line + Ending(cr) + rest
    ensures LinesFrom(text, |pre|) == [line] + LinesFrom(text, |pre + line + Ending(cr)|)
  {
    MiddleSlices(text, pre, line, Ending(cr), rest);
    SplitsOff(text, |pre|, line, cr, |pre| + |line| + |Ending(cr)|);
  }

  /** Splitting gives back the lines that were typed, whichever way each of them was ended. */
  lemma {:induction false} LinesRoundTrip(pre: string, lines: seq<string>, crs: seq<bool>, text: string)
    requires |crs| + 1 == |lines| && forall l :: l in lines ==> OneTypedLine(l)
    requires text == pre + Typed(lines, crs)
    ensures LinesFrom(text, |pre|) == lines
    decreases |lines|
  {
    var line, others := lines[0], lines[1..];
    assert line in lines && lines == [line] + others && forall l :: l in others ==> l in lines;
    if crs == [] {
      LastTypedLine(text, pre, line);
    } else {
      FirstTypedLine(text, pre, line, crs[0], Typed(others, crs[1..]));
      LinesRoundTrip(pre + line + Ending(crs[0]), others, crs[1..], text);
    }
  }

  lemma {:induction false} LastPartPlain(leaf: string, from: nat)
    requires from <= |leaf| && ':' !in leaf
    ensures LastPart(leaf, from) == leaf
    decreases |leaf| - from
  {
    if from + 1 < |leaf| {
      assert leaf[from] in leaf;
      LastPartPlain(leaf, from + 1);
    }
  }

  lemma {:induction false} LastPartQualified(prefix: string, leaf: string, from: nat)
    requires from <= |prefix| && ':' !in leaf && (prefix != [] ==> prefix[|prefix| - 1] != ':')
    ensures LastPart(prefix + [':', ':'] + leaf, from) == leaf
    decreases |prefix| - from
  {
    var name := prefix + [':', ':'] + leaf;
    if from == |prefix| {
      assert name[from + 2..] == leaf;
      LastPartPlain(leaf, 0);
    } else if name[from] == ':' && name[from + 1] == ':' {
      assert from + 1 < |prefix|;
      assert name[from + 2..] == prefix[from + 2..] + [':', ':'] + leaf;
      LastPartQualified(prefix[from + 2..], leaf, 0);
    } else {
      LastPartQualified(prefix, leaf, from + 1);
    }
  }

  const LETTERS_AND_DIGITS: string := ['A', 'Z', 'a', 'z', '_', '0', '9']
  const BESIDE_THEM: string := ['@', '[', '`', '{', '/', ':', '-', '$', '^', '~', ' ']

  /** The letters, the underscore and the digits, first and last of each, make a name; their neighbours do not. */
  lemma IdentifierBoundaries(c: char)
    ensures PlainIdentifier(LETTERS_AND_DIGITS) && !PlainIdentifier([])
    ensures c in BESIDE_THEM ==> !PlainIdentifier([c]) && !PlainIdentifier(['A', c])
    ensures c == '0' || c == '9' ==> !PlainIdentifier([c])
  {
    assert ['A', c][1] == c && c in ['A', c];
  }

  /** The token looked for is the name after the last double colon of a qualified name, without space around it. */
  lemma LeafOfQualified(prefix: string, front: string, leaf: string, back: string)
    requires PlainIdentifier(leaf) && (prefix != [] ==> prefix[|prefix| - 1] != ':')
    requires AllSpace(front) && AllSpace(back)
    ensures LeafOf(prefix + [':', ':'] + (front + leaf + back)) == leaf && LeafOf(front + leaf + back) == leaf
  {
    var name := front + leaf + back;
    assert ':' !in leaf;
    LastPartQualified(prefix, name, 0);
    LastPartPlain(name, 0);
    assert leaf[0] in leaf && leaf[|leaf| - 1] in leaf;
    TrimTakesSpaceOff(front, leaf, back);
  }

  /** Not readable is not invalid: a directory is refused, a file that cannot be read is only unverified. */
  lemma UnreadIsNeverAdmitted(cfg: Config, env: Env, s: State, o: Offer)
    requires Document(env, o).Some? && RequestOf(env, o).key !in s.documents && |s.documents| < cfg.maxDocuments
    requires !Preflighted(cfg, RequestOf(env, o), s.retainedBytes)
    ensures RequestOf(env, o).content.IsDirectory? ==>
              FateOf(cfg, env, s, o).lane == Refused && FateOf(cfg, env, s, o).why == Some(Directory)
    ensures RequestOf(env, o).content.Unreadable? ==>
              FateOf(cfg, env, s, o).lane == Unverified && FateOf(cfg, env, s, o).why == Some(StatusUnavailable)
  {
  }

  // ----- the validator -----

  method AdmitLocations(snapshot: Snapshot, env: Env, offers: seq<Offer>) returns (lists: Lists)
    modifies snapshot
    ensures snapshot.Current() == Later(snapshot.cfg, env, old(snapshot.Current()), offers, |offers|)
    ensures lists == Sorted(offers, Fates(snapshot.cfg, env, old(snapshot.Current()), offers), |offers|)
  {
    ghost var start := snapshot.Current();
    ghost var fates := Fates(snapshot.cfg, env, start, offers);
    lists := Lists([], [], [], []);
    for i := 0 to |offers|
      invariant snapshot.Current() == Later(snapshot.cfg, env, start, offers, i)
      invariant lists == Sorted(offers, fates, i)
    {
      var f := AdmitNext(snapshot, env, offers, i, start);
      lists := Place(lists, offers[i].location, f);
    }
  }

  /** The next location of a collection that began at `start`. */
  method AdmitNext(snapshot: Snapshot, env: Env, offers: seq<Offer>, i: nat, ghost start: State) returns (f: Fate)
    requires i < |offers| && snapshot.Current() == Later(snapshot.cfg, env, start, offers, i)
    modifies snapshot
    ensures snapshot.Current() == Later(snapshot.cfg, env, start, offers, i + 1)
    ensures f == Fates(snapshot.cfg, env, start, offers)[i]
  {
    f := AdmitLocation(snapshot, env, offers[i]);
  }

  method Place(lists: Lists, l: Location, f: Fate) returns (r: Lists)
    ensures r == Push(lists, l, f)
  {
    match f.lane
    case Admitted => return lists.(admitted := lists.admitted + [l]);
    case Refused => return lists.(refused := lists.refused + [f]);
    case Unverified => return lists.(unavailable := lists.unavailable + [f]);
    case Skipped => return lists.(scopeSkipped := lists.scopeSkipped + [f]);
  }

  /** Structure first, scope second, and only then the one read. */
  method AdmitLocation(snapshot: Snapshot, env: Env, o: Offer) returns (f: Fate)
    modifies snapshot
    ensures snapshot.Current() == StateAfter(snapshot.cfg, env, old(snapshot.Current()), o)
    ensures f == FateOf(snapshot.cfg, env, old(snapshot.Current()), o)
  {
    DecodedIsOrdered(o.location);
    match DecodeLocation(o.location)
    case Undecoded(why, from) => return Fate(Refused, from, Some(why), None);
    case Decoded(uri, range) =>
      match env.policy(uri)
      case Some(policy) => return Fate(Skipped, Some(uri), Some(OutOfScope(policy)), None);
      case None =>
        match env.pathOf(uri)
        case None => return Fate(Refused, Some(uri), Some(NotAFileUri), None);
        case Some(path) =>
          var a := snapshot.Read(o.disk, path);
          return DocumentVerdict(uri, range, o.token, a);
  }
}
