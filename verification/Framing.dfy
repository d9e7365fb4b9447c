/**
  The base protocol of the Language Server Protocol 3.17 ("Header Part"): a byte stream of
  frames, each a header ending in an empty line and a body of `Content-Length` bytes.
 */
module Framing {
  import opened Prelude

  type byte = x: int | 0 <= x < 256

  type Bytes = seq<byte>

  const CR: byte := 13
  const LF: byte := 10
  const SPACE: byte := 32
  const SEPARATOR: Bytes := [CR, LF, CR, LF]

  // ----- the separator -----

  predicate SeparatorAt(b: Bytes, i: int) {
    0 <= i && i + 4 <= |b| && b[i] == CR && b[i + 1] == LF && b[i + 2] == CR && b[i + 3] == LF
  }

  /** The first occurrence of the separator. */
  function HeaderEnd(b: Bytes): (r: Option<nat>)
    ensures r.Some? ==> SeparatorAt(b, r.value) && forall j :: j < r.value ==> !SeparatorAt(b, j)
    ensures r.None? ==> forall j :: !SeparatorAt(b, j)
  {
    if SeparatorAt(b, 0) then Some(0)
    else if b == [] then None
    else
      var r := HeaderEnd(b[1..]);
      assert forall j :: j > 0 ==> SeparatorAt(b, j) == SeparatorAt(b[1..], j - 1);
      if r.Some? then Some(r.value + 1) else None
  }

  // ----- /Content-Length:\s*(\d+)/i -----

  predicate IsDigit(c: byte) {
    48 <= c <= 57
  }

  function LowerCase(c: byte): byte {
    if 65 <= c <= 90 then c + 32 else c
  }

  /** "content-length:" */
  const FIELD: Bytes := [99, 111, 110, 116, 101, 110, 116, 45, 108, 101, 110, 103, 116, 104, 58]

  predicate FieldAt(h: Bytes, p: nat) {
    p + |FIELD| <= |h| && forall i :: 0 <= i < |FIELD| ==> LowerCase(h[p + i]) == FIELD[i]
  }

  /** The bytes taken by the white space character at `q`, in UTF-8; 0 when there is none. */
  function SpaceWidth(h: Bytes, q: nat): (w: nat)
    requires q < |h|
    ensures q + w <= |h|
  {
    if 9 <= h[q] <= 13 || h[q] == SPACE then 1
    else if q + 2 <= |h| && h[q..q + 2] == [0xC2, 0xA0] then 2
    else if q + 3 <= |h| && WideSpace(h[q], h[q + 1], h[q + 2]) then 3
    else 0
  }

  predicate WideSpace(a: byte, b: byte, c: byte) {
    || (a, b, c) == (0xE1, 0x9A, 0x80)
    || (a == 0xE2 && b == 0x80 && (0x80 <= c <= 0x8A || c in {0xA8, 0xA9, 0xAF}))
    || (a, b, c) == (0xE2, 0x81, 0x9F)
    || (a, b, c) == (0xE3, 0x80, 0x80)
    || (a, b, c) == (0xEF, 0xBB, 0xBF)
  }

  function SkipSpace(h: Bytes, q: nat): (r: nat)
    requires q <= |h|
    ensures q <= r <= |h|
    decreases |h| - q
  {
    if q == |h| || SpaceWidth(h, q) == 0 then q else SkipSpace(h, q + SpaceWidth(h, q))
  }

  function SkipDigits(h: Bytes, q: nat): (r: nat)
    requires q <= |h|
    ensures q <= r <= |h| && forall i :: q <= i < r ==> IsDigit(h[i])
    decreases |h| - q
  {
    if q == |h| || !IsDigit(h[q]) then q else SkipDigits(h, q + 1)
  }

  /** The decimal number a run of digits denotes. */
  function Value(d: Bytes): nat
    requires forall c :: c in d ==> IsDigit(c)
  {
    if d == [] then 0
    else
      assert IsDigit(d[|d| - 1]);
      var last: int := d[|d| - 1];
      10 * Value(d[..|d| - 1]) + last - 48
  }

  function LengthAt(h: Bytes, p: nat): Option<nat> {
    if !FieldAt(h, p) then None
    else
      var q := SkipSpace(h, p + |FIELD|);
      var e := SkipDigits(h, q);
      if e > q then Some(Value(h[q..e])) else None
  }

  /** The first match of the pattern anywhere in the header, as the number it captured. */
  function ContentLength(h: Bytes, from: nat := 0): Option<nat>
    decreases |h| - from
  {
    if LengthAt(h, from).Some? then LengthAt(h, from)
    else if from >= |h| then None
    else ContentLength(h, from + 1)
  }

  // ----- decoding -----

  datatype Decoded =
    | NeedMore
    | Skipped(rest: Bytes)
    | Framed(body: Bytes, rest: Bytes)

  /** What follows once the header of the next frame is known to end at `end`. */
  function DecodeAt(buffer: Bytes, end: nat): (r: Decoded)
    requires end + 4 <= |buffer|
    ensures !r.NeedMore? ==> |r.rest| < |buffer|
  {
    var body := end + 4;
    var len := ContentLength(buffer[..end]);
    if len.None? then Skipped(buffer[body..])
    else if |buffer| < body + len.value then NeedMore
    else Framed(buffer[body..body + len.value], buffer[body + len.value..])
  }

  /** One turn of the client's parse loop. */
  function DecodeOne(buffer: Bytes): (r: Decoded)
    ensures !r.NeedMore? ==> |r.rest| < |buffer|
  {
    var end := HeaderEnd(buffer);
    if end.None? then NeedMore else DecodeAt(buffer, end.value)
  }

  datatype Drained = Drained(bodies: seq<Bytes>, rest: Bytes)

  /** Everything a buffer yields before more bytes are needed. */
  function Drain(buffer: Bytes): Drained
    decreases |buffer|
  {
    match DecodeOne(buffer)
    case NeedMore => Drained([], buffer)
    case Skipped(rest) => Drain(rest)
    case Framed(body, rest) =>
      var more := Drain(rest);
      Drained([body] + more.bodies, more.rest)
  }

  /** The client's view of a stream that arrives in chunks: append, then drain, chunk by chunk. */
  function Feed(buffer: Bytes, chunks: seq<Bytes>): Drained
    decreases |chunks|
  {
    if chunks == [] then Drained([], buffer)
    else
      var first := Drain(buffer + chunks[0]);
      var more := Feed(first.rest, chunks[1..]);
      Drained(first.bodies + more.bodies, more.rest)
  }

  function Concat(chunks: seq<Bytes>): Bytes {
    if chunks == [] then [] else chunks[0] + Concat(chunks[1..])
  }

  // ----- chunking does not matter -----

  /** A decision already taken on a buffer is not changed by the bytes that follow it. */
  lemma DecodeOneExtends(a: Bytes, b: Bytes)
    requires !DecodeOne(a).NeedMore?
    ensures DecodeOne(a).Skipped? ==> DecodeOne(a + b) == Skipped(DecodeOne(a).rest + b)
    ensures DecodeOne(a).Framed? ==> DecodeOne(a + b) == Framed(DecodeOne(a).body, DecodeOne(a).rest + b)
  {
    HeaderEndExtends(a, b);
    DecodeAtExtends(a, b, HeaderEnd(a).value);
  }

  lemma DecodeAtExtends(a: Bytes, b: Bytes, end: nat)
    requires end + 4 <= |a| && !DecodeAt(a, end).NeedMore?
    ensures var r := DecodeAt(a, end);
            DecodeAt(a + b, end) == if r.Skipped? then Skipped(r.rest + b) else Framed(r.body, r.rest + b)
  {
    CutExtends(a, b, 0, end);
    CutExtends(a, b, end + 4, end + 4);
    var len := ContentLength(a[..end]);
    if len.Some? {
      CutExtends(a, b, end + 4, end + 4 + len.value);
    }
  }

  lemma CutExtends(a: Bytes, b: Bytes, i: nat, j: nat)
    requires i <= j <= |a|
    ensures (a + b)[i..j] == a[i..j] && (a + b)[j..] == a[j..] + b
  {
  }

  lemma HeaderEndExtends(a: Bytes, b: Bytes)
    requires HeaderEnd(a).Some?
    ensures HeaderEnd(a + b) == HeaderEnd(a)
  {
    var e := HeaderEnd(a).value;
    assert forall j :: j <= e ==> SeparatorAt(a + b, j) == SeparatorAt(a, j);
  }

  /** What has been drained so far, and then `b` after the bytes that are left. */
  function Continue(first: Drained, b: Bytes): Drained {
    var second := Drain(first.rest + b);
    Drained(first.bodies + second.bodies, second.rest)
  }

  /** Draining `a`, appending `b` and draining again. */
  function DrainTwice(a: Bytes, b: Bytes): Drained {
    Continue(Drain(a), b)
  }

  lemma ContinueFramed(body: Bytes, first: Drained, b: Bytes)
    ensures Continue(Drained([body] + first.bodies, first.rest), b)
            == Drained([body] + Continue(first, b).bodies, Continue(first, b).rest)
  {
    Associative([body], first.bodies, Drain(first.rest + b).bodies);
  }

  lemma DrainFramed(a: Bytes, body: Bytes, rest: Bytes)
    requires DecodeOne(a) == Framed(body, rest)
    ensures Drain(a) == Drained([body] + Drain(rest).bodies, Drain(rest).rest)
  {
  }

  lemma DrainSkipped(a: Bytes, rest: Bytes)
    requires DecodeOne(a) == Skipped(rest)
    ensures Drain(a) == Drain(rest)
  {
  }

  lemma {:induction false} DrainExtends(a: Bytes, b: Bytes)
    ensures Drain(a + b) == DrainTwice(a, b)
    decreases |a|
  {
    match DecodeOne(a)
    case NeedMore =>
      assert [] + Drain(a + b).bodies == Drain(a + b).bodies;
    case Skipped(rest) =>
      DecodeOneExtends(a, b);
      DrainSkipped(a, rest);
      DrainSkipped(a + b, rest + b);
      DrainExtends(rest, b);
    case Framed(body, rest) =>
      DecodeOneExtends(a, b);
      DrainFramed(a, body, rest);
      DrainFramed(a + b, body, rest + b);
      DrainExtends(rest, b);
      ContinueFramed(body, Drain(rest), b);
  }

  /** The residual buffer never holds a complete frame. */
  lemma {:induction false} DrainLeavesResidue(a: Bytes)
    ensures DecodeOne(Drain(a).rest).NeedMore?
    decreases |a|
  {
    if !DecodeOne(a).NeedMore? {
      DrainLeavesResidue(DecodeOne(a).rest);
    }
  }

  /** However a stream is cut into chunks, the same bodies are handled and the same bytes are left. */
  lemma {:induction false} ChunkingIsIrrelevant(buffer: Bytes, chunks: seq<Bytes>)
    requires DecodeOne(buffer).NeedMore?
    ensures Feed(buffer, chunks) == Drain(buffer + Concat(chunks))
    decreases |chunks|
  {
    if chunks == [] {
      assert buffer + [] == buffer;
    } else {
      var first := Drain(buffer + chunks[0]);
      DrainLeavesResidue(buffer + chunks[0]);
      ChunkingIsIrrelevant(first.rest, chunks[1..]);
      OneMoreChunk(buffer, chunks[0], Concat(chunks[1..]));
    }
  }

  lemma OneMoreChunk(buffer: Bytes, chunk: Bytes, tail: Bytes)
    ensures Drain(buffer + (chunk + tail)) == DrainTwice(buffer + chunk, tail)
  {
    assert buffer + (chunk + tail) == (buffer + chunk) + tail;
    DrainExtends(buffer + chunk, tail);
  }

  // ----- encoding, and what the other end decodes -----

  /** "Content-Length: " */
  const PREFIX: Bytes := [67, 111, 110, 116, 101, 110, 116, 45, 76, 101, 110, 103, 116, 104, 58, 32]

  function Decimal(n: nat): (d: Bytes)
    ensures |d| > 0 && forall c :: c in d ==> IsDigit(c)
  {
    if n < 10 then [48 + n] else Decimal(n / 10) + [48 + n % 10]
  }

  function Header(n: nat): Bytes {
    PREFIX + Decimal(n)
  }

  /** What the client writes for one message. */
  function Encode(body: Bytes): Bytes {
    Header(|body|) + SEPARATOR + body
  }

  function EncodeAll(bodies: seq<Bytes>): Bytes {
    if bodies == [] then [] else Encode(bodies[0]) + EncodeAll(bodies[1..])
  }

  lemma {:induction false} ValueOfDecimal(n: nat)
    ensures Value(Decimal(n)) == n
  {
    if n >= 10 {
      ValueOfDecimal(n / 10);
      assert Decimal(n)[..|Decimal(n)| - 1] == Decimal(n / 10);
    } else {
      assert Value([48 + n][..0]) == 0;
    }
  }

  lemma {:induction false} SkipAllDigits(h: Bytes, q: nat)
    requires q <= |h| && forall i :: q <= i < |h| ==> IsDigit(h[i])
    ensures SkipDigits(h, q) == |h|
    decreases |h| - q
  {
    if q < |h| {
      SkipAllDigits(h, q + 1);
    }
  }

  lemma HeaderBytes(n: nat)
    ensures var h := Header(n);
            && |h| == 16 + |Decimal(n)| && h[16..] == Decimal(n)
            && (forall i :: 0 <= i < 16 ==> h[i] == PREFIX[i])
            && (forall i :: 16 <= i < |h| ==> IsDigit(h[i]))
  {
    var h := Header(n);
    forall i | 16 <= i < |h| ensures IsDigit(h[i]) {
      assert h[i] == Decimal(n)[i - 16];
    }
  }

  lemma HeaderField(h: Bytes)
    requires |h| > 16 && IsDigit(h[16]) && forall i :: 0 <= i < 16 ==> h[i] == PREFIX[i]
    ensures FieldAt(h, 0) && SkipSpace(h, |FIELD|) == 16
  {
    assert SpaceWidth(h, 16) == 0;
    assert SpaceWidth(h, 15) == 1;
  }

  lemma HeaderRoundTrip(n: nat)
    ensures ContentLength(Header(n)) == Some(n)
  {
    var h := Header(n);
    HeaderBytes(n);
    HeaderField(h);
    SkipAllDigits(h, 16);
    assert h[16..|h|] == Decimal(n);
    ValueOfDecimal(n);
    assert LengthAt(h, 0) == Some(n);
  }

  lemma NoReturnInHeader(n: nat)
    ensures forall i :: 0 <= i < |Header(n)| ==> Header(n)[i] != CR
  {
    var h := Header(n);
    forall i | 0 <= i < |h| ensures h[i] != CR {
      if i >= |PREFIX| {
        assert h[i] == Decimal(n)[i - |PREFIX|] && h[i] in Decimal(n);
      }
    }
  }

  lemma FirstSeparator(b: Bytes, e: nat)
    requires SeparatorAt(b, e) && forall j :: 0 <= j < e ==> b[j] != CR
    ensures HeaderEnd(b) == Some(e)
  {
    assert forall j :: j < e ==> !SeparatorAt(b, j);
  }

  lemma DecodeEncoded(body: Bytes, rest: Bytes)
    ensures DecodeOne(Encode(body) + rest) == Framed(body, rest)
  {
    var b := Encode(body) + rest;
    var h := Header(|body|);
    var e := |h|;
    assert b == h + (SEPARATOR + body + rest);
    NoReturnInHeader(|body|);
    forall i | 0 <= i < e ensures b[i] != CR {
      assert b[i] == h[i];
    }
    assert b[e..e + 4] == SEPARATOR;
    assert b[e..e + 4][0] == CR && b[e..e + 4][1] == LF && b[e..e + 4][2] == CR && b[e..e + 4][3] == LF;
    assert SeparatorAt(b, e);
    FirstSeparator(b, e);
    assert b[..e] == h;
    HeaderRoundTrip(|body|);
    assert b[e + 4..e + 4 + |body|] == body;
    assert b[e + 4 + |body|..] == rest;
  }

  lemma DrainOneEncoded(body: Bytes, rest: Bytes)
    ensures Drain(Encode(body) + rest) == Drained([body] + Drain(rest).bodies, Drain(rest).rest)
  {
    DecodeEncoded(body, rest);
  }

  lemma {:induction false} DrainEncoded(bodies: seq<Bytes>)
    ensures Drain(EncodeAll(bodies)) == Drained(bodies, [])
  {
    if bodies != [] {
      DrainOneEncoded(bodies[0], EncodeAll(bodies[1..]));
      DrainEncoded(bodies[1..]);
      assert [bodies[0]] + bodies[1..] == bodies;
    }
  }

  /** Frames written by one end are recovered by the other exactly and in order, however the bytes are cut. */
  lemma FramesRoundTrip(bodies: seq<Bytes>, chunks: seq<Bytes>)
    requires Concat(chunks) == EncodeAll(bodies)
    ensures Feed([], chunks) == Drained(bodies, [])
  {
    ChunkingIsIrrelevant([], chunks);
    DrainEncoded(bodies);
    assert [] + Concat(chunks) == EncodeAll(bodies);
  }

  // ----- the bytes themselves -----

  predicate Ascii(s: string) {
    forall c :: c in s ==> c as int < 128
  }

  /** The bytes of a text of ASCII characters. */
  function BytesOf(s: string): (b: Bytes)
    requires Ascii(s)
    ensures |b| == |s| && forall i :: 0 <= i < |s| ==> b[i] == s[i] as int
  {
    if s == [] then []
    else
      assert s[0] in s && forall c :: c in s[1..] ==> c in s;
      [s[0] as int] + BytesOf(s[1..])
  }

  const WRITTEN_FIELD: string := "Content-Length: "
  const BLANK_LINE: string := "\r\n\r\n"

  lemma FieldIsSpelled()
    ensures Ascii(WRITTEN_FIELD) && BytesOf(WRITTEN_FIELD) == PREFIX
  {
    assert WRITTEN_FIELD
        == ['C', 'o', 'n', 't', 'e', 'n', 't', '-', 'L', 'e', 'n', 'g', 't', 'h', ':', ' '];
    SameBytes(WRITTEN_FIELD, PREFIX);
  }

  lemma BlankLineIsSpelled()
    ensures Ascii(BLANK_LINE) && BytesOf(BLANK_LINE) == SEPARATOR
  {
    assert BLANK_LINE == ['\r', '\n', '\r', '\n'];
    SameBytes(BLANK_LINE, SEPARATOR);
  }

  lemma SameBytes(s: string, b: Bytes)
    requires |s| == |b| && forall i :: 0 <= i < |s| ==> s[i] as int == b[i] < 128
    ensures Ascii(s) && BytesOf(s) == b
  {
  }

  /** A frame is written as the protocol spells it, its length without leading zeros. */
  lemma EncodeIsSpelled(body: Bytes)
    ensures Ascii(WRITTEN_FIELD) && Ascii(BLANK_LINE)
    ensures Encode(body) == BytesOf(WRITTEN_FIELD) + Decimal(|body|) + BytesOf(BLANK_LINE) + body
    ensures |body| > 0 ==> Decimal(|body|)[0] != '0' as int
  {
    FieldIsSpelled();
    BlankLineIsSpelled();
    if |body| > 0 {
      NoLeadingZero(|body|);
    }
  }

  lemma {:induction false} NoLeadingZero(n: nat)
    requires n > 0
    ensures Decimal(n)[0] != 48
  {
    if n >= 10 {
      NoLeadingZero(n / 10);
    }
  }

  // ----- headers with other fields -----

  /** The field's name and colon, in letters of either case. */
  predicate NamesField(name: Bytes) {
    |name| == |FIELD|
    && forall i :: 0 <= i < |FIELD| ==> name[i] == FIELD[i] || (97 <= FIELD[i] <= 122 && name[i] == FIELD[i] - 32)
  }

  predicate Blanks(spaces: Bytes) {
    forall c :: c in spaces ==> 9 <= c <= 13 || c == SPACE
  }

  predicate Digits(digits: Bytes) {
    digits != [] && forall c :: c in digits ==> IsDigit(c)
  }

  /** Nothing more of the number follows. */
  predicate EndsNumber(rest: Bytes) {
    rest != [] ==> !IsDigit(rest[0])
  }

  /** Fields before the one that counts: each on its own line, and none of them of its name. */
  predicate OtherFields(before: Bytes) {
    (before != [] ==> before[|before| - 1] == LF) && forall p :: 0 <= p < |before| ==> !FieldAt(before, p)
  }

  lemma {:induction false} SkipBlanks(h: Bytes, q: nat, e: nat)
    requires q <= e < |h| && IsDigit(h[e]) && forall i :: q <= i < e ==> 9 <= h[i] <= 13 || h[i] == SPACE
    ensures SkipSpace(h, q) == e
    decreases e - q
  {
    if q < e {
      SkipBlanks(h, q + 1, e);
      assert SpaceWidth(h, q) == 1;
    } else {
      DigitIsNoSpace(h, e);
    }
  }

  lemma DigitIsNoSpace(h: Bytes, q: nat)
    requires q < |h| && IsDigit(h[q])
    ensures SpaceWidth(h, q) == 0
  {
    if q + 2 <= |h| {
      assert h[q..q + 2][0] == h[q];
    }
  }

  lemma {:induction false} SkipDigitsTo(h: Bytes, q: nat, e: nat)
    requires q <= e <= |h| && (forall i :: q <= i < e ==> IsDigit(h[i])) && (e < |h| ==> !IsDigit(h[e]))
    ensures SkipDigits(h, q) == e
    decreases e - q
  {
    if q < e {
      SkipDigitsTo(h, q + 1, e);
    }
  }

  lemma LineFeedBreaksField(h: Bytes, p: nat, i: nat)
    requires i < |FIELD| && p + i < |h| && h[p + i] == LF
    ensures !FieldAt(h, p)
  {
    assert (forall c :: c in FIELD ==> c >= 45) && FIELD[i] in FIELD;
  }

  lemma FieldInside(h: Bytes, before: Bytes, rest: Bytes, p: nat)
    requires h == before + rest && p + |FIELD| <= |before| && FieldAt(h, p)
    ensures FieldAt(before, p)
  {
    forall i | 0 <= i < |FIELD| ensures LowerCase(before[p + i]) == FIELD[i] {
      assert h[p + i] == before[p + i];
    }
  }

  /** The field does not begin among the fields before it: it holds no line feed. */
  lemma NotBefore(h: Bytes, before: Bytes, rest: Bytes, p: nat)
    requires h == before + rest && OtherFields(before) && p < |before|
    ensures !FieldAt(h, p)
  {
    if p + |FIELD| > |before| {
      LineFeedBreaksField(h, p, |before| - 1 - p);
    } else if FieldAt(h, p) {
      FieldInside(h, before, rest, p);
    }
  }

  lemma ContentLengthNext(h: Bytes, from: nat)
    requires from < |h| && !FieldAt(h, from)
    ensures ContentLength(h, from) == ContentLength(h, from + 1)
  {
  }

  lemma {:induction false} SameAllAlong(f: nat -> Option<nat>, at: nat)
    requires forall p: nat :: p < at ==> f(p) == f(p + 1)
    ensures f(0) == f(at)
  {
    if at > 0 {
      SameAllAlong(f, at - 1);
      assert f(at - 1) == f(at - 1 + 1);
    }
  }

  /** Where no field begins among the fields before, the search for it goes on behind them. */
  lemma SkipsFields(h: Bytes, before: Bytes, rest: Bytes)
    requires h == before + rest && OtherFields(before)
    ensures ContentLength(h, 0) == ContentLength(h, |before|)
  {
    var f := (p: nat) => ContentLength(h, p);
    forall p: nat | p < |before| ensures f(p) == f(p + 1) {
      NotBefore(h, before, rest, p);
      ContentLengthNext(h, p);
    }
    SameAllAlong(f, |before|);
  }

  /** The field as it stands at `p`: its name, blanks, and the digits up to `e`. */
  predicate Stands(h: Bytes, p: nat, q: nat, e: nat) {
    && FieldAt(h, p) && p + |FIELD| <= q < e <= |h|
    && (forall i :: p + |FIELD| <= i < q ==> 9 <= h[i] <= 13 || h[i] == SPACE)
    && (forall i :: q <= i < e ==> IsDigit(h[i])) && (e < |h| ==> !IsDigit(h[e]))
  }

  lemma LengthStands(h: Bytes, p: nat, q: nat, e: nat)
    requires Stands(h, p, q, e) && forall c :: c in h[q..e] ==> IsDigit(c)
    ensures LengthAt(h, p) == Some(Value(h[q..e]))
  {
    SkipBlanks(h, p + |FIELD|, q);
    SkipDigitsTo(h, q, e);
  }

  lemma FourParts(before: Bytes, name: Bytes, spaces: Bytes, digits: Bytes, after: Bytes, h: Bytes)
    requires h == before + name + spaces + digits + after
    requires NamesField(name) && Blanks(spaces) && Digits(digits) && EndsNumber(after)
    ensures var p := |before|;
            var q := p + |FIELD| + |spaces|;
            Stands(h, p, q, q + |digits|) && h[q..q + |digits|] == digits
  {
    var p := |before|;
    var q := p + |FIELD| + |spaces|;
    var e := q + |digits|;
    forall i | 0 <= i < |FIELD| ensures LowerCase(h[p + i]) == FIELD[i] {
      assert h[p + i] == name[i];
    }
    forall i | p + |FIELD| <= i < q ensures 9 <= h[i] <= 13 || h[i] == SPACE {
      assert h[i] == spaces[i - p - |FIELD|] && h[i] in spaces;
    }
    forall i | q <= i < e ensures IsDigit(h[i]) {
      assert h[i] == digits[i - q] && h[i] in digits;
    }
    assert e < |h| ==> h[e] == after[0];
  }

  /**
    Other fields, the case of the name, blanks before the number and whatever follows it make no
    difference: the length is the number of the first field of that name.
   */
  lemma OtherFieldsDoNotMatter(before: Bytes, name: Bytes, spaces: Bytes, digits: Bytes, after: Bytes)
    requires OtherFields(before) && NamesField(name) && Blanks(spaces) && Digits(digits) && EndsNumber(after)
    ensures ContentLength(before + name + spaces + digits + after) == Some(Value(digits))
  {
    var h := before + name + spaces + digits + after;
    var q := |before| + |FIELD| + |spaces|;
    FourParts(before, name, spaces, digits, after, h);
    LengthStands(h, |before|, q, q + |digits|);
    Regrouped(before, name, spaces, digits, after);
    SkipsFields(h, before, name + spaces + digits + after);
  }

  lemma Regrouped(a: Bytes, b: Bytes, c: Bytes, d: Bytes, e: Bytes)
    ensures a + b + c + d + e == a + (b + c + d + e)
  {
  }

  lemma ThreeParts(a: Bytes, b: Bytes, c: Bytes, all: Bytes)
    requires all == a + b + c
    ensures all[|a|..|a| + |b|] == b && all[|a| + |b|..] == c && all[|a|..] == b + c
  {
  }

  /** Where the header ends is not changed by what follows, and it is all that stands before. */
  lemma HeaderStands(header: Bytes, more: Bytes, all: Bytes)
    requires HeaderEnd(header + SEPARATOR) == Some(|header|) && all == header + SEPARATOR + more
    ensures HeaderEnd(all) == Some(|header|) && all[..|header|] == header
  {
    HeaderEndExtends(header + SEPARATOR, more);
  }

  /** A header whose first blank line is its end and that gives a length decodes to the frame of that length. */
  lemma DecodesByItsLength(header: Bytes, body: Bytes, rest: Bytes)
    requires HeaderEnd(header + SEPARATOR) == Some(|header|)
    ensures var all := header + SEPARATOR + body + rest;
            && (ContentLength(header) == Some(|body|) ==> DecodeOne(all) == Framed(body, rest))
            && (ContentLength(header) == None ==> DecodeOne(all) == Skipped(body + rest))
  {
    var all := header + SEPARATOR + body + rest;
    ThreeParts(header + SEPARATOR, body, rest, all);
    Associative(header + SEPARATOR, body, rest);
    HeaderStands(header, body + rest, all);
  }

  /** Neither a digit nor, as ASCII goes, white space: what cannot be read on as the number. */
  predicate BreaksOff(rest: Bytes) {
    rest != [] ==> rest[0] < 0x80 && !IsDigit(rest[0]) && !(9 <= rest[0] <= 13) && rest[0] != SPACE
  }

  lemma {:induction false} BlanksUpTo(h: Bytes, q: nat, e: nat)
    requires q <= e <= |h| && (forall i :: q <= i < e ==> 9 <= h[i] <= 13 || h[i] == SPACE)
    requires e < |h| ==> SpaceWidth(h, e) == 0
    ensures SkipSpace(h, q) == e
    decreases e - q
  {
    if q < e {
      BlanksUpTo(h, q + 1, e);
      assert SpaceWidth(h, q) == 1;
    }
  }

  /** A field without a number gives no length. */
  lemma WithoutNumberNoLength(before: Bytes, name: Bytes, spaces: Bytes, rest: Bytes)
    requires |name| == |FIELD| && Blanks(spaces) && BreaksOff(rest)
    ensures LengthAt(before + name + spaces + rest, |before|) == None
  {
    var h := before + name + spaces + rest;
    var q := |before| + |FIELD|;
    var e := q + |spaces|;
    forall i | q <= i < e ensures 9 <= h[i] <= 13 || h[i] == SPACE {
      assert h[i] == spaces[i - q] && h[i] in spaces;
    }
    if e < |h| {
      assert h[e] == rest[0];
      assert e + 2 <= |h| ==> h[e..e + 2][0] == h[e];
    }
    BlanksUpTo(h, q, e);
  }

  /** A header that nowhere names the field gives no length. */
  lemma {:induction false} WithoutFieldNoLength(h: Bytes, from: nat)
    requires forall p: nat :: !FieldAt(h, p)
    ensures ContentLength(h, from) == None
    decreases |h| - from
  {
    if from < |h| {
      WithoutFieldNoLength(h, from + 1);
    }
  }
}
