/** JavaScript string operations the models share: splitting, joining, trimming, slashes. */
module Strings {
  import opened Prelude

  /** `s.split(sep)` for a one-character separator. */
  function Split(s: string, sep: char): (parts: seq<string>)
    ensures parts != []
  {
    if s == [] then [[]]
    else
      var rest := Split(s[1..], sep);
      if s[0] == sep then [[]] + rest else Grown(s[0], rest)
  }

  /** The parts with one more character in front of the first. */
  function Grown(c: char, parts: seq<string>): (r: seq<string>)
    requires parts != []
    ensures |r| == |parts| && r[0] == [c] + parts[0] && r[1..] == parts[1..]
  {
    [[c] + parts[0]] + parts[1..]
  }

  lemma GrownAppend(c: char, x: seq<string>, y: seq<string>)
    requires x != []
    ensures Grown(c, x + y) == Grown(c, x) + y
  {
  }

  /** `parts.join(sep)`. */
  function Join(parts: seq<string>, sep: char): string {
    if parts == [] then [] else if |parts| == 1 then parts[0] else parts[0] + [sep] + Join(parts[1..], sep)
  }

  lemma SplitFront(c: char, rest: string, sep: char)
    ensures Split([c] + rest, sep) == if c == sep then [[]] + Split(rest, sep) else Grown(c, Split(rest, sep))
  {
    assert ([c] + rest)[1..] == rest;
  }

  /** One more character in front changes the first part only. */
  lemma SplitGrows(c: char, x: seq<string>, y: seq<string>, sep: char)
    requires x != []
    ensures (if c == sep then [[]] + (x + y) else Grown(c, x + y)) == (if c == sep then [[]] + x else Grown(c, x)) + y
  {
    if c == sep {
      Associative([[]], x, y);
    } else {
      GrownAppend(c, x, y);
    }
  }

  lemma {:induction false} SplitAppend(a: string, b: string, sep: char)
    ensures Split(a + [sep] + b, sep) == Split(a, sep) + Split(b, sep)
  {
    if a == [] {
      assert [] + [sep] == [sep];
      SplitFront(sep, b, sep);
    } else {
      var c, rest := a[0], a[1..];
      SplitAppend(rest, b, sep);
      HeadOut(c, rest, [sep], b);
      assert a == [c] + rest;
      SplitFront(c, rest + [sep] + b, sep);
      SplitFront(c, rest, sep);
      SplitGrows(c, Split(rest, sep), Split(b, sep), sep);
    }
  }

  lemma HeadOut(c: char, rest: string, x: string, y: string)
    ensures [c] + rest + x + y == [c] + (rest + x + y)
  {
  }

  lemma {:induction false} SplitWhole(s: string, sep: char)
    requires sep !in s
    ensures Split(s, sep) == [s]
  {
    if s != [] {
      assert s[0] in s && forall c :: c in s[1..] ==> c in s;
      SplitWhole(s[1..], sep);
      assert [s[0]] + s[1..] == s;
    }
  }

  lemma {:induction false} SplitParts(s: string, sep: char)
    ensures forall p :: p in Split(s, sep) ==> sep !in p
  {
    if s != [] {
      SplitParts(s[1..], sep);
      var rest := Split(s[1..], sep);
      assert rest[0] in rest && forall p :: p in rest[1..] ==> p in rest;
    }
  }

  lemma JoinFront(c: char, parts: seq<string>, sep: char)
    requires parts != []
    ensures Join([[]] + parts, sep) == [sep] + Join(parts, sep)
    ensures Join(Grown(c, parts), sep) == [c] + Join(parts, sep)
  {
    assert ([[]] + parts)[1..] == parts;
  }

  lemma {:induction false} JoinSplit(s: string, sep: char)
    ensures Join(Split(s, sep), sep) == s
  {
    if s != [] {
      JoinSplit(s[1..], sep);
      JoinFront(s[0], Split(s[1..], sep), sep);
    }
  }

  lemma SplitInjective(a: string, b: string, sep: char)
    requires Split(a, sep) == Split(b, sep)
    ensures a == b
  {
    JoinSplit(a, sep);
    JoinSplit(b, sep);
  }

  lemma {:induction false} SplitJoin(parts: seq<string>, sep: char)
    requires parts != [] && forall p :: p in parts ==> sep !in p
    ensures Split(Join(parts, sep), sep) == parts
  {
    assert parts[0] in parts;
    SplitWhole(parts[0], sep);
    if |parts| > 1 {
      assert forall p :: p in parts[1..] ==> p in parts;
      SplitJoin(parts[1..], sep);
      SplitAppend(parts[0], Join(parts[1..], sep), sep);
    }
  }

  lemma SliceOfSlice(s: string, p: nat, e: nat, a: nat, b: nat)
    requires p <= e <= |s| && a <= b <= e - p
    ensures s[p..e][a..b] == s[p + a..p + b]
  {
    forall m | 0 <= m < b - a ensures s[p..e][a..b][m] == s[p + a..p + b][m] {
    }
  }

  /** `s.replace(/\\/g, '/')`. */
  function Slashed(s: string): (r: string)
    ensures |r| == |s| && '\\' !in r
    ensures '\\' !in s ==> r == s
    ensures forall i :: 0 <= i < |s| ==>
              (r[i] == '/' <==> s[i] == '/' || s[i] == '\\') && (r[i] != '/' ==> r[i] == s[i])
  {
    seq(|s|, i requires 0 <= i < |s| => if s[i] == '\\' then '/' else s[i])
  }

  /** White space and line terminators, as `trim` removes them. */
  predicate IsSpace(c: char) {
    var u := c as int;
    0x09 <= u <= 0x0D || u == 0x20 || u == 0xA0 || u == 0x1680 || 0x2000 <= u <= 0x200A || u == 0x2028 || u == 0x2029
    || u == 0x202F || u == 0x205F || u == 0x3000 || u == 0xFEFF
  }

  function Trim(s: string): string {
    if s == [] then s
    else if IsSpace(s[0]) then Trim(s[1..])
    else if IsSpace(s[|s| - 1]) then Trim(s[..|s| - 1])
    else s
  }

  predicate AllSpace(s: string) {
    forall c :: c in s ==> IsSpace(c)
  }

  /** Trimming takes the white space off both ends and nothing else. */
  lemma {:induction false} TrimTakesSpaceOff(front: string, s: string, back: string)
    requires AllSpace(front) && AllSpace(back)
    requires s != [] && !IsSpace(s[0]) && !IsSpace(s[|s| - 1])
    ensures Trim(front + s + back) == s
    decreases |front| + |back|
  {
    var all := front + s + back;
    if front != [] {
      assert all[0] == front[0] && all[1..] == front[1..] + s + back;
      TrimTakesSpaceOff(front[1..], s, back);
    } else if back != [] {
      assert all[0] == s[0] && all[|all| - 1] == back[|back| - 1];
      assert all[..|all| - 1] == front + s + back[..|back| - 1];
      TrimTakesSpaceOff(front, s, back[..|back| - 1]);
    } else {
      assert all == s;
    }
  }
}
