/**
  Which files a tsconfig covers: its globs are turned into the source text of a regular expression,
  and that text means what a direct reading of the glob means.
 */
module TsGlobs {
  import opened Prelude
  import opened Strings

  // ----- regular expressions, as far as the translation uses them -----

  datatype Atom = Dot | NotSlash | Literal(c: char)

  /** An atom, once or as a run of any length. */
  datatype Item = Item(atom: Atom, star: bool)

  /** The syntax characters of a JavaScript pattern, as ECMAScript lists them. */
  const SYNTAX: string := "^$\\.*+?()[]{}|"

  predicate LineTerminator(c: char) {
    c == '\n' || c == '\r' || c == '\U{2028}' || c == '\U{2029}'
  }

  /** What an atom matches when the expression has no flags: a dot matches no line terminator. */
  predicate InClass(a: Atom, c: char) {
    match a
    case Dot => !LineTerminator(c)
    case NotSlash => c != '/'
    case Literal(d) => c == d
  }

  predicate IsRun(a: Atom, s: string) {
    forall c :: c in s ==> InClass(a, c)
  }

  /** The expression matches the whole of `s`. */
  predicate Matches(items: seq<Item>, s: string)
    decreases |items|
  {
    if items == [] then s == []
    else if items[0].star then exists k :: 0 <= k <= |s| && RunThenRest(items, s, k)
    else s != [] && InClass(items[0].atom, s[0]) && Matches(items[1..], s[1..])
  }

  predicate RunThenRest(items: seq<Item>, s: string, k: nat)
    requires items != []
    decreases |items|, 0
  {
    k <= |s| && IsRun(items[0].atom, s[..k]) && Matches(items[1..], s[k..])
  }

  /** Read the expression's source text; `None` where it uses anything else. */
  function ParseAtom(re: string): (r: Option<(Atom, nat)>)
    requires re != []
    ensures r.Some? ==> 1 <= r.value.1 <= |re|
  {
    if re[0] == '\\' then (if |re| > 1 && re[1] in SYNTAX then Some((Literal(re[1]), 2)) else None)
    else if re[0] == '.' then Some((Dot, 1))
    else if re[0] == '[' then
      (if |re| > 3 && re[1] == '^' && re[2] == '/' && re[3] == ']' then Some((NotSlash, 4)) else None)
    else if re[0] in SYNTAX then None
    else Some((Literal(re[0]), 1))
  }

  function ParseItems(re: string): Option<seq<Item>>
    decreases |re|
  {
    if re == [] then Some([])
    else
      match ParseAtom(re)
      case None => None
      case Some((a, n)) =>
        var star := n < |re| && re[n] == '*';
        match ParseItems(re[if star then n + 1 else n..])
        case None => None
        case Some(rest) => Some([Item(a, star)] + rest)
  }

  /** `new RegExp(source).test(s)` for an anchored expression. */
  predicate Test(source: string, s: string) {
    && |source| >= 2 && source[0] == '^' && source[|source| - 1] == '$'
    && var items := ParseItems(source[1..|source| - 1]);
       items.Some? && Matches(items.value, s)
  }

  // ----- the translation -----

  function NoTrailingSlash(s: string): string {
    if s != [] && s[|s| - 1] == '/' then NoTrailingSlash(s[..|s| - 1]) else s
  }

  predicate Alphanumeric(c: char) {
    'a' <= c <= 'z' || 'A' <= c <= 'Z' || '0' <= c <= '9'
  }

  /** The name ends in a dot and one or more letters or digits. */
  predicate HasExtension(s: string) {
    exists i :: 0 <= i < |s| - 1 && s[i] == '.' && forall j :: i < j < |s| ==> Alphanumeric(s[j])
  }

  predicate LooksLikeDir(g: string) {
    '*' !in g && '?' !in g && !HasExtension(g)
  }

  const BELOW: string := ['/', '*', '*', '/', '*']

  function Prepared(glob: string): string {
    var g := NoTrailingSlash(Slashed(glob));
    if LooksLikeDir(g) then g + BELOW else g
  }

  /** The characters the translation puts a backslash before. */
  const SPECIAL: string := ".+^${}()|[]\\"

  function Escape(c: char): string {
    if c in SPECIAL then ['\\', c] else [c]
  }

  predicate StarStar(g: string, i: nat) {
    i + 1 < |g| && g[i] == '*' && g[i + 1] == '*'
  }

  /** Where the pattern goes on after `**`, with a following slash absorbed. */
  function AfterStarStar(g: string, i: nat): (j: nat)
    requires StarStar(g, i)
    ensures i + 2 <= j <= |g|
  {
    if i + 2 < |g| && g[i + 2] == '/' then i + 3 else i + 2
  }

  const DOT_STAR: string := ['.', '*']
  const NOT_SLASH: string := ['[', '^', '/', ']']

  /** The source text for the wildcard or character at `i`. */
  function Piece(g: string, i: nat): (r: string)
    requires i < |g|
    ensures r != [] && r[0] != '*'
  {
    if StarStar(g, i) then DOT_STAR
    else if g[i] == '*' then NOT_SLASH + ['*']
    else if g[i] == '?' then NOT_SLASH
    else Escape(g[i])
  }

  /** Where the pattern goes on after it. */
  function Next(g: string, i: nat): (j: nat)
    requires i < |g|
    ensures i < j <= |g|
  {
    if StarStar(g, i) then AfterStarStar(g, i) else i + 1
  }

  /** The source text for the pattern from position `i` on. */
  function Build(g: string, i: nat): string
    decreases |g| - i
  {
    if i >= |g| then [] else Piece(g, i) + Build(g, Next(g, i))
  }

  function RegExpOf(glob: string): string {
    ['^'] + Build(Prepared(glob), 0) + ['$']
  }

  // ----- the meaning of a glob, read directly -----

  /**
    `*` is a run without slashes, `?` one character that is no slash, `**` a run of anything that
    also absorbs a slash after it. `anything` says whether that run may hold line terminators.
   */
  predicate Accepts(g: string, i: nat, s: string, anything: bool)
    decreases |g| - i, |s|
  {
    if i >= |g| then s == []
    else if StarStar(g, i) then
      || Accepts(g, AfterStarStar(g, i), s, anything)
      || (s != [] && (anything || !LineTerminator(s[0])) && Accepts(g, i, s[1..], anything))
    else if g[i] == '*' then
      Accepts(g, i + 1, s, anything) || (s != [] && s[0] != '/' && Accepts(g, i, s[1..], anything))
    else if g[i] == '?' then s != [] && s[0] != '/' && Accepts(g, i + 1, s[1..], anything)
    else s != [] && s[0] == g[i] && Accepts(g, i + 1, s[1..], anything)
  }

  predicate OneLine(s: string) {
    forall c :: c in s ==> !LineTerminator(c)
  }

  // ----- the text reads back as the pattern -----

  function ItemAt(g: string, i: nat): Item
    requires i < |g|
  {
    if StarStar(g, i) then Item(Dot, true)
    else if g[i] == '*' then Item(NotSlash, true)
    else if g[i] == '?' then Item(NotSlash, false)
    else Item(Literal(g[i]), false)
  }

  function ItemsOf(g: string, i: nat): seq<Item>
    decreases |g| - i
  {
    if i >= |g| then [] else [ItemAt(g, i)] + ItemsOf(g, Next(g, i))
  }

  lemma BuildStartsNoRun(g: string, i: nat)
    ensures StartsNoRun(Build(g, i))
  {
  }

  /** An atom at the front, starred or not, and what follows it. */
  lemma ParseOne(re: string, a: Atom, n: nat, star: bool, rest: string, items: seq<Item>)
    requires re != [] && ParseAtom(re) == Some((a, n)) && star == (n < |re| && re[n] == '*')
    requires rest == re[if star then n + 1 else n..] && ParseItems(rest) == Some(items)
    ensures ParseItems(re) == Some([Item(a, star)] + items)
  {
  }

  predicate StartsNoRun(rest: string) {
    rest != [] ==> rest[0] != '*'
  }

  lemma ReadAnyRun(rest: string, items: seq<Item>)
    requires ParseItems(rest) == Some(items)
    ensures ParseItems(DOT_STAR + rest) == Some([Item(Dot, true)] + items)
  {
    var re := DOT_STAR + rest;
    assert re[2..] == rest;
    ParseOne(re, Dot, 1, true, rest, items);
  }

  lemma ReadNoSlashRun(rest: string, items: seq<Item>)
    requires ParseItems(rest) == Some(items)
    ensures ParseItems(NOT_SLASH + ['*'] + rest) == Some([Item(NotSlash, true)] + items)
  {
    var re := NOT_SLASH + ['*'] + rest;
    assert re[5..] == rest;
    ParseOne(re, NotSlash, 4, true, rest, items);
  }

  lemma ReadNoSlash(rest: string, items: seq<Item>)
    requires ParseItems(rest) == Some(items) && StartsNoRun(rest)
    ensures ParseItems(NOT_SLASH + rest) == Some([Item(NotSlash, false)] + items)
  {
    var re := NOT_SLASH + rest;
    assert re[4..] == rest;
    ParseOne(re, NotSlash, 4, false, rest, items);
  }

  /** All syntax is escaped but the two wildcards, and nothing that is no syntax. */
  lemma SpecialIsSyntax(c: char)
    ensures c in SPECIAL <==> c in SYNTAX && c != '*' && c != '?'
  {
    assert SPECIAL == ['.', '+', '^', '$', '{', '}', '(', ')', '|', '[', ']', '\\'];
    assert SYNTAX == ['^', '$', '\\', '.', '*', '+', '?', '(', ')', '[', ']', '{', '}', '|'];
  }

  lemma ReadEscaped(c: char, rest: string, items: seq<Item>)
    requires ParseItems(rest) == Some(items) && StartsNoRun(rest) && c != '*' && c != '?'
    ensures ParseItems(Escape(c) + rest) == Some([Item(Literal(c), false)] + items)
  {
    SpecialIsSyntax(c);
    var re := Escape(c) + rest;
    assert re[|Escape(c)|..] == rest;
    ParseOne(re, Literal(c), |Escape(c)|, false, rest, items);
  }

  lemma ReadPiece(g: string, i: nat, rest: string, items: seq<Item>)
    requires i < |g| && ParseItems(rest) == Some(items) && StartsNoRun(rest)
    ensures ParseItems(Piece(g, i) + rest) == Some([ItemAt(g, i)] + items)
  {
    if StarStar(g, i) {
      ReadAnyRun(rest, items);
    } else if g[i] == '*' {
      ReadNoSlashRun(rest, items);
    } else if g[i] == '?' {
      ReadNoSlash(rest, items);
    } else {
      ReadEscaped(g[i], rest, items);
    }
  }

  /** The text built for a pattern reads back as the pattern: everything special is escaped. */
  lemma {:induction false} ReadsBack(g: string, i: nat)
    ensures ParseItems(Build(g, i)) == Some(ItemsOf(g, i))
    decreases |g| - i
  {
    if i < |g| {
      ReadsBack(g, Next(g, i));
      BuildStartsNoRun(g, Next(g, i));
      ReadPiece(g, i, Build(g, Next(g, i)), ItemsOf(g, Next(g, i)));
    }
  }

  // ----- a run, one character at a time -----

  lemma RunWitness(items: seq<Item>, s: string) returns (k: nat)
    requires items != [] && items[0].star && Matches(items, s)
    ensures RunThenRest(items, s, k)
  {
    k :| 0 <= k <= |s| && RunThenRest(items, s, k);
  }

  lemma RunStep(items: seq<Item>, s: string)
    requires items != [] && items[0].star
    ensures Matches(items, s)
            <==> Matches(items[1..], s) || (s != [] && InClass(items[0].atom, s[0]) && Matches(items, s[1..]))
  {
    if Matches(items, s) {
      var k := RunWitness(items, s);
      if k == 0 {
        assert s[0..] == s;
      } else {
        assert s[0] in s[..k] && s[k..] == s[1..][k - 1..];
        assert forall c :: c in s[1..][..k - 1] ==> c in s[..k];
        assert RunThenRest(items, s[1..], k - 1);
      }
    }
    if Matches(items[1..], s) {
      assert s[0..] == s;
      assert RunThenRest(items, s, 0);
    }
    if s != [] && InClass(items[0].atom, s[0]) && Matches(items, s[1..]) {
      var k := RunWitness(items, s[1..]);
      assert s[..k + 1] == [s[0]] + s[1..][..k] && s[k + 1..] == s[1..][k..];
      assert RunThenRest(items, s, k + 1);
    }
  }

  lemma {:induction false} MatchesIsAccepts(g: string, i: nat, s: string)
    ensures Matches(ItemsOf(g, i), s) <==> Accepts(g, i, s, false)
    decreases |g| - i, |s|
  {
    if i < |g| {
      var items := ItemsOf(g, i);
      assert items[1..] == ItemsOf(g, Next(g, i));
      if StarStar(g, i) {
        RunStep(items, s);
        MatchesIsAccepts(g, AfterStarStar(g, i), s);
        if s != [] {
          MatchesIsAccepts(g, i, s[1..]);
        }
      } else {
        if g[i] == '*' {
          RunStep(items, s);
          MatchesIsAccepts(g, i + 1, s);
        }
        if s != [] {
          if g[i] == '*' {
            MatchesIsAccepts(g, i, s[1..]);
          } else {
            MatchesIsAccepts(g, i + 1, s[1..]);
          }
        }
      }
    }
  }

  /** For every path, the expression accepts what the glob means, with `**` confined to one line. */
  lemma TranslationKeepsMeaning(glob: string, s: string)
    ensures Test(RegExpOf(glob), s) <==> Accepts(Prepared(glob), 0, s, false)
  {
    var body := Build(Prepared(glob), 0);
    assert RegExpOf(glob)[1..|RegExpOf(glob)| - 1] == body;
    ReadsBack(Prepared(glob), 0);
    MatchesIsAccepts(Prepared(glob), 0, s);
  }

  lemma {:induction false} OneLineIsAnything(g: string, i: nat, s: string)
    requires OneLine(s)
    ensures Accepts(g, i, s, false) == Accepts(g, i, s, true)
    decreases |g| - i, |s|
  {
    if i < |g| {
      assert s != [] ==> s[0] in s && forall c :: c in s[1..] ==> c in s;
      if StarStar(g, i) {
        OneLineIsAnything(g, AfterStarStar(g, i), s);
        if s != [] {
          OneLineIsAnything(g, i, s[1..]);
        }
      } else {
        if g[i] == '*' {
          OneLineIsAnything(g, i + 1, s);
          if s != [] {
            OneLineIsAnything(g, i, s[1..]);
          }
        } else if s != [] {
          OneLineIsAnything(g, i + 1, s[1..]);
        }
      }
    }
  }

  /** For paths without line terminators the expression accepts exactly what the glob means. */
  lemma OneLinePathsMatchExactly(glob: string, s: string)
    requires OneLine(s)
    ensures Test(RegExpOf(glob), s) <==> Accepts(Prepared(glob), 0, s, true)
  {
    TranslationKeepsMeaning(glob, s);
    OneLineIsAnything(Prepared(glob), 0, s);
  }

  const ANYTHING: string := ['*', '*']

  lemma AnythingIsPrepared()
    ensures Prepared(ANYTHING) == ANYTHING
  {
    assert Slashed(ANYTHING) == ANYTHING;
    assert ANYTHING[0] == '*';
  }

  /** Read directly, `**` means every path; confined to one line, only paths of one line. */
  lemma {:induction false} AnythingMeansAll(s: string)
    ensures Accepts(ANYTHING, 0, s, true)
    ensures Accepts(ANYTHING, 0, s, false) <==> OneLine(s)
  {
    if s == [] {
      assert Accepts(ANYTHING, 2, [], true) && Accepts(ANYTHING, 2, [], false);
    } else {
      AnythingMeansAll(s[1..]);
      assert s == [s[0]] + s[1..];
      assert OneLine(s) <==> !LineTerminator(s[0]) && OneLine(s[1..]);
    }
  }

  /** A path of one newline: `**` means it, the expression does not. */
  lemma LineTerminatorsAreLost()
    ensures Accepts(Prepared(ANYTHING), 0, ['\n'], true) && !Test(RegExpOf(ANYTHING), ['\n'])
  {
    AnythingIsPrepared();
    TranslationKeepsMeaning(ANYTHING, ['\n']);
    AnythingMeansAll(['\n']);
    assert '\n' in ['\n'];
  }

  /** Exactly the paths without line terminators are matched by every glob as the glob means. */
  lemma RightForEveryGlobExactlyOnOneLine(s: string)
    ensures (forall glob :: Test(RegExpOf(glob), s) <==> Accepts(Prepared(glob), 0, s, true)) <==> OneLine(s)
  {
    if OneLine(s) {
      forall glob ensures Test(RegExpOf(glob), s) <==> Accepts(Prepared(glob), 0, s, true) {
        OneLinePathsMatchExactly(glob, s);
      }
    } else {
      AnythingIsPrepared();
      TranslationKeepsMeaning(ANYTHING, s);
      AnythingMeansAll(s);
    }
  }

  // ----- directories -----

  lemma {:induction false} LiteralPrefix(g: string, n: nat, i: nat, s: string, anything: bool)
    requires i <= n <= |g| && forall k :: 0 <= k < n ==> g[k] != '*' && g[k] != '?'
    ensures Accepts(g, i, s, anything) <==> g[i..n] <= s && Accepts(g, n, s[n - i..], anything)
    decreases n - i
  {
    if i == n {
      assert g[i..n] == [] && s[0..] == s;
    } else {
      assert g[i..n] == [g[i]] + g[i + 1..n];
      if s != [] && s[0] == g[i] {
        LiteralPrefix(g, n, i + 1, s[1..], anything);
        assert s == [s[0]] + s[1..];
        if g[i + 1..n] <= s[1..] {
          assert s[n - i..] == s[1..][n - i - 1..];
        }
      }
    }
  }

  lemma {:induction false} BelowAcceptsAll(g: string, i: nat, s: string)
    requires StarStar(g, i) && AfterStarStar(g, i) == |g| - 1 && g[|g| - 1] == '*'
    ensures Accepts(g, i, s, true)
  {
    if s == [] {
      assert Accepts(g, |g| - 1, s, true);
    } else {
      BelowAcceptsAll(g, i, s[1..]);
    }
  }

  /** A pattern without wildcard and extension covers exactly the paths that start with it and a slash. */
  lemma DirectoryCoversItsSubtree(glob: string, s: string)
    requires OneLine(s) && LooksLikeDir(NoTrailingSlash(Slashed(glob)))
    ensures Test(RegExpOf(glob), s) <==> NoTrailingSlash(Slashed(glob)) + ['/'] <= s
  {
    var d := NoTrailingSlash(Slashed(glob));
    var g, n := d + BELOW, |d| + 1;
    OneLinePathsMatchExactly(glob, s);
    forall k | 0 <= k < n ensures g[k] != '*' && g[k] != '?' {
      assert k < |d| ==> g[k] in d;
    }
    LiteralPrefix(g, n, 0, s, true);
    assert g[0..n] == d + ['/'];
    if d + ['/'] <= s {
      BelowAcceptsAll(g, n, s[n..]);
    }
  }

  /** A name without wildcards, as the translation leaves it: forward slashes, none of them at its end. */
  predicate PlainPattern(g: string) {
    g != [] && '*' !in g && '?' !in g && '\\' !in g && g[|g| - 1] != '/'
  }

  /** A dot and one or more letters or digits. */
  predicate Extension(e: string) {
    |e| >= 2 && e[0] == '.'
    && forall i :: 1 <= i < |e| ==> 'a' <= e[i] <= 'z' || 'A' <= e[i] <= 'Z' || '0' <= e[i] <= '9'
  }

  lemma ExtensionIsSeen(stem: string, e: string)
    requires Extension(e)
    ensures HasExtension(stem + e)
  {
    var g := stem + e;
    assert g[|stem|] == '.';
    forall j | |stem| < j < |g| ensures Alphanumeric(g[j]) {
      assert g[j] == e[j - |stem|];
    }
  }

  lemma ExtensionIsThere(g: string) returns (stem: string, e: string)
    requires HasExtension(g)
    ensures g == stem + e && Extension(e)
  {
    var i :| 0 <= i < |g| - 1 && g[i] == '.' && forall j :: i < j < |g| ==> Alphanumeric(g[j]);
    stem, e := g[..i], g[i..];
    assert g == stem + e && e[0] == '.';
    forall k | 1 <= k < |e| ensures Alphanumeric(e[k]) {
      assert e[k] == g[i + k];
    }
  }

  /** A pattern without wildcards that ends in an extension accepts exactly itself. */
  lemma FileNamesItself(stem: string, e: string, s: string)
    requires PlainPattern(stem + e) && Extension(e)
    ensures Test(RegExpOf(stem + e), s) <==> s == stem + e
  {
    var g := stem + e;
    ExtensionIsSeen(stem, e);
    assert Prepared(g) == g;
    TranslationKeepsMeaning(g, s);
    forall k | 0 <= k < |g| ensures g[k] != '*' && g[k] != '?' {
      assert g[k] in g;
    }
    LiteralPrefix(g, |g|, 0, s, false);
    assert g[0..|g|] == g;
  }

  /** One that ends in no extension accepts exactly the paths below it. */
  lemma DirectoryNamesItsSubtree(g: string, s: string)
    requires PlainPattern(g) && OneLine(s) && forall stem, e :: g == stem + e ==> !Extension(e)
    ensures Test(RegExpOf(g), s) <==> g + ['/'] <= s
  {
    if HasExtension(g) {
      var stem, e := ExtensionIsThere(g);
    }
    DirectoryCoversItsSubtree(g, s);
  }

  /** Slashes at the end of a pattern do not matter, nor which way slashes lean. */
  lemma SlashesDoNotMatter(glob: string)
    ensures RegExpOf(glob + ['/']) == RegExpOf(glob) == RegExpOf(Slashed(glob))
  {
    var more := Slashed(glob + ['/']);
    assert more[..|more| - 1] == Slashed(glob);
    assert Slashed(Slashed(glob)) == Slashed(glob);
  }

  // ----- configurations -----

  const NODE_MODULES: string := "node_modules"
  const BOWER_COMPONENTS: string := "bower_components"
  const JSPM_PACKAGES: string := "jspm_packages"
  const DEFAULT_EXCLUDES: seq<string> := [NODE_MODULES, BOWER_COMPONENTS, JSPM_PACKAGES]

  /** The three lists of a tsconfig, each `None` where it is absent. */
  datatype TsConfig = TsConfig(files: Option<seq<string>>, includes: Option<seq<string>>, excludes: Option<seq<string>>)

  predicate AnyMatches(patterns: seq<string>, rel: string) {
    exists p :: p in patterns && Test(RegExpOf(p), rel)
  }

  predicate ListsFile(files: Option<seq<string>>, rel: string) {
    files.Some? && exists f :: f in files.value && Slashed(f) == rel
  }

  predicate CoversFile(config: TsConfig, path: string) {
    var rel := Slashed(path);
    if AnyMatches(config.excludes.GetOr([]) + DEFAULT_EXCLUDES, rel) then false
    else if ListsFile(config.files, rel) then true
    else if config.includes.Some? then AnyMatches(config.includes.value, rel)
    else config.files.None?
  }

  /** Some pattern, read directly, means this path. */
  predicate AnyAccepts(patterns: seq<string>, rel: string) {
    exists p :: p in patterns && Accepts(Prepared(p), 0, rel, true)
  }

  lemma AnyIsAny(patterns: seq<string>, rel: string)
    requires OneLine(rel)
    ensures AnyMatches(patterns, rel) <==> AnyAccepts(patterns, rel)
  {
    forall p | p in patterns ensures Test(RegExpOf(p), rel) <==> Accepts(Prepared(p), 0, rel, true) {
      OneLinePathsMatchExactly(p, rel);
    }
  }

  /** The same characters, whichever way slashes lean. */
  predicate SamePath(a: string, b: string) {
    |a| == |b| && forall i :: 0 <= i < |a| ==> a[i] == b[i] || (a[i] in ['/', '\\'] && b[i] in ['/', '\\'])
  }

  lemma SamePathSlashed(a: string, b: string)
    ensures Slashed(a) == Slashed(b) <==> SamePath(a, b)
  {
    if Slashed(a) == Slashed(b) {
      forall i | 0 <= i < |a| ensures a[i] == b[i] || (a[i] in ['/', '\\'] && b[i] in ['/', '\\']) {
        assert Slashed(a)[i] == Slashed(b)[i];
      }
    }
  }

  /**
    What a tsconfig covers, in terms of what its globs mean and its file names are: nothing an exclude names; otherwise
    what `files` lists and what an include names; everything if it has neither.
   */
  lemma CoverageIsWhatTheGlobsMean(config: TsConfig, path: string)
    requires OneLine(path)
    ensures var rel := Slashed(path);
            CoversFile(config, path)
            <==> && !AnyAccepts(config.excludes.GetOr([]) + DEFAULT_EXCLUDES, rel)
                 && ((config.files.Some? && exists f :: f in config.files.value && SamePath(f, path))
                     || (config.includes.Some? && AnyAccepts(config.includes.value, rel))
                     || (config.includes.None? && config.files.None?))
  {
    var rel := Slashed(path);
    if config.files.Some? {
      forall f | f in config.files.value ensures Slashed(f) == rel <==> SamePath(f, path) {
        SamePathSlashed(f, path);
      }
    }
    assert OneLine(rel) by {
      forall c | c in rel ensures !LineTerminator(c) {
        var i :| 0 <= i < |rel| && rel[i] == c;
        assert path[i] in path;
      }
    }
    AnyIsAny(config.excludes.GetOr([]) + DEFAULT_EXCLUDES, rel);
    if config.includes.Some? {
      AnyIsAny(config.includes.value, rel);
    }
  }

  /** No include and no file list brings back what is below an excluded directory, a default one or a configured one. */
  lemma ExcludedDirectoriesStayOut(config: TsConfig, dir: string, path: string)
    requires dir in config.excludes.GetOr([]) + DEFAULT_EXCLUDES
    requires OneLine(Slashed(path)) && LooksLikeDir(NoTrailingSlash(Slashed(dir)))
    requires NoTrailingSlash(Slashed(dir)) + ['/'] <= Slashed(path)
    ensures !CoversFile(config, path)
  {
    DirectoryCoversItsSubtree(dir, Slashed(path));
  }

  /** A name of letters and underscores. */
  predicate PlainName(s: string) {
    s != [] && forall c :: c in s ==> 'a' <= c <= 'z' || c == '_'
  }

  lemma PlainNameIsDirectory(s: string)
    requires PlainName(s)
    ensures NoTrailingSlash(Slashed(s)) == s && LooksLikeDir(s)
  {
    assert s[|s| - 1] in s;
    forall i | 0 <= i < |s| ensures s[i] != '.' {
      assert s[i] in s;
    }
  }

  lemma DefaultsArePlain()
    ensures forall d :: d in DEFAULT_EXCLUDES ==> PlainName(d)
  {
    assert PlainName(NODE_MODULES);
    assert PlainName(BOWER_COMPONENTS);
    assert PlainName(JSPM_PACKAGES);
  }

  /** The path is below the directory of that name. */
  predicate Below(dir: string, rel: string) {
    dir + ['/'] <= rel
  }

  /** With no lists at all, exactly the files below a default exclude at the top are left out. */
  lemma DefaultExcludesReachOnlyTheTop(path: string)
    requires OneLine(Slashed(path))
    ensures CoversFile(TsConfig(None, None, None), path)
            <==> && !Below("node_modules", Slashed(path)) && !Below("bower_components", Slashed(path))
                 && !Below("jspm_packages", Slashed(path))
  {
    DefaultsReachTheTop(path, Slashed(path));
    assert DEFAULT_EXCLUDES[0] == NODE_MODULES && DEFAULT_EXCLUDES[1] == BOWER_COMPONENTS;
    assert DEFAULT_EXCLUDES[2] == JSPM_PACKAGES;
  }

  lemma DefaultsReachTheTop(path: string, rel: string)
    requires OneLine(rel) && rel == Slashed(path)
    ensures CoversFile(TsConfig(None, None, None), path)
            <==> forall i :: 0 <= i < |DEFAULT_EXCLUDES| ==> !Below(DEFAULT_EXCLUDES[i], rel)
  {
    DefaultsArePlain();
    assert [] + DEFAULT_EXCLUDES == DEFAULT_EXCLUDES;
    forall d | d in DEFAULT_EXCLUDES ensures Test(RegExpOf(d), rel) <==> Below(d, rel) {
      PlainNameIsDirectory(d);
      DirectoryCoversItsSubtree(d, rel);
    }
  }

  /** A nested `node_modules` is covered: the default exclude of that name does not mean it. */
  lemma NestedExcludesAreNotImplied()
    ensures CoversFile(TsConfig(None, None, None), ['p', '/'] + NODE_MODULES + ['/', 'f'])
  {
    var path := ['p', '/'] + NODE_MODULES + ['/', 'f'];
    DefaultsArePlain();
    assert PlainName(NODE_MODULES);
    assert OneLine(path) && Slashed(path) == path;
    forall i | 0 <= i < |DEFAULT_EXCLUDES| ensures !Below(DEFAULT_EXCLUDES[i], path) {
      assert (DEFAULT_EXCLUDES[i] + ['/'])[0] == DEFAULT_EXCLUDES[i][0] && DEFAULT_EXCLUDES[i][0] != 'p';
    }
    DefaultsReachTheTop(path, path);
  }

  // ----- the translator -----

  /** The text for the wildcard or character at `i`, and where the pattern goes on. */
  method TranslateOne(g: string, i: nat) returns (piece: string, j: nat)
    requires i < |g|
    ensures piece == Piece(g, i) && j == Next(g, i)
  {
    j := i;
    if g[i] == '*' {
      if i + 1 < |g| && g[i + 1] == '*' {
        piece := DOT_STAR;
        j := j + 1;
        if j + 1 < |g| && g[j + 1] == '/' {
          j := j + 1;
        }
      } else {
        piece := NOT_SLASH + ['*'];
      }
    } else if g[i] == '?' {
      piece := NOT_SLASH;
    } else {
      piece := Escape(g[i]);
    }
    j := j + 1;
  }

  method TsGlobToRegExp(glob: string) returns (re: string)
    ensures re == RegExpOf(glob)
  {
    var g := NoTrailingSlash(Slashed(glob));
    if LooksLikeDir(g) {
      g := g + BELOW;
    }
    re := [];
    var i := 0;
    while i < |g|
      invariant i <= |g| && re + Build(g, i) == Build(g, 0)
    {
      var piece, j := TranslateOne(g, i);
      Associative(re, piece, Build(g, j));
      re, i := re + piece, j;
    }
    assert re == re + Build(g, i);
    re := ['^'] + re + ['$'];
  }
}
