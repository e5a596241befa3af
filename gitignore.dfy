/**
 * The .gitignore support shared by all four programs: reading the rule
 * lines, translating each rule into a .NET regular expression, and the
 * "is this relative path ignored" test.
 *
 * The regular-expression engine itself is not modelled: the file filters
 * receive it as a parameter `isMatch(regex, path)`. For the fragment the
 * translator emits when no metacharacter stands directly before `*` or `/`
 * ("plain" patterns) this module gives the regex a meaning of its own, as
 * a list of tokens matched against a path, and proves what such rules do
 * and do not exclude.
 */
module Gitignore {
  import opened Text

  // ---------------------------------------------------------------------
  // Reading and compiling rules
  // ---------------------------------------------------------------------

  /** A line of .gitignore that is kept as a rule: not blank and not a `#` comment. */
  predicate IsRuleLine(line: string) {
    !IsBlank(line) && !StartsWith(line, "#")
  }

  /** LoadGitignoreRules: the lines of the file that are rules, in file order. */
  function LoadGitignoreRules(lines: seq<string>): (rules: seq<string>)
    ensures |rules| <= |lines|
    ensures forall r :: r in rules ==> r in lines && IsRuleLine(r)
    ensures forall l :: l in lines && IsRuleLine(l) ==> l in rules
  {
    if lines == [] then []
    else (if IsRuleLine(lines[0]) then [lines[0]] else []) + LoadGitignoreRules(lines[1..])
  }

  /** Loading distributes over concatenation, so the kept rules stay in file order. */
  lemma {:induction false} LoadAppend(a: seq<string>, b: seq<string>)
    ensures LoadGitignoreRules(a + b) == LoadGitignoreRules(a) + LoadGitignoreRules(b)
  {
    if a != [] {
      assert (a + b)[0] == a[0] && (a + b)[1..] == a[1..] + b;
      LoadAppend(a[1..], b);
    } else {
      assert a + b == b;
    }
  }

  /** Loading the loaded rules again changes nothing. */
  lemma {:induction false} LoadIdempotent(lines: seq<string>)
    ensures LoadGitignoreRules(LoadGitignoreRules(lines)) == LoadGitignoreRules(lines)
  {
    if lines != [] {
      var head := if IsRuleLine(lines[0]) then [lines[0]] else [];
      LoadAppend(head, LoadGitignoreRules(lines[1..]));
      LoadIdempotent(lines[1..]);
      if IsRuleLine(lines[0]) {
        assert LoadGitignoreRules(head) == head by {
          assert head[1..] == [];
        }
      }
    }
  }

  /** CompileGitignoreRules removes one leading `!` before translating. */
  function StripNegation(rule: string): (pattern: string)
    ensures StartsWith(rule, "!") ==> "!" + pattern == rule
    ensures !StartsWith(rule, "!") ==> pattern == rule
  {
    if StartsWith(rule, "!") then rule[1..] else rule
  }

  /** CompileGitignoreRules: one regex per rule, in rule order. */
  function CompileGitignoreRules(rules: seq<string>): (regexes: seq<string>)
    ensures |regexes| == |rules|
    ensures forall i :: 0 <= i < |rules| ==> regexes[i] == Translate(StripNegation(rules[i]))
  {
    if rules == [] then [] else [Translate(StripNegation(rules[0]))] + CompileGitignoreRules(rules[1..])
  }

  /** IsIgnoredByGitignore: some compiled rule matches the relative path. */
  predicate IsIgnoredByGitignore(relativePath: string, regexes: seq<string>, isMatch: (string, string) -> bool) {
    exists i :: 0 <= i < |regexes| && isMatch(regexes[i], relativePath)
  }

  /** A `!` rule excludes exactly what the same rule without `!` excludes. */
  lemma NegatedRuleExcludesSame(before: seq<string>, pattern: string, after: seq<string>,
                                relativePath: string, isMatch: (string, string) -> bool)
    requires !StartsWith(pattern, "!")
    ensures IsIgnoredByGitignore(relativePath, CompileGitignoreRules(before + ["!" + pattern] + after), isMatch)
         == IsIgnoredByGitignore(relativePath, CompileGitignoreRules(before + [pattern] + after), isMatch)
  {
    var a, b := before + ["!" + pattern] + after, before + [pattern] + after;
    assert StripNegation("!" + pattern) == pattern by { assert ("!" + pattern)[1..] == pattern; }
    forall i | 0 <= i < |a| ensures StripNegation(a[i]) == StripNegation(b[i]) {
      if i != |before| { assert a[i] == b[i]; }
    }
    assert CompileGitignoreRules(a) == CompileGitignoreRules(b);
  }

  /** The verdict depends only on which rules there are: reordering or repeating rules changes nothing. */
  lemma RuleOrderIrrelevant(rules1: seq<string>, rules2: seq<string>,
                            relativePath: string, isMatch: (string, string) -> bool)
    requires forall r :: r in rules1 <==> r in rules2
    ensures IsIgnoredByGitignore(relativePath, CompileGitignoreRules(rules1), isMatch)
         == IsIgnoredByGitignore(relativePath, CompileGitignoreRules(rules2), isMatch)
  {
    IgnoredByFewerRules(rules1, rules2, relativePath, isMatch);
    IgnoredByFewerRules(rules2, rules1, relativePath, isMatch);
  }

  /** A path a set of rules ignores stays ignored when more rules are added. */
  lemma IgnoredByFewerRules(rules1: seq<string>, rules2: seq<string>,
                            relativePath: string, isMatch: (string, string) -> bool)
    requires forall r :: r in rules1 ==> r in rules2
    ensures IsIgnoredByGitignore(relativePath, CompileGitignoreRules(rules1), isMatch)
        ==> IsIgnoredByGitignore(relativePath, CompileGitignoreRules(rules2), isMatch)
  {
    var c1, c2 := CompileGitignoreRules(rules1), CompileGitignoreRules(rules2);
    if IsIgnoredByGitignore(relativePath, c1, isMatch) {
      var i :| 0 <= i < |c1| && isMatch(c1[i], relativePath);
      assert rules1[i] in rules2;
      var j :| 0 <= j < |rules2| && rules2[j] == rules1[i];
      assert isMatch(c2[j], relativePath);
    }
  }

  // ---------------------------------------------------------------------
  // ConvertGitignorePatternToRegex
  // ---------------------------------------------------------------------

  /** The characters Regex.Escape rewrites: \ * + ? | { [ ( ) ^ $ . # and the white space space, tab, LF, FF, CR. */
  predicate IsRegexMeta(c: char) {
    c == '\\' || c == '*' || c == '+' || c == '?' || c == '|' || c == '{' || c == '['
    || c == '(' || c == ')' || c == '^' || c == '$' || c == '.' || c == '#'
    || c == ' ' || c == '\t' || c == '\n' || c == '\U{C}' || c == '\r'
  }

  /** The two characters the translator keeps as glob syntax. */
  predicate IsGlobChar(c: char) {
    c == '*' || c == '/'
  }

  /** A character the translator emits as `\` followed by the character. */
  predicate IsEscaped(c: char) {
    IsRegexMeta(c) && !IsGlobChar(c)
  }

  /**
   * What the escaping loop leaves in the builder for the character c, given
   * whether the next character is `*` or `/`: glob characters pass through,
   * an escaped character becomes `\c` or, when a glob character follows, just
   * the `\` (the `Length--` removes c), and every other character passes
   * through.
   */
  function EmittedFor(c: char, globFollows: bool): (out: string)
    ensures out != []
    ensures out[0] == (if IsEscaped(c) then '\\' else c)
  {
    if IsEscaped(c) then (if globFollows then ['\\'] else ['\\', c]) else [c]
  }

  /** The builder after the escaping loop, described character by character with one character of lookahead. */
  function Escaped(pattern: string): (out: string)
    ensures pattern == [] <==> out == []
  {
    if pattern == [] then []
    else EmittedFor(pattern[0], |pattern| > 1 && IsGlobChar(pattern[1])) + Escaped(pattern[1..])
  }

  /** The loop's isEscaping flag after reading the pattern: its last character was escaped. */
  predicate EscapingAfter(pattern: string) {
    pattern != [] && IsEscaped(pattern[|pattern| - 1])
  }

  /** When the flag is set, the builder ends with `\` and that last character. */
  lemma {:induction false} EscapedEndsWithLast(pattern: string)
    requires EscapingAfter(pattern)
    ensures |Escaped(pattern)| >= 2
    ensures Escaped(pattern)[|Escaped(pattern)| - 1] == pattern[|pattern| - 1]
    ensures Escaped(pattern)[|Escaped(pattern)| - 2] == '\\'
  {
    var last := pattern[|pattern| - 1];
    if |pattern| > 1 {
      var rest := pattern[1..];
      assert rest[|rest| - 1] == last;
      EscapedEndsWithLast(rest);
      EscapedCons(pattern);
    } else {
      assert pattern == [last] && pattern[1..] == [];
      assert Escaped(pattern) == EmittedFor(last, false);
    }
  }

  /** The first step of Escaped on a pattern with at least two characters. */
  lemma EscapedCons(pattern: string)
    requires |pattern| > 1
    ensures Escaped(pattern) == EmittedFor(pattern[0], IsGlobChar(pattern[1])) + Escaped(pattern[1..])
  {
  }

  /** One more character: what a single iteration of the escaping loop does to the builder. */
  lemma {:induction false} EscapedSnoc(pattern: string, c: char)
    ensures Escaped(pattern + [c]) ==
      if EscapingAfter(pattern) && IsGlobChar(c) then Escaped(pattern)[..|Escaped(pattern)| - 1] + [c]
      else Escaped(pattern) + EmittedFor(c, false)
  {
    var p := pattern + [c];
    if pattern == [] {
      assert p == [c];
      assert Escaped([c]) == EmittedFor(c, false) + Escaped([]);
    } else if |pattern| == 1 {
      EscapedSnocSingle(pattern[0], c);
      assert pattern == [pattern[0]];
    } else {
      var x, rest := pattern[0], pattern[1..];
      EscapedSnoc(rest, c);
      assert pattern == [x] + rest;
      if EscapingAfter(rest) && IsGlobChar(c) {
        EscapedSnocCut(x, rest, c);
      } else {
        EscapedSnocKeep(x, rest, c);
      }
    }
  }

  /** The step of EscapedSnoc when the new glob character cuts the escape of the last one short. */
  lemma EscapedSnocCut(x: char, rest: string, c: char)
    requires rest != [] && EscapingAfter(rest) && IsGlobChar(c)
    requires Escaped(rest + [c]) == Escaped(rest)[..|Escaped(rest)| - 1] + [c]
    ensures EscapingAfter([x] + rest)
    ensures Escaped([x] + rest + [c]) == Escaped([x] + rest)[..|Escaped([x] + rest)| - 1] + [c]
  {
    EscapingAfterCons(x, rest);
    EscapedSnocFront(x, rest, c);
    EscapedCutFront(x, rest, c);
    var head, e := EmittedFor(x, IsGlobChar(rest[0])), Escaped(rest);
    assert head + (e[..|e| - 1] + [c]) == head + e[..|e| - 1] + [c];
  }

  /** The step of EscapedSnoc when nothing is cut. */
  lemma EscapedSnocKeep(x: char, rest: string, c: char)
    requires rest != [] && !(EscapingAfter(rest) && IsGlobChar(c))
    requires Escaped(rest + [c]) == Escaped(rest) + EmittedFor(c, false)
    ensures !(EscapingAfter([x] + rest) && IsGlobChar(c))
    ensures Escaped([x] + rest + [c]) == Escaped([x] + rest) + EmittedFor(c, false)
  {
    EscapingAfterCons(x, rest);
    EscapedSnocFront(x, rest, c);
    var head, e := EmittedFor(x, IsGlobChar(rest[0])), Escaped(rest);
    assert head + (e + EmittedFor(c, false)) == head + e + EmittedFor(c, false);
  }

  /** Whether the loop is escaping depends only on the last character. */
  lemma EscapingAfterCons(x: char, rest: string)
    requires rest != []
    ensures EscapingAfter([x] + rest) == EscapingAfter(rest)
  {
    assert ([x] + rest)[|rest|] == rest[|rest| - 1];
  }

  /** Escaping a character in front of rest + [c] emits the same as in front of rest. */
  lemma EscapedSnocFront(x: char, rest: string, c: char)
    requires rest != []
    ensures Escaped([x] + rest + [c]) == EmittedFor(x, IsGlobChar(rest[0])) + Escaped(rest + [c])
    ensures Escaped([x] + rest) == EmittedFor(x, IsGlobChar(rest[0])) + Escaped(rest)
  {
    var p := [x] + rest + [c];
    EscapedCons(p);
    assert p[1..] == rest + [c] && p[1] == rest[0];
    EscapedCons([x] + rest);
    assert ([x] + rest)[1..] == rest;
  }

  /** Cutting the last character of what rest emits commutes with putting text in front. */
  lemma EscapedCutFront(x: char, rest: string, c: char)
    requires rest != [] && EscapingAfter(rest)
    ensures var head, e := EmittedFor(x, IsGlobChar(rest[0])), Escaped(rest);
      (head + e)[..|head + e| - 1] == head + e[..|e| - 1]
  {
  }

  /** EscapedSnoc for a one-character pattern. */
  lemma EscapedSnocSingle(x: char, c: char)
    ensures Escaped([x, c]) ==
      if IsEscaped(x) && IsGlobChar(c) then Escaped([x])[..|Escaped([x])| - 1] + [c]
      else Escaped([x]) + EmittedFor(c, false)
  {
    assert [x, c][1..] == [c] && [x][1..] == [];
    assert Escaped([c]) == EmittedFor(c, false);
    assert Escaped([x]) == EmittedFor(x, false);
    EscapedCons([x, c]);
  }

  /** The two Replace calls of the translator, in order. */
  function TwoReplaces(s: string): string {
    ReplaceAll(ReplaceAll(s, "**", ".*"), "*", "[^/]*")
  }

  /** The translated regex for one rule, following the source step by step after the escaping loop. */
  function Translate(pattern: string): string {
    var body := TwoReplaces(Escaped(pattern)) + (if EndsWith(pattern, "/") then ".*" else "");
    if StartsWith(pattern, "/") then "^" + body else "^(.*/)?(" + body + ")"
  }

  /** ConvertGitignorePatternToRegex: the StringBuilder loop with its isEscaping flag and `Length--`. */
  method ConvertGitignorePatternToRegex(pattern: string) returns (regex: string)
    ensures regex == Translate(pattern)
  {
    var sb: string := [];
    var isEscaping := false;
    var i := 0;
    while i < |pattern|
      invariant 0 <= i <= |pattern|
      invariant sb == Escaped(pattern[..i])
      invariant isEscaping == EscapingAfter(pattern[..i])
    {
      var c := pattern[i];
      EscapingLoopStep(pattern[..i], c);
      assert pattern[..i + 1] == pattern[..i] + [c];
      if c == '*' || c == '/' {
        if isEscaping {
          EscapedEndsWithLast(pattern[..i]);
          sb := sb[..|sb| - 1];
          isEscaping := false;
        }
        sb := sb + [c];
      } else if IsRegexMeta(c) {
        sb := sb + ['\\', c];
        isEscaping := true;
      } else {
        sb := sb + [c];
        isEscaping := false;
      }
      i := i + 1;
    }
    assert pattern[..i] == pattern;
    sb := ReplaceAll(sb, "**", ".*");
    sb := ReplaceAll(sb, "*", "[^/]*");
    if EndsWith(pattern, "/") {
      sb := sb + ".*";
    }
    if StartsWith(pattern, "/") {
      sb := "^" + sb;
    } else {
      sb := "^(.*/)?(" + sb + ")";
    }
    regex := sb;
  }

  /** One iteration of the escaping loop, branch by branch. */
  lemma EscapingLoopStep(prefix: string, c: char)
    ensures IsGlobChar(c) && EscapingAfter(prefix) ==>
      Escaped(prefix)[..|Escaped(prefix)| - 1] + [c] == Escaped(prefix + [c]) && !EscapingAfter(prefix + [c])
    ensures IsGlobChar(c) && !EscapingAfter(prefix) ==>
      Escaped(prefix) + [c] == Escaped(prefix + [c]) && !EscapingAfter(prefix + [c])
    ensures !IsGlobChar(c) && IsRegexMeta(c) ==>
      Escaped(prefix) + ['\\', c] == Escaped(prefix + [c]) && EscapingAfter(prefix + [c])
    ensures !IsGlobChar(c) && !IsRegexMeta(c) ==>
      Escaped(prefix) + [c] == Escaped(prefix + [c]) && !EscapingAfter(prefix + [c])
  {
    EscapedSnoc(prefix, c);
    assert (prefix + [c])[|prefix|] == c;
    if IsGlobChar(c) {
      assert !IsEscaped(c) && EmittedFor(c, false) == [c];
    } else if IsRegexMeta(c) {
      assert IsEscaped(c) && EmittedFor(c, false) == ['\\', c];
    } else {
      assert !IsEscaped(c) && EmittedFor(c, false) == [c];
    }
  }

  /**
   * The net effect of the two Replace calls in one left-to-right pass: every
   * `**` becomes `.[^/]*` and every other `*` becomes `[^/]*`.
   */
  function StarPass(s: string): (r: string)
    ensures |r| >= |s|
    decreases |s|
  {
    if s == [] then []
    else if |s| >= 2 && s[0] == '*' && s[1] == '*' then ".[^/]*" + StarPass(s[2..])
    else if s[0] == '*' then "[^/]*" + StarPass(s[1..])
    else [s[0]] + StarPass(s[1..])
  }

  lemma StarPassCons(c: char, rest: string)
    ensures c != '*' ==> StarPass([c] + rest) == [c] + StarPass(rest)
    ensures c == '*' && (rest == [] || rest[0] != '*') ==> StarPass([c] + rest) == "[^/]*" + StarPass(rest)
  {
    assert ([c] + rest)[1..] == rest;
  }

  lemma StarPassStarStar(rest: string)
    ensures StarPass("**" + rest) == ".[^/]*" + StarPass(rest)
  {
    assert ("**" + rest)[2..] == rest;
  }

  lemma {:induction false} TwoReplacesAreStarPass(s: string)
    ensures TwoReplaces(s) == StarPass(s)
    decreases |s|
  {
    if s == [] {
    } else if |s| >= 2 && s[0] == '*' && s[1] == '*' {
      TwoReplacesAreStarPass(s[2..]);
      assert s == "**" + s[2..];
      TwoReplacesStarStar(s[2..]);
    } else {
      TwoReplacesAreStarPass(s[1..]);
      assert s == [s[0]] + s[1..];
      TwoReplacesCons(s[0], s[1..]);
    }
  }

  /**
   * What the two Replace calls do to stars: `**` becomes `.[^/]*`, because
   * the second call also rewrites the `*` the first one leaves in `.*`; a
   * lone `*` becomes `[^/]*`; every other character passes unchanged.
   */
  lemma ReplacesOnStars(c: char, rest: string)
    ensures TwoReplaces("**" + rest) == ".[^/]*" + TwoReplaces(rest)
    ensures rest == [] || rest[0] != '*' ==> TwoReplaces("*" + rest) == "[^/]*" + TwoReplaces(rest)
    ensures c != '*' ==> TwoReplaces([c] + rest) == [c] + TwoReplaces(rest)
  {
    TwoReplacesAreStarPass("**" + rest);
    TwoReplacesAreStarPass("*" + rest);
    TwoReplacesAreStarPass([c] + rest);
    TwoReplacesAreStarPass(rest);
    StarPassStarStar(rest);
    StarPassCons('*', rest);
    StarPassCons(c, rest);
  }

  /** The step of TwoReplacesAreStarPass for a leading `**`. */
  lemma TwoReplacesStarStar(w: string)
    requires TwoReplaces(w) == StarPass(w)
    ensures TwoReplaces("**" + w) == StarPass("**" + w)
  {
    var s := "**" + w;
    assert s[..2] == "**" && s[2..] == w;
    var rest := ReplaceAll(w, "**", ".*");
    assert ReplaceAll(s, "**", ".*") == ".*" + rest;
    assert ".*" + rest == ['.'] + (['*'] + rest);
    ReplaceCharCons('.', ['*'] + rest, '*', "[^/]*");
    ReplaceCharCons('*', rest, '*', "[^/]*");
    StarPassStarStar(w);
  }

  /** The step of TwoReplacesAreStarPass for a leading character that does not open `**`. */
  lemma TwoReplacesCons(c: char, w: string)
    requires !(c == '*' && w != [] && w[0] == '*')
    requires TwoReplaces(w) == StarPass(w)
    ensures TwoReplaces([c] + w) == StarPass([c] + w)
  {
    var s := [c] + w;
    assert s[1..] == w;
    var rest := ReplaceAll(w, "**", ".*");
    if |s| >= 2 {
      assert s[..2] != "**" by { assert s[..2][0] == c && s[..2][1] == w[0]; }
    }
    assert ReplaceAll(s, "**", ".*") == [c] + rest;
    ReplaceCharCons(c, rest, '*', "[^/]*");
    StarPassCons(c, w);
  }

  /**
   * The shape of every translated rule: a rule starting with `/` becomes `^`
   * followed by its body, which itself starts with `/`; any other rule
   * becomes `^(.*` `/)?(` body `)`. The body is the escaped pattern after the
   * star pass, followed by `.*` when the pattern ends with `/`.
   */
  lemma TranslateShape(pattern: string)
    ensures var body := StarPass(Escaped(pattern)) + (if EndsWith(pattern, "/") then ".*" else "");
      && (StartsWith(pattern, "/") ==> Translate(pattern) == "^" + body && body[0] == '/')
      && (!StartsWith(pattern, "/") ==> Translate(pattern) == "^(.*/)?(" + body + ")")
  {
    TwoReplacesAreStarPass(Escaped(pattern));
    if StartsWith(pattern, "/") {
      assert pattern[0] == '/';
      assert Escaped(pattern)[0] == '/';
    }
  }

  // ---------------------------------------------------------------------
  // What a plain rule matches
  // ---------------------------------------------------------------------

  /** No escaped character stands directly before `*` or `/`, so no escape is cut short. */
  predicate Plain(pattern: string) {
    forall k :: 0 <= k < |pattern| - 1 && IsEscaped(pattern[k]) ==> !IsGlobChar(pattern[k + 1])
  }

  /** The regex fragment a plain rule translates to. */
  datatype Token =
    | Lit(c: char)      // `c`, or `\c` for a metacharacter
    | AnyChar           // `.`
    | SegmentStar       // `[^/]*`
    | AnyStar           // `.*`

  function RenderToken(t: Token): string {
    match t
    case Lit(c) => if IsRegexMeta(c) then ['\\', c] else [c]
    case AnyChar => "."
    case SegmentStar => "[^/]*"
    case AnyStar => ".*"
  }

  function Render(ts: seq<Token>): string {
    if ts == [] then [] else RenderToken(ts[0]) + Render(ts[1..])
  }

  lemma {:induction false} RenderAppend(a: seq<Token>, b: seq<Token>)
    ensures Render(a + b) == Render(a) + Render(b)
  {
    if a == [] {
      assert a + b == b;
    } else {
      assert (a + b)[0] == a[0] && (a + b)[1..] == a[1..] + b;
      RenderAppend(a[1..], b);
    }
  }

  /** The tokens of a glob: `**` is rewritten twice and ends up as `.` then `[^/]*`. */
  function GlobTokens(pattern: string): seq<Token>
    decreases |pattern|
  {
    if pattern == [] then []
    else if |pattern| >= 2 && pattern[0] == '*' && pattern[1] == '*' then [AnyChar, SegmentStar] + GlobTokens(pattern[2..])
    else if pattern[0] == '*' then [SegmentStar] + GlobTokens(pattern[1..])
    else [Lit(pattern[0])] + GlobTokens(pattern[1..])
  }

  /** The tokens of a whole rule: the trailing `.*` of a directory rule comes after the star pass. */
  function RuleTokens(pattern: string): seq<Token> {
    GlobTokens(pattern) + (if EndsWith(pattern, "/") then [AnyStar] else [])
  }

  /** StarPass leaves star-free text alone. */
  lemma {:induction false} StarPassLiteral(a: string, s: string)
    requires '*' !in a
    ensures StarPass(a + s) == a + StarPass(s)
  {
    if a != [] {
      assert (a + s)[0] == a[0] && (a + s)[1..] == a[1..] + s;
      StarPassLiteral(a[1..], s);
      assert a[0] != '*';
      assert StarPass(a + s) == [a[0]] + StarPass(a[1..] + s);
      assert a == [a[0]] + a[1..];
    } else {
      assert a + s == s;
    }
  }

  /** For a plain pattern the escaping loop never cuts an escape short. */
  lemma {:induction false} PlainEscaped(pattern: string)
    requires Plain(pattern)
    ensures pattern != [] ==> Escaped(pattern) == EmittedFor(pattern[0], false) + Escaped(pattern[1..])
    ensures pattern != [] ==> Plain(pattern[1..])
  {
    if |pattern| > 1 && IsEscaped(pattern[0]) {
      assert !IsGlobChar(pattern[1]);
    }
    if pattern != [] {
      forall k | 0 <= k < |pattern[1..]| - 1 && IsEscaped(pattern[1..][k])
        ensures !IsGlobChar(pattern[1..][k + 1])
      {
        assert pattern[1..][k] == pattern[k + 1];
      }
    }
  }

  lemma {:induction false} StarPassOfPlain(pattern: string)
    requires Plain(pattern)
    ensures StarPass(Escaped(pattern)) == Render(GlobTokens(pattern))
    decreases |pattern|
  {
    if pattern == [] {
    } else if |pattern| >= 2 && pattern[0] == '*' && pattern[1] == '*' {
      PlainEscaped(pattern);
      PlainEscaped(pattern[1..]);
      assert pattern[1..][1..] == pattern[2..];
      StarPassOfPlain(pattern[2..]);
      assert pattern == "**" + pattern[2..];
      StarPassOfPlainDoubleStar(pattern[2..]);
    } else if pattern[0] == '*' {
      PlainEscaped(pattern);
      StarPassOfPlain(pattern[1..]);
      assert pattern == "*" + pattern[1..];
      StarPassOfPlainStar(pattern[1..]);
    } else {
      PlainEscaped(pattern);
      StarPassOfPlain(pattern[1..]);
      StarPassOfPlainLiteral(pattern);
    }
  }

  /** The step of StarPassOfPlain for a leading `**`. */
  lemma StarPassOfPlainDoubleStar(w: string)
    requires StarPass(Escaped(w)) == Render(GlobTokens(w))
    ensures StarPass(Escaped("**" + w)) == Render(GlobTokens("**" + w))
  {
    EscapedStarStar(w);
    StarPassStarStar(Escaped(w));
    GlobStarStar(w);
    RenderStarStar(GlobTokens(w));
  }

  lemma EscapedStarStar(w: string)
    ensures Escaped("**" + w) == "**" + Escaped(w)
  {
    EscapedStar("**" + w);
    assert ("**" + w)[1..] == "*" + w;
    EscapedStar("*" + w);
    assert ("*" + w)[1..] == w;
  }

  lemma RenderStarStar(ts: seq<Token>)
    ensures Render([AnyChar, SegmentStar] + ts) == ".[^/]*" + Render(ts)
  {
    RenderAppend([AnyChar, SegmentStar], ts);
    assert Render([AnyChar, SegmentStar]) == ".[^/]*";
  }

  /** A `*` is never escaped, whatever follows it. */
  lemma EscapedStar(pattern: string)
    requires pattern != [] && pattern[0] == '*'
    ensures Escaped(pattern) == ['*'] + Escaped(pattern[1..])
  {
    assert !IsEscaped('*');
  }

  /** The step of StarPassOfPlain for a lone leading `*`. */
  lemma StarPassOfPlainStar(w: string)
    requires w == [] || w[0] != '*'
    requires StarPass(Escaped(w)) == Render(GlobTokens(w))
    ensures StarPass(Escaped("*" + w)) == Render(GlobTokens("*" + w))
  {
    EscapedStar("*" + w);
    assert ("*" + w)[1..] == w;
    var rest := Escaped(w);
    if w != [] {
      assert rest[0] != '*' by {
        assert rest == EmittedFor(w[0], |w| > 1 && IsGlobChar(w[1])) + Escaped(w[1..]);
      }
    }
    StarPassCons('*', rest);
    GlobStar(w);
    RenderSegmentStar(GlobTokens(w));
  }

  lemma RenderSegmentStar(ts: seq<Token>)
    ensures Render([SegmentStar] + ts) == "[^/]*" + Render(ts)
  {
    RenderAppend([SegmentStar], ts);
    assert Render([SegmentStar]) == "[^/]*";
  }

  /** The step of StarPassOfPlain for a leading character other than `*`. */
  lemma StarPassOfPlainLiteral(pattern: string)
    requires Plain(pattern) && pattern != [] && pattern[0] != '*'
    requires StarPass(Escaped(pattern[1..])) == Render(GlobTokens(pattern[1..]))
    ensures StarPass(Escaped(pattern)) == Render(GlobTokens(pattern))
  {
    PlainEscaped(pattern);
    var e := EmittedFor(pattern[0], false);
    assert e == RenderToken(Lit(pattern[0]));
    StarPassLiteral(e, Escaped(pattern[1..]));
    RenderAppend([Lit(pattern[0])], GlobTokens(pattern[1..]));
    assert Render([Lit(pattern[0])]) == e;
  }

  /** A plain rule's regex is exactly the rendering of its tokens, wrapped by the anchoring rule. */
  lemma TranslateRendersTokens(pattern: string)
    requires Plain(pattern)
    ensures StartsWith(pattern, "/") ==> Translate(pattern) == "^" + Render(RuleTokens(pattern))
    ensures !StartsWith(pattern, "/") ==> Translate(pattern) == "^(.*/)?(" + Render(RuleTokens(pattern)) + ")"
  {
    TranslateShape(pattern);
    StarPassOfPlain(pattern);
    RenderAppend(GlobTokens(pattern), if EndsWith(pattern, "/") then [AnyStar] else []);
    assert Render([AnyStar]) == ".*";
  }

  /**
   * Whether the tokens match a prefix of s. The translated regexes end
   * without `$`, so a match only has to cover a prefix. `.` does not match a
   * line feed; `[^/]*` matches anything but `/`.
   */
  predicate MatchesPrefix(ts: seq<Token>, s: string)
    decreases |s|, |ts|
  {
    if ts == [] then true
    else match ts[0]
      case Lit(c) => s != [] && s[0] == c && MatchesPrefix(ts[1..], s[1..])
      case AnyChar => s != [] && s[0] != '\n' && MatchesPrefix(ts[1..], s[1..])
      case SegmentStar => MatchesPrefix(ts[1..], s) || (s != [] && s[0] != '/' && MatchesPrefix(ts, s[1..]))
      case AnyStar => MatchesPrefix(ts[1..], s) || (s != [] && s[0] != '\n' && MatchesPrefix(ts, s[1..]))
  }

  /** The optional directory prefix `(.*` `/)?` in front of an unanchored rule. */
  const DirectoryPrefix: seq<Token> := [AnyStar, Lit('/')]

  /** Regex.IsMatch(Translate(pattern), path) for a plain pattern, read off its tokens. */
  predicate RuleMatches(pattern: string, path: string)
    requires Plain(pattern)
  {
    var ts := RuleTokens(pattern);
    if StartsWith(pattern, "/") then MatchesPrefix(ts, path)
    else MatchesPrefix(ts, path) || MatchesPrefix(DirectoryPrefix + ts, path)
  }

  /** Matching only needs a prefix: whatever follows a matched path is irrelevant. */
  lemma {:induction false} MatchesPrefixExtends(ts: seq<Token>, s: string, t: string)
    requires MatchesPrefix(ts, s)
    ensures MatchesPrefix(ts, s + t)
    decreases |s|, |ts|
  {
    if ts != [] {
      if s != [] {
        assert (s + t)[0] == s[0] && (s + t)[1..] == s[1..] + t;
      }
      match ts[0]
      case Lit(c) => MatchesPrefixExtends(ts[1..], s[1..], t);
      case AnyChar => MatchesPrefixExtends(ts[1..], s[1..], t);
      case SegmentStar =>
        if MatchesPrefix(ts[1..], s) { MatchesPrefixExtends(ts[1..], s, t); }
        else { MatchesPrefixExtends(ts, s[1..], t); }
      case AnyStar =>
        if MatchesPrefix(ts[1..], s) { MatchesPrefixExtends(ts[1..], s, t); }
        else { MatchesPrefixExtends(ts, s[1..], t); }
    }
  }

  /** No rule is anchored at the end: a path matched by a rule stays matched whatever is appended to it. */
  lemma RuleMatchesExtends(pattern: string, path: string, rest: string)
    requires Plain(pattern) && RuleMatches(pattern, path)
    ensures RuleMatches(pattern, path + rest)
  {
    var ts := RuleTokens(pattern);
    if MatchesPrefix(ts, path) {
      MatchesPrefixExtends(ts, path, rest);
    } else {
      MatchesPrefixExtends(DirectoryPrefix + ts, path, rest);
    }
  }

  /** Every literal token of a match occurs in the matched text. */
  lemma {:induction false} LiteralOccurs(ts: seq<Token>, s: string, c: char)
    requires Lit(c) in ts && MatchesPrefix(ts, s)
    ensures c in s
    decreases |s|, |ts|
  {
    if ts[0] == Lit(c) {
    } else {
      assert Lit(c) in ts[1..];
      match ts[0]
      case Lit(d) => LiteralOccurs(ts[1..], s[1..], c);
      case AnyChar => LiteralOccurs(ts[1..], s[1..], c);
      case SegmentStar =>
        if MatchesPrefix(ts[1..], s) { LiteralOccurs(ts[1..], s, c); }
        else { LiteralOccurs(ts, s[1..], c); }
      case AnyStar =>
        if MatchesPrefix(ts[1..], s) { LiteralOccurs(ts[1..], s, c); }
        else { LiteralOccurs(ts, s[1..], c); }
    }
  }

  lemma {:induction false} GlobKeepsSlash(pattern: string, k: nat)
    requires k < |pattern| && pattern[k] == '/'
    ensures Lit('/') in GlobTokens(pattern)
    decreases |pattern|
  {
    if |pattern| >= 2 && pattern[0] == '*' && pattern[1] == '*' {
      GlobKeepsSlash(pattern[2..], k - 2);
    } else if k > 0 {
      GlobKeepsSlash(pattern[1..], k - 1);
    }
  }

  /**
   * A rule ending in `/` only matches paths that contain a `/`. Directory
   * paths carry no trailing `/`, so such a rule never hides a top-level
   * directory's own name.
   */
  lemma DirectoryRuleNeedsSlash(pattern: string, path: string)
    requires Plain(pattern) && EndsWith(pattern, "/") && RuleMatches(pattern, path)
    ensures '/' in path
  {
    GlobKeepsSlash(pattern, |pattern| - 1);
    var ts := RuleTokens(pattern);
    assert Lit('/') in ts;
    if MatchesPrefix(ts, path) {
      LiteralOccurs(ts, path, '/');
    } else {
      assert Lit('/') in DirectoryPrefix + ts;
      LiteralOccurs(DirectoryPrefix + ts, path, '/');
    }
  }

  /** A rule starting with `/` only matches paths that start with `/`. */
  lemma AnchoredRuleNeedsLeadingSlash(pattern: string, path: string)
    requires Plain(pattern) && StartsWith(pattern, "/") && RuleMatches(pattern, path)
    ensures StartsWith(path, "/")
  {
    assert pattern[0] == '/';
    assert RuleTokens(pattern)[0] == Lit('/');
  }

  /** The rules of a .gitignore file exclude a path when any of them matches it (`!` is stripped). */
  predicate IgnoredByRules(rules: seq<string>, path: string)
    requires forall i :: 0 <= i < |rules| ==> Plain(StripNegation(rules[i]))
  {
    exists i :: 0 <= i < |rules| && RuleMatches(StripNegation(rules[i]), path)
  }

  /**
   * Where the regex engine reads each compiled plain rule as its tokens,
   * IsIgnoredByGitignore over the compiled rules is IgnoredByRules.
   */
  lemma IgnoredByCompiledRules(rules: seq<string>, path: string, isMatch: (string, string) -> bool)
    requires forall i :: 0 <= i < |rules| ==> Plain(StripNegation(rules[i]))
    requires forall i :: 0 <= i < |rules| ==>
      isMatch(Translate(StripNegation(rules[i])), path) == RuleMatches(StripNegation(rules[i]), path)
    ensures IsIgnoredByGitignore(path, CompileGitignoreRules(rules), isMatch) == IgnoredByRules(rules, path)
  {
    var regexes := CompileGitignoreRules(rules);
    if IsIgnoredByGitignore(path, regexes, isMatch) {
      var i :| 0 <= i < |regexes| && isMatch(regexes[i], path);
      assert RuleMatches(StripNegation(rules[i]), path);
    }
    if IgnoredByRules(rules, path) {
      var i :| 0 <= i < |rules| && RuleMatches(StripNegation(rules[i]), path);
      assert isMatch(regexes[i], path);
    }
  }

  /** A pattern whose only glob character, if any, is its first one is plain. */
  lemma PlainWithoutLaterGlob(pattern: string)
    requires pattern != [] && '*' !in pattern[1..] && '/' !in pattern[1..]
    ensures Plain(pattern)
  {
    forall k | 0 <= k < |pattern| - 1 && IsEscaped(pattern[k]) ensures !IsGlobChar(pattern[k + 1]) {
      assert pattern[k + 1] == pattern[1..][k];
    }
  }

  // Building blocks for concrete rules and paths.

  /** The tokens of a star-free piece of a rule. */
  function Lits(w: string): seq<Token> {
    if w == [] then [] else [Lit(w[0])] + Lits(w[1..])
  }

  lemma {:induction false} GlobLiterals(w: string)
    requires '*' !in w
    ensures GlobTokens(w) == Lits(w)
  {
    if w != [] {
      GlobLiterals(w[1..]);
    }
  }

  lemma GlobCons(c: char, w: string)
    requires c != '*'
    ensures GlobTokens([c] + w) == [Lit(c)] + GlobTokens(w)
  {
    assert ([c] + w)[1..] == w;
  }

  lemma GlobStar(w: string)
    requires w == [] || w[0] != '*'
    ensures GlobTokens("*" + w) == [SegmentStar] + GlobTokens(w)
  {
    assert ("*" + w)[1..] == w;
  }

  lemma GlobStarStar(w: string)
    ensures GlobTokens("**" + w) == [AnyChar, SegmentStar] + GlobTokens(w)
  {
    assert ("**" + w)[2..] == w;
  }

  lemma {:induction false} MatchLits(w: string, rest: seq<Token>, t: string)
    requires MatchesPrefix(rest, t)
    ensures MatchesPrefix(Lits(w) + rest, w + t)
  {
    if w != [] {
      MatchLits(w[1..], rest, t);
      assert (Lits(w) + rest)[1..] == Lits(w[1..]) + rest;
      assert (w + t)[1..] == w[1..] + t;
    } else {
      assert Lits(w) + rest == rest && w + t == t;
    }
  }

  lemma {:induction false} MatchSegment(u: string, rest: seq<Token>, t: string)
    requires '/' !in u && MatchesPrefix(rest, t)
    ensures MatchesPrefix([SegmentStar] + rest, u + t)
  {
    if u != [] {
      MatchSegment(u[1..], rest, t);
      assert (u + t)[1..] == u[1..] + t;
      assert (u + t)[0] == u[0];
    } else {
      assert u + t == t;
    }
  }

  lemma MatchAnyChar(c: char, rest: seq<Token>, t: string)
    requires c != '\n' && MatchesPrefix(rest, t)
    ensures MatchesPrefix([AnyChar] + rest, [c] + t)
  {
    assert ([c] + t)[1..] == t;
  }

  // Concrete consequences. Relative paths never start with `/`.

  lemma LogRuleTokens()
    ensures Plain("*.log") && !StartsWith("*.log", "/")
    ensures RuleTokens("*.log") == [SegmentStar] + Lits(".log")
  {
    PlainWithoutLaterGlob("*.log");
    assert "*.log"[0] != '/';
    GlobStar(".log");
    GlobLiterals(".log");
  }

  /** `*.log` matches every name ending in `.log`, and whatever follows it. */
  lemma LogRuleMatches(name: string, rest: string)
    requires '/' !in name
    ensures Plain("*.log") && RuleMatches("*.log", name + ".log" + rest)
  {
    LogRuleTokens();
    MatchLits(".log", [], rest);
    assert Lits(".log") + [] == Lits(".log");
    MatchSegment(name, Lits(".log"), ".log" + rest);
    assert name + (".log" + rest) == name + ".log" + rest;
  }

  /** `*.log` also matches a directory named `a.logger`: nothing anchors the end of the rule. */
  lemma LogRuleMatchesLoggerDirectory()
    ensures Plain("*.log") && RuleMatches("*.log", "a.logger/x")
  {
    LogRuleMatches("a", "ger/x");
    assert "a" + ".log" + "ger/x" == "a.logger/x";
  }

  /**
   * A negation rule does not re-include: with `*.log` and `!important.log`
   * (any name in place of `important`), important.log is still excluded.
   */
  lemma NegationDoesNotReinclude(name: string)
    requires '/' !in name && '*' !in name
    ensures Plain(StripNegation("*.log")) && Plain(StripNegation("!" + name + ".log"))
    ensures IgnoredByRules(["*.log", "!" + name + ".log"], name + ".log")
  {
    var file := name + ".log";
    var rules := ["*.log", "!" + file];
    assert "!" + name + ".log" == "!" + file;
    assert StripNegation(rules[1]) == file by {
      assert ("!" + file)[1..] == file;
    }
    assert '*' !in file && '/' !in file by {
      assert '*' !in ".log" && '/' !in ".log";
    }
    PlainWithoutGlob(file);
    LogRuleMatches(name, "");
    assert name + ".log" + "" == file;
    assert StripNegation(rules[0]) == "*.log";
    assert RuleMatches(StripNegation(rules[0]), file);
  }

  /** A pattern without `*` and `/` is plain. */
  lemma PlainWithoutGlob(pattern: string)
    requires '*' !in pattern && '/' !in pattern
    ensures Plain(pattern)
  {
    forall k | 0 <= k < |pattern| - 1 && IsEscaped(pattern[k]) ensures !IsGlobChar(pattern[k + 1]) {
      assert pattern[k + 1] in pattern;
    }
  }

  /** The tokens of `**` `/` `*.tmp`; the rule is plain and not anchored. */
  lemma TmpRuleTokens()
    ensures Plain("**/*.tmp") && !StartsWith("**/*.tmp", "/")
    ensures RuleTokens("**/*.tmp") == TmpTokens()
  {
    TmpRulePlain();
    TmpGlobTokens();
    assert !EndsWith("**/*.tmp", "/") by { assert "**/*.tmp"[7] == 'p'; }
  }

  lemma TmpGlobTokens()
    ensures GlobTokens("**/*.tmp") == TmpTokens()
  {
    assert "**/*.tmp" == "**/*" + ".tmp";
    NestedExtensionGlobTokens(".tmp");
  }

  // The tokens of a rule made of two stars, a slash, a star and a star-free suffix such as `.tmp`.
  lemma NestedExtensionGlobTokens(suffix: string)
    requires suffix != [] && '*' !in suffix
    ensures GlobTokens("**/*" + suffix) == [AnyChar, SegmentStar, Lit('/'), SegmentStar] + Lits(suffix)
  {
    GlobLiterals(suffix);
    GlobStar(suffix);
    GlobCons('/', "*" + suffix);
    GlobStarStar("/" + ("*" + suffix));
    assert "**" + ("/" + ("*" + suffix)) == "**/*" + suffix;
  }

  function TmpTokens(): seq<Token> {
    [AnyChar, SegmentStar, Lit('/'), SegmentStar] + Lits(".tmp")
  }

  lemma TmpRulePlain()
    ensures Plain("**/*.tmp") && !StartsWith("**/*.tmp", "/")
  {
    var p := "**/*.tmp";
    assert p[0] != '/';
    forall k | 0 <= k < |p| - 1 && IsEscaped(p[k]) ensures !IsGlobChar(p[k + 1]) {
      assert k == 4;
    }
  }

  /** The rule `**` `/` `*.tmp` misses every top-level name: `**` followed by `/` needs a directory. */
  lemma DoubleStarMissesTopLevel(name: string)
    requires '/' !in name
    ensures Plain("**/*.tmp") && !RuleMatches("**/*.tmp", name)
  {
    TmpRuleTokens();
    var ts := TmpTokens();
    assert ts[2] == Lit('/') && (DirectoryPrefix + ts)[1] == Lit('/');
    if MatchesPrefix(ts, name) { LiteralOccurs(ts, name, '/'); }
    if MatchesPrefix(DirectoryPrefix + ts, name) { LiteralOccurs(DirectoryPrefix + ts, name, '/'); }
  }

  /** The same rule catches a `.tmp` file one directory down (the directory name is at least one character). */
  lemma DoubleStarCatchesNested(name: string, d: char, dir: string)
    requires '/' !in name && '/' !in dir && d != '\n'
    ensures Plain("**/*.tmp") && RuleMatches("**/*.tmp", [d] + dir + "/" + name + ".tmp")
  {
    TmpRuleTokens();
    TmpTokensMatchNested(name, d, dir);
  }

  lemma TmpTokensMatchNested(name: string, d: char, dir: string)
    requires '/' !in name && '/' !in dir && d != '\n'
    ensures MatchesPrefix(TmpTokens(), [d] + dir + "/" + name + ".tmp")
  {
    var tail := [SegmentStar] + Lits(".tmp");
    TmpNameMatches(name);
    MatchLits("/", tail, name + ".tmp");
    assert Lits("/") == [Lit('/')];
    MatchSegment(dir, [Lit('/')] + tail, "/" + (name + ".tmp"));
    MatchAnyChar(d, [SegmentStar] + ([Lit('/')] + tail), dir + ("/" + (name + ".tmp")));
    assert [AnyChar] + ([SegmentStar] + ([Lit('/')] + tail)) == TmpTokens();
    assert [d] + (dir + ("/" + (name + ".tmp"))) == [d] + dir + "/" + name + ".tmp";
  }

  /** The last segment of the rule: any name without `/`, then `.tmp`. */
  lemma TmpNameMatches(name: string)
    requires '/' !in name
    ensures MatchesPrefix([SegmentStar] + Lits(".tmp"), name + ".tmp")
  {
    MatchLits(".tmp", [], "");
    assert Lits(".tmp") + [] == Lits(".tmp") && ".tmp" + "" == ".tmp";
    MatchSegment(name, Lits(".tmp"), ".tmp");
  }

  /** A directory rule hides what is inside the directory but not the directory's own path. */
  lemma BuildRuleHidesContentsOnly(name: string)
    ensures Plain("build/")
    ensures RuleMatches("build/", "build/" + name)
    ensures !RuleMatches("build/", "build")
  {
    BuildRuleHidesEverythingInside(name);
    BuildRuleSparesDirectory();
  }

  lemma BuildRuleSparesDirectory()
    ensures Plain("build/") && !RuleMatches("build/", "build")
  {
    BuildRulePlain();
    if RuleMatches("build/", "build") {
      DirectoryRuleNeedsSlash("build/", "build");
    }
  }

  lemma BuildRulePlain()
    ensures Plain("build/") && EndsWith("build/", "/")
  {
    var p := "build/";
    assert p[5] == '/';
    forall k | 0 <= k < |p| - 1 && IsEscaped(p[k]) ensures !IsGlobChar(p[k + 1]) {
    }
  }

  /** The rule `build/` matches every path inside a top-level `build` directory. */
  lemma BuildRuleHidesEverythingInside(name: string)
    ensures Plain("build/")
    ensures RuleMatches("build/", "build/" + name)
  {
    BuildRulePlain();
    GlobLiterals("build/");
    assert RuleTokens("build/") == Lits("build/") + [AnyStar];
    assert MatchesPrefix([AnyStar], name);
    MatchLits("build/", [AnyStar], name);
  }

  /** A rule that is a lone `!` compiles to an empty body after the optional directory prefix and excludes every path. */
  lemma LoneNegationMatchesEverything(path: string)
    ensures StripNegation("!") == "" && Plain("")
    ensures Translate(StripNegation("!")) == "^(.*/)?()"
    ensures RuleMatches(StripNegation("!"), path)
  {
    assert "!"[1..] == "";
    assert ReplaceAll("", "**", ".*") == "";
    assert ReplaceAll("", "*", "[^/]*") == "";
  }

  // ---------------------------------------------------------------------
  // Rules anchored with a leading `/`
  // ---------------------------------------------------------------------

  /**
   * As written, a rule such as `/build/` becomes `^/build/.*`, but the paths
   * it is matched against are relative and never start with `/`: the rule
   * excludes nothing.
   */
  lemma AnchoredBuildRuleExcludesNothing(path: string)
    requires !StartsWith(path, "/")
    ensures Plain("/build/") && !RuleMatches("/build/", path)
  {
    assert "/build/"[0] == '/';
    var p := "/build/";
    forall k | 0 <= k < |p| - 1 && IsEscaped(p[k]) ensures !IsGlobChar(p[k + 1]) {
    }
    if RuleMatches("/build/", path) {
      AnchoredRuleNeedsLeadingSlash("/build/", path);
    }
  }

  /**
   * The evident intent: the leading `/` ties the rule to the root of the
   * tree. The corrected translation drops the `/` after `^`.
   */
  function TranslateRooted(pattern: string): (regex: string)
    ensures !StartsWith(pattern, "/") ==> regex == Translate(pattern)
  {
    if StartsWith(pattern, "/") then
      var escaped := StarPass(Escaped(pattern));
      "^" + escaped[1..] + (if EndsWith(pattern, "/") then ".*" else "")
    else Translate(pattern)
  }

  /** What the corrected regex of a plain rule matches, read off its tokens. */
  predicate RootedRuleMatches(pattern: string, path: string)
    requires Plain(pattern)
  {
    if StartsWith(pattern, "/") then MatchesPrefix(RuleTokens(pattern)[1..], path)
    else RuleMatches(pattern, path)
  }

  /** For a plain rule the corrected regex is `^` followed by the rule's tokens after the leading `/`. */
  lemma TranslateRootedRendersTokens(pattern: string)
    requires Plain(pattern) && StartsWith(pattern, "/")
    ensures TranslateRooted(pattern) == "^" + Render(RuleTokens(pattern)[1..])
  {
    assert pattern == [pattern[0]] + pattern[1..];
    GlobCons('/', pattern[1..]);
    StarPassOfPlain(pattern);
    var tail := if EndsWith(pattern, "/") then [AnyStar] else [];
    RenderAppend([Lit('/')], GlobTokens(pattern[1..]));
    assert Render([Lit('/')]) == "/";
    assert RuleTokens(pattern)[1..] == GlobTokens(pattern[1..]) + tail;
    RenderAppend(GlobTokens(pattern[1..]), tail);
    assert Render([AnyStar]) == ".*";
  }

  /** The corrected rule matches a relative path exactly when the written rule matches that path made absolute. */
  lemma RootedRuleMatchesFromRoot(pattern: string, path: string)
    requires Plain(pattern) && StartsWith(pattern, "/")
    ensures RootedRuleMatches(pattern, path) == RuleMatches(pattern, "/" + path)
  {
    assert pattern[0] == '/';
    var ts := RuleTokens(pattern);
    assert ts[0] == Lit('/');
    assert ("/" + path)[0] == '/' && ("/" + path)[1..] == path;
  }

  /** With the correction, `/build/` excludes the top-level build directory's contents and nothing deeper. */
  lemma RootedBuildRule(rest: string)
    ensures Plain("/build/")
    ensures RootedRuleMatches("/build/", "build/" + rest)
    ensures !RootedRuleMatches("/build/", "src/build/" + rest)
  {
    assert "/build/"[0] == '/';
    var p := "/build/";
    forall k | 0 <= k < |p| - 1 && IsEscaped(p[k]) ensures !IsGlobChar(p[k + 1]) {
    }
    assert "/build/" == "/" + "build/";
    GlobCons('/', "build/");
    GlobLiterals("build/");
    var ts := RuleTokens("/build/");
    assert ts[1..] == Lits("build/") + [AnyStar];
    assert MatchesPrefix([AnyStar], rest);
    MatchLits("build/", [AnyStar], rest);
    assert ts[1..][0] == Lit('b');
    assert ("src/build/" + rest)[0] == 's';
  }
}
