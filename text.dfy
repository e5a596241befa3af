/**
 * String helpers shared by every part of the model: the .NET string
 * operations the tool relies on (ordinal-ignore-case comparison, Trim,
 * IsNullOrWhiteSpace, StartsWith/EndsWith/Contains, string.Join) and the
 * ordinal string order used wherever the tool sorts paths.
 *
 * Case folding is ASCII only: 'A'..'Z' map to 'a'..'z' and every other
 * character is left alone.
 */
module Text {

  /** Lower-cases one character (ASCII folding). */
  function LowerChar(c: char): char {
    if 'A' <= c <= 'Z' then (c as int + 32) as char else c
  }

  /** ToLowerInvariant, restricted to ASCII folding. */
  function Lower(s: string): (r: string)
    ensures |r| == |s|
    ensures forall i :: 0 <= i < |s| ==> r[i] == LowerChar(s[i])
  {
    if s == [] then [] else [LowerChar(s[0])] + Lower(s[1..])
  }

  lemma {:induction false} LowerAppend(a: string, b: string)
    ensures Lower(a + b) == Lower(a) + Lower(b)
  {
    var l, r := Lower(a + b), Lower(a) + Lower(b);
    assert |l| == |r|;
    forall i | 0 <= i < |l| ensures l[i] == r[i] {
      if i < |a| { assert (a + b)[i] == a[i]; } else { assert (a + b)[i] == b[i - |a|]; }
    }
  }

  /** Text without capital letters is its own lower case. */
  lemma LowerOfLowercase(s: string)
    requires forall i :: 0 <= i < |s| ==> !('A' <= s[i] <= 'Z')
    ensures Lower(s) == s
  {
  }

  lemma LowerIdempotent(s: string)
    ensures Lower(Lower(s)) == Lower(s)
  {
    var l := Lower(s);
    assert forall i :: 0 <= i < |s| ==> LowerChar(l[i]) == l[i];
  }

  /** char.IsWhiteSpace: the ASCII blanks, NEL, NBSP and the Unicode space separators. */
  predicate IsWhiteSpace(c: char) {
    c == ' ' || c == '\t' || c == '\n' || c == '\U{B}' || c == '\U{C}' || c == '\r'
    || c == '\U{85}' || c == '\U{A0}' || c == '\U{1680}'
    || ('\U{2000}' <= c <= '\U{200A}') || c == '\U{2028}' || c == '\U{2029}'
    || c == '\U{202F}' || c == '\U{205F}' || c == '\U{3000}'
  }

  /** string.IsNullOrWhiteSpace (a null string is not modelled). */
  predicate IsBlank(s: string) {
    forall i :: 0 <= i < |s| ==> IsWhiteSpace(s[i])
  }

  /** string.TrimStart(): drops leading white space. */
  function TrimStart(s: string): (r: string)
    ensures |r| <= |s| && r == s[|s| - |r|..]
    ensures r == [] || !IsWhiteSpace(r[0])
    ensures IsBlank(s[..|s| - |r|])
  {
    if s != [] && IsWhiteSpace(s[0]) then
      var r := TrimStart(s[1..]);
      var k := |s| - |r|;
      assert s[..k] == [s[0]] + s[1..][..|s[1..]| - |r|];
      r
    else s
  }

  /** string.TrimEnd(): drops trailing white space. */
  function TrimEnd(s: string): (r: string)
    ensures |r| <= |s| && r == s[..|r|]
    ensures r == [] || !IsWhiteSpace(r[|r| - 1])
    ensures IsBlank(s[|r|..])
  {
    if s != [] && IsWhiteSpace(s[|s| - 1]) then
      var r := TrimEnd(s[..|s| - 1]);
      assert s[..|s| - 1][|r|..] + [s[|s| - 1]] == s[|r|..];
      r
    else s
  }

  /** string.Trim(). */
  function Trim(s: string): string {
    TrimEnd(TrimStart(s))
  }

  /** The trimmed string is empty exactly when the input is blank, and never starts or ends with white space. */
  lemma TrimProperties(s: string)
    ensures Trim(s) == [] <==> IsBlank(s)
    ensures Trim(s) != [] ==> !IsWhiteSpace(Trim(s)[0]) && !IsWhiteSpace(Trim(s)[|Trim(s)| - 1])
    ensures !IsBlank(Trim(s)) <==> Trim(s) != []
  {
    var t := TrimStart(s);
    var r := TrimEnd(t);
    var k := |s| - |t|;
    if t != [] {
      assert t[0] == s[k];
      assert !IsBlank(s);
    }
    if r == [] {
      assert IsBlank(t) by { assert t[|r|..] == t; }
      assert t == [];
      assert s[..k] == s;
    } else {
      assert r[0] == t[0];
    }
  }

  /** Blank text trims to nothing from the front. */
  lemma {:induction false} TrimStartOfBlank(s: string)
    requires IsBlank(s)
    ensures TrimStart(s) == []
  {
    if s != [] {
      assert IsWhiteSpace(s[0]);
      assert IsBlank(s[1..]) by {
        forall j | 0 <= j < |s[1..]| ensures IsWhiteSpace(s[1..][j]) { assert s[1..][j] == s[j + 1]; }
      }
      TrimStartOfBlank(s[1..]);
    }
  }

  /** A string that neither starts nor ends with white space is its own Trim. */
  lemma TrimOfTrimmed(s: string)
    requires s == [] || (!IsWhiteSpace(s[0]) && !IsWhiteSpace(s[|s| - 1]))
    ensures Trim(s) == s
  {
  }

  /** Ordinal StartsWith. */
  predicate StartsWith(s: string, prefix: string) {
    prefix <= s
  }

  /** Ordinal EndsWith. */
  predicate EndsWith(s: string, suffix: string) {
    |suffix| <= |s| && s[|s| - |suffix|..] == suffix
  }

  /** Ordinal Contains: sub occurs at some position of s. */
  predicate Contains(s: string, sub: string)
    decreases |s|
  {
    sub <= s || (s != [] && Contains(s[1..], sub))
  }

  /** sub occurs in s at position k. */
  predicate OccursAt(s: string, sub: string, k: nat) {
    k + |sub| <= |s| && s[k..k + |sub|] == sub
  }

  /** Contains has the usual positional meaning. */
  lemma {:induction false} ContainsAt(s: string, sub: string, k: nat)
    requires k + |sub| <= |s| && s[k..k + |sub|] == sub
    ensures Contains(s, sub)
    decreases k
  {
    if k > 0 {
      assert s[1..][k - 1..k - 1 + |sub|] == s[k..k + |sub|];
      ContainsAt(s[1..], sub, k - 1);
    }
  }

  /** A string contained in b is contained in a + b + c. */
  lemma {:induction false} ContainsInContext(a: string, b: string, c: string, sub: string)
    requires Contains(b, sub)
    ensures Contains(a + b + c, sub)
    decreases |b|
  {
    if sub <= b {
      var s := a + b + c;
      assert s[|a|..|a| + |sub|] == b[..|sub|];
      ContainsAt(s, sub, |a|);
    } else {
      ContainsInContext(a + [b[0]], b[1..], c, sub);
      assert a + [b[0]] + b[1..] + c == a + b + c;
    }
  }

  predicate EqualsIgnoreCase(a: string, b: string) {
    Lower(a) == Lower(b)
  }

  predicate StartsWithIgnoreCase(s: string, prefix: string) {
    StartsWith(Lower(s), Lower(prefix))
  }

  predicate EndsWithIgnoreCase(s: string, suffix: string) {
    EndsWith(Lower(s), Lower(suffix))
  }

  predicate ContainsIgnoreCase(s: string, sub: string) {
    Contains(Lower(s), Lower(sub))
  }

  /** HashSet<string>(StringComparer.OrdinalIgnoreCase).Contains. */
  predicate InIgnoreCase(x: string, elements: set<string>) {
    exists e :: e in elements && EqualsIgnoreCase(e, x)
  }

  lemma InIgnoreCaseMonotone(x: string, a: set<string>, b: set<string>)
    requires a <= b
    ensures InIgnoreCase(x, a) ==> InIgnoreCase(x, b)
  {
  }

  /** A set as a HashSet with StringComparer.OrdinalIgnoreCase holds it: one spelling per name. */
  ghost predicate NoCaseVariants(elements: set<string>) {
    forall a, b :: a in elements && b in elements && EqualsIgnoreCase(a, b) ==> a == b
  }

  /**
   * HashSet<string>.UnionWith on a set compared with OrdinalIgnoreCase: a
   * name of `other` is added only when no member equals it ignoring case,
   * so the spelling already present wins and case variants are dropped.
   */
  function UnionIgnoreCase(elements: set<string>, other: set<string>): (u: set<string>)
    ensures elements <= u <= elements + other
    ensures forall x :: x in other && x !in u ==> InIgnoreCase(x, elements)
    ensures forall x :: x in u && x !in elements ==> !InIgnoreCase(x, elements)
    ensures forall y :: InIgnoreCase(y, u) <==> InIgnoreCase(y, elements) || InIgnoreCase(y, other)
    ensures NoCaseVariants(elements) && NoCaseVariants(other) ==> NoCaseVariants(u)
  {
    var added := set x | x in other && !InIgnoreCase(x, elements);
    assert forall y :: InIgnoreCase(y, other) ==> InIgnoreCase(y, elements) || InIgnoreCase(y, added) by {
      forall y | InIgnoreCase(y, other) && !InIgnoreCase(y, elements)
        ensures InIgnoreCase(y, added)
      {
        var e :| e in other && EqualsIgnoreCase(e, y);
        assert e in added;
      }
    }
    elements + added
  }

  /** A name new ignoring case is stored in the spelling given; a case variant of a member is not stored. */
  lemma UnionIgnoreCaseSpelling(elements: set<string>, x: string)
    ensures !InIgnoreCase(x, elements) ==> x in UnionIgnoreCase(elements, {x})
    ensures InIgnoreCase(x, elements) && x !in elements ==> x !in UnionIgnoreCase(elements, {x})
  {
  }

  /** Adding a name the set already holds ignoring case leaves the set as it is. */
  lemma UnionIgnoreCaseOfKnownName(elements: set<string>, x: string)
    requires InIgnoreCase(x, elements)
    ensures UnionIgnoreCase(elements, {x}) == elements
  {
    var u := UnionIgnoreCase(elements, {x});
    assert x in u ==> x in elements;
  }

  /** UnionWith is monotone in the names added. */
  lemma UnionIgnoreCaseMonotone(elements: set<string>, other1: set<string>, other2: set<string>)
    requires other1 <= other2
    ensures UnionIgnoreCase(elements, other1) <= UnionIgnoreCase(elements, other2)
  {
    forall x | x in UnionIgnoreCase(elements, other1) ensures x in UnionIgnoreCase(elements, other2) {
      if x !in elements {
        assert x in other1 && !InIgnoreCase(x, elements);
      }
    }
  }

  /** Number of occurrences of c in s. */
  function CountChar(s: string, c: char): (n: nat)
    ensures n <= |s|
    ensures n == 0 <==> c !in s
  {
    if s == [] then 0 else (if s[0] == c then 1 else 0) + CountChar(s[1..], c)
  }

  /** The UTF-16 code units of one character: two for a surrogate pair, above U+FFFF. */
  function CodeUnits(c: char): nat {
    if c as int > 0xFFFF then 2 else 1
  }

  /**
   * String.Length: .NET strings are UTF-16, so a character above U+FFFF
   * counts twice. The length equals the number of characters exactly when
   * every character lies in the Basic Multilingual Plane.
   */
  function Utf16Length(s: string): (n: nat)
    ensures |s| <= n <= 2 * |s|
    ensures n == |s| <==> forall i :: 0 <= i < |s| ==> s[i] as int <= 0xFFFF
  {
    if s == [] then 0
    else
      var n := CodeUnits(s[0]) + Utf16Length(s[1..]);
      assert (forall i :: 0 <= i < |s| ==> s[i] as int <= 0xFFFF) <==>
             s[0] as int <= 0xFFFF && forall i :: 0 <= i < |s[1..]| ==> s[1..][i] as int <= 0xFFFF by {
        if forall i :: 0 <= i < |s[1..]| ==> s[1..][i] as int <= 0xFFFF {
          forall i | 1 <= i < |s| ensures s[i] as int <= 0xFFFF {
            assert s[i] == s[1..][i - 1];
          }
        }
      }
      n
  }

  /** The UTF-16 length of a concatenation is the sum of the lengths. */
  lemma {:induction false} Utf16LengthAppend(a: string, b: string)
    ensures Utf16Length(a + b) == Utf16Length(a) + Utf16Length(b)
  {
    if a == [] {
      assert a + b == b;
    } else {
      assert (a + b)[0] == a[0] && (a + b)[1..] == a[1..] + b;
      Utf16LengthAppend(a[1..], b);
    }
  }

  /** string.Join(sep, parts). */
  function Join(parts: seq<string>, sep: string): string {
    if |parts| == 0 then []
    else if |parts| == 1 then parts[0]
    else parts[0] + sep + Join(parts[1..], sep)
  }

  /**
   * StringBuilder.Replace(oldValue, newValue): scans left to right and replaces each
   * non-overlapping occurrence of oldValue; replaced text is not scanned again.
   */
  function ReplaceAll(s: string, target: string, replacement: string): string
    requires target != []
    decreases |s|
  {
    if |s| < |target| then s
    else if s[..|target|] == target then replacement + ReplaceAll(s[|target|..], target, replacement)
    else [s[0]] + ReplaceAll(s[1..], target, replacement)
  }

  /** The first step of a single-character Replace. */
  lemma ReplaceCharCons(c: char, rest: string, t: char, replacement: string)
    ensures ReplaceAll([c] + rest, [t], replacement)
         == (if c == t then replacement else [c]) + ReplaceAll(rest, [t], replacement)
  {
    assert ([c] + rest)[..1] == [c] && ([c] + rest)[1..] == rest;
  }

  /** Ordinal (code point by code point) lexicographic order on strings. */
  predicate LexLe(a: string, b: string) {
    a == [] || (b != [] && (a[0] < b[0] || (a[0] == b[0] && LexLe(a[1..], b[1..]))))
  }

  lemma {:induction false} LexLeTotal(a: string, b: string)
    ensures LexLe(a, b) || LexLe(b, a)
  {
    if a != [] && b != [] && a[0] == b[0] {
      LexLeTotal(a[1..], b[1..]);
    }
  }

  lemma {:induction false} LexLeTransitive(a: string, b: string, c: string)
    requires LexLe(a, b) && LexLe(b, c)
    ensures LexLe(a, c)
  {
    if a != [] && a[0] == b[0] && b[0] == c[0] {
      LexLeTransitive(a[1..], b[1..], c[1..]);
    }
  }

  lemma {:induction false} LexLeAntisymmetric(a: string, b: string)
    requires LexLe(a, b) && LexLe(b, a)
    ensures a == b
  {
    if a != [] {
      LexLeAntisymmetric(a[1..], b[1..]);
      assert a == [a[0]] + a[1..] && b == [b[0]] + b[1..];
    }
  }

  /** Paths that share a prefix (the same parent directory) compare as their remainders do. */
  lemma {:induction false} LexLeCommonPrefix(p: string, a: string, b: string)
    ensures LexLe(p + a, p + b) == LexLe(a, b)
  {
    if p != [] {
      assert (p + a)[1..] == p[1..] + a && (p + b)[1..] == p[1..] + b;
      assert (p + a)[0] == (p + b)[0];
      assert LexLe(p + a, p + b) == LexLe(p[1..] + a, p[1..] + b);
      LexLeCommonPrefix(p[1..], a, b);
    } else {
      assert p + a == a && p + b == b;
    }
  }
}
