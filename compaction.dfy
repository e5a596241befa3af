/**
 * The line pipeline of the three CompactContent variants: the text is
 * split into lines, every line is trimmed, blank lines are dropped, and the
 * survivors are joined with a separator chosen from the first line.
 *
 *  - TokenizeSolution-V2-LLM splits on every `\r` and `\n` (dropping empty
 *    pieces), returns "" when nothing is left, and joins with a line feed
 *    for structured files or when the first kept line opens with `<` or
 *    `{`, and with a space otherwise.
 *  - TokenizeSolution splits on `\r\n`, `\r` and `\n`, and joins with ""
 *    when the first kept line opens with `<` or `{`, with a line feed
 *    otherwise.
 *  - The first program reads the lines as File.ReadLines does and takes the
 *    same decision from the first line of the file as read, blank or not.
 *
 * The comment-stripping regular expressions are not modelled: they are
 * the functions of a CommentStrippers value.
 */
module Compaction {
  import opened Text
  import FileFilters

  // ---------------------------------------------------------------------
  // Splitting into lines
  // ---------------------------------------------------------------------

  predicate IsBreak(c: char) {
    c == '\r' || c == '\n'
  }

  predicate NoBreaks(s: string) {
    forall j :: 0 <= j < |s| ==> !IsBreak(s[j])
  }

  predicate AllUnbroken(lines: seq<string>) {
    forall l :: l in lines ==> NoBreaks(l)
  }

  /** The index of the first line break of s, or |s| when there is none. */
  function FirstBreak(s: string): (i: nat)
    ensures i <= |s| && NoBreaks(s[..i])
    ensures i < |s| ==> IsBreak(s[i])
  {
    if s == [] || IsBreak(s[0]) then 0
    else
      var i := 1 + FirstBreak(s[1..]);
      assert forall j :: 1 <= j < i ==> s[..i][j] == s[1..][..i - 1][j - 1];
      i
  }

  /** string.Split(['\r', '\n']) without options: one piece per break, empty pieces kept. */
  function SplitOnBreaks(s: string): (pieces: seq<string>)
    ensures |pieces| >= 1 && AllUnbroken(pieces)
    decreases |s|
  {
    var i := FirstBreak(s);
    if i == |s| then [s] else [s[..i]] + SplitOnBreaks(s[i + 1..])
  }

  /** StringSplitOptions.RemoveEmptyEntries. */
  function RemoveEmpty(pieces: seq<string>): (r: seq<string>)
    ensures forall p :: p in r <==> p in pieces && p != []
  {
    if pieces == [] then []
    else (if pieces[0] == [] then [] else [pieces[0]]) + RemoveEmpty(pieces[1..])
  }

  /** Where the next line starts after the break at i: `\r\n` counts as one break. */
  function AfterBreak(s: string, i: nat): (j: nat)
    requires i < |s|
    ensures i < j <= |s|
  {
    if s[i] == '\r' && i + 1 < |s| && s[i + 1] == '\n' then i + 2 else i + 1
  }

  /** string.Split(["\r\n", "\r", "\n"], StringSplitOptions.None): `\r\n` is one separator. */
  function SplitLines(s: string): (pieces: seq<string>)
    ensures |pieces| >= 1 && AllUnbroken(pieces)
    decreases |s|
  {
    var i := FirstBreak(s);
    if i == |s| then [s] else [s[..i]] + SplitLines(s[AfterBreak(s, i)..])
  }

  /**
   * File.ReadLines: each line ends at `\r\n`, `\r` or `\n`, and a break at
   * the very end does not start another line; an empty file has no lines.
   */
  function ReadLines(s: string): (lines: seq<string>)
    ensures lines == [] <==> s == []
    ensures s != [] ==> lines[0] == s[..FirstBreak(s)]
    decreases |s|
  {
    if s == [] then []
    else
      var i := FirstBreak(s);
      if i == |s| then [s] else [s[..i]] + ReadLines(s[AfterBreak(s, i)..])
  }

  /** A line that survives Tidy: not empty, and neither starting nor ending with white space. */
  predicate Kept(line: string) {
    line != [] && !IsWhiteSpace(line[0]) && !IsWhiteSpace(line[|line| - 1])
  }

  predicate AllKept(lines: seq<string>) {
    forall l :: l in lines ==> Kept(l)
  }

  /** One line through `.Select(l => l.Trim()).Where(l => !string.IsNullOrWhiteSpace(l))`. */
  function TidyLine(piece: string): (r: seq<string>)
    ensures |r| <= 1 && AllKept(r)
    ensures r == [] <==> IsBlank(piece)
    ensures r != [] ==> r == [Trim(piece)]
  {
    TrimProperties(piece);
    if IsBlank(piece) then []
    else
      KeptSingleton(Trim(piece));
      [Trim(piece)]
  }

  lemma KeptSingleton(line: string)
    requires Kept(line)
    ensures AllKept([line])
  {
    forall l | l in [line] ensures Kept(l) {
      assert l == line;
    }
  }

  /** `.Select(l => l.Trim()).Where(l => !string.IsNullOrWhiteSpace(l))`. */
  function Tidy(pieces: seq<string>): (lines: seq<string>)
    ensures |lines| <= |pieces| && AllKept(lines)
  {
    if pieces == [] then [] else TidyLine(pieces[0]) + Tidy(pieces[1..])
  }

  /** The lines every variant keeps: the trimmed non-blank pieces between line breaks. */
  function KeptLines(s: string): seq<string> {
    Tidy(SplitOnBreaks(s))
  }

  // ---------------------------------------------------------------------
  // The three variants
  // ---------------------------------------------------------------------

  /** The comment strippers of the two later programs, left abstract. */
  datatype CommentStrippers = CommentStrippers(
    cStyle: string -> string,      // RemoveCStyleComments
    razorMarkup: string -> string, // the `@* ... *@` pass of RemoveRazorComments
    css: string -> string)         // RemoveCssComments

  /** The extensions whose content is stripped of comments before compaction. */
  predicate HasStripper(extension: string) {
    extension in {".cs", ".razor", ".ts", ".js", ".jsx", ".tsx", ".css"}
  }

  /** The `extension switch` of CompactContent; the extension is already lower-cased. */
  function StripComments(extension: string, content: string, strippers: CommentStrippers): (r: string)
    ensures !HasStripper(extension) ==> r == content
  {
    match extension
    case ".cs" => strippers.cStyle(content)
    case ".razor" => strippers.cStyle(strippers.razorMarkup(content))
    case ".ts" | ".js" | ".jsx" | ".tsx" => strippers.cStyle(content)
    case ".css" => strippers.css(content)
    case _ => content
  }

  /** `Path.GetExtension(filePath).ToLowerInvariant()`. */
  function LowerExtension(path: string): string {
    Lower(FileFilters.Extension(path))
  }

  /** `first?.StartsWith('<') == true || first?.StartsWith('{') == true`. */
  predicate OpensMarkup(line: string) {
    line != [] && (line[0] == '<' || line[0] == '{')
  }

  /** The extensions whose line breaks the V2-LLM variant always keeps. */
  predicate IsStructured(extension: string) {
    extension in {".json", ".xml", ".html", ".htm", ".razor", ".cshtml"}
  }

  /** The V2-LLM line pipeline on the stripped text. */
  function CompactLinesLlm(extension: string, text: string): string {
    var lines := Tidy(RemoveEmpty(SplitOnBreaks(text)));
    if |lines| == 0 then []
    else
      var joiner := if OpensMarkup(lines[0]) || IsStructured(extension) then "\n" else " ";
      Join(lines, joiner)
  }

  /** CompactContent of TokenizeSolution-V2-LLM, for a file at `path` holding `content`. */
  function CompactContentLlm(path: string, content: string, strippers: CommentStrippers): string {
    var extension := LowerExtension(path);
    CompactLinesLlm(extension, StripComments(extension, content, strippers))
  }

  /**
   * The TokenizeSolution line pipeline: the separator is decided by the
   * first kept line. With no lines the join is empty.
   */
  function CompactLines(text: string): string {
    var lines := Tidy(SplitLines(text));
    var isXmlOrJson := |lines| > 0 && OpensMarkup(TrimStart(lines[0]));
    Join(lines, if isXmlOrJson then "" else "\n")
  }

  /** CompactContent of TokenizeSolution. */
  function CompactContent(path: string, content: string, strippers: CommentStrippers): string {
    var extension := LowerExtension(path);
    CompactLines(StripComments(extension, content, strippers))
  }

  /**
   * CompactContent of the first program, as written: no comments are
   * stripped, and the separator is decided by the first line of the file
   * as read, even when that line is blank.
   */
  function CompactContentFirstLine(content: string): string {
    var lines := Tidy(ReadLines(content));
    var raw := ReadLines(content);
    var isXmlOrJson := |raw| > 0 && OpensMarkup(TrimStart(raw[0]));
    Join(lines, if isXmlOrJson then "" else "\n")
  }

  // ---------------------------------------------------------------------
  // Facts about splitting and tidying
  // ---------------------------------------------------------------------

  lemma IsBlankAppend(a: string, b: string)
    ensures IsBlank(a + b) <==> IsBlank(a) && IsBlank(b)
  {
    if IsBlank(a) && IsBlank(b) {
      forall j | 0 <= j < |a + b| ensures IsWhiteSpace((a + b)[j]) {
        if j < |a| { assert (a + b)[j] == a[j]; } else { assert (a + b)[j] == b[j - |a|]; }
      }
    }
    if IsBlank(a + b) {
      forall j | 0 <= j < |a| ensures IsWhiteSpace(a[j]) { assert (a + b)[j] == a[j]; }
      forall j | 0 <= j < |b| ensures IsWhiteSpace(b[j]) { assert (a + b)[|a| + j] == b[j]; }
    }
  }

  /** FirstBreak finds the break that has no break before it. */
  lemma {:induction false} FirstBreakAt(s: string, k: nat)
    requires k < |s| && NoBreaks(s[..k]) && IsBreak(s[k])
    ensures FirstBreak(s) == k
  {
    if k > 0 {
      assert !IsBreak(s[..k][0]);
      var p := s[1..][..k - 1];
      assert NoBreaks(p) by {
        forall j | 0 <= j < |p| ensures !IsBreak(p[j]) { assert p[j] == s[..k][j + 1]; }
      }
      FirstBreakAt(s[1..], k - 1);
    }
  }

  /** Text without breaks has its "first break" at its end. */
  lemma {:induction false} FirstBreakOfUnbroken(s: string)
    requires NoBreaks(s)
    ensures FirstBreak(s) == |s|
  {
    if s != [] {
      assert !IsBreak(s[0]);
      assert NoBreaks(s[1..]) by {
        forall j | 0 <= j < |s[1..]| ensures !IsBreak(s[1..][j]) { assert s[1..][j] == s[j + 1]; }
      }
      FirstBreakOfUnbroken(s[1..]);
    }
  }

  lemma FirstBreakBefore(a: string, b: string)
    requires NoBreaks(a) && b != [] && IsBreak(b[0])
    ensures FirstBreak(a + b) == |a|
  {
    assert (a + b)[..|a|] == a;
    FirstBreakAt(a + b, |a|);
  }

  /** The text is the first piece, its break, and the rest. */
  lemma SplitAtFirstBreak(s: string)
    requires FirstBreak(s) < |s|
    ensures s == s[..FirstBreak(s)] + [s[FirstBreak(s)]] + s[FirstBreak(s) + 1..]
  {
    SplitAround(s, FirstBreak(s));
  }

  lemma SplitAround(s: string, i: nat)
    requires i < |s|
    ensures s == s[..i] + [s[i]] + s[i + 1..]
  {
    assert s[..i] + [s[i]] == s[..i + 1];
    assert s[..i + 1] + s[i + 1..] == s;
  }

  lemma {:induction false} TidyAppend(a: seq<string>, b: seq<string>)
    ensures Tidy(a + b) == Tidy(a) + Tidy(b)
  {
    if a != [] {
      assert (a + b)[0] == a[0] && (a + b)[1..] == a[1..] + b;
      TidyAppend(a[1..], b);
      assert Tidy(a + b) == TidyLine(a[0]) + Tidy(a[1..] + b);
    } else {
      assert a + b == b;
    }
  }

  /** Tidy drops an empty piece. */
  lemma TidyEmptyPiece(rest: seq<string>)
    ensures Tidy([[]] + rest) == Tidy(rest)
  {
    assert ([[]] + rest)[1..] == rest;
    assert Trim([]) == [];
  }

  /** Lines that already survive Tidy are left as they are. */
  lemma {:induction false} TidyOfKept(lines: seq<string>)
    requires AllKept(lines)
    ensures Tidy(lines) == lines
  {
    if lines != [] {
      var first, rest := lines[0], lines[1..];
      assert TidyLine(first) == [first] by {
        assert Kept(first);
        TrimOfTrimmed(first);
        assert !IsBlank(first) by { assert !IsWhiteSpace(first[0]); }
      }
      assert AllKept(rest) by {
        forall l | l in rest ensures Kept(l) { assert l in lines; }
      }
      TidyOfKept(rest);
      assert Tidy(lines) == TidyLine(first) + Tidy(rest);
      assert lines == [first] + rest;
    }
  }

  /** Dropping empty pieces first changes nothing Tidy keeps. */
  lemma {:induction false} TidyRemoveEmpty(pieces: seq<string>)
    ensures Tidy(RemoveEmpty(pieces)) == Tidy(pieces)
  {
    if pieces != [] {
      TidyRemoveEmpty(pieces[1..]);
      var head := if pieces[0] == [] then [] else [pieces[0]];
      TidyAppend(head, RemoveEmpty(pieces[1..]));
      TidyAppend([pieces[0]], pieces[1..]);
      assert pieces == [pieces[0]] + pieces[1..];
      if pieces[0] == [] {
        TidyEmptyPiece(pieces[1..]);
      }
    }
  }

  /** The text is blank exactly when no line of it is kept. */
  lemma {:induction false} KeptLinesEmptyIffBlank(s: string)
    ensures KeptLines(s) == [] <==> IsBlank(s)
    decreases |s|
  {
    var i := FirstBreak(s);
    if i == |s| {
      KeptLinesOfLastPiece(s);
    } else {
      KeptLinesStep(s, i);
      KeptLinesEmptyIffBlank(s[i + 1..]);
      BlankAroundBreak(s, i);
    }
  }

  /** Text without a break is one piece. */
  lemma KeptLinesOfLastPiece(s: string)
    requires FirstBreak(s) == |s|
    ensures KeptLines(s) == TidyLine(s)
  {
    assert s[..|s|] == s;
    assert SplitOnBreaks(s) == [s];
    assert Tidy([s]) == TidyLine(s) + Tidy([]);
  }

  /** The kept lines are those of the first piece, then those after the first break. */
  lemma KeptLinesStep(s: string, i: nat)
    requires i == FirstBreak(s) && i < |s|
    ensures KeptLines(s) == TidyLine(s[..i]) + KeptLines(s[i + 1..])
  {
    var first, rest := s[..i], SplitOnBreaks(s[i + 1..]);
    assert SplitOnBreaks(s) == [first] + rest by {
      assert FirstBreak(s) == i < |s|;
    }
    TidyCons(first, rest);
  }

  lemma TidyCons(piece: string, rest: seq<string>)
    ensures Tidy([piece] + rest) == TidyLine(piece) + Tidy(rest)
  {
    assert ([piece] + rest)[0] == piece && ([piece] + rest)[1..] == rest;
  }

  /** Text is blank exactly when both sides of a line break are. */
  lemma BlankAroundBreak(s: string, i: nat)
    requires i < |s| && IsBreak(s[i])
    ensures IsBlank(s) <==> IsBlank(s[..i]) && IsBlank(s[i + 1..])
  {
    assert s == s[..i] + [s[i]] + s[i + 1..];
    assert IsBlank([s[i]]);
    IsBlankAppend(s[..i], [s[i]]);
    IsBlankAppend(s[..i] + [s[i]], s[i + 1..]);
  }

  /** A piece that opens with a break contributes nothing. */
  lemma KeptAfterBreak(s: string)
    requires s != [] && IsBreak(s[0])
    ensures KeptLines(s) == KeptLines(s[1..])
  {
    SplitAtLeadingBreak(s);
    TidyEmptyPiece(SplitOnBreaks(s[1..]));
  }

  lemma SplitAtLeadingBreak(s: string)
    requires s != [] && IsBreak(s[0])
    ensures SplitOnBreaks(s) == [[]] + SplitOnBreaks(s[1..])
  {
    assert FirstBreak(s) == 0;
    assert s[..0] == [];
  }

  /** Skipping the `\n` of a `\r\n` loses no kept line. */
  lemma KeptAfterLineEnd(s: string, i: nat)
    requires i < |s| && IsBreak(s[i])
    ensures KeptLines(s[i + 1..]) == KeptLines(s[AfterBreak(s, i)..])
  {
    if AfterBreak(s, i) == i + 2 {
      KeptAfterBreak(s[i + 1..]);
      assert s[i + 1..][1..] == s[i + 2..];
    }
  }

  lemma SplitLinesStep(s: string, i: nat)
    requires i == FirstBreak(s) && i < |s|
    ensures Tidy(SplitLines(s)) == TidyLine(s[..i]) + Tidy(SplitLines(s[AfterBreak(s, i)..]))
  {
    TidyCons(s[..i], SplitLines(s[AfterBreak(s, i)..]));
  }

  lemma ReadLinesStep(s: string, i: nat)
    requires s != [] && i == FirstBreak(s) && i < |s|
    ensures Tidy(ReadLines(s)) == TidyLine(s[..i]) + Tidy(ReadLines(s[AfterBreak(s, i)..]))
  {
    TidyCons(s[..i], ReadLines(s[AfterBreak(s, i)..]));
  }

  /** Splitting on `\r\n` as one separator keeps the same lines as splitting on each break. */
  lemma {:induction false} SplitLinesKeepsSameLines(s: string)
    ensures Tidy(SplitLines(s)) == KeptLines(s)
    decreases |s|
  {
    var i := FirstBreak(s);
    if i == |s| {
      KeptLinesOfLastPiece(s);
      TidyCons(s, []);
    } else {
      KeptLinesStep(s, i);
      SplitLinesStep(s, i);
      KeptAfterLineEnd(s, i);
      SplitLinesKeepsSameLines(s[AfterBreak(s, i)..]);
    }
  }

  /** File.ReadLines keeps the same lines as splitting on each break. */
  lemma {:induction false} ReadLinesKeepsSameLines(s: string)
    ensures Tidy(ReadLines(s)) == KeptLines(s)
    decreases |s|
  {
    var i := FirstBreak(s);
    if s == [] {
      KeptLinesOfLastPiece(s);
    } else if i == |s| {
      KeptLinesOfLastPiece(s);
      TidyCons(s, []);
    } else {
      KeptLinesStep(s, i);
      ReadLinesStep(s, i);
      KeptAfterLineEnd(s, i);
      ReadLinesKeepsSameLines(s[AfterBreak(s, i)..]);
    }
  }

  /** A Trim is a slice, so it has no break when its text has none. */
  lemma TrimNoBreaks(s: string)
    requires NoBreaks(s)
    ensures NoBreaks(Trim(s))
  {
    var t := TrimStart(s);
    assert NoBreaks(t) by {
      forall j | 0 <= j < |t| ensures !IsBreak(t[j]) { assert t[j] == s[|s| - |t| + j]; }
    }
    var r := TrimEnd(t);
    forall j | 0 <= j < |r| ensures !IsBreak(r[j]) { assert r[j] == t[j]; }
  }

  /** Kept lines never hold a line break. */
  lemma {:induction false} TidyUnbroken(pieces: seq<string>)
    requires AllUnbroken(pieces)
    ensures AllUnbroken(Tidy(pieces))
  {
    if pieces != [] {
      assert NoBreaks(pieces[0]);
      TrimNoBreaks(pieces[0]);
      assert AllUnbroken(pieces[1..]) by {
        forall l | l in pieces[1..] ensures NoBreaks(l) { assert l in pieces; }
      }
      TidyUnbroken(pieces[1..]);
    }
  }

  /** The lines of a text that survive: kept, unbroken, and none at all exactly for blank text. */
  lemma KeptLinesShape(s: string)
    ensures AllKept(KeptLines(s)) && AllUnbroken(KeptLines(s))
    ensures KeptLines(s) == [] <==> IsBlank(s)
  {
    TidyUnbroken(SplitOnBreaks(s));
    KeptLinesEmptyIffBlank(s);
  }

  // ---------------------------------------------------------------------
  // Facts about joining
  // ---------------------------------------------------------------------

  /** Joining with a line feed and splitting again gives back the lines. */
  lemma {:induction false} SplitJoinedLines(lines: seq<string>)
    requires |lines| >= 1 && AllUnbroken(lines)
    ensures SplitOnBreaks(Join(lines, "\n")) == lines
  {
    assert NoBreaks(lines[0]);
    if |lines| == 1 {
      FirstBreakOfUnbroken(lines[0]);
      assert lines[0][..|lines[0]|] == lines[0];
    } else {
      var s := Join(lines, "\n");
      var rest := Join(lines[1..], "\n");
      assert s == lines[0] + ("\n" + rest);
      FirstBreakBefore(lines[0], "\n" + rest);
      assert s[..|lines[0]|] == lines[0];
      assert s[|lines[0]| + 1..] == rest;
      assert AllUnbroken(lines[1..]) by {
        forall l | l in lines[1..] ensures NoBreaks(l) { assert l in lines; }
      }
      SplitJoinedLines(lines[1..]);
      assert SplitOnBreaks(s) == [lines[0]] + SplitOnBreaks(rest);
      assert lines == [lines[0]] + lines[1..];
    }
  }

  /** Splitting on each break and joining with a line feed restores a text without carriage returns. */
  lemma {:induction false} JoinSplitOnBreaks(s: string)
    requires '\r' !in s
    ensures Join(SplitOnBreaks(s), "\n") == s
    decreases |s|
  {
    var i := FirstBreak(s);
    if i < |s| {
      var rest := s[i + 1..];
      assert '\r' !in rest by {
        forall j | 0 <= j < |rest| ensures rest[j] != '\r' { assert rest[j] == s[i + 1 + j]; }
      }
      JoinSplitOnBreaks(rest);
      SplitAtFirstBreak(s);
      assert s[i] == '\n';
      var pieces := SplitOnBreaks(rest);
      assert SplitOnBreaks(s) == [s[..i]] + pieces;
      assert Join([s[..i]] + pieces, "\n") == s[..i] + "\n" + Join(pieces, "\n");
    } else {
      assert s[..i] == s;
    }
  }

  /** A join of unbroken pieces with an unbroken separator is unbroken. */
  lemma {:induction false} JoinNoBreaks(lines: seq<string>, sep: string)
    requires NoBreaks(sep) && AllUnbroken(lines)
    ensures NoBreaks(Join(lines, sep))
  {
    if |lines| == 1 {
      assert NoBreaks(lines[0]);
    } else if |lines| >= 2 {
      assert NoBreaks(lines[0]);
      assert AllUnbroken(lines[1..]) by {
        forall l | l in lines[1..] ensures NoBreaks(l) { assert l in lines; }
      }
      JoinNoBreaks(lines[1..], sep);
      var rest := Join(lines[1..], sep);
      var s := lines[0] + sep + rest;
      forall j | 0 <= j < |s| ensures !IsBreak(s[j]) {
        if j < |lines[0]| { assert s[j] == lines[0][j]; }
        else if j < |lines[0]| + |sep| { assert s[j] == sep[j - |lines[0]|]; }
        else { assert s[j] == rest[j - |lines[0]| - |sep|]; }
      }
    }
  }

  /** A join of kept lines is itself kept, and opens as its first line does. */
  lemma {:induction false} JoinKept(lines: seq<string>, sep: string)
    requires |lines| >= 1 && AllKept(lines)
    ensures Kept(lines[0]) && Kept(Join(lines, sep)) && Join(lines, sep)[0] == lines[0][0]
  {
    assert Kept(lines[0]);
    if |lines| >= 2 {
      assert AllKept(lines[1..]) by {
        forall l | l in lines[1..] ensures Kept(l) { assert l in lines; }
      }
      JoinKept(lines[1..], sep);
      var rest := Join(lines[1..], sep);
      assert Join(lines, sep) == lines[0] + sep + rest;
    }
  }

  /** The length of a join: the lines, plus one separator between each two. */
  lemma {:induction false} JoinLength(lines: seq<string>, sep: string)
    requires |lines| >= 1
    ensures |Join(lines, sep)| == |Join(lines, [])| + (|lines| - 1) * |sep|
  {
    if |lines| >= 2 {
      JoinLength(lines[1..], sep);
    }
  }

  /** The lines kept from text joined by a line feed are the joined lines. */
  lemma KeptLinesOfJoined(lines: seq<string>)
    requires |lines| >= 1 && AllKept(lines) && AllUnbroken(lines)
    ensures KeptLines(Join(lines, "\n")) == lines
  {
    SplitJoinedLines(lines);
    TidyOfKept(lines);
  }

  /** Text on one line, without white space at its ends, is kept whole. */
  lemma KeptLinesOfOneLine(s: string)
    requires Kept(s) && NoBreaks(s)
    ensures KeptLines(s) == [s]
  {
    FirstBreakOfUnbroken(s);
    assert s[..|s|] == s;
    TidyOfKept([s]);
  }

  /** A kept line is its own TrimStart. */
  lemma TrimStartOfKept(line: string)
    requires Kept(line)
    ensures TrimStart(line) == line
  {
  }

  /** Kept lines joined with a separator that is not a break form one kept line, which opens as the first does. */
  lemma OneLineJoin(lines: seq<string>, sep: string)
    requires |lines| >= 1 && AllKept(lines) && AllUnbroken(lines) && NoBreaks(sep)
    ensures var r := Join(lines, sep);
      && Kept(lines[0]) && KeptLines(r) == [r] && NoBreaks(r) && r[0] == lines[0][0]
  {
    JoinKept(lines, sep);
    JoinNoBreaks(lines, sep);
    KeptLinesOfOneLine(Join(lines, sep));
  }

  // ---------------------------------------------------------------------
  // What each variant promises
  // ---------------------------------------------------------------------

  /** The V2-LLM pipeline, read through the kept lines. */
  lemma CompactLinesLlmByKept(extension: string, text: string)
    ensures CompactLinesLlm(extension, text)
         == if KeptLines(text) == [] then []
            else Join(KeptLines(text), if OpensMarkup(KeptLines(text)[0]) || IsStructured(extension) then "\n" else " ")
  {
    TidyRemoveEmpty(SplitOnBreaks(text));
  }

  /**
   * V2-LLM: blank text compacts to "". Otherwise the kept lines stay on
   * their own lines when the file is structured or its first kept line
   * opens with `<` or `{`; in every other case they become one line.
   */
  lemma CompactLinesLlmShape(extension: string, text: string)
    ensures var r := CompactLinesLlm(extension, text);
      var lines := KeptLines(text);
      && (r == [] <==> IsBlank(text))
      && (lines != [] && (OpensMarkup(lines[0]) || IsStructured(extension)) ==> KeptLines(r) == lines)
      && (lines != [] && !OpensMarkup(lines[0]) && !IsStructured(extension) ==>
            KeptLines(r) == [r] && NoBreaks(r) && |r| == |Join(lines, [])| + |lines| - 1)
  {
    var lines := KeptLines(text);
    CompactLinesLlmByKept(extension, text);
    KeptLinesShape(text);
    if lines != [] {
      if OpensMarkup(lines[0]) || IsStructured(extension) {
        KeptLinesOfJoined(lines);
        JoinKept(lines, "\n");
      } else {
        OneLineJoin(lines, " ");
        JoinLength(lines, " ");
      }
    }
  }

  /** V2-LLM compaction of a file without a comment stripper is idempotent. */
  lemma CompactContentLlmIdempotent(path: string, content: string, strippers: CommentStrippers)
    requires !HasStripper(LowerExtension(path))
    ensures CompactContentLlm(path, CompactContentLlm(path, content, strippers), strippers)
         == CompactContentLlm(path, content, strippers)
  {
    var extension := LowerExtension(path);
    var r := CompactLinesLlm(extension, content);
    var lines := KeptLines(content);
    CompactLinesLlmShape(extension, content);
    CompactLinesLlmByKept(extension, content);
    CompactLinesLlmByKept(extension, r);
    if lines == [] {
      TidyEmptyPiece([]);
      assert KeptLines(r) == [];
    } else {
      KeptLinesShape(content);
      if !(OpensMarkup(lines[0]) || IsStructured(extension)) {
        JoinKept(lines, " ");
        assert KeptLines(r)[0] == r;
      }
    }
  }

  /** The TokenizeSolution pipeline, read through the kept lines. */
  lemma CompactLinesByKept(text: string)
    ensures CompactLines(text)
         == Join(KeptLines(text), if KeptLines(text) != [] && OpensMarkup(KeptLines(text)[0]) then [] else "\n")
  {
    SplitLinesKeepsSameLines(text);
    var lines := KeptLines(text);
    if lines != [] {
      assert lines[0] in lines;
      TrimStartOfKept(lines[0]);
    }
  }

  /**
   * TokenizeSolution: the kept lines are joined with "" when the first of
   * them opens with `<` or `{`, and keep their own lines otherwise.
   */
  lemma CompactLinesShape(text: string)
    ensures var r := CompactLines(text);
      var lines := KeptLines(text);
      && (r == [] <==> IsBlank(text))
      && (lines != [] && OpensMarkup(lines[0]) ==> KeptLines(r) == [r] && r == Join(lines, []))
      && (lines != [] && !OpensMarkup(lines[0]) ==> KeptLines(r) == lines)
  {
    var lines := KeptLines(text);
    CompactLinesByKept(text);
    KeptLinesShape(text);
    if lines != [] {
      JoinKept(lines, "\n");
      if OpensMarkup(lines[0]) {
        JoinKept(lines, []);
        JoinNoBreaks(lines, []);
        KeptLinesOfOneLine(Join(lines, []));
      } else {
        KeptLinesOfJoined(lines);
      }
    }
  }

  /** Deciding by the first kept line makes compaction idempotent. */
  lemma CompactLinesIdempotent(text: string)
    ensures CompactLines(CompactLines(text)) == CompactLines(text)
  {
    var r := CompactLines(text);
    var lines := KeptLines(text);
    CompactLinesShape(text);
    CompactLinesByKept(text);
    CompactLinesByKept(r);
    if lines == [] {
      TidyEmptyPiece([]);
      assert KeptLines(r) == [];
    } else {
      KeptLinesShape(text);
      if OpensMarkup(lines[0]) {
        JoinKept(lines, []);
        assert KeptLines(r)[0] == r;
      }
    }
  }

  /** TokenizeSolution compaction of a file without a comment stripper is idempotent. */
  lemma CompactContentIdempotent(path: string, content: string, strippers: CommentStrippers)
    requires !HasStripper(LowerExtension(path))
    ensures CompactContent(path, CompactContent(path, content, strippers), strippers)
         == CompactContent(path, content, strippers)
  {
    CompactLinesIdempotent(content);
  }

  /** The first program's pipeline, read through the kept lines and the file's first line. */
  lemma CompactContentFirstLineByKept(content: string)
    ensures CompactContentFirstLine(content)
         == Join(KeptLines(content), if content != [] && OpensMarkup(TrimStart(content[..FirstBreak(content)])) then [] else "\n")
  {
    ReadLinesKeepsSameLines(content);
  }

  /** Trimming the end of a line that is not blank leaves its first character alone. */
  lemma TrimKeepsOpening(line: string)
    requires !IsBlank(line)
    ensures Trim(line) != [] && TrimStart(line) != [] && Trim(line)[0] == TrimStart(line)[0]
  {
    TrimProperties(line);
  }

  /** The kept lines of a text open with its first line, when that line is not blank. */
  lemma FirstKeptLine(content: string)
    requires !IsBlank(content[..FirstBreak(content)])
    ensures KeptLines(content) != [] && KeptLines(content)[0] == Trim(content[..FirstBreak(content)])
  {
    var i := FirstBreak(content);
    if i == |content| {
      KeptLinesOfLastPiece(content);
      assert content[..i] == content;
    } else {
      KeptLinesStep(content, i);
    }
  }

  /** When the file's first line is not blank, the first program and TokenizeSolution agree. */
  lemma CompactContentFirstLineAgrees(content: string)
    requires content != [] && !IsBlank(content[..FirstBreak(content)])
    ensures CompactContentFirstLine(content) == CompactLines(content)
  {
    CompactContentFirstLineByKept(content);
    CompactLinesByKept(content);
    FirstKeptLine(content);
    TrimKeepsOpening(content[..FirstBreak(content)]);
  }

  /** The first line of lines joined by line feeds is the first of them. */
  lemma FirstLineOfJoined(lines: seq<string>)
    requires |lines| >= 2 && AllUnbroken(lines)
    ensures var r := Join(lines, "\n"); r[..FirstBreak(r)] == lines[0]
  {
    var tail := Join(lines[1..], "\n");
    assert Join(lines, "\n") == lines[0] + ("\n" + tail);
    assert NoBreaks(lines[0]) by { assert lines[0] in lines; }
    FirstBreakBefore(lines[0], "\n" + tail);
  }

  /**
   * When the first line of the file is blank and the first kept line opens
   * with `<` or `{`, the first program joins with line feeds; compacting its
   * own output then reads that opening line first and joins with "".
   */
  lemma CompactContentFirstLineNotIdempotent(content: string)
    requires content != [] && IsBlank(content[..FirstBreak(content)])
    requires |KeptLines(content)| >= 2 && OpensMarkup(KeptLines(content)[0])
    ensures CompactContentFirstLine(CompactContentFirstLine(content)) != CompactContentFirstLine(content)
  {
    var lines := KeptLines(content);
    KeptLinesShape(content);
    CompactContentFirstLineByKept(content);
    TrimStartOfBlank(content[..FirstBreak(content)]);
    var r := Join(lines, "\n");
    KeptLinesOfJoined(lines);
    JoinKept(lines, "\n");
    FirstLineOfJoined(lines);
    TrimStartOfKept(lines[0]);
    CompactContentFirstLineByKept(r);
    JoinLength(lines, "\n");
  }

  /**
   * Text that opens with an empty line, followed by two markup lines `a` and
   * `b` (for instance `<a>` and `<b>`), compacts to `a` and `b` on two lines;
   * that output compacts again to `a + b`.
   */
  lemma LeadingBlankLineCounterexample(a: string, b: string)
    requires Kept(a) && NoBreaks(a) && OpensMarkup(a)
    requires Kept(b) && NoBreaks(b)
    ensures var content := "\n" + a + "\n" + b;
            CompactContentFirstLine(CompactContentFirstLine(content)) != CompactContentFirstLine(content)
  {
    var content := "\n" + a + "\n" + b;
    KeptLinesOfBlankThenTwo(a, b);
    BlankFirstLine(content);
    CompactContentFirstLineNotIdempotent(content);
  }

  /** The kept lines of an empty line followed by two kept lines are those two lines. */
  lemma KeptLinesOfBlankThenTwo(a: string, b: string)
    requires Kept(a) && NoBreaks(a) && Kept(b) && NoBreaks(b)
    ensures KeptLines("\n" + a + "\n" + b) == [a, b]
  {
    TwoLinesJoined(a, b);
    var joined := a + "\n" + b;
    KeptLinesOfJoined([a, b]);
    LeadingBreakKeepsLines(joined);
    assert "\n" + joined == "\n" + a + "\n" + b;
  }

  /** Two kept lines, joined by a line break. */
  lemma TwoLinesJoined(a: string, b: string)
    requires Kept(a) && NoBreaks(a) && Kept(b) && NoBreaks(b)
    ensures Join([a, b], "\n") == a + "\n" + b
    ensures AllKept([a, b]) && AllUnbroken([a, b])
  {
    assert Join([a, b][1..], "\n") == b by { assert [a, b][1..] == [b]; }
  }

  /** A line break in front of text adds no kept line. */
  lemma LeadingBreakKeepsLines(s: string)
    ensures KeptLines("\n" + s) == KeptLines(s)
  {
    KeptAfterBreak("\n" + s);
    assert ("\n" + s)[1..] == s;
  }

  /** Text that opens with a line break has an empty, hence blank, first line. */
  lemma BlankFirstLine(content: string)
    requires content != [] && content[0] == '\n'
    ensures IsBlank(content[..FirstBreak(content)])
  {
    assert FirstBreak(content) == 0;
  }
}
