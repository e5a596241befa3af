/**
 * The DirectoryLayout program: the tree below a solution directory rendered
 * as indented lines, directories (each followed by its own contents) before
 * files, both in path order, with ignored directories, files and gitignore
 * matches left out. The file system is a Directory tree given as input and
 * the StringBuilder is the list of lines appended so far.
 */
module DirectoryLayout {
  import opened Text
  import opened Sorting
  import FileFilters
  import Gitignore

  /** A directory as the file system lists it: its own name, its subdirectories and its file names. */
  datatype Directory = Directory(name: string, subdirectories: seq<Directory>, files: seq<string>)

  const Header: string := "Project Structure:"
  const FolderIcon: string := "📁"
  const DefaultIcon: string := "📄"

  /** The extensions GetFileIcon knows, already lower-cased. */
  const IconExtensions: set<string> := {
    ".cs", ".h", ".cpp", ".csproj", ".sln", ".json", ".xml", ".config", ".md", ".txt",
    ".yml", ".yaml", ".js", ".jsx", ".ts", ".tsx", ".css", ".scss", ".html"
  }

  /** The icon for an extension that is already lower-cased: one case per known extension, a plain page otherwise. */
  function IconOfLowerCase(extension: string): (icon: string)
    ensures icon != []
    ensures extension !in IconExtensions ==> icon == DefaultIcon
  {
    match extension
    case ".cs" => "📄 [C#]"
    case ".h" => "📄 [C-Header]"
    case ".cpp" => "📄 [C-Source]"
    case ".csproj" => "🔧 [Project]"
    case ".sln" => "🏗️ [Solution]"
    case ".json" => "📋 [JSON]"
    case ".xml" => "📋 [XML]"
    case ".config" => "⚙️ [Config]"
    case ".md" => "📝 [Markdown]"
    case ".txt" => "📄 [Text]"
    case ".yml" | ".yaml" => "⚙️ [YAML]"
    case ".js" | ".jsx" => "📄 [JS]"
    case ".ts" | ".tsx" => "📄 [TS]"
    case ".css" => "🎨 [CSS]"
    case ".scss" => "🎨 [SCSS]"
    case ".html" => "🌐 [HTML]"
    case _ => DefaultIcon
  }

  /** GetFileIcon: a switch on the lower-cased extension. */
  function GetFileIcon(extension: string): (icon: string)
    ensures icon != []
    ensures Lower(extension) !in IconExtensions ==> icon == DefaultIcon
  {
    IconOfLowerCase(Lower(extension))
  }

  /** The icon does not depend on the case of the extension. */
  lemma FileIconIgnoresCase(extension: string)
    ensures GetFileIcon(Lower(extension)) == GetFileIcon(extension)
  {
    LowerIdempotent(extension);
  }

  /** `Path.GetRelativePath(basePath, entry)` with `/` separators: the parent's relative path and the entry's name. */
  function ChildPath(relativePath: string, name: string): (path: string)
    ensures EndsWith(path, name)
  {
    if relativePath == [] then name else relativePath + "/" + name
  }

  /** The directory test: the bare name is in the ignored set (ignoring case) or a gitignore regex matches the relative path. */
  predicate SkipDirectory(name: string, relativePath: string, ignoredDirectories: set<string>,
                          regexes: seq<string>, isMatch: (string, string) -> bool) {
    InIgnoreCase(name, ignoredDirectories) || Gitignore.IsIgnoredByGitignore(relativePath, regexes, isMatch)
  }

  /**
   * The file test: the name is in the ignored set (ignoring case), a `*.ext`
   * entry ends it (ordinal EndsWith), its extension is binary (ignoring case),
   * or a gitignore regex matches the relative path.
   */
  predicate SkipFile(name: string, relativePath: string, ignoredFiles: set<string>, binaryExtensions: set<string>,
                     regexes: seq<string>, isMatch: (string, string) -> bool) {
    || InIgnoreCase(name, ignoredFiles)
    || FileFilters.MatchesWildcardOrdinal(name, ignoredFiles)
    || InIgnoreCase(FileFilters.Extension(name), binaryExtensions)
    || Gitignore.IsIgnoredByGitignore(relativePath, regexes, isMatch)
  }

  /**
   * The per-entry decisions the renderer consults: whether a directory or a
   * file (by name and relative path) is left out, and the icon shown before
   * a file name.
   */
  datatype Renderer = Renderer(
    skipDirectory: (string, string) -> bool,
    skipFile: (string, string) -> bool,
    fileIcon: string -> string)

  /** The icon shown before a file name: GetFileIcon of its extension. */
  function IconOf(name: string): string {
    GetFileIcon(FileFilters.Extension(name))
  }

  /** The renderer of a run: the given ignore sets, binary extensions and compiled rules, and GetFileIcon. */
  function MakeRenderer(ignoredDirectories: set<string>, ignoredFiles: set<string>, binaryExtensions: set<string>,
                        regexes: seq<string>, isMatch: (string, string) -> bool): (r: Renderer)
    ensures forall name, path :: r.skipDirectory(name, path) == SkipDirectory(name, path, ignoredDirectories, regexes, isMatch)
    ensures forall name, path :: r.skipFile(name, path) == SkipFile(name, path, ignoredFiles, binaryExtensions, regexes, isMatch)
    ensures forall name :: r.fileIcon(name) == IconOf(name)
  {
    Renderer(
      (name, path) => SkipDirectory(name, path, ignoredDirectories, regexes, isMatch),
      (name, path) => SkipFile(name, path, ignoredFiles, binaryExtensions, regexes, isMatch),
      IconOf)
  }

  /** `directories.OrderBy(d => d)`: the subdirectories share their parent, so they are ordered by name. */
  predicate NameLe(a: Directory, b: Directory) {
    LexLe(a.name, b.name)
  }

  function DirectoryLine(indent: string, name: string): string {
    indent + FolderIcon + " " + name + "/"
  }

  function FileLine(indent: string, name: string, r: Renderer): string {
    indent + r.fileIcon(name) + " " + name
  }

  /** The subdirectories in the order they are visited. */
  function SortedDirectories(dir: Directory): (directories: seq<Directory>)
    ensures multiset(directories) == multiset(dir.subdirectories)
    ensures forall d :: d in directories ==> d in dir.subdirectories
  {
    var directories := SortBy(dir.subdirectories, NameLe);
    assert forall d :: d in directories ==> d in dir.subdirectories by {
      forall d | d in directories ensures d in dir.subdirectories { assert d in multiset(directories); }
    }
    directories
  }

  /** The lines GenerateDirectoryLayoutAsync appends for `dir`, whose relative path is `relativePath`. */
  function LayoutLines(dir: Directory, relativePath: string, indent: string, r: Renderer): seq<string>
    decreases dir, 1
  {
    DirectoryLines(dir, SortedDirectories(dir), 0, relativePath, indent, r)
    + FileLines(SortBy(dir.files, LexLe), 0, relativePath, indent, r)
  }

  /** The lines of the subdirectories `directories[i..]`, each followed by its own lines unless it is skipped. */
  function DirectoryLines(parent: Directory, directories: seq<Directory>, i: nat,
                          relativePath: string, indent: string, r: Renderer): seq<string>
    requires i <= |directories|
    requires forall d :: d in directories ==> d in parent.subdirectories
    decreases parent, 0, |directories| - i
  {
    if i == |directories| then []
    else
      assert directories[i] in parent.subdirectories;
      EntryLines(directories[i], relativePath, indent, r)
      + DirectoryLines(parent, directories, i + 1, relativePath, indent, r)
  }

  /** The lines one subdirectory contributes: its folder line and its subtree, or nothing when it is skipped. */
  function EntryLines(d: Directory, relativePath: string, indent: string, r: Renderer): seq<string>
    decreases d, 3
  {
    if ShowsDirectory(r, relativePath, d) then [DirectoryLine(indent, d.name)] + SubtreeLines(d, relativePath, indent, r) else []
  }

  /** The lines written for the contents of the subdirectory `d`, two spaces deeper than `indent`. */
  function SubtreeLines(d: Directory, relativePath: string, indent: string, r: Renderer): seq<string>
    decreases d, 2
  {
    LayoutLines(d, ChildPath(relativePath, d.name), indent + "  ", r)
  }

  /** The lines of the files `files[j..]` that are not skipped: at most one per file. */
  function FileLines(files: seq<string>, j: nat, relativePath: string, indent: string, r: Renderer): (lines: seq<string>)
    requires j <= |files|
    ensures |lines| <= |files| - j
    decreases |files| - j
  {
    if j == |files| then []
    else
      (if r.skipFile(files[j], ChildPath(relativePath, files[j])) then [] else [FileLine(indent, files[j], r)])
      + FileLines(files, j + 1, relativePath, indent, r)
  }

  /** Every kept file among `files[j..]` has its line, and every line is the line of a kept file. */
  lemma {:induction false} FileLinesContents(files: seq<string>, j: nat, relativePath: string, indent: string, r: Renderer)
    requires j <= |files|
    ensures forall k :: j <= k < |files| && ShowsFile(r, relativePath, files[k]) ==>
                          FileLine(indent, files[k], r) in FileLines(files, j, relativePath, indent, r)
    ensures forall l :: l in FileLines(files, j, relativePath, indent, r) ==>
                          exists k :: j <= k < |files| && ShowsFile(r, relativePath, files[k]) && l == FileLine(indent, files[k], r)
    decreases |files| - j
  {
    if j < |files| {
      var first := if ShowsFile(r, relativePath, files[j]) then [FileLine(indent, files[j], r)] else [];
      var rest := FileLines(files, j + 1, relativePath, indent, r);
      assert FileLines(files, j, relativePath, indent, r) == first + rest;
      FileLinesContents(files, j + 1, relativePath, indent, r);
      forall l | l in first + rest
        ensures exists k :: j <= k < |files| && ShowsFile(r, relativePath, files[k]) && l == FileLine(indent, files[k], r)
      {
        if l in rest {
          var k :| j + 1 <= k < |files| && ShowsFile(r, relativePath, files[k]) && l == FileLine(indent, files[k], r);
          assert j <= k;
        } else {
          assert l in first;
        }
      }
    }
  }

  /**
   * GenerateDirectoryLayoutAsync: appends to `sb` the lines of the
   * subdirectories (recursing into each kept one with two more spaces of
   * indent), then the lines of the files.
   */
  method GenerateDirectoryLayout(dir: Directory, relativePath: string, indent: string, r: Renderer,
                                 sb: seq<string>) returns (out: seq<string>)
    ensures out == sb + LayoutLines(dir, relativePath, indent, r)
    decreases dir
  {
    out := sb;
    var directories := SortedDirectories(dir);
    ghost var subdirectoryLines := DirectoryLines(dir, directories, 0, relativePath, indent, r);
    var i := 0;
    while i < |directories|
      invariant i <= |directories|
      invariant out + DirectoryLines(dir, directories, i, relativePath, indent, r) == sb + subdirectoryLines
    {
      var d := directories[i];
      assert d in dir.subdirectories;
      var path := ChildPath(relativePath, d.name);
      ghost var before := out;
      ghost var rest := DirectoryLines(dir, directories, i + 1, relativePath, indent, r);
      DirectoryLinesStep(dir, directories, i, relativePath, indent, r);
      if !r.skipDirectory(d.name, path) {
        out := out + [DirectoryLine(indent, d.name)];
        out := GenerateDirectoryLayout(d, path, indent + "  ", r, out);
        AppendEntry(before, DirectoryLine(indent, d.name), LayoutLines(d, path, indent + "  ", r), rest);
      } else {
        assert [] + rest == rest;
      }
      i := i + 1;
    }
    var files := SortBy(dir.files, LexLe);
    ghost var fileLines := FileLines(files, 0, relativePath, indent, r);
    ghost var start := out;
    var j := 0;
    while j < |files|
      invariant j <= |files|
      invariant out + FileLines(files, j, relativePath, indent, r) == start + fileLines
    {
      var name := files[j];
      FileLinesStep(files, j, relativePath, indent, r);
      ghost var rest := FileLines(files, j + 1, relativePath, indent, r);
      if !r.skipFile(name, ChildPath(relativePath, name)) {
        AppendLine(out, FileLine(indent, name, r), rest);
        out := out + [FileLine(indent, name, r)];
      } else {
        assert [] + rest == rest;
      }
      j := j + 1;
    }
    assert out == start + fileLines;
    assert start == sb + subdirectoryLines;
    assert LayoutLines(dir, relativePath, indent, r) == subdirectoryLines + fileLines;
    AppendAssociative(sb, subdirectoryLines, fileLines);
  }

  lemma AppendAssociative(a: seq<string>, b: seq<string>, c: seq<string>)
    ensures (a + b) + c == a + (b + c)
  {
  }

  lemma AppendLine(before: seq<string>, line: string, rest: seq<string>)
    ensures (before + [line]) + rest == before + ([line] + rest)
  {
  }

  lemma AppendEntry(before: seq<string>, line: string, lines: seq<string>, rest: seq<string>)
    ensures ((before + [line]) + lines) + rest == before + (([line] + lines) + rest)
  {
  }

  /** One subdirectory's lines, then those of the ones after it. */
  lemma DirectoryLinesStep(parent: Directory, directories: seq<Directory>, i: nat,
                           relativePath: string, indent: string, r: Renderer)
    requires i < |directories|
    requires forall d :: d in directories ==> d in parent.subdirectories
    ensures var d := directories[i];
            var path := ChildPath(relativePath, d.name);
            DirectoryLines(parent, directories, i, relativePath, indent, r)
            == (if r.skipDirectory(d.name, path) then []
                else [DirectoryLine(indent, d.name)] + LayoutLines(d, path, indent + "  ", r))
               + DirectoryLines(parent, directories, i + 1, relativePath, indent, r)
  {
    var d := directories[i];
    assert EntryLines(d, relativePath, indent, r)
        == if ShowsDirectory(r, relativePath, d) then [DirectoryLine(indent, d.name)] + SubtreeLines(d, relativePath, indent, r) else [];
  }

  /** One file's line, if it is kept, then those of the files after it. */
  lemma FileLinesStep(files: seq<string>, j: nat, relativePath: string, indent: string, r: Renderer)
    requires j < |files|
    ensures FileLines(files, j, relativePath, indent, r)
         == (if r.skipFile(files[j], ChildPath(relativePath, files[j])) then [] else [FileLine(indent, files[j], r)])
            + FileLines(files, j + 1, relativePath, indent, r)
  {
  }

  /**
   * The renderer GenerateLayoutAsync sets up: the fixed ignore sets united
   * with the command-line ones, and the rules of the .gitignore file.
   */
  function LayoutRenderer(gitignoreLines: seq<string>, additionalDirectories: set<string>, additionalFiles: set<string>,
                          isMatch: (string, string) -> bool): Renderer {
    MakeRenderer(FileFilters.AllIgnoredDirectories(false, additionalDirectories),
                 FileFilters.AllIgnoredFiles(false, additionalFiles),
                 FileFilters.LayoutBinaryExtensions, Gitignore.CompileGitignoreRules(Gitignore.LoadGitignoreRules(gitignoreLines)), isMatch)
  }

  /** GenerateLayoutAsync: the header line, then the root's entries at no indent. */
  method GenerateLayout(root: Directory, gitignoreLines: seq<string>,
                        additionalDirectories: set<string>, additionalFiles: set<string>,
                        isMatch: (string, string) -> bool) returns (lines: seq<string>)
    ensures |lines| >= 1 && lines[0] == Header
    ensures lines[1..] == LayoutLines(root, "", "", LayoutRenderer(gitignoreLines, additionalDirectories, additionalFiles, isMatch))
  {
    var r := LayoutRenderer(gitignoreLines, additionalDirectories, additionalFiles, isMatch);
    lines := GenerateDirectoryLayout(root, "", "", r, [Header]);
  }

  // ---------------------------------------------------------------------
  // Properties of the layout
  // ---------------------------------------------------------------------

  /** Sorting entries of one directory by full path is sorting them by name. */
  lemma NameOrderIsPathOrder(parentPath: string, a: string, b: string)
    ensures LexLe(parentPath + "/" + a, parentPath + "/" + b) == LexLe(a, b)
  {
    LexLeCommonPrefix(parentPath + "/", a, b);
    assert parentPath + "/" + a == (parentPath + "/") + a;
  }

  /** The renderer shows the subdirectory `d` of the directory at `relativePath`. */
  predicate ShowsDirectory(r: Renderer, relativePath: string, d: Directory) {
    !r.skipDirectory(d.name, ChildPath(relativePath, d.name))
  }

  /** The renderer shows the file `name` of the directory at `relativePath`. */
  predicate ShowsFile(r: Renderer, relativePath: string, name: string) {
    !r.skipFile(name, ChildPath(relativePath, name))
  }

  /**
   * What a directory's layout holds: the line of every shown subdirectory
   * and all of its subtree, the line of every shown file, and nothing else;
   * a subtree's lines are indented two spaces deeper than the directory's.
   */
  lemma LayoutContents(dir: Directory, relativePath: string, indent: string, r: Renderer)
    ensures var lines := LayoutLines(dir, relativePath, indent, r);
      && (forall d :: d in dir.subdirectories && ShowsDirectory(r, relativePath, d) ==>
            DirectoryLine(indent, d.name) in lines
            && forall l :: l in SubtreeLines(d, relativePath, indent, r) ==> l in lines)
      && (forall name :: name in dir.files && ShowsFile(r, relativePath, name) ==> FileLine(indent, name, r) in lines)
      && (forall l :: l in lines ==>
            (exists d :: d in dir.subdirectories && ShowsDirectory(r, relativePath, d)
                         && (l == DirectoryLine(indent, d.name)
                             || (l in SubtreeLines(d, relativePath, indent, r) && indent + "  " < l)))
            || (exists name :: name in dir.files && ShowsFile(r, relativePath, name) && l == FileLine(indent, name, r)))
  {
    LayoutShowsEntries(dir, relativePath, indent, r);
    LayoutOnlyEntries(dir, relativePath, indent, r);
  }

  /** Every shown subdirectory has its line and its subtree in the layout, and every shown file its line. */
  lemma LayoutShowsEntries(dir: Directory, relativePath: string, indent: string, r: Renderer)
    ensures var lines := LayoutLines(dir, relativePath, indent, r);
      && (forall d :: d in dir.subdirectories && ShowsDirectory(r, relativePath, d) ==>
            DirectoryLine(indent, d.name) in lines
            && forall l :: l in SubtreeLines(d, relativePath, indent, r) ==> l in lines)
      && (forall name :: name in dir.files && ShowsFile(r, relativePath, name) ==> FileLine(indent, name, r) in lines)
  {
    forall d | d in dir.subdirectories && ShowsDirectory(r, relativePath, d)
      ensures DirectoryLine(indent, d.name) in LayoutLines(dir, relativePath, indent, r)
      ensures forall l :: l in SubtreeLines(d, relativePath, indent, r) ==> l in LayoutLines(dir, relativePath, indent, r)
    {
      SubdirectoryShown(dir, relativePath, indent, r, d);
    }
    forall name | name in dir.files && ShowsFile(r, relativePath, name)
      ensures FileLine(indent, name, r) in LayoutLines(dir, relativePath, indent, r)
    {
      FileShown(dir, relativePath, indent, r, name);
    }
  }

  lemma SubdirectoryShown(dir: Directory, relativePath: string, indent: string, r: Renderer, d: Directory)
    requires d in dir.subdirectories && ShowsDirectory(r, relativePath, d)
    ensures DirectoryLine(indent, d.name) in LayoutLines(dir, relativePath, indent, r)
    ensures forall l :: l in SubtreeLines(d, relativePath, indent, r) ==> l in LayoutLines(dir, relativePath, indent, r)
  {
    var directories := SortedDirectories(dir);
    var dirLines := DirectoryLines(dir, directories, 0, relativePath, indent, r);
    var fileLines := FileLines(SortBy(dir.files, LexLe), 0, relativePath, indent, r);
    assert LayoutLines(dir, relativePath, indent, r) == dirLines + fileLines;
    assert d in multiset(dir.subdirectories);
    var k :| 0 <= k < |directories| && directories[k] == d;
    DirectoryLinesEntries(dir, directories, 0, relativePath, indent, r);
    var entry := EntryLines(d, relativePath, indent, r);
    assert forall l :: l in entry ==> l in dirLines;
    assert entry == [DirectoryLine(indent, d.name)] + SubtreeLines(d, relativePath, indent, r);
    assert entry[0] == DirectoryLine(indent, d.name);
    forall l | l in SubtreeLines(d, relativePath, indent, r) ensures l in entry {
    }
  }

  lemma FileShown(dir: Directory, relativePath: string, indent: string, r: Renderer, name: string)
    requires name in dir.files && ShowsFile(r, relativePath, name)
    ensures FileLine(indent, name, r) in LayoutLines(dir, relativePath, indent, r)
  {
    var files := SortBy(dir.files, LexLe);
    var dirLines := DirectoryLines(dir, SortedDirectories(dir), 0, relativePath, indent, r);
    var fileLines := FileLines(files, 0, relativePath, indent, r);
    assert LayoutLines(dir, relativePath, indent, r) == dirLines + fileLines;
    assert name in multiset(dir.files);
    var k :| 0 <= k < |files| && files[k] == name;
    FileLinesContents(files, 0, relativePath, indent, r);
  }

  /** Every line of the layout belongs to a shown subdirectory, two spaces deeper inside its subtree, or to a shown file. */
  lemma LayoutOnlyEntries(dir: Directory, relativePath: string, indent: string, r: Renderer)
    ensures forall l :: l in LayoutLines(dir, relativePath, indent, r) ==>
      (exists d :: d in dir.subdirectories && ShowsDirectory(r, relativePath, d)
                   && (l == DirectoryLine(indent, d.name)
                       || (l in SubtreeLines(d, relativePath, indent, r) && indent + "  " < l)))
      || (exists name :: name in dir.files && ShowsFile(r, relativePath, name) && l == FileLine(indent, name, r))
  {
    var lines := LayoutLines(dir, relativePath, indent, r);
    var dirLines := DirectoryLines(dir, SortedDirectories(dir), 0, relativePath, indent, r);
    var fileLines := FileLines(SortBy(dir.files, LexLe), 0, relativePath, indent, r);
    assert lines == dirLines + fileLines;
    forall l | l in lines
      ensures || (exists d :: d in dir.subdirectories && ShowsDirectory(r, relativePath, d)
                             && (l == DirectoryLine(indent, d.name)
                                 || (l in SubtreeLines(d, relativePath, indent, r) && indent + "  " < l)))
              || (exists name :: name in dir.files && ShowsFile(r, relativePath, name) && l == FileLine(indent, name, r))
    {
      if l in dirLines {
        SubdirectoryLineAccounted(dir, relativePath, indent, r, l);
      } else {
        FileLineAccounted(dir, relativePath, indent, r, l);
      }
    }
  }

  lemma SubdirectoryLineAccounted(dir: Directory, relativePath: string, indent: string, r: Renderer, l: string)
    requires l in DirectoryLines(dir, SortedDirectories(dir), 0, relativePath, indent, r)
    ensures exists d :: d in dir.subdirectories && ShowsDirectory(r, relativePath, d)
                        && (l == DirectoryLine(indent, d.name)
                            || (l in SubtreeLines(d, relativePath, indent, r) && indent + "  " < l))
  {
    var directories := SortedDirectories(dir);
    DirectoryLinesEntries(dir, directories, 0, relativePath, indent, r);
    var k :| 0 <= k < |directories| && l in EntryLines(directories[k], relativePath, indent, r);
    var d := directories[k];
    assert d in dir.subdirectories;
    EntryLineAccounted(d, relativePath, indent, r, l);
  }

  /** A line of a subdirectory's entry is its folder line, or a line of its subtree indented two spaces deeper. */
  lemma EntryLineAccounted(d: Directory, relativePath: string, indent: string, r: Renderer, l: string)
    requires l in EntryLines(d, relativePath, indent, r)
    ensures ShowsDirectory(r, relativePath, d)
    ensures l == DirectoryLine(indent, d.name) || (l in SubtreeLines(d, relativePath, indent, r) && indent + "  " < l)
  {
    LayoutIndented(d, ChildPath(relativePath, d.name), indent + "  ", r);
  }

  lemma FileLineAccounted(dir: Directory, relativePath: string, indent: string, r: Renderer, l: string)
    requires l in FileLines(SortBy(dir.files, LexLe), 0, relativePath, indent, r)
    ensures exists name :: name in dir.files && ShowsFile(r, relativePath, name) && l == FileLine(indent, name, r)
  {
    var files := SortBy(dir.files, LexLe);
    FileLinesContents(files, 0, relativePath, indent, r);
    var k :| 0 <= k < |files| && ShowsFile(r, relativePath, files[k]) && l == FileLine(indent, files[k], r);
    assert files[k] in multiset(files);
  }

  /**
   * A line is written for the subdirectories `directories[i..]` exactly when
   * it belongs to the entry of one of them.
   */
  lemma DirectoryLinesEntries(parent: Directory, directories: seq<Directory>, i: nat,
                              relativePath: string, indent: string, r: Renderer)
    requires i <= |directories|
    requires forall d :: d in directories ==> d in parent.subdirectories
    ensures forall l :: l in DirectoryLines(parent, directories, i, relativePath, indent, r) <==>
      exists k :: i <= k < |directories| && l in EntryLines(directories[k], relativePath, indent, r)
  {
    forall l | l in DirectoryLines(parent, directories, i, relativePath, indent, r)
      ensures exists k :: i <= k < |directories| && l in EntryLines(directories[k], relativePath, indent, r)
    {
      WrittenLineInEntry(parent, directories, i, relativePath, indent, r, l);
    }
    forall l, k | i <= k < |directories| && l in EntryLines(directories[k], relativePath, indent, r)
      ensures l in DirectoryLines(parent, directories, i, relativePath, indent, r)
    {
      EntryLineWritten(parent, directories, i, k, relativePath, indent, r, l);
    }
  }

  /** A line written for `directories[i..]` belongs to the entry of one of them. */
  lemma {:induction false} WrittenLineInEntry(parent: Directory, directories: seq<Directory>, i: nat,
                                               relativePath: string, indent: string, r: Renderer, l: string)
    requires i <= |directories|
    requires forall d :: d in directories ==> d in parent.subdirectories
    requires l in DirectoryLines(parent, directories, i, relativePath, indent, r)
    ensures exists k :: i <= k < |directories| && l in EntryLines(directories[k], relativePath, indent, r)
    decreases |directories| - i
  {
    if l !in EntryLines(directories[i], relativePath, indent, r) {
      WrittenLineInEntry(parent, directories, i + 1, relativePath, indent, r, l);
    }
  }

  /** Every line of the entry of `directories[k]`, `i <= k`, is written for `directories[i..]`. */
  lemma {:induction false} EntryLineWritten(parent: Directory, directories: seq<Directory>, i: nat, k: nat,
                                             relativePath: string, indent: string, r: Renderer, l: string)
    requires i <= k < |directories|
    requires forall d :: d in directories ==> d in parent.subdirectories
    requires l in EntryLines(directories[k], relativePath, indent, r)
    ensures l in DirectoryLines(parent, directories, i, relativePath, indent, r)
    decreases |directories| - i
  {
    if k > i {
      EntryLineWritten(parent, directories, i + 1, k, relativePath, indent, r, l);
    }
  }

  /** Every line of a directory's layout starts with its indent, and is longer than it. */
  lemma {:induction false} LayoutIndented(dir: Directory, relativePath: string, indent: string, r: Renderer)
    ensures forall l :: l in LayoutLines(dir, relativePath, indent, r) ==> indent < l
    decreases dir, 1
  {
    DirectoryLinesIndented(dir, SortedDirectories(dir), 0, relativePath, indent, r);
    FileLinesIndented(SortBy(dir.files, LexLe), 0, relativePath, indent, r);
  }

  lemma {:induction false} DirectoryLinesIndented(parent: Directory, directories: seq<Directory>, i: nat,
                                                   relativePath: string, indent: string, r: Renderer)
    requires i <= |directories|
    requires forall d :: d in directories ==> d in parent.subdirectories
    ensures forall l :: l in DirectoryLines(parent, directories, i, relativePath, indent, r) ==> indent < l
    decreases parent, 0, |directories| - i
  {
    if i < |directories| {
      var d := directories[i];
      assert d in parent.subdirectories;
      var path := ChildPath(relativePath, d.name);
      DirectoryLinesStep(parent, directories, i, relativePath, indent, r);
      LayoutIndented(d, path, indent + "  ", r);
      DirectoryLinesIndented(parent, directories, i + 1, relativePath, indent, r);
      assert indent < DirectoryLine(indent, d.name) by {
        assert DirectoryLine(indent, d.name) == indent + (FolderIcon + " " + d.name + "/");
      }
      var inner := LayoutLines(d, path, indent + "  ", r);
      EntryIndented(indent, if r.skipDirectory(d.name, path) then [] else [DirectoryLine(indent, d.name)] + inner,
                    DirectoryLine(indent, d.name), inner, DirectoryLines(parent, directories, i + 1, relativePath, indent, r));
    }
  }

  /** A directory's entry (its line and its deeper-indented contents, or nothing) followed by indented lines is indented. */
  lemma EntryIndented(indent: string, entry: seq<string>, line: string, inner: seq<string>, rest: seq<string>)
    requires entry == [] || entry == [line] + inner
    requires indent < line
    requires forall l :: l in inner ==> indent + "  " < l
    requires forall l :: l in rest ==> indent < l
    ensures forall l :: l in entry + rest ==> indent < l
  {
    forall l | l in entry + rest ensures indent < l {
      if l in inner {
        DeeperIndent(indent, l);
      }
    }
  }

  /** A line indented two more spaces is indented. */
  lemma DeeperIndent(indent: string, l: string)
    requires indent + "  " < l
    ensures indent < l
  {
    assert l[..|indent|] == (indent + "  ")[..|indent|];
  }

  lemma {:induction false} FileLinesIndented(files: seq<string>, j: nat, relativePath: string, indent: string, r: Renderer)
    requires j <= |files|
    ensures forall l :: l in FileLines(files, j, relativePath, indent, r) ==> indent < l
    decreases |files| - j
  {
    if j < |files| {
      FileLinesIndented(files, j + 1, relativePath, indent, r);
      assert indent < FileLine(indent, files[j], r);
    }
  }

  /** r2 leaves out every entry r1 leaves out, and shows the same icons. */
  ghost predicate HidesMore(r1: Renderer, r2: Renderer) {
    && (forall name, path :: r1.skipDirectory(name, path) ==> r2.skipDirectory(name, path))
    && (forall name, path :: r1.skipFile(name, path) ==> r2.skipFile(name, path))
    && (forall name :: r1.fileIcon(name) == r2.fileIcon(name))
  }

  /** A renderer that hides more writes no line the other does not write. */
  lemma {:induction false} LayoutShrinks(dir: Directory, relativePath: string, indent: string, r1: Renderer, r2: Renderer)
    requires HidesMore(r1, r2)
    ensures forall l :: l in LayoutLines(dir, relativePath, indent, r2) ==> l in LayoutLines(dir, relativePath, indent, r1)
    decreases dir, 1
  {
    DirectoryLinesShrink(dir, SortedDirectories(dir), 0, relativePath, indent, r1, r2);
    FileLinesShrink(SortBy(dir.files, LexLe), 0, relativePath, indent, r1, r2);
  }

  lemma {:induction false} DirectoryLinesShrink(parent: Directory, directories: seq<Directory>, i: nat,
                                                 relativePath: string, indent: string, r1: Renderer, r2: Renderer)
    requires HidesMore(r1, r2)
    requires i <= |directories|
    requires forall d :: d in directories ==> d in parent.subdirectories
    ensures forall l :: l in DirectoryLines(parent, directories, i, relativePath, indent, r2) ==>
              l in DirectoryLines(parent, directories, i, relativePath, indent, r1)
    decreases parent, 0, |directories| - i
  {
    if i < |directories| {
      var d := directories[i];
      assert d in parent.subdirectories;
      var path := ChildPath(relativePath, d.name);
      if !r2.skipDirectory(d.name, path) {
        LayoutShrinks(d, path, indent + "  ", r1, r2);
      }
      DirectoryLinesStep(parent, directories, i, relativePath, indent, r1);
      DirectoryLinesStep(parent, directories, i, relativePath, indent, r2);
      DirectoryLinesShrink(parent, directories, i + 1, relativePath, indent, r1, r2);
    }
  }

  lemma {:induction false} FileLinesShrink(files: seq<string>, j: nat, relativePath: string, indent: string,
                                           r1: Renderer, r2: Renderer)
    requires HidesMore(r1, r2)
    requires j <= |files|
    ensures forall l :: l in FileLines(files, j, relativePath, indent, r2) ==> l in FileLines(files, j, relativePath, indent, r1)
    decreases |files| - j
  {
    if j < |files| {
      FileLinesShrink(files, j + 1, relativePath, indent, r1, r2);
      assert FileLine(indent, files[j], r2) == FileLine(indent, files[j], r1);
    }
  }

  /** More `--ignore-dir` and `--ignore-file` entries make a renderer that hides more. */
  lemma MoreIgnoresHideMore(gitignoreLines: seq<string>, isMatch: (string, string) -> bool,
                            directories1: set<string>, files1: set<string>,
                            directories2: set<string>, files2: set<string>)
    requires directories1 <= directories2 && files1 <= files2
    ensures HidesMore(LayoutRenderer(gitignoreLines, directories1, files1, isMatch),
                      LayoutRenderer(gitignoreLines, directories2, files2, isMatch))
  {
    var dirs1, dirs2 := FileFilters.AllIgnoredDirectories(false, directories1), FileFilters.AllIgnoredDirectories(false, directories2);
    var fs1, fs2 := FileFilters.AllIgnoredFiles(false, files1), FileFilters.AllIgnoredFiles(false, files2);
    var regexes := Gitignore.CompileGitignoreRules(Gitignore.LoadGitignoreRules(gitignoreLines));
    var binary := FileFilters.LayoutBinaryExtensions;
    FileFilters.ConfiguredSetMonotone(FileFilters.IgnoredDirectories, FileFilters.BlazorIgnoredDirectories,
                                      false, false, directories1, directories2);
    FileFilters.ConfiguredSetMonotone(FileFilters.IgnoredFiles, FileFilters.BlazorIgnoredFiles,
                                      false, false, files1, files2);
    forall name, path ensures SkipDirectory(name, path, dirs1, regexes, isMatch) ==> SkipDirectory(name, path, dirs2, regexes, isMatch) {
      InIgnoreCaseMonotone(name, dirs1, dirs2);
    }
    forall name, path
      ensures SkipFile(name, path, fs1, binary, regexes, isMatch) ==> SkipFile(name, path, fs2, binary, regexes, isMatch)
    {
      SkipFileMonotone(name, path, fs1, fs2, binary, regexes, isMatch);
    }
  }

  lemma SkipFileMonotone(name: string, path: string, files1: set<string>, files2: set<string>, binaryExtensions: set<string>,
                         regexes: seq<string>, isMatch: (string, string) -> bool)
    requires files1 <= files2
    ensures SkipFile(name, path, files1, binaryExtensions, regexes, isMatch)
        ==> SkipFile(name, path, files2, binaryExtensions, regexes, isMatch)
  {
  }

  /** When every file is skipped, no file line is written. */
  lemma {:induction false} AllFilesSkipped(files: seq<string>, j: nat, relativePath: string, indent: string, r: Renderer)
    requires j <= |files|
    requires forall k :: j <= k < |files| ==> r.skipFile(files[k], ChildPath(relativePath, files[k]))
    ensures FileLines(files, j, relativePath, indent, r) == []
    decreases |files| - j
  {
    if j < |files| {
      AllFilesSkipped(files, j + 1, relativePath, indent, r);
    }
  }

  /**
   * With the single .gitignore rule `build/` and a regex engine that reads
   * it as its tokens, a top-level `build` directory keeps its own line but
   * shows none of its files: its relative path `build` has no trailing `/`.
   */
  lemma BuildRuleKeepsDirectoryLine(files: seq<string>, ignoredDirectories: set<string>, ignoredFiles: set<string>,
                                    binaryExtensions: set<string>, isMatch: (string, string) -> bool)
    requires !InIgnoreCase("build", ignoredDirectories)
    requires forall p :: isMatch(Gitignore.Translate("build/"), p) == Gitignore.RuleMatches("build/", p)
    ensures var r := MakeRenderer(ignoredDirectories, ignoredFiles, binaryExtensions, Gitignore.CompileGitignoreRules(["build/"]), isMatch);
      LayoutLines(Directory("", [Directory("build", [], files)], []), "", "", r) == [DirectoryLine("", "build")]
  {
    var rule := Gitignore.Translate("build/");
    assert Gitignore.CompileGitignoreRules(["build/"]) == [rule] by {
      assert Gitignore.StripNegation("build/") == "build/";
    }
    var r := MakeRenderer(ignoredDirectories, ignoredFiles, binaryExtensions, [rule], isMatch);
    BuildRendererDecisions(ignoredDirectories, ignoredFiles, binaryExtensions, isMatch);
    var build := Directory("build", [], files);
    AllFilesSkipped(SortBy(files, LexLe), 0, "build", "  ", r);
    assert LayoutLines(build, "build", "  ", r) == [] by {
      assert SortedDirectories(build) == [];
    }
    SingleDirectoryLayout(build, r);
  }

  /** Under the single rule `build/`, the directory `build` is shown and every file inside it is skipped. */
  lemma BuildRendererDecisions(ignoredDirectories: set<string>, ignoredFiles: set<string>,
                               binaryExtensions: set<string>, isMatch: (string, string) -> bool)
    requires !InIgnoreCase("build", ignoredDirectories)
    requires forall p :: isMatch(Gitignore.Translate("build/"), p) == Gitignore.RuleMatches("build/", p)
    ensures var r := MakeRenderer(ignoredDirectories, ignoredFiles, binaryExtensions, [Gitignore.Translate("build/")], isMatch);
      && !r.skipDirectory("build", "build")
      && forall name :: r.skipFile(name, ChildPath("build", name))
  {
    var rule := Gitignore.Translate("build/");
    var r := MakeRenderer(ignoredDirectories, ignoredFiles, binaryExtensions, [rule], isMatch);
    BuildDirectoryShown(rule, ignoredDirectories, isMatch);
    forall name ensures r.skipFile(name, ChildPath("build", name)) {
      BuildFileSkipped(rule, name, ignoredFiles, binaryExtensions, isMatch);
    }
  }

  lemma BuildDirectoryShown(rule: string, ignoredDirectories: set<string>, isMatch: (string, string) -> bool)
    requires rule == Gitignore.Translate("build/")
    requires !InIgnoreCase("build", ignoredDirectories)
    requires forall p :: isMatch(rule, p) == Gitignore.RuleMatches("build/", p)
    ensures !SkipDirectory("build", "build", ignoredDirectories, [rule], isMatch)
  {
    Gitignore.BuildRuleSparesDirectory();
    SingleRuleIgnores(rule, "build", isMatch);
  }

  lemma BuildFileSkipped(rule: string, name: string, ignoredFiles: set<string>, binaryExtensions: set<string>,
                         isMatch: (string, string) -> bool)
    requires rule == Gitignore.Translate("build/")
    requires forall p :: isMatch(rule, p) == Gitignore.RuleMatches("build/", p)
    ensures SkipFile(name, ChildPath("build", name), ignoredFiles, binaryExtensions, [rule], isMatch)
  {
    Gitignore.BuildRuleHidesEverythingInside(name);
    SingleRuleIgnores(rule, "build/" + name, isMatch);
    assert ChildPath("build", name) == "build/" + name;
  }

  /** With one compiled rule, a path is ignored exactly when that rule matches it. */
  lemma SingleRuleIgnores(regex: string, relativePath: string, isMatch: (string, string) -> bool)
    ensures Gitignore.IsIgnoredByGitignore(relativePath, [regex], isMatch) == isMatch(regex, relativePath)
  {
    if isMatch(regex, relativePath) {
      assert [regex][0] == regex;
    }
  }

  /** A root holding only one directory, kept but with nothing visible inside, lays out as that directory's line. */
  lemma SingleDirectoryLayout(d: Directory, r: Renderer)
    requires !r.skipDirectory(d.name, d.name)
    requires LayoutLines(d, d.name, "  ", r) == []
    ensures LayoutLines(Directory("", [d], []), "", "", r) == [DirectoryLine("", d.name)]
  {
    var root := Directory("", [d], []);
    assert SortedDirectories(root) == [d];
    DirectoryLinesStep(root, [d], 0, "", "", r);
    assert [d][0] == d;
    assert "" + "  " == "  ";
    assert ChildPath("", d.name) == d.name;
    var line := DirectoryLine("", d.name);
    assert ([line] + LayoutLines(d, d.name, "  ", r)) + [] == [line];
    assert DirectoryLines(root, [d], 1, "", "", r) == [];
    assert DirectoryLines(root, [d], 0, "", "", r) == [DirectoryLine("", d.name)];
    assert SortBy(root.files, LexLe) == [];
    assert LayoutLines(root, "", "", r) == DirectoryLines(root, [d], 0, "", "", r) + FileLines([], 0, "", "", r);
  }
}
