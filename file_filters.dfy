/**
 * Which files of a solution survive: the per-file test of DiscoverFiles
 * (TokenizeSolution and its V2-LLM variant, identical apart from layout),
 * IsBlazorSpecificExclusion, and the filter-then-sort of the first
 * program's GetRelevantFiles.
 *
 * Files are given as relative paths with `/` as separator; the full path of
 * a file is the root, a `/`, and its relative path. The compiled gitignore
 * rules are matched through the abstract `isMatch(regex, path)`.
 */
module FileFilters {
  import opened Text
  import opened Sorting
  import Gitignore

  // ---------------------------------------------------------------------
  // Path helpers (Path.GetFileName, Path.GetExtension with `/` separators)
  // ---------------------------------------------------------------------

  /** The index of the last c in s, or -1. */
  function LastIndexOf(s: string, c: char): (i: int)
    ensures -1 <= i < |s|
    ensures i >= 0 ==> s[i] == c
    ensures forall j :: i < j < |s| ==> s[j] != c
  {
    if s == [] then -1
    else if s[|s| - 1] == c then |s| - 1
    else LastIndexOf(s[..|s| - 1], c)
  }

  /** Path.GetFileName: the part after the last `/`. */
  function FileName(path: string): (name: string)
    ensures EndsWith(path, name) && '/' !in name
    ensures |name| < |path| ==> path[|path| - |name| - 1] == '/'
  {
    path[LastIndexOf(path, '/') + 1..]
  }

  /**
   * Path.GetExtension: from the last `.` of the file name to its end, or
   * empty when the name has no `.` or ends with it. A name such as
   * `.gitignore` is all extension.
   */
  function Extension(path: string): (ext: string)
    ensures ext == [] || (|ext| >= 2 && ext[0] == '.' && '.' !in ext[1..] && EndsWith(FileName(path), ext))
    ensures ext == [] <==> ('.' !in FileName(path) || FileName(path)[|FileName(path)| - 1] == '.')
  {
    var name := FileName(path);
    var k := LastIndexOf(name, '.');
    if k < 0 then
      assert '.' !in name by {
        forall j | 0 <= j < |name| ensures name[j] != '.' { }
      }
      []
    else if k == |name| - 1 then []
    else
      var ext := name[k..];
      assert '.' !in ext[1..] by {
        forall j | 0 <= j < |ext[1..]| ensures ext[1..][j] != '.' {
          assert ext[1..][j] == name[k + 1 + j];
        }
      }
      ext
  }

  /** The full path the file system reports for a file: root, separator, relative path. */
  function FullPath(root: string, relativePath: string): string {
    root + "/" + relativePath
  }

  // ---------------------------------------------------------------------
  // The fixed sets (all compared with OrdinalIgnoreCase)
  // ---------------------------------------------------------------------

  const IgnoredDirectories: set<string> := {
    "bin", "obj", ".vs", ".idea", ".vscode", ".vsconfig", ".vspscc", ".suo", ".user",
    "packages", "node_modules", "bower_components", "jspm_packages", "typings",
    ".git", ".svn", ".hg",
    ".env", ".env.local", ".env.development", ".env.production", ".env.test",
    "temp", "tmp", "cache", ".cache",
    "logs", "*.log",
    ".DS_Store", "Thumbs.db", "desktop.ini",
    "*.userprefs", "*.sln.cache", "*.suo", "*.lock"
  }

  const BlazorIgnoredDirectories: set<string> := {
    "wwwroot/lib", "wwwroot/_framework", "wwwroot/_content",
    "dist", "build", "out", "publish",
    "sass-cache", ".sass-cache", "css", "js/lib", "js/libs", "js/vendor",
    "packages", "package", "nuget", ".nuget",
    "clientbin", "generatedassets", "_bin_deployableassemblies",
    "launchsettings", ".launchsettings"
  }

  const IgnoredFiles: set<string> := {
    ".gitignore", ".gitattributes", ".gitmodules", ".gitkeep",
    ".npmrc", ".yarnrc", ".editorconfig", ".eslintrc", ".prettierrc",
    "package-lock.json", "yarn.lock", "pnpm-lock.yaml",
    "*.tmp", "*.bak", "*.swp", "*.swo", "*.log", "*.pid", "*.seed", "*.pid.lock"
  }

  const BlazorIgnoredFiles: set<string> := {
    "*.min.css", "*.min.js", "*.bundle.js", "*.bundle.css",
    "blazor.boot.json", "blazor.webassembly.js", "dotnet.js", "dotnet.wasm",
    "*.nupkg", "*.snupkg", "*.symbols.nupkg",
    "*.nuspec", "packages.config", "packages.lock.json",
    "*.compiled.css", "*.generated.css", "*.scss.css", "*.less.css",
    "webpack.config.js", "rollup.config.js", "vite.config.js",
    "tsconfig.json", "jsconfig.json",
    "launchSettings.json", "*.pubxml", "*.pubxml.user",
    "*.dll.config", "*.exe.config", "*.runtimeconfig.json",
    "*.deps.json", "*.pdb", "*.xml", "*.resources"
  }

  /** The binary extensions of the first program: images, audio, video, archives, binaries, office files, fonts. */
  const BaseBinaryExtensions: set<string> := {
    ".png", ".jpg", ".jpeg", ".gif", ".bmp", ".ico", ".svg", ".webp",
    ".mp3", ".wav", ".ogg", ".flac", ".aac",
    ".mp4", ".avi", ".mkv", ".mov", ".wmv", ".flv",
    ".zip", ".rar", ".tar", ".gz", ".7z",
    ".exe", ".dll", ".pdb", ".so", ".dylib", ".lib",
    ".doc", ".docx", ".xls", ".xlsx", ".ppt", ".pptx", ".pdf",
    ".ttf", ".otf", ".woff", ".woff2", ".eot"
  }

  /** The directory-layout program adds resource files. */
  const LayoutBinaryExtensions: set<string> := BaseBinaryExtensions + {".res", ".resx"}

  /** TokenizeSolution and V2-LLM add WebAssembly and compressed files as well. */
  const BinaryExtensions: set<string> := LayoutBinaryExtensions + {".wasm", ".blat", ".dat", ".br"}

  const BlazorRelevantExtensions: set<string> := {
    ".cs", ".razor", ".cshtml",
    ".csproj", ".sln", ".props", ".targets",
    ".json", ".xml", ".yaml", ".yml",
    ".css", ".js", ".html", ".htm",
    ".md", ".txt", ".rst"
  }

  /**
   * An ignore set as the programs build it: a HashSet compared with
   * OrdinalIgnoreCase, seeded with the base set, united with the Blazor set
   * for Blazor projects, then with the user's additions. A name equal to a
   * member ignoring case is not added, so its spelling is lost.
   */
  function ConfiguredSet(base: set<string>, blazor: set<string>, isBlazorProject: bool, additional: set<string>): (r: set<string>)
    ensures base <= r
    ensures r <= base + (if isBlazorProject then blazor else {}) + additional
    ensures isBlazorProject ==> forall x :: x in blazor ==> InIgnoreCase(x, r)
    ensures forall x :: x in additional ==> InIgnoreCase(x, r)
    ensures forall x :: InIgnoreCase(x, r) <==>
      InIgnoreCase(x, base) || (isBlazorProject && InIgnoreCase(x, blazor)) || InIgnoreCase(x, additional)
  {
    var seeded := if isBlazorProject then UnionIgnoreCase(base, blazor) else base;
    UnionIgnoreCase(seeded, additional)
  }

  /** The ignored directories DiscoverFiles uses. */
  function AllIgnoredDirectories(isBlazorProject: bool, additional: set<string>): set<string> {
    ConfiguredSet(IgnoredDirectories, BlazorIgnoredDirectories, isBlazorProject, additional)
  }

  /** The ignored files DiscoverFiles uses, built the same way. */
  function AllIgnoredFiles(isBlazorProject: bool, additional: set<string>): set<string> {
    ConfiguredSet(IgnoredFiles, BlazorIgnoredFiles, isBlazorProject, additional)
  }

  /** `--ignore-dir Bin` adds nothing: `bin` is already a member, so the spelling `Bin` is not stored. */
  lemma BinSpellingDropped()
    ensures "Bin" !in AllIgnoredDirectories(false, {"Bin"})
    ensures InIgnoreCase("Bin", AllIgnoredDirectories(false, {"Bin"}))
  {
    assert "bin" in IgnoredDirectories && EqualsIgnoreCase("bin", "Bin");
    assert "Bin" !in IgnoredDirectories;
  }

  /** `--ignore-file *.LOG` likewise leaves the set as it is, since `*.log` is a member. */
  lemma UpperCaseLogEntryDropped()
    ensures AllIgnoredFiles(false, {"*.LOG"}) == IgnoredFiles
  {
    assert "*.log" in IgnoredFiles && EqualsIgnoreCase("*.log", "*.LOG");
    UnionIgnoreCaseOfKnownName(IgnoredFiles, "*.LOG");
  }

  // ---------------------------------------------------------------------
  // The tests DiscoverFiles combines
  // ---------------------------------------------------------------------

  /** Some ignored directory d appears as `/d/` in the full path (ordinal) or starts the relative path as `d/` (ignoring case). */
  predicate InIgnoredDirectory(fullPath: string, relativePath: string, ignoredDirectories: set<string>) {
    exists d :: d in ignoredDirectories &&
      (Contains(fullPath, "/" + d + "/") || StartsWithIgnoreCase(relativePath, d + "/"))
  }

  /** A `*.ext` entry whose `.ext` ends the name, ignoring case. */
  predicate MatchesWildcardIgnoreCase(fileName: string, ignoredFiles: set<string>) {
    exists e :: e in ignoredFiles && StartsWith(e, "*.") && EndsWithIgnoreCase(fileName, e[1..])
  }

  /** The same test with an ordinal EndsWith, as GetRelevantFiles and the layout program write it. */
  predicate MatchesWildcardOrdinal(fileName: string, ignoredFiles: set<string>) {
    exists e :: e in ignoredFiles && StartsWith(e, "*.") && EndsWith(fileName, e[1..])
  }

  /** DiscoverFiles' ignored-file test: the name is in the set, or a `*.ext` entry ends it. */
  predicate IsIgnoredFile(fileName: string, ignoredFiles: set<string>) {
    InIgnoreCase(fileName, ignoredFiles) || MatchesWildcardIgnoreCase(fileName, ignoredFiles)
  }

  /** `$` in a .NET regex matches at the very end or before a final line feed. */
  predicate EndsAtRegexEnd(s: string, suffix: string) {
    EndsWith(s, suffix) || EndsWith(s, suffix + "\n")
  }

  /** The regex `.*\.min\.(js|css|html)$`, case-insensitive, found anywhere in the name. */
  predicate IsMinifiedName(fileName: string) {
    var lower := Lower(fileName);
    EndsAtRegexEnd(lower, ".min.js") || EndsAtRegexEnd(lower, ".min.css") || EndsAtRegexEnd(lower, ".min.html")
  }

  /** The regex `.*\.(generated|g|designer)\.(cs|js|css)$`, case-insensitive. */
  predicate IsGeneratedName(fileName: string) {
    var lower := Lower(fileName);
    exists kind, ext :: kind in ["generated", "g", "designer"] && ext in ["cs", "js", "css"]
      && EndsAtRegexEnd(lower, "." + kind + "." + ext)
  }

  /** The directory fragments Blazor projects exclude anywhere below the root. */
  const BlazorExcludedSegments: seq<string> := ["/publish/", "/dist/", "/build/", "/.vs/", "/bin/", "/obj/"]

  /** IsBlazorSpecificExclusion, check by check in the order the source makes them. */
  function IsBlazorSpecificExclusion(relativePath: string, fileName: string, fileExtension: string): (excluded: bool)
    ensures IsMinifiedName(fileName) || IsGeneratedName(fileName) ==> excluded
    ensures !InIgnoreCase(fileExtension, BlazorRelevantExtensions) ==> excluded
    ensures !excluded && StartsWithIgnoreCase(relativePath, "wwwroot/") ==>
      InIgnoreCase(fileExtension, {".html", ".css", ".js"}) && !ContainsIgnoreCase(fileName, ".min.")
    ensures excluded <==>
      || IsMinifiedName(fileName) || IsGeneratedName(fileName)
      || (StartsWithIgnoreCase(relativePath, "wwwroot/")
          && (!InIgnoreCase(fileExtension, {".html", ".css", ".js"}) || ContainsIgnoreCase(fileName, ".min.")))
      || !InIgnoreCase(fileExtension, BlazorRelevantExtensions)
      || (exists i :: 0 <= i < |BlazorExcludedSegments| && ContainsIgnoreCase(relativePath, BlazorExcludedSegments[i]))
  {
    if IsMinifiedName(fileName) then true
    else if IsGeneratedName(fileName) then true
    else if StartsWithIgnoreCase(relativePath, "wwwroot/") && !InIgnoreCase(fileExtension, {".html", ".css", ".js"}) then true
    else if StartsWithIgnoreCase(relativePath, "wwwroot/") && ContainsIgnoreCase(fileName, ".min.") then true
    else if !InIgnoreCase(fileExtension, BlazorRelevantExtensions) then true
    else AnySegmentIn(relativePath, BlazorExcludedSegments)
  }

  /** excludePatterns.Any(p => relativePath.Contains(p, OrdinalIgnoreCase)). */
  predicate AnySegmentIn(relativePath: string, segments: seq<string>)
    ensures AnySegmentIn(relativePath, segments) <==>
      exists i :: 0 <= i < |segments| && ContainsIgnoreCase(relativePath, segments[i])
  {
    if segments == [] then false
    else ContainsIgnoreCase(relativePath, segments[0]) || AnySegmentIn(relativePath, segments[1..])
  }

  /** The per-file test of DiscoverFiles: the file is written to the channel exactly when this holds. */
  predicate DiscoverFilesKeeps(root: string, relativePath: string,
                               ignoredDirectories: set<string>, ignoredFiles: set<string>,
                               gitignoreRegexes: seq<string>, isMatch: (string, string) -> bool,
                               isBlazorProject: bool)
  {
    var fullPath := FullPath(root, relativePath);
    var fileName := FileName(relativePath);
    var fileExtension := Extension(relativePath);
    && !InIgnoredDirectory(fullPath, relativePath, ignoredDirectories)
    && !IsIgnoredFile(fileName, ignoredFiles)
    && !InIgnoreCase(fileExtension, BinaryExtensions)
    && !Gitignore.IsIgnoredByGitignore(relativePath, gitignoreRegexes, isMatch)
    && !(isBlazorProject && IsBlazorSpecificExclusion(relativePath, fileName, fileExtension))
  }

  /** The full paths of the enumerated files that pass `keep`, in enumeration order. */
  function KeptPaths(root: string, relativePaths: seq<string>, keep: string -> bool): (kept: seq<string>)
    ensures |kept| <= |relativePaths|
    ensures forall f :: f in kept <==> exists rel :: rel in relativePaths && keep(rel) && f == FullPath(root, rel)
  {
    if relativePaths == [] then []
    else
      var rest := KeptPaths(root, relativePaths[1..], keep);
      assert forall rel :: rel in relativePaths <==> rel == relativePaths[0] || rel in relativePaths[1..];
      (if keep(relativePaths[0]) then [FullPath(root, relativePaths[0])] else []) + rest
  }

  /**
   * DiscoverFiles: the full paths of the files that pass, and the number of
   * files enumerated. The channel's order is not modelled: the paths come in
   * enumeration order.
   */
  function DiscoverFiles(root: string, relativePaths: seq<string>,
                         ignoredDirectories: set<string>, ignoredFiles: set<string>,
                         gitignoreRegexes: seq<string>, isMatch: (string, string) -> bool,
                         isBlazorProject: bool): (result: (seq<string>, int))
    ensures result.1 == |relativePaths| && |result.0| <= |relativePaths|
    ensures forall f :: f in result.0 <==>
                          exists rel :: rel in relativePaths && f == FullPath(root, rel)
                                        && DiscoverFilesKeeps(root, rel, ignoredDirectories, ignoredFiles, gitignoreRegexes, isMatch, isBlazorProject)
  {
    (KeptPaths(root, relativePaths,
               rel => DiscoverFilesKeeps(root, rel, ignoredDirectories, ignoredFiles, gitignoreRegexes, isMatch, isBlazorProject)),
     |relativePaths|)
  }

  // ---------------------------------------------------------------------
  // What DiscoverFiles always excludes, and how its inputs narrow it
  // ---------------------------------------------------------------------

  /** A file under an ignored directory at the top of the tree is dropped, whatever the case of the directory name. */
  lemma TopLevelIgnoredDirectoryExcluded(root: string, d: string, rest: string,
                                         ignoredDirectories: set<string>, ignoredFiles: set<string>,
                                         gitignoreRegexes: seq<string>, isMatch: (string, string) -> bool,
                                         isBlazorProject: bool, spelled: string)
    requires d in ignoredDirectories && EqualsIgnoreCase(spelled, d)
    ensures !DiscoverFilesKeeps(root, spelled + "/" + rest, ignoredDirectories, ignoredFiles, gitignoreRegexes, isMatch, isBlazorProject)
  {
    var rel := spelled + "/" + rest;
    LowerAppend(spelled + "/", rest);
    LowerAppend(spelled, "/");
    LowerAppend(d, "/");
    assert Lower(rel) == Lower(d + "/") + Lower(rest);
    assert StartsWithIgnoreCase(rel, d + "/");
  }

  /** `.git`, `node_modules` and `bin` at the top of the tree are dropped in every configuration. */
  lemma CommonDirectoriesAlwaysExcluded(root: string, d: string, rest: string, isBlazorProject: bool,
                                        additionalDirectories: set<string>, ignoredFiles: set<string>,
                                        gitignoreRegexes: seq<string>, isMatch: (string, string) -> bool)
    requires d in [".git", "node_modules", "bin"]
    ensures !DiscoverFilesKeeps(root, d + "/" + rest, AllIgnoredDirectories(isBlazorProject, additionalDirectories),
                                ignoredFiles, gitignoreRegexes, isMatch, isBlazorProject)
  {
    var dirs := AllIgnoredDirectories(isBlazorProject, additionalDirectories);
    CommonDirectoryIgnored(d);
    TopLevelIgnoredDirectoryExcluded(root, d, rest, dirs, ignoredFiles, gitignoreRegexes, isMatch, isBlazorProject, d);
  }

  lemma CommonDirectoryIgnored(d: string)
    requires d in [".git", "node_modules", "bin"]
    ensures d in IgnoredDirectories
  {
  }

  /** Files with a binary extension, in any case, are dropped in every configuration. */
  lemma BinaryFilesAlwaysExcluded(root: string, relativePath: string,
                                  ignoredDirectories: set<string>, ignoredFiles: set<string>,
                                  gitignoreRegexes: seq<string>, isMatch: (string, string) -> bool,
                                  isBlazorProject: bool, b: string)
    requires b in BinaryExtensions && EqualsIgnoreCase(Extension(relativePath), b)
    ensures !DiscoverFilesKeeps(root, relativePath, ignoredDirectories, ignoredFiles, gitignoreRegexes, isMatch, isBlazorProject)
  {
  }

  /**
   * The directory test also reads the root's own path: when the root lies
   * inside a directory whose name is ignored, such as `/tmp/work` with `tmp`
   * ignored, nothing below it is kept.
   */
  lemma RootInsideIgnoredDirectoryExcludesAll(root: string, relativePath: string, d: string,
                                             ignoredDirectories: set<string>, ignoredFiles: set<string>,
                                             gitignoreRegexes: seq<string>, isMatch: (string, string) -> bool,
                                             isBlazorProject: bool)
    requires d in ignoredDirectories && Contains(root, "/" + d + "/")
    ensures !DiscoverFilesKeeps(root, relativePath, ignoredDirectories, ignoredFiles, gitignoreRegexes, isMatch, isBlazorProject)
  {
    ContainsInContext([], root, "/" + relativePath, "/" + d + "/");
    assert [] + root + ("/" + relativePath) == FullPath(root, relativePath);
  }

  lemma TmpRootExcludesAll(relativePath: string, isBlazorProject: bool, additionalDirectories: set<string>,
                           ignoredFiles: set<string>, gitignoreRegexes: seq<string>, isMatch: (string, string) -> bool)
    ensures !DiscoverFilesKeeps("/tmp/work", relativePath, AllIgnoredDirectories(isBlazorProject, additionalDirectories),
                                ignoredFiles, gitignoreRegexes, isMatch, isBlazorProject)
  {
    assert "tmp" in IgnoredDirectories;
    assert "/" + "tmp" + "/" <= "/tmp/work";
    RootInsideIgnoredDirectoryExcludesAll("/tmp/work", relativePath, "tmp",
      AllIgnoredDirectories(isBlazorProject, additionalDirectories), ignoredFiles, gitignoreRegexes, isMatch, isBlazorProject);
  }

  /** The relative-path check adds nothing over the full-path check except case-insensitivity. */
  lemma RelativeCheckOnlyAddsCaseFolding(root: string, relativePath: string, d: string)
    requires StartsWith(relativePath, d + "/")
    ensures Contains(FullPath(root, relativePath), "/" + d + "/")
  {
    var full := FullPath(root, relativePath);
    var sub := "/" + d + "/";
    assert full[|root|..|root| + |sub|] == sub;
    ContainsAt(full, sub, |root|);
  }

  lemma DirectoryTestMonotone(fullPath: string, relativePath: string, dirs1: set<string>, dirs2: set<string>)
    requires dirs1 <= dirs2 && !InIgnoredDirectory(fullPath, relativePath, dirs2)
    ensures !InIgnoredDirectory(fullPath, relativePath, dirs1)
  {
    forall d | d in dirs1
      ensures !(Contains(fullPath, "/" + d + "/") || StartsWithIgnoreCase(relativePath, d + "/"))
    {
      assert d in dirs2;
    }
  }

  lemma FileTestMonotone(fileName: string, files1: set<string>, files2: set<string>)
    requires files1 <= files2 && !IsIgnoredFile(fileName, files2)
    ensures !IsIgnoredFile(fileName, files1)
  {
    forall e | e in files1 ensures !EqualsIgnoreCase(e, fileName) && !(StartsWith(e, "*.") && EndsWithIgnoreCase(fileName, e[1..])) {
      assert e in files2;
    }
  }

  /** Larger sets, and the Blazor checks, exclude more. */
  lemma KeepsAntitone(root: string, relativePath: string,
                      dirs1: set<string>, files1: set<string>, dirs2: set<string>, files2: set<string>,
                      gitignoreRegexes: seq<string>, isMatch: (string, string) -> bool, isBlazor1: bool, isBlazor2: bool)
    requires dirs1 <= dirs2 && files1 <= files2 && (isBlazor1 ==> isBlazor2)
    requires DiscoverFilesKeeps(root, relativePath, dirs2, files2, gitignoreRegexes, isMatch, isBlazor2)
    ensures DiscoverFilesKeeps(root, relativePath, dirs1, files1, gitignoreRegexes, isMatch, isBlazor1)
  {
    DirectoryTestMonotone(FullPath(root, relativePath), relativePath, dirs1, dirs2);
    FileTestMonotone(FileName(relativePath), files1, files2);
  }

  /**
   * More names from the user give a larger set. Detecting a Blazor project
   * covers more names ignoring case, but not every spelling: a user's `CSS`
   * is stored for other projects and dropped beside the Blazor set's `css`.
   */
  lemma ConfiguredSetMonotone(base: set<string>, blazor: set<string>, isBlazor1: bool, isBlazor2: bool,
                              extra1: set<string>, extra2: set<string>)
    requires extra1 <= extra2 && (isBlazor1 ==> isBlazor2)
    ensures isBlazor1 == isBlazor2 ==> ConfiguredSet(base, blazor, isBlazor1, extra1) <= ConfiguredSet(base, blazor, isBlazor2, extra2)
    ensures forall x :: InIgnoreCase(x, ConfiguredSet(base, blazor, isBlazor1, extra1)) ==>
                          InIgnoreCase(x, ConfiguredSet(base, blazor, isBlazor2, extra2))
  {
    if isBlazor1 == isBlazor2 {
      var seeded := if isBlazor1 then UnionIgnoreCase(base, blazor) else base;
      UnionIgnoreCaseMonotone(seeded, extra1, extra2);
    }
    forall x | InIgnoreCase(x, ConfiguredSet(base, blazor, isBlazor1, extra1))
      ensures InIgnoreCase(x, ConfiguredSet(base, blazor, isBlazor2, extra2))
    {
      InIgnoreCaseMonotone(x, extra1, extra2);
    }
  }

  /** The spelling a user gives can be lost only when the Blazor set is detected. */
  lemma BlazorSetDropsUserSpelling()
    ensures "CSS" in AllIgnoredDirectories(false, {"CSS"})
    ensures "CSS" !in AllIgnoredDirectories(true, {"CSS"})
  {
    CssStoredOutsideBlazor();
    CssDroppedInBlazor();
  }

  lemma CssStoredOutsideBlazor()
    ensures "CSS" in AllIgnoredDirectories(false, {"CSS"})
  {
    CssIsNewToBase();
    UnionIgnoreCaseSpelling(IgnoredDirectories, "CSS");
  }

  lemma CssDroppedInBlazor()
    ensures "CSS" !in AllIgnoredDirectories(true, {"CSS"})
  {
    CssSpellingAbsent();
    CssIsBlazorDirectory();
    VariantOfSeedDropped(IgnoredDirectories, BlazorIgnoredDirectories, "css", "CSS");
  }

  lemma CssIsBlazorDirectory()
    ensures "css" in BlazorIgnoredDirectories && EqualsIgnoreCase("css", "CSS")
  {
  }

  /** A user's spelling of a name the seeded set already holds in another spelling is not stored. */
  lemma VariantOfSeedDropped(base: set<string>, blazor: set<string>, e: string, x: string)
    requires e in blazor && EqualsIgnoreCase(e, x) && x !in base + blazor
    ensures x !in ConfiguredSet(base, blazor, true, {x})
  {
    var seeded := UnionIgnoreCase(base, blazor);
    assert InIgnoreCase(x, blazor);
    UnionIgnoreCaseSpelling(seeded, x);
  }

  lemma CssIsNewToBase()
    ensures !InIgnoreCase("CSS", IgnoredDirectories)
  {
    var x := "CSS";
    assert |x| == 3 && LowerChar(x[0]) == 'c';
    NoBaseDirectoryStartsWithC();
    NotInIgnoreCaseByFirst(x, IgnoredDirectories);
  }

  /** A name whose length and folded first character no member shares is new ignoring case. */
  lemma NotInIgnoreCaseByFirst(x: string, elements: set<string>)
    requires |x| > 0
    requires forall d :: d in elements && |d| == |x| ==> LowerChar(d[0]) != LowerChar(x[0])
    ensures !InIgnoreCase(x, elements)
  {
    forall d | d in elements ensures !EqualsIgnoreCase(d, x) {
      if |d| == |x| {
        assert Lower(d)[0] != Lower(x)[0];
      }
    }
  }

  lemma CssSpellingAbsent()
    ensures "CSS" !in IgnoredDirectories + BlazorIgnoredDirectories
  {
  }

  lemma NoBaseDirectoryStartsWithC()
    ensures forall d :: d in IgnoredDirectories && |d| == 3 ==> LowerChar(d[0]) != 'c'
  {
  }

  /**
   * Every excluded fragment is wrapped in `/`, so a path with a single `/`
   * escapes them all: `bin/app.cs` is kept by this check.
   */
  lemma SingleSlashPathMissesSegments(a: string, b: string, segments: seq<string>)
    requires '/' !in a && '/' !in b
    requires forall i :: 0 <= i < |segments| ==>
               |segments[i]| >= 2 && segments[i][0] == '/' && segments[i][|segments[i]| - 1] == '/'
    ensures !AnySegmentIn(a + "/" + b, segments)
  {
    var s := a + "/" + b;
    var l := Lower(s);
    forall j | 0 <= j < |l| && j != |a| ensures l[j] != '/' {
      if j < |a| { assert s[j] == a[j]; } else { assert s[j] == b[j - |a| - 1]; }
    }
    forall i | 0 <= i < |segments| ensures !ContainsIgnoreCase(s, segments[i]) {
      var seg := Lower(segments[i]);
      forall k: nat ensures !OccursAt(l, seg, k) {
        if k + |seg| <= |l| {
          if k != |a| {
            assert l[k..k + |seg|][0] != seg[0];
          } else {
            assert l[k..k + |seg|][|seg| - 1] != seg[|seg| - 1];
          }
        }
      }
      NotContainsWithoutPosition(l, seg);
    }
  }

  /** A fragment that appears in the path, in any case, makes AnySegmentIn hold. */
  lemma SegmentInsidePath(a: string, b: string, segments: seq<string>, i: nat)
    requires i < |segments|
    ensures AnySegmentIn(a + segments[i] + b, segments)
  {
    var seg := segments[i];
    LowerAppend(a + seg, b);
    LowerAppend(a, seg);
    ContainsAt(Lower(seg), Lower(seg), 0);
    ContainsInContext(Lower(a), Lower(seg), Lower(b), Lower(seg));
  }

  /** Every fragment Blazor projects exclude starts and ends with `/`. */
  lemma ExcludedSegmentsAreWrapped()
    ensures forall i :: 0 <= i < |BlazorExcludedSegments| ==>
              |BlazorExcludedSegments[i]| >= 2 && BlazorExcludedSegments[i][0] == '/'
              && BlazorExcludedSegments[i][|BlazorExcludedSegments[i]| - 1] == '/'
  {
    forall i | 0 <= i < |BlazorExcludedSegments|
      ensures |BlazorExcludedSegments[i]| >= 2 && BlazorExcludedSegments[i][0] == '/'
              && BlazorExcludedSegments[i][|BlazorExcludedSegments[i]| - 1] == '/'
    {
      if i == 0 {} else if i == 1 {} else if i == 2 {} else if i == 3 {} else if i == 4 {} else {}
    }
  }

  /** Only a directory fragment with a `/` in front is caught: `bin/app.cs` passes that check. */
  lemma TopLevelBinPassesSegmentCheck()
    ensures !AnySegmentIn("bin/app.cs", BlazorExcludedSegments)
  {
    ExcludedSegmentsAreWrapped();
    assert "bin/app.cs" == "bin" + "/" + "app.cs" && '/' !in "bin" && '/' !in "app.cs" by {
      assert "bin/app.cs"[..3] == "bin" && "bin/app.cs"[4..] == "app.cs";
    }
    SingleSlashPathMissesSegments("bin", "app.cs", BlazorExcludedSegments);
  }

  /** A nested `bin` directory is caught by the same check. */
  lemma NestedBinFailsSegmentCheck()
    ensures AnySegmentIn("src/bin/app.cs", BlazorExcludedSegments)
  {
    var segments, path := BlazorExcludedSegments, "src/bin/app.cs";
    assert segments[4] == "/bin/";
    assert path == "src" + segments[4] + "app.cs";
    SegmentInsidePath("src", "app.cs", segments, 4);
  }

  /** Contains only holds where the fragment occurs. */
  lemma {:induction false} NotContainsWithoutPosition(s: string, sub: string)
    requires forall k: nat :: !OccursAt(s, sub, k)
    ensures !Contains(s, sub)
    decreases |s|
  {
    assert !OccursAt(s, sub, 0);
    if s != [] {
      forall k: nat ensures !OccursAt(s[1..], sub, k) {
        assert !OccursAt(s, sub, k + 1);
        if k + |sub| <= |s[1..]| {
          assert s[1..][k..k + |sub|] == s[k + 1..k + 1 + |sub|];
        }
      }
      NotContainsWithoutPosition(s[1..], sub);
    }
  }

  // ---------------------------------------------------------------------
  // GetRelevantFiles (the first program)
  // ---------------------------------------------------------------------

  /** GetRelevantFiles' per-file test: only the full path is searched for ignored directories, and `*.ext` entries compare with case. */
  predicate RelevantFileKeeps(root: string, relativePath: string,
                              ignoredDirectories: set<string>, ignoredFiles: set<string>,
                              gitignoreRegexes: seq<string>, isMatch: (string, string) -> bool)
  {
    var fullPath := FullPath(root, relativePath);
    var fileName := FileName(relativePath);
    && !(exists d :: d in ignoredDirectories && Contains(fullPath, "/" + d + "/"))
    && !(InIgnoreCase(fileName, ignoredFiles) || MatchesWildcardOrdinal(fileName, ignoredFiles))
    && !InIgnoreCase(Extension(relativePath), BaseBinaryExtensions)
    && !Gitignore.IsIgnoredByGitignore(relativePath, gitignoreRegexes, isMatch)
  }

  /**
   * GetRelevantFiles: reads the rules from the .gitignore lines, adds the
   * user's names to the fixed sets, keeps the files that pass, and orders
   * them by full path.
   */
  function GetRelevantFiles(root: string, relativePaths: seq<string>, gitignoreLines: seq<string>,
                            additionalDirectories: set<string>, additionalFiles: set<string>,
                            isMatch: (string, string) -> bool): seq<string>
  {
    var regexes := Gitignore.CompileGitignoreRules(Gitignore.LoadGitignoreRules(gitignoreLines));
    RelevantFilesWith(root, relativePaths, AllIgnoredDirectories(false, additionalDirectories),
                      AllIgnoredFiles(false, additionalFiles), regexes, isMatch)
  }

  /** The Where and OrderBy of GetRelevantFiles for given sets and rules. */
  function RelevantFilesWith(root: string, relativePaths: seq<string>, dirs: set<string>, files: set<string>,
                             regexes: seq<string>, isMatch: (string, string) -> bool): (result: seq<string>)
    ensures SortedBy(result, LexLe)
    ensures forall f :: f in result <==>
                          exists rel :: rel in relativePaths && f == FullPath(root, rel)
                                        && RelevantFileKeeps(root, rel, dirs, files, regexes, isMatch)
  {
    var keep := rel => RelevantFileKeeps(root, rel, dirs, files, regexes, isMatch);
    SortedKeptPaths(root, relativePaths, keep);
    SortBy(KeptPaths(root, relativePaths, keep), LexLe)
  }

  /** GetRelevantFiles returns exactly the enumerated files that pass its test, in full-path order. */
  lemma GetRelevantFilesCorrect(root: string, relativePaths: seq<string>, gitignoreLines: seq<string>,
                                additionalDirectories: set<string>, additionalFiles: set<string>,
                                isMatch: (string, string) -> bool)
    ensures var result := GetRelevantFiles(root, relativePaths, gitignoreLines, additionalDirectories, additionalFiles, isMatch);
      var regexes := Gitignore.CompileGitignoreRules(Gitignore.LoadGitignoreRules(gitignoreLines));
      && SortedBy(result, LexLe)
      && (forall f :: f in result <==>
                        exists rel :: rel in relativePaths && f == FullPath(root, rel)
                                      && RelevantFileKeeps(root, rel, AllIgnoredDirectories(false, additionalDirectories),
                                                           AllIgnoredFiles(false, additionalFiles), regexes, isMatch))
  {
    var regexes := Gitignore.CompileGitignoreRules(Gitignore.LoadGitignoreRules(gitignoreLines));
    var dirs, files := AllIgnoredDirectories(false, additionalDirectories), AllIgnoredFiles(false, additionalFiles);
    var result := RelevantFilesWith(root, relativePaths, dirs, files, regexes, isMatch);
    assert GetRelevantFiles(root, relativePaths, gitignoreLines, additionalDirectories, additionalFiles, isMatch) == result;
  }

  /** Sorting the kept paths orders them and neither adds nor loses any. */
  lemma SortedKeptPaths(root: string, relativePaths: seq<string>, keep: string -> bool)
    ensures var result := SortBy(KeptPaths(root, relativePaths, keep), LexLe);
      && SortedBy(result, LexLe)
      && (forall f :: f in result <==> exists rel :: rel in relativePaths && keep(rel) && f == FullPath(root, rel))
  {
    var kept := KeptPaths(root, relativePaths, keep);
    LexLeIsTotalPreorder();
    SortBySorted(kept, LexLe);
    var result := SortBy(kept, LexLe);
    forall f ensures f in result <==> f in kept {
      assert f in result <==> f in multiset(result);
      assert f in kept <==> f in multiset(kept);
    }
  }

  lemma LexLeIsTotalPreorder()
    ensures TotalPreorder(LexLe)
  {
    forall a, b ensures LexLe(a, b) || LexLe(b, a) { LexLeTotal(a, b); }
    forall a, b, c | LexLe(a, b) && LexLe(b, c) ensures LexLe(a, c) { LexLeTransitive(a, b, c); }
  }

  /**
   * The two programs disagree on case: with `*.log` ignored, DiscoverFiles
   * drops `A.LOG` while GetRelevantFiles keeps it (the ordinal test implies
   * the case-insensitive one, never the reverse).
   */
  lemma WildcardCaseDifference(fileName: string, ignoredFiles: set<string>)
    ensures MatchesWildcardOrdinal(fileName, ignoredFiles) ==> MatchesWildcardIgnoreCase(fileName, ignoredFiles)
    ensures MatchesWildcardIgnoreCase("A.LOG", {"*.log"}) && !MatchesWildcardOrdinal("A.LOG", {"*.log"})
  {
    WildcardOrdinalImpliesIgnoreCase(fileName, ignoredFiles);
    UpperCaseLogMatchesIgnoringCaseOnly();
  }

  lemma WildcardOrdinalImpliesIgnoreCase(fileName: string, ignoredFiles: set<string>)
    ensures MatchesWildcardOrdinal(fileName, ignoredFiles) ==> MatchesWildcardIgnoreCase(fileName, ignoredFiles)
  {
    if MatchesWildcardOrdinal(fileName, ignoredFiles) {
      var e :| e in ignoredFiles && StartsWith(e, "*.") && EndsWith(fileName, e[1..]);
      var k := |fileName| - |e[1..]|;
      assert fileName == fileName[..k] + e[1..];
      LowerAppend(fileName[..k], e[1..]);
      assert EndsWithIgnoreCase(fileName, e[1..]);
    }
  }

  lemma UpperCaseLogMatchesIgnoringCaseOnly()
    ensures MatchesWildcardIgnoreCase("A.LOG", {"*.log"}) && !MatchesWildcardOrdinal("A.LOG", {"*.log"})
  {
    assert "*.log"[1..] == ".log";
    assert Lower("A.LOG") == "a.log";
    assert Lower(".log") == ".log";
    assert "A.LOG"[1..] == ".LOG";
  }
}
