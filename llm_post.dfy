/**
 * The post-processing of TokenizeSolution-V2-LLM: each surviving file
 * becomes a FileInfo record (category, token estimate), the records are
 * ordered for an LLM reader, and the ordered list is cut to a token budget.
 */
module LlmPostProcessing {
  import opened Text
  import opened Sorting
  import FileFilters
  import Compaction

  // ---------------------------------------------------------------------
  // Records
  // ---------------------------------------------------------------------

  /** The seven file categories. */
  datatype FileCategory = Configuration | Source | Markup | Style | Script | Documentation | Data

  /** The record kept for each file that has content after compaction. */
  datatype FileInfo = FileInfo(
    path: string,        // relative path with `/` separators
    extension: string,   // Path.GetExtension, case as on disk
    content: string,     // compacted content
    category: FileCategory,
    tokenEstimate: int)

  datatype Option<T> = None | Some(value: T)

  /** ExtensionCategoryMap; its keys are compared with OrdinalIgnoreCase. */
  const ExtensionCategoryMap: map<string, FileCategory> := map[
    ".cs" := Source,
    ".razor" := Markup, ".cshtml" := Markup, ".html" := Markup, ".htm" := Markup,
    ".css" := Style, ".scss" := Style, ".less" := Style,
    ".js" := Script, ".ts" := Script, ".jsx" := Script, ".tsx" := Script,
    ".json" := Configuration, ".xml" := Configuration, ".yaml" := Configuration, ".yml" := Configuration,
    ".csproj" := Configuration, ".sln" := Configuration, ".props" := Configuration, ".targets" := Configuration,
    ".md" := Documentation, ".txt" := Documentation, ".rst" := Documentation,
    ".sql" := Data
  ]

  /** Every key of the map is written in lower case. */
  predicate LowerCaseKeys(m: map<string, FileCategory>) {
    forall k :: k in m ==> Lower(k) == k
  }

  /**
   * `ExtensionCategoryMap.GetValueOrDefault(extension, FileCategory.Source)`.
   * With lower-case keys, a key equals the extension ignoring case exactly
   * when it equals the lower-cased extension.
   */
  function CategoryOf(extension: string): FileCategory {
    var key := Lower(extension);
    if key in ExtensionCategoryMap then ExtensionCategoryMap[key] else Source
  }

  /** The case-insensitive lookup of a map with lower-case keys, stated through its keys. */
  lemma LookupIgnoresCase(m: map<string, FileCategory>, extension: string)
    requires LowerCaseKeys(m)
    ensures forall k :: k in m && EqualsIgnoreCase(k, extension) ==> Lower(extension) == k
    ensures Lower(extension) in m ==> EqualsIgnoreCase(Lower(extension), extension)
  {
    LowerIdempotent(extension);
  }

  lemma ExtensionKeysAreLowerCase()
    ensures LowerCaseKeys(ExtensionCategoryMap)
  {
    var m := ExtensionCategoryMap;
    forall k | k in m ensures Lower(k) == k {
      assert forall i :: 0 <= i < |k| ==> !('A' <= k[i] <= 'Z');
      LowerOfLowercase(k);
    }
  }

  /**
   * The category of an extension is the category of the key it equals
   * ignoring case; an extension that equals no key is Source.
   */
  lemma CategoryOfCorrect(extension: string)
    ensures forall k :: k in ExtensionCategoryMap && EqualsIgnoreCase(k, extension) ==>
              CategoryOf(extension) == ExtensionCategoryMap[k]
    ensures (forall k :: k in ExtensionCategoryMap ==> !EqualsIgnoreCase(k, extension)) ==>
              CategoryOf(extension) == Source
  {
    ExtensionKeysAreLowerCase();
    LookupIgnoresCase(ExtensionCategoryMap, extension);
  }

  /**
   * EstimateTokens: `content.Length / 4`, a quarter of the length in UTF-16
   * code units rounded down.
   */
  function EstimateTokens(content: string): (tokens: nat)
    ensures 4 * tokens <= Utf16Length(content) < 4 * tokens + 4
  {
    Utf16Length(content) / 4
  }

  /** Characters above U+FFFF count twice: four of them estimate two tokens. */
  lemma AstralCharactersCountTwice()
    ensures EstimateTokens("\U{1F4C1}\U{1F4C1}\U{1F4C1}\U{1F4C1}") == 2
  {
    var s := "\U{1F4C1}\U{1F4C1}\U{1F4C1}\U{1F4C1}";
    assert s[1..][1..][1..][1..] == [];
  }

  /**
   * The record-building step of ProcessFilesAsync for the file at
   * `root/relativePath`: the content is compacted, a whitespace-only result
   * is skipped, anything else is recorded with its category and estimate.
   */
  function ProcessFile(root: string, relativePath: string, rawContent: string,
                       strippers: Compaction.CommentStrippers): (record: Option<FileInfo>)
  {
    var file := FileFilters.FullPath(root, relativePath);
    var extension := FileFilters.Extension(file);
    var content := Compaction.CompactContentLlm(file, rawContent, strippers);
    if IsBlank(content) then None
    else Some(FileInfo(relativePath, extension, content, CategoryOf(extension), EstimateTokens(content)))
  }

  /** Compacted content is blank only when it is empty. */
  lemma CompactedBlankIsEmpty(path: string, content: string, strippers: Compaction.CommentStrippers)
    ensures var r := Compaction.CompactContentLlm(path, content, strippers);
      IsBlank(r) <==> r == []
  {
    var extension := Compaction.LowerExtension(path);
    var text := Compaction.StripComments(extension, content, strippers);
    var lines := Compaction.KeptLines(text);
    Compaction.CompactLinesLlmByKept(extension, text);
    if lines != [] {
      var joiner := if Compaction.OpensMarkup(lines[0]) || Compaction.IsStructured(extension) then "\n" else " ";
      Compaction.JoinKept(lines, joiner);
    }
  }

  /**
   * A file is skipped exactly when its comment-stripped text is blank; a
   * recorded file keeps its relative path and extension, the compacted text
   * (never blank), its category from the map (Source when unmapped) and an
   * estimate of a quarter of the text's UTF-16 length.
   */
  lemma ProcessFileCorrect(root: string, relativePath: string, rawContent: string,
                           strippers: Compaction.CommentStrippers)
    ensures var file := FileFilters.FullPath(root, relativePath);
      var extension := Compaction.LowerExtension(file);
      var record := ProcessFile(root, relativePath, rawContent, strippers);
      && (record.None? <==> IsBlank(Compaction.StripComments(extension, rawContent, strippers)))
      && (record.Some? ==>
            && record.value.path == relativePath
            && record.value.extension == FileFilters.Extension(file)
            && record.value.content == Compaction.CompactContentLlm(file, rawContent, strippers)
            && record.value.content != [] && !IsBlank(record.value.content)
            && 4 * record.value.tokenEstimate <= Utf16Length(record.value.content)
                 < 4 * record.value.tokenEstimate + 4
            && record.value.category == CategoryOf(record.value.extension))
  {
    var file := FileFilters.FullPath(root, relativePath);
    var extension := Compaction.LowerExtension(file);
    CompactedBlankIsEmpty(file, rawContent, strippers);
    Compaction.CompactLinesLlmShape(extension, Compaction.StripComments(extension, rawContent, strippers));
  }

  // ---------------------------------------------------------------------
  // GetFileImportance
  // ---------------------------------------------------------------------

  /** Path.GetFileNameWithoutExtension: the file name up to its last `.`. */
  function FileNameWithoutExtension(path: string): (stem: string)
    ensures stem <= FileFilters.FileName(path)
    ensures '.' !in FileFilters.FileName(path) ==> stem == FileFilters.FileName(path)
    ensures '.' in FileFilters.FileName(path) ==>
      && |stem| < |FileFilters.FileName(path)|
      && FileFilters.FileName(path)[|stem|] == '.'
      && '.' !in FileFilters.FileName(path)[|stem| + 1..]
  {
    var name := FileFilters.FileName(path);
    var k := FileFilters.LastIndexOf(name, '.');
    if k < 0 then name
    else
      var tail := name[k + 1..];
      assert '.' !in tail by {
        forall j | 0 <= j < |tail| ensures tail[j] != '.' {
          assert tail[j] == name[k + 1 + j];
        }
      }
      name[..k]
  }

  const ImportantNames: seq<string> := ["program", "startup", "app", "main", "index", "layout", "appsettings"]

  /** `importantNames.Any(name => fileName.Contains(name))` on the lower-cased stem. */
  predicate HasImportantName(path: string) {
    exists n :: n in ImportantNames && Contains(Lower(FileNameWithoutExtension(path)), n)
  }

  /**
   * GetFileImportance: 100 for an important file name; otherwise the first
   * of controller, service, model, component found anywhere in the path
   * (ignoring case) gives 90, 80, 70, 60; anything else 0.
   */
  function GetFileImportance(path: string): (importance: int)
    ensures importance in {0, 60, 70, 80, 90, 100}
    ensures importance == 100 <==> HasImportantName(path)
  {
    if HasImportantName(path) then 100
    else if ContainsIgnoreCase(path, "controller") then 90
    else if ContainsIgnoreCase(path, "service") then 80
    else if ContainsIgnoreCase(path, "model") then 70
    else if ContainsIgnoreCase(path, "component") then 60
    else 0
  }

  /** Lower-casing keeps every character that is not a letter where it was. */
  lemma {:induction false} LastIndexOfLower(s: string, c: char)
    requires !('A' <= c <= 'Z') && !('a' <= c <= 'z')
    ensures FileFilters.LastIndexOf(Lower(s), c) == FileFilters.LastIndexOf(s, c)
  {
    if s != [] {
      var init := s[..|s| - 1];
      assert Lower(s)[..|s| - 1] == Lower(init);
      LastIndexOfLower(init, c);
    }
  }

  lemma LowerSlice(s: string, i: nat, j: nat)
    requires i <= j <= |s|
    ensures Lower(s)[i..j] == Lower(s[i..j])
  {
    LowerSplit(s, j);
    LowerSplit(s[..j], i);
    SliceOfPrefix(s, i, j);
    SliceOfPrefix(Lower(s), i, j);
  }

  lemma SliceOfPrefix(x: string, i: nat, j: nat)
    requires i <= j <= |x|
    ensures x[i..j] == x[..j][i..]
  {
  }

  /** Lower-casing works piece by piece: the text before and after position k. */
  lemma LowerSplit(s: string, k: nat)
    requires k <= |s|
    ensures Lower(s)[..k] == Lower(s[..k]) && Lower(s)[k..] == Lower(s[k..])
  {
    assert s == s[..k] + s[k..];
    LowerAppend(s[..k], s[k..]);
  }

  /** The file name of the lower-cased path is the lower-cased file name. */
  lemma FileNameOfLower(path: string)
    ensures FileFilters.FileName(Lower(path)) == Lower(FileFilters.FileName(path))
  {
    LastIndexOfLower(path, '/');
    LowerSlice(path, FileFilters.LastIndexOf(path, '/') + 1, |path|);
  }

  /** The stem of the lower-cased path is the lower-cased stem. */
  lemma StemOfLower(path: string)
    ensures FileNameWithoutExtension(Lower(path)) == Lower(FileNameWithoutExtension(path))
  {
    var name := FileFilters.FileName(path);
    FileNameOfLower(path);
    LastIndexOfLower(name, '.');
    var k := FileFilters.LastIndexOf(name, '.');
    if k >= 0 {
      LowerSlice(name, 0, k);
    }
  }

  /** GetFileImportance ignores case: a path ranks as its lower-cased form does. */
  lemma ImportanceIgnoresCase(path: string)
    ensures GetFileImportance(Lower(path)) == GetFileImportance(path)
  {
    ImportantNameOfLower(path);
    ContainsIgnoreCaseOfLower(path, "controller");
    ContainsIgnoreCaseOfLower(path, "service");
    ContainsIgnoreCaseOfLower(path, "model");
    ContainsIgnoreCaseOfLower(path, "component");
  }

  lemma ContainsIgnoreCaseOfLower(s: string, sub: string)
    ensures ContainsIgnoreCase(Lower(s), sub) == ContainsIgnoreCase(s, sub)
  {
    LowerIdempotent(s);
  }

  lemma ImportantNameOfLower(path: string)
    ensures HasImportantName(Lower(path)) == HasImportantName(path)
  {
    var stem := FileNameWithoutExtension(path);
    StemOfLower(path);
    LowerIdempotent(stem);
  }

  /**
   * Below 100 the four keywords are tried in order: the importance is 90, 80,
   * 70 or 60 exactly when the path contains that keyword and none before it,
   * and 0 exactly when it contains none of them.
   */
  lemma ImportanceCascade(path: string)
    requires !HasImportantName(path)
    ensures GetFileImportance(path) == 90 <==> ContainsIgnoreCase(path, "controller")
    ensures GetFileImportance(path) == 80 <==>
      !ContainsIgnoreCase(path, "controller") && ContainsIgnoreCase(path, "service")
    ensures GetFileImportance(path) == 70 <==>
      !ContainsIgnoreCase(path, "controller") && !ContainsIgnoreCase(path, "service")
      && ContainsIgnoreCase(path, "model")
    ensures GetFileImportance(path) == 60 <==>
      !ContainsIgnoreCase(path, "controller") && !ContainsIgnoreCase(path, "service")
      && !ContainsIgnoreCase(path, "model") && ContainsIgnoreCase(path, "component")
    ensures GetFileImportance(path) == 0 <==>
      !ContainsIgnoreCase(path, "controller") && !ContainsIgnoreCase(path, "service")
      && !ContainsIgnoreCase(path, "model") && !ContainsIgnoreCase(path, "component")
  {
  }

  /** The name test matches fragments: `Mapper.cs` counts as important because `mapper` contains `app`. */
  lemma FragmentOfNameIsImportant(path: string)
    requires path == "src/Mapper.cs"
    ensures GetFileImportance(path) == 100
  {
    MapperHasImportantName(path);
  }

  lemma MapperHasImportantName(path: string)
    requires path == "src/Mapper.cs"
    ensures HasImportantName(path)
  {
    MapperStem(path);
    LowerMapper();
    AppInMapper();
    ImportantByStem(path, "mapper", ImportantNames[2], 1);
  }

  lemma AppInMapper()
    ensures ImportantNames[2] in ImportantNames && OccursAt("mapper", ImportantNames[2], 1)
  {
  }

  /** A path whose lower-cased stem holds one of the important names at some position is important. */
  lemma ImportantByStem(path: string, lower: string, name: string, k: nat)
    requires Lower(FileNameWithoutExtension(path)) == lower
    requires name in ImportantNames && OccursAt(lower, name, k)
    ensures HasImportantName(path)
  {
    ContainsAt(lower, name, k);
  }

  lemma LowerMapper()
    ensures Lower("Mapper") == "mapper"
  {
  }

  lemma MapperStem(path: string)
    requires path == "src/Mapper.cs"
    ensures FileNameWithoutExtension(path) == "Mapper"
  {
    assert path[3] == '/' && forall j :: 3 < j < |path| ==> path[j] != '/';
    assert FileFilters.LastIndexOf(path, '/') == 3;
    var name := FileFilters.FileName(path);
    assert name == "Mapper.cs";
    assert name[6] == '.' && forall j :: 6 < j < |name| ==> name[j] != '.';
    assert FileFilters.LastIndexOf(name, '.') == 6;
    assert name[..6] == "Mapper";
  }

  // ---------------------------------------------------------------------
  // PrioritizeFilesForLlm
  // ---------------------------------------------------------------------

  /** The categoryPriority dictionary: Configuration first, Data last. */
  function CategoryRank(category: FileCategory): (rank: int)
    ensures 1 <= rank <= 7
  {
    match category
    case Configuration => 1
    case Source => 2
    case Markup => 3
    case Style => 4
    case Script => 5
    case Documentation => 6
    case Data => 7
  }

  /** Every category has its own rank, so the first key orders categories strictly. */
  lemma CategoryRankInjective(a: FileCategory, b: FileCategory)
    ensures CategoryRank(a) == CategoryRank(b) <==> a == b
  {
  }

  /** The depth key: the number of `/` in the relative path. */
  function Depth(f: FileInfo): nat {
    CountChar(f.path, '/')
  }

  /** The four sort keys of a record, in the order they are compared. */
  datatype PriorityKey = PriorityKey(rank: int, depth: int, importance: int, path: string)

  function Key(f: FileInfo): PriorityKey {
    PriorityKey(CategoryRank(f.category), Depth(f), GetFileImportance(f.path), f.path)
  }

  /** Ascending rank, ascending depth, descending importance, ascending path. */
  predicate KeyLe(a: PriorityKey, b: PriorityKey) {
    a.rank < b.rank
    || (a.rank == b.rank
        && (a.depth < b.depth
            || (a.depth == b.depth
                && (a.importance > b.importance
                    || (a.importance == b.importance && LexLe(a.path, b.path))))))
  }

  lemma KeyLeTotal(a: PriorityKey, b: PriorityKey)
    ensures KeyLe(a, b) || KeyLe(b, a)
  {
    LexLeTotal(a.path, b.path);
  }

  lemma KeyLeTransitive(a: PriorityKey, b: PriorityKey, c: PriorityKey)
    requires KeyLe(a, b) && KeyLe(b, c)
    ensures KeyLe(a, c)
  {
    if LexLe(a.path, b.path) && LexLe(b.path, c.path) {
      LexLeTransitive(a.path, b.path, c.path);
    }
  }

  /**
   * OrderBy(category rank).ThenBy(depth).ThenByDescending(importance).ThenBy(path):
   * a may come before b.
   */
  predicate PriorityLe(a: FileInfo, b: FileInfo) {
    KeyLe(Key(a), Key(b))
  }

  lemma PriorityLeIsTotalPreorder()
    ensures TotalPreorder(PriorityLe)
  {
    forall a: FileInfo, b: FileInfo ensures PriorityLe(a, b) || PriorityLe(b, a) {
      KeyLeTotal(Key(a), Key(b));
    }
    forall a: FileInfo, b: FileInfo, c: FileInfo | PriorityLe(a, b) && PriorityLe(b, c) ensures PriorityLe(a, c) {
      KeyLeTransitive(Key(a), Key(b), Key(c));
    }
  }

  /** PrioritizeFilesForLlm: the records in priority order (`OrderBy`, here an insertion sort). */
  function PrioritizeFilesForLlm(files: seq<FileInfo>): (ordered: seq<FileInfo>)
    ensures multiset(ordered) == multiset(files)
  {
    SortBy(files, PriorityLe)
  }

  /**
   * The result is a rearrangement of the input in which every record may
   * precede every later one: categories in rank order, then shallower paths,
   * then more important files, then paths in ordinal order.
   */
  lemma PrioritizeFilesForLlmCorrect(files: seq<FileInfo>)
    ensures var ordered := PrioritizeFilesForLlm(files);
      && multiset(ordered) == multiset(files)
      && SortedBy(ordered, PriorityLe)
      && (forall i, j :: 0 <= i < j < |ordered| ==> CategoryRank(ordered[i].category) <= CategoryRank(ordered[j].category))
  {
    PriorityLeIsTotalPreorder();
    SortBySorted(files, PriorityLe);
  }

  /** Two records of the same category and depth: the more important one comes first. */
  lemma MoreImportantFirst(files: seq<FileInfo>, i: nat, j: nat)
    requires var ordered := PrioritizeFilesForLlm(files);
      i < j < |ordered| && ordered[i].category == ordered[j].category && Depth(ordered[i]) == Depth(ordered[j])
    ensures var ordered := PrioritizeFilesForLlm(files);
      GetFileImportance(ordered[i].path) >= GetFileImportance(ordered[j].path)
  {
    PrioritizeFilesForLlmCorrect(files);
  }

  // ---------------------------------------------------------------------
  // TrimToTokenLimit
  // ---------------------------------------------------------------------

  /** The total token estimate of a list of records. */
  function TokenSum(files: seq<FileInfo>): int {
    if files == [] then 0 else TokenSum(files[..|files| - 1]) + files[|files| - 1].tokenEstimate
  }

  /**
   * The TakeWhile condition for the k-th record, evaluated after the first k
   * records were added: the running total plus this record fits the budget,
   * or nothing was taken yet.
   */
  predicate Admits(files: seq<FileInfo>, maxTokens: int, k: nat)
    requires k < |files|
  {
    TokenSum(files[..k]) + files[k].tokenEstimate <= maxTokens || k == 0
  }

  /** The number of records taken when TakeWhile has reached position k. */
  function TakenFrom(files: seq<FileInfo>, maxTokens: int, k: nat): (n: nat)
    requires k <= |files|
    ensures k <= n <= |files|
    decreases |files| - k
  {
    if k == |files| || !Admits(files, maxTokens, k) then k else TakenFrom(files, maxTokens, k + 1)
  }

  /** The length of the prefix TrimToTokenLimit keeps. */
  function TrimmedLength(files: seq<FileInfo>, maxTokens: int): (n: nat)
    ensures n <= |files|
  {
    TakenFrom(files, maxTokens, 0)
  }

  /** TrimToTokenLimit: the loop over `files.TakeWhile(...)` with the `currentTokens` accumulator. */
  method TrimToTokenLimit(files: seq<FileInfo>, maxTokens: int) returns (result: seq<FileInfo>)
    ensures result == files[..TrimmedLength(files, maxTokens)]
  {
    result := [];
    var currentTokens := 0;
    var i := 0;
    while i < |files| && (currentTokens + files[i].tokenEstimate <= maxTokens || |result| <= 0)
      invariant i <= |files| && result == files[..i] && currentTokens == TokenSum(files[..i])
      invariant TakenFrom(files, maxTokens, i) == TrimmedLength(files, maxTokens)
      decreases |files| - i
    {
      assert Admits(files, maxTokens, i);
      TokenSumStep(files, i);
      assert files[..i + 1] == files[..i] + [files[i]];
      result := result + [files[i]];
      currentTokens := currentTokens + files[i].tokenEstimate;
      i := i + 1;
    }
  }

  /** The running total after one more record. */
  lemma TokenSumStep(files: seq<FileInfo>, i: nat)
    requires i < |files|
    ensures TokenSum(files[..i + 1]) == TokenSum(files[..i]) + files[i].tokenEstimate
  {
    assert files[..i + 1][..i] == files[..i];
  }

  /** TakenFrom stops at the first position whose record is not admitted. */
  lemma {:induction false} TakenFromStops(files: seq<FileInfo>, maxTokens: int, k: nat)
    requires k <= |files|
    ensures var n := TakenFrom(files, maxTokens, k);
      && (forall j :: k <= j < n ==> Admits(files, maxTokens, j))
      && (n < |files| ==> !Admits(files, maxTokens, n))
    decreases |files| - k
  {
    if k < |files| && Admits(files, maxTokens, k) {
      TakenFromStops(files, maxTokens, k + 1);
    }
  }

  /**
   * The kept prefix is characterised by two facts: every record in it was
   * admitted, and the record after it (if any) was not.
   */
  lemma TrimmedLengthCharacterised(files: seq<FileInfo>, maxTokens: int, n: nat)
    requires n <= |files|
    ensures n == TrimmedLength(files, maxTokens) <==>
      (forall j :: 0 <= j < n ==> Admits(files, maxTokens, j)) && (n < |files| ==> !Admits(files, maxTokens, n))
  {
    TakenFromStops(files, maxTokens, 0);
  }

  /** The first record is always kept, even when it alone exceeds the budget. */
  lemma TrimKeepsFirst(files: seq<FileInfo>, maxTokens: int)
    requires files != []
    ensures TrimmedLength(files, maxTokens) >= 1
  {
    TakenFromStops(files, maxTokens, 0);
  }

  /** When two or more records are kept, their estimates together fit the budget. */
  lemma TrimWithinBudget(files: seq<FileInfo>, maxTokens: int)
    requires TrimmedLength(files, maxTokens) >= 2
    ensures TokenSum(files[..TrimmedLength(files, maxTokens)]) <= maxTokens
  {
    var n := TrimmedLength(files, maxTokens);
    TakenFromStops(files, maxTokens, 0);
    assert Admits(files, maxTokens, n - 1);
    assert files[..n][..n - 1] == files[..n - 1];
  }

  /** Trimming stops only where the next record would overflow the budget. */
  lemma TrimStopsAtOverflow(files: seq<FileInfo>, maxTokens: int)
    requires TrimmedLength(files, maxTokens) < |files|
    ensures var n := TrimmedLength(files, maxTokens);
      n >= 1 && TokenSum(files[..n]) + files[n].tokenEstimate > maxTokens
  {
    TakenFromStops(files, maxTokens, 0);
  }

  /** A larger budget never keeps fewer records. */
  lemma TrimMonotone(files: seq<FileInfo>, max1: int, max2: int)
    requires max1 <= max2
    ensures TrimmedLength(files, max1) <= TrimmedLength(files, max2)
  {
    TakenFromMonotone(files, max1, max2, 0);
  }

  lemma {:induction false} TakenFromMonotone(files: seq<FileInfo>, max1: int, max2: int, k: nat)
    requires max1 <= max2 && k <= |files|
    ensures TakenFrom(files, max1, k) <= TakenFrom(files, max2, k)
    decreases |files| - k
  {
    if k < |files| && Admits(files, max1, k) {
      TakenFromMonotone(files, max1, max2, k + 1);
    }
  }

  /** With non-negative estimates, the running totals only grow. */
  lemma {:induction false} TokenSumPrefix(files: seq<FileInfo>, k: nat)
    requires k <= |files|
    requires forall f :: f in files ==> f.tokenEstimate >= 0
    ensures TokenSum(files[..k]) <= TokenSum(files)
    decreases |files| - k
  {
    if k < |files| {
      var init := files[..|files| - 1];
      assert files[..k] == init[..k];
      assert files[|files| - 1] in files;
      assert forall f :: f in init ==> f in files;
      TokenSumPrefix(init, k);
    } else {
      assert files[..k] == files;
    }
  }

  /** A budget that covers every (non-negative) estimate keeps every record. */
  lemma TrimKeepsAllWithinBudget(files: seq<FileInfo>, maxTokens: int)
    requires forall f :: f in files ==> f.tokenEstimate >= 0
    requires TokenSum(files) <= maxTokens
    ensures TrimmedLength(files, maxTokens) == |files|
  {
    forall j | 0 <= j < |files| ensures Admits(files, maxTokens, j) {
      TokenSumPrefix(files, j + 1);
      assert files[..j + 1][..j] == files[..j];
    }
    TrimmedLengthCharacterised(files, maxTokens, |files|);
  }

  /**
   * Trimming the priority order keeps the records of highest priority: every
   * kept record may precede every dropped one.
   */
  lemma TrimKeepsHighestPriority(files: seq<FileInfo>, maxTokens: int)
    ensures var ordered := PrioritizeFilesForLlm(files);
      var n := TrimmedLength(ordered, maxTokens);
      forall i, j :: 0 <= i < n <= j < |ordered| ==> PriorityLe(ordered[i], ordered[j])
  {
    PrioritizeFilesForLlmCorrect(files);
  }
}
