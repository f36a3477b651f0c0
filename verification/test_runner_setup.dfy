/** How a `TestRunner` is built before it runs: the base directory found from
    `ext.php`, the rule objects loaded from the test files, and the extension's
    files read into memory together with their listing. */
module TestRunnerSetup {
  import opened Wrappers
  import opened PhpStrings
  import opened TestRunner

  /** The marker file an extension must hold exactly once. */
  const ExtMarker := "ext.php"

  /** The namespace every rule class lives in (`\epv\Tests\Tests\`). */
  const TestNamespace := "\\epv\\Tests\\Tests\\"

  /** `setBasedir`: the search for `ext.php` must find exactly one file, and the
      base directory is its path with `ext.php` removed wherever it occurs. */
  function SetBasedir(extMatches: seq<string>): (r: Result<string, TestError>)
    ensures r.Failure? <==> |extMatches| != 1
    ensures r.Failure? ==> r.error == ExtNotFound
    ensures r.Success? ==> |r.value| <= |extMatches[0]|
  {
    if |extMatches| != 1 then Failure(ExtNotFound)
    else
      var basedir := ReplaceAll(extMatches[0], ExtMarker, "");
      ReplaceAllShrinks(extMatches[0], ExtMarker);
      Success(basedir)
  }

  /** When `ext.php` appears in its path only as the file name, the base
      directory is the directory holding it, trailing '/' included. */
  lemma BasedirIsMarkerDirectory(dir: string)
    requires forall i :: i < |dir| ==> !OccursAt(dir + ExtMarker, ExtMarker, i)
    ensures SetBasedir([dir + ExtMarker]) == Success(dir)
  {
    ReplaceAllSoleSuffix(dir, ExtMarker, "");
    assert dir + "" == dir;
  }

  /** Every `ext.php` in the path is removed, not only the file name: the part
      before the first occurrence is kept, and the rest loses its occurrences too. */
  lemma BasedirRemovesEveryMarker(a: string, b: string)
    requires forall i :: i < |a| ==> !OccursAt(a + ExtMarker + b, ExtMarker, i)
    ensures SetBasedir([a + ExtMarker + b]) == Success(a + ReplaceAll(b, ExtMarker, ""))
  {
    ReplaceAllFirstOccurrence(a, ExtMarker, b, "");
    assert a + "" == a;
  }

  /** A directory named `ext.php` in the path loses its name as well:
      `/x/ext.php/ext.php` yields the base directory `/x//`. */
  lemma BasedirOfRepeatedMarker()
    ensures SetBasedir(["/x/ext.php/ext.php"]) == Success("/x//")
  {
    var a, c := "/x/", "/";
    var b := c + ExtMarker;
    var s := a + ExtMarker + b;
    assert s == "/x/ext.php/ext.php";
    assert s[0] == '/' && s[1] == 'x' && s[2] == '/';
    NoOccurrenceWithoutFirstChar(s, ExtMarker, |a|);
    BasedirRemovesEveryMarker(a, b);
    assert b[0] == '/';
    NoOccurrenceWithoutFirstChar(b, ExtMarker, |c|);
    ReplaceAllSoleSuffix(c, ExtMarker, "");
    assert a + (c + "") == "/x//";
  }

  /** An entry of the directory walk: its path relative to the root, and its
      resolved path, or `None` when `getRealPath()` gives `false`. */
  datatype FoundFile = FoundFile(relativePathname: string, realPath: Option<string>)

  /** The resolved paths of the readable entries, in walk order. */
  function ReadablePaths(found: seq<FoundFile>): (ps: seq<string>)
    ensures |ps| <= |found|
    ensures forall p :: p in ps <==> exists j :: 0 <= j < |found| && found[j].realPath == Some(p)
    ensures (forall j :: 0 <= j < |found| ==> found[j].realPath.Some?) ==>
              ps == seq(|found|, j requires 0 <= j < |found| => found[j].realPath.value)
    decreases |found|
  {
    if |found| == 0 then []
    else
      var last := found[|found| - 1];
      ReadablePaths(found[..|found| - 1]) + (if last.realPath.Some? then [last.realPath.value] else [])
  }

  /** Splitting the walk splits the readable paths: the kept paths of two
      stretches of entries, one after the other, in walk order. */
  lemma {:induction false} ReadablePathsAppend(a: seq<FoundFile>, b: seq<FoundFile>)
    ensures ReadablePaths(a + b) == ReadablePaths(a) + ReadablePaths(b)
    decreases |b|
  {
    if |b| == 0 {
      assert a + b == a;
    } else {
      var b' := b[..|b| - 1];
      assert (a + b)[..|a + b| - 1] == a + b';
      assert (a + b)[|a + b| - 1] == b[|b| - 1];
      ReadablePathsAppend(a, b');
    }
  }

  /** The listing entry for a file: its real path with every occurrence of the
      root directory removed. */
  function ListingEntry(directory: string, realPath: string): string {
    ReplaceAll(realPath, directory, "")
  }

  /** `loadFiles`: walks the found entries in order, reports and skips the
      unreadable ones, and keeps the loaded files and their listing entries
      side by side, position for position. */
  method LoadFiles(directory: string, found: seq<FoundFile>, load: string -> FileModel)
    returns (files: seq<FileModel>, dirList: seq<string>, skipped: nat)
    ensures |files| == |dirList| == |ReadablePaths(found)|
    ensures forall k :: 0 <= k < |files| ==>
              files[k] == load(ReadablePaths(found)[k])
              && dirList[k] == ListingEntry(directory, ReadablePaths(found)[k])
    ensures skipped + |files| == |found|
  {
    files, dirList, skipped := [], [], 0;
    var i := 0;
    while i < |found|
      invariant 0 <= i <= |found|
      invariant |files| == |dirList| == |ReadablePaths(found[..i])|
      invariant forall k :: 0 <= k < |files| ==>
                  files[k] == load(ReadablePaths(found[..i])[k])
                  && dirList[k] == ListingEntry(directory, ReadablePaths(found[..i])[k])
      invariant skipped + |files| == i
    {
      assert found[..i + 1][..i] == found[..i];
      var entry := found[i];
      if entry.realPath.None? {
        // An entry without a real path is reported as unreadable and skipped.
        skipped := skipped + 1;
      } else {
        files := files + [load(entry.realPath.value)];
        dirList := dirList + [ListingEntry(directory, entry.realPath.value)];
      }
      i := i + 1;
    }
    assert found[..i] == found;
  }

  /** A file below the root is listed by the rest of its path, provided the root
      string does not occur again in that rest. */
  lemma ListingEntryOfFileUnderRoot(directory: string, rest: string)
    requires |directory| > 0
    requires forall i :: !OccursAt(rest, directory, i)
    ensures ListingEntry(directory, directory + rest) == rest
  {
    var p := directory + rest;
    assert p[..|directory|] == directory;
    assert p[|directory|..] == rest;
    ReplaceAllWithoutOccurrence(rest, directory, "");
  }

  /** Every copy of the root in a real path is removed: the part before the first
      copy is kept, and the rest loses its copies too. */
  lemma ListingEntryRemovesEveryRoot(directory: string, a: string, b: string)
    requires |directory| > 0
    requires forall i :: i < |a| ==> !OccursAt(a + directory + b, directory, i)
    ensures ListingEntry(directory, a + directory + b) == a + ListingEntry(directory, b)
  {
    ReplaceAllFirstOccurrence(a, directory, b, "");
    assert a + "" == a;
  }

  /** The class a test file names: the rule namespace followed by the file's
      base name with `.php` removed. */
  function ClassName(realPath: string): string {
    TestNamespace + ReplaceAll(Basename(realPath), ".php", "")
  }

  /** A test file `dir/stem.php` names the class `\epv\Tests\Tests\stem`. */
  lemma ClassNameOfTestFile(dir: string, stem: string)
    requires '/' !in stem
    requires forall i :: i < |stem| ==> !OccursAt(stem + ".php", ".php", i)
    ensures ClassName(dir + "/" + stem + ".php") == TestNamespace + stem
  {
    var name := stem + ".php";
    assert dir + "/" + stem + ".php" == dir + "/" + name;
    assert '/' !in name by {
      forall i | 0 <= i < |name| ensures name[i] != '/' {
        if i < |stem| {
          assert name[i] == stem[i];
        }
      }
    }
    BasenameAfterSlash(dir, name);
    ReplaceAllSoleSuffix(stem, ".php", "");
  }

  /** What instantiating a rule class produced: the rule object, and whether it
      implements `TestInterface`. */
  datatype LoadedTest = LoadedTest(implementsTestInterface: bool, rule: Rule)

  /** The object the class named by test file `path` yields for the base directory. */
  function Instance(path: string, basedir: string, instantiate: (string, string) -> LoadedTest): LoadedTest {
    instantiate(ClassName(path), basedir)
  }

  /** `tryToLoadTest`: instantiates the class the file names and keeps it only
      when it implements the test interface; otherwise loading stops with an
      error naming that class. */
  function TryToLoadTest(path: string, basedir: string, instantiate: (string, string) -> LoadedTest)
    : (r: Result<Rule, TestError>)
    ensures r.Success? <==> Instance(path, basedir, instantiate).implementsTestInterface
    ensures r.Success? ==> r.value == Instance(path, basedir, instantiate).rule
    ensures r.Failure? ==> r.error == NotATest(ClassName(path))
  {
    var loaded := instantiate(ClassName(path), basedir);
    if !loaded.implementsTestInterface then Failure(NotATest(ClassName(path)))
    else Success(loaded.rule)
  }

  /** `loadTests`: loads the test files in order; the first class that does not
      implement the test interface aborts loading, otherwise there is one rule
      per file, in file order. */
  method LoadTests(testFiles: seq<string>, basedir: string, instantiate: (string, string) -> LoadedTest)
    returns (r: Result<seq<Rule>, TestError>)
    ensures r.Success? <==>
              forall i :: 0 <= i < |testFiles| ==> Instance(testFiles[i], basedir, instantiate).implementsTestInterface
    ensures r.Success? ==>
              |r.value| == |testFiles|
              && forall i :: 0 <= i < |testFiles| ==> r.value[i] == Instance(testFiles[i], basedir, instantiate).rule
    ensures r.Failure? ==>
              exists i :: 0 <= i < |testFiles|
                && r.error == NotATest(ClassName(testFiles[i]))
                && !Instance(testFiles[i], basedir, instantiate).implementsTestInterface
                && forall j :: 0 <= j < i ==> Instance(testFiles[j], basedir, instantiate).implementsTestInterface
  {
    var rules: seq<Rule> := [];
    var i := 0;
    while i < |testFiles|
      invariant 0 <= i <= |testFiles|
      invariant |rules| == i
      invariant forall j :: 0 <= j < i ==> Instance(testFiles[j], basedir, instantiate).implementsTestInterface
      invariant forall j :: 0 <= j < i ==> rules[j] == Instance(testFiles[j], basedir, instantiate).rule
    {
      var loaded := TryToLoadTest(testFiles[i], basedir, instantiate);
      if loaded.Failure? {
        return Failure(loaded.error);
      }
      rules := rules + [loaded.value];
      i := i + 1;
    }
    return Success(rules);
  }

  /** A constructed runner: its base directory, rules, files and listing. */
  datatype Runner = Runner(basedir: string, tests: seq<Rule>, files: seq<FileModel>, dirList: seq<string>)

  /** The `TestRunner` constructor: base directory, then rules, then files. A
      missing or repeated `ext.php` stops it before any rule or file is loaded,
      and a non-conforming rule class stops it before any file is loaded. */
  method Construct(directory: string, extMatches: seq<string>, testFiles: seq<string>,
                   found: seq<FoundFile>, instantiate: (string, string) -> LoadedTest,
                   load: string -> FileModel)
    returns (r: Result<Runner, TestError>)
    ensures |extMatches| != 1 ==> r == Failure(ExtNotFound)
    ensures r.Failure? && |extMatches| == 1 ==>
              exists i :: 0 <= i < |testFiles|
                && r.error == NotATest(ClassName(testFiles[i]))
                && !Instance(testFiles[i], SetBasedir(extMatches).value, instantiate).implementsTestInterface
                && forall j :: 0 <= j < i ==> Instance(testFiles[j], SetBasedir(extMatches).value, instantiate).implementsTestInterface
    ensures r.Success? ==>
              && SetBasedir(extMatches) == Success(r.value.basedir)
              && |r.value.tests| == |testFiles|
              && (forall i :: 0 <= i < |testFiles| ==>
                    r.value.tests[i] == Instance(testFiles[i], r.value.basedir, instantiate).rule)
              && |r.value.files| == |r.value.dirList| == |ReadablePaths(found)|
              && (forall k :: 0 <= k < |r.value.files| ==>
                    r.value.files[k] == load(ReadablePaths(found)[k])
                    && r.value.dirList[k] == ListingEntry(directory, ReadablePaths(found)[k]))
  {
    var basedir := SetBasedir(extMatches);
    if basedir.Failure? {
      return Failure(basedir.error);
    }
    var tests := LoadTests(testFiles, basedir.value, instantiate);
    if tests.Failure? {
      return Failure(tests.error);
    }
    var files, dirList, _ := LoadFiles(directory, found, load);
    return Success(Runner(basedir.value, tests.value, files, dirList));
  }
}
