/**
 * The grunt step that runs before the require.js build: it picks the
 * locales to build from the command-line options and the string files of a
 * babel repository, and installs defaults on the shared `global.phet`
 * record.
 *
 * The filesystem is an input: a map from path to status, where a path that
 * is not in the map does not exist. A Node `assert(false, ...)` is an
 * `AssertionError` result.
 */
module BeforeRequirejsBuild {
  import opened Wrappers
  import opened JsStrings
  import opened InitializeGlobals

  /** What `fs.statSync` and `fs.readdirSync` report about an existing path. */
  datatype PathStatus = NotADirectory | Directory(entries: seq<string>)

  type FileSystem = map<string, PathStatus>

  /** The error a failing Node `assert` throws, with its message. */
  datatype AssertionError = AssertionError(message: string)

  /** The babel directory holding the translated strings of a repository. */
  function StringsDirectory(repo: string): (dir: string)
    ensures |dir| == |"../babel/"| + |repo|
    ensures dir[..|"../babel/"|] == "../babel/" && dir[|"../babel/"|..] == repo
  {
    "../babel/" + repo
  }

  const FailurePrefix := "Failure checking strings repo location: "

  /** The message every failure of the scan ends with, whatever its cause. */
  function FailureMessage(dir: string): (msg: string)
    ensures |msg| == |FailurePrefix| + |dir| && msg[..|FailurePrefix|] == FailurePrefix && msg[|FailurePrefix|..] == dir
  {
    FailurePrefix + dir
  }

  // ---------------------------------------------------------------------
  // The filename regex /^.*-strings.*\.json/
  // ---------------------------------------------------------------------

  /** The characters a regex `.` does not match. */
  predicate IsLineTerminator(c: char)
  {
    c == '\n' || c == '\r' || c == '\U{2028}' || c == '\U{2029}'
  }

  /** `pat` occurs in `s` starting at index `k`. */
  predicate OccursAt(s: string, pat: string, k: int)
  {
    0 <= k && k + |pat| <= |s| && s[k..k + |pat|] == pat
  }

  /**
   * The regex, read off its definition: from the start of the name, any
   * characters but line terminators, then `-strings`, again any such
   * characters, then `.json`. Nothing is required after `.json`.
   */
  ghost predicate RegexMatches(s: string)
    ensures RegexMatches(s) ==> |s| >= |"-strings"| + |".json"|
  {
    exists i, j :: 0 <= i && i + 8 <= j && OccursAt(s, "-strings", i) && OccursAt(s, ".json", j) &&
      forall k :: 0 <= k < j ==> !IsLineTerminator(s[k])
  }

  /** The first index at or after `from` where `pat` occurs in `s`, or -1. */
  function Find(s: string, pat: string, from: nat): (r: int)
    ensures r == -1 || (from <= r && OccursAt(s, pat, r))
    decreases |s| - from
  {
    if from + |pat| > |s| then -1
    else if s[from..from + |pat|] == pat then from
    else Find(s, pat, from + 1)
  }

  /** `Find` misses no occurrence: -1 only when there is none, otherwise the earliest. */
  lemma {:induction false} FindEarliest(s: string, pat: string, from: nat)
    ensures Find(s, pat, from) == -1 <==> forall k :: from <= k ==> !OccursAt(s, pat, k)
    ensures Find(s, pat, from) >= 0 ==> forall k :: from <= k < Find(s, pat, from) ==> !OccursAt(s, pat, k)
    decreases |s| - from
  {
    if from + |pat| <= |s| && s[from..from + |pat|] != pat {
      FindEarliest(s, pat, from + 1);
    }
  }

  /** The index of the first line terminator in `s`, or `|s|` when there is none. */
  function FirstLineBreak(s: string): (r: nat)
    ensures r <= |s|
  {
    if s == [] then 0
    else if IsLineTerminator(s[0]) then 0
    else 1 + FirstLineBreak(s[1..])
  }

  /** Before `FirstLineBreak` there is no line terminator, and at it there is one. */
  lemma {:induction false} FirstLineBreakIsFirst(s: string)
    ensures forall k :: 0 <= k < FirstLineBreak(s) ==> !IsLineTerminator(s[k])
    ensures FirstLineBreak(s) < |s| ==> IsLineTerminator(s[FirstLineBreak(s)])
  {
    if s != [] && !IsLineTerminator(s[0]) {
      FirstLineBreakIsFirst(s[1..]);
      assert forall k :: 1 <= k < |s| ==> s[k] == s[1..][k - 1];
    }
  }

  /**
   * The regex test as the scan evaluates it: within the first line, the
   * earliest `-strings` followed, at least eight characters on, by `.json`.
   */
  predicate IsStringFileName(s: string)
    ensures IsStringFileName(s) ==> |s| >= |"-strings"| + |".json"|
  {
    var line := s[..FirstLineBreak(s)];
    var i := Find(line, "-strings", 0);
    i >= 0 && Find(line, ".json", i + 8) >= 0
  }

  lemma OccursInPrefix(s: string, n: nat, pat: string, k: int)
    requires n <= |s|
    ensures OccursAt(s[..n], pat, k) <==> OccursAt(s, pat, k) && k + |pat| <= n
  {
    if 0 <= k && k + |pat| <= n {
      assert s[..n][k..k + |pat|] == s[k..k + |pat|];
    }
  }

  /** A name whose first `j + |pat|` characters hold no line terminator, `pat` at `j` included, has its first line break no earlier. */
  lemma LineBreakAfter(s: string, pat: string, j: int)
    requires OccursAt(s, pat, j)
    requires forall t :: 0 <= t < |pat| ==> !IsLineTerminator(pat[t])
    requires forall k :: 0 <= k < j ==> !IsLineTerminator(s[k])
    ensures j + |pat| <= FirstLineBreak(s)
  {
    FirstLineBreakIsFirst(s);
    forall k | j <= k < j + |pat|
      ensures !IsLineTerminator(s[k])
    {
      assert s[k] == s[j..j + |pat|][k - j];
    }
  }

  lemma RegexImpliesTest(s: string)
    requires RegexMatches(s)
    ensures IsStringFileName(s)
  {
    var n := FirstLineBreak(s);
    var line := s[..n];
    var i, j :| 0 <= i && i + 8 <= j && OccursAt(s, "-strings", i) && OccursAt(s, ".json", j) &&
      forall k :: 0 <= k < j ==> !IsLineTerminator(s[k]);
    LineBreakAfter(s, ".json", j);
    OccursInPrefix(s, n, "-strings", i);
    OccursInPrefix(s, n, ".json", j);
    var i0 := Find(line, "-strings", 0);
    FindEarliest(line, "-strings", 0);
    assert 0 <= i0 <= i && i0 + 8 <= j && OccursAt(line, ".json", j);
    FindEarliest(line, ".json", i0 + 8);
    assert Find(line, ".json", i0 + 8) >= 0;
  }

  lemma TestImpliesRegex(s: string)
    requires IsStringFileName(s)
    ensures RegexMatches(s)
  {
    var n := FirstLineBreak(s);
    var line := s[..n];
    FirstLineBreakIsFirst(s);
    var i := Find(line, "-strings", 0);
    var j := Find(line, ".json", i + 8);
    OccursInPrefix(s, n, "-strings", i);
    OccursInPrefix(s, n, ".json", j);
    assert 0 <= i && i + 8 <= j && OccursAt(s, "-strings", i) && OccursAt(s, ".json", j) &&
      forall k :: 0 <= k < j ==> !IsLineTerminator(s[k]);
  }

  /** The executable test and the regex accept the same names. */
  lemma StringFileNameIsRegex(s: string)
    ensures IsStringFileName(s) <==> RegexMatches(s)
  {
    if RegexMatches(s) {
      RegexImpliesTest(s);
    }
    if IsStringFileName(s) {
      TestImpliesRegex(s);
    }
  }

  /** The end is not anchored: anything may follow `.json`, as in `x-strings.json.bak`. */
  lemma StringFileNameUnanchored(name: string, tail: string)
    requires IsStringFileName(name)
    ensures IsStringFileName(name + tail)
  {
    StringFileNameIsRegex(name);
    var i, j :| 0 <= i && i + 8 <= j && OccursAt(name, "-strings", i) && OccursAt(name, ".json", j) &&
      forall k :: 0 <= k < j ==> !IsLineTerminator(name[k]);
    var s := name + tail;
    OccursInPrefix(s, |name|, "-strings", i);
    OccursInPrefix(s, |name|, ".json", j);
    assert s[..|name|] == name;
    assert forall k :: 0 <= k < j ==> s[k] == name[k];
    StringFileNameIsRegex(s);
  }

  /** `prefix-strings` then anything on the same line then `.json` matches. */
  lemma StringFileNameOfParts(prefix: string, middle: string, suffix: string)
    requires forall k :: 0 <= k < |prefix| ==> !IsLineTerminator(prefix[k])
    requires forall k :: 0 <= k < |middle| ==> !IsLineTerminator(middle[k])
    ensures IsStringFileName(prefix + "-strings" + middle + ".json" + suffix)
  {
    var s := prefix + "-strings" + middle + ".json" + suffix;
    var i, j := |prefix|, |prefix| + 8 + |middle|;
    assert s[i..i + 8] == "-strings";
    assert s[j..j + 5] == ".json";
    assert OccursAt(s, "-strings", i) && OccursAt(s, ".json", j);
    assert forall k :: 0 <= k < j ==> !IsLineTerminator(s[k]) by {
      forall k | 0 <= k < j
        ensures !IsLineTerminator(s[k])
      {
        if k < i {
          assert s[k] == prefix[k];
        } else if k >= i + 8 {
          assert s[k] == middle[k - i - 8];
        }
      }
    }
    assert RegexMatches(s);
    StringFileNameIsRegex(s);
  }

  /** Every name that does not contain `-strings` is dropped. */
  lemma NoStringsNoMatch(s: string)
    requires forall k :: !OccursAt(s, "-strings", k)
    ensures !IsStringFileName(s)
  {
    StringFileNameIsRegex(s);
  }

  // ---------------------------------------------------------------------
  // The directory scan
  // ---------------------------------------------------------------------

  /** `readdirSync(directory).filter(...)`: the names the regex accepts, in listing order. */
  function StringFiles(names: seq<string>): (r: seq<string>)
    ensures |r| <= |names|
  {
    if names == [] then []
    else if IsStringFileName(names[0]) then [names[0]] + StringFiles(names[1..])
    else StringFiles(names[1..])
  }

  /** The filter keeps exactly the names the regex accepts. */
  lemma {:induction false} StringFilesMembers(names: seq<string>)
    ensures forall x :: x in StringFiles(names) ==> x in names && IsStringFileName(x)
    ensures forall k :: 0 <= k < |names| && IsStringFileName(names[k]) ==> names[k] in StringFiles(names)
  {
    if names != [] {
      StringFilesMembers(names[1..]);
      assert forall k :: 1 <= k < |names| ==> names[k] == names[1..][k - 1];
    }
  }

  /** The filter keeps order: filtering a concatenation concatenates the filtered parts. */
  lemma {:induction false} StringFilesAppend(a: seq<string>, b: seq<string>)
    ensures StringFiles(a + b) == StringFiles(a) + StringFiles(b)
  {
    if a != [] {
      assert (a + b)[1..] == a[1..] + b;
      StringFilesAppend(a[1..], b);
    } else {
      assert a + b == b;
    }
  }

  /** `filename.substring(filename.indexOf('_') + 1, filename.lastIndexOf('.'))`. */
  function ExtractLocale(filename: string): (locale: string)
    ensures |locale| <= |filename|
  {
    Substring(filename, IndexOf(filename, '_') + 1, LastIndexOf(filename, '.'))
  }

  /** The locale in terms of the positions of the first `_` and the last `.`. */
  lemma ExtractLocaleAt(f: string, u: int, d: int)
    requires IndexOf(f, '_') == u && LastIndexOf(f, '.') == d
    ensures 0 <= d && u + 1 <= d ==> ExtractLocale(f) == f[u + 1..d]
    ensures 0 <= d < u + 1 ==> ExtractLocale(f) == f[d..u + 1]
    ensures d < 0 ==> ExtractLocale(f) == f[..u + 1]
  {
  }

  /** A name `prefix_locale.ext` with no `_` in the prefix and no `.` in the extension gives `locale`. */
  lemma LocaleOfWellFormedName(prefix: string, locale: string, ext: string)
    requires '_' !in prefix && '.' !in ext
    ensures ExtractLocale(prefix + "_" + locale + "." + ext) == locale
  {
    var f := prefix + "_" + locale + ("." + ext);
    assert f == prefix + "_" + locale + "." + ext;
    assert f == prefix + "_" + (locale + "." + ext);
    IndexOfAfter(prefix, '_', locale + "." + ext);
    LastIndexOfBefore(prefix + "_" + locale, '.', ext);
    ExtractLocaleAt(f, |prefix|, |prefix| + 1 + |locale|);
    MiddleSlice(prefix + "_", locale, "." + ext);
  }

  /** With no `_` the locale starts at index 0: `name.ext` gives `name`. */
  lemma LocaleWithoutUnderscore(name: string, ext: string)
    requires '_' !in name && '_' !in ext && '.' !in ext
    ensures ExtractLocale(name + "." + ext) == name
  {
    var f := name + "." + ext;
    assert IndexOf(f, '_') == -1 by {
      assert '_' !in f;
    }
    assert LastIndexOf(f, '.') == |name| by {
      LastIndexOfBefore(name, '.', ext);
    }
    ExtractLocaleAt(f, -1, |name|);
    assert f[0..|name|] == name;
  }

  /**
   * When the first `_` comes after the last `.`, `substring` swaps its
   * bounds: `a.b_c` gives `.b_`, as `x-strings.json_fr` gives `.json_`.
   */
  lemma LocaleWithSwappedBounds(a: string, b: string, c: string)
    requires '_' !in a && '_' !in b && '.' !in b && '.' !in c
    ensures ExtractLocale(a + "." + b + "_" + c) == "." + b + "_"
  {
    var m := "." + b + "_";
    var f := a + m + c;
    assert f == a + "." + b + "_" + c;
    assert '_' !in a + "." + b;
    IndexOfAfter(a + "." + b, '_', c);
    assert f == a + "." + (b + "_" + c);
    LastIndexOfBefore(a, '.', b + "_" + c);
    ExtractLocaleAt(f, |a| + |m| - 1, |a|);
    MiddleSlice(a, m, c);
  }

  /** The middle part of a three-part concatenation. */
  lemma MiddleSlice(a: string, m: string, c: string)
    ensures (a + m + c)[|a|..|a| + |m|] == m
  {
  }

  /** One extracted locale per string file, in the same order. */
  function Locales(files: seq<string>): (r: seq<string>)
    ensures |r| == |files|
  {
    if files == [] then [] else [ExtractLocale(files[0])] + Locales(files[1..])
  }

  lemma {:induction false} LocalesAt(files: seq<string>, k: int)
    requires 0 <= k < |files|
    ensures Locales(files)[k] == ExtractLocale(files[k])
    decreases k
  {
    if k > 0 {
      LocalesAt(files[1..], k - 1);
    }
  }

  /**
   * `getLocalesForRepo`: the fallback followed by the locale of every string
   * file of the repository's babel directory. A missing directory, a path
   * that is not a directory and a directory without string files all end
   * in the same assertion failure, because the catch block re-asserts.
   */
  function LocalesForRepo(repo: string, fallback: string, fs: FileSystem): (r: Result<seq<string>, AssertionError>)
    ensures var dir := StringsDirectory(repo);
      r.Ok? <==> dir in fs && fs[dir].Directory? && StringFiles(fs[dir].entries) != []
    ensures r.Err? ==> r.error == AssertionError(FailureMessage(StringsDirectory(repo)))
    ensures r.Ok? ==> r.value == [fallback] + Locales(StringFiles(fs[StringsDirectory(repo)].entries))
  {
    var dir := StringsDirectory(repo);
    if dir !in fs || fs[dir].NotADirectory? then Err(AssertionError(FailureMessage(dir)))
    else
      var files := StringFiles(fs[dir].entries);
      if files == [] then Err(AssertionError(FailureMessage(dir)))
      else Ok([fallback] + Locales(files))
  }

  /**
   * On success the result is the fallback and then one locale per string
   * file, in listing order; the string files are exactly the entries the
   * regex accepts.
   */
  lemma LocalesForRepoContents(repo: string, fallback: string, fs: FileSystem)
    requires LocalesForRepo(repo, fallback, fs).Ok?
    ensures var r := LocalesForRepo(repo, fallback, fs).value;
      var entries := fs[StringsDirectory(repo)].entries;
      var files := StringFiles(entries);
      |r| == 1 + |files| && r[0] == fallback &&
      (forall k :: 0 <= k < |files| ==> r[k + 1] == ExtractLocale(files[k])) &&
      (forall x :: x in files ==> x in entries && IsStringFileName(x)) &&
      (forall k :: 0 <= k < |entries| && IsStringFileName(entries[k]) ==> entries[k] in files)
  {
    var files := StringFiles(fs[StringsDirectory(repo)].entries);
    StringFilesMembers(fs[StringsDirectory(repo)].entries);
    forall k | 0 <= k < |files|
      ensures LocalesForRepo(repo, fallback, fs).value[k + 1] == ExtractLocale(files[k])
    {
      LocalesAt(files, k);
    }
  }

  /** Extraction keeps order: the locales of a concatenation are the concatenated locales. */
  lemma {:induction false} LocalesAppend(a: seq<string>, b: seq<string>)
    ensures Locales(a + b) == Locales(a) + Locales(b)
  {
    if a != [] {
      assert (a + b)[1..] == a[1..] + b;
      LocalesAppend(a[1..], b);
    } else {
      assert a + b == b;
    }
  }

  /** A file `sim-strings_locale.json` is a string file. */
  lemma WellFormedStringFile(sim: string, locale: string)
    requires forall k :: 0 <= k < |sim| ==> !IsLineTerminator(sim[k])
    requires forall k :: 0 <= k < |locale| ==> !IsLineTerminator(locale[k])
    ensures IsStringFileName(sim + "-strings" + "_" + locale + ".json")
  {
    var middle := "_" + locale;
    assert forall k :: 0 <= k < |middle| ==> !IsLineTerminator(middle[k]) by {
      forall k | 1 <= k < |middle|
        ensures !IsLineTerminator(middle[k])
      {
        assert middle[k] == locale[k - 1];
      }
    }
    StringFileNameOfParts(sim, middle, "");
    assert sim + "-strings" + "_" + locale + ".json" == sim + "-strings" + middle + ".json" + "";
  }

  /** The locale of `sim-strings_locale.json`, for a sim name without `_`, is `locale`. */
  lemma WellFormedLocale(sim: string, locale: string)
    requires '_' !in sim
    ensures ExtractLocale(sim + "-strings" + "_" + locale + ".json") == locale
  {
    var prefix := sim + "-strings";
    assert '_' !in prefix by {
      assert forall k :: 0 <= k < |prefix| ==> prefix[k] != '_' by {
        forall k | 0 <= k < |prefix|
          ensures prefix[k] != '_'
        {
          if k < |sim| {
            assert prefix[k] == sim[k];
          } else {
            assert prefix[k] == "-strings"[k - |sim|];
          }
        }
      }
    }
    var dotJson := ".json";
    assert dotJson == "." + "json";
    LocaleOfWellFormedName(prefix, locale, "json");
    assert prefix + "_" + locale + dotJson == prefix + "_" + locale + "." + "json";
  }

  /** A directory holding one well-formed string file gives the fallback and that file's locale. */
  lemma WellFormedDirectory(repo: string, fallback: string, fs: FileSystem, sim: string, locale: string)
    requires forall k :: 0 <= k < |sim| ==> !IsLineTerminator(sim[k]) && sim[k] != '_'
    requires forall k :: 0 <= k < |locale| ==> !IsLineTerminator(locale[k])
    requires StringsDirectory(repo) in fs && fs[StringsDirectory(repo)] == Directory([sim + "-strings" + "_" + locale + ".json"])
    ensures LocalesForRepo(repo, fallback, fs) == Ok([fallback, locale])
  {
    WellFormedStringFile(sim, locale);
    WellFormedLocale(sim, locale);
    OneFileDirectory(repo, fallback, fs, sim + "-strings" + "_" + locale + ".json");
  }

  /** A directory holding one string file gives the fallback and that file's locale. */
  lemma OneFileDirectory(repo: string, fallback: string, fs: FileSystem, name: string)
    requires IsStringFileName(name)
    requires StringsDirectory(repo) in fs && fs[StringsDirectory(repo)] == Directory([name])
    ensures LocalesForRepo(repo, fallback, fs) == Ok([fallback, ExtractLocale(name)])
  {
    assert [name][1..] == [];
    assert StringFiles([name]) == [name];
    assert Locales([name]) == [ExtractLocale(name)];
    assert [fallback] + [ExtractLocale(name)] == [fallback, ExtractLocale(name)];
  }

  // ---------------------------------------------------------------------
  // Option dispatch
  // ---------------------------------------------------------------------

  /** The grunt options the step reads; an absent option is `None`. */
  datatype BuildOptions = BuildOptions(locales: Option<string>, localesRepo: Option<string>, locale: Option<string>)

  /** `getLocalesToBuild`: the locales list, `*`, a locales repository, or the fallback alone. */
  function LocalesToBuild(opts: BuildOptions, pkgName: string, fallback: string, fs: FileSystem): (r: Result<seq<string>, AssertionError>)
    ensures r.Ok? ==> |r.value| >= 1
    ensures r.Err? ==> |r.error.message| > |FailurePrefix| && r.error.message[..|FailurePrefix|] == FailurePrefix
  {
    if Truthy(opts.locales) then
      if opts.locales.value == "*" then LocalesForRepo(pkgName, fallback, fs)
      else Ok(Split(opts.locales.value, ','))
    else if Truthy(opts.localesRepo) then LocalesForRepo(opts.localesRepo.value, fallback, fs)
    else Ok([fallback])
  }

  /**
   * A `locales` list other than `*` is built as written: its comma-separated
   * pieces joined back give the option, so the fallback is not added and
   * duplicates and empty pieces stay.
   */
  lemma ExplicitLocalesVerbatim(opts: BuildOptions, pkgName: string, fallback: string, fs: FileSystem)
    requires Truthy(opts.locales) && opts.locales.value != "*"
    ensures var r := LocalesToBuild(opts, pkgName, fallback, fs);
      r.Ok? && Join(r.value, ',') == opts.locales.value &&
      |r.value| == multiset(opts.locales.value)[','] + 1 &&
      forall k :: 0 <= k < |r.value| ==> ',' !in r.value[k]
  {
    SplitPieces(opts.locales.value, ',');
    SplitCount(opts.locales.value, ',');
  }

  /** A comma-separated list of comma-free locales is built as exactly that list. */
  lemma ExplicitLocalesList(opts: BuildOptions, pkgName: string, fallback: string, fs: FileSystem, list: seq<string>)
    requires |list| >= 1 && forall k :: 0 <= k < |list| ==> ',' !in list[k]
    requires opts.locales == Some(Join(list, ',')) && Join(list, ',') != "" && Join(list, ',') != "*"
    ensures LocalesToBuild(opts, pkgName, fallback, fs) == Ok(list)
  {
    SplitJoin(list, ',');
  }

  /** `--locales=ar,fr,es` builds Arabic, French and Spanish. */
  lemma ThreeLocalesExample(opts: BuildOptions, pkgName: string, fallback: string, fs: FileSystem)
    requires opts.locales == Some("ar,fr,es")
    ensures LocalesToBuild(opts, pkgName, fallback, fs) == Ok(["ar", "fr", "es"])
  {
    var list := ["ar", "fr", "es"];
    assert Join(list, ',') == "ar,fr,es";
    ExplicitLocalesList(opts, pkgName, fallback, fs, list);
  }

  /** `--locales=*` scans the sim's own repository. */
  lemma StarScansPackage(opts: BuildOptions, pkgName: string, fallback: string, fs: FileSystem)
    requires opts.locales == Some("*")
    ensures LocalesToBuild(opts, pkgName, fallback, fs) == LocalesForRepo(pkgName, fallback, fs)
  {
  }

  /** A `localesRepo` without a truthy `locales` scans that repository. */
  lemma LocalesRepoScans(opts: BuildOptions, pkgName: string, fallback: string, fs: FileSystem)
    requires !Truthy(opts.locales) && Truthy(opts.localesRepo)
    ensures LocalesToBuild(opts, pkgName, fallback, fs) == LocalesForRepo(opts.localesRepo.value, fallback, fs)
  {
  }

  /** With neither option, or both empty, only the fallback is built. */
  lemma NoOptionsBuildsFallback(opts: BuildOptions, pkgName: string, fallback: string, fs: FileSystem)
    requires !Truthy(opts.locales) && !Truthy(opts.localesRepo)
    ensures LocalesToBuild(opts, pkgName, fallback, fs) == Ok([fallback])
  {
  }

  /** A truthy `locales` makes `localesRepo` irrelevant. */
  lemma LocalesTakesPrecedence(opts: BuildOptions, repo: Option<string>, pkgName: string, fallback: string, fs: FileSystem)
    requires Truthy(opts.locales)
    ensures LocalesToBuild(opts.(localesRepo := repo), pkgName, fallback, fs) == LocalesToBuild(opts, pkgName, fallback, fs)
  {
  }

  /** Only the listed options' directory scan can fail; without a scan the result is always a list. */
  lemma FailureNeedsScan(opts: BuildOptions, pkgName: string, fallback: string, fs: FileSystem)
    requires LocalesToBuild(opts, pkgName, fallback, fs).Err?
    ensures opts.locales == Some("*") || (!Truthy(opts.locales) && Truthy(opts.localesRepo))
  {
  }

  // ---------------------------------------------------------------------
  // Defaults installed on the shared record
  // ---------------------------------------------------------------------

  /** `grunt.option('locale') || fallbackLocale`. */
  function TargetLocale(locale: Option<string>, fallback: string): (r: string)
    ensures Truthy(locale) ==> r == locale.value
    ensures !Truthy(locale) ==> r == fallback
    ensures r == "" ==> fallback == ""
  {
    if Truthy(locale) then locale.value else fallback
  }

  /** `getCacheBusterArgs || function() { return ''; }`: an existing function is kept. */
  function DefaultCacheBuster(existing: Option<CacheBusterFn>): (f: CacheBusterFn)
    ensures existing.Some? ==> f == existing.value
    ensures existing.None? ==> forall now: nat :: CacheBusterArgs(f, now) == ""
  {
    if existing.Some? then existing.value else AlwaysEmpty
  }

  /** Installing the default twice is installing it once. */
  lemma DefaultCacheBusterIdempotent(existing: Option<CacheBusterFn>)
    ensures DefaultCacheBuster(Some(DefaultCacheBuster(existing))) == DefaultCacheBuster(existing)
  {
  }

  /**
   * The fields of `global.phet` and the grunt config this step writes:
   * `chipper.getCacheBusterArgs`, `requirejs.build.options.phetLocale`,
   * `localesToBuild` and `mipmapsToBuild`.
   */
  class BuildGlobals {
    var cacheBusterArgs: Option<CacheBusterFn>
    var phetLocale: Option<string>
    var localesToBuild: Option<seq<string>>
    var mipmapsToBuild: Option<seq<string>>

    /** A fresh `global.phet = {}`. */
    constructor ()
      ensures cacheBusterArgs == None && phetLocale == None
      ensures localesToBuild == None && mipmapsToBuild == None
    {
      cacheBusterArgs := None;
      phetLocale := None;
      localesToBuild := None;
      mipmapsToBuild := None;
    }

    /**
     * The steps at the end of `beforeRequirejsBuild.js`, in their order there:
     * the cache buster default and the locale are
     * installed before the locales are chosen; when the choice fails, the
     * error is thrown and the locales and mipmaps are left as they were.
     */
    method BeforeBuild(opts: BuildOptions, pkgName: string, fallback: string, fs: FileSystem)
      returns (thrown: Option<AssertionError>)
      modifies this
      ensures cacheBusterArgs == Some(DefaultCacheBuster(old(cacheBusterArgs)))
      ensures phetLocale == Some(TargetLocale(opts.locale, fallback))
      ensures var r := LocalesToBuild(opts, pkgName, fallback, fs);
        if r.Err? then
          thrown == Some(r.error) && localesToBuild == old(localesToBuild) && mipmapsToBuild == old(mipmapsToBuild)
        else
          thrown == None && localesToBuild == Some(r.value) && mipmapsToBuild == Some([])
    {
      cacheBusterArgs := Some(DefaultCacheBuster(cacheBusterArgs));
      phetLocale := Some(TargetLocale(opts.locale, fallback));
      var r := LocalesToBuild(opts, pkgName, fallback, fs);
      if r.Err? {
        thrown := Some(r.error);
        return;
      }
      localesToBuild := Some(r.value);
      mipmapsToBuild := Some([]);
      thrown := None;
    }
  }

  /** Running the step twice installs the same cache buster as running it once. */
  method RerunKeepsCacheBuster(g: BuildGlobals, opts: BuildOptions, pkgName: string, fallback: string, fs: FileSystem)
    modifies g
    ensures g.cacheBusterArgs == Some(DefaultCacheBuster(old(g.cacheBusterArgs)))
  {
    var _ := g.BeforeBuild(opts, pkgName, fallback, fs);
    var _ := g.BeforeBuild(opts, pkgName, fallback, fs);
  }
}
