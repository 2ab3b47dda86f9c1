/** compile.py: the build script. It walks the source tree and, for every
    Java source outside the cache directory, compares the SHA-256 digest of
    the file's text with the digest cached for it by the previous build;
    files whose digest is unchanged are skipped, the others are compiled
    with `javac` and their digest is cached. Then it launches the game.

    The file system is a map from path to file; the walk of the source tree
    is the sequence of directories `os.walk` yields; SHA-256 (FIPS 180-4,
    section 6.2, of the UTF-8 encoding, written as 64 lowercase hexadecimal
    digits) is a function supplied by the caller; `javac` and `javaw` are the
    commands the script issues, in order. Paths follow `os.path` on POSIX. */
module Compile {

  type Path = string

  /** A file as `read_file` finds it: its text, or the reason it cannot be
      read (a permission error, a bad encoding, ...). */
  datatype File = Text(content: string) | Unreadable(reason: string)

  type FileSystem = map<Path, File>

  /** A command line run with `subprocess.run`. */
  datatype Command = Command(argv: seq<string>)

  /** The arguments of `compile_java_files`, with the two things of the
      outside world the script's decisions depend on: the digest function
      and the set of paths that cannot be written. */
  datatype Env = Env(sourceDir: Path, outputDir: Path, cacheDir: Path, classpath: string,
                     hash: string -> string, failing: set<Path>)

  /** One directory yielded by `os.walk(source_dir)`, given by its path
      relative to `source_dir` (what `os.path.relpath` computes for it: "."
      for `source_dir` itself), with the names of the files in it. */
  datatype WalkEntry = WalkEntry(package: Path, files: seq<string>)

  /** One file of the walk. */
  datatype Item = Item(package: Path, file: string)

  /** The file system after a run and the commands issued during it. */
  datatype Outcome = Outcome(fs: FileSystem, commands: seq<Command>)

  // ---------------------------------------------------------------------
  // Strings and paths

  predicate StartsWith(s: string, t: string)
  {
    |t| <= |s| && s[..|t|] == t
  }

  predicate EndsWith(s: string, t: string)
  {
    |t| <= |s| && s[|s| - |t|..] == t
  }

  /** Python's `t in s` on strings. */
  predicate Contains(s: string, t: string)
  {
    StartsWith(s, t) || (s != [] && Contains(s[1..], t))
  }

  lemma {:induction false} EndsWithTrans(s: string, t: string, u: string)
    requires EndsWith(s, t) && EndsWith(t, u)
    ensures EndsWith(s, u)
  {
    assert s[|s| - |u|..] == s[|s| - |t|..][|t| - |u|..];
  }

  /** A string of the form `"./" + p` contains what `p` starts with. */
  lemma {:induction false} ContainsAfterDotSlash(p: string, t: string)
    requires StartsWith(p, t)
    ensures Contains("./" + p, t)
  {
    var s := "./" + p;
    assert s[1..][1..] == p;
    assert Contains(s[1..][1..], t);
    assert Contains(s[1..], t);
  }

  /** `os.path.join(a, b)` on POSIX: an absolute `b` replaces `a`; otherwise
      a separator is put between them unless `a` is empty or already ends in
      one. The result always ends with `b`. */
  function Join(a: Path, b: Path): (r: Path)
    ensures EndsWith(r, b)
    ensures b != [] && b[0] != '/' && a != [] && a[|a| - 1] != '/' ==> r == a + "/" + b
  {
    if b != [] && b[0] == '/' then b
    else if a == [] || a[|a| - 1] == '/' then a + b
    else a + "/" + b
  }

  /** `os.path.splitext(file)[0]` for a name ending in ".java": the name
      without its extension, unless everything before the extension is dots
      (`splitext` does not split a leading dot off). */
  function Stem(file: string): (r: string)
    requires EndsWith(file, ".java")
    ensures r == file || r + ".java" == file
    ensures (exists k | 0 <= k < |file| - 5 :: file[k] != '.') ==> r + ".java" == file
  {
    var dot := |file| - 5;
    if exists k | 0 <= k < dot :: file[k] != '.' then
      assert file == file[..dot] + file[dot..];
      file[..dot]
    else
      file
  }

  /** The directory `os.walk` yields for `package`. */
  function Root(sourceDir: Path, package: Path): Path
  {
    if package == "." then sourceDir else Join(sourceDir, package)
  }

  /** The filter of the walk: a Java source outside every directory whose
      path mentions the cache. */
  predicate IsCandidate(env: Env, it: Item)
  {
    EndsWith(it.file, ".java") && !Contains(Root(env.sourceDir, it.package), "compiler-cache")
  }

  /** `source_path`. */
  function Src(env: Env, it: Item): (r: Path)
    ensures EndsWith(it.file, ".java") ==> EndsWith(r, ".java")
  {
    var r := Join(Root(env.sourceDir, it.package), it.file);
    if EndsWith(it.file, ".java") then EndsWithTrans(r, it.file, ".java"); r else r
  }

  /** `cache_path`: the cache directory, the file's directory relative to
      the source directory, and the file's name with ".hash" in place of
      ".java". */
  function Key(env: Env, it: Item): (r: Path)
    requires EndsWith(it.file, ".java")
    ensures EndsWith(r, ".hash")
  {
    var name := Stem(it.file) + ".hash";
    assert EndsWith(name, ".hash") by { assert name[|name| - 5..] == ".hash"; }
    var r := Join(Join(env.cacheDir, it.package), name);
    EndsWithTrans(r, name, ".hash");
    r
  }

  /** A source file is never a cache entry: their names end differently. */
  lemma SourceNotKey(src: Path, key: Path)
    requires EndsWith(src, ".java") && EndsWith(key, ".hash")
    ensures src != key
  {
    assert src[|src| - 4] == 'j';
    assert key[|key| - 4] == 'h';
  }

  // ---------------------------------------------------------------------
  // Reading, writing and digests

  const HEX_DIGITS := "0123456789abcdef"

  /** What `hexdigest()` returns for SHA-256. */
  predicate IsHexDigest(s: string)
  {
    |s| == 64 && forall i | 0 <= i < |s| :: s[i] in HEX_DIGITS
  }

  /** The digest function is SHA-256's in the one respect the script relies
      on: its results are hexadecimal digests. */
  ghost predicate HashesToHex(env: Env)
  {
    forall s: string :: IsHexDigest(env.hash(s))
  }

  /** `read_file(path)`: the text of the file; it never raises, and answers
      a missing or unreadable file with an error message. */
  function ReadFile(fs: FileSystem, path: Path): (r: string)
    ensures path in fs && fs[path].Text? ==> r == fs[path].content
  {
    if path !in fs then "File not found: " + path
    else match fs[path]
      case Text(content) => content
      case Unreadable(reason) => "Error reading file: " + reason
  }

  /** The error messages of `read_file` start with a capital letter, so they
      can never be taken for a digest. */
  lemma ErrorNotDigest(fs: FileSystem, path: Path)
    requires !(path in fs && fs[path].Text?)
    ensures !IsHexDigest(ReadFile(fs, path))
  {
    var r := ReadFile(fs, path);
    if path !in fs {
      assert r[0] == 'F';
    } else {
      assert r[0] == 'E';
    }
    assert r[0] !in HEX_DIGITS;
  }

  /** `write_to_file(path, content)`: replaces the file's text, unless
      writing fails, in which case the error is printed and swallowed and
      nothing changes. Nothing but `path` is touched. */
  function WriteToFile(fs: FileSystem, failing: set<Path>, path: Path, content: string): (r: FileSystem)
    ensures path in failing ==> r == fs
    ensures path !in failing ==> path in r && ReadFile(r, path) == content
    ensures forall q | q != path :: (q in r <==> q in fs) && (q in fs ==> r[q] == fs[q])
  {
    if path in failing then fs else fs[path := Text(content)]
  }

  // ---------------------------------------------------------------------
  // compile_java_files

  /** The `javac` command for one source file. */
  function Javac(env: Env, source: Path): Command
  {
    Command(["javac", "-d", env.outputDir, "-cp", ".;" + env.classpath, source])
  }

  /** What the loop body does with one file of the walk. */
  function Step(env: Env, fs: FileSystem, it: Item): Outcome
  {
    if !IsCandidate(env, it) then Outcome(fs, [])
    else
      var sourceContent := ReadFile(fs, Src(env, it));
      var cachePath := Key(env, it);
      if cachePath in fs && env.hash(sourceContent) == ReadFile(fs, cachePath) then Outcome(fs, [])
      else Outcome(WriteToFile(fs, env.failing, cachePath, env.hash(sourceContent)), [Javac(env, Src(env, it))])
  }

  /** A file the filter lets through is skipped exactly when its cache entry
      exists and reads as the digest of its text; otherwise `javac` is run on
      it and the digest is written to the cache entry, whatever `javac` did.
      A skipped file, or one the filter stops, changes nothing. */
  lemma StepDecides(env: Env, fs: FileSystem, it: Item)
    ensures var r := Step(env, fs, it);
            && (!IsCandidate(env, it) ==> r == Outcome(fs, []))
            && (IsCandidate(env, it) ==>
                  (r.commands == [] <==> Key(env, it) in fs && env.hash(ReadFile(fs, Src(env, it))) == ReadFile(fs, Key(env, it))))
            && (r.commands == [] ==> r.fs == fs)
            && (r.commands != [] ==>
                  && IsCandidate(env, it)
                  && r.commands == [Javac(env, Src(env, it))]
                  && r.fs == WriteToFile(fs, env.failing, Key(env, it), env.hash(ReadFile(fs, Src(env, it)))))
  {
    if IsCandidate(env, it) {
      var digest := env.hash(ReadFile(fs, Src(env, it)));
      assert Step(env, fs, it).commands == [] <==> Key(env, it) in fs && digest == ReadFile(fs, Key(env, it));
    }
  }

  /** The files of the walk, in the order the loops visit them. */
  function Flatten(walk: seq<WalkEntry>): seq<Item>
  {
    if walk == [] then []
    else Flatten(walk[..|walk| - 1]) + Files(walk[|walk| - 1])
  }

  function Files(e: WalkEntry): (r: seq<Item>)
    ensures |r| == |e.files|
    ensures forall k | 0 <= k < |r| :: r[k] == Item(e.package, e.files[k])
  {
    seq(|e.files|, k requires 0 <= k < |e.files| => Item(e.package, e.files[k]))
  }

  /** A whole pass over `items`, one `Step` after the other. */
  function Pass(env: Env, fs: FileSystem, items: seq<Item>): Outcome
  {
    if items == [] then Outcome(fs, [])
    else
      var before := Pass(env, fs, items[..|items| - 1]);
      var step := Step(env, before.fs, items[|items| - 1]);
      Outcome(step.fs, before.commands + step.commands)
  }

  lemma PassSnoc(env: Env, fs: FileSystem, items: seq<Item>, it: Item)
    ensures var before := Pass(env, fs, items);
            var step := Step(env, before.fs, it);
            Pass(env, fs, items + [it]) == Outcome(step.fs, before.commands + step.commands)
  {
    assert (items + [it])[..|items|] == items;
  }

  /** `compile_java_files(source_dir, output_dir, cache_dir, classpath)`,
      over the walk `walk` of the source tree and the file system `fs0`. */
  method CompileJavaFiles(env: Env, walk: seq<WalkEntry>, fs0: FileSystem) returns (fs: FileSystem, commands: seq<Command>)
    ensures Outcome(fs, commands) == Pass(env, fs0, Flatten(walk))
  {
    fs, commands := fs0, [];
    for w := 0 to |walk|
      invariant Outcome(fs, commands) == Pass(env, fs0, Flatten(walk[..w]))
    {
      fs, commands := CompileDirectory(env, walk[w], fs, commands, fs0, Flatten(walk[..w]));
      assert walk[..w + 1][..w] == walk[..w];
    }
    assert walk[..|walk|] == walk;
  }

  /** The inner loop of `compile_java_files`, over the files of one
      directory of the walk. */
  method CompileDirectory(env: Env, entry: WalkEntry, fs: FileSystem, commands: seq<Command>,
                          ghost fs0: FileSystem, ghost done: seq<Item>)
    returns (fs': FileSystem, commands': seq<Command>)
    requires Outcome(fs, commands) == Pass(env, fs0, done)
    ensures Outcome(fs', commands') == Pass(env, fs0, done + Files(entry))
  {
    var root := Root(env.sourceDir, entry.package);
    ghost var here := Files(entry);
    ghost var items := done;
    fs', commands' := fs, commands;
    for k := 0 to |entry.files|
      invariant items == done + here[..k]
      invariant Outcome(fs', commands') == Pass(env, fs0, items)
    {
      fs', commands' := CompileFile(env, root, entry.package, entry.files[k], fs', commands', fs0, items);
      ExtendPrefix(done, here, k);
      items := items + [here[k]];
    }
    assert here[..|entry.files|] == here;
  }

  /** Appending the next element of `s` to `t + s[..k]` gives `t + s[..k + 1]`. */
  lemma ExtendPrefix<T>(t: seq<T>, s: seq<T>, k: nat)
    requires k < |s|
    ensures (t + s[..k]) + [s[k]] == t + s[..k + 1]
  {
    assert s[..k + 1] == s[..k] + [s[k]];
  }

  /** The body of the inner loop, for the file `file` of the directory
      `root`: one more `Step` of the pass. */
  method CompileFile(env: Env, root: Path, package: Path, file: string, fs: FileSystem, commands: seq<Command>,
                     ghost fs0: FileSystem, ghost done: seq<Item>)
    returns (fs': FileSystem, commands': seq<Command>)
    requires root == Root(env.sourceDir, package)
    requires Outcome(fs, commands) == Pass(env, fs0, done)
    ensures Outcome(fs', commands') == Pass(env, fs0, done + [Item(package, file)])
  {
    PassSnoc(env, fs0, done, Item(package, file));
    fs', commands' := fs, commands;
    var it := Item(package, file);
    if IsCandidate(env, it) {
      var sourcePath := Src(env, it);
      var cachePath := Key(env, it);
      var sourceContent := ReadFile(fs, sourcePath);
      if !(cachePath in fs && env.hash(sourceContent) == ReadFile(fs, cachePath)) {
        commands' := commands + [Javac(env, sourcePath)];
        fs' := WriteToFile(fs, env.failing, cachePath, env.hash(sourceContent));
      }
    }
  }

  // ---------------------------------------------------------------------
  // Properties of a pass

  /** Only the cache entries of the files compiled can change. */
  lemma {:induction false} PassFrame(env: Env, fs: FileSystem, items: seq<Item>, p: Path)
    requires forall i | 0 <= i < |items| && IsCandidate(env, items[i]) :: Key(env, items[i]) != p
    ensures p in Pass(env, fs, items).fs <==> p in fs
    ensures p in fs ==> Pass(env, fs, items).fs[p] == fs[p]
  {
    if items != [] {
      PassFrame(env, fs, items[..|items| - 1], p);
    }
  }

  /** The `javac` commands for every file of `items` the filter lets
      through, in order. */
  function JavacCommands(env: Env, items: seq<Item>): seq<Command>
  {
    if items == [] then []
    else
      var last := items[|items| - 1];
      JavacCommands(env, items[..|items| - 1]) + (if IsCandidate(env, last) then [Javac(env, Src(env, last))] else [])
  }

  /** The commands of a pass are `javac` runs, at most one per file, each on
      a file the filter lets through. */
  lemma {:induction false} PassCommands(env: Env, fs: FileSystem, items: seq<Item>)
    ensures |Pass(env, fs, items).commands| <= |items|
    ensures forall c | c in Pass(env, fs, items).commands :: c in JavacCommands(env, items)
  {
    if items != [] {
      var init, last := items[..|items| - 1], items[|items| - 1];
      PassCommands(env, fs, init);
      var before := Pass(env, fs, init);
      StepDecides(env, before.fs, last);
      CommandsSnoc(env, before.commands, Step(env, before.fs, last).commands, init, last);
    }
  }

  lemma CommandsSnoc(env: Env, before: seq<Command>, step: seq<Command>, init: seq<Item>, last: Item)
    requires forall c | c in before :: c in JavacCommands(env, init)
    requires step == [] || (IsCandidate(env, last) && step == [Javac(env, Src(env, last))])
    ensures forall c | c in before + step :: c in JavacCommands(env, init + [last])
  {
    assert (init + [last])[..|init|] == init;
  }

  /** No two files of the walk share a cache entry. (Two names such as
      ".java" and ".java.java" in one directory would.) */
  predicate KeysDistinct(env: Env, items: seq<Item>)
  {
    forall i, j {:trigger Key(env, items[i]), Key(env, items[j])}
      | 0 <= i < j < |items| && IsCandidate(env, items[i]) && IsCandidate(env, items[j]) ::
      Key(env, items[i]) != Key(env, items[j])
  }

  /** Every cache entry of the walk can be written. */
  predicate KeysWritable(env: Env, items: seq<Item>)
  {
    forall i {:trigger Key(env, items[i])} | 0 <= i < |items| && IsCandidate(env, items[i]) :: Key(env, items[i]) !in env.failing
  }

  /** A step leaves alone every path but the cache entry of its file. */
  lemma StepFrame(env: Env, fs: FileSystem, it: Item, p: Path)
    requires IsCandidate(env, it) ==> p != Key(env, it)
    ensures p in Step(env, fs, it).fs <==> p in fs
    ensures p in fs ==> Step(env, fs, it).fs[p] == fs[p]
    ensures ReadFile(Step(env, fs, it).fs, p) == ReadFile(fs, p)
  {
  }

  /** After a step whose write succeeds, the file's cache entry holds the
      digest of the text the step read, whether the step compiled or
      skipped. */
  lemma StepCaches(env: Env, fs: FileSystem, it: Item)
    requires IsCandidate(env, it) && Key(env, it) !in env.failing
    ensures ReadFile(Step(env, fs, it).fs, Key(env, it)) == env.hash(ReadFile(fs, Src(env, it)))
  {
  }

  /** What holds of a walk's distinct writable cache entries holds of any
      prefix of the walk. */
  lemma KeysPrefix(env: Env, items: seq<Item>, n: nat)
    requires n <= |items| && KeysDistinct(env, items) && KeysWritable(env, items)
    ensures KeysDistinct(env, items[..n]) && KeysWritable(env, items[..n])
  {
  }

  /** After a pass in which every write succeeds and no two files share a
      cache entry, the entry of each file holds the digest of the text the
      pass read for it: by induction on the walk, the last step writes its
      own entry and leaves every earlier one alone. */
  lemma {:induction false} CachedAfter(env: Env, fs: FileSystem, items: seq<Item>, i: nat)
    requires KeysDistinct(env, items) && KeysWritable(env, items)
    requires i < |items| && IsCandidate(env, items[i])
    ensures ReadFile(Pass(env, fs, items).fs, Key(env, items[i])) == env.hash(ReadFile(fs, Src(env, items[i])))
    decreases |items|
  {
    var n := |items| - 1;
    if i < n {
      KeysPrefix(env, items, n);
      CachedAfter(env, fs, items[..n], i);
      assert items[..n][i] == items[i];
      CachedKept(env, Pass(env, fs, items[..n]).fs, items, |items|, i);
    } else {
      CachedLast(env, fs, items, |items|);
    }
  }

  /** The step of a later file leaves an earlier file's cache entry alone. */
  lemma CachedKept(env: Env, mid: FileSystem, items: seq<Item>, m: nat, i: nat)
    requires KeysDistinct(env, items)
    requires i < m - 1 && m <= |items| && IsCandidate(env, items[i])
    ensures ReadFile(Step(env, mid, items[m - 1]).fs, Key(env, items[i])) == ReadFile(mid, Key(env, items[i]))
  {
    StepFrame(env, mid, items[m - 1], Key(env, items[i]));
  }

  /** The step of the `m`-th file caches the digest of the text it reads,
      which is the text the pass started with: no earlier step writes a
      source file. */
  lemma CachedLast(env: Env, fs: FileSystem, items: seq<Item>, m: nat)
    requires KeysWritable(env, items)
    requires 0 < m <= |items| && IsCandidate(env, items[m - 1])
    ensures ReadFile(Step(env, Pass(env, fs, items[..m - 1]).fs, items[m - 1]).fs, Key(env, items[m - 1]))
            == env.hash(ReadFile(fs, Src(env, items[m - 1])))
  {
    var init, last := items[..m - 1], items[m - 1];
    var mid := Pass(env, fs, init).fs;
    StepCaches(env, mid, last);
    var src := Src(env, last);
    forall j | 0 <= j < m - 1 && IsCandidate(env, init[j])
      ensures Key(env, init[j]) != src
    {
      SourceNotKey(src, Key(env, init[j]));
    }
    PassFrame(env, fs, init, src);
  }

  /** After a pass in which every write succeeds, every file's cache entry
      holds the digest of the text the pass read for it. */
  lemma PassCaches(env: Env, fs: FileSystem, items: seq<Item>)
    requires KeysDistinct(env, items) && KeysWritable(env, items)
    ensures forall i | 0 <= i < |items| && IsCandidate(env, items[i]) ::
              ReadFile(Pass(env, fs, items).fs, Key(env, items[i])) == env.hash(ReadFile(fs, Src(env, items[i])))
  {
    forall i | 0 <= i < |items| && IsCandidate(env, items[i])
      ensures ReadFile(Pass(env, fs, items).fs, Key(env, items[i])) == env.hash(ReadFile(fs, Src(env, items[i])))
    {
      CachedAfter(env, fs, items, i);
    }
  }

  /** When every cache entry already holds the digest of its file, a pass
      compiles nothing and changes nothing. */
  lemma {:induction false} UpToDate(env: Env, fs: FileSystem, items: seq<Item>)
    requires HashesToHex(env)
    requires forall i | 0 <= i < |items| && IsCandidate(env, items[i]) ::
               ReadFile(fs, Key(env, items[i])) == env.hash(ReadFile(fs, Src(env, items[i])))
    ensures Pass(env, fs, items) == Outcome(fs, [])
  {
    if items != [] {
      var n := |items| - 1;
      UpToDate(env, fs, items[..n]);
      var last := items[n];
      if IsCandidate(env, last) {
        assert IsHexDigest(env.hash(ReadFile(fs, Src(env, last))));
        if !(Key(env, last) in fs && fs[Key(env, last)].Text?) {
          ErrorNotDigest(fs, Key(env, last));
        }
      }
    }
  }

  /** A second pass right after one in which every write succeeded, over the
      same walk, compiles nothing: the cache makes the build incremental. */
  lemma SecondPassCompilesNothing(env: Env, fs: FileSystem, items: seq<Item>)
    requires HashesToHex(env) && KeysDistinct(env, items) && KeysWritable(env, items)
    ensures var first := Pass(env, fs, items).fs;
            Pass(env, first, items) == Outcome(first, [])
  {
    var first := Pass(env, fs, items).fs;
    PassCaches(env, fs, items);
    forall i | 0 <= i < |items| && IsCandidate(env, items[i])
      ensures ReadFile(first, Key(env, items[i])) == env.hash(ReadFile(first, Src(env, items[i])))
    {
      var src := Src(env, items[i]);
      forall j | 0 <= j < |items| && IsCandidate(env, items[j])
        ensures Key(env, items[j]) != src
      {
        SourceNotKey(src, Key(env, items[j]));
      }
      PassFrame(env, fs, items, src);
    }
    UpToDate(env, first, items);
  }

  /** A cache entry that cannot be read never matches, so its file is
      compiled again. */
  lemma UnreadableCacheRecompiles(env: Env, fs: FileSystem, it: Item)
    requires HashesToHex(env) && IsCandidate(env, it)
    requires Key(env, it) in fs && fs[Key(env, it)].Unreadable?
    ensures Step(env, fs, it).commands == [Javac(env, Src(env, it))]
  {
    assert IsHexDigest(env.hash(ReadFile(fs, Src(env, it))));
    ErrorNotDigest(fs, Key(env, it));
  }

  /** A cache entry that cannot be written keeps its old contents, so a file
      compiled once is compiled again at the next pass. */
  lemma FailedWriteRecompiles(env: Env, fs: FileSystem, it: Item)
    requires IsCandidate(env, it) && Key(env, it) in env.failing
    requires Step(env, fs, it).commands != []
    ensures Step(env, fs, it).fs == fs
    ensures Step(env, Step(env, fs, it).fs, it).commands != []
  {
  }

  // ---------------------------------------------------------------------
  // The script

  const SOURCE_DIRECTORY := "."
  const OUTPUT_DIRECTORY := "out"
  const CACHE_DIRECTORY := "compiler-cache"
  const CLASSPATH_DEPENDENCIES := "lanterna-3.1.1.jar;json-java.jar"
  const MAIN_CLASS := "Program.java"

  function ScriptEnv(hash: string -> string, failing: set<Path>): Env
  {
    Env(SOURCE_DIRECTORY, OUTPUT_DIRECTORY, CACHE_DIRECTORY, CLASSPATH_DEPENDENCIES, hash, failing)
  }

  /** The `javaw` command that starts the game. */
  function Launch(): Command
  {
    Command(["javaw", "-cp", ".;" + CLASSPATH_DEPENDENCIES + ";" + OUTPUT_DIRECTORY, MAIN_CLASS])
  }

  /** The cache directory lies inside the source directory, but the walk's
      filter keeps the script from compiling anything found there. */
  lemma CacheNeverCompiled(hash: string -> string, failing: set<Path>, package: Path, file: string)
    requires StartsWith(package, CACHE_DIRECTORY)
    ensures !IsCandidate(ScriptEnv(hash, failing), Item(package, file))
  {
    assert package != "." by { assert package[0] == 'c'; }
    assert Root(SOURCE_DIRECTORY, package) == "./" + package;
    ContainsAfterDotSlash(package, CACHE_DIRECTORY);
  }

  /** The `__main__` block: one pass over the walk, then the launch, which
      happens whatever the compilations did. */
  method RunScript(hash: string -> string, failing: set<Path>, walk: seq<WalkEntry>, fs0: FileSystem)
    returns (fs: FileSystem, commands: seq<Command>)
    ensures var pass := Pass(ScriptEnv(hash, failing), fs0, Flatten(walk));
            fs == pass.fs && commands == pass.commands + [Launch()]
    ensures commands != [] && commands[|commands| - 1] == Launch()
  {
    var env := ScriptEnv(hash, failing);
    var compiled;
    fs, compiled := CompileJavaFiles(env, walk, fs0);
    commands := compiled + [Launch()];
  }
}
