/**
 * Start-up: the scan root taken from the command line (or the working
 * directory), the record the navigation tree's root node carries, and
 * the wait for the scan before the first table is drawn.
 */
module Launch {
  import opened Paths
  import opened FileDir
  import opened SizeStore
  import opened Aggregate
  import opened Text
  import opened WalkDir
  import opened MainPage

  /** Why start-up stops (each a panic in the source). */
  datatype RootError =
    | TooManyArguments
    | EmptyArgument      // slicing the last character of an empty argument
    | RootNotSupported
    | MissingPath        // `Lstat` fails and its nil result is dereferenced
    | NotADirectory

  /** Where start-up ends: the root to scan, or a panic. */
  datatype Start = Root(path: string) | Failure(reason: RootError)

  /** The panic text for each reason; a missing path ends in a runtime error instead. */
  function Message(e: RootError): string
  {
    match e
    case TooManyArguments => "Too much arguments!!"
    case EmptyArgument => "runtime error: slice bounds out of range"
    case RootNotSupported => "Root path cannot be scanned yet for this version."
    case MissingPath => "runtime error: invalid memory address or nil pointer dereference"
    case NotADirectory => "You have to give a directory path!!"
  }

  /** Go's `path.Dir` on any path: everything up to the last '/', cleaned. */
  function PathDir(p: string): string
  {
    Clean(p[..LastSlash(p) + 1])
  }

  /** The last '/' that `path.Dir` cuts at is the last occurrence of '/'. */
  lemma {:induction false} LastSlashIsLastIndex(p: string)
    ensures LastSlash(p) == LastIndex(p, '/')
    decreases |p|
  {
    if |p| > 0 && p[|p| - 1] != '/' {
      LastSlashIsLastIndex(p[..|p| - 1]);
    }
  }

  /** For a path ending in '/', `path.Dir` only cleans it: the trailing slash goes. */
  lemma PathDirOfTrailingSlash(p: string)
    requires |p| > 0 && p[|p| - 1] == '/'
    ensures PathDir(p) == Clean(p)
    ensures PathDir(p) != "" && (PathDir(p)[|PathDir(p)| - 1] == '/' ==> PathDir(p) == "/")
  {
    assert p[..|p|] == p;
    CleanShape(p);
  }

  /**
   * The scan root as `main` chooses it. `args` are the command-line
   * arguments after the program name, `cwd` the working directory and
   * `fs` what `Lstat` reports. With no argument the working directory is
   * taken unchecked. With one, the literal "/" is refused, a trailing '/'
   * on a longer path is removed with `path.Dir`, and the result must be a
   * directory.
   */
  function NormalizeRoot(args: seq<string>, cwd: string, fs: map<string, Info>): (r: Start)
    ensures r == Failure(TooManyArguments) <==> |args| > 1
    ensures |args| == 0 ==> r == Root(cwd)
    ensures |args| == 1 && args[0] == "" ==> r == Failure(EmptyArgument)
    ensures |args| == 1 && args[0] == "/" ==> r == Failure(RootNotSupported)
    ensures |args| == 1 && args[0] != "" && args[0][|args[0]| - 1] != '/' ==>
      r == (if args[0] !in fs then Failure(MissingPath)
            else if !fs[args[0]].isDir then Failure(NotADirectory)
            else Root(args[0]))
    ensures |args| == 1 && |args[0]| > 1 && args[0][|args[0]| - 1] == '/' ==>
      r == (var q := Clean(args[0]);
            if q !in fs then Failure(MissingPath)
            else if !fs[q].isDir then Failure(NotADirectory)
            else Root(q))
    ensures |args| == 1 && r.Root? ==>
      && r.path in fs && fs[r.path].isDir
      && r.path != "" && (r.path[|r.path| - 1] == '/' ==> r.path == "/")
  {
    if |args| > 1 then Failure(TooManyArguments)
    else if |args| == 0 then Root(cwd)
    else
      var givenPath := args[0];
      if |givenPath| == 0 then Failure(EmptyArgument)
      else if givenPath == "/" then Failure(RootNotSupported)
      else
        var trimmed := if |givenPath| > 1 && givenPath[|givenPath| - 1] == '/'
          then PathDirOfTrailingSlash(givenPath); PathDir(givenPath)
          else givenPath;
        if trimmed !in fs then Failure(MissingPath)
        else if !fs[trimmed].isDir then Failure(NotADirectory)
        else Root(trimmed)
  }

  /** A clean argument other than "/" is treated alike with or without a trailing '/'. */
  lemma TrailingSlashIgnored(q: string, cwd: string, fs: map<string, Info>)
    requires q != "" && q != "/" && Clean(q) == q
    ensures NormalizeRoot([q + "/"], cwd, fs) == NormalizeRoot([q], cwd, fs)
  {
    CleanShape(q);
    CleanTrailingSlash(q);
    assert (q + "/")[|q + "/"| - 1] == '/';
  }

  /**
   * The refusal of "/" looks at the argument before it is trimmed, so any
   * longer run of slashes such as "//" is trimmed to "/" and scanned.
   */
  lemma SlashesSlipPastRootCheck(p: string, cwd: string, fs: map<string, Info>)
    requires |p| >= 2 && forall i | 0 <= i < |p| :: p[i] == '/'
    requires "/" in fs && fs["/"].isDir
    ensures NormalizeRoot([p], cwd, fs) == Root("/")
  {
    PathDirOfTrailingSlash(p);
    CleanOfSlashes(p);
  }

  /** "/." names the filesystem root too, and it is scanned as written. */
  lemma DotSpellingSlipsPastRootCheck(cwd: string, fs: map<string, Info>)
    requires "/." in fs && fs["/."].isDir
    ensures NormalizeRoot(["/."], cwd, fs) == Root("/.")
    ensures Clean("/.") == "/"
  {
    assert Split("/.", '/') == ["", "."] by {
      assert "/." == "" + ['/'] + ".";
      SplitAfterFirst("", '/', ".");
      SplitNone(".", '/');
    }
    assert Resolve(["", "."], true) == [] by {
      assert ["", "."][..1] == [""];
      assert [""][..0] == [];
    }
  }

  /**
   * The scan root as intended: a root that cleans to "/" is refused
   * whatever spelling or route leads to it ("//", "/.", "/tmp/..", or a
   * working directory of "/"); every other outcome is as in `NormalizeRoot`.
   */
  function NormalizeRootChecked(args: seq<string>, cwd: string, fs: map<string, Info>): (r: Start)
    ensures r.Root? ==> Clean(r.path) != "/"
    ensures var w := NormalizeRoot(args, cwd, fs);
      if w.Root? && Clean(w.path) == "/" then r == Failure(RootNotSupported) else r == w
  {
    var w := NormalizeRoot(args, cwd, fs);
    if w.Root? && Clean(w.path) == "/" then Failure(RootNotSupported) else w
  }

  /** The reference attached to the navigation tree's root node. */
  function RootReference(givenPath: string): Entry
  {
    Entry(givenPath, 0, true)
  }

  /**
   * The root node's reference is the record the scan first stores for
   * the root directory, whatever size `Lstat` gave it, and the one
   * `AddNodes` would attach to it.
   */
  lemma RootReferenceIsScanRecord(givenPath: string, info: Info)
    requires info.isDir
    ensures RootReference(givenPath) == ScanRecord(givenPath, info)
    ensures RootReference(givenPath).size == 0 && RootReference(givenPath).isDir
  {
  }

  /**
   * `waitingScan`: wait for the scan to signal completion, then list the
   * root's children. The table is drawn from the rolled-up store.
   */
  method WaitingScan(store: Store, givenPath: string, visits: seq<Visit>) returns (rows: seq<Entry>)
    requires WellFormed(ScanAll(store.contents, visits), givenPath)
    modifies store
    ensures store.contents == Rolled(ScanAll(old(store.contents), visits), givenPath)
    ensures multiset(rows) == EntriesOf(store.contents, ChildKeys(store.contents, givenPath))
    ensures NonIncreasing(rows)
  {
    var scanState := WalkGivenDir(store, givenPath, visits);
    rows := TableRows(store, givenPath);
  }

  /**
   * `main`, store-side: choose the root, scan it into a new store, and
   * draw the first table. When the walk reports a tree of `fs` below the
   * root, the first table lists the root's children from a store whose
   * every directory holds (in `uint64`) the total of the files beneath it,
   * the root holding the total of all files.
   */
  method Launch(args: seq<string>, cwd: string, fs: map<string, Info>, visits: seq<Visit>)
    returns (start: Start, rows: seq<Entry>)
    requires Truthful(visits, fs)
    requires NormalizeRoot(args, cwd, fs).Root? ==>
      TreeBelow(fs, Reported(visits), NormalizeRoot(args, cwd, fs).path)
    ensures start == NormalizeRoot(args, cwd, fs)
    ensures start.Failure? ==> rows == []
    ensures start.Root? ==>
      var m := Rolled(ScanAll(map[], visits), start.path);
      && multiset(rows) == EntriesOf(m, ChildKeys(m, start.path))
      && NonIncreasing(rows)
      && Consistent(m, start.path)
      && start.path in m && m[start.path].size == Wrap(TotalFileSize(ScanAll(map[], visits)))
  {
    start := NormalizeRoot(args, cwd, fs);
    rows := [];
    if start.Failure? {
      return;
    }
    var givenPath := start.path;
    var store := new Store.New();
    ScanLeavesFreshTree(visits, fs, givenPath);
    ScanThenRollup(visits, fs, givenPath);
    rows := WaitingScan(store, givenPath, visits);
  }
}
