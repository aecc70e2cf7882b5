/**
 * `WalkGivenDir`: the scan that fills the store with one record per
 * visited object, followed by the pass that adds every file's size to
 * each directory on its way up to the scan root.
 */
module WalkDir {
  import opened Paths
  import opened FileDir
  import opened Aggregate
  import opened SizeStore

  /** What the walk library hands the callback for one object: its file info, or a non-nil error. */
  datatype Report = Stat(info: Info) | Failed

  /** One call of the callback: the object's path and what was reported about it. */
  datatype Visit = Visit(path: string, report: Report)

  /** The record the callback leaves behind for an object that was stat'ed. */
  function ScanRecord(p: string, info: Info): Entry
  {
    if info.isDir then Entry(p, 0, true) else Entry(p, info.size, false)
  }

  /** The store after the callback has run on each of `visits`, in order. */
  ghost function ScanAll(m: Records, visits: seq<Visit>): Records
    decreases |visits|
  {
    if visits == [] then m
    else
      var before := ScanAll(m, visits[..|visits| - 1]);
      var v := visits[|visits| - 1];
      match v.report
      case Failed => before
      case Stat(info) => before[v.path := ScanRecord(v.path, info)]
  }

  /** The paths that were reported without an error. */
  ghost function Reported(visits: seq<Visit>): set<string>
  {
    set i | 0 <= i < |visits| && visits[i].report.Stat? :: visits[i].path
  }

  /** Every report agrees with the filesystem `fs`. */
  ghost predicate Truthful(visits: seq<Visit>, fs: map<string, Info>)
  {
    forall i | 0 <= i < |visits| && visits[i].report.Stat? ::
      visits[i].path in fs && visits[i].report.info == fs[visits[i].path]
  }

  /** The records a scan of `fs` leaves for the objects in `paths`. */
  ghost function Snapshot(fs: map<string, Info>, paths: set<string>): (m: Records)
    requires paths <= fs.Keys
    ensures m.Keys == paths
  {
    map p | p in paths :: ScanRecord(p, fs[p])
  }

  /**
   * `paths` is a tree of `fs` below `root`: the root is a directory, every
   * path's walk up ends at the root, and passes only through directories
   * that were reported as well.
   */
  ghost predicate TreeBelow(fs: map<string, Info>, paths: set<string>, root: string)
  {
    && paths <= fs.Keys
    && root in paths && fs[root].isDir
    && (forall p | p in paths :: Under(p, root))
    && (forall p, d | p in paths && OnWalk(d, p, root) :: d in paths && fs[d].isDir)
  }

  // ---------------------------------------------------------------------
  // Scan

  /**
   * The callback passed to the walk: an object reported with an error is
   * skipped; otherwise it is stored under its own path, first as a file of
   * its reported size, and then, when it is a directory, overwritten by a
   * directory record of size 0.
   */
  method Callback(store: Store, v: Visit)
    modifies store
    ensures v.report.Failed? ==> store.contents == old(store.contents)
    ensures v.report.Stat? ==>
      store.contents == old(store.contents)[v.path := ScanRecord(v.path, v.report.info)]
  {
    match v.report
    case Failed =>
      return;
    case Stat(info) =>
      store.Set(v.path, Entry(v.path, info.size, false));
      if info.isDir {
        store.Set(v.path, Entry(v.path, 0, true));
      }
  }

  /** The walk, as the sequence of callback invocations the library makes. */
  method Scan(store: Store, visits: seq<Visit>)
    modifies store
    ensures store.contents == ScanAll(old(store.contents), visits)
  {
    for i := 0 to |visits|
      invariant store.contents == ScanAll(old(store.contents), visits[..i])
    {
      assert visits[..i + 1][..i] == visits[..i];
      Callback(store, visits[i]);
    }
    assert visits[..|visits|] == visits;
  }

  /**
   * A scan into an empty store that sees the filesystem truthfully holds
   * exactly one record per reported object: its own path, `IsDir` as
   * reported, size 0 for a directory and the reported size for a file.
   */
  lemma {:induction false} ScanOfFilesystem(visits: seq<Visit>, fs: map<string, Info>)
    requires Truthful(visits, fs)
    ensures Reported(visits) <= fs.Keys
    ensures ScanAll(map[], visits) == Snapshot(fs, Reported(visits))
    decreases |visits|
  {
    if visits != [] {
      var init := visits[..|visits| - 1];
      var v := visits[|visits| - 1];
      assert Truthful(init, fs) by {
        forall i | 0 <= i < |init| && init[i].report.Stat?
          ensures init[i].path in fs && init[i].report.info == fs[init[i].path]
        {
          assert init[i] == visits[i];
        }
      }
      ScanOfFilesystem(init, fs);
      if v.report.Stat? {
        assert Reported(visits) == Reported(init) + {v.path} by {
          forall p | p in Reported(visits) ensures p in Reported(init) + {v.path} {
            var i :| 0 <= i < |visits| && visits[i].report.Stat? && visits[i].path == p;
            if i < |init| {
              assert init[i] == visits[i];
            }
          }
          forall p | p in Reported(init) ensures p in Reported(visits) {
            var i :| 0 <= i < |init| && init[i].report.Stat? && init[i].path == p;
            assert visits[i] == init[i];
          }
        }
      } else {
        assert Reported(visits) == Reported(init) by {
          forall p | p in Reported(visits) ensures p in Reported(init) {
            var i :| 0 <= i < |visits| && visits[i].report.Stat? && visits[i].path == p;
            assert i < |init|;
            assert init[i] == visits[i];
          }
          forall p | p in Reported(init) ensures p in Reported(visits) {
            var i :| 0 <= i < |init| && init[i].report.Stat? && init[i].path == p;
            assert visits[i] == init[i];
          }
        }
      }
    }
  }

  /**
   * When the reported objects form a tree below `root`, the scanned store
   * is well formed and every directory in it still has size 0: exactly
   * the state the rollup needs.
   */
  lemma ScanLeavesFreshTree(visits: seq<Visit>, fs: map<string, Info>, root: string)
    requires Truthful(visits, fs) && TreeBelow(fs, Reported(visits), root)
    ensures ScanAll(map[], visits) == Snapshot(fs, Reported(visits))
    ensures WellFormed(ScanAll(map[], visits), root)
    ensures FreshScan(ScanAll(map[], visits))
    ensures forall p | p in ScanAll(map[], visits) ::
      ScanAll(map[], visits)[p].isDir == fs[p].isDir &&
      (!fs[p].isDir ==> ScanAll(map[], visits)[p].size == fs[p].size)
  {
    ScanOfFilesystem(visits, fs);
  }

  // ---------------------------------------------------------------------
  // Rollup

  /** What a record adds to its ancestors: a file its size, a directory nothing. */
  ghost function Contribution(e: Entry): nat
  {
    if e.isDir then 0 else e.size
  }

  /**
   * The store part-way through the inner loop for key `k`: the files of
   * `done` have been added everywhere, and `k` itself has been added to
   * the directories in `added`.
   */
  ghost function Walking(m: Records, root: string, done: set<string>, k: string, added: set<string>): (r: Records)
    requires k in m
    ensures r.Keys == m.Keys
  {
    map x | x in m :: WalkingEntry(m, root, done, k, added, x)
  }

  /** One record of Walking. */
  ghost function WalkingEntry(m: Records, root: string, done: set<string>, k: string, added: set<string>, x: string): Entry
    requires k in m && x in m
  {
    if m[x].isDir
    then Entry(x, Wrap(m[x].size + SumSizes(m, FilesUnder(m, x, root) * done)
                       + (if x in added then Contribution(m[k]) else 0)), true)
    else m[x]
  }

  /** The directories the inner loop has passed on its way from `k` up to `cur`. */
  ghost predicate Passed(added: set<string>, k: string, cur: string, root: string)
  {
    forall x :: x in added <==> OnWalk(x, k, root) && !OnWalk(x, cur, root)
  }

  lemma WalkingStart(m: Records, root: string, done: set<string>, k: string)
    requires k in m
    ensures Passed({}, k, k, root)
    ensures Walking(m, root, done, k, {}) == RolledOver(m, root, done)
  {
  }

  /** One step up passes exactly one more directory: the parent of `cur`. */
  lemma PassedStep(added: set<string>, k: string, cur: string, root: string)
    requires Passed(added, k, cur, root) && cur != root && Dir(cur) != cur
    requires cur == k || OnWalk(cur, k, root)
    ensures OnWalk(Dir(cur), k, root) && Dir(cur) !in added
    ensures Passed(added + {Dir(cur)}, k, Dir(cur), root)
  {
    var p := Dir(cur);
    if cur != k {
      OnWalkTrans(p, cur, k, root);
    }
    assert OnWalk(p, cur, root);
    if OnWalk(p, p, root) {
      OnWalkRank(p, p, root);
    }
    forall x
      ensures x in added + {p} <==> OnWalk(x, k, root) && !OnWalk(x, p, root)
    {
      assert OnWalk(x, cur, root) <==> x == p || OnWalk(x, p, root);
    }
  }

  /** Passing directory `p` adds `k`'s contribution to its record, in `uint64`. */
  lemma WalkingParent(m: Records, root: string, done: set<string>, k: string, added: set<string>, p: string)
    requires k in m && p in m && m[p].isDir && p !in added
    ensures WalkingEntry(m, root, done, k, added + {p}, p) ==
      Entry(p, Wrap(Contribution(m[k]) + WalkingEntry(m, root, done, k, added, p).size), true)
  {
    var base := m[p].size + SumSizes(m, FilesUnder(m, p, root) * done);
    WrapAdd(base, Contribution(m[k]));
  }

  /** Passing directory `p` leaves every other record as it was. */
  lemma WalkingOthers(m: Records, root: string, done: set<string>, k: string, added: set<string>, p: string, x: string)
    requires k in m && x in m && x != p
    ensures WalkingEntry(m, root, done, k, added + {p}, x) == WalkingEntry(m, root, done, k, added, x)
  {
  }

  /** Adding `k`'s contribution to directory `p`, in `uint64`, changes that record and no other. */
  lemma WalkingStep(m: Records, root: string, done: set<string>, k: string, added: set<string>, p: string)
    requires k in m && p in m && m[p].isDir && p !in added
    ensures Walking(m, root, done, k, added + {p}) ==
      Walking(m, root, done, k, added)[p :=
        Entry(p, Wrap(Contribution(m[k]) + Walking(m, root, done, k, added)[p].size), true)]
  {
    var before := Walking(m, root, done, k, added);
    var after := Walking(m, root, done, k, added + {p});
    WalkingParent(m, root, done, k, added, p);
    var e := Entry(p, Wrap(Contribution(m[k]) + before[p].size), true);
    forall x | x in m
      ensures after[x] == before[p := e][x]
    {
      if x != p {
        WalkingOthers(m, root, done, k, added, p, x);
      }
    }
  }

  /** A directory contributes nothing: passing more directories changes no record. */
  lemma WalkingDirectory(m: Records, root: string, done: set<string>, k: string, added: set<string>, more: set<string>)
    requires k in m && m[k].isDir
    ensures Walking(m, root, done, k, more) == Walking(m, root, done, k, added)
  {
  }

  /** A directory's record once the walk has reached the root: `k` is among its files when it lies beneath. */
  lemma WalkingEndEntry(m: Records, root: string, done: set<string>, k: string, added: set<string>, x: string)
    requires k in m && k !in done && done <= m.Keys && x in m && m[x].isDir
    requires x in added <==> OnWalk(x, k, root)
    ensures WalkingEntry(m, root, done, k, added, x) ==
      Entry(x, Wrap(m[x].size + SumSizes(m, FilesUnder(m, x, root) * (done + {k}))), true)
  {
    var fx := FilesUnder(m, x, root);
    if !m[k].isDir && x in added {
      assert fx * (done + {k}) == fx * done + {k};
      SumAdd(m, fx * done, k);
    } else {
      assert fx * (done + {k}) == fx * done;
    }
  }

  /** When the walk reaches the root, `k` has joined the files rolled up. */
  lemma WalkingEnd(m: Records, root: string, done: set<string>, k: string, added: set<string>)
    requires k in m && k !in done && done <= m.Keys && Passed(added, k, root, root)
    ensures Walking(m, root, done, k, added) == RolledOver(m, root, done + {k})
  {
    forall x | x in m && m[x].isDir
      ensures Walking(m, root, done, k, added)[x] == RolledOver(m, root, done + {k})[x]
    {
      assert !OnWalk(x, root, root);
      WalkingEndEntry(m, root, done, k, added, x);
    }
  }

  /**
   * The inner loop for key `k`, whose record is `v`: walk from `k` up to
   * `givenPath`, and when `v` is a file add its size (in `uint64`) to each
   * directory on the way. Afterwards `k` counts among the files rolled up.
   */
  method AddToAncestors(store: Store, givenPath: string, k: string, v: Entry,
                        ghost m: Records, ghost done: set<string>)
    requires k in m && k !in done && done <= m.Keys
    requires Under(k, givenPath) && DirsAbove(m, k, givenPath)
    requires v.isDir == m[k].isDir && (!v.isDir ==> v == m[k])
    requires store.contents == RolledOver(m, givenPath, done)
    modifies store
    ensures store.contents == RolledOver(m, givenPath, done + {k})
  {
    WalkingStart(m, givenPath, done, k);
    ghost var added: set<string> := {};
    var cur := k;
    while cur != givenPath
      invariant cur == k || OnWalk(cur, k, givenPath)
      invariant Under(cur, givenPath)
      invariant Passed(added, k, cur, givenPath)
      invariant store.contents == Walking(m, givenPath, done, k, added)
      decreases Rank(cur)
    {
      ghost var child := cur;
      cur := Dir(cur);
      PassedStep(added, k, child, givenPath);
      if v.isDir {
        WalkingDirectory(m, givenPath, done, k, added, added + {cur});
      } else {
        WalkingStep(m, givenPath, done, k, added, cur);
        var parent := store.Get(cur);
        var parentSize := parent.value.size;
        store.Set(cur, Entry(cur, Wrap(v.size + parentSize), true));
      }
      added := added + {cur};
    }
    WalkingEnd(m, givenPath, done, k, added);
  }

  /** The keys the outer loop has handled after `i` rounds. */
  ghost function Prefix(ks: seq<string>, i: nat): set<string>
    requires i <= |ks|
  {
    set x | x in ks[..i]
  }

  /** One more round adds the next key, which was not handled before when keys do not repeat. */
  lemma PrefixStep(ks: seq<string>, i: nat)
    requires i < |ks| && forall a, b | 0 <= a < b < |ks| :: ks[a] != ks[b]
    ensures Prefix(ks, i + 1) == Prefix(ks, i) + {ks[i]}
    ensures ks[i] !in Prefix(ks, i)
  {
    assert ks[..i + 1] == ks[..i] + [ks[i]];
  }

  /** After the last round every key has been handled. */
  lemma PrefixAll(ks: seq<string>)
    ensures Prefix(ks, |ks|) == set x | x in ks
  {
    assert ks[..|ks|] == ks;
  }

  /**
   * The rollup pass over the scanned store: every key, in the order the
   * store hands them out, has its size carried up to `givenPath`. Each
   * walk ends and meets only directories because the store is well formed.
   */
  method Rollup(store: Store, givenPath: string)
    requires WellFormed(store.contents, givenPath)
    modifies store
    ensures store.contents == Rolled(old(store.contents), givenPath)
  {
    ghost var m := store.contents;
    ghost var done: set<string> := {};
    var ks := store.Keys();
    assert forall x :: x in ks <==> x in m;
    RolledOverNothing(m, givenPath);
    for i := 0 to |ks|
      invariant done == Prefix(ks, i) && done <= m.Keys
      invariant store.contents == RolledOver(m, givenPath, done)
    {
      var k := ks[i];
      PrefixStep(ks, i);
      assert Under(k, givenPath) && DirsAbove(m, k, givenPath);
      var got := store.Get(k);
      AddToAncestors(store, givenPath, k, got.value, m, done);
      done := done + {k};
    }
    PrefixAll(ks);
    assert done == m.Keys;
  }

  /**
   * `WalkGivenDir`: scan, then roll up; the return is the completion
   * signal. The caller's store is empty beforehand, and the objects the
   * walk reports must form a tree below `givenPath` (otherwise the
   * source's rollup fails on a missing ancestor or never ends).
   */
  method WalkGivenDir(store: Store, givenPath: string, visits: seq<Visit>) returns (scanState: bool)
    requires WellFormed(ScanAll(store.contents, visits), givenPath)
    modifies store
    ensures store.contents == Rolled(ScanAll(old(store.contents), visits), givenPath)
    ensures scanState
  {
    Scan(store, visits);
    Rollup(store, givenPath);
    scanState := true;
  }

  /**
   * End to end: scanning a tree of `fs` into an empty store and rolling it
   * up keeps one record per reported object with its kind, every file's
   * size as reported, every directory's size equal (in `uint64`) to the
   * total of the files beneath it, and the root's size equal to the total
   * of all files.
   */
  lemma {:induction false} ScanThenRollup(visits: seq<Visit>, fs: map<string, Info>, root: string)
    requires Truthful(visits, fs) && TreeBelow(fs, Reported(visits), root)
    ensures Rolled(ScanAll(map[], visits), root).Keys == Reported(visits)
    ensures WellFormed(Rolled(ScanAll(map[], visits), root), root)
    ensures Consistent(Rolled(ScanAll(map[], visits), root), root)
    ensures forall f | f in Reported(visits) && !fs[f].isDir ::
      Rolled(ScanAll(map[], visits), root)[f] == Entry(f, fs[f].size, false)
    ensures Rolled(ScanAll(map[], visits), root)[root].size == Wrap(TotalFileSize(ScanAll(map[], visits)))
  {
    var m := ScanAll(map[], visits);
    ScanLeavesFreshTree(visits, fs, root);
    ScanOfFilesystem(visits, fs);
    RollupEstablishesConsistency(m, root);
    forall f | f in Reported(visits) && !fs[f].isDir
      ensures Rolled(m, root)[f] == Entry(f, fs[f].size, false)
    {
      RolledKeepsShape(m, root, f);
    }
  }
}
