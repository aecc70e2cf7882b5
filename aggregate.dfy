/**
 * What the size store is supposed to hold, stated without loops: the
 * shape a scan leaves, the directory totals a rollup must produce, and
 * the repair a deletion performs. The methods in WalkDir and
 * PropertiesPage are proved against these definitions; the lemmas here
 * prove what the definitions promise.
 */
module Aggregate {
  import opened Paths
  import opened FileDir

  /**
   * The store mirrors a directory tree rooted at `root`: the root is a
   * directory record, every record sits under its own path, every key's
   * walk to the root terminates, and every path on that walk is a
   * directory record of the store.
   */
  ghost predicate WellFormed(m: Records, root: string)
  {
    && root in m && m[root].isDir
    && (forall k | k in m :: m[k].fullPath == k && Under(k, root))
    && (forall k, d | k in m && OnWalk(d, k, root) :: d in m && m[d].isDir)
  }

  /** Every path on the walk from `p` to the root is a directory record. */
  ghost predicate DirsAbove(m: Records, p: string, root: string)
  {
    forall a | OnWalk(a, p, root) :: a in m && m[a].isDir
  }

  /** Every directory record still holds the size 0 the scanner gave it. */
  ghost predicate FreshScan(m: Records)
  {
    forall d | d in m && m[d].isDir :: m[d].size == 0
  }

  /** Sum of the sizes recorded under the keys in `s`. */
  ghost function SumSizes(m: Records, s: set<string>): (r: nat)
    requires s <= m.Keys
    decreases s
  {
    if s == {} then 0
    else
      var x :| x in s;
      m[x].size + SumSizes(m, s - {x})
  }

  /** The file records of the store. */
  ghost function AllFiles(m: Records): (s: set<string>)
    ensures s <= m.Keys
  {
    set f | f in m && !m[f].isDir
  }

  /** The file records whose walk to the root passes through `d`. */
  ghost function FilesUnder(m: Records, d: string, root: string): (s: set<string>)
    ensures s <= AllFiles(m)
  {
    set f | f in m && !m[f].isDir && OnWalk(d, f, root)
  }

  /** The bytes of all files beneath `d`. */
  ghost function SizeBelow(m: Records, d: string, root: string): nat
  {
    SumSizes(m, FilesUnder(m, d, root))
  }

  /** The bytes of all file records of the store. */
  ghost function TotalFileSize(m: Records): nat
  {
    SumSizes(m, AllFiles(m))
  }

  /**
   * The rollup invariant in `uint64`: each directory's size is the total of the
   * files beneath it, reduced modulo 2^64 as the source's additions are.
   */
  ghost predicate Consistent(m: Records, root: string)
  {
    forall d {:trigger SizeBelow(m, d, root)} | d in m && m[d].isDir :: m[d].size == Wrap(SizeBelow(m, d, root))
  }

  /**
   * The store after the files in `done` have been rolled up: each
   * directory gained the sizes of the files of `done` beneath it (and is
   * rewritten as a directory record of its own path); files are untouched.
   */
  ghost function RolledOver(m: Records, root: string, done: set<string>): (r: Records)
    ensures r.Keys == m.Keys
  {
    map k | k in m ::
      if m[k].isDir
      then Entry(k, Wrap(m[k].size + SumSizes(m, FilesUnder(m, k, root) * done)), true)
      else m[k]
  }

  /** The store after the whole rollup pass: every file has been added to every directory above it. */
  ghost function Rolled(m: Records, root: string): (r: Records)
    ensures r.Keys == m.Keys
  {
    RolledOver(m, root, m.Keys)
  }

  /**
   * The store after a successful deletion of `t`: every directory on the
   * walk from `t` to the root loses `t.size` (in `uint64`), and `t`'s own
   * key is dropped. Nothing else changes; in particular the records below
   * a deleted directory stay.
   */
  ghost function Repaired(m: Records, t: Entry, root: string): (r: Records)
    ensures r.Keys == m.Keys - {t.fullPath}
  {
    map k | k in m && k != t.fullPath ::
      if OnWalk(k, t.fullPath, root)
      then Entry(k, Wrap(m[k].size - t.size), true)
      else m[k]
  }

  /** The records whose walk to the root passes through `p`: the contents of a deleted directory. */
  ghost function Descendants(m: Records, p: string, root: string): (s: set<string>)
    ensures s <= m.Keys
  {
    set k | k in m && OnWalk(p, k, root)
  }

  // ---------------------------------------------------------------------
  // Sums over sets of keys

  lemma {:induction false} SumRemove(m: Records, s: set<string>, y: string)
    requires s <= m.Keys && y in s
    ensures SumSizes(m, s) == m[y].size + SumSizes(m, s - {y})
    decreases s
  {
    var x :| x in s && SumSizes(m, s) == m[x].size + SumSizes(m, s - {x});
    if x != y {
      SumRemove(m, s - {x}, y);
      assert s - {x} - {y} == s - {y} - {x};
      SumRemove(m, s - {y}, x);
    }
  }

  lemma SumAdd(m: Records, s: set<string>, y: string)
    requires s <= m.Keys && y in m && y !in s
    ensures SumSizes(m, s + {y}) == SumSizes(m, s) + m[y].size
  {
    SumRemove(m, s + {y}, y);
    assert s + {y} - {y} == s;
  }

  /** The sum only depends on the sizes recorded under the summed keys. */
  lemma {:induction false} SumCongruent(m1: Records, m2: Records, s: set<string>)
    requires s <= m1.Keys && s <= m2.Keys
    requires forall x | x in s :: m1[x].size == m2[x].size
    ensures SumSizes(m1, s) == SumSizes(m2, s)
    decreases s
  {
    if s != {} {
      var x :| x in s;
      SumRemove(m1, s, x);
      SumRemove(m2, s, x);
      SumCongruent(m1, m2, s - {x});
    }
  }

  /** Summing a set is summing a subset plus summing the rest. */
  lemma {:induction false} SumSplit(m: Records, a: set<string>, b: set<string>)
    requires a <= m.Keys && b <= a
    ensures SumSizes(m, a) == SumSizes(m, a - b) + SumSizes(m, b)
    decreases b
  {
    if b == {} {
      assert a - b == a;
    } else {
      var x :| x in b;
      SumRemove(m, a, x);
      SumRemove(m, b, x);
      SumSplit(m, a - {x}, b - {x});
      assert a - {x} - (b - {x}) == a - b;
    }
  }

  // ---------------------------------------------------------------------
  // Modular arithmetic used by the repair

  lemma WrapSubWrap(x: int, y: int)
    ensures Wrap(Wrap(x) - Wrap(y)) == Wrap(x - y)
  {
    WrapSub(x, Wrap(y));
    WrapMod(y);
    var q := y / TWO_64;
    assert Wrap(y) == y - q * TWO_64;
    WrapShift(x - y, q);
  }

  /** The arithmetic of one repaired directory: subtracting a wrapped subtotal from a wrapped total. */
  lemma RepairArith(dirSize: int, gone: int, total: int, part: int, rest: int)
    requires dirSize == Wrap(total) && gone == Wrap(part) && total == rest + part
    ensures Wrap(dirSize - gone) == Wrap(rest)
  {
    WrapSubWrap(total, part);
  }

  // ---------------------------------------------------------------------
  // Rollup

  /** Before anything is rolled up, the partial rollup is the scanned store itself. */
  lemma RolledOverNothing(m: Records, root: string)
    requires WellFormed(m, root)
    ensures RolledOver(m, root, {}) == m
  {
    forall k | k in m
      ensures RolledOver(m, root, {})[k] == m[k]
    {
      assert FilesUnder(m, k, root) * {} == {};
    }
  }

  /** Rollup changes sizes only: keys, kinds and file sizes are those of the input. */
  lemma RolledKeepsShape(m: Records, root: string, k: string)
    requires WellFormed(m, root) && k in m
    ensures Rolled(m, root)[k].isDir == m[k].isDir
    ensures Rolled(m, root)[k].fullPath == k
    ensures !m[k].isDir ==> Rolled(m, root)[k] == m[k]
  {
  }

  /** The file records of the rolled-up store are those of the input, each with the same size. */
  lemma {:induction false} RolledSameFiles(m: Records, root: string, d: string)
    requires WellFormed(m, root)
    ensures FilesUnder(Rolled(m, root), d, root) == FilesUnder(m, d, root)
    ensures AllFiles(Rolled(m, root)) == AllFiles(m)
    ensures SizeBelow(Rolled(m, root), d, root) == SizeBelow(m, d, root)
    ensures TotalFileSize(Rolled(m, root)) == TotalFileSize(m)
  {
    var r := Rolled(m, root);
    assert FilesUnder(r, d, root) == FilesUnder(m, d, root);
    assert AllFiles(r) == AllFiles(m);
    SumCongruent(r, m, FilesUnder(m, d, root));
    SumCongruent(r, m, AllFiles(m));
  }

  /** In a well-formed store, every file except the root is beneath the root. */
  lemma FilesUnderRoot(m: Records, root: string)
    requires WellFormed(m, root)
    ensures FilesUnder(m, root, root) == AllFiles(m)
  {
    forall f | f in AllFiles(m)
      ensures OnWalk(root, f, root)
    {
      UnderVisitsRoot(f, root);
    }
  }

  /**
   * Rollup correctness: after a fresh scan is rolled up, the store
   * is still well formed, every directory holds the total of the files
   * beneath it, and the root holds the total of all files.
   */
  lemma {:induction false} RollupEstablishesConsistency(m: Records, root: string)
    requires WellFormed(m, root) && FreshScan(m)
    ensures WellFormed(Rolled(m, root), root)
    ensures Consistent(Rolled(m, root), root)
    ensures Rolled(m, root)[root].size == Wrap(TotalFileSize(m))
  {
    var r := Rolled(m, root);
    forall k | k in m
      ensures r[k].isDir == m[k].isDir && r[k].fullPath == k
    {
      RolledKeepsShape(m, root, k);
    }
    forall d | d in r && r[d].isDir
      ensures r[d].size == Wrap(SizeBelow(r, d, root))
    {
      assert FilesUnder(m, d, root) * m.Keys == FilesUnder(m, d, root);
      RolledSameFiles(m, root, d);
    }
    FilesUnderRoot(m, root);
    assert FilesUnder(m, root, root) * m.Keys == FilesUnder(m, root, root);
  }

  // ---------------------------------------------------------------------
  // Deletion repair

  /** The repair keeps every remaining record's kind, and leaves records off the walk untouched. */
  lemma RepairedShape(m: Records, t: Entry, root: string, k: string)
    requires DirsAbove(m, t.fullPath, root) && k in Repaired(m, t, root)
    ensures Repaired(m, t, root)[k].isDir == m[k].isDir
    ensures !OnWalk(k, t.fullPath, root) ==> Repaired(m, t, root)[k] == m[k]
  {
  }

  /** The repair's new size for a directory on the walk from the deleted record. */
  lemma RepairedAncestor(m: Records, t: Entry, root: string, k: string)
    requires k in m && k != t.fullPath && OnWalk(k, t.fullPath, root)
    ensures Repaired(m, t, root)[k].size == Wrap(m[k].size - t.size)
  {
  }

  /** After a file is deleted, the files beneath `d` are the old ones less that file, with their old sizes. */
  lemma {:induction false} RepairedBelow(m: Records, t: Entry, root: string, d: string)
    requires DirsAbove(m, t.fullPath, root)
    ensures SizeBelow(Repaired(m, t, root), d, root) == SumSizes(m, FilesUnder(m, d, root) - {t.fullPath})
  {
    var r := Repaired(m, t, root);
    forall f | f in r
      ensures r[f].isDir == m[f].isDir && r[f].size == (if OnWalk(f, t.fullPath, root) then r[f].size else m[f].size)
    {
      RepairedShape(m, t, root, f);
    }
    var fs := FilesUnder(m, d, root) - {t.fullPath};
    assert FilesUnder(r, d, root) == fs;
    forall x | x in fs
      ensures r[x].size == m[x].size
    {
      RepairedShape(m, t, root, x);
    }
    SumCongruent(r, m, fs);
  }

  /** Repair of one directory after a file is deleted. */
  lemma {:induction false} DeleteFileAt(m: Records, t: Entry, root: string, d: string)
    requires DirsAbove(m, t.fullPath, root)
    requires t.fullPath in m && m[t.fullPath] == t && !t.isDir
    requires d in Repaired(m, t, root) && m[d].isDir
    requires m[d].size == Wrap(SizeBelow(m, d, root))
    ensures Repaired(m, t, root)[d].size == Wrap(SizeBelow(Repaired(m, t, root), d, root))
  {
    var p := t.fullPath;
    var fm := FilesUnder(m, d, root);
    RepairedBelow(m, t, root, d);
    if OnWalk(d, p, root) {
      RepairedAncestor(m, t, root, d);
      SumRemove(m, fm, p);
      RepairArith(m[d].size, t.size, SizeBelow(m, d, root), t.size, SumSizes(m, fm - {p}));
    } else {
      RepairedShape(m, t, root, d);
      assert fm - {p} == fm;
    }
  }

  /**
   * Deleting a file record keeps the store well formed and keeps the rollup invariant for
   * every remaining directory.
   */
  lemma {:induction false} DeleteFilePreservesConsistency(m: Records, t: Entry, root: string)
    requires WellFormed(m, root) && Consistent(m, root)
    requires t.fullPath in m && m[t.fullPath] == t && !t.isDir
    ensures WellFormed(Repaired(m, t, root), root)
    ensures Consistent(Repaired(m, t, root), root)
  {
    var r := Repaired(m, t, root);
    assert DirsAbove(m, t.fullPath, root);
    forall k | k in r
      ensures r[k].isDir == m[k].isDir && r[k].fullPath == k
    {
      RepairedShape(m, t, root, k);
    }
    forall d | d in r && r[d].isDir
      ensures r[d].size == Wrap(SizeBelow(r, d, root))
    {
      assert m[d].size == Wrap(SizeBelow(m, d, root));
      DeleteFileAt(m, t, root, d);
    }
  }

  /**
   * After a directory `p` is deleted and the records below it are set
   * aside, the files beneath `d` are the old ones less those beneath `p`,
   * with their old sizes.
   */
  lemma {:induction false} PurgedBelow(m: Records, t: Entry, root: string, d: string)
    requires DirsAbove(m, t.fullPath, root) && t.fullPath in m && m[t.fullPath].isDir
    ensures SizeBelow(Repaired(m, t, root) - Descendants(m, t.fullPath, root), d, root)
            == SumSizes(m, FilesUnder(m, d, root) - FilesUnder(m, t.fullPath, root))
  {
    var r := Repaired(m, t, root);
    var q := r - Descendants(m, t.fullPath, root);
    forall f | f in r
      ensures r[f].isDir == m[f].isDir
    {
      RepairedShape(m, t, root, f);
    }
    var fs := FilesUnder(m, d, root) - FilesUnder(m, t.fullPath, root);
    assert FilesUnder(q, d, root) == fs;
    forall x | x in fs
      ensures q[x].size == m[x].size
    {
      RepairedShape(m, t, root, x);
    }
    SumCongruent(q, m, fs);
  }

  /** The files beneath a directory include those beneath any directory below it. */
  lemma {:induction false} NestedBelow(m: Records, d: string, p: string, root: string)
    requires OnWalk(d, p, root)
    ensures SizeBelow(m, d, root)
            == SumSizes(m, FilesUnder(m, d, root) - FilesUnder(m, p, root)) + SizeBelow(m, p, root)
  {
    forall f | f in FilesUnder(m, p, root)
      ensures f in FilesUnder(m, d, root)
    {
      OnWalkTrans(d, p, f, root);
    }
    SumSplit(m, FilesUnder(m, d, root), FilesUnder(m, p, root));
  }

  /** Two directories neither of which lies below the other have no file beneath both. */
  lemma {:induction false} DisjointBelow(m: Records, d: string, p: string, root: string)
    requires d != p && !OnWalk(d, p, root) && !OnWalk(p, d, root)
    ensures FilesUnder(m, d, root) - FilesUnder(m, p, root) == FilesUnder(m, d, root)
  {
    forall f | f in FilesUnder(m, d, root) && f in FilesUnder(m, p, root)
      ensures false
    {
      OnWalkLinear(d, p, f, root);
    }
  }

  /** Repair of one directory after a directory is deleted, with the records below it set aside. */
  lemma {:induction false} DeleteDirectoryAt(m: Records, t: Entry, root: string, d: string)
    requires DirsAbove(m, t.fullPath, root)
    requires t.fullPath in m && m[t.fullPath] == t && t.isDir
    requires t.size == Wrap(SizeBelow(m, t.fullPath, root))
    requires d in Repaired(m, t, root) - Descendants(m, t.fullPath, root)
    requires m[d].isDir && m[d].size == Wrap(SizeBelow(m, d, root))
    ensures (Repaired(m, t, root) - Descendants(m, t.fullPath, root))[d].size
            == Wrap(SizeBelow(Repaired(m, t, root) - Descendants(m, t.fullPath, root), d, root))
  {
    var p := t.fullPath;
    PurgedBelow(m, t, root, d);
    if OnWalk(d, p, root) {
      NestedBelow(m, d, p, root);
      RepairedAncestor(m, t, root, d);
      RepairArith(m[d].size, t.size, SizeBelow(m, d, root), SizeBelow(m, p, root),
                  SumSizes(m, FilesUnder(m, d, root) - FilesUnder(m, p, root)));
      assert Repaired(m, t, root)[d].size == Wrap(SumSizes(m, FilesUnder(m, d, root) - FilesUnder(m, p, root)));
    } else {
      DisjointBelow(m, d, p, root);
      RepairedShape(m, t, root, d);
      assert Repaired(m, t, root)[d].size == Wrap(SumSizes(m, FilesUnder(m, d, root) - FilesUnder(m, p, root)));
    }
  }

  /**
   * Deleting a directory record: the records below it are left in the
   * store exactly as they were, and the store is well formed and
   * satisfies the rollup invariant once those stale records are set aside.
   */
  lemma {:induction false} DeleteDirectoryLeavesStaleRecords(m: Records, t: Entry, root: string)
    requires WellFormed(m, root) && Consistent(m, root)
    requires t.fullPath in m && m[t.fullPath] == t && t.isDir && t.fullPath != root
    ensures Descendants(m, t.fullPath, root) <= Repaired(m, t, root).Keys
    ensures forall k | k in Descendants(m, t.fullPath, root) :: Repaired(m, t, root)[k] == m[k]
    ensures WellFormed(Repaired(m, t, root) - Descendants(m, t.fullPath, root), root)
    ensures Consistent(Repaired(m, t, root) - Descendants(m, t.fullPath, root), root)
  {
    var p := t.fullPath;
    var desc := Descendants(m, p, root);
    var r := Repaired(m, t, root);
    var q := r - desc;
    assert DirsAbove(m, p, root);
    assert t.size == Wrap(SizeBelow(m, p, root));
    forall k | k in desc
      ensures k in r && r[k] == m[k]
    {
      OnWalkRank(p, k, root);
      if OnWalk(k, p, root) {
        OnWalkRank(k, p, root);
      }
    }
    forall k | k in q
      ensures q[k].isDir == m[k].isDir && q[k].fullPath == k
    {
      RepairedShape(m, t, root, k);
    }
    forall k, d | k in q && OnWalk(d, k, root)
      ensures d in q && q[d].isDir
    {
      if OnWalk(p, d, root) {
        OnWalkTrans(p, d, k, root);
      }
      RepairedShape(m, t, root, d);
    }
    forall d | d in q && q[d].isDir
      ensures q[d].size == Wrap(SizeBelow(q, d, root))
    {
      RepairedShape(m, t, root, d);
      assert m[d].size == Wrap(SizeBelow(m, d, root));
      DeleteDirectoryAt(m, t, root, d);
    }
  }

  /**
   * When the store is consistent and its files total less than 2^64, the
   * repair's `uint64` subtraction never wraps: every directory the walk
   * visits holds at least the deleted record's size.
   */
  lemma {:induction false} RepairDoesNotWrap(m: Records, t: Entry, root: string, a: string)
    requires WellFormed(m, root) && Consistent(m, root) && TotalFileSize(m) < TWO_64
    requires t.fullPath in m && m[t.fullPath] == t
    requires OnWalk(a, t.fullPath, root)
    ensures a in m && a != t.fullPath && m[a].size >= t.size
    ensures Repaired(m, t, root)[a].size == m[a].size - t.size
  {
    var p := t.fullPath;
    var fa := FilesUnder(m, a, root);
    OnWalkRank(a, p, root);
    assert a in m && m[a].isDir;
    assert m[a].size == Wrap(SizeBelow(m, a, root));
    SumSplit(m, AllFiles(m), fa);
    assert SizeBelow(m, a, root) < TWO_64;
    if t.isDir {
      var ft := FilesUnder(m, p, root);
      assert t.size == Wrap(SizeBelow(m, p, root));
      forall f | f in ft
        ensures f in fa
      {
        OnWalkTrans(a, p, f, root);
      }
      SumSplit(m, fa, ft);
    } else {
      SumRemove(m, fa, p);
    }
    RepairedAncestor(m, t, root, a);
  }
}
