/**
 * A small tree worked through scan, rollup, listing and deletion: the
 * root /r holds the file /r/a (100 bytes) and the directory /r/b, which
 * holds the file /r/b/c (50 bytes).
 */
module Scenario {
  import opened Paths
  import opened FileDir
  import opened Aggregate
  import opened WalkDir
  import opened MainPage

  const R: string := "/r"
  const A: string := "/r/a"
  const B: string := "/r/b"
  const C: string := "/r/b/c"

  /** What the walk reports, root first; directories with the size `Lstat` gives them. */
  function Visits(): seq<Visit>
  {
    [Visit(R, Stat(Info(true, 4096))), Visit(A, Stat(Info(false, 100))),
     Visit(B, Stat(Info(true, 4096))), Visit(C, Stat(Info(false, 50)))]
  }

  /** The store the scan leaves. */
  function Scanned(): Records
  {
    map[R := Entry(R, 0, true), A := Entry(A, 100, false),
        B := Entry(B, 0, true), C := Entry(C, 50, false)]
  }

  /** The four paths are different. */
  lemma Distinct()
    ensures R != A && R != B && R != C && A != B && A != C && B != C
  {
    assert A[3] != B[3];
  }

  /** The parents of the four paths. */
  lemma Parents()
    ensures Dir(A) == R && Dir(B) == R && Dir(C) == B
  {
    assert LastSlash(A) == 2 by {
      assert A[2] == '/' && A[3] != '/';
    }
    assert LastSlash(B) == 2 by {
      assert B[2] == '/' && B[3] != '/';
    }
    assert LastSlash(C) == 4 by {
      assert C[4] == '/' && C[5] != '/';
    }
  }

  /** The paths each rollup or repair walk visits. */
  lemma Walks(d: string)
    ensures !OnWalk(d, R, R)
    ensures OnWalk(d, A, R) <==> d == R
    ensures OnWalk(d, B, R) <==> d == R
    ensures OnWalk(d, C, R) <==> d == B || d == R
  {
    Parents();
    assert OnWalk(d, B, R) <==> d == R || OnWalk(d, R, R);
  }

  /** One more stat'ed visit adds or overwrites its own record. */
  lemma ScanAppend(m: Records, vs: seq<Visit>, p: string, info: Info)
    ensures ScanAll(m, vs + [Visit(p, Stat(info))]) == ScanAll(m, vs)[p := ScanRecord(p, info)]
  {
    assert (vs + [Visit(p, Stat(info))])[..|vs|] == vs;
  }

  /** The walk's reports become one record per object, directories at size 0. */
  lemma ScenarioScan()
    ensures ScanAll(map[], Visits()) == Scanned()
  {
    var v0, v1, v2, v3 := Visits()[0], Visits()[1], Visits()[2], Visits()[3];
    assert Visits() == [] + [v0] + [v1] + [v2] + [v3];
    ScanAppend(map[], [], R, Info(true, 4096));
    ScanAppend(map[], [v0], A, Info(false, 100));
    ScanAppend(map[], [v0] + [v1], B, Info(true, 4096));
    ScanAppend(map[], [v0] + [v1] + [v2], C, Info(false, 50));
  }

  /**
   * The shape of the scenario for any four paths: `r` is the root, `a`
   * and `b` sit directly under it and `c` directly under `b`.
   */
  ghost predicate Parented(r: string, a: string, b: string, c: string)
  {
    && r != a && r != b && r != c && a != b && a != c && b != c
    && Dir(a) == r && Dir(b) == r && Dir(c) == b && Dir(r) != r
  }

  /** The walks up to `r` in a tree of that shape. */
  ghost predicate Walked(r: string, a: string, b: string, c: string)
  {
    forall d :: && !OnWalk(d, r, r)
                && (OnWalk(d, a, r) <==> d == r)
                && (OnWalk(d, b, r) <==> d == r)
                && (OnWalk(d, c, r) <==> d == b || d == r)
  }

  /** The scenario's four paths have that shape. */
  lemma ScenarioShaped()
    ensures Parented(R, A, B, C) && Walked(R, A, B, C)
  {
    Distinct();
    Parents();
    assert LastSlash(R) == 0;
    forall d ensures && !OnWalk(d, R, R)
                     && (OnWalk(d, A, R) <==> d == R)
                     && (OnWalk(d, B, R) <==> d == R)
                     && (OnWalk(d, C, R) <==> d == B || d == R)
    {
      Walks(d);
    }
  }

  /** The tree as scanned, for any paths of that shape and any two file sizes. */
  function ScannedTree(r: string, a: string, b: string, c: string, sa: U64, sc: U64): Records
  {
    map[r := Entry(r, 0, true), a := Entry(a, sa, false), b := Entry(b, 0, true), c := Entry(c, sc, false)]
  }

  /** A directory's rolled-up record: its own size plus every file beneath it. */
  lemma RolledDirectory(m: Records, root: string, d: string, size: nat)
    requires d in m && m[d].isDir
    requires size == m[d].size + SumSizes(m, FilesUnder(m, d, root) * m.Keys)
    ensures Rolled(m, root)[d] == Entry(d, Wrap(size), true)
  {
  }

  /** A file's record is left as it is by the rollup. */
  lemma RolledFile(m: Records, root: string, f: string)
    requires f in m && !m[f].isDir
    ensures Rolled(m, root)[f] == m[f]
  {
  }

  /** The files beneath the two directories of the shaped tree. */
  lemma TreeFiles(r: string, a: string, b: string, c: string, sa: U64, sc: U64)
    requires Parented(r, a, b, c) && Walked(r, a, b, c)
    ensures var m := ScannedTree(r, a, b, c, sa, sc);
      FilesUnder(m, r, r) * m.Keys == {a, c} && FilesUnder(m, b, r) * m.Keys == {c}
  {
    var m := ScannedTree(r, a, b, c, sa, sc);
    assert m.Keys == {r, a, b, c};
    assert OnWalk(r, a, r) && OnWalk(r, c, r) && OnWalk(b, c, r) && !OnWalk(b, a, r);
  }

  /** The sums the two directories receive. */
  lemma TreeSums(r: string, a: string, b: string, c: string, sa: U64, sc: U64)
    requires Parented(r, a, b, c)
    ensures var m := ScannedTree(r, a, b, c, sa, sc);
      SumSizes(m, {a, c}) == sa + sc && SumSizes(m, {c}) == sc
  {
    var m := ScannedTree(r, a, b, c, sa, sc);
    SumRemove(m, {a, c}, a);
    assert {a, c} - {a} == {c};
    SumRemove(m, {c}, c);
    assert {c} - {c} == {};
  }

  /** A store with four keys is the display of its four records. */
  lemma FourKeys(x: Records, r: string, a: string, b: string, c: string)
    requires x.Keys == {r, a, b, c}
    ensures x == map[r := x[r], a := x[a], b := x[b], c := x[c]]
  {
  }

  /** The two directories of the shaped tree after the rollup: the root holds both files, `b` holds `c`. */
  lemma TreeRolledDirectories(r: string, a: string, b: string, c: string, sa: U64, sc: U64)
    requires Parented(r, a, b, c) && Walked(r, a, b, c) && sa + sc < TWO_64
    ensures Rolled(ScannedTree(r, a, b, c, sa, sc), r)[r] == Entry(r, sa + sc, true)
    ensures Rolled(ScannedTree(r, a, b, c, sa, sc), r)[b] == Entry(b, sc, true)
  {
    var m := ScannedTree(r, a, b, c, sa, sc);
    TreeFiles(r, a, b, c, sa, sc);
    TreeSums(r, a, b, c, sa, sc);
    RolledDirectory(m, r, r, sa + sc);
    RolledDirectory(m, r, b, sc);
  }

  /** Rolling up the shaped tree: the directories receive their files' sizes and the files stay as they are. */
  lemma TreeRollup(r: string, a: string, b: string, c: string, sa: U64, sc: U64)
    requires Parented(r, a, b, c) && Walked(r, a, b, c) && sa + sc < TWO_64
    ensures Rolled(ScannedTree(r, a, b, c, sa, sc), r) ==
      map[r := Entry(r, sa + sc, true), a := Entry(a, sa, false), b := Entry(b, sc, true), c := Entry(c, sc, false)]
  {
    var m := ScannedTree(r, a, b, c, sa, sc);
    TreeRolledDirectories(r, a, b, c, sa, sc);
    RolledFile(m, r, a);
    RolledFile(m, r, c);
    FourKeys(Rolled(m, r), r, a, b, c);
  }

  /** After the rollup /r holds 150 and /r/b holds 50; the files are unchanged. */
  lemma ScenarioRollup()
    ensures Rolled(Scanned(), R) == RolledUp()
  {
    ScenarioShaped();
    TreeRollup(R, A, B, C, 100, 50);
  }

  /** The records rolled up from the scan. */
  function RolledUp(): Records
  {
    map[R := Entry(R, 150, true), A := Entry(A, 100, false),
        B := Entry(B, 50, true), C := Entry(C, 50, false)]
  }

  /** The records of two keys. */
  lemma EntriesOfTwo(u: Records, x: string, y: string)
    requires x in u && y in u && x != y
    ensures EntriesOf(u, {x, y}) == multiset{u[x], u[y]}
  {
    EntriesRemove(u, {x, y}, x);
    assert {x, y} - {x} == {y};
    EntriesRemove(u, {y}, y);
    assert {y} - {y} == {};
  }

  /** The children of the shaped tree's root are `a` and `b`. */
  lemma TreeChildren(r: string, a: string, b: string, c: string, u: Records)
    requires Parented(r, a, b, c) && u.Keys == {r, a, b, c}
    ensures EntriesOf(u, ChildKeys(u, r)) == multiset{u[a], u[b]}
  {
    assert ChildKeys(u, r) == {a, b};
    EntriesOfTwo(u, a, b);
  }

  /** The children of /r in the rolled-up store, as a multiset of records. */
  lemma ChildrenOfRoot()
    ensures EntriesOf(RolledUp(), ChildKeys(RolledUp(), R)) == multiset{Entry(A, 100, false), Entry(B, 50, true)}
  {
    ScenarioShaped();
    TreeChildren(R, A, B, C, RolledUp());
  }

  /** Two records of different sizes have one non-increasing order. */
  lemma TwoInOrder(rows: seq<Entry>, big: Entry, small: Entry)
    requires big.size > small.size
    requires multiset(rows) == multiset{big, small} && NonIncreasing(rows)
    ensures rows == [big, small]
  {
    assert |rows| == 2;
    var x, y := rows[0], rows[1];
    assert rows == [x] + [y];
    assert multiset{x, y} == multiset{big, small};
    assert (x == big || x == small) && (y == big || y == small);
    assert multiset{x, y}[big] == 1 && multiset{x, y}[small] == 1;
    assert x.size >= y.size;
  }

  /** Listing /r gives /r/a, then /r/b: two children, largest first. */
  lemma ScenarioChildren(rows: seq<Entry>)
    requires multiset(rows) == EntriesOf(RolledUp(), ChildKeys(RolledUp(), R))
    requires NonIncreasing(rows)
    ensures rows == [Entry(A, 100, false), Entry(B, 50, true)]
  {
    ChildrenOfRoot();
    TwoInOrder(rows, Entry(A, 100, false), Entry(B, 50, true));
  }

  /** Deleting /r/b/c: /r/b drops to 0, /r to 100, and /r/b/c's record is gone. */
  lemma ScenarioDelete()
    ensures Repaired(RolledUp(), Entry(C, 50, false), R) ==
      map[R := Entry(R, 100, true), A := Entry(A, 100, false), B := Entry(B, 0, true)]
  {
    forall d ensures OnWalk(d, C, R) <==> d == B || d == R {
      Walks(d);
    }
  }
}
