/**
 * The reads the main page makes of the store: the direct children of a
 * directory, largest first (`getDirectChildrenDir`), the rows the table
 * shows from them, and the record a tree node carries (`AddNodes`).
 */
module MainPage {
  import opened Paths
  import opened FileDir
  import opened SizeStore
  import opened WalkDir

  /** The keys whose parent, by `path.Dir`, is `dirPath`. */
  ghost function ChildKeys(m: Records, dirPath: string): (s: set<string>)
    ensures s <= m.Keys
  {
    set k | k in m && Dir(k) == dirPath
  }

  /** The records stored under the keys of `s`, one occurrence per key. */
  ghost function EntriesOf(m: Records, s: set<string>): multiset<Entry>
    requires s <= m.Keys
    decreases s
  {
    if s == {} then multiset{}
    else
      var x :| x in s;
      multiset{m[x]} + EntriesOf(m, s - {x})
  }

  /** Sizes never increase along `s`. */
  predicate NonIncreasing(s: seq<Entry>)
  {
    forall i, j | 0 <= i < j < |s| :: s[i].size >= s[j].size
  }

  /** The size column of `s`. */
  function SizesOf(s: seq<Entry>): (r: seq<int>)
    ensures |r| == |s|
    ensures forall i | 0 <= i < |s| :: r[i] == s[i].size
  {
    seq(|s|, i requires 0 <= i < |s| => s[i].size)
  }

  // ---------------------------------------------------------------------
  // The records of a set of keys

  lemma {:induction false} EntriesRemove(m: Records, s: set<string>, y: string)
    requires s <= m.Keys && y in s
    ensures EntriesOf(m, s) == multiset{m[y]} + EntriesOf(m, s - {y})
    decreases s
  {
    var x :| x in s && EntriesOf(m, s) == multiset{m[x]} + EntriesOf(m, s - {x});
    if x != y {
      EntriesRemove(m, s - {x}, y);
      assert s - {x} - {y} == s - {y} - {x};
      EntriesRemove(m, s - {y}, x);
    }
  }

  lemma EntriesAdd(m: Records, s: set<string>, y: string)
    requires s <= m.Keys && y in m && y !in s
    ensures EntriesOf(m, s + {y}) == EntriesOf(m, s) + multiset{m[y]}
  {
    EntriesRemove(m, s + {y}, y);
    assert s + {y} - {y} == s;
  }

  /** Every record counted for `s` is stored under a key of `s`, and there are `|s|` of them. */
  lemma {:induction false} EntriesFrom(m: Records, s: set<string>)
    requires s <= m.Keys
    ensures |EntriesOf(m, s)| == |s|
    ensures forall e | e in EntriesOf(m, s) :: exists x | x in s :: m[x] == e
    decreases s
  {
    if s != {} {
      var x :| x in s;
      EntriesRemove(m, s, x);
      EntriesFrom(m, s - {x});
    }
  }

  /**
   * When every record holds its own key as full path, each key of `s`
   * contributes a record no other key does: it occurs exactly once.
   */
  lemma EntriesOnce(m: Records, s: set<string>, k: string)
    requires s <= m.Keys && k in s
    requires forall x | x in m :: m[x].fullPath == x
    ensures EntriesOf(m, s)[m[k]] == 1
  {
    EntriesRemove(m, s, k);
    EntriesFrom(m, s - {k});
    assert m[k] !in EntriesOf(m, s - {k});
  }

  // ---------------------------------------------------------------------
  // Ordering by size, largest first

  /** Place `e` into the non-increasing sequence `s`. */
  function InsertBySize(e: Entry, s: seq<Entry>): (r: seq<Entry>)
    requires NonIncreasing(s)
    ensures NonIncreasing(r)
    ensures multiset(r) == multiset(s) + multiset{e}
    ensures r[0] == e || r[0] == s[0]
  {
    if s == [] then [e]
    else if e.size >= s[0].size then [e] + s
    else
      var rest := InsertBySize(e, s[1..]);
      assert s == [s[0]] + s[1..];
      HeadFirst(s[0], rest);
      [s[0]] + rest
  }

  /** A record no smaller than the head of a non-increasing sequence can go in front of it. */
  lemma HeadFirst(h: Entry, s: seq<Entry>)
    requires NonIncreasing(s) && (s == [] || h.size >= s[0].size)
    ensures NonIncreasing([h] + s)
  {
    var r := [h] + s;
    forall i, j | 0 <= i < j < |r|
      ensures r[i].size >= r[j].size
    {
      if i == 0 && j > 1 {
        assert r[j] == s[j - 1];
        assert s[0].size >= s[j - 1].size;
      }
    }
  }

  /**
   * `sort.Slice(children, size greater)`: a rearrangement of `s` with
   * sizes non-increasing. The library's order among equal sizes is not
   * specified; this one is a particular choice of it.
   */
  function SortBySize(s: seq<Entry>): (r: seq<Entry>)
    ensures NonIncreasing(r)
    ensures multiset(r) == multiset(s)
  {
    if s == [] then []
    else
      assert s == [s[0]] + s[1..];
      InsertBySize(s[0], SortBySize(s[1..]))
  }

  /** Sizes never increase along the numbers `a`. */
  predicate Descending(a: seq<int>)
  {
    forall i, j | 0 <= i < j < |a| :: a[i] >= a[j]
  }

  /** Splitting off the head of a sequence splits off one occurrence from its multiset. */
  lemma MultisetHead<T>(a: seq<T>)
    requires a != []
    ensures multiset(a[1..]) == multiset(a) - multiset{a[0]}
  {
    assert a == [a[0]] + a[1..];
  }

  /** Removing position `j` removes one occurrence of `a[j]`. */
  lemma MultisetRemoveAt<T>(a: seq<T>, j: int)
    requires 0 <= j < |a|
    ensures multiset(a[..j] + a[j + 1..]) == multiset(a) - multiset{a[j]}
  {
    assert a == a[..j] + [a[j]] + a[j + 1..];
  }

  /** Two non-increasing arrangements of the same numbers start with the same, largest, number. */
  lemma HeadsAgree(a: seq<int>, b: seq<int>)
    requires Descending(a) && Descending(b) && multiset(a) == multiset(b) && a != []
    ensures |a| == |b| && a[0] == b[0]
  {
    assert |b| == |multiset(b)| == |a|;
    assert a[0] in multiset(b);
    assert b[0] in multiset(a);
  }

  /** The rest of a non-increasing sequence is non-increasing. */
  lemma DescendingTail(a: seq<int>)
    requires Descending(a) && a != []
    ensures Descending(a[1..])
  {
    forall i, j | 0 <= i < j < |a| - 1 ensures a[1..][i] >= a[1..][j] {
      assert a[1..][i] == a[i + 1] && a[1..][j] == a[j + 1];
    }
  }

  /** A non-increasing sequence of numbers is determined by its multiset. */
  lemma {:induction false} SortedNumbersUnique(a: seq<int>, b: seq<int>)
    requires Descending(a) && Descending(b)
    requires multiset(a) == multiset(b)
    ensures a == b
    decreases |a|
  {
    if a == [] {
      assert |b| == |multiset(b)| == 0;
    } else {
      HeadsAgree(a, b);
      MultisetHead(a);
      MultisetHead(b);
      DescendingTail(a);
      DescendingTail(b);
      SortedNumbersUnique(a[1..], b[1..]);
      SameHeadSameTail(a, b);
    }
  }

  /** Sequences with equal heads and equal tails are equal. */
  lemma SameHeadSameTail(a: seq<int>, b: seq<int>)
    requires a != [] && b != [] && a[0] == b[0] && a[1..] == b[1..]
    ensures a == b
  {
    assert a == [a[0]] + a[1..];
    assert b == [b[0]] + b[1..];
  }

  /** The size column after removing position `j` is the column with that position removed. */
  lemma SizesRemoveAt(b: seq<Entry>, j: int)
    requires 0 <= j < |b|
    ensures SizesOf(b[..j] + b[j + 1..]) == SizesOf(b)[..j] + SizesOf(b)[j + 1..]
  {
  }

  /** Rearranging records rearranges their sizes. */
  lemma {:induction false} SizesPermuted(a: seq<Entry>, b: seq<Entry>)
    requires multiset(a) == multiset(b)
    ensures multiset(SizesOf(a)) == multiset(SizesOf(b))
    decreases |a|
  {
    if a == [] {
      assert |b| == |multiset(b)| == 0;
    } else {
      assert a[0] in multiset(b);
      var j :| 0 <= j < |b| && b[j] == a[0];
      MultisetRemoveAt(b, j);
      MultisetHead(a);
      SizesPermuted(a[1..], b[..j] + b[j + 1..]);
      SizesDropOne(a, b, j);
    }
  }

  /** The multiset step of SizesPermuted: put back the one record taken from each side. */
  lemma SizesDropOne(a: seq<Entry>, b: seq<Entry>, j: int)
    requires a != [] && 0 <= j < |b| && b[j] == a[0]
    requires multiset(SizesOf(a[1..])) == multiset(SizesOf(b[..j] + b[j + 1..]))
    ensures multiset(SizesOf(a)) == multiset(SizesOf(b))
  {
    var sa := SizesOf(a);
    var sb := SizesOf(b);
    SizesRemoveAt(b, j);
    MultisetRemoveAt(sb, j);
    assert SizesOf(a[1..]) == sa[1..];
    MultisetHead(sa);
    assert sb[j] == sa[0];
    var x := sa[0];
    assert x in multiset(sa) && x in multiset(sb);
    assert multiset(sa) == (multiset(sa) - multiset{x}) + multiset{x};
    assert multiset(sb) == (multiset(sb) - multiset{x}) + multiset{x};
  }

  /**
   * Two orderings of the same records by non-increasing size show the
   * same size column: only records of equal size can trade places.
   */
  lemma SameSizeColumn(a: seq<Entry>, b: seq<Entry>)
    requires NonIncreasing(a) && NonIncreasing(b) && multiset(a) == multiset(b)
    ensures SizesOf(a) == SizesOf(b)
  {
    SizesPermuted(a, b);
    assert Descending(SizesOf(a)) && Descending(SizesOf(b));
    SortedNumbersUnique(SizesOf(a), SizesOf(b));
  }

  // ---------------------------------------------------------------------
  // Queries

  /** Looking at one more key adds its record exactly when it is a child. */
  lemma ChildSeen(m: Records, dirPath: string, seen: set<string>, k: string)
    requires k in m && k !in seen && seen <= m.Keys
    ensures Dir(k) == dirPath ==>
      ChildKeys(m, dirPath) * (seen + {k}) == ChildKeys(m, dirPath) * seen + {k} &&
      EntriesOf(m, ChildKeys(m, dirPath) * (seen + {k})) == EntriesOf(m, ChildKeys(m, dirPath) * seen) + multiset{m[k]}
    ensures Dir(k) != dirPath ==> ChildKeys(m, dirPath) * (seen + {k}) == ChildKeys(m, dirPath) * seen
  {
    if Dir(k) == dirPath {
      assert ChildKeys(m, dirPath) * (seen + {k}) == ChildKeys(m, dirPath) * seen + {k};
      EntriesAdd(m, ChildKeys(m, dirPath) * seen, k);
    }
  }

  /**
   * `getDirectChildrenDir`: the records of the keys whose parent is
   * `dirPath`, each once, largest first, and whether there was any. With
   * none, the slice still holds one zero-valued record. The store is only
   * read.
   */
  method DirectChildren(store: Store, dirPath: string) returns (children: seq<Entry>, haveChild: bool)
    ensures haveChild <==> ChildKeys(store.contents, dirPath) != {}
    ensures haveChild ==> multiset(children) == EntriesOf(store.contents, ChildKeys(store.contents, dirPath))
    ensures !haveChild ==> children == [Zero]
    ensures NonIncreasing(children)
  {
    var slice;
    slice, haveChild := CollectChildren(store, dirPath);
    children := SortBySize(slice);
  }

  /** The children's records met along the key sequence `ks`, in that order. */
  ghost function Collected(m: Records, dirPath: string, ks: seq<string>): seq<Entry>
  {
    if ks == [] then []
    else
      var k := ks[|ks| - 1];
      Collected(m, dirPath, ks[..|ks| - 1]) + (if k in m && Dir(k) == dirPath then [m[k]] else [])
  }

  /** Collecting along one more key appends that key's record when it is a child. */
  lemma CollectedSnoc(m: Records, dirPath: string, init: seq<string>, k: string)
    ensures Collected(m, dirPath, init + [k]) ==
      Collected(m, dirPath, init) + (if k in m && Dir(k) == dirPath then [m[k]] else [])
  {
    assert (init + [k])[..|init|] == init;
  }

  /** The keys of a sequence with one more key. */
  lemma KeysSnoc(init: seq<string>, k: string)
    ensures (set x | x in init + [k]) == (set x | x in init) + {k}
  {
  }

  /** One more key, not met before, adds its record when it is a child. */
  lemma CollectedStep(m: Records, dirPath: string, init: seq<string>, k: string)
    requires (set x | x in init) <= m.Keys && k in m && k !in init
    requires multiset(Collected(m, dirPath, init)) == EntriesOf(m, ChildKeys(m, dirPath) * (set x | x in init))
    ensures (set x | x in init + [k]) == (set x | x in init) + {k}
    ensures multiset(Collected(m, dirPath, init + [k])) == EntriesOf(m, ChildKeys(m, dirPath) * (set x | x in init + [k]))
  {
    CollectedSnoc(m, dirPath, init, k);
    KeysSnoc(init, k);
    ChildSeen(m, dirPath, (set x | x in init), k);
  }

  /**
   * Walking a duplicate-free sequence of keys collects the records of
   * exactly the child keys in it, whatever the order.
   */
  lemma {:induction false} CollectedChildren(m: Records, dirPath: string, ks: seq<string>)
    requires forall k | k in ks :: k in m
    requires forall i, j | 0 <= i < j < |ks| :: ks[i] != ks[j]
    ensures (set x | x in ks) <= m.Keys
    ensures multiset(Collected(m, dirPath, ks)) == EntriesOf(m, ChildKeys(m, dirPath) * (set x | x in ks))
    decreases |ks|
  {
    if ks != [] {
      var init := ks[..|ks| - 1];
      var k := ks[|ks| - 1];
      assert ks == init + [k];
      CollectedChildren(m, dirPath, init);
      assert k !in init;
      CollectedStep(m, dirPath, init, k);
    }
  }

  /** Walking every key once collects the records of all the children, and nothing when there is none. */
  lemma CollectedEveryKey(m: Records, dirPath: string, ks: seq<string>)
    requires forall k :: k in ks <==> k in m
    requires forall i, j | 0 <= i < j < |ks| :: ks[i] != ks[j]
    ensures multiset(Collected(m, dirPath, ks)) == EntriesOf(m, ChildKeys(m, dirPath))
    ensures Collected(m, dirPath, ks) == [] <==> ChildKeys(m, dirPath) == {}
  {
    CollectedChildren(m, dirPath, ks);
    assert (set x | x in ks) == m.Keys;
    assert ChildKeys(m, dirPath) * m.Keys == ChildKeys(m, dirPath);
    EntriesEmpty(m, ChildKeys(m, dirPath));
  }

  /** A set of keys contributes no record exactly when it is empty. */
  lemma EntriesEmpty(m: Records, s: set<string>)
    requires s <= m.Keys
    ensures EntriesOf(m, s) == multiset{} <==> s == {}
  {
    EntriesFrom(m, s);
  }

  /** The loop of `getDirectChildrenDir`: the children's records in key order, before sorting. */
  method CollectChildren(store: Store, dirPath: string) returns (slice: seq<Entry>, haveChild: bool)
    ensures haveChild <==> ChildKeys(store.contents, dirPath) != {}
    ensures haveChild ==> multiset(slice) == EntriesOf(store.contents, ChildKeys(store.contents, dirPath))
    ensures !haveChild ==> slice == [Zero]
  {
    ghost var m := store.contents;
    var ks := store.Keys();
    slice := [Zero];
    haveChild := false;
    for i := 0 to |ks|
      invariant haveChild ==> slice == Collected(m, dirPath, ks[..i]) != []
      invariant !haveChild ==> slice == [Zero] && Collected(m, dirPath, ks[..i]) == []
    {
      var k := ks[i];
      assert ks[..i + 1][..i] == ks[..i];
      if Dir(k) == dirPath {
        var got := store.Get(k);
        if !haveChild {
          slice := slice[0 := got.value];
          haveChild := true;
        } else {
          slice := slice + [got.value];
        }
      }
    }
    assert ks[..|ks|] == ks;
    CollectedEveryKey(m, dirPath, ks);
  }

  /**
   * The listing `UpdateTableChildren` draws for `dirPath`: the children's
   * records, largest first, only when there are any. The zero-valued
   * placeholder of an empty result never reaches the table. Of the row
   * loop only the order and the number of rows are modelled: the cells
   * it formats (names, human-readable sizes, kinds) are not.
   */
  method TableRows(store: Store, dirPath: string) returns (rows: seq<Entry>)
    ensures multiset(rows) == EntriesOf(store.contents, ChildKeys(store.contents, dirPath))
    ensures NonIncreasing(rows)
  {
    var children, haveChild := DirectChildren(store, dirPath);
    rows := [];
    if haveChild {
      for i := 0 to |children|
        invariant rows == children[..i]
      {
        rows := rows + [children[i]];
      }
      assert children[..|children|] == children;
    }
  }

  /**
   * Asking twice with no change in between gives the same records and the
   * same size column; records of equal size may come back in another order.
   */
  method QueryTwice(store: Store, dirPath: string) returns (first: seq<Entry>, second: seq<Entry>)
    ensures multiset(first) == multiset(second)
    ensures SizesOf(first) == SizesOf(second)
  {
    var h1, h2;
    first, h1 := DirectChildren(store, dirPath);
    second, h2 := DirectChildren(store, dirPath);
    SameSizeColumn(first, second);
  }

  /**
   * The reference `AddNodes` attaches to a tree node: a directory's size
   * from `Lstat` is replaced by 0. The node then carries exactly the record
   * the scan stores for the same object.
   */
  method NodeReference(fullPath: string, info: Info) returns (e: Entry)
    ensures e == ScanRecord(fullPath, info)
    ensures e.fullPath == fullPath && e.isDir == info.isDir
    ensures e.size == (if info.isDir then 0 else info.size)
  {
    var crtSize := info.size;
    if info.isDir {
      crtSize := 0;
    }
    e := Entry(fullPath, crtSize, info.isDir);
  }
}
