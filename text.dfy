/**
 * The string helpers the core leans on: `strings.Split` on one
 * separator character, the last occurrence of a character,
 * `strconv.Itoa` for counts, and `path.Clean`.
 */
module Text {

  // ---------------------------------------------------------------------
  // strings.Split / strings.Join on a one-character separator

  /** Index of the first `c` in `s`, or `|s|` when there is none. */
  function FirstIndex(s: string, c: char): (i: nat)
    ensures i <= |s|
    ensures i < |s| ==> s[i] == c
    ensures forall j | 0 <= j < i :: s[j] != c
  {
    if |s| == 0 then 0
    else if s[0] == c then 0
    else 1 + FirstIndex(s[1..], c)
  }

  /** `strings.Split(s, string(c))`: the pieces between the separators; always at least one. */
  function Split(s: string, c: char): (parts: seq<string>)
    ensures |parts| >= 1
    decreases |s|
  {
    var i := FirstIndex(s, c);
    if i == |s| then [s]
    else [s[..i]] + Split(s[i + 1..], c)
  }

  /** `strings.Join(parts, string(c))`. */
  function Join(parts: seq<string>, c: char): string
  {
    if |parts| == 0 then ""
    else if |parts| == 1 then parts[0]
    else parts[0] + [c] + Join(parts[1..], c)
  }

  /** Joining a first piece onto the rest puts one separator between them. */
  lemma JoinCons(x: string, rest: seq<string>, c: char)
    requires |rest| >= 1
    ensures Join([x] + rest, c) == x + [c] + Join(rest, c)
  {
    assert ([x] + rest)[1..] == rest;
  }

  /** Splitting and joining again gives back the text. */
  lemma {:induction false} JoinSplit(s: string, c: char)
    ensures Join(Split(s, c), c) == s
    decreases |s|
  {
    if c in s {
      var i := FirstIndex(s, c);
      SplitAt(s, c);
      JoinCons(s[..i], Split(s[i + 1..], c), c);
      JoinSplit(s[i + 1..], c);
      assert s == s[..i] + [c] + s[i + 1..];
    } else {
      SplitNone(s, c);
    }
  }

  /** No piece of a split holds the separator. */
  lemma {:induction false} SplitPiecesClean(s: string, c: char)
    ensures forall p | p in Split(s, c) :: c !in p
    decreases |s|
  {
    var i := FirstIndex(s, c);
    if i < |s| {
      SplitPiecesClean(s[i + 1..], c);
      assert c !in s[..i];
    } else {
      assert c !in s;
    }
  }

  /** Splitting text that holds the separator gives at least two pieces, and the first is what precedes it. */
  lemma SplitHasSecond(s: string, c: char)
    requires c in s
    ensures |Split(s, c)| >= 2
    ensures Split(s, c)[0] == s[..FirstIndex(s, c)]
  {
  }

  /** Splitting `a + [c] + b` where `a` has no separator: `a` first, then the pieces of `b`. */
  lemma SplitAfterFirst(a: string, c: char, b: string)
    requires c !in a
    ensures Split(a + [c] + b, c) == [a] + Split(b, c)
  {
    var s := a + [c] + b;
    assert FirstIndex(s, c) == |a| by {
      assert s[|a|] == c;
      assert forall j | 0 <= j < |a| :: s[j] == a[j];
    }
    assert s[..|a|] == a;
    assert s[|a| + 1..] == b;
  }

  /** Splitting at the first separator: the piece before it, then the pieces after it. */
  lemma SplitAt(s: string, c: char)
    requires c in s
    ensures Split(s, c) == [s[..FirstIndex(s, c)]] + Split(s[FirstIndex(s, c) + 1..], c)
  {
  }

  /** Text without the separator is a single piece. */
  lemma SplitNone(s: string, c: char)
    requires c !in s
    ensures Split(s, c) == [s]
  {
    assert FirstIndex(s, c) == |s|;
  }

  /** Index of the last `c` in `s`, or -1 when there is none. */
  function LastIndex(s: string, c: char): (i: int)
    ensures -1 <= i < |s|
    ensures i >= 0 ==> s[i] == c
    ensures forall j | i < j < |s| :: s[j] != c
  {
    if |s| == 0 then -1
    else if s[|s| - 1] == c then |s| - 1
    else LastIndex(s[..|s| - 1], c)
  }

  /** The text after the last `c`: all of `s` when it holds none. */
  function AfterLast(s: string, c: char): (r: string)
    ensures c !in r
    ensures c !in s ==> r == s
  {
    var i := LastIndex(s, c);
    assert c !in s ==> i == -1 by {
      if i >= 0 {
        assert s[i] in s;
      }
    }
    s[i + 1..]
  }

  /** After the separator that `b` follows, with none in `b`, comes `b`. */
  lemma AfterLastOf(a: string, c: char, b: string)
    requires c !in b
    ensures AfterLast(a + [c] + b, c) == b
  {
    var s := a + [c] + b;
    forall k | |a| < k < |s|
      ensures s[k] != c
    {
      assert s[k] == b[k - |a| - 1];
      assert b[k - |a| - 1] in b;
    }
    assert s[|a|] == c;
    assert LastIndex(s, c) == |a|;
    assert s[|a| + 1..] == b;
  }

  // ---------------------------------------------------------------------
  // strconv.Itoa for non-negative counts

  function DigitChar(d: nat): (ch: char)
    requires d < 10
    ensures '0' <= ch <= '9'
  {
    ['0', '1', '2', '3', '4', '5', '6', '7', '8', '9'][d]
  }

  function DigitValue(ch: char): nat
  {
    if '0' <= ch <= '9' then (ch as int - '0' as int) as nat else 0
  }

  /** `strconv.Itoa(n)` for `n >= 0`: decimal digits, no sign, no leading zero. */
  function DecimalString(n: nat): (s: string)
    ensures |s| >= 1
    ensures forall i | 0 <= i < |s| :: '0' <= s[i] <= '9'
    ensures |s| > 1 ==> s[0] != '0'
    decreases n
  {
    if n < 10 then [DigitChar(n)] else DecimalString(n / 10) + [DigitChar(n % 10)]
  }

  /** Reading decimal digits back as a number. */
  function ParseDecimal(s: string): nat
  {
    if |s| == 0 then 0 else 10 * ParseDecimal(s[..|s| - 1]) + DigitValue(s[|s| - 1])
  }

  lemma DigitRoundTrip(d: nat)
    requires d < 10
    ensures DigitValue(DigitChar(d)) == d
  {
  }

  /** The printed count reads back as the count. */
  lemma {:induction false} DecimalRoundTrip(n: nat)
    ensures ParseDecimal(DecimalString(n)) == n
    decreases n
  {
    var s := DecimalString(n);
    if n < 10 {
      DigitRoundTrip(n);
      assert s[..0] == [];
    } else {
      DecimalRoundTrip(n / 10);
      DigitRoundTrip(n % 10);
      assert s[..|s| - 1] == DecimalString(n / 10);
    }
  }

  // ---------------------------------------------------------------------
  // path.Clean

  /**
   * The element stack of `path.Clean`: empty and "." elements vanish, and
   * ".." cancels the element before it; at the start of a rooted path it
   * vanishes, at the start of a relative path it stays.
   */
  function Resolve(parts: seq<string>, rooted: bool): (st: seq<string>)
    ensures forall e | e in st :: e != "" && e != "." && (e == ".." || e in parts)
    ensures rooted ==> ".." !in st
  {
    if parts == [] then []
    else
      var init := parts[..|parts| - 1];
      var prev := Resolve(init, rooted);
      var e := parts[|parts| - 1];
      assert forall x | x in init :: x in parts;
      if e == "" || e == "." then prev
      else if e == ".." then
        if |prev| > 0 && prev[|prev| - 1] != ".." then
          var popped := prev[..|prev| - 1];
          assert forall x | x in popped :: x in prev;
          popped
        else if rooted then prev
        else prev + [".."]
      else prev + [e]
  }

  /** `path.Clean`: the shortest equivalent slash-separated path; "." for an empty result. */
  function Clean(p: string): (r: string)
  {
    var rooted := |p| > 0 && p[0] == '/';
    var body := Join(Resolve(Split(p, '/'), rooted), '/');
    if rooted then "/" + body
    else if body == "" then "."
    else body
  }

  /** Joining non-empty pieces that hold no '/' gives a text that neither starts nor ends with '/'. */
  lemma {:induction false} JoinNoEdgeSlash(parts: seq<string>)
    requires forall e | e in parts :: e != "" && '/' !in e
    ensures var j := Join(parts, '/'); j == "" <==> parts == []
    ensures var j := Join(parts, '/'); j != "" ==> j[0] != '/' && j[|j| - 1] != '/'
    decreases |parts|
  {
    if |parts| > 1 {
      assert parts[0] in parts;
      assert forall e | e in parts[1..] :: e in parts;
      JoinNoEdgeSlash(parts[1..]);
      assert parts[0][0] != '/' by {
        assert parts[0][0] in parts[0];
      }
      var j := Join(parts[1..], '/');
      assert j[|j| - 1] != '/';
    } else if |parts| == 1 {
      assert parts[0] in parts;
      assert parts[0][0] in parts[0] && parts[0][|parts[0]| - 1] in parts[0];
    }
  }

  /**
   * A cleaned path is never empty and ends in '/' only when it is the
   * root "/" itself; it starts with '/' exactly when the input does.
   */
  lemma CleanShape(p: string)
    ensures Clean(p) != ""
    ensures Clean(p)[|Clean(p)| - 1] == '/' ==> Clean(p) == "/"
    ensures (Clean(p)[0] == '/') <==> (|p| > 0 && p[0] == '/')
  {
    var rooted := |p| > 0 && p[0] == '/';
    var parts := Split(p, '/');
    SplitPiecesClean(p, '/');
    var st := Resolve(parts, rooted);
    assert forall e | e in st :: e != "" && '/' !in e;
    JoinNoEdgeSlash(st);
  }

  /** Appending a separator adds one empty piece at the end of the split. */
  lemma {:induction false} SplitTrailing(s: string, c: char)
    ensures Split(s + [c], c) == Split(s, c) + [""]
    decreases |s|
  {
    var i := FirstIndex(s, c);
    if i < |s| {
      var a, b := s[..i], s[i + 1..];
      assert c !in a;
      assert s == a + [c] + b;
      assert s + [c] == a + [c] + (b + [c]);
      SplitAfterFirst(a, c, b);
      SplitAfterFirst(a, c, b + [c]);
      SplitTrailing(b, c);
    } else {
      assert c !in s;
      assert s + [c] == s + [c] + "";
      SplitAfterFirst(s, c, "");
      SplitNone(s, c);
      SplitNone("", c);
    }
  }

  /** A trailing empty element leaves the element stack as it was. */
  lemma ResolveTrailingEmpty(parts: seq<string>, rooted: bool)
    ensures Resolve(parts + [""], rooted) == Resolve(parts, rooted)
  {
    assert (parts + [""])[..|parts|] == parts;
  }

  /** `path.Clean` ignores a trailing '/' on a non-empty path. */
  lemma CleanTrailingSlash(q: string)
    requires q != ""
    ensures Clean(q + "/") == Clean(q)
  {
    SplitTrailing(q, '/');
    ResolveTrailingEmpty(Split(q, '/'), q[0] == '/');
    assert (q + "/")[0] == q[0];
  }

  /** A text of slashes only splits on '/' into empty pieces. */
  lemma {:induction false} SplitOfSlashes(p: string)
    requires forall i | 0 <= i < |p| :: p[i] == '/'
    ensures forall q | q in Split(p, '/') :: q == ""
    decreases |p|
  {
    if |p| > 0 {
      assert FirstIndex(p, '/') == 0;
      SplitOfSlashes(p[1..]);
    }
  }

  /** Empty pieces leave nothing on the element stack. */
  lemma {:induction false} ResolveEmpties(parts: seq<string>, rooted: bool)
    requires forall q | q in parts :: q == ""
    ensures Resolve(parts, rooted) == []
    decreases |parts|
  {
    if parts != [] {
      var init := parts[..|parts| - 1];
      assert forall q | q in init :: q in parts;
      ResolveEmpties(init, rooted);
      assert parts[|parts| - 1] in parts;
    }
  }

  /** Any run of slashes cleans to the root "/". */
  lemma CleanOfSlashes(p: string)
    requires |p| >= 1 && forall i | 0 <= i < |p| :: p[i] == '/'
    ensures Clean(p) == "/"
  {
    SplitOfSlashes(p);
    ResolveEmpties(Split(p, '/'), true);
  }
}
