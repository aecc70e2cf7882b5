/**
 * Slash-separated path arithmetic as the scanner, the rollup and the
 * deletion repair use it: Go's `path.Dir` on clean paths, and the
 * "walk up to the scan root" loop built on it.
 */
module Paths {

  /** Index of the last '/' in `p`, or -1 when `p` has none. */
  function LastSlash(p: string): (i: int)
    ensures -1 <= i < |p|
    ensures i >= 0 ==> p[i] == '/'
    ensures forall j | i < j < |p| :: p[j] != '/'
  {
    if |p| == 0 then -1
    else if p[|p| - 1] == '/' then |p| - 1
    else LastSlash(p[..|p| - 1])
  }

  /**
   * Go's `path.Dir` on a clean path: everything before the last '/',
   * "/" when that slash is the first character, "." when there is none.
   * A path other than "/" and "." is never its own parent, and then the
   * parent has a smaller Rank, which makes every upward walk finite.
   */
  function Dir(p: string): (d: string)
    ensures d != p ==> Rank(d) < Rank(p)
    ensures d == p <==> p == "/" || p == "."
  {
    var i := LastSlash(p);
    if i < 0 then "."
    else if i == 0 then "/"
    else p[..i]
  }

  /** Termination measure of the upward walk. */
  function Rank(p: string): nat
  {
    if '/' in p then |p| + 2
    else if p == "." then 0
    else 1
  }

  /**
   * The source's loop `for cur != root { cur = path.Dir(cur) }`, started
   * at `p`, reaches `root`: every step moves to a strictly smaller path.
   * When this is false, the loop never ends.
   */
  predicate Under(p: string, root: string)
    decreases Rank(p)
  {
    p == root || (Dir(p) != p && Under(Dir(p), root))
  }

  /**
   * `d` is one of the paths that loop visits when started at `f`: the
   * parent of `f`, its parent, and so on up to and including `root`.
   */
  predicate OnWalk(d: string, f: string, root: string)
    decreases Rank(f)
  {
    f != root && Dir(f) != f && (Dir(f) == d || OnWalk(d, Dir(f), root))
  }

  /** Every path visited is strictly above the starting point. */
  lemma {:induction false} OnWalkRank(d: string, f: string, root: string)
    requires OnWalk(d, f, root)
    ensures Rank(d) < Rank(f)
    decreases Rank(f)
  {
    if Dir(f) != d {
      OnWalkRank(d, Dir(f), root);
    }
  }

  /** Visiting is transitive: a walk from `f` passes through every point of the walk from `e`. */
  lemma {:induction false} OnWalkTrans(d: string, e: string, f: string, root: string)
    requires OnWalk(d, e, root) && OnWalk(e, f, root)
    ensures OnWalk(d, f, root)
    decreases Rank(f)
  {
    if Dir(f) != e {
      OnWalkTrans(d, e, Dir(f), root);
    }
  }

  /** The paths visited from one start form a chain: any two of them are comparable. */
  lemma {:induction false} OnWalkLinear(d: string, t: string, f: string, root: string)
    requires OnWalk(d, f, root) && OnWalk(t, f, root) && d != t
    ensures OnWalk(d, t, root) || OnWalk(t, d, root)
    decreases Rank(f)
  {
    if Dir(f) != d && Dir(f) != t {
      OnWalkLinear(d, t, Dir(f), root);
    }
  }

  /** A walk that reaches the root visits the root, unless it starts there. */
  lemma {:induction false} UnderVisitsRoot(f: string, root: string)
    requires Under(f, root) && f != root
    ensures OnWalk(root, f, root)
    decreases Rank(f)
  {
    if Dir(f) != root {
      UnderVisitsRoot(Dir(f), root);
    }
  }

  /** Every point visited by a walk that reaches the root also reaches the root. */
  lemma {:induction false} OnWalkUnder(d: string, f: string, root: string)
    requires Under(f, root) && OnWalk(d, f, root)
    ensures Under(d, root)
    decreases Rank(f)
  {
    if Dir(f) != d {
      OnWalkUnder(d, Dir(f), root);
    }
  }
}
