/**
 * The properties page's store-facing logic: deleting the selected file or
 * directory and repairing the directory sizes above it, the reason shown
 * when the removal fails, and the "N element(s)" contents line.
 */
module PropertiesPage {
  import opened Paths
  import opened FileDir
  import opened SizeStore
  import opened Aggregate
  import opened Text
  import MainPage

  // ---------------------------------------------------------------------
  // The reason shown on the error page

  /** Outcome of reading a field of a split message: the field, or the index panic. */
  datatype Field = OutOfRange | Field(text: string)

  const UNKNOWN_REASON: string := "Unknown Reason"

  /**
   * The error page's reason as the handler computes it: the second
   * ':'-separated field of the error text, or "Unknown Reason" when that
   * field is empty. A text with no ':' has no second field.
   */
  function ErrorReason(msg: string): (r: Field)
    ensures r.OutOfRange? <==> ':' !in msg
    ensures r.Field? ==> r.text != ""
  {
    var reason := Split(msg, ':');
    if |reason| < 2 then
      assert ':' !in msg by {
        if ':' in msg {
          SplitHasSecond(msg, ':');
        }
      }
      OutOfRange
    else
      assert ':' in msg;
      if |reason[1]| == 0 then Field(UNKNOWN_REASON) else Field(reason[1])
  }

  /**
   * The handler shows the second ':'-separated field of the error text,
   * however many fields follow it, and "Unknown Reason" when that field
   * is empty.
   */
  lemma ReasonIsSecondField(head: string, field: string, rest: string)
    requires ':' !in head && ':' !in field
    ensures ErrorReason(head + ":" + field) == Field(if field == "" then UNKNOWN_REASON else field)
    ensures ErrorReason(head + ":" + field + ":" + rest) == Field(if field == "" then UNKNOWN_REASON else field)
  {
    assert head + ":" + field == head + [':'] + field;
    SplitAfterFirst(head, ':', field);
    SplitNone(field, ':');
    var tail := field + [':'] + rest;
    assert head + ":" + field + ":" + rest == head + [':'] + tail;
    SplitAfterFirst(head, ':', tail);
    SplitAfterFirst(field, ':', rest);
  }

  /**
   * The reason the error page is meant to show: the part after the last
   * ':', which is the operating system's own message in an error of the
   * form "op path: message", or "Unknown Reason" when that part is empty.
   */
  function CauseOfError(msg: string): (r: string)
    ensures r != ""
    ensures ':' !in msg && msg != "" ==> r == msg
  {
    var last := AfterLast(msg, ':');
    if |last| == 0 then UNKNOWN_REASON else last
  }

  /**
   * `os.Remove` and `os.RemoveAll` report "op path: message". Whatever
   * characters the part before the message holds, the corrected reason is
   * the message.
   */
  lemma CauseIsMessage(prefix: string, message: string)
    requires ':' !in message && message != ""
    ensures CauseOfError(prefix + ":" + message) == message
  {
    assert prefix + ":" + message == prefix + [':'] + message;
    AfterLastOf(prefix, ':', message);
  }

  /**
   * When neither the operation and path nor the message hold a ':', the
   * handler's reason is the message too: the two readings agree.
   */
  lemma ReasonAgreesWithoutColonInPath(op: string, p: string, message: string)
    requires ':' !in op + " " + p && ':' !in message && message != ""
    ensures ErrorReason(op + " " + p + ":" + message) == Field(message)
    ensures CauseOfError(op + " " + p + ":" + message) == message
  {
    var head := op + " " + p;
    assert head + ":" + message == head + [':'] + message;
    SplitAfterFirst(head, ':', message);
    assert Split(message, ':') == [message] by {
      assert FirstIndex(message, ':') == |message|;
    }
    CauseIsMessage(head, message);
  }

  /**
   * A path holding ':' shifts the fields: for a path "dir:frag" the
   * handler shows the fragment `frag` of the path as the reason, while the
   * corrected reading still gives the message.
   */
  lemma {:induction false} ReasonFromPathFragment(head: string, frag: string, message: string)
    requires ':' !in head && ':' !in frag && frag != "" && ':' !in message && message != ""
    ensures ErrorReason(head + ":" + frag + ":" + message) == Field(frag)
    ensures CauseOfError(head + ":" + frag + ":" + message) == message
  {
    var tail := frag + [':'] + message;
    assert head + ":" + frag + ":" + message == head + [':'] + tail;
    SplitAfterFirst(head, ':', tail);
    SplitAfterFirst(frag, ':', message);
    CauseIsMessage(head + ":" + frag, message);
  }

  /** Removing "/t/a:b" without permission shows "b" as the reason. */
  lemma ReasonForColonPath()
    ensures ErrorReason("remove /t/a:b: permission denied") == Field("b")
    ensures CauseOfError("remove /t/a:b: permission denied") == " permission denied"
  {
    var head, frag, message := "remove /t/a", "b", " permission denied";
    assert head + ":" + frag + ":" + message == "remove /t/a:b: permission denied";
    ReasonFromPathFragment(head, frag, message);
  }

  const REMOVAL_FAILED: string := "can't be removed : "

  /**
   * The line `createErrorPage` shows under the path: "can't be removed : "
   * and the handler's reason, or the index panic when the error text holds
   * no ':'.
   */
  function RemovalFailedLine(msg: string): (line: Field)
    ensures line.OutOfRange? <==> ':' !in msg
    ensures line.Field? ==>
      && |line.text| > |REMOVAL_FAILED|
      && line.text[..|REMOVAL_FAILED|] == REMOVAL_FAILED
      && line.text[|REMOVAL_FAILED|..] == ErrorReason(msg).text
  {
    match ErrorReason(msg)
    case OutOfRange => OutOfRange
    case Field(reason) =>
      var line := REMOVAL_FAILED + reason;
      assert line[..|REMOVAL_FAILED|] == REMOVAL_FAILED && line[|REMOVAL_FAILED|..] == reason;
      Field(line)
  }

  /** For that removal the handler switches to an error page reading "can't be removed : b". */
  lemma ColonPathPage()
    ensures FailurePage("remove /t/a:b: permission denied") == ShowError("can't be removed : b")
  {
    var msg := "remove /t/a:b: permission denied";
    ReasonForColonPath();
    assert RemovalFailedLine(msg) == Field(REMOVAL_FAILED + "b");
    assert REMOVAL_FAILED + "b" == "can't be removed : b";
  }

  // ---------------------------------------------------------------------
  // The "content" line

  /** `strconv.Itoa(n)` followed by " element", plural from two on. */
  function ContentsText(n: nat): (s: string)
  {
    DecimalString(n) + " element" + (if n >= 2 then "s" else "")
  }

  /**
   * The contents line reads back as the count, and its noun ends in "s"
   * exactly when the count is at least two (so 0 reads "0 element").
   */
  lemma ContentsTextReadsBack(n: nat)
    ensures var s := ContentsText(n); var d := |DecimalString(n)|;
      d < |s| && ParseDecimal(s[..d]) == n && s[d] == ' '
    ensures var s := ContentsText(n); var d := |DecimalString(n)|;
      |s| == d + 8 + (if n >= 2 then 1 else 0) && s[d..d + 8] == " element"
    ensures var s := ContentsText(n); (s[|s| - 1] == 's') <==> n >= 2
  {
    var s := ContentsText(n);
    var d := DecimalString(n);
    assert s[..|d|] == d;
    assert s[|d|..|d| + 8] == " element";
    DecimalRoundTrip(n);
  }

  // ---------------------------------------------------------------------
  // Deleting the selected record

  /** What the removal call reports. */
  datatype Outcome = Removed | RemoveFailed(msg: string)

  /**
   * Where the handler ends: the error page with its line, the index panic
   * of `createErrorPage`, or the refreshed main page.
   */
  datatype Page = ShowError(line: string) | IndexPanic | ShowMain(rows: seq<Entry>)

  /** The page a failed removal leads to. */
  function FailurePage(msg: string): (page: Page)
    ensures page.IndexPanic? <==> ':' !in msg
    ensures page.ShowError? ==> RemovalFailedLine(msg) == Field(page.line)
  {
    match RemovalFailedLine(msg)
    case OutOfRange => IndexPanic
    case Field(line) => ShowError(line)
  }

  /** Every path the repair loop visits from `p` has a record in the store. */
  ghost predicate AncestorsStored(m: Records, p: string, root: string)
  {
    forall a | OnWalk(a, p, root) :: a in m
  }

  /**
   * The store part-way through the repair loop: the directories on the
   * walk from `t` up to and including `cur` have lost `t`'s size.
   */
  ghost function Repairing(m: Records, t: Entry, root: string, cur: string): (r: Records)
    ensures r.Keys == m.Keys
  {
    map x | x in m :: RepairingEntry(m, t, root, cur, x)
  }

  /** One record of Repairing. */
  ghost function RepairingEntry(m: Records, t: Entry, root: string, cur: string, x: string): Entry
    requires x in m
  {
    if OnWalk(x, t.fullPath, root) && !OnWalk(x, cur, root)
    then Entry(x, Wrap(m[x].size - t.size), true)
    else m[x]
  }

  lemma RepairingStart(m: Records, t: Entry, root: string)
    ensures Repairing(m, t, root, t.fullPath) == m
  {
  }

  /** One step up of the repair loop repairs exactly the new parent. */
  lemma RepairingStep(m: Records, t: Entry, root: string, cur: string)
    requires cur != root && Dir(cur) != cur && Dir(cur) in m
    requires cur == t.fullPath || OnWalk(cur, t.fullPath, root)
    ensures OnWalk(Dir(cur), t.fullPath, root)
    ensures Repairing(m, t, root, Dir(cur)) ==
      Repairing(m, t, root, cur)[Dir(cur) :=
        Entry(Dir(cur), Wrap(Repairing(m, t, root, cur)[Dir(cur)].size - t.size), true)]
  {
    var p := Dir(cur);
    if cur != t.fullPath {
      OnWalkTrans(p, cur, t.fullPath, root);
    }
    assert OnWalk(p, cur, root);
    if OnWalk(p, p, root) {
      OnWalkRank(p, p, root);
    }
    var before := Repairing(m, t, root, cur);
    var after := Repairing(m, t, root, p);
    var e := Entry(p, Wrap(before[p].size - t.size), true);
    assert before[p] == m[p];
    assert after == before[p := e] by {
      forall x | x in m
        ensures after[x] == before[p := e][x]
      {
        if x != p {
          assert OnWalk(x, cur, root) <==> OnWalk(x, p, root);
        }
      }
    }
  }

  /** When the loop reaches the root, dropping `t`'s own record gives the repaired store. */
  lemma RepairingEnd(m: Records, t: Entry, root: string)
    ensures Repairing(m, t, root, root) - {t.fullPath} == Repaired(m, t, root)
  {
    var r := Repairing(m, t, root, root) - {t.fullPath};
    forall x | x in r
      ensures r[x] == Repaired(m, t, root)[x]
    {
      assert !OnWalk(x, root, root);
    }
  }

  /**
   * The OK button of the delete page. The removal outcome is `remove`
   * for a file and `removeAll` for a directory (the handler calls
   * `os.Remove` first and, for a directory, replaces its result with that
   * of `os.RemoveAll`). On failure the store is untouched and the error
   * page shows the cause. On success every directory from the parent of
   * `t` up to `givenPath` loses `t.size` in `uint64`, `t`'s record is
   * dropped (the records beneath a deleted directory stay), and the main
   * page lists the parent's children from the updated store.
   *
   * The loop ends only when `t` lies below `givenPath`, and reading a
   * parent that has no record panics; callers guarantee both.
   */
  method Delete(store: Store, t: Entry, givenPath: string, remove: Outcome, removeAll: Outcome)
    returns (page: Page)
    requires Under(t.fullPath, givenPath) && AncestorsStored(store.contents, t.fullPath, givenPath)
    modifies store
    ensures var err := if t.isDir then removeAll else remove;
      if err.RemoveFailed?
      then page == FailurePage(err.msg) && store.contents == old(store.contents)
      else page.ShowMain? && store.contents == Repaired(old(store.contents), t, givenPath)
    ensures page.ShowMain? ==>
      multiset(page.rows) == MainPage.EntriesOf(store.contents, MainPage.ChildKeys(store.contents, Dir(t.fullPath)))
      && MainPage.NonIncreasing(page.rows)
  {
    var err := remove;
    if t.isDir {
      err := removeAll;
    }
    if err.RemoveFailed? {
      page := FailurePage(err.msg);
      return;
    }
    ghost var m := store.contents;
    RepairingStart(m, t, givenPath);
    var currentParent := t.fullPath;
    while currentParent != givenPath
      invariant currentParent == t.fullPath || OnWalk(currentParent, t.fullPath, givenPath)
      invariant Under(currentParent, givenPath)
      invariant store.contents == Repairing(m, t, givenPath, currentParent)
      decreases Rank(currentParent)
    {
      ghost var child := currentParent;
      currentParent := Dir(currentParent);
      assert OnWalk(currentParent, t.fullPath, givenPath) by {
        if child != t.fullPath {
          OnWalkTrans(currentParent, child, t.fullPath, givenPath);
        }
      }
      RepairingStep(m, t, givenPath, child);
      var currentParentObj := store.Get(currentParent);
      var currentParentSize := currentParentObj.value.size;
      store.Set(currentParent, Entry(currentParent, Wrap(currentParentSize - t.size), true));
    }
    store.Remove(t.fullPath);
    RepairingEnd(m, t, givenPath);
    var rows := MainPage.TableRows(store, Dir(t.fullPath));
    page := ShowMain(rows);
  }
}
