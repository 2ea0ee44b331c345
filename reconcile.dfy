/** Thread reconciliation of `updateComments` (src/review/reviewManager.ts):
    the threads of the stored comment snapshot and of a freshly fetched one
    are matched by thread id and sorted into removed, added and changed
    threads. */
module Reconcile {
  import opened Wrappers
  import opened Grouping
  import opened Review

  /** The filter predicate "has thread id `id`". */
  function HasId(id: int): Thread -> bool
  {
    (t: Thread) => t.threadId == id
  }

  predicate HasThreadId(ts: seq<Thread>, id: int)
  {
    exists t :: t in ts && t.threadId == id
  }

  /** `ts.filter(t => t.threadId === id)` holds exactly the threads with that
      id, and is empty iff no thread has it. */
  lemma MatchingThreads(ts: seq<Thread>, id: int)
    ensures forall t :: t in Filter(ts, HasId(id)) <==> t in ts && t.threadId == id
    ensures Filter(ts, HasId(id)) == [] <==> !HasThreadId(ts, id)
  {
    assert forall t :: HasId(id)(t) == (t.threadId == id);
    if !HasThreadId(ts, id) && Filter(ts, HasId(id)) != [] {
      assert Filter(ts, HasId(id))[0] in Filter(ts, HasId(id));
    }
  }

  /** The old threads no new thread matches, in old order. */
  function Removed(olds: seq<Thread>, news: seq<Thread>): seq<Thread>
  {
    if olds == [] then []
    else
      var n := |olds| - 1;
      Removed(olds[..n], news) + if |Filter(news, HasId(olds[n].threadId))| == 0 then [olds[n]] else []
  }

  /** A new thread on a working-tree file is shown collapsed. */
  function CollapseIfFile(t: Thread): Thread
  {
    if t.resource.FileResource? then t.(collapsibleState := Collapsed) else t
  }

  /** The new threads no old thread matches, in new order. */
  function Added(olds: seq<Thread>, news: seq<Thread>): seq<Thread>
  {
    if news == [] then []
    else
      var n := |news| - 1;
      Added(olds, news[..n]) + if |Filter(olds, HasId(news[n].threadId))| == 0 then [CollapseIfFile(news[n])] else []
  }

  /** `t` once per old thread in `matches` whose comment count differs from
      `t`'s, or once per old thread when `edited` holds. */
  function ChangedFor(matches: seq<Thread>, t: Thread, edited: bool): seq<Thread>
  {
    if matches == [] then []
    else
      var n := |matches| - 1;
      ChangedFor(matches[..n], t, edited) + if |matches[n].comments| != |t.comments| || edited then [t] else []
  }

  /** The changed threads, given the edit detector `edited` applied to the
      first matching old thread's comments and the new thread's comments. */
  function Changed(olds: seq<Thread>, news: seq<Thread>, edited: (seq<Comment>, seq<Comment>) -> bool): seq<Thread>
  {
    if news == [] then []
    else
      var n := |news| - 1;
      var matches := Filter(olds, HasId(news[n].threadId));
      Changed(olds, news[..n], edited) + ChangedFor(matches, news[n], matches != [] && edited(matches[0].comments, news[n].comments))
  }

  // ---------------------------------------------------------------------
  // Edit detection

  /** The `forEach` callback of `commentsEditedInThread` for one old
      comment: its id is not matched by exactly one new comment, or the
      match has another body. */
  predicate CommentEdited(oldComment: Comment, news: seq<Comment>)
  {
    var matching := Filter(news, SameCommentId(oldComment.id));
    |matching| != 1 || matching[0].body != oldComment.body
  }

  function SameCommentId(id: int): Comment -> bool
  {
    (c: Comment) => c.id == id
  }

  /** What `commentsEditedInThread` returns, whatever the comments. */
  predicate NeverEdited(oldComments: seq<Comment>, newComments: seq<Comment>)
  {
    false
  }

  /** `commentsEditedInThread` as written: the callback's verdict only ends
      that callback, `forEach` drops it, and the function falls through to
      `return false`. */
  method CommentsEditedInThread(oldComments: seq<Comment>, newComments: seq<Comment>) returns (edited: bool)
    ensures edited == NeverEdited(oldComments, newComments)
    ensures !edited
  {
    for i := 0 to |oldComments| {
      var verdict := CommentEdited(oldComments[i], newComments);
    }
    return false;
  }

  /** Some old comment lost its unique match or changed its body. */
  predicate CommentsEdited(oldComments: seq<Comment>, newComments: seq<Comment>)
  {
    exists i :: 0 <= i < |oldComments| && CommentEdited(oldComments[i], newComments)
  }

  /** The evidently intended detector: stop at the first edited comment and
      report it. */
  method CommentsEditedIntended(oldComments: seq<Comment>, newComments: seq<Comment>) returns (edited: bool)
    ensures edited == CommentsEdited(oldComments, newComments)
  {
    for i := 0 to |oldComments|
      invariant forall k :: 0 <= k < i ==> !CommentEdited(oldComments[k], newComments)
    {
      if CommentEdited(oldComments[i], newComments) {
        return true;
      }
    }
    return false;
  }

  // ---------------------------------------------------------------------
  // The reconciliation loops

  /** The first loop of `updateComments`: every old thread no new thread
      matches is pushed to `removed`. */
  method RemovedThreads(oldThreads: seq<Thread>, newThreads: seq<Thread>) returns (removed: seq<Thread>)
    ensures removed == Removed(oldThreads, newThreads)
  {
    removed := [];
    for i := 0 to |oldThreads|
      invariant removed == Removed(oldThreads[..i], newThreads)
    {
      var matching := Filter(newThreads, HasId(oldThreads[i].threadId));
      if |matching| == 0 {
        removed := removed + [oldThreads[i]];
      }
      assert oldThreads[..i + 1][..i] == oldThreads[..i];
    }
    assert oldThreads[..|oldThreads|] == oldThreads;
  }

  /** The inner loop over the old threads matching `thread`: `thread` is
      pushed once per old thread whose comment count differs, or whose first
      match `commentsEditedInThread` reports. */
  method ChangedAgainst(matching: seq<Thread>, thread: Thread) returns (pushed: seq<Thread>)
    ensures pushed == ChangedFor(matching, thread, matching != [] && NeverEdited(matching[0].comments, thread.comments))
  {
    pushed := [];
    for k := 0 to |matching|
      invariant pushed == ChangedFor(matching[..k], thread, false)
    {
      var differs := |matching[k].comments| != |thread.comments|;
      if !differs {
        differs := CommentsEditedInThread(matching[0].comments, thread.comments);
      }
      if differs {
        pushed := pushed + [thread];
      }
      assert matching[..k + 1][..k] == matching[..k];
    }
    assert matching[..|matching|] == matching;
  }

  /** The second loop of `updateComments`: a new thread no old thread
      matches is added, collapsed when on a working-tree file; each new
      thread is checked against its matching old threads for changes. */
  method AddedAndChangedThreads(oldThreads: seq<Thread>, newThreads: seq<Thread>)
    returns (added: seq<Thread>, changed: seq<Thread>)
    ensures added == Added(oldThreads, newThreads)
    ensures changed == Changed(oldThreads, newThreads, NeverEdited)
  {
    added, changed := [], [];
    for j := 0 to |newThreads|
      invariant added == Added(oldThreads, newThreads[..j])
      invariant changed == Changed(oldThreads, newThreads[..j], NeverEdited)
    {
      var thread := newThreads[j];
      var matching := Filter(oldThreads, HasId(thread.threadId));
      if |matching| == 0 {
        added := added + [CollapseIfFile(thread)];
      }
      var pushed := ChangedAgainst(matching, thread);
      changed := changed + pushed;
      assert newThreads[..j + 1][..j] == newThreads[..j];
    }
    assert newThreads[..|newThreads|] == newThreads;
  }

  /** The reconciliation of `updateComments`: threads of both snapshots,
      then the removed, added and changed threads. */
  method ReconcileThreads(oldComments: seq<Comment>, newComments: seq<Comment>)
    returns (added: seq<Thread>, removed: seq<Thread>, changed: seq<Thread>)
    ensures removed == Removed(ThreadsOf(oldComments, Expanded), ThreadsOf(newComments, Expanded))
    ensures added == Added(ThreadsOf(oldComments, Expanded), ThreadsOf(newComments, Expanded))
    ensures changed == Changed(ThreadsOf(oldComments, Expanded), ThreadsOf(newComments, Expanded), NeverEdited)
  {
    var oldThreads := CommentsToCommentThreads(oldComments, Expanded);
    var newThreads := CommentsToCommentThreads(newComments, Expanded);
    removed := RemovedThreads(oldThreads, newThreads);
    added, changed := AddedAndChangedThreads(oldThreads, newThreads);
  }

  // ---------------------------------------------------------------------
  // What the outcome lists hold

  /** An old thread is removed iff no new thread has its id; removed
      threads are old threads. */
  lemma {:induction false} RemovedIff(olds: seq<Thread>, news: seq<Thread>)
    ensures forall t :: t in Removed(olds, news) <==> t in olds && !HasThreadId(news, t.threadId)
  {
    if olds != [] {
      var n := |olds| - 1;
      RemovedIff(olds[..n], news);
      MatchingThreads(news, olds[n].threadId);
      assert olds == olds[..n] + [olds[n]];
    }
  }

  /** A thread is added iff it is a new thread, collapsed when on a
      working-tree file, whose id no old thread has. */
  lemma {:induction false} AddedIff(olds: seq<Thread>, news: seq<Thread>)
    ensures forall a :: a in Added(olds, news) <==>
      exists t :: t in news && !HasThreadId(olds, t.threadId) && a == CollapseIfFile(t)
  {
    if news != [] {
      var n := |news| - 1;
      AddedIff(olds, news[..n]);
      MatchingThreads(olds, news[n].threadId);
      assert news == news[..n] + [news[n]];
    }
  }

  lemma {:induction false} ChangedForIff(matches: seq<Thread>, t: Thread, edited: bool, x: Thread)
    ensures x in ChangedFor(matches, t, edited) <==>
      x == t && exists m :: m in matches && (|m.comments| != |t.comments| || edited)
  {
    if matches != [] {
      var n := |matches| - 1;
      ChangedForIff(matches[..n], t, edited, x);
      assert matches == matches[..n] + [matches[n]];
    }
  }

  /** Some old thread with `x`'s id disagrees with `x`: by comment count, or
      by the edit detector on the first old thread with that id. */
  predicate Disagrees(olds: seq<Thread>, x: Thread, edited: (seq<Comment>, seq<Comment>) -> bool)
  {
    var matches := Filter(olds, HasId(x.threadId));
    matches != [] && exists m :: m in matches && (|m.comments| != |x.comments| || edited(matches[0].comments, x.comments))
  }

  /** A thread is changed iff it is a new thread some old thread with its id
      disagrees with. */
  lemma {:induction false} ChangedIff(olds: seq<Thread>, news: seq<Thread>, edited: (seq<Comment>, seq<Comment>) -> bool, x: Thread)
    ensures x in Changed(olds, news, edited) <==> x in news && Disagrees(olds, x, edited)
  {
    if news != [] {
      var n := |news| - 1;
      var last := news[n];
      var matches := Filter(olds, HasId(last.threadId));
      var flag := matches != [] && edited(matches[0].comments, last.comments);
      assert x in Changed(olds, news, edited) <==> x in Changed(olds, news[..n], edited) || x in ChangedFor(matches, last, flag) by {
        assert Changed(olds, news, edited) == Changed(olds, news[..n], edited) + ChangedFor(matches, last, flag);
      }
      assert x in Changed(olds, news[..n], edited) <==> x in news[..n] && Disagrees(olds, x, edited) by {
        ChangedIff(olds, news[..n], edited, x);
      }
      assert x in ChangedFor(matches, last, flag) <==> x == last && Disagrees(olds, x, edited) by {
        ChangedForIff(matches, last, flag, x);
      }
      InFrontOrLast(news, x);
    }
  }

  /** As written, a thread is changed iff some old thread with its id has a
      different number of comments: an edit that keeps the count is never
      reported. */
  lemma ChangedOnlyByCount(olds: seq<Thread>, news: seq<Thread>, x: Thread)
    ensures x in Changed(olds, news, NeverEdited) <==>
      x in news && exists m :: m in olds && m.threadId == x.threadId && |m.comments| != |x.comments|
  {
    ChangedIff(olds, news, NeverEdited, x);
    MatchingThreads(olds, x.threadId);
  }

  /** No thread id is reported in two of the three lists. */
  lemma OutcomesDisjoint(olds: seq<Thread>, news: seq<Thread>, edited: (seq<Comment>, seq<Comment>) -> bool)
    ensures forall a, r :: a in Added(olds, news) && r in Removed(olds, news) ==> a.threadId != r.threadId
    ensures forall a, c :: a in Added(olds, news) && c in Changed(olds, news, edited) ==> a.threadId != c.threadId
    ensures forall r, c :: r in Removed(olds, news) && c in Changed(olds, news, edited) ==> r.threadId != c.threadId
  {
    AddedIff(olds, news);
    RemovedIff(olds, news);
    forall c | c in Changed(olds, news, edited)
      ensures c in news && HasThreadId(olds, c.threadId)
    {
      ChangedIff(olds, news, edited, c);
      MatchingThreads(olds, c.threadId);
    }
  }

  /** Threads built from a snapshot are all on working-tree files, so every
      added thread is collapsed. */
  lemma AddedAreCollapsed(oldComments: seq<Comment>, newComments: seq<Comment>)
    ensures forall a :: a in Added(ThreadsOf(oldComments, Expanded), ThreadsOf(newComments, Expanded)) ==>
      a.collapsibleState == Collapsed
  {
    var olds, news := ThreadsOf(oldComments, Expanded), ThreadsOf(newComments, Expanded);
    ThreadsPartition(newComments, Expanded);
    AddedIff(olds, news);
  }

  /** Two threads of one snapshot share an id only if they are the same
      thread, when comment ids are unique. */
  lemma ThreadIdsDistinct(comments: seq<Comment>, state: CollapsibleState)
    requires forall i, j :: 0 <= i < j < |comments| ==> comments[i].id != comments[j].id
    ensures forall i, j :: 0 <= i < j < |ThreadsOf(comments, state)| ==>
      ThreadsOf(comments, state)[i].threadId != ThreadsOf(comments, state)[j].threadId
  {
    var ts := ThreadsOf(comments, state);
    var gs := GroupBy2(comments, PathOf, PositionOf);
    forall i, j | 0 <= i < j < |ts| ensures ts[i].threadId != ts[j].threadId {
      ThreadAt(comments, state, i);
      ThreadAt(comments, state, j);
      GroupBy2Partitions(comments, PathOf, PositionOf);
      assert gs[i].key != gs[j].key;
      var a, b := gs[i].members[0], gs[j].members[0];
      assert a in gs[i].members && b in gs[j].members;
      DistinctComments(comments, a, b);
    }
  }

  /** With unique comment ids, two different comments of the list have
      different ids. */
  lemma DistinctComments(comments: seq<Comment>, a: Comment, b: Comment)
    requires forall i, j :: 0 <= i < j < |comments| ==> comments[i].id != comments[j].id
    requires a in comments && b in comments && a != b
    ensures a.id != b.id
  {
    var k :| 0 <= k < |comments| && comments[k] == a;
    var l :| 0 <= l < |comments| && comments[l] == b;
    if k > l {
      assert comments[l].id != comments[k].id;
    }
  }

  /** Nothing is removed when every old id is still present. */
  lemma {:induction false} NoneRemoved(olds: seq<Thread>, news: seq<Thread>)
    requires forall t :: t in olds ==> HasThreadId(news, t.threadId)
    ensures Removed(olds, news) == []
  {
    if olds != [] {
      var n := |olds| - 1;
      NoneRemoved(olds[..n], news);
      MatchingThreads(news, olds[n].threadId);
    }
  }

  /** Nothing is added when every new id was already present. */
  lemma {:induction false} NoneAdded(olds: seq<Thread>, news: seq<Thread>)
    requires forall t :: t in news ==> HasThreadId(olds, t.threadId)
    ensures Added(olds, news) == []
  {
    if news != [] {
      var n := |news| - 1;
      NoneAdded(olds, news[..n]);
      MatchingThreads(olds, news[n].threadId);
    }
  }

  /** Every thread of a list matches itself, so none is removed or added. */
  lemma SelfMatchKeepsAll(ts: seq<Thread>)
    ensures Removed(ts, ts) == []
    ensures Added(ts, ts) == []
  {
    NoneRemoved(ts, ts);
    NoneAdded(ts, ts);
  }

  /** Matching a list of threads with distinct ids against itself reports no
      change. */
  lemma SelfMatchUnchanged(ts: seq<Thread>)
    requires forall i, j :: 0 <= i < j < |ts| ==> ts[i].threadId != ts[j].threadId
    ensures Changed(ts, ts, NeverEdited) == []
  {
    forall t, m | t in ts && m in ts && m.threadId == t.threadId
      ensures |m.comments| == |t.comments|
    {
      var i :| 0 <= i < |ts| && ts[i] == t;
      var j :| 0 <= j < |ts| && ts[j] == m;
      assert i == j;
    }
    CountsAgreeUnchanged(ts, ts);
  }

  /** Nothing is reported changed when every old thread agrees with each new
      thread of its id on the comment count. */
  lemma {:induction false} CountsAgreeUnchanged(olds: seq<Thread>, news: seq<Thread>)
    requires forall t, m :: t in news && m in olds && m.threadId == t.threadId ==> |m.comments| == |t.comments|
    ensures Changed(olds, news, NeverEdited) == []
  {
    if news != [] {
      var n := |news| - 1;
      var last := news[n];
      var matches := Filter(olds, HasId(last.threadId));
      assert last in news;
      forall m | m in matches ensures |m.comments| == |last.comments| {
        MatchingThreads(olds, last.threadId);
      }
      ChangedForNone(matches, last);
      forall t | t in news[..n] ensures t in news {
        InFrontOrLast(news, t);
      }
      CountsAgreeUnchanged(olds, news[..n]);
    }
  }

  lemma {:induction false} ChangedForNone(matches: seq<Thread>, t: Thread)
    requires forall m :: m in matches ==> |m.comments| == |t.comments|
    ensures ChangedFor(matches, t, false) == []
  {
    if matches != [] {
      var n := |matches| - 1;
      assert matches[n] in matches;
      forall m | m in matches[..n] ensures m in matches {
        InFrontOrLast(matches, m);
      }
      ChangedForNone(matches[..n], t);
    }
  }


  /** Syncing a snapshot against itself reports nothing, when comment ids are
      unique: the stored snapshot is then kept. */
  lemma QuietWhenUnchanged(comments: seq<Comment>)
    requires forall i, j :: 0 <= i < j < |comments| ==> comments[i].id != comments[j].id
    ensures Removed(ThreadsOf(comments, Expanded), ThreadsOf(comments, Expanded)) == []
    ensures Added(ThreadsOf(comments, Expanded), ThreadsOf(comments, Expanded)) == []
    ensures Changed(ThreadsOf(comments, Expanded), ThreadsOf(comments, Expanded), NeverEdited) == []
  {
    ThreadIdsDistinct(comments, Expanded);
    SelfMatchKeepsAll(ThreadsOf(comments, Expanded));
    SelfMatchUnchanged(ThreadsOf(comments, Expanded));
  }

  // ---------------------------------------------------------------------
  // A body-only edit

  /** The old and new snapshot of a comment whose body alone was edited. */
  function BeforeEdit(): Comment
  {
    Comment(1, "f", Some(5), 5, "c0", [], "x", "u", None)
  }

  function AfterEdit(): Comment
  {
    BeforeEdit().(body := "y")
  }

  /** The intended detector sees the body edit. */
  lemma BodyEdited()
    ensures CommentsEdited([BeforeEdit()], [AfterEdit()])
  {
    var before, after := BeforeEdit(), AfterEdit();
    assert Filter([after], SameCommentId(1)) == [after] by {
      assert SameCommentId(1)(after);
      assert [after][..0] == [];
    }
    assert CommentEdited([before][0], [after]);
  }

  /** As written, the edit goes unreported: nothing is removed, added or
      changed, although the intended detector sees the edited comment. */
  lemma BodyEditMissed()
    ensures CommentsEdited([BeforeEdit()], [AfterEdit()])
    ensures Removed(ThreadsOf([BeforeEdit()], Expanded), ThreadsOf([AfterEdit()], Expanded)) == []
    ensures Added(ThreadsOf([BeforeEdit()], Expanded), ThreadsOf([AfterEdit()], Expanded)) == []
    ensures Changed(ThreadsOf([BeforeEdit()], Expanded), ThreadsOf([AfterEdit()], Expanded), NeverEdited) == []
  {
    var before, after := BeforeEdit(), AfterEdit();
    BodyEdited();
    SingleCommentThread(before, Expanded);
    SingleCommentThread(after, Expanded);
    SingleThreadsUnreported(ThreadsOf([before], Expanded)[0], ThreadsOf([after], Expanded)[0]);
  }

  /** One thread before and one after, with the same id and as many comments:
      nothing is reported. */
  lemma SingleThreadsUnreported(o: Thread, n: Thread)
    requires o.threadId == n.threadId && |o.comments| == |n.comments|
    ensures Removed([o], [n]) == []
    ensures Added([o], [n]) == []
    ensures Changed([o], [n], NeverEdited) == []
  {
    assert n in [n] && o in [o];
    NoneRemoved([o], [n]);
    NoneAdded([o], [n]);
    forall t, m | t in [n] && m in [o] && m.threadId == t.threadId ensures |m.comments| == |t.comments| {
    }
    CountsAgreeUnchanged([o], [n]);
  }


  /** With the intended detector the same edit reports the new thread as
      changed. */
  lemma BodyEditReported()
    ensures Changed(ThreadsOf([BeforeEdit()], Expanded), ThreadsOf([AfterEdit()], Expanded), CommentsEdited)
         == ThreadsOf([AfterEdit()], Expanded)
  {
    var before, after := BeforeEdit(), AfterEdit();
    SingleCommentThread(before, Expanded);
    SingleCommentThread(after, Expanded);
    BodyEdited();
    SingleThreadEditedChanged(ThreadsOf([before], Expanded)[0], ThreadsOf([after], Expanded)[0]);
  }

  /** One thread before and one after, with the same id, whose comments the
      detector finds edited: the new thread is reported changed. */
  lemma SingleThreadEditedChanged(o: Thread, n: Thread)
    requires o.threadId == n.threadId
    requires CommentsEdited(o.comments, n.comments)
    ensures Changed([o], [n], CommentsEdited) == [n]
  {
    assert Filter([o], HasId(n.threadId)) == [o] by {
      assert HasId(n.threadId)(o);
      assert [o][..0] == [];
    }
    assert [n][..0] == [];
    assert [o][..0] == [];
    assert ChangedFor([o], n, true) == [n];
  }

}
