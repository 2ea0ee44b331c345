/** The state `ReviewManager` (src/review/reviewManager.ts) keeps while a
    pull request is checked out for review: the comment snapshot and the
    local and obsolete file changes built from it. */
module ReviewState {
  import opened Wrappers
  import opened Grouping
  import opened Review
  import opened Reconcile

  class ReviewManager {
    var comments: seq<Comment>
    var localFileChanges: seq<FileChangeNode>
    var obsoleteFileChanges: seq<FileChangeNode>

    constructor()
      ensures comments == [] && localFileChanges == [] && obsoleteFileChanges == []
    {
      comments := [];
      localFileChanges := [];
      obsoleteFileChanges := [];
    }

    /** The file changes agree with the stored snapshot: each local change
        holds the active comments on its file and the obsolete changes are
        the groups of the outdated comments. */
    predicate Indexed(changes: seq<RichChange>, baseSha: string, headSha: string)
      reads this
    {
      && localFileChanges == LocalFileChanges(changes, ActiveComments(comments), baseSha, headSha)
      && obsoleteFileChanges == ObsoleteFileChanges(OutdatedComments(comments))
    }

    /** `getPullRequestData`: store the fetched snapshot, give every parsed
        change its active comments, and group the outdated comments by
        original commit and path into obsolete file changes. */
    method GetPullRequestData(snapshot: seq<Comment>, changes: seq<RichChange>, baseSha: string, headSha: string)
      modifies this
      ensures comments == snapshot
      ensures Indexed(changes, baseSha, headSha)
    {
      comments := snapshot;
      var active := Filter(comments, IsActive);
      var outdated := Filter(comments, IsOutdated);
      localFileChanges := LocalFileChanges(changes, active, baseSha, headSha);
      if |outdated| == 0 {
        obsoleteFileChanges := [];
      } else {
        obsoleteFileChanges := CollectNested(outdated, CommitOf, PathOf, ObsoleteFileChange);
      }
    }

    /** `updateComments`. `fetched` is None when the method returns before
        fetching (no matching pull request, branch, remote or repository).
        The stored snapshot becomes the fetched one exactly when some thread
        was removed, added or changed; the file changes are left as they
        are. */
    method UpdateComments(fetched: Option<seq<Comment>>)
      returns (added: seq<Thread>, removed: seq<Thread>, changed: seq<Thread>)
      modifies this`comments
      ensures fetched.None? ==> added == [] && removed == [] && changed == [] && comments == old(comments)
      ensures fetched.Some? ==>
        && removed == Removed(ThreadsOf(old(comments), Expanded), ThreadsOf(fetched.value, Expanded))
        && added == Added(ThreadsOf(old(comments), Expanded), ThreadsOf(fetched.value, Expanded))
        && changed == Changed(ThreadsOf(old(comments), Expanded), ThreadsOf(fetched.value, Expanded), NeverEdited)
      ensures comments == if added == [] && removed == [] && changed == [] then old(comments) else fetched.value
    {
      if fetched.None? {
        return [], [], [];
      }
      added, removed, changed := ReconcileThreads(comments, fetched.value);
      if |added| > 0 || |removed| > 0 || |changed| > 0 {
        comments := fetched.value;
      }
    }

    /** `clear`: leaving review mode forgets the snapshot. */
    method Clear(quitReviewMode: bool)
      modifies this`comments
      ensures comments == if quitReviewMode then [] else old(comments)
    {
      if quitReviewMode {
        comments := [];
      }
    }
  }
}
