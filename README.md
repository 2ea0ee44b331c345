# Review comments and pull-request paging, modelled in Dafny

This project models two parts of the VS Code "GitHub Pull Requests" extension.

**Review mode** (`ReviewManager`). The extension switches to review mode when a pull request's branch is checked out.
- It fetches the pull request's review comments.
- It splits them into *active* comments, which still have a diff position, and *outdated* ones, which do not.
- Each changed file becomes a *local file change* holding the active comments on that file.
- The outdated comments are grouped by original commit and path into *obsolete file changes*.
- Comments are grouped by path and position into *comment threads*.
- `review:` documents are served from the diff hunks.
- Each document gets commenting ranges.
- On each refresh (`updateComments`), the thread lists of the stored snapshot and of a freshly fetched one are reconciled into removed, added and changed threads.

**Pull-request listing** (`PullRequestManager`). The manager keeps one paging cursor per GitHub remote: the next page to ask for, and whether more pages exist.
- `updateRepositories` gives every new remote a first-page cursor.
- `getPullRequests` resets the cursors for a first page. Then it walks the remotes that may still have pages and fetches page after page until the page-size budget is reached.
- `mayHaveMorePages` says whether any cursor is still open.
- `getEventType` maps the names of timeline events.

Files:
- `wrappers.dfy`: `Option`.
- `grouping.dfy`: order-preserving filter, select and `groupBy`, one- and two-level, with their partition properties.
- `diff.dfy`: diff hunks and lines, the old and new sides of a diff, joining and splitting text at line breaks.
- `review.dfy`: comments, threads, file-change nodes, and the pure operations of `reviewManager.ts`.
- `reconcile.dfy`: the reconciliation of `updateComments`.
- `review_manager.dfy`: the `ReviewManager` class and its state.
- `pull_request_manager.dfy`: the paging cursors, the `PullRequestManager` class and the event types.

Two behaviours of the code are easy to miss:
- `outdatedCommentsToCommentThreads` groups outdated comments by `String(comment.position)`, not by original position. A comment is outdated when its position is `null` or `0`. GitHub reports a `null` position for a comment whose line has left the diff. Under that assumption, all of a file's outdated comments share one key and form a single thread (`Review.OutdatedFileIsOneThread`). A comment with position `0` has another key and forms its own thread. See "## Findings".
- `getPullRequests` reports "more pages" when any page fetched during the call reported more pages, not when some cursor is still open afterwards (`Pagination.MoreReportedAfterLastPage`).

## Model

| member | source | states |
|---|---|---|
| Grouping.GroupByPartitions | src/review/reviewManager.ts:440 | `groupBy` puts every element in exactly one group. Groups are non-empty and hold exactly the elements with their key, in input order. Keys are distinct and the multiset of members is the input. |
| Grouping.FirstGroupIsFirstKey | src/review/reviewManager.ts:440 | The first group is the one of the first element, and that element opens it. |
| Grouping.GroupBy2Partitions | src/review/reviewManager.ts:440-447 | The two-level grouping (by path, then position inside each path) partitions the input by the pair of keys. |
| Grouping.SelectSelect | src/review/reviewManager.ts:440-448 | Selecting by the second key inside a selection by the first is selecting by the pair of keys. |
| Grouping.SelectHead | src/review/reviewManager.ts:584-588 | The first element heads the selection by its own key. |
| Grouping.CollectNested | src/review/reviewManager.ts:443-468 | The nested `for ... in` loops over a two-level grouping push exactly one item per inner group, in group order. |
| Grouping.FilterComplement | src/review/reviewManager.ts:325-326 | Filtering by a predicate and by its negation splits the multiset of the input. |
| Grouping.FilterKeepsAll | src/review/reviewManager.ts:325 | A filter every element passes keeps the whole sequence. |
| Grouping.KeyOrderPermutes | src/review/reviewManager.ts:584-586 | Visiting groups in `for ... in` order only reorders them: same multiset, same length. |
| Grouping.KeyOrderDistinct | src/review/reviewManager.ts:584-586 | The visiting order keeps keys distinct. |
| Grouping.KeyOrderAscending | src/review/reviewManager.ts:584-586 | A non-negative (array-index) key is visited only after non-negative keys that are not larger, so index keys come first and ascending. |
| Grouping.KeyOrderAllNegative | src/review/reviewManager.ts:754-756 | With no index key, the visiting order is the insertion order of the groups. |
| Grouping.FirstWhere | src/review/reviewManager.ts:187-189 | Taking `matchedFiles[0]` gives the first index whose element satisfies the predicate. When no element does, the result is none. |
| Diff.SideLinesLength | src/review/reviewManager.ts:740-741 | One side of a diff holds as many lines as the hunks have, less those of the excluded kind. |
| Diff.SidesShareContext | src/review/reviewManager.ts:739-741 | The head side and the base side together hold every line once, and every line that is neither added nor deleted twice. |
| Diff.KindsPartition | src/review/reviewManager.ts:739-741 | Each line is context, an addition, a deletion or another kind (`Control`), so the four counts add up to the number of lines. |
| Diff.UnchangedSidesAgree | src/review/reviewManager.ts:739-741 | With no additions or deletions, both sides give the same text. |
| Diff.SplitJoin | src/review/reviewManager.ts:741 | Joining lines with `\n` and splitting again gives back the lines, when there is at least one line and none contains a line break. |
| Review.CommentsToCommentThreads | src/review/reviewManager.ts:435-472 | The loop returns exactly the threads of the two-level grouping. Empty input gives no threads. |
| Review.ThreadsPartition | src/review/reviewManager.ts:440-467 | Every comment lands in exactly one thread. Each thread is non-empty and holds exactly the comments with its path and position. A thread's id, resource, anchor line and state come from its first comment. Threads have distinct keys. |
| Review.SameThreadIff | src/review/reviewManager.ts:440-448 | Each comment is in exactly one thread, and two comments share a thread iff they have the same path and the same position. |
| Review.SingleCommentThread | src/review/reviewManager.ts:450-467 | One comment gives one thread: its id, its file, the line before its absolute position, and the comment alone. |
| Review.OutdatedCommentsToCommentThreads | src/review/reviewManager.ts:383-433 | The loop returns exactly `OutdatedThreadsOf`: one thread per (path, position) group, anchored through the diff line of its first comment, with the obsolete file change as its resource. |
| Review.OutdatedFileIsOneThread | src/review/reviewManager.ts:388-397 | Comments on one file that all have a null position form exactly one thread, whose id is the first comment's. |
| Review.OutdatedByOriginalIff | src/review/reviewManager.ts:388-397 | Corrected grouping, by path and original position: each comment is in exactly one thread, and two comments share a thread iff they have the same path and original position. |
| Review.ActiveOutdatedPartition | src/review/reviewManager.ts:325-326 | The active/outdated split is a partition of the snapshot: every comment is in exactly one of the two lists. |
| Review.LocalFileChangeComments | src/review/reviewManager.ts:333-348 | Each local file change belongs to the head commit, keeps its file name, and holds exactly the active comments on its file. |
| Review.ObsoleteFileChangesGroup | src/review/reviewManager.ts:350-373 | There is one obsolete file change per distinct (original commit, path). Each holds exactly those comments, non-empty and in snapshot order. It is a modification at that commit, and its URI names that path and commit. |
| Review.ObsoleteFileChangesCover | src/review/reviewManager.ts:350-373 | Every outdated comment is in the obsolete file change of its commit and path. |
| Review.FindMatchedFileChange | src/review/reviewManager.ts:635-655 | The result is the first change whose file name and URI commit match the query. It is none iff no change matches. |
| Review.ProvideTextDocumentContent | src/review/reviewManager.ts:731-768 | There is no content iff neither a local nor an obsolete file change on the path serves the commit, either as its own sha or as its parent. |
| Review.OutdatedSectionsPartition | src/review/reviewManager.ts:584-586 | The groups of an obsolete change's comments by original position, in visiting order: one per distinct original position, each holding exactly that position's comments in order. Non-negative positions come first, strictly ascending; negative ones follow in first-appearance order. |
| Review.ObsoleteBlocks | src/review/reviewManager.ts:754-762 | One text block per group, in visiting order: the side lines of the hunks of the first comment with that original position. |
| Review.ObsoleteLines | src/review/reviewManager.ts:754-763 | The loop pushes the blocks one after another and yields exactly `ObsoleteSideLines`. |
| Review.ObsoleteContentLines | src/review/reviewManager.ts:744-765 | When no local change serves the query, the content is the blocks of the first serving obsolete change joined by line breaks. Deletions are left out on the change's own commit and additions on its parent. |
| Review.ObsoleteContentSplits | src/review/reviewManager.ts:744-765 | Content served from an obsolete change splits back into exactly its block lines, when there is at least one line and no line holds a line break. |
| Review.LocalContentLines | src/review/reviewManager.ts:733-742 | The content served from the first serving local change splits back into exactly its diff lines without the excluded kind: deletions on the change's own commit, additions on its parent. |
| Review.ReviewCommentingRanges | src/review/reviewManager.ts:564-569 | A `review:` document gets one range per hunk. Each range starts at the hunk's new line number and spans its new length. |
| Review.LocalCommentingRanges | src/review/reviewManager.ts:533-542 | The loop returns the ranges of the hunks whose first and last lines survive in the buffer, in hunk order. |
| Review.LocalRangesSound | src/review/reviewManager.ts:535-542 | Every range comes from a hunk whose both ends survive, and every such hunk yields its range. Ranges start at line 0 or later. Under an order-keeping line map, a range never ends before it starts. |
| Review.NewCommentPlacement | src/review/reviewManager.ts:183-199 | A new comment goes to the first local change on the file, at the diff position computed for the line. Nothing is posted iff no change matches or the position is negative. |
| Review.FirstSectionFacts | src/review/reviewManager.ts:584-588 | The first group visited is that of the smallest non-negative original position, or, when every position is negative, that of the first comment. |
| Review.FirstOutdatedThread | src/review/reviewManager.ts:577-612 | The outdated `review:` branch returns at most one thread, and none iff there are no comments. That thread holds exactly the comments of the first original-position group in JavaScript key order: the smallest non-negative position, or the first comment's when every position is negative. Its id is its first comment's, and it is anchored on the line before the last diff line of that comment's hunk. |
| Review.ReviewDocumentComments | src/review/reviewManager.ts:551-612 | A matching local change gives its positioned comments, threaded and expanded, with one range per hunk. Otherwise a matching obsolete change gives `FirstOutdatedThread`. Otherwise there is nothing, and the result is none iff neither matches. |
| Review.LocalDocumentComments | src/review/reviewManager.ts:510-548 | For the first local change on the file, the snapshot's comments on that file are carried to the buffer and threaded collapsed, with that change's surviving ranges. With no such change there are no threads and no ranges. |
| Reconcile.MatchingThreads | src/review/reviewManager.ts:267-268 | Filtering by thread id keeps exactly the threads with that id. The filter is empty iff no thread has it. |
| Reconcile.RemovedThreads | src/review/reviewManager.ts:265-271 | The first loop pushes exactly `Removed`. |
| Reconcile.AddedAndChangedThreads | src/review/reviewManager.ts:288-305 | The second loop pushes exactly `Added` and `Changed` under the shipped edit detector. |
| Reconcile.ChangedAgainst | src/review/reviewManager.ts:300-304 | The inner `forEach` pushes the new thread once per matching old thread whose comment count differs, or once per match when the detector fires. |
| Reconcile.ReconcileThreads | src/review/reviewManager.ts:262-305 | The removed, added and changed lists for the expanded threads of the old and new snapshots. |
| Reconcile.RemovedIff | src/review/reviewManager.ts:265-271 | A thread is removed iff it is an old thread whose id no new thread has. |
| Reconcile.AddedIff | src/review/reviewManager.ts:288-297 | A thread is added iff it is a new thread whose id no old thread has. A thread on a workspace file is added collapsed. |
| Reconcile.ChangedForIff | src/review/reviewManager.ts:300-304 | The inner loop reports the thread iff some match has another comment count or the detector fires. |
| Reconcile.ChangedIff | src/review/reviewManager.ts:288-305 | A thread is reported changed iff it is a new thread, some old thread has its id, and either some such old thread has another comment count or the detector fires on the first one. |
| Reconcile.ChangedOnlyByCount | src/review/reviewManager.ts:273-304 | With the shipped detector, a thread is changed iff a matching old thread has another number of comments. |
| Reconcile.OutcomesDisjoint | src/review/reviewManager.ts:265-305 | No thread id is both added and removed, both added and changed, or both removed and changed. |
| Reconcile.AddedAreCollapsed | src/review/reviewManager.ts:292-297 | Every thread a refresh adds is collapsed, since every workspace thread is on a file. |
| Reconcile.ThreadIdsDistinct | src/review/reviewManager.ts:450-455 | When comment ids are distinct, thread ids are distinct. |
| Reconcile.NoneRemoved | src/review/reviewManager.ts:265-271 | When every old thread's id is among the new threads, nothing is removed. |
| Reconcile.NoneAdded | src/review/reviewManager.ts:288-297 | When every new thread's id is among the old threads, nothing is added. |
| Reconcile.SelfMatchKeepsAll | src/review/reviewManager.ts:267 | Reconciling a thread list against itself removes and adds nothing. |
| Reconcile.SelfMatchUnchanged | src/review/reviewManager.ts:300-304 | With distinct ids, reconciling a thread list against itself reports nothing as changed. |
| Reconcile.QuietWhenUnchanged | src/review/reviewManager.ts:262-316 | With distinct comment ids, reconciling a snapshot with itself removes, adds and changes nothing, so no event fires. |
| Reconcile.CommentsEditedInThread | src/review/reviewManager.ts:273-286 | As written: the function returns false for every input, because the callbacks' `return true` is dropped by `forEach`. |
| Reconcile.CommentsEditedIntended | src/review/reviewManager.ts:273-286 | The corrected detector is true iff some old comment lacks exactly one new comment with its id, or that comment's body changed. |
| Reconcile.BodyEditMissed | src/review/reviewManager.ts:273-305 | An edited comment body: the intended detector sees the edit, yet the shipped reconciliation reports nothing. |
| Reconcile.BodyEditReported | src/review/reviewManager.ts:273-305 | With the corrected detector, the same edit reports its thread as changed. |
| ReviewState.ReviewManager.constructor | src/review/reviewManager.ts:31-33 | The snapshot and both file-change lists start empty. |
| ReviewState.ReviewManager.GetPullRequestData | src/review/reviewManager.ts:322-375 | Stores the snapshot, and rebuilds the local file changes from its active comments and the obsolete ones from its outdated comments. |
| ReviewState.ReviewManager.UpdateComments | src/review/reviewManager.ts:222-320 | An early return changes nothing. Otherwise the removed, added and changed lists are `ReconcileThreads` of the stored and fetched snapshots. The fetched snapshot replaces the stored one iff some list is non-empty. |
| ReviewState.ReviewManager.Clear | src/review/reviewManager.ts:699-729 | Quitting review mode empties the snapshot. Otherwise the snapshot is kept. |
| Pagination.InitCursorsKeepsEntries | src/github/pullRequestManager.ts:77-85 | Existing cursors are untouched, each repository without one gets the first-page cursor, and nothing else is added. |
| Pagination.ResetCursorsRestarts | src/github/pullRequestManager.ts:171-178 | A reset puts every repository back on the first-page cursor and leaves other remotes' cursors alone. |
| Pagination.Eligible | src/github/pullRequestManager.ts:180 | A remote is asked iff it is a repository whose cursor is not exhausted. |
| Pagination.ResetMakesAllEligible | src/github/pullRequestManager.ts:171-180 | After the reset every repository is asked. |
| Pagination.FetchPagesFacts | src/github/pullRequestManager.ts:197-208 | The page loop of one remote keeps the count equal to the pull requests fetched, never moves the cursor back, and fetches nothing when it starts over budget or exhausted. It stops only at the budget, an exhausted cursor, or a page that gives nothing. When no page reported more, the cursor ends exhausted. |
| Pagination.NothingLeftToFetch | src/github/pullRequestManager.ts:180-212 | When every cursor is exhausted, nothing is asked, nothing is listed and no more pages are reported. |
| Pagination.RunCursors | src/github/pullRequestManager.ts:186-210 | The listing only appends pull requests and keeps the count equal to their number. Cursors only move forward, and the cursors of exhausted or unasked remotes stay untouched. |
| Pagination.FetchPagesBudget | src/github/pullRequestManager.ts:197-203 | A remote's loop overshoots the budget by less than one page. |
| Pagination.RunBudget | src/github/pullRequestManager.ts:186-208 | A listing returns fewer than `pageSize + m` pull requests when no page holds more than `m`. |
| Pagination.QuietRunSettles | src/github/pullRequestManager.ts:184-212 | A listing that reports no more pages did not stop at the budget, and leaves every asked remote settled: exhausted, or with a next page that gives nothing. |
| Pagination.MoreReportedAfterLastPage | src/github/pullRequestManager.ts:205-206 | The returned flag can be true while every cursor is exhausted, and so no next-page listing would ask any remote. |
| Pagination.PullRequestManager.constructor | src/github/pullRequestManager.ts:31-40 | No repositories and no cursors. |
| Pagination.PullRequestManager.UpdateRepositories | src/github/pullRequestManager.ts:67-85 | The repositories become the remotes not created for a pull request. Each gets a first-page cursor unless it has one, and every repository ends with a cursor. |
| Pagination.PullRequestManager.InitPages | src/github/pullRequestManager.ts:77-85 | The cursor loop gives `InitCursors` and keeps every repository tracked. |
| Pagination.PullRequestManager.MayHaveMorePages | src/github/pullRequestManager.ts:215-217 | True iff a next-page listing has a remote to ask. |
| Pagination.PullRequestManager.ResetPages | src/github/pullRequestManager.ts:171-178 | The reset loop gives `ResetCursors`. |
| Pagination.PullRequestManager.FetchRemotePages | src/github/pullRequestManager.ts:196-208 | The `while` loop over one remote's pages gives `FetchPages` and stores the remote's new cursor. |
| Pagination.PullRequestManager.ListEligible | src/github/pullRequestManager.ts:182-212 | The `for` loop over the eligible remotes gives `Run`, budget break included. |
| Pagination.PullRequestManager.GetPullRequests | src/github/pullRequestManager.ts:164-213 | With no repositories: nothing, no more pages, cursors unchanged. Otherwise: reset when not asked for the next page, then list the eligible remotes under the budget and store the cursors. |
| Pagination.GetEventType | src/github/pullRequestManager.ts:473-488 | A text is `Other` iff it is none of the five event names. |
| Pagination.EventNamesRoundTrip | src/github/pullRequestManager.ts:473-488 | Known event types and their names correspond one to one. |

## Left out

- The vscode objects (URIs, ranges, comment objects with Markdown bodies, event emitters, status bar, decorations, tree views) are plain values or are left out. A thread's resource is the comment's path (`FileResource`) or the `GitQuery` (path and commit) of its file change. `path.resolve` against the repository root is taken as the identity, so files match by file name.
- Network, git and the UI are parameters or are left out: `pr.getComments`, `getFiles`, `parseDiff`, `git diff`, `createComment`, the update-available prompt and `git.pull`. The functions of the diff helpers are parameters: `getDiffLineByPosition`, `getLastDiffLine`, `mapCommentsToHead`, `mapOldPositionToNew` and `mapHeadLineToDiffHunkPosition`. Their source is not part of this model.
- Asynchrony and interleaving between timers, git-status events and document requests are not modelled. Each operation runs to completion on the state it is given.
- `groupBy` order: JavaScript visits array-index keys (non-negative integer strings) in ascending order before other keys. Where the output depends on that order, the model follows it with `Grouping.KeyOrder`: the outdated `review:` thread and the content of an obsolete change. Elsewhere the model visits groups in first-appearance order. There this changes only the order of returned threads and obsolete file changes, not their contents. `KeyOrder` treats every non-negative integer as an index key, ignoring the upper bound of 2^32 - 2.
- Diff.DiffChangeType: the enum is declared in a module that is not part of this model. Besides `Context`, `Add` and `Delete`, which the review code names, the model has `Control` for any other line kind (such as a hunk header). No lemma assumes that only three kinds exist.
- Review.Positioned: writing `absolutePosition` into the comments mutates objects shared with the stored snapshot. The model positions copies, so the snapshot does not see the write.
- Review.LocalFileChange: `parentSha` is none, because the node class is not part of this model. Serving then falls back to `sha^`. The URI queries of local changes name the file and the head (or, for a deletion, empty) commit.
- Review.ObsoleteFileChange: the hunks are empty, as in the source (a to-do). The URI prefix `commit~<sha>` is not modelled.
- ReviewState.ReviewManager.UpdateComments: the early returns before fetching (no matching metadata, branch, remote, repository or pull request) are folded into `fetched == None`. The file changes are left as they are, as in the source.
- The rest of `ReviewManager` is out of scope: switching branches, `validateState`, status bar, file-changes tree, `replyToCommentThread`, `provideDecoration` and disposal.
- Pagination.PullRequestManager.GetPullRequests: requires that a page reporting more pages is non-empty. This also excludes a single empty page that reports more, which the source steps past to the next page. The source could loop forever on a service that keeps returning empty pages that report more. The model's loop must terminate, so it assumes the service never does that.
- `PULL_REQUEST_PAGE_SIZE` is the parameter `pageSize`, because the file that defines it is not part of this model. `isRemoteCreatedForPullRequest` is the parameter `isPRRemote`. A page fetch is the parameter `fetch`.
- Pagination.PullRequestManager.FetchRemotePages: the source updates the cursor object in the map page by page, while the model stores the final cursor once the loop ends. Nothing reads the cursor in between, so the stored result is the same.
- Pagination.PullRequestManager.UpdateRepositories: only the repository filter and the cursor initialisation are modelled. The GitHub remote discovery, the context keys and the credentials are left out.
- The rest of `PullRequestManager` (checkout, merge, reviews, timeline parsing beyond `getEventType`) is out of scope.

## Findings

| source | as written | input that shows it | evidently intended | confidence | as-written member | corrected member |
|---|---|---|---|---|---|---|
| src/review/reviewManager.ts:388-397 | `outdatedCommentsToCommentThreads` groups outdated comments by `String(comment.position)`, which is `"null"` for each of them, so all outdated comments on a file become one thread | two outdated comments on file "f", both with position `null`, at original positions 3 and 7 | one thread per original position, as the outdated `review:` branch groups them | not executed | Review.OutdatedFileIsOneThread | Review.OutdatedByOriginalIff |
| src/review/reviewManager.ts:273-286 | `commentsEditedInThread` returns `true` from inside a `forEach` callback, so the verdict is dropped and the function always returns `false` | the stored and fetched snapshots hold one comment (id 1, path "f", position 5); only its body changes from "x" to "y" | an edited or vanished comment marks its thread as changed | not executed | Reconcile.BodyEditMissed | Reconcile.BodyEditReported |
