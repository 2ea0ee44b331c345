/** The comment bookkeeping of the review manager
    (src/review/reviewManager.ts): comments and their active/outdated split,
    comment threads keyed by file and position, the file-change nodes built
    for a pull request, the text of one side of a changed file, and the
    ranges of a file on which a new comment may be placed.

    Calls into code outside this model (`getDiffLineByPosition`,
    `mapCommentsToHead`, `mapOldPositionToNew`, `mapHeadLineToDiffHunkPosition`)
    are function-valued parameters: the model requires nothing of them beyond what
    their call sites check. */
module Review {
  import opened Wrappers
  import opened Grouping
  import opened Diff

  /** A review comment as the hosting service reports it. `position` is
      `null` (None) once the comment's line has left the current diff;
      `absolutePosition` is the display line the review code writes into the
      comment (`undefined` until then). */
  datatype Comment = Comment(
    id: int,
    path: string,
    position: Option<int>,
    originalPosition: int,
    originalCommitId: string,
    diffHunks: seq<DiffHunk>,
    body: string,
    author: string,
    absolutePosition: Option<int>)

  /** `comment.position` is truthy: present and not zero. */
  predicate IsActive(c: Comment)
  {
    c.position.Some? && c.position.value != 0
  }

  predicate IsOutdated(c: Comment)
  {
    !IsActive(c)
  }

  function PathOf(c: Comment): string { c.path }

  /** The second grouping key of a thread. The source keys by
      `String(comment.position)`, which tells `null` and every number apart,
      so the optional position itself is the key. */
  function PositionOf(c: Comment): Option<int> { c.position }

  function CommitOf(c: Comment): string { c.originalCommitId }

  function OriginalPositionOf(c: Comment): int { c.originalPosition }

  /** `position === null ? original_position : position`. */
  function DiffPosition(c: Comment): int
  {
    if c.position.None? then c.originalPosition else c.position.value
  }

  /** The editor line of a thread: `absolutePosition - 1` when
      `absolutePosition` is truthy, else line 0. */
  function AnchorLine(absolutePosition: Option<int>): int
  {
    if absolutePosition.Some? && absolutePosition.value != 0 then absolutePosition.value - 1 else 0
  }

  datatype CollapsibleState = Collapsed | Expanded

  /** The query a `review:` document URI carries. */
  datatype GitQuery = GitQuery(path: string, commit: string)

  /** What a thread is attached to: a file of the working tree (a `file:`
      URI) or a file at a commit (a `review:` URI). */
  datatype Resource = FileResource(path: string) | GitResource(query: GitQuery)

  datatype Thread = Thread(
    threadId: int,
    resource: Resource,
    anchorLine: int,
    comments: seq<Comment>,
    collapsibleState: CollapsibleState)

  datatype GitChangeType = Add | Delete | Modify | Rename

  /** A changed file as the diff parser reports it. */
  datatype RichChange = RichChange(fileName: string, status: GitChangeType, diffHunks: seq<DiffHunk>)

  /** A file of the pull request as the review tree shows it: its file and
      parent URIs, the commit it belongs to, its hunks and its comments. */
  datatype FileChangeNode = FileChangeNode(
    fileName: string,
    status: GitChangeType,
    sha: string,
    parentSha: Option<string>,
    filePath: GitQuery,
    parentFilePath: GitQuery,
    diffHunks: seq<DiffHunk>,
    comments: seq<Comment>)

  // ---------------------------------------------------------------------
  // Comment threads

  /** The thread `commentsToCommentThreads` pushes for one group: its id and
      display line come from the group's first comment, its resource is the
      comment's file in the working tree. */
  function WorkspaceThread(state: CollapsibleState): (Group<(string, Option<int>), Comment>, Comment) -> Thread
  {
    (g: Group<(string, Option<int>), Comment>, first: Comment) =>
      Thread(first.id, FileResource(first.path), AnchorLine(first.absolutePosition), g.members, state)
  }

  /** The threads of `comments`: one per (path, position), in grouping order. */
  function ThreadsOf(comments: seq<Comment>, state: CollapsibleState): (ts: seq<Thread>)
  {
    NestNonEmpty(GroupBy(comments, PathOf), PositionOf);
    MapGroups(GroupBy2(comments, PathOf, PositionOf), WorkspaceThread(state))
  }

  /** `commentsToCommentThreads`: group by path, then by position, and push
      one thread per group. */
  method CommentsToCommentThreads(comments: seq<Comment>, state: CollapsibleState) returns (ret: seq<Thread>)
    ensures ret == ThreadsOf(comments, state)
  {
    if |comments| == 0 {
      return [];
    }
    ret := CollectNested(comments, PathOf, PositionOf, WorkspaceThread(state));
  }

  lemma ThreadKey(c: Comment)
    ensures PairKey(PathOf, PositionOf)(c) == (c.path, c.position)
  {
    assert PairKey(PathOf, PositionOf)(c) == (PathOf(c), PositionOf(c));
  }

  lemma FileChangeKey(c: Comment)
    ensures PairKey(CommitOf, PathOf)(c) == (c.originalCommitId, c.path)
  {
    assert PairKey(CommitOf, PathOf)(c) == (CommitOf(c), PathOf(c));
  }

  /** All comments of all threads, thread after thread. */
  function ThreadComments(ts: seq<Thread>): seq<Comment>
  {
    if ts == [] then [] else ts[0].comments + ThreadComments(ts[1..])
  }

  lemma {:induction false} ThreadCommentsOfGroups<K, R>(ts: seq<Thread>, gs: seq<Group<K, Comment>>)
    requires |ts| == |gs|
    requires forall i :: 0 <= i < |ts| ==> ts[i].comments == gs[i].members
    ensures ThreadComments(ts) == Flatten(gs)
  {
    if ts != [] {
      ThreadCommentsOfGroups<K, R>(ts[1..], gs[1..]);
    }
  }

  /** Every comment lands in exactly one thread; each thread holds exactly
      the comments of its (path, position), in input order, and no two
      threads share a (path, position). A thread's id is its first
      comment's id, its resource that comment's file, its line the one
      `AnchorLine` gives for that comment. */
  lemma ThreadsPartition(comments: seq<Comment>, state: CollapsibleState)
    ensures multiset(ThreadComments(ThreadsOf(comments, state))) == multiset(comments)
    ensures forall i :: 0 <= i < |ThreadsOf(comments, state)| ==>
      var t := ThreadsOf(comments, state)[i];
      && t.comments != []
      && t.comments == Select(comments, PairKey(PathOf, PositionOf), (t.comments[0].path, t.comments[0].position))
      && t.threadId == t.comments[0].id
      && t.resource == FileResource(t.comments[0].path)
      && t.anchorLine == AnchorLine(t.comments[0].absolutePosition)
      && t.collapsibleState == state
    ensures forall i, j :: 0 <= i < j < |ThreadsOf(comments, state)| ==>
      var a, b := ThreadsOf(comments, state)[i].comments[0], ThreadsOf(comments, state)[j].comments[0];
      (a.path, a.position) != (b.path, b.position)
  {
    var gs := GroupBy2(comments, PathOf, PositionOf);
    var ts := ThreadsOf(comments, state);
    forall i | 0 <= i < |ts|
      ensures var t := ts[i];
        && t.comments != []
        && t.comments == Select(comments, PairKey(PathOf, PositionOf), (t.comments[0].path, t.comments[0].position))
        && t.threadId == t.comments[0].id
        && t.resource == FileResource(t.comments[0].path)
        && t.anchorLine == AnchorLine(t.comments[0].absolutePosition)
        && t.collapsibleState == state
    {
      ThreadAt(comments, state, i);
    }
    forall i, j | 0 <= i < j < |ts|
      ensures (ts[i].comments[0].path, ts[i].comments[0].position) != (ts[j].comments[0].path, ts[j].comments[0].position)
    {
      ThreadAt(comments, state, i);
      ThreadAt(comments, state, j);
      GroupBy2Partitions(comments, PathOf, PositionOf);
    }
    assert multiset(ThreadComments(ts)) == multiset(comments) by {
      GroupBy2Partitions(comments, PathOf, PositionOf);
      forall i | 0 <= i < |ts| ensures ts[i].comments == gs[i].members {
        ThreadAt(comments, state, i);
      }
      ThreadCommentsOfGroups<(string, Option<int>), int>(ts, gs);
    }
  }

  /** The thread at `i` is built from the group at `i`, which is keyed by its
      first comment and holds the comments of that key. */
  lemma ThreadAt(comments: seq<Comment>, state: CollapsibleState, i: int)
    requires 0 <= i < |ThreadsOf(comments, state)|
    ensures var gs := GroupBy2(comments, PathOf, PositionOf);
      && |gs| == |ThreadsOf(comments, state)|
      && gs[i].members != []
      && ThreadsOf(comments, state)[i] == WorkspaceThread(state)(gs[i], gs[i].members[0])
      && gs[i].key == (gs[i].members[0].path, gs[i].members[0].position)
      && gs[i].members == Select(comments, PairKey(PathOf, PositionOf), gs[i].key)
  {
    GroupBy2Partitions(comments, PathOf, PositionOf);
    ThreadGroupKeys(comments);
  }

  /** Each (path, position) group is keyed by its first comment. */
  lemma ThreadGroupKeys(comments: seq<Comment>)
    ensures var gs := GroupBy2(comments, PathOf, PositionOf);
      forall i :: 0 <= i < |gs| ==>
        gs[i].members != [] && gs[i].key == (gs[i].members[0].path, gs[i].members[0].position)
  {
    var gs := GroupBy2(comments, PathOf, PositionOf);
    GroupBy2Partitions(comments, PathOf, PositionOf);
    forall i | 0 <= i < |gs| ensures gs[i].key == (gs[i].members[0].path, gs[i].members[0].position) {
      assert gs[i].members[0] in Select(comments, PairKey(PathOf, PositionOf), gs[i].key);
      ThreadKey(gs[i].members[0]);
    }
  }

  /** Two comments share a thread iff they have the same path and the same
      position; and each comment is in exactly one thread. */
  lemma SameThreadIff(comments: seq<Comment>, state: CollapsibleState, x: Comment, y: Comment)
    requires x in comments && y in comments
    ensures exists i :: 0 <= i < |ThreadsOf(comments, state)| && x in ThreadsOf(comments, state)[i].comments
    ensures forall i, j ::
      (0 <= i < |ThreadsOf(comments, state)| && 0 <= j < |ThreadsOf(comments, state)| &&
       x in ThreadsOf(comments, state)[i].comments && x in ThreadsOf(comments, state)[j].comments) ==> i == j
    ensures (exists i ::
              0 <= i < |ThreadsOf(comments, state)| &&
              x in ThreadsOf(comments, state)[i].comments && y in ThreadsOf(comments, state)[i].comments)
        <==> x.path == y.path && x.position == y.position
  {
    var gs := GroupBy2(comments, PathOf, PositionOf);
    var ts := ThreadsOf(comments, state);
    GroupBy2Partitions(comments, PathOf, PositionOf);
    PartitionMembership(gs, comments, PairKey(PathOf, PositionOf), x, y);
    ThreadKey(x);
    ThreadKey(y);
    forall i | 0 <= i < |ts| ensures ts[i].comments == gs[i].members {
      ThreadAt(comments, state, i);
    }
  }

  /** A single comment makes a single thread. */
  lemma SingleCommentThread(c: Comment, state: CollapsibleState)
    ensures ThreadsOf([c], state) == [Thread(c.id, FileResource(c.path), AnchorLine(c.absolutePosition), [c], state)]
  {
    GroupBySingleKey([c], PathOf, c.path);
    GroupBySingleKey([c], PositionOf, c.position);
    var outer := [Group(c.path, [c])];
    assert outer[..0] == [];
    assert Nest(outer, PositionOf) == Lift(c.path, [Group(c.position, [c])]);
  }

  /** The thread `outdatedCommentsToCommentThreads` pushes for one group: its
      line is taken from the first comment's own hunks when `lineAt` finds a
      line there, and its resource is the obsolete file change's URI. */
  function OutdatedThread<K>(fileChange: FileChangeNode, lineAt: (seq<DiffHunk>, int) -> Option<DiffLine>, state: CollapsibleState)
    : (Group<(string, K), Comment>, Comment) -> Thread
  {
    (g: Group<(string, K), Comment>, first: Comment) =>
      var absolute :=
        match lineAt(first.diffHunks, DiffPosition(first))
        case Some(line) => Some(line.newLineNumber)
        case None => first.absolutePosition;
      Thread(first.id, GitResource(fileChange.filePath), AnchorLine(absolute), g.members, state)
  }

  function OutdatedThreadsOf(fileChange: FileChangeNode, comments: seq<Comment>,
                             lineAt: (seq<DiffHunk>, int) -> Option<DiffLine>, state: CollapsibleState): seq<Thread>
  {
    NestNonEmpty(GroupBy(comments, PathOf), PositionOf);
    MapGroups(GroupBy2(comments, PathOf, PositionOf), OutdatedThread(fileChange, lineAt, state))
  }

  /** `outdatedCommentsToCommentThreads`: the same grouping as
      `commentsToCommentThreads`, with threads anchored through each group's
      frozen hunks. */
  method OutdatedCommentsToCommentThreads(fileChange: FileChangeNode, comments: seq<Comment>,
                                          lineAt: (seq<DiffHunk>, int) -> Option<DiffLine>, state: CollapsibleState)
    returns (ret: seq<Thread>)
    ensures ret == OutdatedThreadsOf(fileChange, comments, lineAt, state)
  {
    if |comments| == 0 {
      return [];
    }
    ret := CollectNested(comments, PathOf, PositionOf, OutdatedThread(fileChange, lineAt, state));
  }

  lemma {:induction false} GroupBySingleKey<K, T>(xs: seq<T>, key: T -> K, k: K)
    requires xs != []
    requires forall i :: 0 <= i < |xs| ==> key(xs[i]) == k
    ensures GroupBy(xs, key) == [Group(k, xs)]
  {
    var init, last := xs[..|xs| - 1], xs[|xs| - 1];
    if init == [] {
      assert xs == [last];
    } else {
      GroupBySingleKey(init, key, k);
      assert init + [last] == xs;
    }
  }

  /** The comments of one obsolete file change all have a falsy position;
      when every one of them is `null` they form a single outdated thread,
      whatever their original positions. */
  lemma OutdatedFileIsOneThread(fileChange: FileChangeNode, comments: seq<Comment>,
                                lineAt: (seq<DiffHunk>, int) -> Option<DiffLine>, state: CollapsibleState)
    requires comments != []
    requires forall i :: 0 <= i < |comments| ==> comments[i].path == comments[0].path && comments[i].position.None?
    ensures |OutdatedThreadsOf(fileChange, comments, lineAt, state)| == 1
    ensures OutdatedThreadsOf(fileChange, comments, lineAt, state)[0].comments == comments
    ensures OutdatedThreadsOf(fileChange, comments, lineAt, state)[0].threadId == comments[0].id
  {
    var p := comments[0].path;
    GroupBySingleKey(comments, PathOf, p);
    GroupBySingleKey(comments, PositionOf, None);
    var outer := [Group(p, comments)];
    assert outer[..0] == [];
    assert Nest(outer, PositionOf) == Lift(p, [Group(None, comments)]);
  }

  /** Outdated threads grouped by path and then by original position, the
      key the outdated `review:` branch uses for the same comments. */
  function OutdatedThreadsByOriginal(fileChange: FileChangeNode, comments: seq<Comment>,
                                     lineAt: (seq<DiffHunk>, int) -> Option<DiffLine>, state: CollapsibleState)
    : seq<Thread>
  {
    NestNonEmpty(GroupBy(comments, PathOf), OriginalPositionOf);
    MapGroups(GroupBy2(comments, PathOf, OriginalPositionOf), OutdatedThread(fileChange, lineAt, state))
  }

  /** Grouped by original position, each outdated comment is in exactly one
      thread, and two comments share a thread iff they are on the same path
      at the same original position. */
  lemma OutdatedByOriginalIff(fileChange: FileChangeNode, comments: seq<Comment>,
                              lineAt: (seq<DiffHunk>, int) -> Option<DiffLine>, state: CollapsibleState,
                              x: Comment, y: Comment)
    requires x in comments && y in comments
    ensures var ts := OutdatedThreadsByOriginal(fileChange, comments, lineAt, state);
      && (exists i :: 0 <= i < |ts| && x in ts[i].comments)
      && (forall i, j :: 0 <= i < |ts| && 0 <= j < |ts| && x in ts[i].comments && x in ts[j].comments ==> i == j)
      && ((exists i :: 0 <= i < |ts| && x in ts[i].comments && y in ts[i].comments)
          <==> x.path == y.path && x.originalPosition == y.originalPosition)
  {
    var gs := GroupBy2(comments, PathOf, OriginalPositionOf);
    var ts := OutdatedThreadsByOriginal(fileChange, comments, lineAt, state);
    GroupBy2Partitions(comments, PathOf, OriginalPositionOf);
    PartitionMembership(gs, comments, PairKey(PathOf, OriginalPositionOf), x, y);
    assert PairKey(PathOf, OriginalPositionOf)(x) == (PathOf(x), OriginalPositionOf(x));
    assert PairKey(PathOf, OriginalPositionOf)(y) == (PathOf(y), OriginalPositionOf(y));
    forall i | 0 <= i < |ts| ensures ts[i].comments == gs[i].members {
    }
  }

  // ---------------------------------------------------------------------
  // The file changes of a pull request (`getPullRequestData`)

  /** Comments still anchored in the current diff. */
  function ActiveComments(comments: seq<Comment>): seq<Comment>
  {
    Filter(comments, IsActive)
  }

  /** Comments whose line left the current diff. */
  function OutdatedComments(comments: seq<Comment>): seq<Comment>
  {
    Filter(comments, IsOutdated)
  }

  /** The split into active and outdated comments is a partition: every
      comment is in exactly one of the two lists, as often as in the input. */
  lemma ActiveOutdatedPartition(comments: seq<Comment>)
    ensures multiset(ActiveComments(comments)) + multiset(OutdatedComments(comments)) == multiset(comments)
    ensures forall c :: c in comments ==> (c in ActiveComments(comments) <==> c !in OutdatedComments(comments))
  {
    FilterComplement(comments, IsActive, IsOutdated);
  }

  /** The node `getPullRequestData` builds for one parsed change: it belongs
      to the head commit and holds the active comments on its file. */
  function LocalFileChange(change: RichChange, active: seq<Comment>, baseSha: string, headSha: string): FileChangeNode
  {
    FileChangeNode(
      change.fileName, change.status, headSha, None,
      GitQuery(change.fileName, if change.status == GitChangeType.Delete then "" else headSha),
      GitQuery(change.fileName, if change.status == GitChangeType.Add then "" else baseSha),
      change.diffHunks,
      Select(active, PathOf, change.fileName))
  }

  function LocalFileChanges(changes: seq<RichChange>, active: seq<Comment>, baseSha: string, headSha: string)
    : (nodes: seq<FileChangeNode>)
    ensures |nodes| == |changes|
  {
    seq(|changes|, i requires 0 <= i < |changes| => LocalFileChange(changes[i], active, baseSha, headSha))
  }

  /** Each local file change receives exactly the active comments on its
      file, in snapshot order, and belongs to the head commit. */
  lemma LocalFileChangeComments(changes: seq<RichChange>, comments: seq<Comment>, baseSha: string, headSha: string, i: nat, c: Comment)
    requires i < |changes|
    ensures LocalFileChanges(changes, ActiveComments(comments), baseSha, headSha)[i].sha == headSha
    ensures LocalFileChanges(changes, ActiveComments(comments), baseSha, headSha)[i].fileName == changes[i].fileName
    ensures c in LocalFileChanges(changes, ActiveComments(comments), baseSha, headSha)[i].comments
        <==> c in comments && IsActive(c) && c.path == changes[i].fileName
  {
  }

  /** The obsolete file change for one (commit, path) group of outdated
      comments. Its hunks are empty: the source leaves them to be done. */
  function ObsoleteFileChange(g: Group<(string, string), Comment>, first: Comment): FileChangeNode
  {
    var query := GitQuery(g.key.1, first.originalCommitId);
    FileChangeNode(g.key.1, GitChangeType.Modify, g.key.0, None, query, query, [], g.members)
  }

  function ObsoleteFileChanges(outdated: seq<Comment>): seq<FileChangeNode>
  {
    NestNonEmpty(GroupBy(outdated, CommitOf), PathOf);
    MapGroups(GroupBy2(outdated, CommitOf, PathOf), ObsoleteFileChange)
  }

  /** Outdated comments yield one obsolete file change per distinct
      (original commit, path) pair: its `sha` is that commit, its file that
      path, and its comments exactly the outdated comments of the pair, in
      snapshot order. */
  lemma ObsoleteFileChangesGroup(outdated: seq<Comment>)
    ensures forall i :: 0 <= i < |ObsoleteFileChanges(outdated)| ==>
      var n := ObsoleteFileChanges(outdated)[i];
      && n.comments != []
      && n.comments == Select(outdated, PairKey(CommitOf, PathOf), (n.sha, n.fileName))
      && n.filePath == GitQuery(n.fileName, n.sha)
      && n.status == GitChangeType.Modify
    ensures forall i, j :: 0 <= i < j < |ObsoleteFileChanges(outdated)| ==>
      (ObsoleteFileChanges(outdated)[i].sha, ObsoleteFileChanges(outdated)[i].fileName)
        != (ObsoleteFileChanges(outdated)[j].sha, ObsoleteFileChanges(outdated)[j].fileName)
  {
    var gs := GroupBy2(outdated, CommitOf, PathOf);
    var ns := ObsoleteFileChanges(outdated);
    GroupBy2Partitions(outdated, CommitOf, PathOf);
    forall i | 0 <= i < |gs|
      ensures ns[i] == ObsoleteFileChange(gs[i], gs[i].members[0])
      ensures gs[i].members[0].originalCommitId == gs[i].key.0
    {
      assert gs[i].members[0] in Select(outdated, PairKey(CommitOf, PathOf), gs[i].key);
      FileChangeKey(gs[i].members[0]);
    }
  }

  /** Every outdated comment has the obsolete file change of its commit and
      path. */
  lemma ObsoleteFileChangesCover(outdated: seq<Comment>, c: Comment)
    requires c in outdated
    ensures exists i ::
      && 0 <= i < |ObsoleteFileChanges(outdated)|
      && ObsoleteFileChanges(outdated)[i].sha == c.originalCommitId
      && ObsoleteFileChanges(outdated)[i].fileName == c.path
      && c in ObsoleteFileChanges(outdated)[i].comments
  {
    var gs := GroupBy2(outdated, CommitOf, PathOf);
    var ns := ObsoleteFileChanges(outdated);
    GroupBy2Partitions(outdated, CommitOf, PathOf);
    KeyCovered(gs, outdated, PairKey(CommitOf, PathOf), c);
    var i :| 0 <= i < |gs| && KeysOf(gs)[i] == PairKey(CommitOf, PathOf)(c);
    FileChangeKey(c);
    assert ns[i] == ObsoleteFileChange(gs[i], gs[i].members[0]);
    assert c in Select(outdated, PairKey(CommitOf, PathOf), gs[i].key);
  }

  // ---------------------------------------------------------------------
  // Looking up file changes

  predicate MatchesQuery(n: FileChangeNode, q: GitQuery)
  {
    n.fileName == q.path && n.filePath.commit == q.commit
  }

  /** `findMatchedFileChange`: the first change on the queried file whose own
      URI names the queried commit, or none. */
  function FindMatchedFileChange(fileChanges: seq<FileChangeNode>, q: GitQuery): (r: Option<FileChangeNode>)
    ensures r.None? <==> forall i :: 0 <= i < |fileChanges| ==> !MatchesQuery(fileChanges[i], q)
    ensures r.Some? ==> exists i ::
      && 0 <= i < |fileChanges| && fileChanges[i] == r.value && MatchesQuery(r.value, q)
      && forall j :: 0 <= j < i ==> !MatchesQuery(fileChanges[j], q)
  {
    match FirstWhere(fileChanges, (n: FileChangeNode) => MatchesQuery(n, q))
    case None => None
    case Some(i) => Some(fileChanges[i])
  }

  /** The commit a node's base side is read from: `parentSha` when it is a
      non-empty string, otherwise `sha^`. */
  function ParentRef(n: FileChangeNode): string
  {
    if n.parentSha.Some? && n.parentSha.value != "" then n.parentSha.value else n.sha + "^"
  }

  predicate ServesContent(n: FileChangeNode, q: GitQuery)
  {
    n.fileName == q.path && (n.sha == q.commit || ParentRef(n) == q.commit)
  }

  /** The kind of line a side leaves out: deletions on the node's own
      commit, additions on its parent. */
  function ExcludedKind(n: FileChangeNode, commit: string): DiffChangeType
  {
    if commit == n.sha then DiffChangeType.Delete else DiffChangeType.Add
  }

  /** `groupBy(comments, comment => comment.original_position)` in the order
      `for ... in` visits it. */
  function OutdatedSections(cs: seq<Comment>): seq<Group<int, Comment>>
  {
    KeyOrder(GroupBy(cs, OriginalPositionOf))
  }

  /** There is one section per distinct original position, holding exactly
      the comments with that position in their order. Sections with a
      non-negative position come first, ascending; those with a negative
      position follow in the order their positions first appear. */
  lemma OutdatedSectionsPartition(cs: seq<Comment>)
    ensures var ss := OutdatedSections(cs);
      && (forall i :: 0 <= i < |ss| ==> ss[i].members != [] && ss[i].members == Select(cs, OriginalPositionOf, ss[i].key))
      && (forall i, j :: 0 <= i < j < |ss| ==> ss[i].key != ss[j].key)
      && (forall c :: c in cs ==> exists i :: 0 <= i < |ss| && ss[i].key == c.originalPosition)
      && (forall i, j :: 0 <= i < j < |ss| && ss[j].key >= 0 ==> 0 <= ss[i].key < ss[j].key)
      && var negatives := Filter(GroupBy(cs, OriginalPositionOf), IsNegativeKey);
         |negatives| <= |ss| && ss[|ss| - |negatives|..] == negatives
  {
    SectionsHoldTheirComments(cs);
    SectionsCover(cs);
    SectionsOrdered(cs);
  }

  lemma SectionsOrdered(cs: seq<Comment>)
    ensures var ss := OutdatedSections(cs);
      && (forall i, j :: 0 <= i < j < |ss| ==> ss[i].key != ss[j].key)
      && (forall i, j :: 0 <= i < j < |ss| && ss[j].key >= 0 ==> 0 <= ss[i].key < ss[j].key)
      && var negatives := Filter(GroupBy(cs, OriginalPositionOf), IsNegativeKey);
         |negatives| <= |ss| && ss[|ss| - |negatives|..] == negatives
  {
    var gs := GroupBy(cs, OriginalPositionOf);
    GroupByPartitions(cs, OriginalPositionOf);
    KeyOrderDistinct(gs);
    KeyOrderAscending(gs);
  }

  lemma SectionsHoldTheirComments(cs: seq<Comment>)
    ensures forall i :: 0 <= i < |OutdatedSections(cs)| ==>
      OutdatedSections(cs)[i].members != [] &&
      OutdatedSections(cs)[i].members == Select(cs, OriginalPositionOf, OutdatedSections(cs)[i].key)
  {
    GroupByPartitions(cs, OriginalPositionOf);
    KeyOrderMembers(GroupBy(cs, OriginalPositionOf), cs, OriginalPositionOf);
  }

  lemma SectionsCover(cs: seq<Comment>)
    ensures forall c :: c in cs ==>
      exists i :: 0 <= i < |OutdatedSections(cs)| && OutdatedSections(cs)[i].key == c.originalPosition
  {
    GroupByPartitions(cs, OriginalPositionOf);
    forall c | c in cs
      ensures exists i :: 0 <= i < |OutdatedSections(cs)| && OutdatedSections(cs)[i].key == c.originalPosition
    {
      var ss := OutdatedSections(cs);
      KeyOrderCovers(GroupBy(cs, OriginalPositionOf), cs, OriginalPositionOf, c);
      var i :| 0 <= i < |ss| && ss[i].key == OriginalPositionOf(c);
      assert ss[i].key == c.originalPosition;
    }
  }

  /** The text block of each outdated section: the side lines of the hunks of
      the first comment with that original position. */
  function ObsoleteBlocks(comments: seq<Comment>, excluded: DiffChangeType): (bs: seq<seq<string>>)
    ensures |bs| == |OutdatedSections(comments)|
    ensures forall i :: 0 <= i < |bs| ==>
      var first := Select(comments, OriginalPositionOf, OutdatedSections(comments)[i].key);
      first != [] && bs[i] == SideLines(first[0].diffHunks, excluded)
  {
    var ss := OutdatedSections(comments);
    SectionsHoldTheirComments(comments);
    seq(|ss|, i requires 0 <= i < |ss| => SideLines(ss[i].members[0].diffHunks, excluded))
  }

  /** The blocks one after another. */
  function Concat(bs: seq<seq<string>>): seq<string>
  {
    if bs == [] then [] else Concat(bs[..|bs| - 1]) + bs[|bs| - 1]
  }

  /** The lines shown for an obsolete file change. */
  function ObsoleteSideLines(comments: seq<Comment>, excluded: DiffChangeType): seq<string>
  {
    Concat(ObsoleteBlocks(comments, excluded))
  }

  /** The loop of the obsolete branch of `provideTextDocumentContent`, which
      pushes each section's block in turn. */
  method ObsoleteLines(comments: seq<Comment>, excluded: DiffChangeType) returns (ret: seq<string>)
    ensures ret == ObsoleteSideLines(comments, excluded)
  {
    var sections := OutdatedSections(comments);
    ghost var bs := ObsoleteBlocks(comments, excluded);
    ret := [];
    for i := 0 to |sections|
      invariant ret == Concat(bs[..i])
    {
      BlockAt(comments, excluded, i);
      ConcatPrefix(bs, i);
      ret := ret + SideLines(sections[i].members[0].diffHunks, excluded);
    }
    assert bs[..|sections|] == bs;
  }

  lemma BlockAt(comments: seq<Comment>, excluded: DiffChangeType, i: nat)
    requires i < |OutdatedSections(comments)|
    ensures OutdatedSections(comments)[i].members != []
    ensures ObsoleteBlocks(comments, excluded)[i] == SideLines(OutdatedSections(comments)[i].members[0].diffHunks, excluded)
  {
    SectionsHoldTheirComments(comments);
  }

  lemma ConcatPrefix(bs: seq<seq<string>>, i: nat)
    requires i < |bs|
    ensures Concat(bs[..i + 1]) == Concat(bs[..i]) + bs[i]
  {
    assert bs[..i + 1][..i] == bs[..i];
  }

  /** `provideTextDocumentContent`: the content of a `review:` document. The
      first local file change that serves the query gives its side of the
      file; failing that, the first obsolete one gives the blocks of its
      comments' hunks; failing both there is no content (`null`). */
  function ProvideTextDocumentContent(q: GitQuery, local: seq<FileChangeNode>, obsolete: seq<FileChangeNode>)
    : (r: Option<string>)
    ensures r.None? <==>
      (forall i :: 0 <= i < |local| ==> !ServesContent(local[i], q)) &&
      (forall i :: 0 <= i < |obsolete| ==> !ServesContent(obsolete[i], q))
  {
    match FirstWhere(local, (n: FileChangeNode) => ServesContent(n, q))
    case Some(i) => Some(Join(SideLines(local[i].diffHunks, ExcludedKind(local[i], q.commit))))
    case None =>
      match FirstWhere(obsolete, (n: FileChangeNode) => ServesContent(n, q))
      case Some(j) => Some(Join(ObsoleteSideLines(obsolete[j].comments, ExcludedKind(obsolete[j], q.commit))))
      case None => None
  }

  /** When a local file change serves the query, the document splits at its
      line breaks into exactly the lines of the first such change, head side
      (no deletions) on its own commit and base side (no additions)
      otherwise, provided it has lines and none of them holds a line break. */
  lemma LocalContentLines(q: GitQuery, local: seq<FileChangeNode>, obsolete: seq<FileChangeNode>, i: nat)
    requires i < |local| && ServesContent(local[i], q)
    requires forall j :: 0 <= j < i ==> !ServesContent(local[j], q)
    requires SideLines(local[i].diffHunks, ExcludedKind(local[i], q.commit)) != []
    requires forall k :: 0 <= k < |SideLines(local[i].diffHunks, ExcludedKind(local[i], q.commit))| ==>
      '\n' !in SideLines(local[i].diffHunks, ExcludedKind(local[i], q.commit))[k]
    ensures ProvideTextDocumentContent(q, local, obsolete).Some?
    ensures Split(ProvideTextDocumentContent(q, local, obsolete).value)
         == SideLines(local[i].diffHunks, if q.commit == local[i].sha then DiffChangeType.Delete else DiffChangeType.Add)
  {
    var lines := SideLines(local[i].diffHunks, ExcludedKind(local[i], q.commit));
    var first := FirstWhere(local, (n: FileChangeNode) => ServesContent(n, q));
    assert first.Some? && first.value == i;
    SplitJoin(lines);
  }

  /** When no local file change serves the query, the content comes from
      the first obsolete file change that does: its blocks one after another,
      joined by line breaks, head side on its own commit and base side
      otherwise. */
  lemma ObsoleteContentLines(q: GitQuery, local: seq<FileChangeNode>, obsolete: seq<FileChangeNode>, j: nat)
    requires forall i :: 0 <= i < |local| ==> !ServesContent(local[i], q)
    requires j < |obsolete| && ServesContent(obsolete[j], q)
    requires forall k :: 0 <= k < j ==> !ServesContent(obsolete[k], q)
    ensures ProvideTextDocumentContent(q, local, obsolete)
         == Some(Join(Concat(ObsoleteBlocks(obsolete[j].comments,
                                            if q.commit == obsolete[j].sha then DiffChangeType.Delete else DiffChangeType.Add))))
  {
    var first := FirstWhere(obsolete, (n: FileChangeNode) => ServesContent(n, q));
    assert first.Some? && first.value == j;
  }

  /** Served from an obsolete file change, the document splits at its line
      breaks into exactly the lines of its blocks, provided there are lines
      and none of them holds a line break. */
  lemma ObsoleteContentSplits(q: GitQuery, local: seq<FileChangeNode>, obsolete: seq<FileChangeNode>, j: nat)
    requires forall i :: 0 <= i < |local| ==> !ServesContent(local[i], q)
    requires j < |obsolete| && ServesContent(obsolete[j], q)
    requires forall k :: 0 <= k < j ==> !ServesContent(obsolete[k], q)
    requires ObsoleteSideLines(obsolete[j].comments, ExcludedKind(obsolete[j], q.commit)) != []
    requires forall k :: 0 <= k < |ObsoleteSideLines(obsolete[j].comments, ExcludedKind(obsolete[j], q.commit))| ==>
      '\n' !in ObsoleteSideLines(obsolete[j].comments, ExcludedKind(obsolete[j], q.commit))[k]
    ensures ProvideTextDocumentContent(q, local, obsolete).Some?
    ensures Split(ProvideTextDocumentContent(q, local, obsolete).value)
         == ObsoleteSideLines(obsolete[j].comments, ExcludedKind(obsolete[j], q.commit))
  {
    ObsoleteContentLines(q, local, obsolete, j);
    SplitJoin(ObsoleteSideLines(obsolete[j].comments, ExcludedKind(obsolete[j], q.commit)));
  }

  // ---------------------------------------------------------------------
  // Commenting ranges and new comments

  datatype Range = Range(startLine: int, startCharacter: int, endLine: int, endCharacter: int)

  /** Commenting ranges of a `review:` document: one per hunk, covering its
      new-side lines. */
  method ReviewCommentingRanges(hunks: seq<DiffHunk>) returns (ranges: seq<Range>)
    ensures |ranges| == |hunks|
    ensures forall i :: 0 <= i < |hunks| ==>
      && ranges[i].startLine == hunks[i].newLineNumber
      && ranges[i].endLine - ranges[i].startLine + 1 == hunks[i].newLength
      && ranges[i].startCharacter == 1 && ranges[i].endCharacter == 1
  {
    ranges := [];
    for i := 0 to |hunks|
      invariant |ranges| == i
      invariant forall k :: 0 <= k < i ==>
        ranges[k] == Range(hunks[k].newLineNumber, 1, hunks[k].newLineNumber + hunks[k].newLength - 1, 1)
    {
      var h := hunks[i];
      ranges := ranges + [Range(h.newLineNumber, 1, h.newLineNumber + h.newLength - 1, 1)];
    }
  }

  /** The range of a hunk in a live file, once its first and last new-side
      lines are carried over to the buffer by `mapLine`; none when either
      maps to a line ≤ 0 (deleted since). */
  function HunkRange(h: DiffHunk, mapLine: int -> int): Option<Range>
  {
    var start := mapLine(h.newLineNumber);
    var end := mapLine(h.newLineNumber + h.newLength - 1);
    if start > 0 && end > 0 then Some(Range(start - 1, 0, end - 1, 0)) else None
  }

  /** Commenting ranges of a working-tree file, hunk by hunk. */
  function LocalRanges(hunks: seq<DiffHunk>, mapLine: int -> int): seq<Range>
  {
    if hunks == [] then []
    else
      var n := |hunks| - 1;
      LocalRanges(hunks[..n], mapLine) + match HunkRange(hunks[n], mapLine) case Some(r) => [r] case None => []
  }

  method LocalCommentingRanges(hunks: seq<DiffHunk>, mapLine: int -> int) returns (ranges: seq<Range>)
    ensures ranges == LocalRanges(hunks, mapLine)
  {
    ranges := [];
    for i := 0 to |hunks|
      invariant ranges == LocalRanges(hunks[..i], mapLine)
    {
      var h := hunks[i];
      var start := mapLine(h.newLineNumber);
      var end := mapLine(h.newLineNumber + h.newLength - 1);
      if start > 0 && end > 0 {
        ranges := ranges + [Range(start - 1, 0, end - 1, 0)];
      }
      assert hunks[..i + 1][..i] == hunks[..i];
    }
    assert hunks[..|hunks|] == hunks;
  }

  /** Every local commenting range comes from a hunk whose both ends survive
      in the buffer, starts on line 0 or later, and, when `mapLine` keeps
      line order and hunks are not empty, does not end before it starts;
      every hunk whose both ends survive yields its range. */
  lemma {:induction false} LocalRangesSound(hunks: seq<DiffHunk>, mapLine: int -> int)
    ensures forall r :: r in LocalRanges(hunks, mapLine) ==>
      r.startLine >= 0 && r.endLine >= 0 && exists h :: h in hunks && HunkRange(h, mapLine) == Some(r)
    ensures forall h :: h in hunks && HunkRange(h, mapLine).Some? ==> HunkRange(h, mapLine).value in LocalRanges(hunks, mapLine)
    ensures (forall a, b :: a <= b ==> mapLine(a) <= mapLine(b)) && (forall h :: h in hunks ==> h.newLength >= 1) ==>
      forall r :: r in LocalRanges(hunks, mapLine) ==> r.startLine <= r.endLine
  {
    if hunks != [] {
      var n := |hunks| - 1;
      LocalRangesSound(hunks[..n], mapLine);
      assert hunks == hunks[..n] + [hunks[n]];
    }
  }

  /** Where `createNewCommentThread` posts a new comment: the first local
      file change on the document's file, at the diff position
      `mapHeadLine` computes; nothing is posted when no change matches or the
      position is negative. */
  function NewCommentPlacement(local: seq<FileChangeNode>, fileName: string, line: int,
                               mapHeadLine: (seq<DiffHunk>, int) -> int): (r: Option<(string, int)>)
    ensures r.Some? ==> r.value.0 == fileName && r.value.1 >= 0
    ensures r.Some? ==> exists i ::
      && 0 <= i < |local| && local[i].fileName == fileName
      && r.value.1 == mapHeadLine(local[i].diffHunks, line)
      && forall j :: 0 <= j < i ==> local[j].fileName != fileName
    ensures r.None? <==> forall i :: 0 <= i < |local| && local[i].fileName == fileName ==>
      (exists j :: 0 <= j < i && local[j].fileName == fileName) || mapHeadLine(local[i].diffHunks, line) < 0
  {
    match FirstWhere(local, (n: FileChangeNode) => n.fileName == fileName)
    case None => None
    case Some(i) =>
      var position := mapHeadLine(local[i].diffHunks, line);
      if position < 0 then None else Some((local[i].fileName, position))
  }

  datatype CommentInfo = CommentInfo(threads: seq<Thread>, commentingRanges: seq<Range>)

  /** The comments of a matched file change with the display line
      `getDiffLineByPosition` finds for each written into it. */
  function Positioned(comments: seq<Comment>, hunks: seq<DiffHunk>, lineAt: (seq<DiffHunk>, int) -> Option<DiffLine>)
    : (r: seq<Comment>)
    ensures |r| == |comments|
  {
    seq(|comments|, i requires 0 <= i < |comments| =>
      match lineAt(hunks, DiffPosition(comments[i]))
      case Some(line) => comments[i].(absolutePosition := Some(line.newLineNumber))
      case None => comments[i])
  }

  /** The first section is that of the least non-negative original
      position; when every position is negative it is the first comment's. */
  lemma FirstSectionFacts(cs: seq<Comment>)
    requires cs != []
    ensures |OutdatedSections(cs)| > 0
    ensures var s := OutdatedSections(cs)[0];
      && ((exists c :: c in cs && c.originalPosition >= 0) ==>
            s.key >= 0 && forall c :: c in cs && c.originalPosition >= 0 ==> s.key <= c.originalPosition)
      && ((forall c :: c in cs ==> c.originalPosition < 0) ==> s.members != [] && s.members[0] == cs[0])
  {
    var ss := OutdatedSections(cs);
    OutdatedSectionsPartition(cs);
    assert cs[0] in cs;
    forall c | c in cs && c.originalPosition >= 0 ensures 0 <= ss[0].key <= c.originalPosition {
      var i :| 0 <= i < |ss| && ss[i].key == c.originalPosition;
    }
    if forall c :: c in cs ==> c.originalPosition < 0 {
      var gs := GroupBy(cs, OriginalPositionOf);
      GroupByPartitions(cs, OriginalPositionOf);
      forall i | 0 <= i < |gs| ensures gs[i].key < 0 {
        assert gs[i].members[0] in Select(cs, OriginalPositionOf, gs[i].key);
      }
      KeyOrderAllNegative(gs);
      FirstGroupIsFirstKey(cs, OriginalPositionOf);
    }
  }

  /** The thread the outdated part of the `review:` branch returns: the first
      group, in JavaScript key order, of the obsolete change's comments by
      original position, anchored at the line before the last line of its
      first comment's hunk. */
  function FirstOutdatedThread(n: FileChangeNode, lastLineOf: Comment -> int): (ts: seq<Thread>)
    ensures |ts| <= 1
    ensures ts == [] <==> n.comments == []
    ensures forall t :: t in ts ==> t.comments != [] && var p := t.comments[0].originalPosition;
      && t.comments == Select(n.comments, OriginalPositionOf, p)
      && ((exists c :: c in n.comments && c.originalPosition >= 0) ==>
            p >= 0 && forall c :: c in n.comments && c.originalPosition >= 0 ==> p <= c.originalPosition)
      && ((forall c :: c in n.comments ==> c.originalPosition < 0) ==> t.comments[0] == n.comments[0])
      && t.threadId == t.comments[0].id && t.resource == GitResource(n.filePath)
      && t.anchorLine == lastLineOf(t.comments[0]) - 1 && t.collapsibleState == Expanded
  {
    if n.comments == [] then []
    else
      var sections := OutdatedSections(n.comments);
      OutdatedSectionsPartition(n.comments);
      assert n.comments[0] in n.comments;
      var members := sections[0].members;
      assert members[0] in Select(n.comments, OriginalPositionOf, sections[0].key);
      FirstSectionFacts(n.comments);
      [Thread(members[0].id, GitResource(n.filePath), lastLineOf(members[0]) - 1, members, Expanded)]
  }

  /** The `review:` branch of `provideDocumentComments`. A document that
      matches a local file change gets its comments positioned and threaded
      (expanded) and one commenting range per hunk; otherwise one that
      matches an obsolete file change gets the one thread of its first
      group, because the source returns from inside its loop over groups.
      No match gives nothing (`null`), and neither does an obsolete match
      without comments: the loop then never runs and the provider falls off
      its end (`undefined`). */
  method ReviewDocumentComments(local: seq<FileChangeNode>, obsolete: seq<FileChangeNode>, q: GitQuery,
                                lineAt: (seq<DiffHunk>, int) -> Option<DiffLine>, lastLineOf: Comment -> int)
    returns (r: Option<CommentInfo>)
    ensures r.None? <==>
      FindMatchedFileChange(local, q).None? &&
      (FindMatchedFileChange(obsolete, q).None? || FindMatchedFileChange(obsolete, q).value.comments == [])
    ensures FindMatchedFileChange(local, q).Some? ==>
      var n := FindMatchedFileChange(local, q).value;
      && r.Some?
      && r.value.threads == ThreadsOf(Positioned(n.comments, n.diffHunks, lineAt), Expanded)
      && |r.value.commentingRanges| == |n.diffHunks|
      && forall i :: 0 <= i < |n.diffHunks| ==>
           r.value.commentingRanges[i]
           == Range(n.diffHunks[i].newLineNumber, 1, n.diffHunks[i].newLineNumber + n.diffHunks[i].newLength - 1, 1)
    ensures FindMatchedFileChange(local, q).None? && r.Some? ==>
      var n := FindMatchedFileChange(obsolete, q).value;
      && |r.value.threads| == 1
      && r.value.threads == FirstOutdatedThread(n, lastLineOf)
      && r.value.commentingRanges == []
  {
    var matched := FindMatchedFileChange(local, q);
    if matched.Some? {
      var n := matched.value;
      var threads := CommentsToCommentThreads(Positioned(n.comments, n.diffHunks, lineAt), Expanded);
      var ranges := ReviewCommentingRanges(n.diffHunks);
      return Some(CommentInfo(threads, ranges));
    }
    matched := FindMatchedFileChange(obsolete, q);
    if matched.None? {
      return None;
    }
    var threads := FirstOutdatedThread(matched.value, lastLineOf);
    if threads == [] {
      return None;
    }
    return Some(CommentInfo(threads, []));
  }

  /** The `file:` branch of `provideDocumentComments`: for the first local
      file change on the document's file, the snapshot's comments on that
      file carried to the buffer by `mapToHead` and threaded (collapsed), and
      the hunks' surviving ranges; with no such change, nothing. */
  method LocalDocumentComments(local: seq<FileChangeNode>, comments: seq<Comment>, fileName: string,
                               mapToHead: (seq<DiffHunk>, seq<Comment>) -> seq<Comment>, mapLine: int -> int)
    returns (info: CommentInfo)
    ensures FirstWhere(local, (n: FileChangeNode) => n.fileName == fileName).None? ==> info == CommentInfo([], [])
    ensures FirstWhere(local, (n: FileChangeNode) => n.fileName == fileName).Some? ==>
      var n := local[FirstWhere(local, (n: FileChangeNode) => n.fileName == fileName).value];
      && info.threads == ThreadsOf(mapToHead(n.diffHunks, Select(comments, PathOf, fileName)), Collapsed)
      && info.commentingRanges == LocalRanges(n.diffHunks, mapLine)
  {
    var matched := FirstWhere(local, (n: FileChangeNode) => n.fileName == fileName);
    var ranges: seq<Range> := [];
    var matching: seq<Comment> := [];
    if matched.Some? {
      var n := local[matched.value];
      matching := mapToHead(n.diffHunks, Select(comments, PathOf, fileName));
      ranges := LocalCommentingRanges(n.diffHunks, mapLine);
    }
    var threads := CommentsToCommentThreads(matching, Collapsed);
    info := CommentInfo(threads, ranges);
  }
}
