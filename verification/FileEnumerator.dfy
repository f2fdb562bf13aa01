/**
 The resumable directory traversal.
 */
module FileEnumerator {
  import opened Common
  import opened FilePath
  import opened FileTree
  import opened FileSystem

  // ---------------------------------------------------------------------------
  // How the fields stand for a traversal
  // ---------------------------------------------------------------------------

  /** The nodes of entries known to be in directory `d`. */
  function NodesOf(d: Node, entries: seq<DirEntry>): seq<Node> {
    if entries == [] then []
    else NodesOf(d, entries[..|entries| - 1]) + [d + [entries[|entries| - 1].filename]]
  }

  predicate AllEntriesOk(tree: Tree, d: Node, entries: seq<DirEntry>) {
    forall i :: 0 <= i < |entries| ==> EntryOk(tree, d, entries[i]) && !IsDotName(entries[i].filename)
  }

  /** Each path, stripped, is the path of the node in the same place. */
  predicate ArePaths(via: Via, paths: seq<Path>, nodes: seq<Node>) {
    |paths| == |nodes| && forall k :: 0 <= k < |paths| ==> Strip(POSIX, paths[k]) == PathTo(via, nodes[k])
  }

  /** The stack of paths, the directory and its upcoming entries are those of `tr`. */
  ghost predicate Matches(q: Query, tr: Traversal, via: Via, stack: seq<Path>, root: Path, upcoming: seq<DirEntry>) {
    && ViaOk(via) && via.top == q.target && TreeNames(q.tree) && Inv(q, tr)
    && ArePaths(via, stack, tr.pending)
    && tr.queue == NodesOf(tr.dir, upcoming)
    && AllEntriesOk(q.tree, tr.dir, upcoming)
    && (upcoming != [] ==> root == PathTo(via, tr.dir))
  }

  lemma MatchesStart(q: Query, via: Via, path: Path)
    requires ViaOk(via) && via.top == q.target && TreeNames(q.tree) && IsTree(q.tree)
    requires q.target in q.tree && q.tree[q.target] == Directory && Strip(POSIX, path) == PathTo(via, q.target)
    ensures Matches(q, Start(q), via, [path], path, []) && Covered(q, Start(q))
  {
    hide PathTo, Strip, Inv;
    StartInv(q);
  }

  /** The top of the stack of paths names the top of the stack of nodes. */
  lemma MatchesTop(q: Query, tr: Traversal, via: Via, stack: seq<Path>, root: Path)
    requires Matches(q, tr, via, stack, root, [])
    ensures |stack| == |tr.pending| && tr.queue == [] && TreeNames(q.tree) && IsTree(q.tree) && Inv(q, tr)
    ensures ViaOk(via) && via.top == q.target
    ensures stack != [] ==>
              var d := tr.pending[|tr.pending| - 1];
              && d in q.tree && q.tree[d] == Directory && NodeNames(d) && via.top <= d
              && Strip(POSIX, stack[|stack| - 1]) == PathTo(via, d) == PathOf(via.base, Named(via, d))
              && NodeNames(Named(via, d))
  {
    hide PathTo, Strip, QueueOk, EmittedOk, Covered, OrderOk, IsTree, NodeNames, Named;
    if stack != [] {
      var d := tr.pending[|tr.pending| - 1];
      NamedOk(via, d);
      PathToNamed(via, d);
    }
  }

  lemma MatchesSkip(q: Query, tr: Traversal, via: Via, stack: seq<Path>, root: Path, root': Path)
    requires Matches(q, tr, via, stack, root, []) && stack != []
    requires tr.pending != []
    ensures Matches(q, Skip(tr), via, stack[..|stack| - 1], root', [])
    ensures Covered(q, tr) && tr.pending[|tr.pending| - 1] in q.unreadable ==> Covered(q, Skip(tr))
    ensures Ahead(q.tree, Skip(tr).pending) < Ahead(q.tree, tr.pending)
  {
    hide PathTo, Strip, QueueOk, EmittedOk, Covered, OrderOk, IsTree, Ahead;
    SkipKeeps(q, tr);
    SkipShrinks(q, tr);
  }

  /** The first upcoming entry is the next node to come out. */
  lemma MatchesEmit(q: Query, tr: Traversal, via: Via, stack: seq<Path>, root: Path, upcoming: seq<DirEntry>)
    requires Matches(q, tr, via, stack, root, upcoming) && upcoming != []
    ensures tr.queue != []
    ensures var x, e := tr.queue[0], upcoming[0];
            && Matches(q, Emit(tr), via, stack, root, upcoming[1..])
            && (Covered(q, tr) ==> Covered(q, Emit(tr)))
            && x in q.tree && NodeNames(x) && via.top < x
            && (e.isDirectory <==> q.tree[x] == Directory)
            && Append(POSIX, root, e.filename) == PathTo(via, x) != []
  {
    hide PathTo, Append, Inv, IsName, Strip, NodesOf, NodeNames;
    NodesFront(tr.dir, upcoming);
    EmitKeeps(q, tr);
    QueueBelow(q, tr);
    assert EntryOk(q.tree, tr.dir, upcoming[0]);
    PathToChild(via, tr.dir, upcoming[0].filename);
    PathToShape(via, tr.queue[0]);
    assert AllEntriesOk(q.tree, tr.dir, upcoming[1..]);
  }

  lemma QueueBelow(q: Query, tr: Traversal)
    requires Inv(q, tr) && tr.queue != []
    ensures q.target <= tr.dir && q.target < tr.queue[0]
  {
    hide EmittedOk, OrderOk, IsTree;
    assert tr.queue[0] in tr.queue;
    PrefixOfChild(q.target, tr.queue[0], tr.dir);
  }

  lemma {:induction false} NodesFront(d: Node, entries: seq<DirEntry>)
    requires entries != []
    ensures NodesOf(d, entries) == [d + [entries[0].filename]] + NodesOf(d, entries[1..])
  {
    var n := |entries| - 1;
    if n > 0 {
      NodesFront(d, entries[..n]);
      assert entries[..n][1..] == entries[1..][..n - 1];
    }
  }

  // Reading a directory --------------------------------------------------------------

  lemma FiltersPush(q: Query, kids: seq<Node>, x: Node)
    requires x in q.tree && forall y :: y in kids ==> y in q.tree
    ensures WantedOf(q, kids + [x]) == if Wanted(q, q.tree[x]) then WantedOf(q, kids) + [x] else WantedOf(q, kids)
    ensures DirectoriesOf(q.tree, kids + [x])
            == if q.tree[x] == Directory then DirectoriesOf(q.tree, kids) + [x] else DirectoriesOf(q.tree, kids)
  {
    assert (kids + [x])[..|kids|] == kids;
    DirectoriesPush(q.tree, kids, x);
  }

  lemma NodesPush(d: Node, entries: seq<DirEntry>, e: DirEntry)
    ensures NodesOf(d, entries + [e]) == NodesOf(d, entries) + [d + [e.filename]]
  {
    assert (entries + [e])[..|entries|] == entries;
  }

  /** Skipping looks at the base name of the full path, which is the entry's own name. */
  lemma EntryPath(tree: Tree, via: Via, d: Node, e: DirEntry)
    requires TreeNames(tree) && ViaOk(via) && NodeNames(d) && via.top <= d && EntryOk(tree, d, e)
    ensures var full := Append(POSIX, PathTo(via, d), e.filename);
            && BaseName(POSIX, full) == e.filename
            && full == PathTo(via, d + [e.filename])
            && Strip(POSIX, full) == full
  {
    hide Append, BaseName, Strip, PathTo;
    var r := d + [e.filename];
    assert IsName(POSIX, e.filename) by {
      if !IsDotName(e.filename) {
        NamesOfNode(tree, r);
      }
    }
    PathToShape(via, d);
    BaseNameOfAppend(POSIX, PathTo(via, d), e.filename);
    PathToChild(via, d, e.filename);
    AppendIsPath(PathTo(via, d), e.filename);
  }

  /** `kept` and `pushed` are what reading the entries so far has produced. */
  ghost predicate Collected(q: Query, via: Via, d: Node, entries: seq<DirEntry>, kept: seq<DirEntry>, pushed: seq<Path>) {
    var kids := KidsOf(d, entries);
    && (forall x :: x in kids ==> x in q.tree)
    && NodesOf(d, kept) == WantedOf(q, kids)
    && AllEntriesOk(q.tree, d, kept)
    && ArePaths(via, pushed, DirectoriesOf(q.tree, kids))
  }

  lemma CollectedNone(q: Query, via: Via, d: Node)
    ensures Collected(q, via, d, [], [], [])
  {
  }

  lemma CollectedMore(q: Query, via: Via, d: Node, entries: seq<DirEntry>, kept: seq<DirEntry>, pushed: seq<Path>, e: DirEntry)
    requires TreeNames(q.tree) && ViaOk(via) && NodeNames(d) && via.top <= d && EntryOk(q.tree, d, e)
    requires Collected(q, via, d, entries, kept, pushed)
    ensures var full := Append(POSIX, PathTo(via, d), e.filename);
            && BaseName(POSIX, full) == e.filename
            && if IsDotName(e.filename) then Collected(q, via, d, entries + [e], kept, pushed)
               else Collected(q, via, d, entries + [e],
                              if (if e.isDirectory then q.directories else q.files) then kept + [e] else kept,
                              if e.isDirectory then pushed + [full] else pushed)
  {
    hide Append, BaseName, Strip, PathTo, WantedOf, DirectoriesOf, KidsOf, NodesOf, NodeNames, ArePaths;
    EntryPath(q.tree, via, d, e);
    KidsPush(d, entries, e);
    if !IsDotName(e.filename) {
      var kids, x := KidsOf(d, entries), d + [e.filename];
      FiltersPush(q, kids, x);
      NodesPush(d, kept, e);
      var kept' := if Wanted(q, q.tree[x]) then kept + [e] else kept;
      assert NodesOf(d, kept') == WantedOf(q, kids + [x]) && AllEntriesOk(q.tree, d, kept');
      ArePathsPush(via, pushed, DirectoriesOf(q.tree, kids), PathTo(via, x), x);
    }
  }

  lemma ArePathsPush(via: Via, paths: seq<Path>, nodes: seq<Node>, full: Path, x: Node)
    requires ArePaths(via, paths, nodes) && Strip(POSIX, full) == PathTo(via, x)
    ensures ArePaths(via, paths + [full], nodes + [x])
  {
    hide PathTo, Strip;
  }

  /** Once all entries are read, the fields stand for the opened directory. */
  lemma MatchesOpen(q: Query, tr: Traversal, via: Via, stack: seq<Path>, root: Path,
                    entries: seq<DirEntry>, kept: seq<DirEntry>, pushed: seq<Path>)
    requires Matches(q, tr, via, stack, root, []) && stack != [] && |stack| == |tr.pending| && tr.queue == []
    requires var d := tr.pending[|tr.pending| - 1];
             d !in q.unreadable && Lists(q.tree, d, entries) && Collected(q, via, d, entries, kept, pushed)
    ensures forall x :: x in KidsOf(tr.pending[|tr.pending| - 1], entries) ==> x in q.tree
    ensures var d := tr.pending[|tr.pending| - 1];
            var tr' := Open(q, tr, KidsOf(d, entries));
            && Matches(q, tr', via, stack[..|stack| - 1] + pushed, PathTo(via, d), kept)
            && (Covered(q, tr) ==> Covered(q, tr'))
            && Ahead(q.tree, tr'.pending) < Ahead(q.tree, tr.pending)
  {
    hide PathTo, Strip, QueueOk, EmittedOk, Covered, OrderOk, IsTree, Ahead, WantedOf, DirectoriesOf, KidsOf, NodesOf;
    var d := tr.pending[|tr.pending| - 1];
    var kids := KidsOf(d, entries);
    OpenKeeps(q, tr, kids);
    OpenShrinks(q, tr, kids);
  }

  lemma IntactOpen(q: Query, tr: Traversal, tree: Tree, entries: seq<DirEntry>)
    requires Intact(tree, q.tree, tr.pending) && tr.pending != []
    requires Lists(q.tree, tr.pending[|tr.pending| - 1], entries)
    ensures Intact(tree, q.tree, Open(q, tr, KidsOf(tr.pending[|tr.pending| - 1], entries)).pending)
  {
    hide SameBelow, WantedOf, DirectoriesOf, KidsOf;
    var kids := KidsOf(tr.pending[|tr.pending| - 1], entries);
    var d, dirs := tr.pending[|tr.pending| - 1], DirectoriesOf(q.tree, kids);
    forall x | x in dirs
      ensures d <= x
    {
      assert x == d + [x[|x| - 1]];
    }
    IntactBelow(tree, q.tree, d, dirs);
  }

  lemma IntactTop(q: Query, tr: Traversal, tree: Tree)
    requires Intact(tree, q.tree, tr.pending) && tr.pending != []
    ensures Intact(tree, q.tree, Skip(tr).pending)
    ensures var d := tr.pending[|tr.pending| - 1];
            SameBelow(tree, q.tree, d) && (d in q.tree ==> d in tree && tree[d] == q.tree[d])
  {
    var d := tr.pending[|tr.pending| - 1];
    assert d <= d;
  }

  /** The path of a directory that is still there leads to it, or nowhere because a link on the way
      to the top is gone. */
  lemma Reached(tree: Tree, was: Tree, via: Via, limit: nat, d: Node)
    requires IsTree(tree) && IsTree(was) && LeftOf(tree, was) && Follow(was, via.entry, limit) == FoundAt(via.top)
    requires via.top <= d && d in tree && tree[d] == Directory
    ensures var f := Follow(tree, Named(via, d), limit);
            (f == FoundAt(d) || f.NotFound?) && (Follow(tree, via.entry, limit) == FoundAt(via.top) ==> f == FoundAt(d))
  {
    hide IsTree, Follow;
    var rest := d[|via.top|..];
    assert d == via.top + rest;
    if rest == [] {
      assert Named(via, d) == via.entry && d == via.top;
    } else {
      FollowBelow(was, via.entry, limit, via.top, rest);
      if Follow(tree, via.entry, limit) == FoundAt(via.top) {
        FollowBelow(tree, via.entry, limit, via.top, rest);
      }
    }
    LeadsThereOrNowhere(tree, was, Named(via, d), limit);
  }

  /** If directories are wanted, a directory that was passed over has come out, unless it is the target. */
  ghost predicate LostSeen(q: Query, emitted: seq<Node>, lost: set<Node>) {
    q.directories ==> forall d :: d in lost && d != q.target ==> d in emitted && d in q.tree && q.tree[d] == Directory
  }

  lemma LostMore(q: Query, emitted: seq<Node>, lost: set<Node>, x: Node)
    requires LostSeen(q, emitted, lost)
    ensures LostSeen(q, emitted + [x], lost)
  {
  }

  lemma LostOne(q: Query, tr: Traversal, lost: set<Node>)
    requires Inv(q, tr) && tr.queue == [] && tr.pending != [] && LostSeen(q, tr.emitted, lost)
    ensures var d := tr.pending[|tr.pending| - 1];
            LostSeen(q, tr.emitted, lost + {d}) && (d == q.target ==> tr.emitted == [])
  {
    hide OrderOk, QueueOk, IsTree;
    var d := tr.pending[|tr.pending| - 1];
    if tr.emitted != [] {
      var x := tr.emitted[0];
      assert x in tr.emitted && !BelowPending(tr, x) && q.target < x;
    }
  }

  // ---------------------------------------------------------------------------
  // The traversal while nodes are removed
  // ---------------------------------------------------------------------------

  /** What does not change: what is listed, how it is reached, and how many links may be followed. */
  datatype Setting = Setting(q: Query, via: Via, limit: nat)

  /** The fields stand for `tr`; since the start nodes have only been removed, and none that is still to be opened. */
  ghost predicate Stands(c: Setting, tr: Traversal, lost: set<Node>, tree: Tree,
                         stack: seq<Path>, root: Path, upcoming: seq<DirEntry>) {
    && Follow(c.q.tree, c.via.entry, c.limit) == FoundAt(c.q.target)
    && Matches(c.q, tr, c.via, stack, root, upcoming)
    && (lost == {} ==> Covered(c.q, tr))
    && LostSeen(c.q, tr.emitted, lost)
    && LeftOf(tree, c.q.tree) && Intact(tree, c.q.tree, tr.pending)
  }

  lemma StandsStart(c: Setting, path: Path)
    requires ViaOk(c.via) && c.via.top == c.q.target && TreeNames(c.q.tree) && IsTree(c.q.tree)
    requires Follow(c.q.tree, c.via.entry, c.limit) == FoundAt(c.q.target) && c.q.tree[c.q.target] == Directory
    requires Strip(POSIX, path) == PathOf(c.via.base, c.via.entry)
    ensures Stands(c, Start(c.q), {}, c.q.tree, [path], path, [])
  {
    hide PathTo, PathOf, Strip, Follow, Matches, Covered, IsTree, TreeNames, NodeNames;
    PathToTop(c.via);
    MatchesStart(c.q, c.via, path);
  }

  /** The next directory on the stack: its path leads to it, or nowhere. */
  lemma StandsTop(c: Setting, tr: Traversal, lost: set<Node>, tree: Tree, stack: seq<Path>, root: Path)
    requires Stands(c, tr, lost, tree, stack, root, []) && IsTree(tree)
    ensures |stack| == |tr.pending| && tr.queue == [] && TreeNames(c.q.tree) && ViaOk(c.via) && c.via.top == c.q.target
    ensures stack != [] ==>
              var d := tr.pending[|tr.pending| - 1];
              var f := Follow(tree, Named(c.via, d), c.limit);
              && NodeNames(d) && NodeNames(Named(c.via, d)) && c.via.top <= d && d in tree && tree[d] == Directory
              && Strip(POSIX, stack[|stack| - 1]) == PathTo(c.via, d) == PathOf(c.via.base, Named(c.via, d))
              && (f == FoundAt(d) || f.NotFound?)
              && (Follow(tree, c.via.entry, c.limit) == FoundAt(c.via.top) ==> f == FoundAt(d))
  {
    hide PathTo, PathOf, Strip, Inv, IsTree, NodeNames, Named, Covered, LostSeen, LeftOf, SameBelow, Follow, Matches, Intact,
         ViaOk, TreeNames;
    MatchesTop(c.q, tr, c.via, stack, root);
    if stack != [] {
      IntactTop(c.q, tr, tree);
      Reached(tree, c.q.tree, c.via, c.limit, tr.pending[|tr.pending| - 1]);
    }
  }

  /** Passing over it, because it cannot be listed or because its path leads nowhere. */
  lemma StandsSkip(c: Setting, tr: Traversal, lost: set<Node>, tree: Tree, stack: seq<Path>, root: Path, root': Path)
    requires Stands(c, tr, lost, tree, stack, root, []) && stack != [] && |stack| == |tr.pending| && tr.queue == []
    ensures var d := tr.pending[|tr.pending| - 1];
            var lost' := if d in c.q.unreadable then lost else lost + {d};
            && Stands(c, Skip(tr), lost', tree, stack[..|stack| - 1], root', [])
            && (tr.emitted != [] && c.q.target in lost' ==> c.q.target in lost)
            && Ahead(c.q.tree, Skip(tr).pending) < Ahead(c.q.tree, tr.pending)
  {
    hide Strip, Inv, Covered, LostSeen, LeftOf, SameBelow, Follow, Matches, Intact, Ahead;
    MatchesSkip(c.q, tr, c.via, stack, root, root');
    IntactTop(c.q, tr, tree);
    InvOfMatches(c.q, tr, c.via, stack, root, []);
    LostOne(c.q, tr, lost);
  }

  lemma InvOfMatches(q: Query, tr: Traversal, via: Via, stack: seq<Path>, root: Path, upcoming: seq<DirEntry>)
    requires Matches(q, tr, via, stack, root, upcoming)
    ensures Inv(q, tr) && IsTree(q.tree) && ViaOk(via) && via.top == q.target
  {
    hide PathTo, NodesOf, ArePaths, PendingOk, QueueOk, EmittedOk, OrderOk, IsTree;
  }

  lemma FromStands(c: Setting, tr: Traversal, lost: set<Node>, tree: Tree,
                   stack: seq<Path>, root: Path, upcoming: seq<DirEntry>)
    requires Stands(c, tr, lost, tree, stack, root, upcoming)
    ensures Inv(c.q, tr) && IsTree(c.q.tree) && ViaOk(c.via) && c.via.top == c.q.target
    ensures (lost == {} ==> Covered(c.q, tr)) && LostSeen(c.q, tr.emitted, lost)
    ensures LeftOf(tree, c.q.tree) && Intact(tree, c.q.tree, tr.pending)
    ensures Follow(c.q.tree, c.via.entry, c.limit) == FoundAt(c.q.target)
  {
    hide Inv, Covered, LostSeen, LeftOf, Follow, Matches, Intact, IsTree, ViaOk;
    InvOfMatches(c.q, tr, c.via, stack, root, upcoming);
  }

  /** Removing a node that is not below the stack. */
  lemma StandsRemove(c: Setting, tr: Traversal, lost: set<Node>, tree: Tree, tree': Tree,
                     stack: seq<Path>, root: Path, upcoming: seq<DirEntry>)
    requires Stands(c, tr, lost, tree, stack, root, upcoming)
    requires LeftOf(tree', tree) && Intact(tree', c.q.tree, tr.pending)
    ensures Stands(c, tr, lost, tree', stack, root, upcoming)
  {
    hide Inv, Covered, LostSeen, Follow, Matches, Intact;
  }

  /** What it lists is what it listed at the start. */
  lemma StandsLists(c: Setting, tr: Traversal, lost: set<Node>, tree: Tree, stack: seq<Path>, root: Path, entries: seq<DirEntry>)
    requires Stands(c, tr, lost, tree, stack, root, []) && tr.pending != []
    requires Lists(tree, tr.pending[|tr.pending| - 1], entries)
    ensures Lists(c.q.tree, tr.pending[|tr.pending| - 1], entries)
  {
    hide Strip, Inv, Covered, LostSeen, LeftOf, SameBelow, Follow, Matches, Intact, Lists;
    IntactTop(c.q, tr, tree);
    ListsAsBefore(tree, c.q.tree, tr.pending[|tr.pending| - 1], entries);
  }

  /** Opening it. */
  lemma StandsOpen(c: Setting, tr: Traversal, lost: set<Node>, tree: Tree, stack: seq<Path>, root: Path,
                   entries: seq<DirEntry>, kept: seq<DirEntry>, pushed: seq<Path>)
    requires Stands(c, tr, lost, tree, stack, root, []) && stack != [] && |stack| == |tr.pending| && tr.queue == []
    requires var d := tr.pending[|tr.pending| - 1];
             d !in c.q.unreadable && Lists(c.q.tree, d, entries) && Collected(c.q, c.via, d, entries, kept, pushed)
    ensures forall x :: x in KidsOf(tr.pending[|tr.pending| - 1], entries) ==> x in c.q.tree
    ensures var d := tr.pending[|tr.pending| - 1];
            var tr' := Open(c.q, tr, KidsOf(d, entries));
            && Stands(c, tr', lost, tree, stack[..|stack| - 1] + pushed, PathTo(c.via, d), kept)
            && Ahead(c.q.tree, tr'.pending) < Ahead(c.q.tree, tr.pending)
  {
    hide PathTo, Strip, Inv, Covered, LostSeen, LeftOf, SameBelow, Follow, Matches, Intact, Ahead, Lists, Collected, KidsOf,
         WantedOf, DirectoriesOf;
    MatchesOpen(c.q, tr, c.via, stack, root, entries, kept, pushed);
    IntactOpen(c.q, tr, tree, entries);
  }

  // ---------------------------------------------------------------------------
  // The object
  // ---------------------------------------------------------------------------

  class FileEnumerator {
    const fs: FileSystem
    const files: bool
    const directories: bool
    var directoryEntries: seq<DirEntry>
    var currentDirectoryEntry: nat
    var pendingPaths: seq<Path>
    var rootPath: Path
    /** What is being listed, how it is reached, and how far the listing has come. */
    ghost const query: Query
    ghost const via: Via
    ghost var tr: Traversal
    /** The directories passed over because their paths no longer led anywhere. */
    ghost var lost: set<Node>

    /** The entries at position n and after. */
    ghost function From(n: nat): seq<DirEntry>
      reads this
    {
      if n <= |directoryEntries| then directoryEntries[n..] else []
    }

    ghost function Settings(): Setting
      reads this, fs
    {
      Setting(query, via, fs.maxLinks)
    }

    ghost predicate Consistent(upcoming: seq<DirEntry>)
      reads this, fs
    {
      && fs.Valid()
      && query.unreadable == fs.unreadable && query.files == files && query.directories == directories
      && via.base == fs.base
      && Stands(Settings(), tr, lost, fs.tree, pendingPaths, rootPath, upcoming)
    }

    ghost predicate Valid()
      reads this, fs
    {
      Consistent(From(currentDirectoryEntry + 1))
    }

    /** Start a recursive traversal of the directory that the path of `entry` leads to. */
    constructor (fs: FileSystem, path: Path, files: bool, directories: bool, ghost entry: Node)
      requires fs.Valid() && NodeNames(entry) && Strip(POSIX, path) == PathOf(fs.base, entry)
      requires var f := Follow(fs.tree, entry, fs.maxLinks); f.FoundAt? && fs.tree[f.node] == Directory
      ensures Valid() && this.fs == fs && tr.emitted == [] && lost == {}
      ensures var top := Follow(fs.tree, entry, fs.maxLinks).node;
              query == Query(fs.tree, top, files, directories, fs.unreadable) && via == Via(fs.base, entry, top)
    {
      ghost var top := Follow(fs.tree, entry, fs.maxLinks).node;
      this.fs, this.files, this.directories := fs, files, directories;
      directoryEntries, currentDirectoryEntry, rootPath := [], 0, path;
      pendingPaths := [path];
      query := Query(fs.tree, top, files, directories, fs.unreadable);
      via := Via(fs.base, entry, top);
      tr := Start(Query(fs.tree, top, files, directories, fs.unreadable));
      lost := {};
      new;
      hide PathOf, Strip, Follow, Stands, IsTree, TreeNames, NodeNames;
      StandsStart(Settings(), path);
    }

    /** The entries of a directory just read: subdirectories go on the stack, wanted entries are kept. */
    method Collect(entries: seq<DirEntry>, ghost d: Node) returns (ghost pushed: seq<Path>)
      requires rootPath == PathTo(via, d) && ViaOk(via) && NodeNames(d) && via.top <= d
      requires query.files == files && query.directories == directories && TreeNames(query.tree)
      requires Lists(query.tree, d, entries)
      modifies this`directoryEntries, this`pendingPaths
      ensures Collected(query, via, d, entries, directoryEntries, pushed)
      ensures pendingPaths == old(pendingPaths) + pushed
    {
      hide PathTo, Append, BaseName, Strip, IsName, Collected, NodeNames, IsListing, EntryOk;
      directoryEntries := [];
      pushed := [];
      CollectedNone(query, via, d);
      var i := 0;
      while i < |entries|
        invariant 0 <= i <= |entries|
        invariant Collected(query, via, d, entries[..i], directoryEntries, pushed)
        invariant pendingPaths == old(pendingPaths) + pushed
      {
        var e := entries[i];
        assert entries[..i + 1] == entries[..i] + [e];
        CollectedMore(query, via, d, entries[..i], directoryEntries, pushed, e);
        var fullPath := Append(POSIX, rootPath, e.filename);
        if !IsDotName(BaseName(POSIX, fullPath)) {
          if e.isDirectory {
            pendingPaths := pendingPaths + [fullPath];
            pushed := pushed + [fullPath];
          }
          if (e.isDirectory && directories) || (!e.isDirectory && files) {
            directoryEntries := directoryEntries + [e];
          }
        }
        i := i + 1;
      }
      assert entries[..i] == entries;
    }

    /** One round of the loop of Next: take the next directory from the stack and read it.  It is passed
        over if it cannot be listed, or if a link on the way to it is gone. */
    method OpenNext()
      requires Consistent(From(currentDirectoryEntry)) && currentDirectoryEntry >= |directoryEntries|
      requires |pendingPaths| > 0
      modifies this
      ensures Consistent(From(currentDirectoryEntry)) && tr.emitted == old(tr.emitted)
      ensures old(lost) <= lost && (tr.emitted != [] && query.target in lost ==> query.target in old(lost))
      ensures Follow(fs.tree, via.entry, fs.maxLinks) == FoundAt(query.target) ==> lost == old(lost)
      ensures Ahead(query.tree, tr.pending) < old(Ahead(query.tree, tr.pending))
    {
      hide PathTo, PathOf, Append, Inv, Strip, KidsOf, Ahead, Collected, NodeNames, IsTree, Follow, Named, ViaOk, TreeNames,
           Lists, Stands;
      assert From(currentDirectoryEntry) == [];
      ghost var c := Settings();
      StandsTop(c, tr, lost, fs.tree, pendingPaths, rootPath);
      ghost var oldRoot, oldStack, d := rootPath, pendingPaths, tr.pending[|tr.pending| - 1];
      rootPath := pendingPaths[|pendingPaths| - 1];
      rootPath := Strip(POSIX, rootPath);
      pendingPaths := pendingPaths[..|pendingPaths| - 1];
      var ok, entries := fs.ReadDirectory(rootPath, Named(via, d));
      if !ok {
        StandsSkip(c, tr, lost, fs.tree, oldStack, oldRoot, rootPath);
        if d !in fs.unreadable {
          lost := lost + {d};
        }
        tr := Skip(tr);
        return;
      }
      StandsLists(c, tr, lost, fs.tree, oldStack, oldRoot, entries);
      currentDirectoryEntry := 0;
      ghost var pushed := Collect(entries, d);
      StandsOpen(c, tr, lost, fs.tree, oldStack, oldRoot, entries, directoryEntries, pushed);
      tr := Open(query, tr, KidsOf(d, entries));
      assert From(0) == directoryEntries;
    }

    /** The next entry, or the empty path when there are no more. */
    method Next() returns (path: Path, ghost node: Node)
      requires Valid()
      modifies this
      ensures Valid()
      ensures old(lost) <= lost && (old(tr.emitted) != [] && query.target in lost ==> query.target in old(lost))
      ensures Follow(fs.tree, via.entry, fs.maxLinks) == FoundAt(query.target) ==> lost == old(lost)
      ensures path == [] ==> tr.queue == [] && tr.pending == [] && tr.emitted == old(tr.emitted)
      ensures path != [] ==>
                && tr.emitted == old(tr.emitted) + [node] && node in query.tree && NodeNames(node)
                && via.top < node && path == PathTo(via, node)
                && currentDirectoryEntry < |directoryEntries|
                && (directoryEntries[currentDirectoryEntry].isDirectory <==> query.tree[node] == Directory)
    {
      hide PathTo, Append, Inv, Strip, IsName, NodesOf, SameBelow, Ahead, Matches, NodeNames, IsTree, Covered, LeftOf,
           Follow, Named, Intact, ViaOk, TreeNames, LostSeen;
      node := [];
      currentDirectoryEntry := currentDirectoryEntry + 1;
      while currentDirectoryEntry >= |directoryEntries|
        invariant Consistent(From(currentDirectoryEntry)) && tr.emitted == old(tr.emitted)
        invariant old(lost) <= lost && (tr.emitted != [] && query.target in lost ==> query.target in old(lost))
        invariant Follow(fs.tree, via.entry, fs.maxLinks) == FoundAt(query.target) ==> lost == old(lost)
        decreases Ahead(query.tree, tr.pending)
      {
        if |pendingPaths| == 0 {
          path := [];
          assert From(currentDirectoryEntry) == [] && From(currentDirectoryEntry + 1) == [];
          StandsTop(Settings(), tr, lost, fs.tree, pendingPaths, rootPath);
          return;
        }
        OpenNext();
      }
      MatchesEmit(query, tr, via, pendingPaths, rootPath, From(currentDirectoryEntry));
      node := tr.queue[0];
      LostMore(query, tr.emitted, lost, node);
      path := Append(POSIX, rootPath, directoryEntries[currentDirectoryEntry].filename);
      tr := Emit(tr);
      assert From(currentDirectoryEntry + 1) == From(currentDirectoryEntry)[1..];
    }
  }

  /** A whole listing: until Next returns the empty path. */
  method ListAll(fs: FileSystem, path: Path, files: bool, directories: bool, ghost entry: Node)
    returns (paths: seq<Path>, ghost nodes: seq<Node>)
    requires fs.Valid() && NodeNames(entry) && Strip(POSIX, path) == PathOf(fs.base, entry)
    requires var f := Follow(fs.tree, entry, fs.maxLinks); f.FoundAt? && fs.tree[f.node] == Directory
    ensures var top := Follow(fs.tree, entry, fs.maxLinks).node;
            var via := Via(fs.base, entry, top);
            && |paths| == |nodes| && (forall i :: 0 <= i < |paths| ==> paths[i] == PathTo(via, nodes[i]))
            && forall r :: r in nodes
                 <==> && r in fs.tree && top < r
                      && (if fs.tree[r] == Directory then directories else files)
                      && forall n :: |top| <= n < |r| ==> r[..n] !in fs.unreadable
    ensures Distinct(nodes) && InOrder(nodes)
    ensures forall i, j :: 0 <= i < j < |paths| ==> paths[i] != paths[j]
  {
    hide PathTo, Strip, IsName, Ahead, Inv, Covered, NodeNames, Follow, Named, Due, Stands, Distinct, InOrder;
    ghost var top := Follow(fs.tree, entry, fs.maxLinks).node;
    ghost var via := Via(fs.base, entry, top);
    var en := new FileEnumerator(fs, path, files, directories, entry);
    paths := [];
    var next, node := en.Next();
    nodes := [];
    while next != []
      invariant en.Valid() && en.fs == fs && fresh(en) && en.via == via && en.lost == {}
      invariant en.query == Query(fs.tree, top, files, directories, fs.unreadable)
      invariant |paths| == |nodes| && forall i :: 0 <= i < |paths| ==> paths[i] == PathTo(via, nodes[i])
      invariant en.tr.emitted == if next == [] then nodes else nodes + [node]
      invariant next != [] ==> next == PathTo(via, node) && node in fs.tree
      invariant next == [] ==> en.tr.queue == [] && en.tr.pending == []
      decreases Remaining(fs.tree, nodes)
    {
      FromStands(en.Settings(), en.tr, en.lost, fs.tree, en.pendingPaths, en.rootPath, en.From(en.currentDirectoryEntry + 1));
      EmittedFresh(en.query, en.tr, nodes, node);
      paths := paths + [next];
      nodes := nodes + [node];
      next, node := en.Next();
    }
    FromStands(en.Settings(), en.tr, en.lost, fs.tree, en.pendingPaths, en.rootPath, en.From(en.currentDirectoryEntry + 1));
    DoneMeansAll(en.query, en.tr);
    DueIs(en.query);
    forall i, j | 0 <= i < j < |paths|
      ensures paths[i] != paths[j]
    {
      assert nodes[i] in nodes && nodes[j] in nodes;
      assert Due(en.query, nodes[i]) && Due(en.query, nodes[j]);
      if paths[i] == paths[j] {
        PathsToUnique(via, nodes[i], nodes[j]);
      }
    }
  }

  /** What is due, spelled out. */
  lemma DueIs(q: Query)
    ensures forall r :: Due(q, r)
              <==> && r in q.tree && q.target < r
                   && (if q.tree[r] == Directory then q.directories else q.files)
                   && forall n :: |q.target| <= n < |r| ==> r[..n] !in q.unreadable
  {
  }

  /** The nodes that have not come out yet. */
  ghost function Remaining(tree: Tree, nodes: seq<Node>): set<Node> {
    set r | r in tree && r !in nodes
  }

  lemma EmittedFresh(q: Query, tr: Traversal, nodes: seq<Node>, node: Node)
    requires Inv(q, tr) && tr.emitted == nodes + [node]
    ensures node in q.tree && q.target < node && node !in nodes
    ensures Remaining(q.tree, nodes + [node]) < Remaining(q.tree, nodes)
  {
    hide PendingOk, QueueOk, OrderOk, IsTree;
    assert tr.emitted[|nodes|] == node;
    assert node in tr.emitted;
    assert forall i :: 0 <= i < |nodes| ==> nodes[i] == tr.emitted[i] != node;
    assert node in Remaining(q.tree, nodes) && node !in Remaining(q.tree, nodes + [node]);
  }
}
