/**
 Recursive deletion: unlink everything that is not a directory while the traversal
 goes on, then remove the directories in the reverse of the order they came out.
 */
module DeleteTree {
  import opened Common
  import opened FilePath
  import opened FileTree
  import opened FileSystem
  import opened FileEnumerator

  /** What is left was there before, and all that is gone was at or below `target`. */
  ghost predicate OnlyRemoved(tree: Tree, was: Tree, target: Node) {
    forall r :: (r in tree ==> r in was && tree[r] == was[r]) && (r in was && !(target <= r) ==> r in tree)
  }

  /** The tree once the entries in `done` that are not directories have been unlinked. */
  ghost predicate Unlinked(tree: Tree, was: Tree, done: seq<Node>) {
    forall r :: (r in tree <==> r in was && !(r in done && was[r] != Directory)) && (r in tree ==> tree[r] == was[r])
  }

  /** Processing one more entry, by unlinking it if it is not a directory. */
  lemma UnlinkedMore(tree: Tree, tree': Tree, was: Tree, done: seq<Node>, x: Node)
    requires Unlinked(tree, was, done) && x in was
    requires tree' == if was[x] != Directory then tree - {x} else tree
    ensures Unlinked(tree', was, done + [x])
  {
  }

  /** Removing something that came out and is not a directory leaves the rest of the traversal alone. */
  lemma UnlinkKeepsIntact(q: Query, tr: Traversal, tree: Tree, x: Node)
    requires Inv(q, tr) && Intact(tree, q.tree, tr.pending) && x in tr.emitted && x in q.tree && q.tree[x] != Directory
    ensures Intact(tree - {x}, q.tree, tr.pending)
  {
    hide Covered, OrderOk, QueueOk, IsTree;
    forall k | 0 <= k < |tr.pending|
      ensures SameBelow(tree - {x}, q.tree, tr.pending[k])
    {
      assert SameBelow(tree, q.tree, tr.pending[k]);
      assert !BelowPending(tr, x);
      assert !(tr.pending[k] < x) && tr.pending[k] != x;
    }
  }

  /** Of what can be reached below the target, everything that is not a directory is gone. */
  ghost predicate FilesGone(tree: Tree, was: Tree, target: Node, unreadable: set<Node>) {
    forall r :: r in was && target < r && was[r] != Directory && Listable(r, target, unreadable) ==> r !in tree
  }

  /** Every directory from the target down to `r` can be listed. */
  ghost predicate Listable(r: Node, target: Node, unreadable: set<Node>) {
    forall n :: |target| <= n < |r| ==> r[..n] !in unreadable
  }

  lemma FilesStayGone(tree: Tree, before: Tree, was: Tree, target: Node, unreadable: set<Node>)
    requires FilesGone(before, was, target, unreadable) && LeftOf(tree, before)
    ensures FilesGone(tree, was, target, unreadable)
  {
    hide Listable;
  }

  lemma AllFilesGone(q: Query, tr: Traversal, tree: Tree)
    requires Inv(q, tr) && Covered(q, tr) && tr.queue == [] && tr.pending == [] && q.files
    requires Unlinked(tree, q.tree, tr.emitted)
    ensures FilesGone(tree, q.tree, q.target, q.unreadable)
  {
    hide Inv, Covered;
    DoneMeansAll(q, tr);
    forall r | r in q.tree && q.target < r && q.tree[r] != Directory && Listable(r, q.target, q.unreadable)
      ensures r !in tree
    {
      assert Due(q, r);
    }
  }

  /** What is left after the traversal: the directories that came out, and the target. */
  ghost predicate OnlyDirsLeft(tree: Tree, target: Node, dirs: seq<Node>) {
    forall r :: r in tree && target <= r ==> r in dirs
  }

  lemma DirsLeft(q: Query, tr: Traversal, tree: Tree)
    requires Inv(q, tr) && Covered(q, tr) && tr.queue == [] && tr.pending == [] && q.files && q.directories
    requires Unlinked(tree, q.tree, tr.emitted) && ReadableBelow(q.unreadable, q.target)
    requires forall x :: x in tr.emitted ==> x in q.tree
    ensures OnlyDirsLeft(tree, q.target, [q.target] + DirectoriesOf(q.tree, tr.emitted))
  {
    DoneMeansAll(q, tr);
    forall r | r in tree && q.target <= r
      ensures r in [q.target] + DirectoriesOf(q.tree, tr.emitted)
    {
      if r != q.target {
        forall n | |q.target| <= n < |r|
          ensures r[..n] !in q.unreadable
        {
          assert q.target <= r[..n];
        }
        assert Due(q, r);
      }
    }
  }

  /** The last directory of the list is empty when everything left is in the list. */
  lemma LastIsEmpty(tree: Tree, target: Node, dirs: seq<Node>)
    requires dirs != [] && ParentsFirst(dirs) && OnlyDirsLeft(tree, target, dirs) && target <= dirs[|dirs| - 1]
    ensures IsEmpty(tree, dirs[|dirs| - 1])
  {
    var n := |dirs| - 1;
    forall r | r in tree
      ensures !(dirs[n] < r)
    {
      if target <= r {
        var i :| 0 <= i < |dirs| && dirs[i] == r;
      }
    }
  }

  lemma PopDir(tree: Tree, target: Node, dirs: seq<Node>)
    requires dirs != [] && OnlyDirsLeft(tree, target, dirs)
    ensures OnlyDirsLeft(tree - {dirs[|dirs| - 1]}, target, dirs[..|dirs| - 1])
  {
    var n := |dirs| - 1;
    assert dirs == dirs[..n] + [dirs[n]];
  }

  /** If the target is gone, everything below it is gone. */
  lemma TargetGone(tree: Tree, was: Tree, target: Node)
    requires IsTree(tree) && OnlyRemoved(tree, was, target) && target !in tree
    ensures tree == Without(was, target)
  {
    hide IsTree;
    forall r | r in tree
      ensures !(target <= r)
    {
      NotBelowMissing(tree, target, r);
    }
  }

  lemma NotBelowMissing(tree: Tree, target: Node, r: Node)
    requires IsTree(tree) && target !in tree && r in tree
    ensures !(target <= r)
  {
    hide IsTree;
    if |target| < |r| {
      PrefixInTree(tree, r, |target|);
      assert r[..|target|] != target;
    } else {
      assert target <= r && |target| == |r| ==> target == r;
    }
  }

  /** The entries in `done` have been dealt with: what is not a directory is unlinked,
      the directories are stacked on top of the target. */
  ghost predicate Processed(tree: Tree, via: Via, was: Tree, done: seq<Node>, directories: seq<Path>) {
    && (forall x :: x in done ==> x in was)
    && Unlinked(tree, was, done)
    && ArePaths(via, directories, [via.top] + DirectoriesOf(was, done))
  }

  lemma ProcessedNone(via: Via, path: Path, was: Tree)
    requires Strip(POSIX, path) == PathOf(via.base, via.entry)
    ensures Processed(was, via, was, [], [path])
  {
    hide Strip, PathOf, PathTo;
    assert [via.top] + DirectoriesOf(was, []) == [via.top];
    PathToTop(via);
  }

  lemma ProcessedFile(tree: Tree, via: Via, was: Tree, done: seq<Node>, directories: seq<Path>, x: Node)
    requires Processed(tree, via, was, done, directories) && x in was && was[x] != Directory
    ensures Processed(tree - {x}, via, was, done + [x], directories)
  {
    hide Strip, DirectoriesOf, ArePaths;
    DirectoriesPush(was, done, x);
    UnlinkedMore(tree, tree - {x}, was, done, x);
  }

  lemma ProcessedDirectory(tree: Tree, via: Via, was: Tree, done: seq<Node>, directories: seq<Path>, x: Node)
    requires Processed(tree, via, was, done, directories) && x in was && was[x] == Directory
    requires ViaOk(via) && NodeNames(x)
    ensures Processed(tree, via, was, done + [x], directories + [PathTo(via, x)])
  {
    hide PathTo, Strip, DirectoriesOf, ArePaths, NodeNames, ViaOk;
    DirectoriesPush(was, done, x);
    UnlinkedMore(tree, tree, was, done, x);
    PathToShape(via, x);
    var nodes := [via.top] + DirectoriesOf(was, done);
    ArePathsPush(via, directories, nodes, PathTo(via, x), x);
    assert [via.top] + (DirectoriesOf(was, done) + [x]) == nodes + [x];
  }

  /** The path of a node below the top leads to the node, or nowhere because a link on the way to the
      top is gone; nowhere too if the node is. */
  lemma RemovalAt(tree: Tree, was: Tree, via: Via, limit: nat, r: Node)
    requires IsTree(tree) && IsTree(was) && LeftOf(tree, was) && Follow(was, via.entry, limit) == FoundAt(via.top)
    requires via.top < r && r in was
    ensures var f := Resolve(tree, Named(via, r), limit);
            && (f == Some(r) || f.None?)
            && (Follow(tree, via.entry, limit) == FoundAt(via.top) && r in tree ==> f == Some(r))
  {
    hide IsTree, Follow, Resolve;
    var rest := r[|via.top|..];
    assert r == via.top + rest && rest != [];
    FollowBelow(was, via.entry, limit, via.top, rest);
    if Follow(tree, via.entry, limit) == FoundAt(via.top) && r in tree {
      FollowBelow(tree, via.entry, limit, via.top, rest);
    }
    LeadsThereOrNowhere(tree, was, Named(via, r), limit);
  }

  /** No link on the way from `a` lies at or below `site`. */
  ghost predicate Firm(tree: Tree, limit: nat, a: Node, site: Node) {
    forall l :: l in Hops(tree, a, limit) ==> !(site <= l)
  }

  /** As long as a firm way's end is there, removals at or below it do not break the way. */
  lemma FirmStays(tree: Tree, was: Tree, limit: nat, a: Node, site: Node)
    requires IsTree(tree) && IsTree(was) && OnlyRemoved(tree, was, site) && site in tree
    requires Follow(was, a, limit) == FoundAt(site) && Firm(was, limit, a, site)
    ensures Follow(tree, a, limit) == FoundAt(site)
  {
    hide IsTree, Follow;
    StillLeads(tree, was, a, limit);
  }

  /** A way that is broken stays broken. */
  lemma BrokenStays(tree: Tree, before: Tree, was: Tree, limit: nat, a: Node, site: Node)
    requires IsTree(tree) && IsTree(before) && IsTree(was) && LeftOf(before, was) && LeftOf(tree, before)
    requires Follow(was, a, limit) == FoundAt(site) && Follow(before, a, limit) != FoundAt(site)
    ensures Follow(tree, a, limit) != FoundAt(site)
  {
    hide IsTree, Follow;
    LeadsThereOrNowhere(before, was, a, limit);
    NowhereStays(tree, before, a, limit);
  }

  lemma RemoveOne(tree: Tree, before: Tree, was: Tree, target: Node, x: Node)
    requires OnlyRemoved(before, was, target) && target <= x && (tree == before || tree == before - {x})
    ensures OnlyRemoved(tree, was, target) && LeftOf(tree, before)
    ensures target in before && x != target ==> target in tree
  {
  }

  lemma NothingRemoved(tree: Tree, target: Node)
    ensures OnlyRemoved(tree, tree, target) && LeftOf(tree, tree)
  {
  }

  /** One round of the first loop. */
  method ProcessEntry(fs: FileSystem, traversal: FileEnumerator, current: Path, directories: seq<Path>,
                      ghost node: Node, ghost done: seq<Node>)
    returns (success: bool, directories': seq<Path>)
    requires traversal.Valid() && traversal.fs == fs
    requires traversal.tr.emitted == done + [node] && node in traversal.query.tree && NodeNames(node)
    requires traversal.via.top < node && current == PathTo(traversal.via, node)
    requires traversal.currentDirectoryEntry < |traversal.directoryEntries|
    requires traversal.directoryEntries[traversal.currentDirectoryEntry].isDirectory
             <==> traversal.query.tree[node] == Directory
    requires Processed(fs.tree, traversal.via, traversal.query.tree, done, directories)
    modifies fs`tree, fs`unlinksOfDirectories, fs`lostPaths, fs`refusals
    ensures traversal.Valid()
    ensures success ==> Processed(fs.tree, traversal.via, traversal.query.tree, done + [node], directories')
    ensures (fs.tree == old(fs.tree) || fs.tree == old(fs.tree) - {node}) && LeftOf(fs.tree, old(fs.tree))
    ensures fs.refusals >= old(fs.refusals) && fs.lostPaths >= old(fs.lostPaths)
    ensures fs.refusals + fs.lostPaths == old(fs.refusals + fs.lostPaths) + if success then 0 else 1
    ensures fs.unlinksOfDirectories == old(fs.unlinksOfDirectories)
    ensures Follow(old(fs.tree), traversal.via.entry, fs.maxLinks) == FoundAt(traversal.query.target) ==>
              fs.lostPaths == old(fs.lostPaths)
  {
    hide PathTo, PathOf, Strip, NodeNames, IsTree, SameBelow, ArePaths, NodesOf, DirectoriesOf, Processed, Matches, Inv,
         Covered, Follow, Resolve, Named, ViaOk, Intact, TreeNames, Stands, LostSeen;
    ghost var q, via := traversal.query, traversal.via;
    FromStands(traversal.Settings(), traversal.tr, traversal.lost, fs.tree, traversal.pendingPaths, traversal.rootPath,
               traversal.From(traversal.currentDirectoryEntry + 1));
    EmittedFresh(q, traversal.tr, done, node);
    directories' := directories;
    var info := traversal.directoryEntries[traversal.currentDirectoryEntry];
    if info.isDirectory {
      ProcessedDirectory(fs.tree, via, q.tree, done, directories, node);
      directories' := directories + [current];
      success := true;
    } else {
      ProcessedFile(fs.tree, via, q.tree, done, directories, node);
      UnlinkKeepsIntact(q, traversal.tr, fs.tree, node);
      StandsRemove(traversal.Settings(), traversal.tr, traversal.lost, fs.tree, fs.tree - {node}, traversal.pendingPaths,
                   traversal.rootPath, traversal.From(traversal.currentDirectoryEntry + 1));
      StillThere(fs.tree, via, q.tree, done, directories, node);
      RemovalAt(fs.tree, q.tree, via, fs.maxLinks, node);
      NamedOk(via, node);
      PathToNamed(via, node);
      success := fs.Unlink(current, Named(via, node));
    }
  }

  lemma StillThere(tree: Tree, via: Via, was: Tree, done: seq<Node>, directories: seq<Path>, x: Node)
    requires Processed(tree, via, was, done, directories) && x in was && x !in done
    ensures x in tree && tree[x] == was[x]
  {
    hide PathTo, Strip, DirectoriesOf, ArePaths;
  }

  /** The first loop: unlink what is not a directory, stack up what is. */
  method UnlinkFiles(fs: FileSystem, path: Path, ghost entry: Node, ghost target: Node)
    returns (success: bool, directories: seq<Path>, ghost dirs: seq<Node>)
    requires fs.Valid() && NodeNames(entry) && Strip(POSIX, path) == PathOf(fs.base, entry)
    requires Follow(fs.tree, entry, fs.maxLinks) == FoundAt(target) && fs.tree[target] == Directory
    modifies fs`tree, fs`unlinksOfDirectories, fs`lostPaths, fs`refusals
    ensures fs.Valid() && OnlyRemoved(fs.tree, old(fs.tree), target) && target in fs.tree
    ensures fs.refusals >= old(fs.refusals) && fs.lostPaths >= old(fs.lostPaths)
    ensures fs.refusals + fs.lostPaths == old(fs.refusals + fs.lostPaths) + if success then 0 else 1
    ensures fs.unlinksOfDirectories == old(fs.unlinksOfDirectories)
    ensures Firm(old(fs.tree), fs.maxLinks, entry, target) ==> fs.lostPaths == old(fs.lostPaths)
    ensures success ==>
              && ArePaths(Via(fs.base, entry, target), directories, dirs) && dirs != [] && dirs[0] == target
              && ParentsFirst(dirs) && Distinct(dirs)
              && (forall d :: d in dirs ==> target <= d && d in fs.tree && fs.tree[d] == Directory)
              && (Follow(fs.tree, entry, fs.maxLinks) == FoundAt(target) || |dirs| == 1 ==>
                    FilesGone(fs.tree, old(fs.tree), target, fs.unreadable))
              && (ReadableBelow(fs.unreadable, target)
                  && (Follow(fs.tree, entry, fs.maxLinks) == FoundAt(target) || |dirs| == 1) ==>
                    OnlyDirsLeft(fs.tree, target, dirs))
  {
    hide PathTo, PathOf, Strip, NodeNames, IsTree, SameBelow, ArePaths, NodesOf, DirectoriesOf, Processed, Matches, Inv,
         Intact, TreeNames, ParentsFirst, Distinct, OnlyDirsLeft, Covered, Follow, Firm, ViaOk, ReadableBelow, LeftOf, Stands,
         LostSeen, FilesGone, OnlyRemoved, Remaining;
    success := true;
    directories := [path];
    ghost var was, via := fs.tree, Via(fs.base, entry, target);
    var traversal := new FileEnumerator(fs, path, true, true, entry);
    ghost var q: Query, done: seq<Node> := traversal.query, [];
    ProcessedNone(via, path, was);
    NothingRemoved(was, target);
    var current, node := traversal.Next();
    while success && current != []
      invariant traversal.Valid() && traversal.fs == fs && fresh(traversal) && traversal.query == q && traversal.via == via
      invariant OnlyRemoved(fs.tree, was, target) && target in fs.tree
      invariant fs.refusals >= old(fs.refusals) && fs.lostPaths >= old(fs.lostPaths)
      invariant fs.refusals + fs.lostPaths == old(fs.refusals + fs.lostPaths) + if success then 0 else 1
      invariant fs.unlinksOfDirectories == old(fs.unlinksOfDirectories)
      invariant Firm(was, fs.maxLinks, entry, target) ==> fs.lostPaths == old(fs.lostPaths)
      invariant target !in traversal.lost
      invariant traversal.lost != {} ==> Follow(fs.tree, entry, fs.maxLinks) != FoundAt(target)
      invariant success ==> traversal.tr.emitted == if current == [] then done else done + [node]
      invariant success ==> Processed(fs.tree, via, was, done, directories)
      invariant current != [] ==>
        && node in was && NodeNames(node) && target < node && current == PathTo(via, node)
        && traversal.currentDirectoryEntry < |traversal.directoryEntries|
        && (traversal.directoryEntries[traversal.currentDirectoryEntry].isDirectory <==> was[node] == Directory)
      invariant current == [] ==> traversal.tr.queue == [] && traversal.tr.pending == []
      decreases success, Remaining(was, done)
    {
      FromStands(traversal.Settings(), traversal.tr, traversal.lost, fs.tree, traversal.pendingPaths, traversal.rootPath,
                 traversal.From(traversal.currentDirectoryEntry + 1));
      EmittedFresh(q, traversal.tr, done, node);
      if Firm(was, fs.maxLinks, entry, target) {
        FirmStays(fs.tree, was, fs.maxLinks, entry, target);
      }
      ghost var before := fs.tree;
      success, directories := ProcessEntry(fs, traversal, current, directories, node, done);
      RemoveOne(fs.tree, before, was, target, node);
      if success {
        done := done + [node];
      }
      if traversal.lost != {} {
        BrokenStays(fs.tree, before, was, fs.maxLinks, entry, target);
      }
      current, node := traversal.Next();
    }
    dirs := [];
    if success {
      FromStands(traversal.Settings(), traversal.tr, traversal.lost, fs.tree, traversal.pendingPaths, traversal.rootPath,
                 traversal.From(traversal.currentDirectoryEntry + 1));
      dirs := Leftover(fs.tree, via, q, traversal.tr, directories, traversal.lost);
    }
  }

  /** When the traversal is over, the stack holds every directory that is left, parents first. */
  lemma Leftover(tree: Tree, via: Via, q: Query, tr: Traversal, directories: seq<Path>, lost: set<Node>)
    returns (dirs: seq<Node>)
    requires Inv(q, tr) && tr.queue == [] && tr.pending == [] && q.files && q.directories && via.top == q.target
    requires q.target in q.tree && q.tree[q.target] == Directory
    requires Processed(tree, via, q.tree, tr.emitted, directories)
    requires (lost == {} ==> Covered(q, tr)) && LostSeen(q, tr.emitted, lost) && q.target !in lost
    ensures ArePaths(via, directories, dirs) && dirs != [] && dirs[0] == q.target
    ensures ParentsFirst(dirs) && Distinct(dirs)
    ensures forall d :: d in dirs ==> q.target <= d && d in tree && tree[d] == Directory
    ensures lost == {} && ReadableBelow(q.unreadable, q.target) ==> OnlyDirsLeft(tree, q.target, dirs)
    ensures lost == {} ==> FilesGone(tree, q.tree, q.target, q.unreadable)
    ensures lost != {} ==> |dirs| > 1
  {
    hide PathTo, Strip, DirectoriesOf, ArePaths, Inv, ParentsFirst, Covered, ReadableBelow, FilesGone;
    var done := tr.emitted;
    dirs := [q.target] + DirectoriesOf(q.tree, done);
    DoneMeansAll(q, tr);
    DirectoriesParentsFirst(q.tree, q.target, done);
    StackLeft(q.tree, q.target, done, tree);
    if lost == {} && ReadableBelow(q.unreadable, q.target) {
      DirsLeft(q, tr, tree);
    }
    if lost == {} {
      AllFilesGone(q, tr, tree);
    }
    if d :| d in lost {
      assert d in DirectoriesOf(q.tree, done);
    }
  }

  /** The stacked directories are all still there. */
  lemma StackLeft(was: Tree, target: Node, done: seq<Node>, tree: Tree)
    requires target in was && was[target] == Directory && Unlinked(tree, was, done)
    requires forall x :: x in done ==> x in was && target < x
    ensures forall d :: d in [target] + DirectoriesOf(was, done) ==> target <= d && d in tree && tree[d] == Directory
  {
    hide DirectoriesOf;
    forall d | d in [target] + DirectoriesOf(was, done)
      ensures target <= d && d in tree && tree[d] == Directory
    {
      assert d == target || d in DirectoriesOf(was, done);
    }
  }

  /** What rmdir meets under the path of a stacked directory: the directory, or nothing because a link on
      the way is gone; and under the path of the target itself perhaps a link. */
  lemma RmdirAt(tree: Tree, was: Tree, via: Via, limit: nat, d: Node)
    requires IsTree(tree) && IsTree(was) && LeftOf(tree, was) && Follow(was, via.entry, limit) == FoundAt(via.top)
    requires via.top <= d && d in tree
    ensures Resolve(was, via.entry, limit).Some?
    ensures var f, own := Resolve(tree, Named(via, d), limit), Resolve(was, via.entry, limit).value;
            && (f.None? || f == Some(d) || (d == via.top && own != via.top && f == Some(own) && tree[own].Link?))
            && (d == via.top && own != via.top ==> f != Some(d))
            && (Follow(tree, via.entry, limit) == FoundAt(via.top) ==> f.Some?)
            && (Follow(tree, via.entry, limit) != FoundAt(via.top) && d != via.top ==> f.None?)
  {
    hide IsTree, Follow, Resolve, Hops;
    FollowResolves(was, via.entry, limit);
    if d == via.top {
      assert Named(via, d) == via.entry;
      LeadsThereOrNowhere(tree, was, via.entry, limit);
      if Follow(tree, via.entry, limit) == FoundAt(via.top) {
        FollowResolves(tree, via.entry, limit);
      }
    } else {
      RemovalAt(tree, was, via, limit, d);
      if Follow(tree, via.entry, limit) != FoundAt(via.top) {
        LeadsThereOrNowhere(tree, was, via.entry, limit);
        NowhereBelow(tree, via.entry, limit, d[|via.top|..]);
      }
    }
  }

  /** What is still to be removed is in the stack, unless a directory was passed over; the way is then broken. */
  ghost predicate StackHolds(tree: Tree, via: Via, limit: nat, nodes: seq<Node>) {
    Follow(tree, via.entry, limit) == FoundAt(via.top) || |nodes| == 1 ==> OnlyDirsLeft(tree, via.top, nodes)
  }

  /** The stack of directories: the target first, parents before children, all of them there, and all reached the way
      that led to the target in `was`. */
  ghost predicate StackOk(tree: Tree, via: Via, was: Tree, limit: nat, dirs: seq<Node>) {
    && IsTree(was) && OnlyRemoved(tree, was, via.top) && Follow(was, via.entry, limit) == FoundAt(via.top)
    && dirs != [] && dirs[0] == via.top && ParentsFirst(dirs) && Distinct(dirs)
    && (forall d :: d in dirs ==> via.top <= d && d in tree && tree[d] == Directory)
  }

  lemma StackPop(tree: Tree, via: Via, was: Tree, limit: nat, dirs: seq<Node>)
    requires StackOk(tree, via, was, limit, dirs)
    ensures var n := |dirs| - 1;
            && via.top <= dirs[n] && dirs[n] in tree && tree[dirs[n]] == Directory
            && OnlyRemoved(tree - {dirs[n]}, was, via.top) && LeftOf(tree - {dirs[n]}, tree) && LeftOf(tree, was)
            && (n > 0 ==> dirs[n] != via.top && via.top in tree && StackOk(tree - {dirs[n]}, via, was, limit, dirs[..n]))
            && (n == 0 ==> dirs == [via.top])
            && (OnlyDirsLeft(tree, via.top, dirs) ==>
                  IsEmpty(tree, dirs[n]) && OnlyDirsLeft(tree - {dirs[n]}, via.top, dirs[..n]))
  {
    hide IsTree, Follow, IsEmpty;
    var n := |dirs| - 1;
    assert dirs[n] in dirs && dirs[0] in dirs;
    PopKeeps(dirs);
    if OnlyDirsLeft(tree, via.top, dirs) {
      LastIsEmpty(tree, via.top, dirs);
      PopDir(tree, via.top, dirs);
    }
  }

  /** One rmdir: the last directory of the stack goes, or nothing does. */
  method RemoveLast(fs: FileSystem, path: Path, ghost dirs: seq<Node>, ghost via: Via, ghost was: Tree) returns (ok: bool)
    requires fs.Valid() && ViaOk(via) && via.base == fs.base && StackOk(fs.tree, via, was, fs.maxLinks, dirs)
    requires Strip(POSIX, path) == PathTo(via, dirs[|dirs| - 1])
    modifies fs`tree, fs`rmdirsOfNonEmpty, fs`rmdirsOfOthers, fs`lostPaths, fs`refusals
    ensures fs.Valid() && fs.tree == if ok then old(fs.tree) - {dirs[|dirs| - 1]} else old(fs.tree)
    ensures Failures(fs) == old(Failures(fs)) + if ok then 0 else 1
    ensures fs.refusals >= old(fs.refusals) && fs.lostPaths >= old(fs.lostPaths)
    ensures fs.rmdirsOfNonEmpty >= old(fs.rmdirsOfNonEmpty) && fs.rmdirsOfOthers >= old(fs.rmdirsOfOthers)
    ensures OnlyDirsLeft(old(fs.tree), via.top, dirs) ==>
              && fs.rmdirsOfNonEmpty == old(fs.rmdirsOfNonEmpty)
              && (!ok && fs.refusals == old(fs.refusals) && fs.lostPaths == old(fs.lostPaths) ==> |dirs| == 1)
    ensures Firm(was, fs.maxLinks, via.entry, via.top) ==> fs.lostPaths == old(fs.lostPaths)
    ensures Follow(old(fs.tree), via.entry, fs.maxLinks) != FoundAt(via.top) && |dirs| > 1 ==>
              fs.lostPaths > old(fs.lostPaths) && fs.rmdirsOfNonEmpty == old(fs.rmdirsOfNonEmpty)
    ensures if Resolve(was, via.entry, fs.maxLinks) == Some(via.top) then fs.rmdirsOfOthers == old(fs.rmdirsOfOthers)
            else |dirs| == 1 ==> !ok
  {
    hide PathTo, PathOf, Strip, NodeNames, IsTree, IsEmpty, Follow, Resolve, Named, Firm, ViaOk, StackOk, OnlyDirsLeft,
         OnlyRemoved, LeftOf;
    StackFacts(fs.tree, via, was, fs.maxLinks, dirs);
    StackPop(fs.tree, via, was, fs.maxLinks, dirs);
    ghost var d := dirs[|dirs| - 1];
    if Firm(was, fs.maxLinks, via.entry, via.top) {
      FirmStays(fs.tree, was, fs.maxLinks, via.entry, via.top);
    }
    RmdirAt(fs.tree, was, via, fs.maxLinks, d);
    NodeOk(fs.tree, via, d);
    ok := fs.Rmdir(path, Named(via, d));
  }

  lemma StackFacts(tree: Tree, via: Via, was: Tree, limit: nat, dirs: seq<Node>)
    requires StackOk(tree, via, was, limit, dirs)
    ensures IsTree(was) && OnlyRemoved(tree, was, via.top) && Follow(was, via.entry, limit) == FoundAt(via.top)
    ensures dirs != [] && via.top in tree
  {
    hide IsTree, Follow, OnlyRemoved;
    assert dirs[0] in dirs;
  }

  /** The second loop: remove the stacked directories, last first. */
  method RemoveDirectories(fs: FileSystem, paths: seq<Path>, ghost nodes: seq<Node>, ghost via: Via, ghost was: Tree)
    returns (success: bool)
    requires fs.Valid() && ViaOk(via) && via.base == fs.base && ArePaths(via, paths, nodes)
    requires StackOk(fs.tree, via, was, fs.maxLinks, nodes)
    modifies fs`tree, fs`rmdirsOfNonEmpty, fs`rmdirsOfOthers, fs`lostPaths, fs`refusals
    ensures fs.Valid() && OnlyRemoved(fs.tree, was, via.top)
    ensures LeftOf(fs.tree, old(fs.tree))
    ensures success ==> via.top !in fs.tree
    ensures Failures(fs) == old(Failures(fs)) + if success then 0 else 1
    ensures fs.refusals >= old(fs.refusals) && fs.lostPaths >= old(fs.lostPaths)
    ensures fs.rmdirsOfNonEmpty >= old(fs.rmdirsOfNonEmpty) && fs.rmdirsOfOthers >= old(fs.rmdirsOfOthers)
    ensures Follow(old(fs.tree), via.entry, fs.maxLinks) != FoundAt(via.top) && |nodes| > 1 ==> fs.lostPaths > old(fs.lostPaths)
    ensures StackHolds(old(fs.tree), via, fs.maxLinks, nodes) ==> fs.rmdirsOfNonEmpty == old(fs.rmdirsOfNonEmpty)
    ensures Resolve(was, via.entry, fs.maxLinks) != Some(via.top) ==> !success && via.top in fs.tree
    ensures Resolve(was, via.entry, fs.maxLinks) == Some(via.top) ==> fs.rmdirsOfOthers == old(fs.rmdirsOfOthers)
    ensures Firm(was, fs.maxLinks, via.entry, via.top) ==> fs.lostPaths == old(fs.lostPaths)
    ensures StackHolds(old(fs.tree), via, fs.maxLinks, nodes)
            && fs.refusals == old(fs.refusals) && fs.lostPaths == old(fs.lostPaths) ==>
              OnlyDirsLeft(fs.tree, via.top, [via.top])
  {
    hide PathTo, PathOf, Strip, NodeNames, IsTree, Follow, Resolve, Firm, ViaOk, StackOk, OnlyDirsLeft, OnlyRemoved;
    success := true;
    var directories := paths;
    ghost var dirs, target := nodes, via.top;
    ghost var dead := Follow(fs.tree, via.entry, fs.maxLinks) != FoundAt(target) && |nodes| > 1;
    StackFacts(fs.tree, via, was, fs.maxLinks, dirs);
    while success && |directories| != 0
      invariant fs.Valid() && OnlyRemoved(fs.tree, was, target) && LeftOf(fs.tree, old(fs.tree))
      invariant Failures(fs) == old(Failures(fs)) + if success then 0 else 1
      invariant |directories| == |dirs| && ArePaths(via, directories, dirs)
      invariant success && dirs != [] ==> StackOk(fs.tree, via, was, fs.maxLinks, dirs)
      invariant success && dirs == [] ==> target !in fs.tree
      invariant Resolve(was, via.entry, fs.maxLinks) != Some(target) ==> target in fs.tree
      invariant Resolve(was, via.entry, fs.maxLinks) == Some(target) ==> fs.rmdirsOfOthers == old(fs.rmdirsOfOthers)
      invariant fs.refusals >= old(fs.refusals) && fs.lostPaths >= old(fs.lostPaths)
      invariant fs.rmdirsOfNonEmpty >= old(fs.rmdirsOfNonEmpty) && fs.rmdirsOfOthers >= old(fs.rmdirsOfOthers)
      invariant Firm(was, fs.maxLinks, via.entry, target) ==> fs.lostPaths == old(fs.lostPaths)
      invariant dead ==>
        && fs.rmdirsOfNonEmpty == old(fs.rmdirsOfNonEmpty)
        && (if success then fs.tree == old(fs.tree) && dirs == nodes else fs.lostPaths > old(fs.lostPaths))
      invariant OnlyDirsLeft(old(fs.tree), target, nodes) ==>
        && fs.rmdirsOfNonEmpty == old(fs.rmdirsOfNonEmpty)
        && (success ==> OnlyDirsLeft(fs.tree, target, dirs))
        && (!success && fs.refusals == old(fs.refusals) && fs.lostPaths == old(fs.lostPaths) ==>
              OnlyDirsLeft(fs.tree, target, [target]))
      decreases success, |directories|
    {
      var n := |directories| - 1;
      StackPop(fs.tree, via, was, fs.maxLinks, dirs);
      success := RemoveLast(fs, directories[n], dirs, via, was);
      directories := directories[..n];
      dirs := dirs[..n];
    }
    LeftoverOf(fs.tree, target);
  }

  lemma NodeOk(tree: Tree, via: Via, d: Node)
    requires TreeNames(tree) && d in tree && ViaOk(via)
    ensures NodeNames(Named(via, d)) && PathTo(via, d) == PathOf(via.base, Named(via, d))
  {
    hide PathOf, NodeNames, Named;
    NamedOk(via, d);
  }

  /** How many removals have failed. */
  ghost function Failures(fs: FileSystem): nat
    reads fs
  {
    fs.refusals + fs.lostPaths + fs.rmdirsOfNonEmpty + fs.rmdirsOfOthers
  }

  /** No removal has failed since the counters stood as given. */
  ghost predicate NoFailure(fs: FileSystem, refusals: nat, lost: nat, nonEmpty: nat, others: nat)
    reads fs
  {
    fs.refusals == refusals && fs.lostPaths == lost && fs.rmdirsOfNonEmpty == nonEmpty && fs.rmdirsOfOthers == others
  }

  lemma LeftoverOf(tree: Tree, target: Node)
    ensures OnlyDirsLeft(tree, target, []) ==> OnlyDirsLeft(tree, target, [target])
  {
  }

  lemma PopKeeps(dirs: seq<Node>)
    requires dirs != [] && ParentsFirst(dirs) && Distinct(dirs)
    ensures var n := |dirs| - 1;
            ParentsFirst(dirs[..n]) && Distinct(dirs[..n]) && forall d :: d in dirs[..n] ==> d in dirs && d != dirs[n]
  {
  }

  /** Both loops, on a path that leads to the directory `target`. */
  method DeleteRecursively(fs: FileSystem, path: Path, ghost entry: Node, ghost target: Node) returns (success: bool)
    requires fs.Valid() && NodeNames(entry) && Strip(POSIX, path) == PathOf(fs.base, entry)
    requires Follow(fs.tree, entry, fs.maxLinks) == FoundAt(target) && fs.tree[target] == Directory
    modifies fs
    ensures fs.Valid() && OnlyRemoved(fs.tree, old(fs.tree), target)
    ensures success ==> target !in fs.tree
    ensures Failures(fs) == old(Failures(fs)) + if success then 0 else 1
    ensures fs.refusals == old(fs.refusals) && fs.lostPaths == old(fs.lostPaths) ==>
              FilesGone(fs.tree, old(fs.tree), target, fs.unreadable)
    ensures success <==> NoFailure(fs, old(fs.refusals), old(fs.lostPaths), old(fs.rmdirsOfNonEmpty), old(fs.rmdirsOfOthers))
    ensures fs.unlinksOfDirectories == old(fs.unlinksOfDirectories)
    ensures Resolve(old(fs.tree), entry, fs.maxLinks) != Some(target) ==> !success && target in fs.tree
    ensures Resolve(old(fs.tree), entry, fs.maxLinks) == Some(target) ==> fs.rmdirsOfOthers == old(fs.rmdirsOfOthers)
    ensures Firm(old(fs.tree), fs.maxLinks, entry, target) ==> fs.lostPaths == old(fs.lostPaths)
    ensures ReadableBelow(fs.unreadable, target) ==>
              && fs.rmdirsOfNonEmpty == old(fs.rmdirsOfNonEmpty)
              && (fs.refusals == old(fs.refusals) && fs.lostPaths == old(fs.lostPaths) ==>
                    OnlyDirsLeft(fs.tree, target, [target]))
  {
    hide PathOf, PathTo, Strip, NodeNames, IsTree, ParentsFirst, ArePaths, OnlyDirsLeft, Distinct, Follow, Resolve, Firm,
         ReadableBelow, OnlyRemoved, FilesGone, LeftOf;
    ghost var was := fs.tree;
    var directories;
    ghost var dirs;
    success, directories, dirs := UnlinkFiles(fs, path, entry, target);
    if success {
      ghost var mid := fs.tree;
      success := RemoveDirectories(fs, directories, dirs, Via(fs.base, entry, target), was);
      if FilesGone(mid, was, target, fs.unreadable) {
        FilesStayGone(fs.tree, mid, was, target, fs.unreadable);
      }
    }
  }

  /** Every directory at or below `d` can be listed. */
  ghost predicate ReadableBelow(unreadable: set<Node>, d: Node) {
    forall u :: u in unreadable ==> !(d <= u)
  }

  /** Where Delete removes things: in the directory that the path leads to, or what the path names. */
  function Site(tree: Tree, maxLinks: nat, a: Node): Node {
    var f, own := Follow(tree, a, maxLinks), Resolve(tree, a, maxLinks);
    if f.FoundAt? && tree[f.node] == Directory then f.node else if own.Some? then own.value else a
  }

  /** The tree with nothing left below `d`. */
  function Emptied(tree: Tree, d: Node): Tree {
    map r | r in tree && !(d < r) :: tree[r]
  }

  /** Delete on a path that names `a`, whatever is there and whatever links are on the way.  Where stat finds
      nothing, nothing is deleted and that counts as success: a dangling link stays.  A call on a link to a
      directory never succeeds, but a recursive one works on the directory: it empties it, unless it removes one
      of the links it goes through. */
  method Delete(fs: FileSystem, path: Path, recursive: bool, ghost a: Node) returns (success: bool)
    requires fs.Valid() && NodeNames(a) && Strip(POSIX, path) == PathOf(fs.base, a)
    modifies fs
    ensures fs.Valid() && OnlyRemoved(fs.tree, old(fs.tree), Site(old(fs.tree), fs.maxLinks, a))
    ensures var stat := StatOf(old(fs.tree), fs.maxLinks, a, path != PathOf(fs.base, a));
            var own := Resolve(old(fs.tree), a, fs.maxLinks);
            && (!stat.Exists? ==> fs.tree == old(fs.tree) && (success <==> stat.NoEntry?))
            && (stat.Exists? ==>
                  && own.Some?
                  && (success <==> NoFailure(fs, old(fs.refusals), old(fs.lostPaths), old(fs.rmdirsOfNonEmpty),
                                             old(fs.rmdirsOfOthers)))
                  && (success ==> fs.tree == Without(old(fs.tree), own.value))
                  && (success && !recursive ==> IsEmpty(old(fs.tree), own.value)))
            && (success && own.Some? ==> (own.value in fs.tree <==> stat.NoEntry?))
            && Failures(fs) == old(Failures(fs)) + (if stat.Exists? && !success then 1 else 0)
    ensures !recursive && !success ==> fs.tree == old(fs.tree)
    ensures var stat := StatOf(old(fs.tree), fs.maxLinks, a, path != PathOf(fs.base, a));
            var site, own := Site(old(fs.tree), fs.maxLinks, a), Resolve(old(fs.tree), a, fs.maxLinks);
            && (own == Some(site) ==> fs.rmdirsOfOthers == old(fs.rmdirsOfOthers))
            && (|| stat == Exists(false)
                || (stat == Exists(true) && own == Some(site) && !recursive && IsEmpty(old(fs.tree), site)) ==>
                  (success <==> fs.refusals == old(fs.refusals)))
            && (stat == Exists(true) && own == Some(site) && recursive && ReadableBelow(fs.unreadable, site) ==>
                  (success <==> fs.refusals == old(fs.refusals) && fs.lostPaths == old(fs.lostPaths)))
            && (Firm(old(fs.tree), fs.maxLinks, a, site) ==> fs.lostPaths == old(fs.lostPaths))
    ensures fs.unlinksOfDirectories == old(fs.unlinksOfDirectories)
    ensures var site, own := Site(old(fs.tree), fs.maxLinks, a), Resolve(old(fs.tree), a, fs.maxLinks);
            && (own.Some? && own.value != site ==> !success)
            && (recursive && StatOf(old(fs.tree), fs.maxLinks, a, path != PathOf(fs.base, a)) == Exists(true)
                && fs.refusals == old(fs.refusals) && fs.lostPaths == old(fs.lostPaths) ==>
                  FilesGone(fs.tree, old(fs.tree), site, fs.unreadable))
            && (own.Some? && own.value != site && recursive && ReadableBelow(fs.unreadable, site)
                && fs.refusals == old(fs.refusals) && fs.lostPaths == old(fs.lostPaths) ==>
                  fs.tree == Emptied(old(fs.tree), site))
            && (recursive && ReadableBelow(fs.unreadable, site) ==>
                  fs.rmdirsOfNonEmpty == old(fs.rmdirsOfNonEmpty))
  {
    hide PathOf, Strip, NodeNames, IsTree, IsEmpty, Without, Follow, Resolve, OnlyDirsLeft, Emptied, Firm, ReadableBelow, FilesGone;
    ghost var was := fs.tree;
    var stat := fs.Stat(path, a);
    if !stat.Exists? {
      return stat.NoEntry?;
    }
    FollowResolves(was, a, fs.maxLinks);
    ghost var own, site := Resolve(was, a, fs.maxLinks).value, Site(was, fs.maxLinks, a);
    if !stat.isDirectory {
      LeafIsEmpty(fs.tree, own);
      success := fs.Unlink(path, a);
    } else if !recursive {
      success := fs.Rmdir(path, a);
    } else {
      success := DeleteRecursively(fs, path, a, site);
      if own != site {
        OnlyTopLeft(fs.tree, was, site);
      }
    }
    if success {
      TargetGone(fs.tree, was, own);
    }
  }

  /** If everything at or below `d` is gone except `d`, the directory has been emptied. */
  lemma OnlyTopLeft(tree: Tree, was: Tree, d: Node)
    requires OnlyRemoved(tree, was, d) && d in tree
    ensures OnlyDirsLeft(tree, d, [d]) ==> tree == Emptied(was, d)
  {
    if OnlyDirsLeft(tree, d, [d]) {
      forall r | r in was
        ensures r in tree <==> !(d < r)
      {
        assert d <= r && !(d < r) ==> r == d;
        assert r in tree && d <= r ==> r in [d];
      }
    }
  }

  /** What exists and is yet reported as missing, so that Delete succeeds and leaves it: a link that leads
      nowhere, and anything but a directory, or a link to one, if the path has a trailing separator. */
  lemma MissingIff(tree: Tree, maxLinks: nat, a: Node, trailingSeparator: bool)
    requires Resolve(tree, a, maxLinks).Some?
    ensures var own, f := Resolve(tree, a, maxLinks).value, Follow(tree, a, maxLinks);
            StatOf(tree, maxLinks, a, trailingSeparator).NoEntry?
            <==> if tree[own].Link? then f.NotFound? || (trailingSeparator && f.FoundAt? && tree[f.node] != Directory)
                 else trailingSeparator && tree[own] != Directory
  {
    if !tree[Resolve(tree, a, maxLinks).value].Link? {
      NotALink(tree, a, maxLinks);
    }
  }

  /** If what a path names is not a link, the path leads to it. */
  lemma {:induction false} NotALink(tree: Tree, a: Node, limit: nat)
    requires Resolve(tree, a, limit).Some? && !tree[Resolve(tree, a, limit).value].Link?
    ensures Follow(tree, a, limit) == FoundAt(Resolve(tree, a, limit).value)
    decreases limit
  {
    if a !in tree {
      NotALink(tree, Hop(tree, a), limit - 1);
    }
  }

  /** A link to a name that is not there, a link to itself, and a link to a directory. */
  lemma LinkCorners()
    ensures var tree: Tree := map[[] := Directory, ["a"] := Link(["gone"]), ["b"] := Link(["b"]), ["c"] := Link([])];
            && IsTree(tree)
            && StatOf(tree, 40, ["a"], false) == NoEntry
            && StatOf(tree, 40, ["b"], false) == StatResult.Failed
            && StatOf(tree, 40, ["c"], false) == Exists(true) && Site(tree, 40, ["c"]) == []
  {
    var tree: Tree := map[[] := Directory, ["a"] := Link(["gone"]), ["b"] := Link(["b"]), ["c"] := Link([])];
    assert ["a"][0] != ["b"][0] && ["a"][0] != ["c"][0] && ["b"][0] != ["c"][0] && ["gone"][0] != ["a"][0];
    assert ["gone"][0] != ["b"][0] && ["gone"][0] != ["c"][0];
    assert IsTree(tree);
    WholeLink(tree, ["a"]);
    WholeLink(tree, ["b"]);
    WholeLink(tree, ["c"]);
    FollowSelf(tree, ["b"], 40);
    assert LinkAt(tree, ["gone"]) == -1 by {
      assert ["gone"][..0] == [] && ["gone"][..1] == ["gone"];
    }
  }

  /** A way that is not firm: `t` leads to the link `l`, which lies below the directory `d` it leads to.  Once `l` is
      removed, which is a removal below `d`, nothing else in `d` can be reached from `t`. */
  lemma LinkBelowBreaks(tree: Tree, limit: nat, t: Node, l: Node, d: Node, x: Node)
    requires IsTree(tree) && t in tree && tree[t] == Link(l) && l in tree && tree[l] == Link(d) && t != l
    requires d in tree && tree[d] == Directory && d < l && limit >= 2
    requires x != [] && d + x in tree && d + x != l
    ensures Follow(tree, t, limit) == FoundAt(d) && !Firm(tree, limit, t, d)
    ensures Resolve(tree, t + x, limit) == Some(d + x) && d + x in tree - {l}
    ensures Resolve(tree - {l}, t + x, limit) == None
  {
    hide IsTree;
    WholeLink(tree, t);
    WholeLink(tree, l);
    assert l[..|l|] == l;
    assert l in Hops(tree, l, limit - 1);
    assert l in Hops(tree, t, limit);
    assert Follow(tree, d, limit - 2) == FoundAt(d) && Follow(tree, l, limit - 1) == FoundAt(d);
    FollowBelow(tree, t, limit, d, x);
    var less := tree - {l};
    assert IsTree(less) by { RemoveLeaf(tree, l); }
    WholeLink(less, t);
    HopBelow(less, t, x);
    NothingBelowLink(tree, l, x);
  }

  lemma NothingBelowLink(tree: Tree, l: Node, x: Node)
    requires IsTree(tree) && l in tree && tree[l].Link? && x != []
    ensures l + x !in tree && LinkAt(tree - {l}, l + x) == -1
  {
    hide IsTree;
    var a := l + x;
    assert a[..|l|] == l;
    LinkAtIs(tree, a, |l|);
    forall i | 0 <= i < |l|
      ensures !(a[..i] in tree && tree[a[..i]].Link?)
    {
      assert a[..i] == l[..i];
      PrefixInTree(tree, l, i);
    }
  }

  /** The smallest such tree: t -> d/l, d/l -> d, and the file d/z, which stays if it is listed after l. */
  lemma LinkOnTheWay()
    ensures var tree: Tree := map[[] := Directory, ["d"] := Directory, ["d", "l"] := Link(["d"]), ["d", "z"] := File,
                                  ["t"] := Link(["d", "l"])];
            && IsTree(tree)
            && Follow(tree, ["t"], 40) == FoundAt(["d"]) && !Firm(tree, 40, ["t"], ["d"])
            && Resolve(tree, ["t", "z"], 40) == Some(["d", "z"])
            && Resolve(tree - {["d", "l"]}, ["t", "z"], 40) == None
  {
    hide Follow, Resolve, Firm;
    var d, l, z, t: Node := ["d"], ["d", "l"], ["d", "z"], ["t"];
    var tree: Tree := map[[] := Directory, d := Directory, l := Link(d), z := File, t := Link(l)];
    assert l[1] != z[1] && d[0] != t[0];
    assert Parent(l) == d && Parent(z) == d && Parent(d) == [] && Parent(t) == [];
    assert d + ["z"] == z && t + ["z"] == ["t", "z"];
    LinkBelowBreaks(tree, 40, t, l, d, ["z"]);
  }

  /** Following a path that is itself a link. */
  lemma WholeLink(tree: Tree, a: Node)
    requires a in tree && tree[a].Link?
    ensures LinkAt(tree, a) == |a| && Hop(tree, a) == tree[a].to
  {
    assert a[..|a|] == a && a[|a|..] == [];
  }

  lemma {:induction false} FollowSelf(tree: Tree, r: Node, limit: nat)
    requires r in tree && tree[r] == Link(r)
    ensures Follow(tree, r, limit) == TooManyLinks
    decreases limit
  {
    WholeLink(tree, r);
    if limit > 0 {
      FollowSelf(tree, r, limit - 1);
    }
  }

  lemma LeafIsEmpty(tree: Tree, target: Node)
    requires IsTree(tree) && target in tree && tree[target] != Directory
    ensures IsEmpty(tree, target)
  {
    forall r | r in tree
      ensures !(target < r)
    {
      if |target| < |r| {
        PrefixInTree(tree, r, |target|);
        assert r[..|target|] != target;
      }
    }
  }
}
