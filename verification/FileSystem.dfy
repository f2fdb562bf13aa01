/**
 A file system as the traversal sees it: paths are strings, directories are
 listed in any order, and any removal may be refused.
 */
module FileSystem {
  import opened Common
  import opened FilePath
  import opened FilePathComponents
  import opened FileTree

  // ---------------------------------------------------------------------------
  // Nodes as path strings
  // ---------------------------------------------------------------------------

  predicate IsDotName(name: string) {
    name == CURRENT_DIRECTORY || name == PARENT_DIRECTORY
  }

  /** A name a directory entry can have. */
  predicate EntryName(name: string) {
    IsName(POSIX, name) && name != "." && name != ".."
  }

  predicate NodeNames(r: Node) {
    forall i :: 0 <= i < |r| ==> EntryName(r[i])
  }

  predicate TreeNames(tree: Tree) {
    forall r :: r in tree ==> NodeNames(r)
  }

  /** The path of a node: its names appended one by one to the stripped base. */
  function PathOf(base: Path, r: Node): Path {
    if r == [] then Strip(POSIX, base) else Append(POSIX, PathOf(base, Parent(r)), r[|r| - 1])
  }

  lemma {:induction false} PathShape(base: Path, r: Node)
    requires base != [] && NodeNames(r)
    ensures PathOf(base, r) != [] && Strip(POSIX, PathOf(base, r)) == PathOf(base, r)
    ensures Components(POSIX, PathOf(base, r)) == Components(POSIX, Strip(POSIX, base)) + r
  {
    hide Strip, Append, Components;
    if r == [] {
      StripFixed(POSIX, base);
      StripShape(POSIX, base);
    } else {
      var d, b := PathOf(base, Parent(r)), r[|r| - 1];
      PathShape(base, Parent(r));
      assert EntryName(b);
      ComponentsOfAppend(POSIX, d, b);
      assert r == Parent(r) + [b];
      AppendIsPath(d, b);
    }
  }

  lemma AppendIsPath(d: Path, b: Path)
    requires d != [] && IsName(POSIX, b)
    ensures Append(POSIX, d, b) != [] && Strip(POSIX, Append(POSIX, d, b)) == Append(POSIX, d, b)
  {
    if d == CURRENT_DIRECTORY {
      NameIsStripped(POSIX, b);
    } else {
      JoinShape(POSIX, d, b);
    }
  }

  /** Different nodes have different paths. */
  lemma PathsUnique(base: Path, r1: Node, r2: Node)
    requires base != [] && NodeNames(r1) && NodeNames(r2) && PathOf(base, r1) == PathOf(base, r2)
    ensures r1 == r2
  {
    hide Strip, Append, Components, PathOf;
    PathShape(base, r1);
    PathShape(base, r2);
    var front := Components(POSIX, Strip(POSIX, base));
    assert r1 == (front + r1)[|front|..] == (front + r2)[|front|..] == r2;
  }

  lemma PathOfChild(base: Path, d: Node, name: string)
    ensures PathOf(base, d + [name]) == Append(POSIX, PathOf(base, d), name)
  {
    assert Parent(d + [name]) == d;
  }

  /** The node a path names, by its components. */
  function NodeAt(base: Path, path: Path): Node {
    var front, all := Components(POSIX, Strip(POSIX, base)), Components(POSIX, Strip(POSIX, path));
    if |front| <= |all| then all[|front|..] else []
  }

  lemma NodeAtPath(base: Path, path: Path, a: Node)
    requires base != [] && NodeNames(a) && Strip(POSIX, path) == PathOf(base, a)
    ensures NodeAt(base, path) == a
  {
    hide Strip, Components, PathOf, NodeNames;
    PathShape(base, a);
  }

  /** How a directory is reached: `entry` is the node its path names, `top` the directory the path
      leads to.  They differ if there is a link on the way. */
  datatype Via = Via(base: Path, entry: Node, top: Node)

  ghost predicate ViaOk(via: Via) {
    via.base != [] && NodeNames(via.entry)
  }

  /** The node that the path of `r` names, when it is reached from the entry. */
  function Named(via: Via, r: Node): Node {
    if via.top <= r then via.entry + r[|via.top|..] else []
  }

  function PathTo(via: Via, r: Node): Path {
    PathOf(via.base, Named(via, r))
  }

  lemma NamedOk(via: Via, r: Node)
    requires ViaOk(via) && NodeNames(r)
    ensures NodeNames(Named(via, r))
  {
    hide EntryName;
  }

  lemma PathToShape(via: Via, r: Node)
    requires ViaOk(via) && NodeNames(r)
    ensures PathTo(via, r) != [] && Strip(POSIX, PathTo(via, r)) == PathTo(via, r)
  {
    hide Strip, PathOf, NodeNames, Named;
    NamedOk(via, r);
    PathShape(via.base, Named(via, r));
  }

  lemma PathToChild(via: Via, d: Node, name: string)
    requires via.top <= d
    ensures PathTo(via, d + [name]) == Append(POSIX, PathTo(via, d), name)
  {
    hide PathOf, Append;
    assert (d + [name])[|via.top|..] == d[|via.top|..] + [name];
    assert Named(via, d + [name]) == Named(via, d) + [name];
    PathOfChild(via.base, Named(via, d), name);
  }

  lemma PathToNamed(via: Via, r: Node)
    ensures PathTo(via, r) == PathOf(via.base, Named(via, r))
  {
  }

  lemma PathToTop(via: Via)
    ensures PathTo(via, via.top) == PathOf(via.base, via.entry)
  {
    assert Named(via, via.top) == via.entry;
  }

  /** Different nodes are reached by different paths. */
  lemma PathsToUnique(via: Via, r1: Node, r2: Node)
    requires ViaOk(via) && NodeNames(r1) && NodeNames(r2) && via.top <= r1 && via.top <= r2
    requires PathTo(via, r1) == PathTo(via, r2)
    ensures r1 == r2
  {
    hide PathOf, NodeNames;
    NamedOk(via, r1);
    NamedOk(via, r2);
    PathsUnique(via.base, Named(via, r1), Named(via, r2));
    assert r1[|via.top|..] == (via.entry + r1[|via.top|..])[|via.entry|..];
    assert r2[|via.top|..] == (via.entry + r2[|via.top|..])[|via.entry|..];
    assert r1 == via.top + r1[|via.top|..] && r2 == via.top + r2[|via.top|..];
  }

  // ---------------------------------------------------------------------------
  // Directory listings
  // ---------------------------------------------------------------------------

  datatype DirEntry = DirEntry(filename: Path, isDirectory: bool)

  /** The nodes of the entries of `d`, leaving out "." and "..". */
  function KidsOf(d: Node, entries: seq<DirEntry>): seq<Node> {
    if entries == [] then []
    else
      var n := |entries| - 1;
      var front := KidsOf(d, entries[..n]);
      if IsDotName(entries[n].filename) then front else front + [d + [entries[n].filename]]
  }

  predicate EntryOk(tree: Tree, d: Node, e: DirEntry) {
    IsDotName(e.filename)
    || (d + [e.filename] in tree && (e.isDirectory <==> tree[d + [e.filename]] == Directory))
  }

  /** What readdir and lstat say about directory `d`: its entries, each once and in
      any order, with "." and ".." anywhere among them. */
  ghost predicate Lists(tree: Tree, d: Node, entries: seq<DirEntry>) {
    && (forall i :: 0 <= i < |entries| ==> EntryOk(tree, d, entries[i]))
    && IsListing(tree, d, KidsOf(d, entries))
  }

  // ---------------------------------------------------------------------------
  // What stat says
  // ---------------------------------------------------------------------------

  /** NoEntry stands for ENOENT and ENOTDIR, which Delete treats alike; Failed for any other error. */
  datatype StatResult = Exists(isDirectory: bool) | NoEntry | Failed

  /** stat on a path that names `a`.  A path with a trailing separator leads only to directories. */
  function StatOf(tree: Tree, maxLinks: nat, a: Node, trailingSeparator: bool): StatResult {
    match Follow(tree, a, maxLinks)
    case NotFound => NoEntry
    case TooManyLinks => Failed
    case FoundAt(n) =>
      if tree[n] == Directory then Exists(true) else if trailingSeparator then NoEntry else Exists(false)
  }

  class FileSystem {
    const base: Path
    const maxLinks: nat
    const unreadable: set<Node>
    var tree: Tree
    /** How often rmdir was called on a directory that was not empty. */
    ghost var rmdirsOfNonEmpty: nat
    /** How often rmdir was called on something that is not itself a directory. */
    ghost var rmdirsOfOthers: nat
    /** How often unlink was called on a directory. */
    ghost var unlinksOfDirectories: nat
    /** How often something was to be removed under a path that led nowhere. */
    ghost var lostPaths: nat
    /** How often a removal that could have been done was refused. */
    ghost var refusals: nat

    ghost predicate Valid()
      reads this
    {
      base != [] && IsTree(tree) && TreeNames(tree)
    }

    constructor (base: Path, maxLinks: nat, unreadable: set<Node>, tree: Tree)
      requires base != [] && IsTree(tree) && TreeNames(tree)
      ensures Valid() && this.base == base && this.maxLinks == maxLinks
      ensures this.unreadable == unreadable && this.tree == tree
      ensures rmdirsOfNonEmpty == rmdirsOfOthers == unlinksOfDirectories == lostPaths == refusals == 0
    {
      this.base, this.maxLinks, this.unreadable, this.tree := base, maxLinks, unreadable, tree;
      rmdirsOfNonEmpty, rmdirsOfOthers, unlinksOfDirectories, lostPaths, refusals := 0, 0, 0, 0, 0;
    }

    /** stat: links are followed. */
    method Stat(path: Path, ghost a: Node) returns (result: StatResult)
      requires Valid() && NodeNames(a) && Strip(POSIX, path) == PathOf(base, a)
      ensures result == StatOf(tree, maxLinks, a, path != PathOf(base, a))
    {
      hide PathOf, Strip, IsTree, NodeNames, NodeAt, Follow;
      NodeAtPath(base, path, a);
      result := StatOf(tree, maxLinks, NodeAt(base, path), path != Strip(POSIX, path));
    }

    /** opendir, which follows links, then readdir and lstat. */
    method ReadDirectory(path: Path, ghost a: Node) returns (ok: bool, entries: seq<DirEntry>)
      requires Valid() && NodeNames(a) && path == PathOf(base, a)
      ensures var f := Follow(tree, a, maxLinks);
              ok <==> f.FoundAt? && tree[f.node] == Directory && f.node !in unreadable
      ensures ok ==> Lists(tree, Follow(tree, a, maxLinks).node, entries)
    {
      hide PathOf, EntryName, IsTree, NodeAt, Strip, Follow, KidsOf, IsDotName;
      PathShape(base, a);
      NodeAtPath(base, path, a);
      var f := Follow(tree, NodeAt(base, path), maxLinks);
      if !f.FoundAt? || tree[f.node] != Directory || f.node in unreadable {
        return false, [];
      }
      var d := f.node;
      ok, entries := true, [DirEntry(CURRENT_DIRECTORY, true), DirEntry(PARENT_DIRECTORY, true)];
      DotsOnly(tree, d);
      var rest := set r | r in tree && IsChild(r, d);
      ghost var all := rest;
      while rest != {}
        invariant rest <= all
        invariant forall i :: 0 <= i < |entries| ==> EntryOk(tree, d, entries[i])
        invariant Distinct(KidsOf(d, entries))
        invariant forall r :: r in KidsOf(d, entries) <==> r in all && r !in rest
        decreases |rest|
      {
        var r :| r in rest;
        var e := DirEntry(r[|r| - 1], tree[r] == Directory);
        assert d + [e.filename] == r;
        assert EntryName(r[|r| - 1]) && !IsDotName(e.filename) by { NamesOfNode(tree, r); }
        KidsPush(d, entries, e);
        entries := entries + [e];
        rest := rest - {r};
      }
    }

    /** unlink: it fails on a directory and on a path that leads nowhere, and may be refused. */
    method Unlink(path: Path, ghost a: Node) returns (ok: bool)
      requires Valid() && NodeNames(a) && path == PathOf(base, a)
      modifies this`tree, this`unlinksOfDirectories, this`lostPaths, this`refusals
      ensures Valid()
      ensures var here := Resolve(old(tree), a, maxLinks);
              var directory := here.Some? && old(tree)[here.value] == Directory;
              && (ok ==> here.Some? && !directory && tree == old(tree) - {here.value})
              && (!ok ==> tree == old(tree))
              && lostPaths == old(lostPaths) + (if here.None? then 1 else 0)
              && unlinksOfDirectories == old(unlinksOfDirectories) + (if directory then 1 else 0)
              && refusals == old(refusals) + (if here.None? || directory || ok then 0 else 1)
    {
      hide PathOf, EntryName, IsTree, NodeNames, NodeAt, Strip, Resolve;
      PathShape(base, a);
      NodeAtPath(base, path, a);
      var here := Resolve(tree, NodeAt(base, path), maxLinks);
      if here.None? {
        lostPaths := lostPaths + 1;
        return false;
      }
      if tree[here.value] == Directory {
        unlinksOfDirectories := unlinksOfDirectories + 1;
        return false;
      }
      ok := *;
      if ok {
        RemoveLeaf(tree, here.value);
        tree := tree - {here.value};
      } else {
        refusals := refusals + 1;
      }
    }

    /** rmdir: it fails on anything but an empty directory, a link to one included, and may be refused. */
    method Rmdir(path: Path, ghost a: Node) returns (ok: bool)
      requires Valid() && NodeNames(a) && Strip(POSIX, path) == PathOf(base, a)
      modifies this`tree, this`rmdirsOfNonEmpty, this`rmdirsOfOthers, this`lostPaths, this`refusals
      ensures Valid()
      ensures var was, here := old(tree), Resolve(old(tree), a, maxLinks);
              var other := here.Some? && was[here.value] != Directory;
              var full := here.Some? && was[here.value] == Directory && !IsEmpty(was, here.value);
              && (ok ==> here.Some? && !other && !full && tree == was - {here.value})
              && (!ok ==> tree == was)
              && lostPaths == old(lostPaths) + (if here.None? then 1 else 0)
              && rmdirsOfOthers == old(rmdirsOfOthers) + (if other then 1 else 0)
              && rmdirsOfNonEmpty == old(rmdirsOfNonEmpty) + (if full then 1 else 0)
              && refusals == old(refusals) + (if here.None? || other || full || ok then 0 else 1)
    {
      hide PathOf, EntryName, Strip, IsTree, IsEmpty, NodeNames, NodeAt, Resolve;
      NodeAtPath(base, path, a);
      var here := Resolve(tree, NodeAt(base, path), maxLinks);
      if here.None? {
        lostPaths := lostPaths + 1;
        return false;
      }
      if tree[here.value] != Directory {
        rmdirsOfOthers := rmdirsOfOthers + 1;
        return false;
      }
      if !IsEmpty(tree, here.value) {
        rmdirsOfNonEmpty := rmdirsOfNonEmpty + 1;
        return false;
      }
      ok := *;
      if ok {
        RemoveLeaf(tree, here.value);
        tree := tree - {here.value};
      } else {
        refusals := refusals + 1;
      }
    }
  }

  lemma DotsOnly(tree: Tree, d: Node)
    ensures var dots := [DirEntry(CURRENT_DIRECTORY, true), DirEntry(PARENT_DIRECTORY, true)];
            KidsOf(d, dots) == [] && forall i :: 0 <= i < |dots| ==> EntryOk(tree, d, dots[i])
  {
    var dots := [DirEntry(CURRENT_DIRECTORY, true), DirEntry(PARENT_DIRECTORY, true)];
    assert KidsOf(d, dots[..1]) == KidsOf(d, []) by { assert dots[..1][..0] == []; }
  }

  lemma RemoveLeaf(tree: Tree, d: Node)
    requires IsTree(tree) && (IsEmpty(tree, d) || (d in tree && tree[d] != Directory))
    ensures IsTree(tree - {d})
  {
    forall r | r in tree && r != [] && r != d
      ensures Parent(r) != d
    {
      assert Parent(r) < r;
    }
  }

  lemma NamesOfNode(tree: Tree, r: Node)
    requires TreeNames(tree) && r in tree && r != []
    ensures EntryName(r[|r| - 1]) && !IsDotName(r[|r| - 1])
  {
    assert NodeNames(r);
  }

  lemma KidsPush(d: Node, entries: seq<DirEntry>, e: DirEntry)
    ensures KidsOf(d, entries + [e])
            == if IsDotName(e.filename) then KidsOf(d, entries) else KidsOf(d, entries) + [d + [e.filename]]
  {
    assert (entries + [e])[..|entries|] == entries;
  }

  /** The part of the tree at and below each of the given nodes is as it was. */
  ghost predicate Intact(tree: Tree, was: Tree, nodes: seq<Node>) {
    forall k :: 0 <= k < |nodes| ==> SameBelow(tree, was, nodes[k])
  }

  ghost predicate SameBelow(tree: Tree, was: Tree, d: Node) {
    forall r :: d <= r ==> (r in tree <==> r in was) && (r in tree ==> tree[r] == was[r])
  }

  lemma ListsAsBefore(tree: Tree, was: Tree, d: Node, entries: seq<DirEntry>)
    requires SameBelow(tree, was, d) && Lists(tree, d, entries)
    ensures Lists(was, d, entries)
  {
    hide KidsOf;
    forall r | IsChild(r, d)
      ensures d <= r
    {
      assert r == d + [r[|r| - 1]];
    }
    forall i | 0 <= i < |entries|
      ensures EntryOk(was, d, entries[i])
    {
      assert EntryOk(tree, d, entries[i]);
      assert d <= d + [entries[i].filename];
    }
  }

  lemma IntactBelow(tree: Tree, was: Tree, d: Node, nodes: seq<Node>)
    requires SameBelow(tree, was, d) && forall x :: x in nodes ==> d <= x
    ensures Intact(tree, was, nodes)
  {
    forall k | 0 <= k < |nodes|
      ensures SameBelow(tree, was, nodes[k])
    {
      assert nodes[k] in nodes;
    }
  }
}
