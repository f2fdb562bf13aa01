/**
 A directory tree and its traversal, as values.

 A node is named by the list of names that leads to it.  The traversal keeps a
 stack of directories still to open and the entries of the directory it has
 opened last; `EmitKeeps` and `OpenKeeps` show that whatever order a directory is
 listed in, every wanted entry comes out exactly once, and the entries of a
 directory come out before anything below its subdirectories.
 */
module FileTree {
  import opened Common

  type Node = seq<string>

  /** What lstat says: a symbolic link is a link, whatever it leads to.  `to` is the node its text names. */
  datatype Kind = Directory | File | Link(to: Node)

  type Tree = map<Node, Kind>

  function Parent(r: Node): Node
    requires r != []
  {
    r[..|r| - 1]
  }

  predicate IsChild(r: Node, d: Node) {
    r != [] && Parent(r) == d
  }

  /** A node other than the top has its parent in the tree, and the parent is a directory. */
  predicate IsTree(tree: Tree) {
    forall r :: r in tree && r != [] ==> Parent(r) in tree && tree[Parent(r)] == Directory
  }

  lemma {:induction false} PrefixInTree(tree: Tree, r: Node, n: nat)
    requires IsTree(tree) && r in tree && n < |r|
    ensures r[..n] in tree && tree[r[..n]] == Directory
    decreases |r|
  {
    if n < |r| - 1 {
      PrefixInTree(tree, Parent(r), n);
      assert Parent(r)[..n] == r[..n];
    }
  }

  lemma PrefixOfChild(a: Node, r: Node, d: Node)
    requires IsChild(r, d)
    ensures a < r <==> a <= d
  {
    assert r == d + [r[|r| - 1]];
  }

  // ---------------------------------------------------------------------------
  // Symbolic links
  // ---------------------------------------------------------------------------

  /** The length of the longest prefix of `a`, up to n names, that is a link; -1 if none is. */
  function LinkUpTo(tree: Tree, a: Node, n: nat): (k: int)
    requires n <= |a|
    ensures -1 <= k <= n
    ensures k >= 0 ==> a[..k] in tree && tree[a[..k]].Link?
    ensures forall i :: k < i <= n ==> !(a[..i] in tree && tree[a[..i]].Link?)
  {
    if a[..n] in tree && tree[a[..n]].Link? then n
    else if n == 0 then -1
    else LinkUpTo(tree, a, n - 1)
  }

  function LinkAt(tree: Tree, a: Node): (k: int)
    ensures -1 <= k <= |a|
    ensures k >= 0 ==> a[..k] in tree && tree[a[..k]].Link?
    ensures forall i :: k < i <= |a| ==> !(a[..i] in tree && tree[a[..i]].Link?)
  {
    LinkUpTo(tree, a, |a|)
  }

  /** Where following the link in `a` leads. */
  function Hop(tree: Tree, a: Node): Node
    requires LinkAt(tree, a) >= 0
  {
    var k := LinkAt(tree, a);
    tree[a[..k]].to + a[k..]
  }

  datatype Followed = FoundAt(node: Node) | NotFound | TooManyLinks

  /** What stat and opendir find: links are followed, at most `limit` of them. */
  function Follow(tree: Tree, a: Node, limit: nat): (f: Followed)
    ensures f.FoundAt? ==> f.node in tree && !tree[f.node].Link?
    decreases limit
  {
    if a in tree && !tree[a].Link? then FoundAt(a)
    else if LinkAt(tree, a) < 0 then NotFound
    else if limit == 0 then TooManyLinks
    else Follow(tree, Hop(tree, a), limit - 1)
  }

  /** What lstat, unlink and rmdir find: the last name is not followed if it is a link. */
  function Resolve(tree: Tree, a: Node, limit: nat): (f: Option<Node>)
    ensures f.Some? ==> f.value in tree
    decreases limit
  {
    if a in tree then Some(a)
    else if LinkAt(tree, a) < 0 || limit == 0 then None
    else Resolve(tree, Hop(tree, a), limit - 1)
  }

  /** The links that are followed on the way from `a`. */
  function Hops(tree: Tree, a: Node, limit: nat): (links: set<Node>)
    ensures forall l :: l in links ==> l in tree && tree[l].Link?
    decreases limit
  {
    if LinkAt(tree, a) < 0 then {}
    else {a[..LinkAt(tree, a)]} + if limit == 0 then {} else Hops(tree, Hop(tree, a), limit - 1)
  }

  /** Nothing lies below a link, so a path contains at most one. */
  lemma LinkAtIs(tree: Tree, a: Node, k: nat)
    requires IsTree(tree) && k <= |a| && a[..k] in tree && tree[a[..k]].Link?
    ensures LinkAt(tree, a) == k && (k < |a| ==> a !in tree)
  {
    hide IsTree;
    forall i | k < i <= |a|
      ensures a[..i] !in tree
    {
      BelowDirectoryOnly(tree, a[..i], k);
      assert a[..i][..k] == a[..k];
    }
    assert a[..|a|] == a;
  }

  lemma BelowDirectoryOnly(tree: Tree, r: Node, k: nat)
    requires IsTree(tree) && k < |r|
    ensures r in tree ==> r[..k] in tree && tree[r[..k]] == Directory
  {
    if r in tree {
      PrefixInTree(tree, r, k);
    }
  }

  /** A path without links on its way to an existing node. */
  lemma NoLinkAbove(tree: Tree, a: Node)
    requires IsTree(tree) && a in tree
    ensures LinkAt(tree, a) == if tree[a].Link? then |a| else -1
  {
    hide IsTree;
    assert a[..|a|] == a;
    forall k | 0 <= k < |a|
      ensures a[..k] in tree && !tree[a[..k]].Link?
    {
      PrefixInTree(tree, a, k);
    }
  }

  lemma HopBelow(tree: Tree, a: Node, rest: Node)
    requires IsTree(tree) && LinkAt(tree, a) >= 0
    ensures LinkAt(tree, a + rest) == LinkAt(tree, a) && Hop(tree, a + rest) == Hop(tree, a) + rest
    ensures rest != [] ==> a + rest !in tree
  {
    hide IsTree;
    var k := LinkAt(tree, a);
    assert (a + rest)[..k] == a[..k] && (a + rest)[k..] == a[k..] + rest;
    LinkAtIs(tree, a + rest, k);
  }

  /** If `a` leads to `top`, then `a` followed by names leads to `top` followed by them. */
  lemma {:induction false} FollowBelow(tree: Tree, a: Node, limit: nat, top: Node, rest: Node)
    requires IsTree(tree) && Follow(tree, a, limit) == FoundAt(top) && rest != [] && top + rest in tree
    ensures Resolve(tree, a + rest, limit) == Some(top + rest)
    ensures !tree[top + rest].Link? ==> Follow(tree, a + rest, limit) == FoundAt(top + rest)
    decreases limit
  {
    hide IsTree;
    if !(a in tree && !tree[a].Link?) {
      HopBelow(tree, a, rest);
      FollowBelow(tree, Hop(tree, a), limit - 1, top, rest);
    }
  }

  /** What stat finds, lstat finds as well: the same node, or a link that leads there. */
  lemma {:induction false} FollowResolves(tree: Tree, a: Node, limit: nat)
    requires Follow(tree, a, limit).FoundAt?
    ensures Resolve(tree, a, limit).Some?
    ensures var r, n := Resolve(tree, a, limit).value, Follow(tree, a, limit).node;
            r == n || (tree[r].Link? && r in Hops(tree, a, limit))
    decreases limit
  {
    if a in tree && tree[a].Link? {
      assert a[..|a|] == a;
      assert LinkAt(tree, a) == |a|;
    } else if a !in tree {
      FollowResolves(tree, Hop(tree, a), limit - 1);
    }
  }

  /** `tree` is what is left of `was`. */
  ghost predicate LeftOf(tree: Tree, was: Tree) {
    forall r :: r in tree ==> r in was && tree[r] == was[r]
  }

  /** Removing nodes never makes a path lead elsewhere: it leads where it did, or nowhere. */
  lemma {:induction false} LeadsThereOrNowhere(tree: Tree, was: Tree, a: Node, limit: nat)
    requires IsTree(tree) && IsTree(was) && LeftOf(tree, was)
    ensures Follow(was, a, limit).FoundAt? ==>
              Follow(tree, a, limit) == Follow(was, a, limit) || Follow(tree, a, limit).NotFound?
    ensures Resolve(was, a, limit).Some? ==>
              Resolve(tree, a, limit) == Resolve(was, a, limit) || Resolve(tree, a, limit).None?
    decreases limit
  {
    hide IsTree;
    LinkLeft(tree, was, a);
    assert a[..|a|] == a;
    if a in was {
      NoLinkAbove(was, a);
    }
    if LinkAt(tree, a) >= 0 && limit > 0 {
      LeadsThereOrNowhere(tree, was, Hop(tree, a), limit - 1);
    }
  }

  lemma LinkLeft(tree: Tree, was: Tree, a: Node)
    requires IsTree(tree) && IsTree(was) && LeftOf(tree, was)
    ensures LinkAt(tree, a) == -1 || (LinkAt(tree, a) == LinkAt(was, a) && Hop(tree, a) == Hop(was, a))
    ensures LinkAt(was, a) >= 0 && a[..LinkAt(was, a)] in tree ==> LinkAt(tree, a) == LinkAt(was, a)
  {
    hide IsTree;
    if LinkAt(tree, a) >= 0 {
      LinkAtIs(was, a, LinkAt(tree, a));
    }
    if LinkAt(was, a) >= 0 && a[..LinkAt(was, a)] in tree {
      LinkAtIs(tree, a, LinkAt(was, a));
    }
  }

  /** A path that leads nowhere still does after removals. */
  lemma {:induction false} NowhereStays(tree: Tree, was: Tree, a: Node, limit: nat)
    requires IsTree(tree) && IsTree(was) && LeftOf(tree, was) && Follow(was, a, limit).NotFound?
    ensures Follow(tree, a, limit).NotFound?
    decreases limit
  {
    hide IsTree;
    LinkLeft(tree, was, a);
    if LinkAt(tree, a) >= 0 {
      NowhereStays(tree, was, Hop(tree, a), limit - 1);
    }
  }

  /** Below a path that leads nowhere there is nothing. */
  lemma {:induction false} NowhereBelow(tree: Tree, a: Node, limit: nat, rest: Node)
    requires IsTree(tree) && Follow(tree, a, limit).NotFound? && rest != []
    ensures Resolve(tree, a + rest, limit).None?
    decreases limit
  {
    hide IsTree;
    var b := a + rest;
    assert b[..|a|] == a;
    BelowDirectoryOnly(tree, b, |a|);
    if LinkAt(tree, a) >= 0 {
      HopBelow(tree, a, rest);
      NowhereBelow(tree, Hop(tree, a), limit - 1, rest);
    } else {
      forall i | 0 <= i <= |b|
        ensures !(b[..i] in tree && tree[b[..i]].Link?)
      {
        if i <= |a| {
          assert b[..i] == a[..i];
        } else {
          BelowDirectoryOnly(tree, b[..i], |a|);
          assert b[..i][..|a|] == a;
        }
      }
    }
  }

  /** A path still leads where it did if the links on the way and the node are still there. */
  lemma {:induction false} StillLeads(tree: Tree, was: Tree, a: Node, limit: nat)
    requires IsTree(tree) && IsTree(was) && LeftOf(tree, was)
    requires var f := Follow(was, a, limit); f.FoundAt? && f.node in tree
    requires Hops(was, a, limit) <= tree.Keys
    ensures Follow(tree, a, limit) == Follow(was, a, limit)
    decreases limit
  {
    hide IsTree;
    if a in was && !was[a].Link? {
    } else {
      LinkLeft(tree, was, a);
      StillLeads(tree, was, Hop(was, a), limit - 1);
    }
  }

  // ---------------------------------------------------------------------------
  // The traversal
  // ---------------------------------------------------------------------------

  /** What is asked for: everything below `target`, files, directories or both;
      directories in `unreadable` cannot be listed. */
  datatype Query = Query(tree: Tree, target: Node, files: bool, directories: bool, unreadable: set<Node>)

  predicate Wanted(q: Query, kind: Kind) {
    if kind == Directory then q.directories else q.files
  }

  /** The directory opened last, its entries still to come, the stack of directories
      to open (top last), and what has come out. */
  datatype Traversal = Traversal(dir: Node, queue: seq<Node>, pending: seq<Node>, emitted: seq<Node>)

  /** Every directory from the target down to `r` can be listed. */
  predicate Reachable(q: Query, r: Node) {
    forall n :: |q.target| <= n < |r| ==> r[..n] !in q.unreadable
  }

  /** Everything wanted that is not hidden below an unreadable directory. */
  predicate Due(q: Query, r: Node) {
    r in q.tree && q.target < r && Wanted(q, q.tree[r]) && Reachable(q, r)
  }

  lemma ReachableChild(q: Query, r: Node, d: Node)
    requires IsChild(r, d) && Reachable(q, d) && d !in q.unreadable
    ensures Reachable(q, r)
  {
    forall n | |q.target| <= n < |r|
      ensures r[..n] !in q.unreadable
    {
      assert n <= |d| && r[..n] == d[..n];
      assert n == |d| ==> d[..n] == d;
    }
  }

  predicate BelowPending(tr: Traversal, r: Node) {
    exists k :: 0 <= k < |tr.pending| && tr.pending[k] < r
  }

  /** The stack holds directories of the target, none above another, and none above the
      opened directory while that still has entries to come. */
  ghost predicate PendingOk(q: Query, tr: Traversal) {
    && (forall k :: 0 <= k < |tr.pending| ==>
          tr.pending[k] in q.tree && q.tree[tr.pending[k]] == Directory && q.target <= tr.pending[k]
          && Reachable(q, tr.pending[k]))
    && (tr.queue != [] ==> q.target <= tr.dir && forall k :: 0 <= k < |tr.pending| ==> !(tr.pending[k] <= tr.dir))
    && (forall i, j :: 0 <= i < |tr.pending| && 0 <= j < |tr.pending| && i != j ==> !(tr.pending[i] <= tr.pending[j]))
  }

  ghost predicate QueueOk(q: Query, tr: Traversal) {
    && Distinct(tr.queue)
    && forall x :: x in tr.queue ==> x in q.tree && IsChild(x, tr.dir) && Wanted(q, q.tree[x]) && Reachable(q, x)
  }

  ghost predicate EmittedOk(q: Query, tr: Traversal) {
    && Distinct(tr.emitted)
    && forall x :: x in tr.emitted ==>
         && Due(q, x)
         && x !in tr.queue && !BelowPending(tr, x)
  }

  /** Nothing that is due has been passed over. */
  ghost predicate Covered(q: Query, tr: Traversal) {
    forall r :: Due(q, r) ==> r in tr.emitted || r in tr.queue || BelowPending(tr, r)
  }

  /** `y` lies in a subdirectory of the directory that holds `x`. */
  predicate Deeper(y: Node, x: Node) {
    x != [] && y != [] && Parent(x) < Parent(y)
  }

  /** Nothing from a subdirectory comes before an entry of the directory itself. */
  predicate InOrder(emitted: seq<Node>) {
    forall i, j :: 0 <= i < j < |emitted| ==> !Deeper(emitted[i], emitted[j])
  }

  ghost predicate OrderOk(tr: Traversal) {
    && InOrder(tr.emitted)
    && (tr.queue != [] ==> forall x :: x in tr.emitted ==> x != [] && !(tr.dir < Parent(x)))
  }

  /** If directories are wanted, those on the stack have come out or are about to, except the target. */
  ghost predicate StackSeen(q: Query, tr: Traversal) {
    q.directories ==> forall k :: 0 <= k < |tr.pending| ==>
      tr.pending[k] == q.target || tr.pending[k] in tr.queue || tr.pending[k] in tr.emitted
  }

  ghost predicate Inv(q: Query, tr: Traversal) {
    && IsTree(q.tree)
    && PendingOk(q, tr)
    && QueueOk(q, tr)
    && EmittedOk(q, tr)
    && OrderOk(tr)
    && StackSeen(q, tr)
  }

  /** Before the first call: the target is on the stack and nothing has come out. */
  function Start(q: Query): Traversal {
    Traversal([], [], [q.target], [])
  }

  // Emitting an entry ------------------------------------------------------------

  function Emit(tr: Traversal): Traversal
    requires tr.queue != []
  {
    tr.(queue := tr.queue[1..], emitted := tr.emitted + [tr.queue[0]])
  }

  lemma EmitKeeps(q: Query, tr: Traversal)
    requires Inv(q, tr) && tr.queue != []
    ensures Inv(q, Emit(tr)) && (Covered(q, tr) ==> Covered(q, Emit(tr)))
  {
    var tr', x := Emit(tr), tr.queue[0];
    assert x in tr.queue;
    assert tr.queue == [x] + tr.queue[1..];
    assert x !in tr'.queue;
    forall k | 0 <= k < |tr.pending|
      ensures !(tr.pending[k] < x)
    {
      PrefixOfChild(tr.pending[k], x, tr.dir);
    }
    PrefixOfChild(q.target, x, tr.dir);
    EmitEmitted(q, tr);
    EmitOrder(tr);
    if Covered(q, tr) {
      forall r | Due(q, r)
        ensures r in tr'.emitted || r in tr'.queue || BelowPending(tr', r)
      {
        if BelowPending(tr, r) {
          assert BelowPending(tr', r);
        }
      }
    }
  }

  lemma EmitEmitted(q: Query, tr: Traversal)
    requires EmittedOk(q, tr) && QueueOk(q, tr) && tr.queue != []
    requires q.target < tr.queue[0] && !BelowPending(tr, tr.queue[0])
    ensures EmittedOk(q, Emit(tr))
  {
    var tr', x := Emit(tr), tr.queue[0];
    assert x in tr.queue;
    forall y | y in tr'.emitted
      ensures Due(q, y) && y !in tr'.queue && !BelowPending(tr', y)
    {
      assert y == x || y in tr.emitted;
      assert BelowPending(tr', y) ==> BelowPending(tr, y);
    }
  }

  lemma EmitOrder(tr: Traversal)
    requires OrderOk(tr) && tr.queue != [] && IsChild(tr.queue[0], tr.dir)
    ensures OrderOk(Emit(tr))
  {
    var tr', x := Emit(tr), tr.queue[0];
    forall i, j | 0 <= i < j < |tr'.emitted|
      ensures !Deeper(tr'.emitted[i], tr'.emitted[j])
    {
      if j == |tr.emitted| {
        assert tr'.emitted[i] in tr.emitted;
      }
    }
  }

  // Opening a directory ----------------------------------------------------------

  /** `kids` lists the entries of `d`, each once. */
  ghost predicate IsListing(tree: Tree, d: Node, kids: seq<Node>) {
    Distinct(kids) && forall r :: r in kids <==> r in tree && IsChild(r, d)
  }

  function WantedOf(q: Query, kids: seq<Node>): (r: seq<Node>)
    requires forall x :: x in kids ==> x in q.tree
    ensures forall x :: x in r <==> x in kids && Wanted(q, q.tree[x])
  {
    if kids == [] then []
    else
      var n := |kids| - 1;
      assert kids == kids[..n] + [kids[n]];
      WantedOf(q, kids[..n]) + (if Wanted(q, q.tree[kids[n]]) then [kids[n]] else [])
  }

  function DirectoriesOf(tree: Tree, kids: seq<Node>): (r: seq<Node>)
    requires forall x :: x in kids ==> x in tree
    ensures forall x :: x in r <==> x in kids && tree[x] == Directory
  {
    if kids == [] then []
    else
      var n := |kids| - 1;
      assert kids == kids[..n] + [kids[n]];
      DirectoriesOf(tree, kids[..n]) + (if tree[kids[n]] == Directory then [kids[n]] else [])
  }

  lemma DirectoriesPush(tree: Tree, kids: seq<Node>, x: Node)
    requires x in tree && forall y :: y in kids ==> y in tree
    ensures DirectoriesOf(tree, kids + [x])
            == if tree[x] == Directory then DirectoriesOf(tree, kids) + [x] else DirectoriesOf(tree, kids)
  {
    assert (kids + [x])[..|kids|] == kids;
  }

  lemma {:induction false} FiltersDistinct(q: Query, kids: seq<Node>)
    requires Distinct(kids) && forall x :: x in kids ==> x in q.tree
    ensures Distinct(WantedOf(q, kids)) && Distinct(DirectoriesOf(q.tree, kids))
  {
    if kids != [] {
      var n := |kids| - 1;
      FiltersDistinct(q, kids[..n]);
      assert kids[n] !in kids[..n];
    }
  }

  function Open(q: Query, tr: Traversal, kids: seq<Node>): Traversal
    requires tr.pending != [] && forall x :: x in kids ==> x in q.tree
  {
    var n := |tr.pending| - 1;
    Traversal(tr.pending[n], WantedOf(q, kids), tr.pending[..n] + DirectoriesOf(q.tree, kids), tr.emitted)
  }

  function Skip(tr: Traversal): Traversal
    requires tr.pending != []
  {
    tr.(pending := tr.pending[..|tr.pending| - 1])
  }

  /** Everything below a popped directory is one of its entries or below one of its subdirectories. */
  lemma EntryOrDeeper(tree: Tree, p: Node, r: Node)
    requires IsTree(tree) && r in tree && p < r
    ensures var c := r[..|p| + 1];
            c in tree && IsChild(c, p) && (c == r || (c < r && tree[c] == Directory))
  {
    var c := r[..|p| + 1];
    assert Parent(c) == r[..|p|] == p;
    if |p| + 1 < |r| {
      PrefixInTree(tree, r, |p| + 1);
    } else {
      assert c == r;
    }
  }

  lemma OpenPending(q: Query, tr: Traversal, kids: seq<Node>)
    requires PendingOk(q, tr) && tr.pending != [] && IsListing(q.tree, tr.pending[|tr.pending| - 1], kids)
    requires tr.pending[|tr.pending| - 1] !in q.unreadable
    ensures PendingOk(q, Open(q, tr, kids))
  {
    hide WantedOf, DirectoriesOf, Reachable;
    var n := |tr.pending| - 1;
    var p, dirs := tr.pending[n], DirectoriesOf(q.tree, kids);
    var pending' := tr.pending[..n] + dirs;
    forall k | 0 <= k < |pending'|
      ensures && pending'[k] in q.tree && q.tree[pending'[k]] == Directory
              && q.target <= pending'[k] && !(pending'[k] <= p) && Reachable(q, pending'[k])
    {
      if n <= k {
        assert pending'[k] in dirs;
        ReachableChild(q, pending'[k], p);
        PrefixOfChild(q.target, pending'[k], p);
      }
    }
    OpenAntichain(q, tr, kids);
  }

  lemma OpenAntichain(q: Query, tr: Traversal, kids: seq<Node>)
    requires PendingOk(q, tr) && tr.pending != [] && IsListing(q.tree, tr.pending[|tr.pending| - 1], kids)
    ensures var pending' := Open(q, tr, kids).pending;
            forall i, j :: 0 <= i < |pending'| && 0 <= j < |pending'| && i != j ==> !(pending'[i] <= pending'[j])
  {
    hide WantedOf, DirectoriesOf;
    var n := |tr.pending| - 1;
    var p, dirs := tr.pending[n], DirectoriesOf(q.tree, kids);
    var pending' := tr.pending[..n] + dirs;
    FiltersDistinct(q, kids);
    forall k | n <= k < |pending'|
      ensures IsChild(pending'[k], p) && p <= pending'[k]
    {
      assert pending'[k] == dirs[k - n] && dirs[k - n] in dirs;
    }
    forall i, j | 0 <= i < |pending'| && 0 <= j < |pending'| && i != j
      ensures !(pending'[i] <= pending'[j])
    {
      if i < n && n <= j {
        PrefixOfChild(tr.pending[i], pending'[j], p);
      } else if n <= i && n <= j {
        assert dirs[i - n] != dirs[j - n];
      }
    }
  }

  lemma OpenEmitted(q: Query, tr: Traversal, kids: seq<Node>)
    requires Inv(q, tr) && tr.pending != [] && IsListing(q.tree, tr.pending[|tr.pending| - 1], kids)
    ensures EmittedOk(q, Open(q, tr, kids))
    ensures OrderOk(Open(q, tr, kids))
  {
    var n := |tr.pending| - 1;
    var p, tr' := tr.pending[n], Open(q, tr, kids);
    forall x | x in tr.emitted
      ensures !(p < x) && x !in tr'.queue && !BelowPending(tr', x) && !(p < Parent(x))
    {
      assert !BelowPending(tr, x);
      assert !(p < x);
      forall k | 0 <= k < |tr'.pending|
        ensures !(tr'.pending[k] < x)
      {
        if n <= k {
          assert tr'.pending[k] in kids;
          assert p <= tr'.pending[k];
        } else {
          assert tr'.pending[k] == tr.pending[k];
        }
      }
      assert x in tr'.queue ==> x in kids;
      PrefixOfChild(p, x, Parent(x));
    }
  }

  /** What was below the popped directory is queued or below one of its subdirectories. */
  lemma OpenCoversPopped(q: Query, tr: Traversal, kids: seq<Node>, r: Node)
    requires IsTree(q.tree) && tr.pending != [] && IsListing(q.tree, tr.pending[|tr.pending| - 1], kids)
    requires tr.pending[|tr.pending| - 1] < r && r in q.tree && Wanted(q, q.tree[r])
    ensures r in Open(q, tr, kids).queue || BelowPending(Open(q, tr, kids), r)
  {
    hide WantedOf, DirectoriesOf, IsTree;
    var n := |tr.pending| - 1;
    var p, dirs, tr' := tr.pending[n], DirectoriesOf(q.tree, kids), Open(q, tr, kids);
    EntryOrDeeper(q.tree, p, r);
    var c := r[..|p| + 1];
    assert c in kids;
    if c != r {
      assert c in dirs;
      var m :| 0 <= m < |dirs| && dirs[m] == c;
      assert tr'.pending[n + m] < r;
    }
  }

  lemma OpenCovered(q: Query, tr: Traversal, kids: seq<Node>)
    requires IsTree(q.tree) && Covered(q, tr)
    requires tr.pending != [] && tr.queue == [] && IsListing(q.tree, tr.pending[|tr.pending| - 1], kids)
    ensures Covered(q, Open(q, tr, kids))
  {
    hide WantedOf, DirectoriesOf, IsTree;
    var n, tr' := |tr.pending| - 1, Open(q, tr, kids);
    forall r | Due(q, r) && r !in tr.emitted
      ensures r in tr'.queue || BelowPending(tr', r)
    {
      var k :| 0 <= k < |tr.pending| && tr.pending[k] < r;
      if k < n {
        assert tr'.pending[k] < r;
      } else {
        OpenCoversPopped(q, tr, kids, r);
      }
    }
  }

  lemma OpenSeen(q: Query, tr: Traversal, kids: seq<Node>)
    requires StackSeen(q, tr) && tr.queue == [] && tr.pending != []
    requires IsListing(q.tree, tr.pending[|tr.pending| - 1], kids)
    ensures StackSeen(q, Open(q, tr, kids))
  {
    hide WantedOf, DirectoriesOf;
    var n, tr' := |tr.pending| - 1, Open(q, tr, kids);
    forall k | 0 <= k < |tr'.pending| && q.directories
      ensures tr'.pending[k] == q.target || tr'.pending[k] in tr'.queue || tr'.pending[k] in tr'.emitted
    {
      if n <= k {
        assert tr'.pending[k] in DirectoriesOf(q.tree, kids);
      } else {
        assert tr'.pending[k] == tr.pending[k];
      }
    }
  }

  /** Opening the directory on top of the stack, once the queue is empty, keeps the invariant. */
  lemma OpenKeeps(q: Query, tr: Traversal, kids: seq<Node>)
    requires Inv(q, tr) && tr.queue == [] && tr.pending != []
    requires IsListing(q.tree, tr.pending[|tr.pending| - 1], kids) && tr.pending[|tr.pending| - 1] !in q.unreadable
    ensures Inv(q, Open(q, tr, kids)) && (Covered(q, tr) ==> Covered(q, Open(q, tr, kids)))
  {
    hide BelowPending, Reachable, Covered;
    forall x | x in kids
      ensures Reachable(q, x)
    {
      ReachableChild(q, x, tr.pending[|tr.pending| - 1]);
    }
    OpenPending(q, tr, kids);
    FiltersDistinct(q, kids);
    OpenEmitted(q, tr, kids);
    if Covered(q, tr) {
      OpenCovered(q, tr, kids);
    }
    OpenSeen(q, tr, kids);
  }

  lemma SkipBelow(tr: Traversal, x: Node)
    requires tr.pending != []
    ensures BelowPending(Skip(tr), x) ==> BelowPending(tr, x)
    ensures BelowPending(tr, x) && !(tr.pending[|tr.pending| - 1] < x) ==> BelowPending(Skip(tr), x)
  {
    var tr' := Skip(tr);
    if k :| 0 <= k < |tr'.pending| && tr'.pending[k] < x {
      assert tr.pending[k] < x;
    }
    if k :| 0 <= k < |tr.pending| - 1 && tr.pending[k] < x {
      assert tr'.pending[k] < x;
    }
  }

  lemma DueNotBelow(q: Query, p: Node, r: Node)
    requires Due(q, r) && p in q.unreadable && q.target <= p
    ensures !(p < r)
  {
    if |p| < |r| {
      assert r[..|p|] != p;
    }
  }

  /** Passing over a directory keeps it too; nothing due is missed if the directory cannot be listed. */
  lemma SkipKeeps(q: Query, tr: Traversal)
    requires Inv(q, tr) && tr.pending != []
    ensures Inv(q, Skip(tr))
    ensures Covered(q, tr) && tr.pending[|tr.pending| - 1] in q.unreadable ==> Covered(q, Skip(tr))
  {
    hide BelowPending;
    var p, tr' := tr.pending[|tr.pending| - 1], Skip(tr);
    assert EmittedOk(q, tr') by {
      forall x | x in tr.emitted
        ensures !BelowPending(tr', x)
      {
        SkipBelow(tr, x);
      }
    }
    if Covered(q, tr) && p in q.unreadable {
      forall r | Due(q, r)
        ensures r in tr'.emitted || r in tr'.queue || BelowPending(tr', r)
      {
        SkipBelow(tr, r);
        DueNotBelow(q, p, r);
      }
    }
  }

  lemma StartInv(q: Query)
    requires IsTree(q.tree) && q.target in q.tree && q.tree[q.target] == Directory
    ensures Inv(q, Start(q)) && Covered(q, Start(q))
  {
    var tr := Start(q);
    forall r | Due(q, r)
      ensures BelowPending(tr, r)
    {
      assert tr.pending[0] < r;
    }
  }

  /** When nothing is left to do, only due entries have come out, each once, and in order, and
      all of them unless a directory was passed over. */
  lemma DoneMeansAll(q: Query, tr: Traversal)
    requires Inv(q, tr) && tr.queue == [] && tr.pending == []
    ensures forall r :: r in tr.emitted ==> Due(q, r)
    ensures Covered(q, tr) ==> forall r :: r in tr.emitted <==> Due(q, r)
    ensures Distinct(tr.emitted) && InOrder(tr.emitted)
  {
  }

  // ---------------------------------------------------------------------------
  // Termination
  // ---------------------------------------------------------------------------

  /** Nodes at or below a pending directory. */
  ghost function Ahead(tree: Tree, pending: seq<Node>): set<Node> {
    set r | r in tree && exists k :: 0 <= k < |pending| && pending[k] <= r
  }

  lemma OpenShrinks(q: Query, tr: Traversal, kids: seq<Node>)
    requires PendingOk(q, tr) && tr.pending != [] && IsListing(q.tree, tr.pending[|tr.pending| - 1], kids)
    ensures Ahead(q.tree, Open(q, tr, kids).pending) < Ahead(q.tree, tr.pending)
  {
    var n := |tr.pending| - 1;
    var p, pending' := tr.pending[n], Open(q, tr, kids).pending;
    forall r | r in Ahead(q.tree, pending')
      ensures r in Ahead(q.tree, tr.pending) && r != p
    {
      var k :| 0 <= k < |pending'| && pending'[k] <= r;
      if n <= k {
        assert pending'[k] in kids;
        assert p <= pending'[k] && |pending'[k]| > |p|;
        assert tr.pending[n] <= r;
      } else {
        assert tr.pending[k] <= r;
      }
    }
    assert tr.pending[n] <= p;
    assert p in Ahead(q.tree, tr.pending);
  }

  lemma SkipShrinks(q: Query, tr: Traversal)
    requires PendingOk(q, tr) && tr.pending != []
    ensures Ahead(q.tree, Skip(tr).pending) < Ahead(q.tree, tr.pending)
  {
    var n := |tr.pending| - 1;
    var p, pending' := tr.pending[n], Skip(tr).pending;
    forall r | r in Ahead(q.tree, pending')
      ensures r in Ahead(q.tree, tr.pending) && r != p
    {
      var k :| 0 <= k < |pending'| && pending'[k] <= r;
      assert tr.pending[k] <= r;
    }
    assert tr.pending[n] <= p;
    assert p in Ahead(q.tree, tr.pending);
  }

  // ---------------------------------------------------------------------------
  // Deleting in reverse
  // ---------------------------------------------------------------------------

  /** No node of the list is above an earlier one. */
  predicate ParentsFirst(dirs: seq<Node>) {
    forall i, j :: 0 <= i < j < |dirs| ==> !(dirs[j] < dirs[i])
  }

  lemma AboveIsShallower(a: Node, b: Node)
    requires b != [] && b < a
    ensures Deeper(a, b)
  {
    PrefixOfChild(b, a, Parent(a));
    assert Parent(b) < b;
    assert Parent(b) == Parent(a)[..|b| - 1];
  }

  /** The directories that come out, after the target itself, list parents before children. */
  lemma {:induction false} DirectoriesParentsFirst(tree: Tree, target: Node, emitted: seq<Node>)
    requires InOrder(emitted) && Distinct(emitted)
    requires forall x :: x in emitted ==> x in tree && target < x
    ensures ParentsFirst([target] + DirectoriesOf(tree, emitted)) && Distinct([target] + DirectoriesOf(tree, emitted))
  {
    if emitted == [] {
      assert [target] + DirectoriesOf(tree, []) == [target];
    } else {
      hide Deeper, DirectoriesOf;
      var n := |emitted| - 1;
      var front, x := emitted[..n], emitted[n];
      assert emitted == front + [x];
      assert x in emitted && forall y :: y in front ==> y in emitted;
      assert forall i :: 0 <= i < n ==> front[i] == emitted[i];
      DirectoriesParentsFirst(tree, target, front);
      DirectoriesPush(tree, front, x);
      var dirs := DirectoriesOf(tree, front);
      if tree[x] == Directory {
        NotAboveEarlier(tree, target, emitted, x, dirs);
        AddLast([target] + dirs, x);
        assert [target] + (dirs + [x]) == [target] + dirs + [x];
      }
    }
  }

  lemma NotAboveEarlier(tree: Tree, target: Node, emitted: seq<Node>, x: Node, dirs: seq<Node>)
    requires emitted != [] && InOrder(emitted) && Distinct(emitted) && emitted[|emitted| - 1] == x && target < x
    requires forall y :: y in dirs ==> y in emitted[..|emitted| - 1]
    ensures forall y :: y in [target] + dirs ==> !(x < y) && x != y
  {
    hide Deeper;
    var n := |emitted| - 1;
    forall y | y in dirs
      ensures !(x < y) && x != y
    {
      var k :| 0 <= k < n && emitted[..n][k] == y;
      assert !Deeper(emitted[k], x);
      NotAbove(y, x);
    }
  }

  lemma AddLast(dirs: seq<Node>, x: Node)
    requires ParentsFirst(dirs) && Distinct(dirs) && forall y :: y in dirs ==> !(x < y) && x != y
    ensures ParentsFirst(dirs + [x]) && Distinct(dirs + [x])
  {
    var longer := dirs + [x];
    forall i, j | 0 <= i < j < |longer|
      ensures !(longer[j] < longer[i]) && longer[i] != longer[j]
    {
      assert longer[i] in dirs;
    }
  }

  lemma NotAbove(y: Node, x: Node)
    requires x != [] && !Deeper(y, x)
    ensures !(x < y)
  {
    if x < y {
      AboveIsShallower(y, x);
    }
  }

  predicate IsEmpty(tree: Tree, d: Node) {
    forall r :: r in tree ==> !(d < r)
  }

  /** `tree` without everything at or below `d`. */
  function Without(tree: Tree, d: Node): Tree {
    map r | r in tree && !(d <= r) :: tree[r]
  }
}
