/**
 The meaning of a file-descriptor shuffle, and the invariant that carries the
 sequential dup/dup2/close algorithm to it.

 A shuffle is a list of arcs source -> dest with pairwise distinct dests.  The
 algorithm performs the arcs one at a time.  Before it overwrites a descriptor
 that a later arc still reads, it duplicates that descriptor and redirects the
 later arcs to the duplicate; an obligation to close a source moves from arc to
 arc until it reaches the last arc that reads the source.

 `Step` is one iteration of the outer loop as a function on values, `Inv` what
 every iteration keeps, and `Outcome` the exact final descriptor table.
 */
module FdShuffleSpec {
  import opened Common

  /** An open file description, named by a number. */
  type File = nat

  /** A descriptor table: the open descriptors and what they refer to. */
  type Table = map<int, File>

  datatype Arc = Arc(source: int, dest: int, close: bool)

  predicate Identity(a: Arc) {
    a.source == a.dest
  }

  predicate DistinctDests(arcs: seq<Arc>) {
    forall p, q :: 0 <= p < q < |arcs| ==> arcs[p].dest != arcs[q].dest
  }

  predicate SourcesOpen(arcs: seq<Arc>, table: Table) {
    forall p :: 0 <= p < |arcs| ==> arcs[p].source in table
  }

  predicate IsDest(arcs: seq<Arc>, fd: int) {
    exists p :: 0 <= p < |arcs| && arcs[p].dest == fd
  }

  // ---------------------------------------------------------------------------
  // One iteration of the outer loop, on values
  // ---------------------------------------------------------------------------

  predicate Touches(a: Arc, fd: int) {
    a.dest == fd || a.source == fd
  }

  /** Arc `k` is the first arc after `i` that reads or overwrites the source of arc `i`. */
  predicate FirstTouch(arcs: seq<Arc>, i: nat, k: nat)
    requires i < k < |arcs|
  {
    && Touches(arcs[k], arcs[i].source)
    && forall j :: i < j < k ==> !Touches(arcs[j], arcs[i].source)
  }

  /** No arc after `i` and before `end` reads or overwrites the source of arc `i`. */
  predicate NoTouch(arcs: seq<Arc>, i: nat, end: nat)
    requires i < |arcs| && end <= |arcs|
  {
    forall j :: i < j < end ==> !Touches(arcs[j], arcs[i].source)
  }

  /** Arc `i` overwrites a descriptor that some arc after it, before `end`, reads. */
  predicate NeedsTemp(arcs: seq<Arc>, i: nat, end: nat)
    requires i < |arcs| && end <= |arcs|
  {
    !Identity(arcs[i]) && exists j :: i < j < end && arcs[j].source == arcs[i].dest
  }

  /** Arc `k` after iteration `i`, the iteration having duplicated into `temp` if it needed to. */
  function RedirectArc(arcs: seq<Arc>, i: nat, temp: int, k: nat): Arc
    requires i < |arcs| && k < |arcs|
  {
    if k < i then
      arcs[k]
    else if k == i then
      arcs[i].(close := arcs[i].close && NoTouch(arcs, i, |arcs|))
    else if !Identity(arcs[i]) && arcs[k].source == arcs[i].dest then
      Arc(temp, arcs[k].dest, false)
    else
      arcs[k].(close := arcs[k].close
                        || (arcs[i].close && arcs[k].dest != arcs[i].source && FirstTouch(arcs, i, k)))
  }

  function Redirect(arcs: seq<Arc>, i: nat, temp: int): (r: seq<Arc>)
    requires i < |arcs|
  {
    seq(|arcs|, k requires 0 <= k < |arcs| => RedirectArc(arcs, i, temp, k))
  }

  /** The arc list, the descriptor table, and every duplicate made so far. */
  datatype State = State(arcs: seq<Arc>, files: Table, temps: set<int>)

  predicate CanStep(st: State, i: nat, temp: int) {
    && i < |st.arcs|
    && st.arcs[i].source in st.files
    && (NeedsTemp(st.arcs, i, |st.arcs|) ==> st.arcs[i].dest in st.files && temp >= 0 && temp !in st.files)
  }

  function WithTemp(st: State, i: nat, temp: int): Table
    requires CanStep(st, i, temp)
  {
    if NeedsTemp(st.arcs, i, |st.arcs|) then st.files[temp := st.files[st.arcs[i].dest]] else st.files
  }

  /** Moving one arc and closing its source if it is marked. */
  function MoveArc(a: Arc, table: Table): Table
    requires a.source in table
  {
    if Identity(a) then table
    else
      var moved := table[a.dest := table[a.source]];
      if a.close then moved - {a.source} else moved
  }

  function Step(st: State, i: nat, temp: int): State
    requires CanStep(st, i, temp)
  {
    var arcs' := Redirect(st.arcs, i, temp);
    State(arcs', MoveArc(arcs'[i], WithTemp(st, i, temp)),
          if NeedsTemp(st.arcs, i, |st.arcs|) then st.temps + {temp} else st.temps)
  }

  // ---------------------------------------------------------------------------
  // What the original arcs ask for
  // ---------------------------------------------------------------------------

  /** Arc `p` overwrites `fd` with something else. */
  predicate Overwrites(arcs: seq<Arc>, p: nat, fd: int)
    requires p < |arcs|
  {
    arcs[p].dest == fd && !Identity(arcs[p])
  }

  predicate OverwrittenBefore(arcs: seq<Arc>, i: nat, fd: int)
    requires i <= |arcs|
  {
    exists p :: 0 <= p < i && Overwrites(arcs, p, fd)
  }

  /** Arc `r` asks for `fd` to be closed, and no arc takes the request back: the
      only arc that may name `fd` as its dest is an identity arc at or before `r`. */
  predicate Requests(arcs: seq<Arc>, r: nat, fd: int)
    requires r < |arcs|
  {
    && arcs[r].source == fd
    && arcs[r].close
    && forall p :: 0 <= p < |arcs| && arcs[p].dest == fd ==> p <= r && Identity(arcs[p])
  }

  /** Some arc in [r, end) actually moves out of `fd`. */
  predicate MovedFrom(arcs: seq<Arc>, r: nat, end: nat, fd: int)
    requires end <= |arcs|
  {
    exists q :: r <= q < end && arcs[q].source == fd && !Identity(arcs[q])
  }

  /** The shuffle closes `fd` as a source that is no longer wanted. */
  predicate ClosesSource(arcs: seq<Arc>, fd: int) {
    exists r :: 0 <= r < |arcs| && Requests(arcs, r, fd) && MovedFrom(arcs, r, |arcs|, fd)
  }

  // ---------------------------------------------------------------------------
  // The invariant: arcs below i have been performed
  // ---------------------------------------------------------------------------

  /** An arc still to do reads the file its original source had at the start. */
  predicate InvSource(arcs0: seq<Arc>, init: Table, st: State, k: nat)
    requires k < |arcs0| == |st.arcs| && SourcesOpen(arcs0, init)
  {
    && st.arcs[k].dest == arcs0[k].dest
    && st.arcs[k].source in st.files
    && st.files[st.arcs[k].source] == init[arcs0[k].source]
    && (if st.arcs[k].source in st.temps then !st.arcs[k].close
        else st.arcs[k].source == arcs0[k].source && (arcs0[k].close ==> st.arcs[k].close))
  }

  ghost predicate InvSources(arcs0: seq<Arc>, init: Table, i: nat, st: State)
    requires i <= |arcs0| == |st.arcs| && SourcesOpen(arcs0, init)
  {
    && st.temps <= st.files.Keys
    && (forall k :: i <= k < |arcs0| ==> InvSource(arcs0, init, st, k))
    && (forall k :: i <= k < |arcs0| ==>
          (st.arcs[k].source in st.temps <==> OverwrittenBefore(arcs0, i, arcs0[k].source)))
  }

  /** A duplicate takes a number that was closed at the start or has been closed since. */
  ghost predicate InvTemps(arcs0: seq<Arc>, init: Table, st: State) {
    forall fd :: fd in st.temps && fd in init ==> ClosesSource(arcs0, fd)
  }

  predicate DestHolds(arcs0: seq<Arc>, init: Table, files: Table, p: nat)
    requires p < |arcs0| && SourcesOpen(arcs0, init)
  {
    arcs0[p].dest in files && files[arcs0[p].dest] == init[arcs0[p].source]
  }

  /** A performed arc's dest holds what its source held at the start. */
  ghost predicate InvDone(arcs0: seq<Arc>, init: Table, i: nat, st: State)
    requires i <= |arcs0| == |st.arcs| && SourcesOpen(arcs0, init)
  {
    forall p :: 0 <= p < i && !Identity(arcs0[p]) ==> DestHolds(arcs0, init, st.files, p)
  }

  /** Every other descriptor is unchanged, or closed as an unwanted source. */
  ghost predicate InvRest(arcs0: seq<Arc>, init: Table, i: nat, st: State)
    requires i <= |arcs0| == |st.arcs|
  {
    forall fd :: fd !in st.temps && !OverwrittenBefore(arcs0, i, fd) ==>
      if fd in st.files then fd in init && st.files[fd] == init[fd]
      else fd in init ==> ClosesSource(arcs0, fd)
  }

  /** Arc `k` may hold the close request that arc `r` made. */
  predicate Held(arcs0: seq<Arc>, r: nat, k: nat)
    requires r <= k < |arcs0|
  {
    && arcs0[r].source == arcs0[k].source
    && arcs0[r].close
    && forall p :: r < p <= k ==> arcs0[p].dest != arcs0[k].source
  }

  /** No close flag appears out of nothing. */
  ghost predicate InvCloseSound(arcs0: seq<Arc>, i: nat, st: State)
    requires i <= |arcs0| == |st.arcs|
  {
    forall k :: i <= k < |arcs0| && st.arcs[k].close && st.arcs[k].source !in st.temps ==>
      exists r :: 0 <= r <= k && Held(arcs0, r, k)
  }

  predicate Pending(st: State, i: nat, fd: int) {
    exists k :: i <= k < |st.arcs| && st.arcs[k].source == fd && st.arcs[k].close
  }

  predicate ReadFrom(arcs: seq<Arc>, i: nat, fd: int) {
    exists k :: i <= k < |arcs| && arcs[k].source == fd
  }

  /** A request already met is either carried by an arc still to do or has been honoured. */
  ghost predicate InvRequest(arcs0: seq<Arc>, i: nat, st: State, r: nat, fd: int)
    requires r < i <= |arcs0| == |st.arcs|
  {
    if ReadFrom(arcs0, i, fd) then Pending(st, i, fd)
    else MovedFrom(arcs0, r, i, fd) ==> fd !in st.files || fd in st.temps
  }

  ghost predicate InvCloseComplete(arcs0: seq<Arc>, i: nat, st: State)
    requires i <= |arcs0| == |st.arcs|
  {
    forall r, fd :: 0 <= r < i && Requests(arcs0, r, fd) ==> InvRequest(arcs0, i, st, r, fd)
  }

  ghost predicate Inv(arcs0: seq<Arc>, init: Table, i: nat, st: State) {
    && i <= |arcs0| == |st.arcs|
    && DistinctDests(arcs0)
    && SourcesOpen(arcs0, init)
    && InvSources(arcs0, init, i, st)
    && InvTemps(arcs0, init, st)
    && InvDone(arcs0, init, i, st)
    && InvRest(arcs0, init, i, st)
    && InvCloseSound(arcs0, i, st)
    && InvCloseComplete(arcs0, i, st)
  }

  lemma InvInitially(arcs0: seq<Arc>, init: Table)
    requires DistinctDests(arcs0) && SourcesOpen(arcs0, init)
    ensures Inv(arcs0, init, 0, State(arcs0, init, {}))
  {
    forall k | 0 <= k < |arcs0| && arcs0[k].close
      ensures exists r :: 0 <= r <= k && Held(arcs0, r, k)
    {
      assert Held(arcs0, k, k);
    }
  }

  lemma InvCanStep(arcs0: seq<Arc>, init: Table, i: nat, st: State, temp: int)
    requires Inv(arcs0, init, i, st) && i < |arcs0|
    requires NeedsTemp(st.arcs, i, |st.arcs|) ==> temp >= 0 && temp !in st.files
    ensures CanStep(st, i, temp)
  {
    assert InvSource(arcs0, init, st, i);
    if NeedsTemp(st.arcs, i, |st.arcs|) {
      var j :| i < j < |st.arcs| && st.arcs[j].source == st.arcs[i].dest;
      assert InvSource(arcs0, init, st, j);
    }
  }

  // Shared facts about iteration i -------------------------------------------------

  /** An arc that was an identity stays one; one that was not can only become one by redirection. */
  lemma CurrentArc(arcs0: seq<Arc>, init: Table, i: nat, st: State)
    requires Inv(arcs0, init, i, st) && i < |arcs0|
    ensures InvSource(arcs0, init, st, i)
    ensures Identity(arcs0[i]) ==> st.arcs[i].source == arcs0[i].source
    ensures Identity(st.arcs[i]) && !Identity(arcs0[i]) ==> st.arcs[i].source in st.temps
  {
    assert Identity(arcs0[i]) ==> forall p :: 0 <= p < i ==> !Overwrites(arcs0, p, arcs0[i].source);
  }

  /** A later arc is redirected by iteration i exactly when arc i overwrites its original source. */
  lemma RedirectedIff(arcs0: seq<Arc>, init: Table, i: nat, st: State, k: nat)
    requires Inv(arcs0, init, i, st) && i < k < |arcs0|
    requires st.arcs[k].source !in st.temps
    ensures Overwrites(arcs0, i, arcs0[k].source) <==> !Identity(st.arcs[i]) && st.arcs[k].source == st.arcs[i].dest
  {
    CurrentArc(arcs0, init, i, st);
    assert InvSource(arcs0, init, st, k);
  }

  lemma OverwrittenNext(arcs0: seq<Arc>, i: nat, fd: int)
    requires i < |arcs0|
    ensures OverwrittenBefore(arcs0, i + 1, fd) <==> OverwrittenBefore(arcs0, i, fd) || Overwrites(arcs0, i, fd)
  {
  }

  lemma FirstTouchExists(arcs: seq<Arc>, i: nat, k: nat) returns (first: nat)
    requires i < k < |arcs| && Touches(arcs[k], arcs[i].source)
    ensures i < first <= k && FirstTouch(arcs, i, first)
  {
    first := i + 1;
    while !Touches(arcs[first], arcs[i].source)
      invariant i < first <= k
      invariant forall j :: i < j < first ==> !Touches(arcs[j], arcs[i].source)
      decreases k - first
    {
      first := first + 1;
    }
  }

  lemma StepSource(arcs0: seq<Arc>, init: Table, i: nat, st: State, temp: int, k: nat)
    requires Inv(arcs0, init, i, st) && i < k < |arcs0| && CanStep(st, i, temp)
    ensures InvSource(arcs0, init, Step(st, i, temp), k)
    ensures Step(st, i, temp).arcs[k].source in Step(st, i, temp).temps
            <==> OverwrittenBefore(arcs0, i + 1, arcs0[k].source)
  {
    var st' := Step(st, i, temp);
    assert InvSource(arcs0, init, st, i) && InvSource(arcs0, init, st, k);
    assert st'.arcs[k] == RedirectArc(st.arcs, i, temp, k) && st'.arcs[i] == RedirectArc(st.arcs, i, temp, i);
    OverwrittenNext(arcs0, i, arcs0[k].source);
    if !Identity(st.arcs[i]) && st.arcs[k].source == st.arcs[i].dest {
      assert NeedsTemp(st.arcs, i, |st.arcs|);
    }
    if st.arcs[k].source !in st.temps {
      RedirectedIff(arcs0, init, i, st, k);
    }
  }

  lemma StepTemps(arcs0: seq<Arc>, init: Table, i: nat, st: State, temp: int)
    requires Inv(arcs0, init, i, st) && i < |arcs0| && CanStep(st, i, temp)
    ensures InvTemps(arcs0, init, Step(st, i, temp))
  {
    if NeedsTemp(st.arcs, i, |st.arcs|) {
      assert temp !in st.temps;
      forall p | 0 <= p < i && !Identity(arcs0[p])
        ensures !Overwrites(arcs0, p, temp)
      {
        assert DestHolds(arcs0, init, st.files, p);
      }
    }
  }

  /** What iteration i does to one descriptor. */
  lemma StepFile(st: State, i: nat, temp: int, fd: int)
    requires CanStep(st, i, temp)
    requires NeedsTemp(st.arcs, i, |st.arcs|) ==> fd != temp
    ensures var a := st.arcs[i];
            var files := Step(st, i, temp).files;
            if Identity(a) then
              (fd in files <==> fd in st.files) && (fd in files ==> files[fd] == st.files[fd])
            else if fd == a.dest then
              fd in files && files[fd] == st.files[a.source]
            else if fd == a.source && a.close && NoTouch(st.arcs, i, |st.arcs|) then
              fd !in files
            else
              (fd in files <==> fd in st.files) && (fd in files ==> files[fd] == st.files[fd])
  {
    assert Step(st, i, temp).arcs[i] == RedirectArc(st.arcs, i, temp, i);
  }

  lemma StepDone(arcs0: seq<Arc>, init: Table, i: nat, st: State, temp: int, p: nat)
    requires i < |arcs0| == |st.arcs| && SourcesOpen(arcs0, init) && DistinctDests(arcs0)
    requires InvSources(arcs0, init, i, st) && InvDone(arcs0, init, i, st) && CanStep(st, i, temp)
    requires p < i && !Identity(arcs0[p])
    ensures DestHolds(arcs0, init, Step(st, i, temp).files, p)
  {
    assert InvSource(arcs0, init, st, i) && DestHolds(arcs0, init, st.files, p);
    assert Overwrites(arcs0, p, arcs0[p].dest);
    StepFile(st, i, temp, arcs0[p].dest);
  }

  lemma StepDoneNow(arcs0: seq<Arc>, init: Table, i: nat, st: State, temp: int)
    requires i < |arcs0| == |st.arcs| && SourcesOpen(arcs0, init) && InvSource(arcs0, init, st, i)
    requires CanStep(st, i, temp) && !Identity(arcs0[i])
    ensures DestHolds(arcs0, init, Step(st, i, temp).files, i)
  {
    DestNotTemp(st, i, temp);
    StepFile(st, i, temp, arcs0[i].dest);
  }

  lemma DestNotTemp(st: State, i: nat, temp: int)
    requires CanStep(st, i, temp)
    ensures NeedsTemp(st.arcs, i, |st.arcs|) ==> temp != st.arcs[i].dest
  {
  }

  /** The request behind a close that iteration i performs. */
  lemma CloseRequest(arcs0: seq<Arc>, init: Table, i: nat, st: State) returns (r: nat)
    requires Inv(arcs0, init, i, st) && i < |arcs0|
    requires !Identity(st.arcs[i]) && st.arcs[i].close && NoTouch(st.arcs, i, |st.arcs|)
    ensures st.arcs[i].source == arcs0[i].source
    ensures r <= i && Requests(arcs0, r, arcs0[i].source) && MovedFrom(arcs0, r, i + 1, arcs0[i].source)
  {
    var fd := st.arcs[i].source;
    assert InvSource(arcs0, init, st, i);
    r :| 0 <= r <= i && Held(arcs0, r, i);
    forall p | i < p < |arcs0|
      ensures arcs0[p].dest != fd
    {
      assert InvSource(arcs0, init, st, p);
    }
    forall p | 0 <= p <= i && arcs0[p].dest == fd
      ensures p <= r && Identity(arcs0[p])
    {
      assert p < i ==> !Overwrites(arcs0, p, fd);
    }
  }

  /** A close performed by iteration i is one the original arcs ask for. */
  lemma StepCloses(arcs0: seq<Arc>, init: Table, i: nat, st: State)
    requires Inv(arcs0, init, i, st) && i < |arcs0|
    requires !Identity(st.arcs[i]) && st.arcs[i].close && NoTouch(st.arcs, i, |st.arcs|)
    ensures st.arcs[i].source == arcs0[i].source && ClosesSource(arcs0, arcs0[i].source)
  {
    hide Inv;
    var r := CloseRequest(arcs0, init, i, st);
    assert MovedFrom(arcs0, r, |arcs0|, arcs0[i].source);
  }

  lemma StepRest(arcs0: seq<Arc>, init: Table, i: nat, st: State, temp: int)
    requires Inv(arcs0, init, i, st) && i < |arcs0| && CanStep(st, i, temp)
    ensures InvRest(arcs0, init, i + 1, Step(st, i, temp))
  {
    var st' := Step(st, i, temp);
    CurrentArc(arcs0, init, i, st);
    assert st'.arcs[i] == RedirectArc(st.arcs, i, temp, i);
    if !Identity(st.arcs[i]) && st'.arcs[i].close {
      StepCloses(arcs0, init, i, st);
    }
    forall fd | fd !in st'.temps && !OverwrittenBefore(arcs0, i + 1, fd)
      ensures if fd in st'.files then fd in init && st'.files[fd] == init[fd]
              else fd in init ==> ClosesSource(arcs0, fd)
    {
      OverwrittenNext(arcs0, i, fd);
      assert !OverwrittenBefore(arcs0, i, fd);
    }
  }

  lemma StepCloseSound(arcs0: seq<Arc>, init: Table, i: nat, st: State, temp: int, k: nat)
    requires i < k < |arcs0| == |st.arcs| && SourcesOpen(arcs0, init)
    requires InvSources(arcs0, init, i, st) && InvCloseSound(arcs0, i, st) && CanStep(st, i, temp)
    requires var st' := Step(st, i, temp); st'.arcs[k].close && st'.arcs[k].source !in st'.temps
    ensures exists r :: 0 <= r <= k && Held(arcs0, r, k)
  {
    var st' := Step(st, i, temp);
    assert InvSource(arcs0, init, st, i) && InvSource(arcs0, init, st, k);
    assert st'.arcs[k] == RedirectArc(st.arcs, i, temp, k);
    if !st.arcs[k].close {
      FlagReceived(arcs0, init, i, st, k);
    }
  }

  lemma FlagReceived(arcs0: seq<Arc>, init: Table, i: nat, st: State, k: nat)
    requires i < k < |arcs0| == |st.arcs| && SourcesOpen(arcs0, init)
    requires InvSources(arcs0, init, i, st) && InvCloseSound(arcs0, i, st)
    requires st.arcs[i].close && st.arcs[k].dest != st.arcs[i].source && FirstTouch(st.arcs, i, k)
    ensures exists r :: 0 <= r <= k && Held(arcs0, r, k)
  {
    assert InvSource(arcs0, init, st, i) && InvSource(arcs0, init, st, k);
    var r :| 0 <= r <= i && Held(arcs0, r, i);
    forall p | i < p <= k
      ensures arcs0[p].dest != arcs0[i].source
    {
      assert InvSource(arcs0, init, st, p);
    }
    assert Held(arcs0, r, k);
  }

  /** While a request stands, no arc that reads the descriptor is redirected. */
  lemma RequestedNotRedirected(arcs0: seq<Arc>, init: Table, i: nat, st: State, r: nat, fd: int, k: nat)
    requires i <= |arcs0| == |st.arcs| && SourcesOpen(arcs0, init)
    requires InvSources(arcs0, init, i, st) && r < |arcs0| && Requests(arcs0, r, fd)
    requires i <= k < |arcs0| && arcs0[k].source == fd
    ensures st.arcs[k].source == fd && fd !in st.temps && fd in st.files
  {
    assert InvSource(arcs0, init, st, k);
    assert !OverwrittenBefore(arcs0, i, fd);
  }

  /** The flag of arc i is still in the list after iteration i if someone is left to carry it. */
  lemma FlagMovesOn(arcs0: seq<Arc>, init: Table, i: nat, st: State, temp: int, fd: int, k: nat)
    requires i < k < |arcs0| == |st.arcs| && SourcesOpen(arcs0, init)
    requires InvSources(arcs0, init, i, st) && CanStep(st, i, temp)
    requires st.arcs[i].source == fd && st.arcs[i].close && st.arcs[k].source == fd
    requires forall p :: i < p < |arcs0| ==> arcs0[p].dest != fd
    ensures Pending(Step(st, i, temp), i + 1, fd)
  {
    var first := FirstTouchExists(st.arcs, i, k);
    assert InvSource(arcs0, init, st, first);
    assert Step(st, i, temp).arcs[first] == RedirectArc(st.arcs, i, temp, first);
  }

  lemma StepRequest(arcs0: seq<Arc>, init: Table, i: nat, st: State, temp: int, r: nat, fd: int)
    requires Inv(arcs0, init, i, st) && i < |arcs0| && CanStep(st, i, temp)
    requires r <= i && Requests(arcs0, r, fd)
    ensures InvRequest(arcs0, i + 1, Step(st, i, temp), r, fd)
  {
    if ReadFrom(arcs0, i + 1, fd) {
      var k :| i + 1 <= k < |arcs0| && arcs0[k].source == fd;
      RequestedNotRedirected(arcs0, init, i, st, r, fd, k);
      StepRequestRead(arcs0, init, i, st, temp, r, fd, k);
    } else if arcs0[i].source == fd && !Identity(arcs0[i]) {
      StepRequestLast(arcs0, init, i, st, temp, r, fd);
    } else if MovedFrom(arcs0, r, i + 1, fd) {
      StepRequestHonoured(arcs0, init, i, st, temp, r, fd);
    }
  }

  lemma StepRequestHonoured(arcs0: seq<Arc>, init: Table, i: nat, st: State, temp: int, r: nat, fd: int)
    requires Inv(arcs0, init, i, st) && i < |arcs0| && CanStep(st, i, temp)
    requires r <= i && Requests(arcs0, r, fd) && MovedFrom(arcs0, r, i + 1, fd)
    requires !ReadFrom(arcs0, i + 1, fd) && (arcs0[i].source == fd ==> Identity(arcs0[i]))
    ensures var st' := Step(st, i, temp); fd !in st'.files || fd in st'.temps
  {
    HonouredBefore(arcs0, i, r, fd);
    assert InvRequest(arcs0, i, st, r, fd);
    assert InvSource(arcs0, init, st, i);
    if NeedsTemp(st.arcs, i, |st.arcs|) ==> fd != temp {
      StepFile(st, i, temp, fd);
    }
  }

  lemma HonouredBefore(arcs0: seq<Arc>, i: nat, r: nat, fd: int)
    requires r <= i < |arcs0| && Requests(arcs0, r, fd) && MovedFrom(arcs0, r, i + 1, fd)
    requires !ReadFrom(arcs0, i + 1, fd) && (arcs0[i].source == fd ==> Identity(arcs0[i]))
    ensures r < i && MovedFrom(arcs0, r, i, fd) && !ReadFrom(arcs0, i, fd) && arcs0[i].dest != fd
  {
    var q :| r <= q < i + 1 && arcs0[q].source == fd && !Identity(arcs0[q]);
  }

  lemma StepRequestRead(arcs0: seq<Arc>, init: Table, i: nat, st: State, temp: int, r: nat, fd: int, k: nat)
    requires i < k < |arcs0| == |st.arcs| && SourcesOpen(arcs0, init)
    requires InvSources(arcs0, init, i, st) && CanStep(st, i, temp)
    requires r <= i && Requests(arcs0, r, fd) && (r < i ==> InvRequest(arcs0, i, st, r, fd))
    requires arcs0[k].source == fd && st.arcs[k].source == fd
    ensures Pending(Step(st, i, temp), i + 1, fd)
  {
    assert InvSource(arcs0, init, st, i);
    if r < i && exists k0 :: i < k0 < |st.arcs| && st.arcs[k0].source == fd && st.arcs[k0].close {
      var k0 :| i < k0 < |st.arcs| && st.arcs[k0].source == fd && st.arcs[k0].close;
      FlagStays(st, i, temp, fd, k0);
    } else {
      if r == i {
        RequestedNotRedirected(arcs0, init, i, st, r, fd, i);
      }
      FlagMovesOn(arcs0, init, i, st, temp, fd, k);
    }
  }

  lemma FlagStays(st: State, i: nat, temp: int, fd: int, k: nat)
    requires i < k < |st.arcs| && CanStep(st, i, temp)
    requires st.arcs[k].source == fd && st.arcs[k].close && st.arcs[i].dest != fd
    ensures Pending(Step(st, i, temp), i + 1, fd)
  {
    assert Step(st, i, temp).arcs[k] == RedirectArc(st.arcs, i, temp, k);
  }

  lemma StepRequestLast(arcs0: seq<Arc>, init: Table, i: nat, st: State, temp: int, r: nat, fd: int)
    requires i < |arcs0| == |st.arcs| && SourcesOpen(arcs0, init)
    requires InvSources(arcs0, init, i, st) && CanStep(st, i, temp)
    requires r < i && Requests(arcs0, r, fd) ==> InvRequest(arcs0, i, st, r, fd)
    requires r <= i && Requests(arcs0, r, fd)
    requires arcs0[i].source == fd && !Identity(arcs0[i]) && !ReadFrom(arcs0, i + 1, fd)
    ensures fd !in Step(st, i, temp).files
  {
    RequestedNotRedirected(arcs0, init, i, st, r, fd, i);
    assert InvSource(arcs0, init, st, i);
    forall j | i < j < |st.arcs|
      ensures !Touches(st.arcs[j], fd)
    {
      assert InvSource(arcs0, init, st, j);
    }
    if r < i {
      assert ReadFrom(arcs0, i, fd);
      var k0 :| i <= k0 < |st.arcs| && st.arcs[k0].source == fd && st.arcs[k0].close;
      assert k0 == i;
    }
    StepFile(st, i, temp, fd);
  }

  lemma StepSources(arcs0: seq<Arc>, init: Table, i: nat, st: State, temp: int)
    requires Inv(arcs0, init, i, st) && i < |arcs0| && CanStep(st, i, temp)
    ensures InvSources(arcs0, init, i + 1, Step(st, i, temp))
  {
    var st' := Step(st, i, temp);
    assert InvSource(arcs0, init, st, i);
    assert st'.arcs[i] == RedirectArc(st.arcs, i, temp, i);
    forall k | i + 1 <= k < |arcs0|
      ensures InvSource(arcs0, init, st', k)
      ensures st'.arcs[k].source in st'.temps <==> OverwrittenBefore(arcs0, i + 1, arcs0[k].source)
    {
      StepSource(arcs0, init, i, st, temp, k);
    }
  }

  lemma StepDones(arcs0: seq<Arc>, init: Table, i: nat, st: State, temp: int)
    requires i < |arcs0| == |st.arcs| && SourcesOpen(arcs0, init) && DistinctDests(arcs0)
    requires InvSources(arcs0, init, i, st) && InvDone(arcs0, init, i, st) && CanStep(st, i, temp)
    ensures InvDone(arcs0, init, i + 1, Step(st, i, temp))
  {
    assert InvSource(arcs0, init, st, i);
    var files := Step(st, i, temp).files;
    forall p | 0 <= p < i + 1 && !Identity(arcs0[p])
      ensures DestHolds(arcs0, init, files, p)
    {
      if p < i {
        StepDone(arcs0, init, i, st, temp, p);
      } else {
        StepDoneNow(arcs0, init, i, st, temp);
      }
    }
  }

  lemma StepClosing(arcs0: seq<Arc>, init: Table, i: nat, st: State, temp: int)
    requires Inv(arcs0, init, i, st) && i < |arcs0| && CanStep(st, i, temp)
    ensures InvCloseSound(arcs0, i + 1, Step(st, i, temp))
    ensures InvCloseComplete(arcs0, i + 1, Step(st, i, temp))
  {
    var st' := Step(st, i, temp);
    forall k | i + 1 <= k < |arcs0| && st'.arcs[k].close && st'.arcs[k].source !in st'.temps
      ensures exists r :: 0 <= r <= k && Held(arcs0, r, k)
    {
      StepCloseSound(arcs0, init, i, st, temp, k);
    }
    forall r, fd | 0 <= r < i + 1 && Requests(arcs0, r, fd)
      ensures InvRequest(arcs0, i + 1, st', r, fd)
    {
      StepRequest(arcs0, init, i, st, temp, r, fd);
    }
  }

  /** Every iteration keeps the invariant. */
  lemma StepKeepsInv(arcs0: seq<Arc>, init: Table, i: nat, st: State, temp: int)
    requires Inv(arcs0, init, i, st) && i < |arcs0| && CanStep(st, i, temp)
    ensures Inv(arcs0, init, i + 1, Step(st, i, temp))
  {
    StepSources(arcs0, init, i, st, temp);
    StepTemps(arcs0, init, i, st, temp);
    StepDones(arcs0, init, i, st, temp);
    StepRest(arcs0, init, i, st, temp);
    StepClosing(arcs0, init, i, st, temp);
  }

  // ---------------------------------------------------------------------------
  // The outcome
  // ---------------------------------------------------------------------------

  /** Only the first 16 duplicates are remembered and closed at the end. */
  const MAX_EXTRA_FDS := 16

  function Recorded(dups: seq<int>): seq<int> {
    if |dups| <= MAX_EXTRA_FDS then dups else dups[..MAX_EXTRA_FDS]
  }

  function Leaked(dups: seq<int>): seq<int> {
    if |dups| <= MAX_EXTRA_FDS then [] else dups[MAX_EXTRA_FDS..]
  }

  /** The exact table a successful shuffle leaves behind, `dups` being the
      descriptors the delegate handed out as duplicates, in order. */
  ghost predicate Outcome(arcs: seq<Arc>, init: Table, dups: seq<int>, final: Table)
    requires SourcesOpen(arcs, init)
  {
    && Distinct(dups)
    && (forall fd :: fd in dups && fd in init ==> ClosesSource(arcs, fd))
    && (forall fd :: fd in Recorded(dups) ==> fd !in final)
    && (forall p :: 0 <= p < |arcs| && arcs[p].dest !in Recorded(dups) && !ClosesSource(arcs, arcs[p].dest) ==>
          arcs[p].dest in final && final[arcs[p].dest] == init[arcs[p].source])
    && (forall fd :: fd in Leaked(dups) ==> fd in final)
    && (forall fd :: fd !in dups && ClosesSource(arcs, fd) ==> fd !in final)
    && (forall fd :: fd !in dups && !ClosesSource(arcs, fd) && !IsDest(arcs, fd) ==>
          (fd in final <==> fd in init) && (fd in final ==> final[fd] == init[fd]))
  }

  predicate AvoidsDests(arcs: seq<Arc>, dups: seq<int>) {
    forall fd :: fd in dups ==> !IsDest(arcs, fd)
  }

  /** The dests, among those of the first `n` arcs, that are overwritten while a later arc still reads them. */
  function Saved(arcs: seq<Arc>, n: nat): seq<int>
    requires n <= |arcs|
  {
    if n == 0 then []
    else Saved(arcs, n - 1) + if NeedsTemp(arcs, n - 1, |arcs|) then [arcs[n - 1].dest] else []
  }

  /** How many duplicates the first `n` arcs need. */
  function TempsNeeded(arcs: seq<Arc>, n: nat): nat
    requires n <= |arcs|
  {
    |Saved(arcs, n)|
  }

  /** Redirection does not change which iterations duplicate, if duplicates avoid the dests. */
  lemma NeedsTempIff(arcs0: seq<Arc>, init: Table, i: nat, st: State, dups: seq<int>)
    requires Inv(arcs0, init, i, st) && i < |arcs0|
    requires st.temps == (set fd | fd in dups) && AvoidsDests(arcs0, dups)
    ensures NeedsTemp(st.arcs, i, |st.arcs|) <==> NeedsTemp(arcs0, i, |arcs0|)
  {
    CurrentArc(arcs0, init, i, st);
    forall k | i < k < |arcs0|
      ensures st.arcs[k].source == st.arcs[i].dest <==> arcs0[k].source == arcs0[i].dest
    {
      assert InvSource(arcs0, init, st, k);
    }
  }

  lemma OutcomeDest(arcs: seq<Arc>, init: Table, st: State, p: nat)
    requires Inv(arcs, init, |arcs|, st)
    requires p < |arcs| && !ClosesSource(arcs, arcs[p].dest)
    ensures arcs[p].dest in st.files && st.files[arcs[p].dest] == init[arcs[p].source]
  {
    var fd := arcs[p].dest;
    if !Identity(arcs[p]) {
      assert DestHolds(arcs, init, st.files, p);
    } else {
      assert forall q :: 0 <= q < |arcs| ==> !Overwrites(arcs, q, fd);
    }
  }

  lemma OutcomeFromInv(arcs: seq<Arc>, init: Table, st: State, dups: seq<int>, final: Table)
    requires Inv(arcs, init, |arcs|, st)
    requires st.temps == set fd | fd in dups
    requires Distinct(dups)
    requires final == st.files - (set fd | fd in Recorded(dups))
    ensures Outcome(arcs, init, dups, final)
  {
    assert forall fd :: fd in Recorded(dups) ==> fd in dups;
    assert forall fd :: fd in Leaked(dups) ==> fd in dups && fd !in Recorded(dups);
    forall fd | fd !in dups && ClosesSource(arcs, fd)
      ensures fd !in final
    {
      var r :| 0 <= r < |arcs| && Requests(arcs, r, fd) && MovedFrom(arcs, r, |arcs|, fd);
      assert InvRequest(arcs, |arcs|, st, r, fd);
    }
    forall p | 0 <= p < |arcs| && arcs[p].dest !in Recorded(dups) && !ClosesSource(arcs, arcs[p].dest)
      ensures arcs[p].dest in final && final[arcs[p].dest] == init[arcs[p].source]
    {
      OutcomeDest(arcs, init, st, p);
    }
    forall fd | fd !in dups && !ClosesSource(arcs, fd) && !IsDest(arcs, fd)
      ensures (fd in final <==> fd in init) && (fd in final ==> final[fd] == init[fd])
    {
      assert !OverwrittenBefore(arcs, |arcs|, fd);
    }
  }

  // ---------------------------------------------------------------------------
  // What the outcome means
  // ---------------------------------------------------------------------------

  /** The simultaneous assignment: every dest holds what its source held at the start. */
  predicate Assigned(arcs: seq<Arc>, init: Table, final: Table)
    requires SourcesOpen(arcs, init)
  {
    forall p :: 0 <= p < |arcs| ==>
      arcs[p].dest in final && final[arcs[p].dest] == init[arcs[p].source]
  }

  /** No identity arc precedes another reader of its descriptor with either of them marked close. */
  predicate SafeIdentities(arcs: seq<Arc>) {
    forall p, q :: 0 <= p < q < |arcs| && Identity(arcs[p]) && arcs[q].source == arcs[p].source ==>
      !arcs[p].close && !arcs[q].close
  }

  /** The shuffle closes one of its own dests exactly when an identity arc is unsafe. */
  lemma ClosesDestIff(arcs: seq<Arc>)
    requires DistinctDests(arcs)
    ensures SafeIdentities(arcs) <==> forall p :: 0 <= p < |arcs| ==> !ClosesSource(arcs, arcs[p].dest)
  {
    forall p | 0 <= p < |arcs| && ClosesSource(arcs, arcs[p].dest)
      ensures !SafeIdentities(arcs)
    {
      var fd := arcs[p].dest;
      var r :| 0 <= r < |arcs| && Requests(arcs, r, fd) && MovedFrom(arcs, r, |arcs|, fd);
      var q :| r <= q < |arcs| && arcs[q].source == fd && !Identity(arcs[q]);
      assert p <= r && Identity(arcs[p]) && p < q;
    }
    forall p, q | 0 <= p < q < |arcs| && Identity(arcs[p]) && arcs[q].source == arcs[p].source
                  && (arcs[p].close || arcs[q].close)
      ensures ClosesSource(arcs, arcs[p].dest)
    {
      var r := if arcs[p].close then p else q;
      assert Requests(arcs, r, arcs[p].dest);
      assert arcs[q].dest != arcs[p].dest;
      assert MovedFrom(arcs, r, |arcs|, arcs[p].dest);
    }
  }

  /** Main result: if no duplicate takes the number of a dest, the sequential moves
      perform the simultaneous assignment exactly when identity arcs are safe. */
  lemma AssignedIffSafe(arcs: seq<Arc>, init: Table, dups: seq<int>, final: Table)
    requires DistinctDests(arcs) && SourcesOpen(arcs, init) && Outcome(arcs, init, dups, final)
    requires AvoidsDests(arcs, dups)
    ensures Assigned(arcs, init, final) <==> SafeIdentities(arcs)
  {
    ClosesDestIff(arcs);
    assert forall p :: 0 <= p < |arcs| ==> IsDest(arcs, arcs[p].dest);
    assert forall fd :: fd in Recorded(dups) ==> fd in dups;
  }

  /** With safe identity arcs, the assignment is performed exactly when none of the
      duplicates that are closed at the end took the number of a dest. */
  lemma AssignedIffFresh(arcs: seq<Arc>, init: Table, dups: seq<int>, final: Table)
    requires DistinctDests(arcs) && SourcesOpen(arcs, init) && Outcome(arcs, init, dups, final)
    requires SafeIdentities(arcs)
    ensures Assigned(arcs, init, final) <==> forall fd :: fd in Recorded(dups) ==> !IsDest(arcs, fd)
  {
    ClosesDestIff(arcs);
    assert forall p :: 0 <= p < |arcs| ==> IsDest(arcs, arcs[p].dest);
  }

  /** A source that is not a dest is closed exactly when some arc marks it. */
  lemma ClosesNonDestIff(arcs: seq<Arc>, fd: int)
    requires !IsDest(arcs, fd)
    ensures ClosesSource(arcs, fd) <==> Marked(arcs, fd)
  {
    forall r | 0 <= r < |arcs| && arcs[r].source == fd && arcs[r].close
      ensures ClosesSource(arcs, fd)
    {
      assert Requests(arcs, r, fd) && MovedFrom(arcs, r, |arcs|, fd);
    }
  }

  predicate Marked(arcs: seq<Arc>, fd: int) {
    exists r :: 0 <= r < |arcs| && arcs[r].source == fd && arcs[r].close
  }

  /** The whole table after one parallel assignment: every dest holds what its source
      held, marked sources that are not dests are closed, and nothing else changes. */
  ghost predicate ParallelAssignment(arcs: seq<Arc>, init: Table, final: Table)
    requires SourcesOpen(arcs, init)
  {
    && Assigned(arcs, init, final)
    && (forall fd :: !IsDest(arcs, fd) ==> (fd in final <==> fd in init && !Marked(arcs, fd)))
    && (forall fd :: !IsDest(arcs, fd) && fd in final && fd in init ==> final[fd] == init[fd])
  }
}
