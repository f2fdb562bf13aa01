/**
 Runs in which every duplicate gets the lowest closed descriptor, as dup() does.

 Such a run is determined by its input.  `LowestDups` computes the duplicates from the
 arcs and the initial table alone, without performing the moves, and decides whether the
 run performs the simultaneous assignment.
 */
module FdShuffleLowest {
  import opened Common
  import opened FdShuffleSpec
  import opened FdShuffleRuns

  /** The least number from n on that is not in `open`. */
  function LeastFrom(open: set<int>, n: nat): (r: nat)
    ensures r >= n && r !in open
    decreases |open|
  {
    if n in open then LeastFrom(open - {n}, n + 1) else n
  }

  lemma {:induction false} LeastIsLeast(open: set<int>, n: nat, k: nat)
    requires n <= k < LeastFrom(open, n)
    ensures k in open
    decreases |open|
  {
    if k > n {
      LeastIsLeast(open - {n}, n + 1, k);
    }
  }

  // ---------------------------------------------------------------------------
  // Which descriptors are open before iteration i
  // ---------------------------------------------------------------------------

  /** Source `fd` has been closed by the first `i` iterations: a request stands, and the last reader is done. */
  predicate ClosedBy(arcs: seq<Arc>, i: nat, fd: int)
    requires i <= |arcs|
  {
    !ReadFrom(arcs, i, fd) && exists r :: 0 <= r < i && Requests(arcs, r, fd) && MovedFrom(arcs, r, i, fd)
  }

  /** What is open before iteration i if `dups` are the duplicates made by then. */
  function OpenSet(arcs: seq<Arc>, init: Table, i: nat, dups: seq<int>): set<int>
    requires i <= |arcs|
  {
    (set fd | fd in dups)
    + (set p | 0 <= p < i && !Identity(arcs[p]) :: arcs[p].dest)
    + (set fd | fd in init && !ClosedBy(arcs, i, fd))
  }

  /** A descriptor that was open and is not any more has been closed as a source. */
  ghost predicate InvClosed(arcs: seq<Arc>, init: Table, i: nat, st: State)
    requires i <= |arcs|
  {
    forall fd :: fd in init && fd !in st.files ==> ClosedBy(arcs, i, fd)
  }

  lemma ClosedStays(arcs: seq<Arc>, i: nat, fd: int)
    requires i < |arcs| && ClosedBy(arcs, i, fd)
    ensures ClosedBy(arcs, i + 1, fd)
  {
    var r :| 0 <= r < i && Requests(arcs, r, fd) && MovedFrom(arcs, r, i, fd);
    assert MovedFrom(arcs, r, i + 1, fd);
  }

  /** A close performed by iteration i is that of a source whose last reader is arc i. */
  lemma ClosedNow(arcs: seq<Arc>, init: Table, i: nat, st: State)
    requires Inv(arcs, init, i, st) && i < |arcs|
    requires !Identity(st.arcs[i]) && st.arcs[i].close && NoTouch(st.arcs, i, |st.arcs|)
    ensures ClosedBy(arcs, i + 1, st.arcs[i].source)
  {
    var fd := st.arcs[i].source;
    var r := CloseRequest(arcs, init, i, st);
    forall k | i + 1 <= k < |arcs|
      ensures arcs[k].source != fd
    {
      if arcs[k].source == fd {
        RequestedNotRedirected(arcs, init, i, st, r, fd, k);
      }
    }
  }

  lemma StepClosed(arcs: seq<Arc>, init: Table, i: nat, st: State, temp: int)
    requires Inv(arcs, init, i, st) && i < |arcs| && CanStep(st, i, temp) && InvClosed(arcs, init, i, st)
    ensures InvClosed(arcs, init, i + 1, Step(st, i, temp))
  {
    hide Inv, ClosedBy;
    var files := Step(st, i, temp).files;
    InvTempsOpen(arcs, init, i, st);
    forall fd | fd in init && fd !in files
      ensures ClosedBy(arcs, i + 1, fd)
    {
      if fd in st.files {
        StepFile(st, i, temp, fd);
        ClosedNow(arcs, init, i, st);
      } else {
        ClosedStays(arcs, i, fd);
      }
    }
  }

  lemma {:induction false} AfterClosed(arcs: seq<Arc>, init: Table, temps: seq<int>)
    requires DistinctDests(arcs) && SourcesOpen(arcs, init) && After(arcs, init, temps).Some?
    ensures |temps| <= |arcs| && InvClosed(arcs, init, |temps|, After(arcs, init, temps).value.st)
  {
    hide Inv, Step, InvClosed, CanStep, NeedsTemp;
    if temps == [] {
      NothingClosed(arcs, init);
    } else {
      var n := |temps| - 1;
      AfterClosed(arcs, init, temps[..n]);
      AfterInv(arcs, init, temps[..n]);
      var p := After(arcs, init, temps[..n]).value;
      InvTempsOpen(arcs, init, n, p.st);
      CanStepBound(p.st, n, temps[n]);
      StepClosed(arcs, init, n, p.st, temps[n]);
    }
  }

  lemma NothingClosed(arcs: seq<Arc>, init: Table)
    ensures InvClosed(arcs, init, 0, State(arcs, init, {}))
  {
  }

  /** The open descriptors, read off the input and the duplicates. */
  lemma OpenAre(arcs: seq<Arc>, init: Table, i: nat, st: State, dups: seq<int>)
    requires Inv(arcs, init, i, st) && InvClosed(arcs, init, i, st) && st.temps == set fd | fd in dups
    ensures st.files.Keys == OpenSet(arcs, init, i, dups)
  {
    hide ClosedBy, InvSources, InvCloseSound;
    forall fd
      ensures fd in st.files <==> fd in OpenSet(arcs, init, i, dups)
    {
      OpenOne(arcs, init, i, st, fd);
      assert fd in OpenSet(arcs, init, i, dups)
             <==> fd in dups || OverwrittenBefore(arcs, i, fd) || (fd in init && !ClosedBy(arcs, i, fd)) by {
        OpenSetHas(arcs, init, i, dups, fd);
      }
    }
  }

  lemma OpenSetHas(arcs: seq<Arc>, init: Table, i: nat, dups: seq<int>, fd: int)
    requires i <= |arcs|
    ensures fd in OpenSet(arcs, init, i, dups)
            <==> fd in dups || OverwrittenBefore(arcs, i, fd) || (fd in init && !ClosedBy(arcs, i, fd))
  {
    hide ClosedBy;
    if OverwrittenBefore(arcs, i, fd) {
      var p :| 0 <= p < i && Overwrites(arcs, p, fd);
      assert arcs[p].dest == fd && !Identity(arcs[p]);
    }
    if p :| 0 <= p < i && !Identity(arcs[p]) && arcs[p].dest == fd {
      assert Overwrites(arcs, p, fd);
    }
  }

  lemma OpenOne(arcs: seq<Arc>, init: Table, i: nat, st: State, fd: int)
    requires Inv(arcs, init, i, st) && InvClosed(arcs, init, i, st)
    ensures fd in st.files
            <==> fd in st.temps || OverwrittenBefore(arcs, i, fd) || (fd in init && !ClosedBy(arcs, i, fd))
  {
    if OverwrittenBefore(arcs, i, fd) {
      var p :| 0 <= p < i && Overwrites(arcs, p, fd);
      assert DestHolds(arcs, init, st.files, p);
    } else if fd !in st.temps && ClosedBy(arcs, i, fd) {
      var r :| 0 <= r < i && Requests(arcs, r, fd) && MovedFrom(arcs, r, i, fd);
      assert InvRequest(arcs, i, st, r, fd);
    }
  }

  // ---------------------------------------------------------------------------
  // The duplicates of the run with lowest numbers
  // ---------------------------------------------------------------------------

  /** The duplicates that the first `n` iterations get, as long as none of them is a dest. */
  function LowestDups(arcs: seq<Arc>, init: Table, n: nat): seq<int>
    requires n <= |arcs|
  {
    if n == 0 then []
    else
      var dups := LowestDups(arcs, init, n - 1);
      if NeedsTemp(arcs, n - 1, |arcs|) then dups + [LeastFrom(OpenSet(arcs, init, n - 1, dups), 0)] else dups
  }

  /** Every duplicate of the run got the lowest closed descriptor. */
  predicate IsLowest(arcs: seq<Arc>, init: Table, temps: seq<int>)
    requires After(arcs, init, temps).Some?
    decreases |temps|
  {
    temps != [] ==>
      var n := |temps| - 1;
      var st := After(arcs, init, temps[..n]).value.st;
      && IsLowest(arcs, init, temps[..n])
      && (NeedsTemp(st.arcs, n, |st.arcs|) ==> temps[n] == LeastFrom(st.files.Keys, 0))
  }

  /** There is such a run. */
  lemma {:induction false} LowestRunExists(arcs: seq<Arc>, init: Table, n: nat) returns (temps: seq<int>)
    requires DistinctDests(arcs) && SourcesOpen(arcs, init) && n <= |arcs|
    ensures |temps| == n && After(arcs, init, temps).Some? && IsLowest(arcs, init, temps)
  {
    hide Inv, Step, After, CanStep, NeedsTemp;
    if n == 0 {
      temps := [];
      NothingDone(arcs, init);
    } else {
      var front := LowestRunExists(arcs, init, n - 1);
      AfterInv(arcs, init, front);
      var p := After(arcs, init, front).value;
      var temp := LeastFrom(p.st.files.Keys, 0);
      InvCanStep(arcs, init, n - 1, p.st, temp);
      AfterPush(arcs, init, front, temp, p.st, p.dups);
      temps := front + [temp];
      assert temps[..n - 1] == front;
    }
  }

  /** Two lists agree up to the first dest in them. */
  predicate AgreeUpToDest(arcs: seq<Arc>, a: seq<int>, b: seq<int>) {
    (a == b && AvoidsDests(arcs, a))
    || exists k :: 0 <= k < |a| && k < |b| && a[..k] == b[..k] && AvoidsDests(arcs, a[..k]) && a[k] == b[k] && IsDest(arcs, a[k])
  }

  lemma AgreeMore(arcs: seq<Arc>, a: seq<int>, b: seq<int>, a': seq<int>, b': seq<int>)
    requires AgreeUpToDest(arcs, a, b) && a <= a' && b <= b'
    requires !(a == b && AvoidsDests(arcs, a))
    ensures AgreeUpToDest(arcs, a', b')
  {
    hide AvoidsDests, IsDest;
    var k :| 0 <= k < |a| && k < |b| && a[..k] == b[..k] && AvoidsDests(arcs, a[..k]) && a[k] == b[k] && IsDest(arcs, a[k]);
    assert a'[..k] == a[..k] && b'[..k] == b[..k];
  }

  lemma AgreePush(arcs: seq<Arc>, a: seq<int>, x: int)
    requires AvoidsDests(arcs, a)
    ensures AgreeUpToDest(arcs, a + [x], a + [x])
  {
    if IsDest(arcs, x) {
      assert (a + [x])[..|a|] == a && (a + [x])[|a|] == x;
    }
  }

  /** The duplicates of the run are those computed from the input, up to the first that is a dest. */
  lemma {:induction false} LowestAgree(arcs: seq<Arc>, init: Table, temps: seq<int>)
    requires DistinctDests(arcs) && SourcesOpen(arcs, init) && After(arcs, init, temps).Some? && IsLowest(arcs, init, temps)
    ensures |temps| <= |arcs|
    ensures AgreeUpToDest(arcs, After(arcs, init, temps).value.dups, LowestDups(arcs, init, |temps|))
    decreases |temps|
  {
    hide Inv, Step, CanStep, NeedsTemp, AvoidsDests, AgreeUpToDest, OpenSet;
    if temps == [] {
      AgreeNone(arcs);
    } else {
      var n := |temps| - 1;
      LowestAgree(arcs, init, temps[..n]);
      AfterInv(arcs, init, temps[..n]);
      AfterClosed(arcs, init, temps[..n]);
      var p := After(arcs, init, temps[..n]).value;
      InvTempsOpen(arcs, init, n, p.st);
      CanStepBound(p.st, n, temps[n]);
      var low := LowestDups(arcs, init, n);
      if p.dups == low && AvoidsDests(arcs, low) {
        NeedsTempIff(arcs, init, n, p.st, p.dups);
        OpenAre(arcs, init, n, p.st, p.dups);
        AgreePush(arcs, low, temps[n]);
      } else {
        AgreeMore(arcs, p.dups, low, After(arcs, init, temps).value.dups, LowestDups(arcs, init, n + 1));
      }
    }
  }

  lemma AgreeNone(arcs: seq<Arc>)
    ensures AgreeUpToDest(arcs, [], [])
  {
  }

  lemma AgreeRecorded(arcs: seq<Arc>, a: seq<int>, b: seq<int>)
    requires AgreeUpToDest(arcs, a, b)
    ensures AvoidsDests(arcs, Recorded(a)) <==> AvoidsDests(arcs, Recorded(b))
  {
    hide IsDest;
    if !(a == b && AvoidsDests(arcs, a)) {
      var k :| 0 <= k < |a| && k < |b| && a[..k] == b[..k] && AvoidsDests(arcs, a[..k]) && a[k] == b[k] && IsDest(arcs, a[k]);
      if k < MAX_EXTRA_FDS {
        assert Recorded(a)[k] == a[k] && Recorded(b)[k] == b[k];
      } else {
        assert Recorded(a) == a[..k][..MAX_EXTRA_FDS] == Recorded(b);
      }
    }
  }

  // ---------------------------------------------------------------------------
  // The theorem
  // ---------------------------------------------------------------------------

  /** With safe identity arcs, the run with lowest numbers performs the simultaneous assignment if and
      only if none of the first 16 duplicates, computed from the input, is a dest. */
  lemma LowestAssignsIff(arcs: seq<Arc>, init: Table, temps: seq<int>)
    requires DistinctDests(arcs) && SourcesOpen(arcs, init) && SafeIdentities(arcs)
    requires IsRun(arcs, init, temps) && IsLowest(arcs, init, temps)
    ensures var dups := LowestDups(arcs, init, |arcs|);
            Assigned(arcs, init, Final(arcs, init, temps))
            <==> forall k :: 0 <= k < |dups| && k < 16 ==> !IsDest(arcs, dups[k])
  {
    hide After, IsLowest, LowestDups, SafeIdentities, Outcome, Assigned, AgreeUpToDest, IsDest;
    RunOutcome(arcs, init, temps);
    AssignedIffFresh(arcs, init, DupsOf(arcs, init, temps), Final(arcs, init, temps));
    LowestAgree(arcs, init, temps);
    var dups := LowestDups(arcs, init, |arcs|);
    AgreeRecorded(arcs, DupsOf(arcs, init, temps), dups);
    assert forall k :: 0 <= k < |Recorded(dups)| ==> Recorded(dups)[k] == dups[k];
    assert forall k :: 0 <= k < |dups| && k < 16 ==> dups[k] in Recorded(dups) by {
      assert forall k :: 0 <= k < |dups| && k < 16 ==> Recorded(dups)[k] == dups[k];
    }
  }

  /** With an unsafe identity arc no run that leaks nothing performs it, whatever numbers duplicates get. */
  lemma UnsafeNeverAssigns(arcs: seq<Arc>, init: Table, temps: seq<int>)
    requires DistinctDests(arcs) && SourcesOpen(arcs, init) && IsRun(arcs, init, temps)
    requires !SafeIdentities(arcs) && |DupsOf(arcs, init, temps)| <= 16
    ensures !Assigned(arcs, init, Final(arcs, init, temps))
  {
    hide After, SafeIdentities, ClosesSource;
    RunOutcome(arcs, init, temps);
    ClosesDestIff(arcs);
    var p :| 0 <= p < |arcs| && ClosesSource(arcs, arcs[p].dest);
    assert arcs[p].dest !in Final(arcs, init, temps);
  }
}
