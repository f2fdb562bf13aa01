/**
 Whole runs of the shuffle, as values, and when every one of them performs the
 simultaneous assignment.

 A run is told by the numbers that duplicates get: `temps[i]` is the number handed
 out in iteration i, if that iteration duplicates.  Any closed number is possible.
 */
module FdShuffleRuns {
  import opened Common
  import opened FdShuffleSpec

  /** The state after some iterations, and the duplicates handed out so far, in order. */
  datatype Progress = Progress(st: State, dups: seq<int>)

  /** After |temps| iterations, if the numbers in `temps` can be handed out. */
  function After(arcs: seq<Arc>, init: Table, temps: seq<int>): Option<Progress> {
    if temps == [] then Some(Progress(State(arcs, init, {}), []))
    else
      var n := |temps| - 1;
      match After(arcs, init, temps[..n])
      case None => None
      case Some(Progress(st, dups)) =>
        if CanStep(st, n, temps[n])
        then Some(Progress(Step(st, n, temps[n]), if NeedsTemp(st.arcs, n, |st.arcs|) then dups + [temps[n]] else dups))
        else None
  }

  predicate IsRun(arcs: seq<Arc>, init: Table, temps: seq<int>) {
    |temps| == |arcs| && After(arcs, init, temps).Some?
  }

  function DupsOf(arcs: seq<Arc>, init: Table, temps: seq<int>): seq<int>
    requires IsRun(arcs, init, temps)
  {
    After(arcs, init, temps).value.dups
  }

  /** The table once the recorded duplicates are closed. */
  function Final(arcs: seq<Arc>, init: Table, temps: seq<int>): Table
    requires IsRun(arcs, init, temps)
  {
    After(arcs, init, temps).value.st.files - (set fd | fd in Recorded(DupsOf(arcs, init, temps)))
  }

  lemma AfterPush(arcs: seq<Arc>, init: Table, temps: seq<int>, temp: int, st: State, dups: seq<int>)
    requires After(arcs, init, temps) == Some(Progress(st, dups)) && CanStep(st, |temps|, temp)
    ensures After(arcs, init, temps + [temp])
            == Some(Progress(Step(st, |temps|, temp),
                             if NeedsTemp(st.arcs, |temps|, |st.arcs|) then dups + [temp] else dups))
  {
    assert (temps + [temp])[..|temps|] == temps;
  }

  // ---------------------------------------------------------------------------
  // What holds along every run
  // ---------------------------------------------------------------------------

  lemma {:induction false} AfterInv(arcs: seq<Arc>, init: Table, temps: seq<int>)
    requires DistinctDests(arcs) && SourcesOpen(arcs, init) && After(arcs, init, temps).Some?
    ensures var p := After(arcs, init, temps).value;
            && Inv(arcs, init, |temps|, p.st)
            && Distinct(p.dups) && p.st.temps == (set fd | fd in p.dups)
  {
    hide Inv, Step;
    if temps == [] {
      InvInitially(arcs, init);
    } else {
      var n := |temps| - 1;
      AfterInv(arcs, init, temps[..n]);
      var p := After(arcs, init, temps[..n]).value;
      InvTempsOpen(arcs, init, n, p.st);
      StepKeepsInv(arcs, init, n, p.st, temps[n]);
      StepTempsSet(p.st, n, temps[n]);
    }
  }

  lemma StepTempsSet(st: State, i: nat, temp: int)
    requires CanStep(st, i, temp)
    ensures Step(st, i, temp).temps == if NeedsTemp(st.arcs, i, |st.arcs|) then st.temps + {temp} else st.temps
  {
  }

  lemma InvTempsOpen(arcs: seq<Arc>, init: Table, i: nat, st: State)
    requires Inv(arcs, init, i, st)
    ensures st.temps <= st.files.Keys && |st.arcs| == |arcs|
  {
  }

  /** The final table of every run is exactly `Outcome`. */
  lemma RunOutcome(arcs: seq<Arc>, init: Table, temps: seq<int>)
    requires DistinctDests(arcs) && SourcesOpen(arcs, init) && IsRun(arcs, init, temps)
    ensures Outcome(arcs, init, DupsOf(arcs, init, temps), Final(arcs, init, temps))
  {
    hide Inv, Outcome;
    AfterInv(arcs, init, temps);
    var p := After(arcs, init, temps).value;
    OutcomeFromInv(arcs, init, p.st, p.dups, Final(arcs, init, temps));
  }

  /** As long as duplicates avoid the dests, there is one for each dest to be saved. */
  lemma {:induction false} AfterCount(arcs: seq<Arc>, init: Table, temps: seq<int>)
    requires DistinctDests(arcs) && SourcesOpen(arcs, init) && After(arcs, init, temps).Some?
    ensures |temps| <= |arcs|
    ensures var dups := After(arcs, init, temps).value.dups;
            AvoidsDests(arcs, dups) ==> |dups| == TempsNeeded(arcs, |temps|)
  {
    hide Inv, Step, AvoidsDests;
    if temps != [] {
      var n := |temps| - 1;
      AfterCount(arcs, init, temps[..n]);
      AfterInv(arcs, init, temps[..n]);
      var p, dups := After(arcs, init, temps[..n]).value, After(arcs, init, temps).value.dups;
      InvTempsOpen(arcs, init, n, p.st);
      if AvoidsDests(arcs, dups) {
        AvoidsFewer(arcs, p.dups, dups);
        NeedsTempIff(arcs, init, n, p.st, p.dups);
      }
    }
  }

  lemma AvoidsFewer(arcs: seq<Arc>, dups: seq<int>, more: seq<int>)
    requires AvoidsDests(arcs, more) && forall fd :: fd in dups ==> fd in more
    ensures AvoidsDests(arcs, dups)
  {
  }

  // ---------------------------------------------------------------------------
  // What duplicates hold
  // ---------------------------------------------------------------------------

  /** Each duplicate refers to what the dest it was made for held at the start. */
  predicate Copies(init: Table, files: Table, dups: seq<int>, saved: seq<int>) {
    |dups| == |saved| && forall k :: 0 <= k < |dups| ==>
      dups[k] in files && saved[k] in init && files[dups[k]] == init[saved[k]]
  }

  lemma {:induction false} AfterCopies(arcs: seq<Arc>, init: Table, temps: seq<int>)
    requires DistinctDests(arcs) && SourcesOpen(arcs, init) && After(arcs, init, temps).Some?
    requires AvoidsDests(arcs, After(arcs, init, temps).value.dups)
    ensures |temps| <= |arcs|
    ensures var p := After(arcs, init, temps).value; Copies(init, p.st.files, p.dups, Saved(arcs, |temps|))
  {
    hide Inv, Step, AvoidsDests, Copies, CanStep, NeedsTemp;
    if temps == [] {
      CopiesNone(init);
    } else {
      var n := |temps| - 1;
      var p, p' := After(arcs, init, temps[..n]).value, After(arcs, init, temps).value;
      AvoidsFewer(arcs, p.dups, p'.dups);
      AfterCopies(arcs, init, temps[..n]);
      AfterInv(arcs, init, temps[..n]);
      InvTempsOpen(arcs, init, n, p.st);
      assert n < |arcs| by { CanStepBound(p.st, n, temps[n]); }
      NeedsTempIff(arcs, init, n, p.st, p.dups);
      StepCopies(arcs, init, n, p, temps[n]);
    }
  }

  lemma CopiesNone(init: Table)
    ensures Copies(init, init, [], [])
  {
  }

  lemma CanStepBound(st: State, i: nat, temp: int)
    requires CanStep(st, i, temp)
    ensures i < |st.arcs|
  {
  }

  lemma StepCopies(arcs: seq<Arc>, init: Table, i: nat, p: Progress, temp: int)
    requires i < |arcs| && Inv(arcs, init, i, p.st) && CanStep(p.st, i, temp)
    requires p.st.temps == set fd | fd in p.dups
    requires NeedsTemp(p.st.arcs, i, |p.st.arcs|) <==> NeedsTemp(arcs, i, |arcs|)
    requires AvoidsDests(arcs, if NeedsTemp(arcs, i, |arcs|) then p.dups + [temp] else p.dups)
    requires Copies(init, p.st.files, p.dups, Saved(arcs, i))
    ensures Copies(init, Step(p.st, i, temp).files,
                   if NeedsTemp(arcs, i, |arcs|) then p.dups + [temp] else p.dups, Saved(arcs, i + 1))
  {
    hide RedirectArc, Saved;
    var files := Step(p.st, i, temp).files;
    forall k | 0 <= k < |p.dups|
      ensures p.dups[k] in files && files[p.dups[k]] == p.st.files[p.dups[k]]
    {
      assert p.dups[k] in p.dups;
      DuplicateStays(arcs, init, i, p.st, temp, p.dups[k]);
    }
    assert Saved(arcs, i + 1) == Saved(arcs, i) + if NeedsTemp(arcs, i, |arcs|) then [arcs[i].dest] else [] by {
      SavedNext(arcs, i);
    }
    if NeedsTemp(arcs, i, |arcs|) {
      assert temp in p.dups + [temp];
      NewDuplicate(arcs, init, i, p.st, temp);
    }
  }

  lemma SavedNext(arcs: seq<Arc>, i: nat)
    requires i < |arcs|
    ensures Saved(arcs, i + 1) == Saved(arcs, i) + if NeedsTemp(arcs, i, |arcs|) then [arcs[i].dest] else []
  {
  }

  lemma DuplicateStays(arcs: seq<Arc>, init: Table, i: nat, st: State, temp: int, fd: int)
    requires i < |arcs| && Inv(arcs, init, i, st) && CanStep(st, i, temp)
    requires fd in st.temps && !IsDest(arcs, fd)
    ensures var files := Step(st, i, temp).files; fd in files && files[fd] == st.files[fd]
  {
    assert InvSource(arcs, init, st, i);
    assert arcs[i].dest != fd;
    StepFile(st, i, temp, fd);
  }

  lemma NewDuplicate(arcs: seq<Arc>, init: Table, i: nat, st: State, temp: int)
    requires i < |arcs| && Inv(arcs, init, i, st) && CanStep(st, i, temp) && NeedsTemp(st.arcs, i, |st.arcs|)
    requires !IsDest(arcs, temp) && forall fd :: fd in st.temps ==> !IsDest(arcs, fd)
    ensures var files := Step(st, i, temp).files;
            temp in files && arcs[i].dest in init && files[temp] == init[arcs[i].dest]
  {
    assert InvSource(arcs, init, st, i);
    var dest := arcs[i].dest;
    assert IsDest(arcs, dest);
    assert !OverwrittenBefore(arcs, i, dest);
    assert Step(st, i, temp).arcs[i] == RedirectArc(st.arcs, i, temp, i);
  }

  /** A leaked duplicate stays open on the file that the dest it was made for held at the start. */
  lemma LeakedHolds(arcs: seq<Arc>, init: Table, temps: seq<int>)
    requires DistinctDests(arcs) && SourcesOpen(arcs, init) && IsRun(arcs, init, temps)
    requires AvoidsDests(arcs, DupsOf(arcs, init, temps))
    ensures var dups, saved, final := DupsOf(arcs, init, temps), Saved(arcs, |arcs|), Final(arcs, init, temps);
            && |dups| == |saved|
            && forall k :: 16 <= k < |dups| ==>
                 dups[k] in final && saved[k] in init && final[dups[k]] == init[saved[k]]
  {
    hide Inv, Saved, After, AvoidsDests;
    AfterCopies(arcs, init, temps);
    AfterInv(arcs, init, temps);
    var dups := DupsOf(arcs, init, temps);
    forall k | MAX_EXTRA_FDS <= k < |dups|
      ensures dups[k] !in Recorded(dups)
    {
      assert forall j :: 0 <= j < MAX_EXTRA_FDS ==> Recorded(dups)[j] == dups[j] != dups[k];
    }
  }

  // ---------------------------------------------------------------------------
  // When a duplicate can take the number of a dest
  // ---------------------------------------------------------------------------

  /** Iteration i duplicates while there is room to record it, and the dest of the
      later arc p is a number that is not open yet. */
  predicate ExposedAt(arcs: seq<Arc>, init: Table, i: nat, p: nat)
    requires i < p < |arcs|
  {
    && NeedsTemp(arcs, i, |arcs|)
    && TempsNeeded(arcs, i) < 16
    && arcs[p].dest !in init
    && arcs[p].dest >= 0
  }

  predicate Exposed(arcs: seq<Arc>, init: Table) {
    exists i, p :: 0 <= i < p < |arcs| && ExposedAt(arcs, init, i, p)
  }

  /** Only the dest of a later arc that was closed at the start can be taken. */
  lemma TakenDest(arcs: seq<Arc>, init: Table, i: nat, st: State, temp: int, p: nat)
    requires i < |arcs| && Inv(arcs, init, i, st) && CanStep(st, i, temp) && NeedsTemp(st.arcs, i, |st.arcs|)
    requires SafeIdentities(arcs) && p < |arcs| && arcs[p].dest == temp
    ensures i < p && temp !in init && temp >= 0
  {
    hide ClosesSource;
    assert InvSource(arcs, init, st, i);
    ClosesDestIff(arcs);
    assert p < i && !Identity(arcs[p]) ==> DestHolds(arcs, init, st.files, p);
    assert !ClosesSource(arcs, temp);
  }

  /** Unless the arcs are exposed, no recorded duplicate is a dest, and 16 duplicates
      suffice exactly if no more are needed. */
  lemma {:induction false} NotExposed(arcs: seq<Arc>, init: Table, temps: seq<int>)
    requires DistinctDests(arcs) && SourcesOpen(arcs, init) && After(arcs, init, temps).Some?
    requires SafeIdentities(arcs) && !Exposed(arcs, init)
    ensures |temps| <= |arcs|
    ensures var dups := After(arcs, init, temps).value.dups;
            && AvoidsDests(arcs, Recorded(dups))
            && (|dups| <= MAX_EXTRA_FDS ==> |dups| == TempsNeeded(arcs, |temps|))
            && (|dups| > MAX_EXTRA_FDS ==> TempsNeeded(arcs, |temps|) > MAX_EXTRA_FDS)
  {
    hide Inv, Step, SafeIdentities, Exposed, CanStep, NeedsTemp, AvoidsDests;
    if temps == [] {
      AvoidsNone(arcs);
    } else {
      var n := |temps| - 1;
      NotExposed(arcs, init, temps[..n]);
      AfterInv(arcs, init, temps[..n]);
      var p := After(arcs, init, temps[..n]).value;
      InvTempsOpen(arcs, init, n, p.st);
      CanStepBound(p.st, n, temps[n]);
      if |p.dups| <= MAX_EXTRA_FDS {
        NeedsTempIff(arcs, init, n, p.st, p.dups);
        if |p.dups| < MAX_EXTRA_FDS && NeedsTemp(arcs, n, |arcs|) {
          NextAvoids(arcs, init, n, p, temps[n]);
        }
      }
      assert |p.dups| >= MAX_EXTRA_FDS ==> Recorded(p.dups + [temps[n]]) == Recorded(p.dups);
    }
  }

  lemma AvoidsNone(arcs: seq<Arc>)
    ensures AvoidsDests(arcs, [])
  {
  }

  lemma NextAvoids(arcs: seq<Arc>, init: Table, i: nat, p: Progress, temp: int)
    requires i < |arcs| && Inv(arcs, init, i, p.st) && CanStep(p.st, i, temp)
    requires NeedsTemp(p.st.arcs, i, |p.st.arcs|) && NeedsTemp(arcs, i, |arcs|)
    requires SafeIdentities(arcs) && !Exposed(arcs, init) && TempsNeeded(arcs, i) < MAX_EXTRA_FDS
    requires AvoidsDests(arcs, p.dups)
    ensures AvoidsDests(arcs, p.dups + [temp])
  {
    hide Inv, SafeIdentities, CanStep, NeedsTemp, TempsNeeded;
    forall q | 0 <= q < |arcs| && arcs[q].dest == temp
      ensures i < q && ExposedAt(arcs, init, i, q)
    {
      TakenDest(arcs, init, i, p.st, temp, q);
    }
  }

  // ---------------------------------------------------------------------------
  // Choosing the numbers
  // ---------------------------------------------------------------------------

  /** A finite set of numbers leaves some natural number out. */
  lemma SomeFree(used: set<int>) returns (free: nat)
    ensures free !in used
    ensures forall fd :: fd in used ==> fd < free
    decreases used
  {
    if x :| x in used {
      var f := SomeFree(used - {x});
      free := if x < f then f else x + 1;
      assert forall fd :: fd in used ==> fd == x || fd in used - {x};
    } else {
      free := 0;
    }
  }

  /** Any run can be carried on, and so that the further duplicates avoid the dests. */
  lemma {:induction false} CarryOn(arcs: seq<Arc>, init: Table, temps: seq<int>, n: nat) returns (longer: seq<int>)
    requires DistinctDests(arcs) && SourcesOpen(arcs, init) && After(arcs, init, temps).Some?
    requires |temps| <= n <= |arcs|
    ensures |longer| == n && After(arcs, init, longer).Some?
    ensures var dups, dups' := After(arcs, init, temps).value.dups, After(arcs, init, longer).value.dups;
            dups <= dups' && (AvoidsDests(arcs, dups) ==> AvoidsDests(arcs, dups'))
    decreases n - |temps|
  {
    hide Inv, Step, After;
    longer := temps;
    if |temps| < n {
      var p := After(arcs, init, temps).value;
      AfterInv(arcs, init, temps);
      var dests := set k | 0 <= k < |arcs| :: arcs[k].dest;
      var temp := SomeFree(p.st.files.Keys + dests);
      assert !IsDest(arcs, temp) by {
        assert forall k :: 0 <= k < |arcs| ==> arcs[k].dest in dests;
      }
      InvCanStep(arcs, init, |temps|, p.st, temp);
      AfterPush(arcs, init, temps, temp, p.st, p.dups);
      longer := CarryOn(arcs, init, temps + [temp], n);
    }
  }

  lemma NothingDone(arcs: seq<Arc>, init: Table)
    ensures After(arcs, init, []) == Some(Progress(State(arcs, init, {}), [])) && AvoidsDests(arcs, [])
  {
  }

  /** If the arcs are exposed, some run hands out the dest of a later arc and closes it at the end. */
  lemma ExposedFails(arcs: seq<Arc>, init: Table) returns (temps: seq<int>)
    requires DistinctDests(arcs) && SourcesOpen(arcs, init) && Exposed(arcs, init)
    ensures IsRun(arcs, init, temps) && !Assigned(arcs, init, Final(arcs, init, temps))
  {
    hide Inv, Step, After, NeedsTemp, TempsNeeded, AvoidsDests, Outcome, CanStep;
    var i, p :| 0 <= i < p < |arcs| && ExposedAt(arcs, init, i, p);
    NothingDone(arcs, init);
    var front := CarryOn(arcs, init, [], i);
    AfterInv(arcs, init, front);
    AfterCount(arcs, init, front);
    var at, temp := After(arcs, init, front).value, arcs[p].dest;
    DestStillClosed(arcs, init, i, at.st, at.dups, p);
    NeedsTempIff(arcs, init, i, at.st, at.dups);
    InvTempsOpen(arcs, init, i, at.st);
    InvCanStep(arcs, init, i, at.st, temp);
    AfterPush(arcs, init, front, temp, at.st, at.dups);
    temps := CarryOn(arcs, init, front + [temp], |arcs|);
    var dups := DupsOf(arcs, init, temps);
    assert dups[|at.dups|] == (at.dups + [temp])[|at.dups|] == temp;
    assert Recorded(dups)[|at.dups|] == temp;
    assert temp !in Final(arcs, init, temps);
  }

  lemma DestStillClosed(arcs: seq<Arc>, init: Table, i: nat, st: State, dups: seq<int>, p: nat)
    requires Inv(arcs, init, i, st) && st.temps == (set fd | fd in dups) && AvoidsDests(arcs, dups)
    requires i < p < |arcs| && arcs[p].dest !in init
    ensures arcs[p].dest !in st.files
  {
    assert IsDest(arcs, arcs[p].dest);
    assert !OverwrittenBefore(arcs, i, arcs[p].dest);
  }

  // ---------------------------------------------------------------------------
  // The theorems
  // ---------------------------------------------------------------------------

  ghost predicate AlwaysAssigns(arcs: seq<Arc>, init: Table)
    requires SourcesOpen(arcs, init)
  {
    forall temps :: IsRun(arcs, init, temps) ==> Assigned(arcs, init, Final(arcs, init, temps))
  }

  /** A run that succeeds performs the simultaneous assignment if identity arcs are safe and the arcs not exposed. */
  lemma RunAssigns(arcs: seq<Arc>, init: Table, temps: seq<int>)
    requires DistinctDests(arcs) && SourcesOpen(arcs, init) && IsRun(arcs, init, temps)
    requires SafeIdentities(arcs) && !Exposed(arcs, init)
    ensures Assigned(arcs, init, Final(arcs, init, temps))
  {
    hide Outcome, After, SafeIdentities, Exposed, Assigned;
    RunOutcome(arcs, init, temps);
    NotExposed(arcs, init, temps);
    AssignedIffFresh(arcs, init, DupsOf(arcs, init, temps), Final(arcs, init, temps));
  }

  /** Main result: every run performs the simultaneous assignment if and only if
      identity arcs are safe and the arcs are not exposed. */
  lemma AlwaysAssignsIff(arcs: seq<Arc>, init: Table)
    requires DistinctDests(arcs) && SourcesOpen(arcs, init)
    ensures AlwaysAssigns(arcs, init) <==> SafeIdentities(arcs) && !Exposed(arcs, init)
  {
    hide Outcome, After, SafeIdentities, Exposed, Assigned;
    if Exposed(arcs, init) {
      var temps := ExposedFails(arcs, init);
    } else if SafeIdentities(arcs) {
      forall temps | IsRun(arcs, init, temps)
        ensures Assigned(arcs, init, Final(arcs, init, temps))
      {
        RunAssigns(arcs, init, temps);
      }
    } else {
      NothingDone(arcs, init);
      var temps := CarryOn(arcs, init, [], |arcs|);
      RunOutcome(arcs, init, temps);
      AssignedIffSafe(arcs, init, DupsOf(arcs, init, temps), Final(arcs, init, temps));
    }
  }

  /** If no duplicate takes the number of a dest, the whole table is that of the parallel
      assignment if and only if identity arcs are safe and at most 16 dests have to be saved. */
  lemma ParallelIff(arcs: seq<Arc>, init: Table, temps: seq<int>)
    requires DistinctDests(arcs) && SourcesOpen(arcs, init) && IsRun(arcs, init, temps)
    requires AvoidsDests(arcs, DupsOf(arcs, init, temps))
    ensures ParallelAssignment(arcs, init, Final(arcs, init, temps))
            <==> SafeIdentities(arcs) && TempsNeeded(arcs, |arcs|) <= 16
  {
    hide After, SafeIdentities, TempsNeeded;
    var dups, final := DupsOf(arcs, init, temps), Final(arcs, init, temps);
    RunOutcome(arcs, init, temps);
    AfterCount(arcs, init, temps);
    AssignedIffSafe(arcs, init, dups, final);
    forall fd | !IsDest(arcs, fd)
      ensures ClosesSource(arcs, fd) <==> Marked(arcs, fd)
    {
      ClosesNonDestIff(arcs, fd);
    }
    if |dups| > MAX_EXTRA_FDS {
      var fd := dups[MAX_EXTRA_FDS];
      assert Leaked(dups)[0] == fd;
      assert fd in final && (fd in init ==> Marked(arcs, fd));
    }
  }

  /** So safe arcs that are not exposed and need at most 16 duplicates get the whole parallel assignment. */
  lemma RunIsParallel(arcs: seq<Arc>, init: Table, temps: seq<int>)
    requires DistinctDests(arcs) && SourcesOpen(arcs, init) && IsRun(arcs, init, temps)
    requires SafeIdentities(arcs) && !Exposed(arcs, init) && TempsNeeded(arcs, |arcs|) <= 16
    ensures ParallelAssignment(arcs, init, Final(arcs, init, temps))
  {
    hide After, SafeIdentities, TempsNeeded, Exposed, Assigned, AvoidsDests;
    NotExposed(arcs, init, temps);
    ParallelIff(arcs, init, temps);
  }

  ghost predicate AlwaysParallel(arcs: seq<Arc>, init: Table)
    requires SourcesOpen(arcs, init)
  {
    forall temps :: IsRun(arcs, init, temps) ==> ParallelAssignment(arcs, init, Final(arcs, init, temps))
  }

  /** Every run leaves exactly the table of the parallel assignment if and only if identity arcs
      are safe, the arcs are not exposed, and at most 16 dests have to be saved. */
  lemma AlwaysParallelIff(arcs: seq<Arc>, init: Table)
    requires DistinctDests(arcs) && SourcesOpen(arcs, init)
    ensures AlwaysParallel(arcs, init)
            <==> SafeIdentities(arcs) && !Exposed(arcs, init) && TempsNeeded(arcs, |arcs|) <= 16
  {
    hide After, SafeIdentities, TempsNeeded, Exposed, Assigned, AvoidsDests;
    AlwaysAssignsIff(arcs, init);
    if SafeIdentities(arcs) && !Exposed(arcs, init) && TempsNeeded(arcs, |arcs|) <= 16 {
      forall temps | IsRun(arcs, init, temps)
        ensures ParallelAssignment(arcs, init, Final(arcs, init, temps))
      {
        RunIsParallel(arcs, init, temps);
      }
    } else if AlwaysParallel(arcs, init) {
      assert AlwaysAssigns(arcs, init);
      NothingDone(arcs, init);
      var temps := CarryOn(arcs, init, [], |arcs|);
      ParallelIff(arcs, init, temps);
    }
  }

  /** dup() hands out the lowest closed descriptor.  In 3 -> 4, 4 -> 5 with 0 to 4 open that is 5, a
      dest still to be filled, and the run closes it at the end. */
  lemma LowestDescriptorIsADest(init: Table, later: int)
    requires init.Keys == {0, 1, 2, 3, 4}
    ensures var arcs := [Arc(3, 4, false), Arc(4, 5, false)];
            && IsRun(arcs, init, [5, later])
            && DupsOf(arcs, init, [5, later]) == [5] && (forall fd :: 0 <= fd < 5 ==> fd in init)
            && 5 !in Final(arcs, init, [5, later])
  {
    hide Step, After, CanStep, NeedsTemp;
    var arcs := [Arc(3, 4, false), Arc(4, 5, false)];
    var st := State(arcs, init, {});
    NothingDone(arcs, init);
    LowestFirst(init, later);
    AfterPush(arcs, init, [], 5, st, []);
    assert [] + [5] == [5];
    AfterPush(arcs, init, [5], later, Step(st, 0, 5), [5]);
    assert [5] + [later] == [5, later];
    assert 5 in Recorded([5]);
  }

  /** The first of the two arcs duplicates into 5, and the second then has nothing to do. */
  lemma LowestFirst(init: Table, later: int)
    requires init.Keys == {0, 1, 2, 3, 4}
    ensures var st := State([Arc(3, 4, false), Arc(4, 5, false)], init, {});
            && CanStep(st, 0, 5) && NeedsTemp(st.arcs, 0, 2)
            && |Step(st, 0, 5).arcs| == 2
            && CanStep(Step(st, 0, 5), 1, later) && !NeedsTemp(Step(st, 0, 5).arcs, 1, 2)
  {
    var arcs := [Arc(3, 4, false), Arc(4, 5, false)];
    var st := State(arcs, init, {});
    assert arcs[1].source == arcs[0].dest;
    assert NeedsTemp(arcs, 0, 2);
    var st1 := Step(st, 0, 5);
    assert st1.arcs[0] == RedirectArc(arcs, 0, 5, 0);
    assert st1.arcs[1] == RedirectArc(arcs, 0, 5, 1) == Arc(5, 5, false);
    assert st1.files == init[5 := init[4]][4 := init[3]];
  }

  /** An identity arc before a closing reader of the same descriptor loses its dest, in every run. */
  lemma UnsafeIdentityIsClosed(init: Table, temps: seq<int>)
    requires 7 in init && |temps| == 2
    ensures var arcs := [Arc(7, 7, false), Arc(7, 8, true)];
            IsRun(arcs, init, temps) && 7 !in Final(arcs, init, temps)
  {
    var arcs := [Arc(7, 7, false), Arc(7, 8, true)];
    var st := State(arcs, init, {});
    NothingDone(arcs, init);
    AfterPush(arcs, init, [], temps[0], st, []);
    var st1 := Step(st, 0, temps[0]);
    assert st1.arcs[1] == RedirectArc(arcs, 0, temps[0], 1) == Arc(7, 8, true);
    assert [] + [temps[0]] == [temps[0]];
    AfterPush(arcs, init, [temps[0]], temps[1], st1, []);
    assert [temps[0]] + [temps[1]] == temps;
    assert Step(st1, 1, temps[1]).arcs[1] == RedirectArc(st1.arcs, 1, temps[1], 1);
  }
}
