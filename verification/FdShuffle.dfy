/**
 The shuffle as the program runs it: an array of arcs rewritten in place, a
 16-entry array of temporaries, and a delegate that changes the descriptor table.
 */
module FdShuffle {
  import opened Common
  import opened FdShuffleSpec
  import opened FdShuffleRuns

  /** The delegate: duplicating, moving and closing descriptors.  Any duplicate or
      move may fail; a duplicate may take any number that is not open.  Every
      operation demands that the descriptor it reads or closes is open. */
  class InjectionDelegate {
    var files: Table
    /** Every descriptor Duplicate has handed out, in order. */
    ghost var handedOut: seq<int>
    /** How many duplicates and moves have failed. */
    ghost var failures: nat

    constructor (table: Table)
      ensures files == table && handedOut == [] && failures == 0
    {
      files, handedOut, failures := table, [], 0;
    }

    method Duplicate(fd: int) returns (ok: bool, result: int)
      requires fd in files
      modifies this
      ensures ok ==> result >= 0 && result !in old(files) && files == old(files)[result := old(files)[fd]]
      ensures !ok ==> files == old(files)
      ensures handedOut == if ok then old(handedOut) + [result] else old(handedOut)
      ensures failures == old(failures) + if ok then 0 else 1
    {
      ok, result := *, -1;
      if ok {
        ghost var free := SomeFree(files.Keys);
        result :| result >= 0 && result !in files;
        files, handedOut := files[result := files[fd]], handedOut + [result];
      } else {
        failures := failures + 1;
      }
    }

    method Move(src: int, dest: int) returns (ok: bool)
      requires src in files
      modifies this`files, this`failures
      ensures files == if ok then old(files)[dest := old(files)[src]] else old(files)
      ensures failures == old(failures) + if ok then 0 else 1
    {
      ok := *;
      if ok {
        files := files[dest := files[src]];
      } else {
        failures := failures + 1;
      }
    }

    method Close(fd: int)
      requires fd in files
      modifies this`files
      ensures files == old(files) - {fd}
    {
      files := files - {fd};
    }
  }

  /** The inner loop: redirect the later readers of the dest of arc i to a
      duplicate, and pass on or drop the close flag of arc i. */
  method RedirectReaders(m: array<Arc>, i: nat, delegate: InjectionDelegate, extraFds: array<int>, nextExtraFd: nat)
    returns (ok: bool, next: nat, temp: int)
    requires i < m.Length && extraFds.Length == MAX_EXTRA_FDS && nextExtraFd <= MAX_EXTRA_FDS
    requires forall k :: i <= k < m.Length ==> m[k].source in delegate.files
    modifies m, delegate, extraFds
    ensures ok ==> m[..] == Redirect(old(m[..]), i, temp)
    ensures ok ==> NeedsTemp(old(m[..]), i, m.Length) ==>
              && temp >= 0 && temp !in old(delegate.files) && old(m[i].dest) in old(delegate.files)
              && delegate.files == old(delegate.files)[temp := old(delegate.files)[old(m[i].dest)]]
    ensures ok ==> !NeedsTemp(old(m[..]), i, m.Length) ==> delegate.files == old(delegate.files)
    ensures ok ==> next == if NeedsTemp(old(m[..]), i, m.Length) && nextExtraFd < MAX_EXTRA_FDS then nextExtraFd + 1 else nextExtraFd
    ensures ok ==> extraFds[..nextExtraFd] == old(extraFds[..nextExtraFd])
    ensures ok ==> nextExtraFd < next ==> extraFds[nextExtraFd] == temp
    ensures !ok ==> delegate.files == old(delegate.files)
    ensures delegate.failures == old(delegate.failures) + if ok then 0 else 1
    ensures delegate.handedOut == old(delegate.handedOut) + (if ok && NeedsTemp(old(m[..]), i, m.Length) then [temp] else [])
  {
    hide Redirect;
    ghost var base := m[..];
    ghost var files := delegate.files;
    temp, next := -1, nextExtraFd;
    var isIdentity := m[i].source == m[i].dest;
    var j := i + 1;
    while j < m.Length
      invariant i < j <= m.Length
      invariant forall k :: 0 <= k < i || j <= k < m.Length ==> m[k] == base[k]
      invariant m[i] == base[i].(close := base[i].close && NoTouch(base, i, j))
      invariant forall k :: i < k < j ==> m[k] == RedirectArc(base, i, temp, k)
      invariant temp >= -1 && (temp == -1 <==> !NeedsTemp(base, i, j))
      invariant NeedsTemp(base, i, j) ==>
        temp !in files && base[i].dest in files && delegate.files == files[temp := files[base[i].dest]]
      invariant !NeedsTemp(base, i, j) ==> delegate.files == files
      invariant delegate.handedOut == old(delegate.handedOut) + (if NeedsTemp(base, i, j) then [temp] else [])
      invariant delegate.failures == old(delegate.failures)
      invariant next == if NeedsTemp(base, i, j) && nextExtraFd < MAX_EXTRA_FDS then nextExtraFd + 1 else nextExtraFd
      invariant extraFds[..nextExtraFd] == old(extraFds[..nextExtraFd])
      invariant nextExtraFd < next ==> extraFds[nextExtraFd] == temp
    {
      if !isIdentity && m[i].dest == m[j].source {
        if temp == -1 {
          ok, temp := delegate.Duplicate(m[i].dest);
          if !ok {
            return;
          }
          if next < MAX_EXTRA_FDS {
            extraFds[next] := temp;
            next := next + 1;
          }
        }
        m[j] := Arc(temp, m[j].dest, false);
      }
      if m[i].close && m[i].source == m[j].dest {
        m[i] := m[i].(close := false);
      }
      if m[i].close && m[i].source == m[j].source {
        m[i] := m[i].(close := false);
        m[j] := m[j].(close := true);
      }
      j := j + 1;
    }
    ok := true;
    RedirectIs(base, i, temp, m[..]);
  }

  lemma RedirectIs(arcs: seq<Arc>, i: nat, temp: int, r: seq<Arc>)
    requires i < |arcs| == |r| && forall k :: 0 <= k < |arcs| ==> r[k] == RedirectArc(arcs, i, temp, k)
    ensures r == Redirect(arcs, i, temp)
  {
  }

  /** The descriptors a shuffle may disturb are its dests, its duplicates and the sources it closes. */
  ghost predicate Undisturbed(arcs: seq<Arc>, init: Table, dups: seq<int>, files: Table) {
    forall fd :: fd !in dups && !IsDest(arcs, fd) && !ClosesSource(arcs, fd) ==>
      (fd in files <==> fd in init) && (fd in files ==> files[fd] == init[fd])
  }

  lemma UndisturbedByInv(arcs: seq<Arc>, init: Table, i: nat, st: State, dups: seq<int>)
    requires Inv(arcs, init, i, st) && st.temps == set fd | fd in dups
    ensures Undisturbed(arcs, init, dups, st.files)
  {
    forall fd | fd !in dups && !IsDest(arcs, fd) && !ClosesSource(arcs, fd)
      ensures (fd in st.files <==> fd in init) && (fd in st.files ==> st.files[fd] == init[fd])
    {
      assert !OverwrittenBefore(arcs, i, fd);
    }
  }

  lemma UndisturbedByStop(arcs: seq<Arc>, init: Table, st: State, i: nat, dups: seq<int>, dups': seq<int>, files: Table)
    requires Undisturbed(arcs, init, dups, st.files) && i < |st.arcs| && StoppedAt(st, i, dups, dups', files)
    ensures Undisturbed(arcs, init, dups', files)
  {
  }

  lemma RecordDuplicate(dups: seq<int>, temp: int)
    requires Distinct(dups) && temp !in dups
    ensures Distinct(dups + [temp])
    ensures Recorded(dups + [temp]) == if |dups| < MAX_EXTRA_FDS then Recorded(dups) + [temp] else Recorded(dups)
    ensures (set fd | fd in dups + [temp]) == (set fd | fd in dups) + {temp}
  {
  }

  /** The tail of an iteration: the move, and the close if the arc is still marked. */
  method MoveAndClose(a: Arc, delegate: InjectionDelegate) returns (ok: bool)
    requires a.source in delegate.files
    modifies delegate`files, delegate`failures
    ensures delegate.failures == old(delegate.failures) + if ok then 0 else 1
    ensures delegate.files == if ok then MoveArc(a, old(delegate.files)) else old(delegate.files)
  {
    var isIdentity := a.source == a.dest;
    if !isIdentity {
      ok := delegate.Move(a.source, a.dest);
      if !ok {
        return;
      }
    }
    if !isIdentity && a.close {
      delegate.Close(a.source);
    }
    ok := true;
  }

  /** A failed iteration has done nothing, or has only made its duplicate. */
  ghost predicate StoppedAt(st: State, i: nat, dups: seq<int>, dups': seq<int>, files: Table)
    requires i < |st.arcs|
  {
    || (dups' == dups && files == st.files)
    || (NeedsTemp(st.arcs, i, |st.arcs|) && st.arcs[i].dest in st.files
        && exists temp :: dups' == dups + [temp] && files == st.files[temp := st.files[st.arcs[i].dest]])
  }

  /** One iteration of the outer loop does `Step`, and records the duplicate if there is room. */
  method PerformArc(m: array<Arc>, i: nat, delegate: InjectionDelegate, extraFds: array<int>, nextExtraFd: nat,
                    ghost dups: seq<int>)
    returns (ok: bool, next: nat, ghost temp: int, ghost dups': seq<int>)
    requires i < m.Length && extraFds.Length == MAX_EXTRA_FDS
    requires forall k :: i <= k < m.Length ==> m[k].source in delegate.files
    requires Distinct(dups) && (set fd | fd in dups) <= delegate.files.Keys
    requires nextExtraFd == |Recorded(dups)| && extraFds[..nextExtraFd] == Recorded(dups)
    modifies m, delegate, extraFds
    ensures delegate.failures == old(delegate.failures) + if ok then 0 else 1
    ensures dups <= dups' && delegate.handedOut == old(delegate.handedOut) + dups'[|dups|..]
    ensures ok ==> dups' == if NeedsTemp(old(m[..]), i, m.Length) then dups + [temp] else dups
    ensures ok ==> CanStep(State(old(m[..]), old(delegate.files), set fd | fd in dups), i, temp)
    ensures ok ==> State(m[..], delegate.files, set fd | fd in dups')
                   == Step(State(old(m[..]), old(delegate.files), set fd | fd in dups), i, temp)
    ensures ok ==> Distinct(dups') && next == |Recorded(dups')| && extraFds[..next] == Recorded(dups')
    ensures !ok ==> StoppedAt(State(old(m[..]), old(delegate.files), set fd | fd in dups), i, dups, dups', delegate.files)
  {
    ghost var st := State(m[..], delegate.files, set fd | fd in dups);
    dups' := dups;
    var t;
    ok, next, t := RedirectReaders(m, i, delegate, extraFds, nextExtraFd);
    temp := t;
    if !ok {
      return;
    }
    assert CanStep(st, i, temp);
    if NeedsTemp(st.arcs, i, |st.arcs|) {
      dups' := dups + [temp];
      RecordDuplicate(dups, temp);
    }
    assert next == |Recorded(dups')| && extraFds[..next] == Recorded(dups');
    assert delegate.files == WithTemp(st, i, temp);
    assert m[i] == RedirectArc(st.arcs, i, temp, i);
    ok := MoveAndClose(m[i], delegate);
  }

  lemma RecordedDistinct(dups: seq<int>)
    requires Distinct(dups)
    ensures Distinct(Recorded(dups)) && forall fd :: fd in Recorded(dups) ==> fd in dups
  {
  }

  /** The shuffle stopped at the first failure: the iterations before it are done, and at most a duplicate after them. */
  ghost predicate FailedAfter(arcs: seq<Arc>, init: Table, temps: seq<int>, dups: seq<int>, files: Table) {
    && |temps| < |arcs| && After(arcs, init, temps).Some?
    && var p := After(arcs, init, temps).value;
       |temps| < |p.st.arcs| && StoppedAt(p.st, |temps|, p.dups, dups, files)
  }

  lemma NothingRecorded()
    ensures Distinct<int>([]) && Recorded([]) == []
  {
  }

  /** The whole shuffle.  It fails only if the delegate does.  On success it has made one of
      the runs on values: the table is exactly `Outcome`, and it is the simultaneous
      assignment whenever identity arcs are safe and the arcs are not exposed. */
  method PerformInjectiveMultimapDestructive(m: array<Arc>, delegate: InjectionDelegate)
    returns (ok: bool, ghost dups: seq<int>, ghost temps: seq<int>)
    requires DistinctDests(m[..]) && SourcesOpen(m[..], delegate.files)
    modifies m, delegate
    ensures ok ==> IsRun(old(m[..]), old(delegate.files), temps)
                   && delegate.files == Final(old(m[..]), old(delegate.files), temps)
                   && dups == DupsOf(old(m[..]), old(delegate.files), temps)
    ensures ok ==> Outcome(old(m[..]), old(delegate.files), dups, delegate.files)
    ensures ok && SafeIdentities(old(m[..])) && !Exposed(old(m[..]), old(delegate.files)) ==>
              && Assigned(old(m[..]), old(delegate.files), delegate.files)
              && (TempsNeeded(old(m[..]), m.Length) <= 16 ==>
                    ParallelAssignment(old(m[..]), old(delegate.files), delegate.files))
    ensures !ok ==> Undisturbed(old(m[..]), old(delegate.files), dups, delegate.files)
    ensures !ok ==> FailedAfter(old(m[..]), old(delegate.files), temps, dups, delegate.files)
    ensures delegate.failures == old(delegate.failures) + if ok then 0 else 1
    ensures delegate.handedOut == old(delegate.handedOut) + dups
  {
    hide Inv, Step, CanStep, NeedsTemp, Outcome, Undisturbed, Distinct, After, SafeIdentities, Exposed, Assigned, StoppedAt,
         ParallelAssignment, TempsNeeded;
    ghost var arcs, init := m[..], delegate.files;
    var extraFds := new int[MAX_EXTRA_FDS];
    var nextExtraFd := 0;
    dups, temps := [], [];
    NothingDone(arcs, init);
    NothingRecorded();
    assert (set fd | fd in dups) == {};
    var i := 0;
    while i < m.Length
      invariant 0 <= i <= m.Length && |temps| == i
      invariant After(arcs, init, temps) == Some(Progress(State(m[..], delegate.files, set fd | fd in dups), dups))
      invariant delegate.handedOut == old(delegate.handedOut) + dups && delegate.failures == old(delegate.failures)
      invariant Distinct(dups) && nextExtraFd == |Recorded(dups)| && extraFds[..nextExtraFd] == Recorded(dups)
    {
      ghost var st := State(m[..], delegate.files, set fd | fd in dups);
      AfterInv(arcs, init, temps);
      UndisturbedByInv(arcs, init, i, st, dups);
      InvOpen(arcs, init, i, st);
      ghost var temp, dups';
      ok, nextExtraFd, temp, dups' := PerformArc(m, i, delegate, extraFds, nextExtraFd, dups);
      if !ok {
        UndisturbedByStop(arcs, init, st, i, dups, dups', delegate.files);
        dups := dups';
        return;
      }
      AfterPush(arcs, init, temps, temp, st, dups);
      temps, dups := temps + [temp], dups';
      i := i + 1;
    }
    AfterInv(arcs, init, temps);
    InvOpen(arcs, init, i, State(m[..], delegate.files, set fd | fd in dups));
    RecordedDistinct(dups);
    CloseRecorded(delegate, extraFds, nextExtraFd);
    RunOutcome(arcs, init, temps);
    if SafeIdentities(arcs) && !Exposed(arcs, init) {
      RunAssigns(arcs, init, temps);
      if TempsNeeded(arcs, |arcs|) <= 16 {
        RunIsParallel(arcs, init, temps);
      }
    }
    ok := true;
  }

  lemma InvOpen(arcs: seq<Arc>, init: Table, i: nat, st: State)
    requires Inv(arcs, init, i, st)
    ensures forall k :: i <= k < |st.arcs| ==> st.arcs[k].source in st.files
    ensures st.temps <= st.files.Keys
  {
    forall k | i <= k < |st.arcs|
      ensures st.arcs[k].source in st.files
    {
      assert InvSource(arcs, init, st, k);
    }
  }

  /** The last loop: close every recorded temporary. */
  method CloseRecorded(delegate: InjectionDelegate, extraFds: array<int>, n: nat)
    requires n <= extraFds.Length
    requires Distinct(extraFds[..n]) && forall fd :: fd in extraFds[..n] ==> fd in delegate.files
    modifies delegate`files
    ensures delegate.files == old(delegate.files) - (set fd | fd in extraFds[..n])
  {
    for i := 0 to n
      invariant delegate.files == old(delegate.files) - (set fd | fd in extraFds[..i])
    {
      assert extraFds[i] == extraFds[..n][i];
      assert extraFds[i] in extraFds[..n];
      assert forall k :: 0 <= k < i ==> extraFds[..n][k] == extraFds[k];
      delegate.Close(extraFds[i]);
      assert extraFds[..i + 1] == extraFds[..i] + [extraFds[i]];
    }
  }

  /** The copying form leaves the caller's arcs alone. */
  method PerformInjectiveMultimap(mIn: seq<Arc>, delegate: InjectionDelegate)
    returns (ok: bool, ghost dups: seq<int>, ghost temps: seq<int>)
    requires DistinctDests(mIn) && SourcesOpen(mIn, delegate.files)
    modifies delegate
    ensures ok ==> IsRun(mIn, old(delegate.files), temps)
                   && delegate.files == Final(mIn, old(delegate.files), temps)
                   && dups == DupsOf(mIn, old(delegate.files), temps)
    ensures ok ==> Outcome(mIn, old(delegate.files), dups, delegate.files)
    ensures ok && SafeIdentities(mIn) && !Exposed(mIn, old(delegate.files)) ==>
              && Assigned(mIn, old(delegate.files), delegate.files)
              && (TempsNeeded(mIn, |mIn|) <= 16 ==> ParallelAssignment(mIn, old(delegate.files), delegate.files))
    ensures !ok ==> Undisturbed(mIn, old(delegate.files), dups, delegate.files)
    ensures !ok ==> FailedAfter(mIn, old(delegate.files), temps, dups, delegate.files)
    ensures delegate.failures == old(delegate.failures) + if ok then 0 else 1
    ensures delegate.handedOut == old(delegate.handedOut) + dups
  {
    var m := new Arc[|mIn|](k requires 0 <= k < |mIn| => mIn[k]);
    assert m[..] == mIn;
    ok, dups, temps := PerformInjectiveMultimapDestructive(m, delegate);
  }
}
