/**
 Runs of a cancelable callback, as values.

 The object hands out copies of a forwarder.  A forwarder holds a weak pointer, and
 running one does nothing once its weak pointer has been invalidated.  Which copies
 still work, and what they run, is read off the trace of events alone.
 */
module CancelableCallbackSpec {
  import opened Common

  /** A closure, named by a number. */
  type Closure = nat

  /** Reset also stands for construction with a callback: on an object that has
      nothing to cancel the two do the same.  Run(i) runs the copy taken at event i. */
  datatype Event = Reset(closure: Closure) | Cancel | Destroy | Take | Run(copy: nat)

  /** The weak-pointer flags made so far with their validity, the flag the factory
      holds, the flag the forwarder is bound to, and the wrapped callback. */
  datatype State = State(valid: seq<bool>, current: Option<nat>, forwarder: Option<nat>, callback: Option<Closure>)

  const EMPTY := State([], None, None, None)

  /** InvalidateWeakPtrs: the factory lets go of its flag after clearing it. */
  function Invalidate(st: State): State {
    if st.current.Some? && st.current.value < |st.valid| then
      st.(valid := st.valid[st.current.value := false], current := None)
    else
      st.(current := None)
  }

  function DoCancel(st: State): State {
    Invalidate(st).(forwarder := None, callback := None)
  }

  /** Binding the forwarder: the factory makes a new flag, since it holds none. */
  function InitializeForwarder(st: State): State {
    st.(valid := st.valid + [true], current := Some(|st.valid|), forwarder := Some(|st.valid|))
  }

  function DoReset(st: State, c: Closure): State {
    InitializeForwarder(DoCancel(st)).(callback := Some(c))
  }

  function Apply(st: State, e: Event): State {
    match e
    case Reset(c) => DoReset(st, c)
    case Cancel => DoCancel(st)
    case Destroy => DoCancel(st)
    case _ => st
  }

  function After(trace: seq<Event>): State {
    if trace == [] then EMPTY else Apply(After(trace[..|trace| - 1]), trace[|trace| - 1])
  }

  /** What callback() returned at event i. */
  function Copy(trace: seq<Event>, i: nat): Option<nat>
    requires i <= |trace|
  {
    After(trace[..i]).forwarder
  }

  /** What running a forwarder bound to flag f does in state st. */
  function RunFlag(st: State, f: nat): Option<Closure> {
    if f < |st.valid| && st.valid[f] then st.callback else None
  }

  /** What event j, which runs the copy taken at event i, executes. */
  function Executed(trace: seq<Event>, i: nat, j: nat): Option<Closure>
    requires i <= j <= |trace|
  {
    match Copy(trace, i)
    case None => None
    case Some(f) => RunFlag(After(trace[..j]), f)
  }

  // ---------------------------------------------------------------------------
  // The reference: read off the trace
  // ---------------------------------------------------------------------------

  predicate Revokes(e: Event) {
    e.Reset? || e.Cancel? || e.Destroy?
  }

  /** The closure installed by the last Reset, unless it has been revoked since. */
  function Installed(trace: seq<Event>): Option<Closure> {
    if trace == [] then None
    else
      match trace[|trace| - 1]
      case Reset(c) => Some(c)
      case Cancel => None
      case Destroy => None
      case _ => Installed(trace[..|trace| - 1])
  }

  predicate NoRevoke(trace: seq<Event>, i: nat, j: nat)
    requires i <= j <= |trace|
  {
    forall k :: i <= k < j ==> !Revokes(trace[k])
  }

  // ---------------------------------------------------------------------------
  // The invariant and the theorem
  // ---------------------------------------------------------------------------

  /** At most the newest flag is valid, and it is if and only if something is installed. */
  predicate WellFormed(st: State) {
    && st.forwarder == st.current
    && (st.current.Some? <==> st.callback.Some?)
    && (st.current.Some? ==> st.current.value + 1 == |st.valid|)
    && forall f :: 0 <= f < |st.valid| ==> (st.valid[f] <==> st.current == Some(f))
  }

  lemma {:induction false} AfterWellFormed(trace: seq<Event>)
    ensures WellFormed(After(trace)) && After(trace).callback == Installed(trace)
  {
    if trace != [] {
      AfterWellFormed(trace[..|trace| - 1]);
    }
  }

  lemma AfterStep(trace: seq<Event>, j: nat)
    requires j < |trace|
    ensures After(trace[..j + 1]) == Apply(After(trace[..j]), trace[j])
  {
    assert trace[..j + 1][..j] == trace[..j];
  }

  lemma AfterPush(trace: seq<Event>, e: Event)
    ensures After(trace + [e]) == Apply(After(trace), e)
  {
    assert (trace + [e])[..|trace|] == trace;
  }

  lemma InstalledPush(trace: seq<Event>, e: Event)
    ensures !Revokes(e) ==> Installed(trace + [e]) == Installed(trace)
  {
    assert (trace + [e])[..|trace|] == trace;
  }

  /** Between two events the flags only grow, and as long as nothing revokes them the state stands still. */
  lemma {:induction false} Between(trace: seq<Event>, i: nat, j: nat)
    requires i <= j <= |trace|
    ensures var a, b := After(trace[..i]), After(trace[..j]);
            && |a.valid| <= |b.valid|
            && (NoRevoke(trace, i, j) ==> b == a)
            && (!NoRevoke(trace, i, j) ==> b.current.None? || b.current.value >= |a.valid|)
    decreases j - i
  {
    hide After;
    if i < j {
      Between(trace, i, j - 1);
      AfterStep(trace, j - 1);
      AfterWellFormed(trace[..j - 1]);
    }
  }

  /** Running a copy executes a closure exactly when the copy was not null and nothing
      has revoked it since it was taken; it is then the most recently installed closure. */
  lemma RunsIffNotRevoked(trace: seq<Event>, i: nat, j: nat)
    requires i <= j <= |trace|
    ensures Executed(trace, i, j)
            == if Copy(trace, i).Some? && NoRevoke(trace, i, j) then Installed(trace[..j]) else None
    ensures Copy(trace, i).Some? && NoRevoke(trace, i, j) ==> Executed(trace, i, j).Some?
  {
    hide After, Installed;
    AfterWellFormed(trace[..i]);
    AfterWellFormed(trace[..j]);
    Between(trace, i, j);
  }

  /** callback() is null exactly when the callback is cancelled. */
  lemma NullIffCancelled(trace: seq<Event>)
    ensures After(trace).forwarder.None? <==> After(trace).callback.None?
    ensures After(trace).callback.None? <==> Installed(trace).None?
  {
    AfterWellFormed(trace);
  }
}
