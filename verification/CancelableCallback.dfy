/**
 The cancelable callback as an object with weak-pointer flags on the heap.
 */
module CancelableCallback {
  import opened CancelableCallbackSpec
  import opened Common

  /** The shared flag behind a weak pointer. */
  class Flag {
    var isValid: bool

    constructor ()
      ensures isValid
    {
      isValid := true;
    }
  }

  class CancelableCallback {
    /** The flag held by the weak-pointer factory. */
    var flag: Flag?
    /** Null, or bound to a weak pointer. */
    var forwarder: Option<Flag>
    var callback: Option<Closure>
    /** Every flag the factory has made, oldest first, and everything that has happened. */
    ghost var flags: seq<Flag>
    ghost var trace: seq<Event>

    /** The object holds what the trace says. */
    ghost predicate Valid()
      reads this, flags
    {
      var view := After(trace);
      && |flags| == |view.valid|
      && (forall i, j :: 0 <= i < j < |flags| ==> flags[i] != flags[j])
      && (forall i :: 0 <= i < |flags| ==> flags[i].isValid == view.valid[i])
      && callback == view.callback
      && match view.current {
           case None => flag == null && forwarder == None
           case Some(f) => f < |flags| && flag == flags[f] && forwarder == Some(flags[f])
         }
    }

    constructor ()
      ensures Valid() && trace == []
    {
      flag, forwarder, callback, flags, trace := null, None, None, [], [];
    }

    constructor WithCallback(c: Closure)
      ensures Valid() && trace == [Event.Reset(c)] && fresh(flags)
    {
      flag, forwarder, callback, flags, trace := null, None, Some(c), [], [];
      new;
      InitializeForwarder();
      AfterPush([], Event.Reset(c));
      trace := trace + [Event.Reset(c)];
    }

    method InitializeForwarder()
      requires flag == null
      modifies this`flag, this`forwarder, this`flags
      ensures |flags| == |old(flags)| + 1 && flags[..|old(flags)|] == old(flags)
      ensures var f := flags[|old(flags)|]; fresh(f) && f.isValid && flag == f && forwarder == Some(f)
    {
      var f := new Flag();
      flag := f;
      flags := flags + [f];
      forwarder := Some(f);
    }

    /** The body of Cancel; the caller records the event. */
    method Invalidate(ghost e: Event)
      requires Valid() && (e.Cancel? || e.Destroy?)
      modifies this, flags
      ensures Valid() && trace == old(trace) + [e] && flags == old(flags)
    {
      hide After;
      AfterWellFormed(trace);
      AfterPush(trace, e);
      if flag != null {
        flag.isValid := false;
        flag := null;
      }
      forwarder := None;
      callback := None;
      trace := trace + [e];
    }

    method Cancel()
      requires Valid()
      modifies this, flags
      ensures Valid() && trace == old(trace) + [Event.Cancel] && flags == old(flags)
    {
      Invalidate(Event.Cancel);
    }

    method Reset(c: Closure)
      requires Valid()
      modifies this, flags
      ensures Valid() && trace == old(trace) + [Event.Reset(c)]
      ensures |flags| == |old(flags)| + 1 && flags[..|old(flags)|] == old(flags) && fresh(flags[|old(flags)|])
    {
      hide After;
      ghost var was := trace;
      AfterPush(was, Event.Cancel);
      AfterPush(was, Event.Reset(c));
      Cancel();
      ghost var mid := flags;
      InitializeForwarder();
      callback := Some(c);
      trace := was + [Event.Reset(c)];
      assert forall i :: 0 <= i < |mid| ==> flags[i] == mid[i];
    }

    /** Destruction of the weak-pointer factory invalidates the flag. */
    method Destroy()
      requires Valid()
      modifies this, flags
      ensures Valid() && trace == old(trace) + [Event.Destroy] && flags == old(flags)
    {
      Invalidate(Event.Destroy);
    }

    method IsCancelled() returns (cancelled: bool)
      requires Valid()
      ensures cancelled <==> Installed(trace).None?
    {
      NullIffCancelled(trace);
      cancelled := callback.None?;
    }

    /** A copy of the forwarder: null exactly when nothing is installed. */
    method Callback() returns (copy: Option<Flag>)
      requires Valid()
      modifies this`trace
      ensures Valid() && trace == old(trace) + [Take]
      ensures copy.None? <==> Installed(trace).None?
      ensures CopyIs(|old(trace)|, copy)
    {
      hide After, Installed;
      AfterWellFormed(trace);
      AfterPush(trace, Take);
      InstalledPush(trace, Take);
      copy := forwarder;
      assert (trace + [Take])[..|trace|] == trace;
      trace := trace + [Take];
    }

    /** `copy` is what callback() returned at event i. */
    ghost predicate CopyIs(i: nat, copy: Option<Flag>)
      reads this
    {
      && i < |trace| && trace[i].Take?
      && match Copy(trace, i) {
           case None => copy == None
           case Some(f) => f < |flags| && copy == Some(flags[f])
         }
    }

    /** Running a copy that is not null: nothing if its flag is cleared, else the wrapped
        callback.  It runs exactly if nothing has revoked it since it was taken. */
    method Run(copy: Flag, ghost i: nat) returns (executed: Option<Closure>)
      requires Valid() && CopyIs(i, Some(copy))
      ensures executed == if NoRevoke(trace, i, |trace|) then Installed(trace) else None
      ensures NoRevoke(trace, i, |trace|) ==> executed.Some?
    {
      hide After, Installed;
      RunsIffNotRevoked(trace, i, |trace|);
      assert trace[..|trace|] == trace;
      if !copy.isValid {
        return None;
      }
      executed := callback;
    }
  }
}
