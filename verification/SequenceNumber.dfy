/**
 StaticAtomicSequenceNumber::GetNext as a client of the increment loop: which
 numbers concurrent callers get.
 */
module SequenceNumber {
  import opened Atomics

  /** GetNext adds one and returns the value before. */
  const NEXT := Increment(1)

  function Number(e: Entry): int {
    Wrap(e.ret - 1)
  }

  /** Threads only ever call GetNext. */
  predicate OnlyGetNext(schedule: Schedule) {
    forall i :: 0 <= i < |schedule| && schedule[i].1.Invoke? ==> schedule[i].1.op == NEXT
  }

  predicate AllNext(s: State) {
    && (forall t :: 0 <= t < |s.pcs| && !s.pcs[t].Idle? ==> PendingOp(s.pcs[t]) == NEXT)
    && (forall i :: 0 <= i < |s.hist| ==> s.hist[i].op == NEXT)
  }

  lemma ActAllNext(init: int, s: State, t: nat, a: Action)
    requires Inv(init, s) && AllNext(s) && Enabled(s, t, a) && (a.Invoke? ==> a.op == NEXT)
    ensures AllNext(Act(s, t, a))
  {
    hide Inv, Wrap, DoRead, DoCmpxchg;
    if !a.Return? {
      StepShape(init, s, t, a);
    }
  }

  lemma {:induction false} RunAllNext(init: int, s: State, schedule: Schedule)
    requires Inv(init, s) && AllNext(s) && Runs(s, schedule) && OnlyGetNext(schedule)
    ensures AllNext(Run(s, schedule))
    decreases |schedule|
  {
    hide Inv, AllNext, Act;
    if schedule != [] {
      var (t, a) := schedule[0];
      ActAllNext(init, s, t, a);
      ActKeepsInv(init, s, t, a);
      assert forall i :: 0 <= i < |schedule| - 1 ==> schedule[1..][i] == schedule[i + 1];
      RunAllNext(init, Act(s, t, a), schedule[1..]);
    }
  }

  lemma {:induction false} TotalOfNexts(hist: seq<Entry>)
    requires forall i :: 0 <= i < |hist| ==> hist[i].op == NEXT
    ensures Total(hist) == |hist|
  {
    if hist != [] {
      TotalOfNexts(hist[..|hist| - 1]);
    }
  }

  /** The i-th call to take effect gets the number i, modulo the word size. */
  lemma NumberAt(hist: seq<Entry>, i: nat)
    requires Legal(0, hist) && i < |hist| && forall j :: 0 <= j < |hist| ==> hist[j].op == NEXT
    ensures Number(hist[i]) == Wrap(i)
  {
    hide Wrap, Replay;
    var front := hist[..i];
    TotalOfNexts(front);
    SumOfIncrements(0, front);
    assert hist[i].ret == Ret(NEXT, Replay(0, front)) == Wrap(Replay(0, front) + 1);
    WrapAdd(i, 1);
    WrapAdd(i + 1, -1);
  }

  function SumOf(counts: seq<nat>): nat {
    if counts == [] then 0 else counts[0] + SumOf(counts[1..])
  }

  /** The entries of threads t and up. */
  function CountFrom(hist: seq<Entry>, t: nat, n: nat): nat
    requires t <= n
    decreases n - t
  {
    if t == n then 0 else Count(hist, t) + CountFrom(hist, t + 1, n)
  }

  lemma {:induction false} CountFromPush(hist: seq<Entry>, e: Entry, t: nat, n: nat)
    requires t <= n
    ensures CountFrom(hist + [e], t, n) == CountFrom(hist, t, n) + (if t <= e.tid < n then 1 else 0)
    decreases n - t
  {
    hide Count;
    if t < n {
      CountFromPush(hist, e, t + 1, n);
      CountPush(hist, e, t);
    }
  }

  lemma {:induction false} CountFromNone(t: nat, n: nat)
    requires t <= n
    ensures CountFrom([], t, n) == 0
    decreases n - t
  {
    if t < n {
      CountFromNone(t + 1, n);
    }
  }

  lemma {:induction false} CountAll(hist: seq<Entry>, n: nat)
    requires forall i :: 0 <= i < |hist| ==> hist[i].tid < n
    ensures CountFrom(hist, 0, n) == |hist|
  {
    if hist == [] {
      CountFromNone(0, n);
    } else {
      var m := |hist| - 1;
      CountAll(hist[..m], n);
      CountFromPush(hist[..m], hist[m], 0, n);
      assert hist == hist[..m] + [hist[m]];
    }
  }

  lemma {:induction false} CountIsReturned(s: State, t: nat)
    requires t <= |s.pcs| == |s.returned|
    requires forall u :: 0 <= u < |s.pcs| ==> ThreadOk(s, u) && s.pcs[u].Idle?
    ensures CountFrom(s.hist, t, |s.pcs|) == SumOf(s.returned[t..])
    decreases |s.pcs| - t
  {
    hide Count, LastIs;
    if t < |s.pcs| {
      CountIsReturned(s, t + 1);
      assert ThreadOk(s, t);
      assert s.returned[t..] == [s.returned[t]] + s.returned[t + 1..];
    }
  }

  /** When all threads are idle again, the history holds exactly the completed calls. */
  lemma QuietHistory(init: int, s: State)
    requires Inv(init, s) && forall t :: 0 <= t < |s.pcs| ==> s.pcs[t].Idle?
    ensures |s.hist| == SumOf(s.returned)
  {
    hide Legal, Replay, Count, LastIs;
    CountAll(s.hist, |s.pcs|);
    CountIsReturned(s, 0);
    assert s.returned[0..] == s.returned;
  }

  predicate DistinctNumbers(hist: seq<Entry>) {
    forall i, j :: 0 <= i < j < |hist| ==> Number(hist[i]) != Number(hist[j])
  }

  predicate Consecutive(hist: seq<Entry>) {
    forall i :: 0 <= i < |hist| ==> Number(hist[i]) == i
  }

  /** Concurrent GetNext calls, after any schedule: the k calls that took effect got
      exactly 0 to k - 1, each once, as long as k is at most 2^31; numbers repeat
      only beyond 2^32 calls.  When all threads are idle, k is the number of completed calls. */
  lemma UniqueNumbers(n: nat, schedule: Schedule)
    requires Runs(Initial(0, n), schedule) && OnlyGetNext(schedule)
    ensures var s := Run(Initial(0, n), schedule);
            && (Consecutive(s.hist) <==> |s.hist| <= 0x8000_0000)
            && (DistinctNumbers(s.hist) <==> |s.hist| <= 0x1_0000_0000)
            && ((forall t :: 0 <= t < |s.pcs| ==> s.pcs[t].Idle?) ==> |s.hist| == SumOf(s.returned))
  {
    hide Wrap, Replay, Legal, Count, LastIs, Number, ThreadOk;
    var s := Run(Initial(0, n), schedule);
    InitialInv(0, n);
    RunKeepsInv(0, Initial(0, n), schedule);
    RunAllNext(0, Initial(0, n), schedule);
    forall i | 0 <= i < |s.hist|
      ensures Number(s.hist[i]) == Wrap(i)
    {
      NumberAt(s.hist, i);
    }
    ConsecutiveIff(s.hist);
    DistinctIff(s.hist);
    if forall t :: 0 <= t < |s.pcs| ==> s.pcs[t].Idle? {
      QuietHistory(0, s);
    }
  }

  lemma ConsecutiveIff(hist: seq<Entry>)
    requires forall i :: 0 <= i < |hist| ==> Number(hist[i]) == Wrap(i)
    ensures Consecutive(hist) <==> |hist| <= TWO_31
  {
    hide Number;
    forall i | 0 <= i < |hist| && i < TWO_31
      ensures Wrap(i) == i
    {
      WrapSmall(i);
    }
    if |hist| > TWO_31 {
      assert Number(hist[TWO_31]) != TWO_31;
    }
  }

  lemma DistinctIff(hist: seq<Entry>)
    requires forall i :: 0 <= i < |hist| ==> Number(hist[i]) == Wrap(i)
    ensures DistinctNumbers(hist) <==> |hist| <= TWO_32
  {
    hide Number, Wrap;
    if |hist| <= TWO_32 {
      forall i, j | 0 <= i < j < |hist|
        ensures Number(hist[i]) != Number(hist[j])
      {
        WrapEqual(j, i);
      }
    } else {
      WrapEqual(TWO_32, 0);
      assert Number(hist[0]) == Number(hist[TWO_32]);
    }
  }
}
