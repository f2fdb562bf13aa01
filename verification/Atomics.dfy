/**
 The ARM retry loops under interleaving.

 One shared 32-bit word and any number of threads, each calling operations that
 loop around the kernel's compare-and-exchange, which may fail for no reason.
 A thread runs one shared-memory access per step, and a schedule is any sequence of
 enabled steps.

 `hist` is an auxiliary variable: a step that makes an operation take effect
 appends one entry to it.  The theorems say that this history is a correct
 sequential execution, and that every call has exactly one entry in it.
 */
module Atomics {

  // ---------------------------------------------------------------------------
  // 32-bit arithmetic
  // ---------------------------------------------------------------------------

  const TWO_31 := 0x8000_0000
  const TWO_32 := 0x1_0000_0000

  /** Two's complement wrap-around to a signed 32-bit value. */
  function Wrap(x: int): (r: int)
    ensures -TWO_31 <= r < TWO_31
  {
    (x + TWO_31) % TWO_32 - TWO_31
  }

  lemma WrapAdd(a: int, b: int)
    ensures Wrap(Wrap(a) + b) == Wrap(a + b)
  {
  }

  lemma WrapSmall(a: int)
    requires -TWO_31 <= a < TWO_31
    ensures Wrap(a) == a
  {
  }

  lemma WrapEqual(a: int, b: int)
    ensures Wrap(a) == Wrap(b) <==> (a - b) % TWO_32 == 0
  {
  }

  // ---------------------------------------------------------------------------
  // What the operations mean, one at a time
  // ---------------------------------------------------------------------------

  datatype Op = Cas(oldValue: int, newValue: int) | Exchange(newValue: int) | Increment(amount: int) | Load

  /** The value after the operation. */
  function After(op: Op, v: int): int {
    match op
    case Cas(o, n) => if v == o then n else v
    case Exchange(n) => n
    case Increment(d) => Wrap(v + d)
    case Load => v
  }

  /** What the operation returns. */
  function Ret(op: Op, v: int): int {
    match op
    case Increment(d) => Wrap(v + d)
    case _ => v
  }

  datatype Entry = Entry(tid: nat, op: Op, ret: int)

  /** The value after a sequential execution of `hist` from `init`. */
  function Replay(init: int, hist: seq<Entry>): int {
    if hist == [] then init else After(hist[|hist| - 1].op, Replay(init, hist[..|hist| - 1]))
  }

  /** Every entry returned what a sequential execution returns. */
  ghost predicate Legal(init: int, hist: seq<Entry>) {
    forall i :: 0 <= i < |hist| ==> hist[i].ret == Ret(hist[i].op, Replay(init, hist[..i]))
  }

  // ---------------------------------------------------------------------------
  // The threads
  // ---------------------------------------------------------------------------

  /** Where a thread is: at the top of the loop of an operation, before the kernel
      call with what it has read, after a failed kernel call of a CAS, or done. */
  datatype Pc =
    | Idle
    | Top(op: Op)
    | TryCas(oldValue: int, newValue: int)
    | Reread(oldValue: int, newValue: int)
    | TryExchange(newValue: int, seen: int)
    | TryIncrement(amount: int, seen: int, sum: int)
    | Done(op: Op, ret: int)

  datatype State = State(val: int, pcs: seq<Pc>, returned: seq<nat>, hist: seq<Entry>)

  datatype Action = Invoke(op: Op) | Read | Cmpxchg(spurious: bool) | Return

  predicate Enabled(s: State, t: nat, a: Action) {
    && t < |s.pcs| == |s.returned|
    && match a {
         case Invoke(_) => s.pcs[t].Idle?
         case Read => s.pcs[t].Top? || s.pcs[t].Reread?
         case Cmpxchg(_) => s.pcs[t].TryCas? || s.pcs[t].TryExchange? || s.pcs[t].TryIncrement?
         case Return => s.pcs[t].Done?
       }
  }

  function Goto(s: State, t: nat, pc: Pc): State
    requires t < |s.pcs|
  {
    s.(pcs := s.pcs[t := pc])
  }

  /** The operation takes effect: the word gets `val`, the call will return `ret`. */
  function Commit(s: State, t: nat, op: Op, val: int, ret: int): State
    requires t < |s.pcs|
  {
    s.(val := val, pcs := s.pcs[t := Done(op, ret)], hist := s.hist + [Entry(t, op, ret)])
  }

  /** A plain load of the word. */
  function DoRead(s: State, t: nat): State
    requires Enabled(s, t, Read)
  {
    match s.pcs[t]
    case Top(Cas(o, n)) => Goto(s, t, TryCas(o, n))
    case Top(Exchange(n)) => Goto(s, t, TryExchange(n, s.val))
    case Top(Increment(d)) => Goto(s, t, TryIncrement(d, s.val, Wrap(s.val + d)))
    case Top(Load) => Commit(s, t, Load, s.val, s.val)
    case Reread(o, n) => if s.val == o then Goto(s, t, TryCas(o, n)) else Commit(s, t, Cas(o, n), s.val, s.val)
  }

  /** The kernel call: it stores only if the word still has the expected value, and may fail anyway. */
  function DoCmpxchg(s: State, t: nat, spurious: bool): State
    requires Enabled(s, t, Cmpxchg(spurious))
  {
    match s.pcs[t]
    case TryCas(o, n) =>
      if s.val == o && !spurious then Commit(s, t, Cas(o, n), n, o) else Goto(s, t, Reread(o, n))
    case TryExchange(n, seen) =>
      if s.val == seen && !spurious then Commit(s, t, Exchange(n), n, seen) else Goto(s, t, Top(Exchange(n)))
    case TryIncrement(d, seen, sum) =>
      if s.val == seen && !spurious then Commit(s, t, Increment(d), sum, sum) else Goto(s, t, Top(Increment(d)))
  }

  function Act(s: State, t: nat, a: Action): State
    requires Enabled(s, t, a)
  {
    match a
    case Invoke(op) => Goto(s, t, Top(op))
    case Read => DoRead(s, t)
    case Cmpxchg(spurious) => DoCmpxchg(s, t, spurious)
    case Return => Goto(s, t, Idle).(returned := s.returned[t := s.returned[t] + 1])
  }

  /** A schedule: which thread takes which step. */
  type Schedule = seq<(nat, Action)>

  predicate Runs(s: State, schedule: Schedule)
    decreases |schedule|
  {
    schedule != [] ==>
      var (t, a) := schedule[0];
      Enabled(s, t, a) && Runs(Act(s, t, a), schedule[1..])
  }

  function Run(s: State, schedule: Schedule): State
    requires Runs(s, schedule)
    decreases |schedule|
  {
    if schedule == [] then s
    else
      var (t, a) := schedule[0];
      Run(Act(s, t, a), schedule[1..])
  }

  /** `n` idle threads and a word holding `init`. */
  function Initial(init: int, n: nat): State {
    State(init, seq(n, i => Idle), seq(n, i => 0), [])
  }

  // ---------------------------------------------------------------------------
  // The invariant
  // ---------------------------------------------------------------------------

  function Count(hist: seq<Entry>, t: nat): nat {
    if hist == [] then 0
    else Count(hist[..|hist| - 1], t) + (if hist[|hist| - 1].tid == t then 1 else 0)
  }

  /** The last entry of thread t is e. */
  predicate LastIs(hist: seq<Entry>, t: nat, e: Entry) {
    exists i :: 0 <= i < |hist| && hist[i] == e && e.tid == t && forall j :: i < j < |hist| ==> hist[j].tid != t
  }

  predicate ThreadOk(s: State, t: nat)
    requires t < |s.pcs| == |s.returned|
  {
    && Count(s.hist, t) == s.returned[t] + (if s.pcs[t].Done? then 1 else 0)
    && (s.pcs[t].Done? ==> LastIs(s.hist, t, Entry(t, s.pcs[t].op, s.pcs[t].ret)))
    && (s.pcs[t].TryIncrement? ==> s.pcs[t].sum == Wrap(s.pcs[t].seen + s.pcs[t].amount))
  }

  /** The history explains the word and every result, and every call that has taken
      effect, and no other, has its one entry in it. */
  ghost predicate Inv(init: int, s: State) {
    && |s.pcs| == |s.returned|
    && s.val == Replay(init, s.hist)
    && Legal(init, s.hist)
    && (forall t :: 0 <= t < |s.pcs| ==> ThreadOk(s, t))
    && (forall i :: 0 <= i < |s.hist| ==> s.hist[i].tid < |s.pcs|)
  }

  lemma ReplayPush(init: int, hist: seq<Entry>, e: Entry)
    ensures Replay(init, hist + [e]) == After(e.op, Replay(init, hist))
  {
    assert (hist + [e])[..|hist|] == hist;
  }

  lemma LegalPush(init: int, hist: seq<Entry>, e: Entry)
    requires Legal(init, hist) && e.ret == Ret(e.op, Replay(init, hist))
    ensures Legal(init, hist + [e])
  {
    var longer := hist + [e];
    forall i | 0 <= i < |longer|
      ensures longer[i].ret == Ret(longer[i].op, Replay(init, longer[..i]))
    {
      if i < |hist| {
        assert longer[..i] == hist[..i];
      } else {
        assert longer[..i] == hist;
      }
    }
  }

  lemma CountPush(hist: seq<Entry>, e: Entry, t: nat)
    ensures Count(hist + [e], t) == Count(hist, t) + (if e.tid == t then 1 else 0)
  {
    assert (hist + [e])[..|hist|] == hist;
  }

  lemma LastPush(hist: seq<Entry>, e: Entry)
    ensures LastIs(hist + [e], e.tid, e)
  {
    assert (hist + [e])[|hist|] == e;
  }

  lemma LastKept(hist: seq<Entry>, e: Entry, t: nat, f: Entry)
    requires LastIs(hist, t, f) && e.tid != t
    ensures LastIs(hist + [e], t, f)
  {
    var i :| 0 <= i < |hist| && hist[i] == f && f.tid == t && forall j :: i < j < |hist| ==> hist[j].tid != t;
    assert (hist + [e])[i] == f;
  }

  /** A commit that follows the sequential meaning keeps the invariant. */
  lemma CommitKeepsInv(init: int, s: State, t: nat, op: Op)
    requires Inv(init, s) && t < |s.pcs| && !s.pcs[t].Done?
    ensures Inv(init, Commit(s, t, op, After(op, s.val), Ret(op, s.val)))
  {
    hide Legal, Replay, Count, LastIs, After, Ret;
    var e := Entry(t, op, Ret(op, s.val));
    var s' := Commit(s, t, op, After(op, s.val), e.ret);
    ReplayPush(init, s.hist, e);
    LegalPush(init, s.hist, e);
    forall u | 0 <= u < |s'.pcs|
      ensures ThreadOk(s', u)
    {
      assert ThreadOk(s, u);
      CountPush(s.hist, e, u);
      if u == t {
        LastPush(s.hist, e);
      } else if s.pcs[u].Done? {
        LastKept(s.hist, e, u, Entry(u, s.pcs[u].op, s.pcs[u].ret));
      }
    }
  }

  /** A step that only moves one thread from one place before its effect to another. */
  lemma GotoKeepsInv(init: int, s: State, t: nat, pc: Pc)
    requires Inv(init, s) && t < |s.pcs| && !s.pcs[t].Done? && !pc.Done?
    requires pc.TryIncrement? ==> pc.sum == Wrap(pc.seen + pc.amount)
    ensures Inv(init, Goto(s, t, pc))
  {
    hide Legal, Replay, Count, LastIs;
    var s' := Goto(s, t, pc);
    forall u | 0 <= u < |s'.pcs|
      ensures ThreadOk(s', u)
    {
      assert ThreadOk(s, u);
    }
  }

  lemma ReturnKeepsInv(init: int, s: State, t: nat)
    requires Inv(init, s) && Enabled(s, t, Return)
    ensures Inv(init, Act(s, t, Return))
  {
    hide Legal, Replay, Count, LastIs;
    var s' := Act(s, t, Return);
    forall u | 0 <= u < |s'.pcs|
      ensures ThreadOk(s', u)
    {
      assert ThreadOk(s, u);
    }
  }

  /** Every step of every thread keeps the invariant. */
  lemma ActKeepsInv(init: int, s: State, t: nat, a: Action)
    requires Inv(init, s) && Enabled(s, t, a)
    ensures Inv(init, Act(s, t, a))
  {
    hide Legal, Replay, Count, LastIs, Inv;
    var s' := Act(s, t, a);
    if a.Return? {
      ReturnKeepsInv(init, s, t);
    } else {
      var op := OpOf(s, t, a);
      StepShape(init, s, t, a);
      if s'.pcs[t].Done? {
        CommitKeepsInv(init, s, t, op);
      } else {
        GotoKeepsInv(init, s, t, s'.pcs[t]);
      }
    }
  }

  /** The operation thread t is in the middle of, or about to start. */
  function OpOf(s: State, t: nat, a: Action): Op
    requires Enabled(s, t, a) && !a.Return?
  {
    if a.Invoke? then a.op
    else PendingOp(s.pcs[t])
  }

  function PendingOp(pc: Pc): Op
    requires !pc.Idle?
  {
    match pc
    case Top(op) => op
    case TryCas(o, n) => Cas(o, n)
    case Reread(o, n) => Cas(o, n)
    case TryExchange(n, _) => Exchange(n)
    case TryIncrement(d, _, _) => Increment(d)
    case Done(op, _) => op
  }

  /** Each step either commits the operation according to its sequential meaning, or
      leaves the word and the history alone. */
  lemma StepShape(init: int, s: State, t: nat, a: Action)
    requires Inv(init, s) && Enabled(s, t, a) && !a.Return?
    ensures var s', op := Act(s, t, a), OpOf(s, t, a);
            && !s.pcs[t].Done?
            && |s'.pcs| == |s.pcs|
            && (if s'.pcs[t].Done? then s' == Commit(s, t, op, After(op, s.val), Ret(op, s.val))
                else s' == Goto(s, t, s'.pcs[t]) && PendingOp(s'.pcs[t]) == op && !s'.pcs[t].Idle?)
            && (s'.pcs[t].TryIncrement? ==> s'.pcs[t].sum == Wrap(s'.pcs[t].seen + s'.pcs[t].amount))
  {
    hide Legal, Replay, Count, LastIs, Wrap;
    assert ThreadOk(s, t);
  }

  lemma InitialInv(init: int, n: nat)
    ensures Inv(init, Initial(init, n))
  {
  }

  lemma {:induction false} RunKeepsInv(init: int, s: State, schedule: Schedule)
    requires Inv(init, s) && Runs(s, schedule)
    ensures Inv(init, Run(s, schedule))
    decreases |schedule|
  {
    hide Inv;
    if schedule != [] {
      var (t, a) := schedule[0];
      ActKeepsInv(init, s, t, a);
      RunKeepsInv(init, Act(s, t, a), schedule[1..]);
    }
  }

  // ---------------------------------------------------------------------------
  // The theorems
  // ---------------------------------------------------------------------------

  /** Linearizability: after any schedule, the word and all results are those of the
      operations done one after the other in history order, and each thread has one
      entry per call that returned, plus one for a call that has its result. */
  lemma Linearizable(init: int, n: nat, schedule: Schedule)
    requires Runs(Initial(init, n), schedule)
    ensures var s := Run(Initial(init, n), schedule);
            && s.val == Replay(init, s.hist)
            && Legal(init, s.hist)
            && |s.pcs| == |s.returned| == n
            && forall t :: 0 <= t < n ==>
                 && Count(s.hist, t) == s.returned[t] + (if s.pcs[t].Done? then 1 else 0)
                 && (s.pcs[t].Done? ==> LastIs(s.hist, t, Entry(t, s.pcs[t].op, s.pcs[t].ret)))
  {
    hide Legal, Replay, Count, LastIs;
    InitialInv(init, n);
    RunKeepsInv(init, Initial(init, n), schedule);
    RunThreads(Initial(init, n), schedule);
    var s := Run(Initial(init, n), schedule);
    forall t | 0 <= t < n
      ensures && Count(s.hist, t) == s.returned[t] + (if s.pcs[t].Done? then 1 else 0)
              && (s.pcs[t].Done? ==> LastIs(s.hist, t, Entry(t, s.pcs[t].op, s.pcs[t].ret)))
    {
      assert ThreadOk(s, t);
    }
  }

  lemma {:induction false} RunThreads(s: State, schedule: Schedule)
    requires Runs(s, schedule)
    ensures |Run(s, schedule).pcs| == |s.pcs|
    decreases |schedule|
  {
    if schedule != [] {
      RunThreads(Act(s, schedule[0].0, schedule[0].1), schedule[1..]);
    }
  }

  /** An entry is added only by a step of its own thread, between the invocation and the
      return of the call, and it is for the operation that was invoked. */
  lemma CommitInsideCall(init: int, s: State, t: nat, a: Action)
    requires Inv(init, s) && Enabled(s, t, a) && Act(s, t, a).hist != s.hist
    ensures var s', pc := Act(s, t, a), s.pcs[t];
            && !pc.Idle? && !pc.Done?
            && s'.pcs[t] == Done(PendingOp(pc), Ret(PendingOp(pc), s.val))
            && s'.hist == s.hist + [Entry(t, PendingOp(pc), Ret(PendingOp(pc), s.val))]
            && s'.val == After(PendingOp(pc), s.val)
  {
    hide Inv, After, Ret;
    if !a.Return? {
      StepShape(init, s, t, a);
    }
  }

  /** The word changes only in a step that commits an operation. */
  lemma OnlyCommitsWrite(s: State, t: nat, a: Action)
    requires Enabled(s, t, a)
    ensures var s' := Act(s, t, a);
            s'.hist == s.hist ==> s'.val == s.val
  {
  }

  /** No step of the schedule is taken by thread t. */
  predicate Without(schedule: Schedule, t: nat) {
    forall i :: 0 <= i < |schedule| ==> schedule[i].0 != t
  }

  lemma {:induction false} OthersRun(s: State, schedule: Schedule, t: nat)
    requires Runs(s, schedule) && Without(schedule, t) && t < |s.pcs|
    ensures var s' := Run(s, schedule);
            && |s'.returned| == |s.returned|
            && |s'.pcs| == |s.pcs| && s'.pcs[t] == s.pcs[t]
            && |s.hist| <= |s'.hist|
            && (|s'.hist| == |s.hist| ==> s'.val == s.val)
    decreases |schedule|
  {
    if schedule != [] {
      var (u, a) := schedule[0];
      assert u != t;
      assert forall i :: 0 <= i < |schedule| - 1 ==> schedule[1..][i] == schedule[i + 1];
      OthersRun(Act(s, u, a), schedule[1..], t);
    }
  }

  /** A thread that is about to make a kernel call which expects what the word holds has to go round
      again only if the call fails for no reason or another operation takes effect first. */
  lemma RetryMeansInterference(s: State, schedule: Schedule, t: nat)
    requires Runs(s, schedule) && Without(schedule, t) && t < |s.pcs| == |s.returned|
    requires match s.pcs[t] {
               case TryCas(expected, _) => expected == s.val
               case TryExchange(_, seen) => seen == s.val
               case TryIncrement(_, seen, _) => seen == s.val
               case _ => false
             }
    ensures var s' := Run(s, schedule);
            Enabled(s', t, Cmpxchg(false)) && (|s'.hist| > |s.hist| || Act(s', t, Cmpxchg(false)).pcs[t].Done?)
  {
    OthersRun(s, schedule, t);
  }

  /** What each entry of a history returned and left in the word, in terms of what the word held before. */
  lemma EntryMeans(init: int, hist: seq<Entry>, i: nat)
    requires Legal(init, hist) && i < |hist|
    ensures var e, before, after := hist[i], Replay(init, hist[..i]), Replay(init, hist[..i + 1]);
            && (e.op.Exchange? ==> e.ret == before && after == e.op.newValue)
            && (e.op.Load? ==> e.ret == before && after == before)
            && (e.op.Cas? ==> e.ret == before && after == if before == e.op.oldValue then e.op.newValue else before)
            && (e.op.Increment? ==> e.ret == after && -0x8000_0000 <= after < 0x8000_0000
                                    && (after - before - e.op.amount) % 0x1_0000_0000 == 0)
  {
    assert hist[..i + 1][..i] == hist[..i];
  }

  /** A CAS returns its expected value exactly when it wrote; otherwise it returned a
      different value that the word really had, and wrote nothing. */
  lemma CasEntries(init: int, hist: seq<Entry>, i: nat)
    requires Legal(init, hist) && i < |hist| && hist[i].op.Cas?
    ensures var e, before, after := hist[i], Replay(init, hist[..i]), Replay(init, hist[..i + 1]);
            && e.ret == before
            && (e.ret == e.op.oldValue ==> after == e.op.newValue)
            && (e.ret != e.op.oldValue ==> after == before)
  {
    assert hist[..i + 1][..i] == hist[..i];
  }

  /** The value an operation took out of the word, if it wrote. */
  function Taken(e: Entry): multiset<int> {
    match e.op
    case Cas(o, n) => if e.ret == o then multiset{o} else multiset{}
    case Exchange(n) => multiset{e.ret}
    case Increment(d) => multiset{Wrap(e.ret - d)}
    case Load => multiset{}
  }

  /** The value it put in. */
  function Put(e: Entry): multiset<int> {
    match e.op
    case Cas(o, n) => if e.ret == o then multiset{n} else multiset{}
    case Exchange(n) => multiset{n}
    case Increment(d) => multiset{e.ret}
    case Load => multiset{}
  }

  function AllTaken(hist: seq<Entry>): multiset<int> {
    if hist == [] then multiset{} else AllTaken(hist[..|hist| - 1]) + Taken(hist[|hist| - 1])
  }

  function AllPut(hist: seq<Entry>): multiset<int> {
    if hist == [] then multiset{} else AllPut(hist[..|hist| - 1]) + Put(hist[|hist| - 1])
  }

  predicate InRange(hist: seq<Entry>) {
    forall i :: 0 <= i < |hist| ==>
      match hist[i].op {
        case Cas(o, n) => -TWO_31 <= n < TWO_31
        case Exchange(n) => -TWO_31 <= n < TWO_31
        case _ => true
      }
  }

  /** Conservation: the initial value and everything put in are everything taken out and the final value. */
  lemma {:induction false} Conservation(init: int, hist: seq<Entry>)
    requires Legal(init, hist) && InRange(hist) && -TWO_31 <= init < TWO_31
    ensures multiset{init} + AllPut(hist) == AllTaken(hist) + multiset{Replay(init, hist)}
    ensures -TWO_31 <= Replay(init, hist) < TWO_31
  {
    hide Taken, Put, Wrap;
    if hist != [] {
      var n := |hist| - 1;
      var front, e := hist[..n], hist[n];
      LegalFront(init, hist);
      Conservation(init, front);
      var v := Replay(init, front);
      TakenIsOld(e, v);
      Chain(init, AllPut(front), AllTaken(front), v, Put(e), Taken(e), After(e.op, v));
    }
  }

  lemma LegalFront(init: int, hist: seq<Entry>)
    requires hist != [] && Legal(init, hist)
    ensures Legal(init, hist[..|hist| - 1])
    ensures hist[|hist| - 1].ret == Ret(hist[|hist| - 1].op, Replay(init, hist[..|hist| - 1]))
  {
    hide Replay;
    var front := hist[..|hist| - 1];
    forall i | 0 <= i < |front|
      ensures front[i].ret == Ret(front[i].op, Replay(init, front[..i]))
    {
      assert front[..i] == hist[..i];
    }
  }

  lemma Chain(a: int, put: multiset<int>, taken: multiset<int>, v: int, p: multiset<int>, t: multiset<int>, b: int)
    requires multiset{a} + put == taken + multiset{v} && multiset{v} + p == t + multiset{b}
    ensures multiset{a} + (put + p) == (taken + t) + multiset{b}
  {
    assert multiset{a} + (put + p) == (multiset{a} + put) + p;
    assert (taken + multiset{v}) + p == taken + (multiset{v} + p);
    assert taken + (t + multiset{b}) == (taken + t) + multiset{b};
  }

  lemma TakenIsOld(e: Entry, v: int)
    requires -TWO_31 <= v < TWO_31 && e.ret == Ret(e.op, v)
    ensures multiset{v} + Put(e) == Taken(e) + multiset{After(e.op, v)}
  {
    if e.op.Increment? {
      WrapAdd(v + e.op.amount, -e.op.amount);
      WrapSmall(v);
    }
  }

  function Total(hist: seq<Entry>): int {
    if hist == [] then 0
    else
      var e := hist[|hist| - 1];
      Total(hist[..|hist| - 1]) + (if e.op.Increment? then e.op.amount else 0)
  }

  /** If the word is only incremented and read, it ends at the initial value plus the sum of the increments. */
  lemma {:induction false} SumOfIncrements(init: int, hist: seq<Entry>)
    requires -TWO_31 <= init < TWO_31
    requires forall i :: 0 <= i < |hist| ==> hist[i].op.Increment? || hist[i].op.Load?
    ensures Replay(init, hist) == Wrap(init + Total(hist))
  {
    if hist == [] {
      WrapSmall(init);
    } else {
      var n := |hist| - 1;
      SumOfIncrements(init, hist[..n]);
      if hist[n].op.Increment? {
        WrapAdd(init + Total(hist[..n]), hist[n].op.amount);
      }
    }
  }

  /** The two laws over whole runs. */
  lemma RunConserves(init: int, n: nat, schedule: Schedule)
    requires Runs(Initial(init, n), schedule) && -TWO_31 <= init < TWO_31
    requires InRange(Run(Initial(init, n), schedule).hist)
    ensures var s := Run(Initial(init, n), schedule);
            multiset{init} + AllPut(s.hist) == AllTaken(s.hist) + multiset{s.val}
  {
    Linearizable(init, n, schedule);
    Conservation(init, Run(Initial(init, n), schedule).hist);
  }

  lemma RunSums(init: int, n: nat, schedule: Schedule)
    requires Runs(Initial(init, n), schedule) && -TWO_31 <= init < TWO_31
    requires var hist := Run(Initial(init, n), schedule).hist;
             forall i :: 0 <= i < |hist| ==> hist[i].op.Increment? || hist[i].op.Load?
    ensures var s := Run(Initial(init, n), schedule); s.val == Wrap(init + Total(s.hist))
  {
    Linearizable(init, n, schedule);
    SumOfIncrements(init, Run(Initial(init, n), schedule).hist);
  }

  // ---------------------------------------------------------------------------
  // Progress
  // ---------------------------------------------------------------------------

  /** Thread t takes up to n steps alone, without spurious failures, until its call has its result. */
  function Alone(s: State, t: nat, n: nat): State
    requires t < |s.pcs| == |s.returned|
    decreases n
  {
    if n == 0 || s.pcs[t].Idle? || s.pcs[t].Done? then s
    else Alone(Act(s, t, if s.pcs[t].Top? || s.pcs[t].Reread? then Read else Cmpxchg(false)), t, n - 1)
  }

  lemma AloneStep(s: State, t: nat, n: nat, pc: Pc)
    requires t < |s.pcs| == |s.returned| && n > 0 && !s.pcs[t].Idle? && !s.pcs[t].Done?
    requires Act(s, t, if s.pcs[t].Top? || s.pcs[t].Reread? then Read else Cmpxchg(false)) == Goto(s, t, pc)
    ensures Alone(s, t, n) == Alone(Goto(s, t, pc), t, n - 1)
    ensures forall op, val, ret :: Commit(Goto(s, t, pc), t, op, val, ret) == Commit(s, t, op, val, ret)
  {
    var s' := Goto(s, t, pc);
    forall op, val, ret
      ensures Commit(s', t, op, val, ret) == Commit(s, t, op, val, ret)
    {
      assert s'.pcs[t := Done(op, ret)] == s.pcs[t := Done(op, ret)];
    }
  }

  lemma AloneCommits(s: State, t: nat, n: nat, op: Op, val: int, ret: int)
    requires t < |s.pcs| == |s.returned| && n > 0 && !s.pcs[t].Idle? && !s.pcs[t].Done?
    requires Act(s, t, if s.pcs[t].Top? || s.pcs[t].Reread? then Read else Cmpxchg(false)) == Commit(s, t, op, val, ret)
    ensures Alone(s, t, n) == Commit(s, t, op, val, ret)
  {
  }

  /** Wherever a thread is in its loop, whatever the word holds: if it runs alone, four steps complete its call, with
      one entry for the operation it invoked and the result the sequential meaning gives. */
  lemma AloneCompletes(s: State, t: nat)
    requires t < |s.pcs| == |s.returned| && !s.pcs[t].Idle? && !s.pcs[t].Done?
    requires s.pcs[t].TryIncrement? ==> s.pcs[t].sum == Wrap(s.pcs[t].seen + s.pcs[t].amount)
    ensures var op := PendingOp(s.pcs[t]);
            Alone(s, t, 4) == Commit(s, t, op, After(op, s.val), Ret(op, s.val))
  {
    hide Wrap, Alone;
    var op := PendingOp(s.pcs[t]);
    match s.pcs[t] {
      case Top(_) => FromTop(s, t, 4);
      case Reread(o, n) => FromReread(s, t, 4);
      case TryCas(o, n) => FromTryCas(s, t, 4);
      case TryExchange(n, seen) =>
        if s.val == seen {
          AloneCommits(s, t, 4, op, n, seen);
        } else {
          AloneStep(s, t, 4, Top(op));
          FromTop(Goto(s, t, Top(op)), t, 3);
        }
      case TryIncrement(d, seen, sum) =>
        if s.val == seen {
          AloneCommits(s, t, 4, op, sum, sum);
        } else {
          AloneStep(s, t, 4, Top(op));
          FromTop(Goto(s, t, Top(op)), t, 3);
        }
    }
  }

  lemma FromTryCas(s: State, t: nat, n: nat)
    requires t < |s.pcs| == |s.returned| && s.pcs[t].TryCas? && n >= 2
    ensures var op := PendingOp(s.pcs[t]); Alone(s, t, n) == Commit(s, t, op, After(op, s.val), Ret(op, s.val))
  {
    hide Alone;
    var pc := s.pcs[t];
    if s.val == pc.oldValue {
      AloneCommits(s, t, n, PendingOp(pc), pc.newValue, pc.oldValue);
    } else {
      AloneStep(s, t, n, Reread(pc.oldValue, pc.newValue));
      FromReread(Goto(s, t, Reread(pc.oldValue, pc.newValue)), t, n - 1);
    }
  }

  /** After a failed kernel call: the loop ends if the word has another value, and tries again if not. */
  lemma FromReread(s: State, t: nat, n: nat)
    requires t < |s.pcs| == |s.returned| && s.pcs[t].Reread? && n >= 1
    requires s.val == s.pcs[t].oldValue ==> n >= 2
    ensures var op := PendingOp(s.pcs[t]); Alone(s, t, n) == Commit(s, t, op, After(op, s.val), Ret(op, s.val))
  {
    hide Alone;
    var pc := s.pcs[t];
    if s.val == pc.oldValue {
      AloneStep(s, t, n, TryCas(pc.oldValue, pc.newValue));
      AloneCommits(Goto(s, t, TryCas(pc.oldValue, pc.newValue)), t, n - 1, PendingOp(pc), pc.newValue, pc.oldValue);
    } else {
      AloneCommits(s, t, n, PendingOp(pc), s.val, s.val);
    }
  }

  lemma FromTop(s: State, t: nat, n: nat)
    requires t < |s.pcs| == |s.returned| && s.pcs[t].Top? && n >= 3
    ensures var op := s.pcs[t].op; Alone(s, t, n) == Commit(s, t, op, After(op, s.val), Ret(op, s.val))
  {
    hide Wrap, Alone;
    var op := s.pcs[t].op;
    match op
    case Load => AloneCommits(s, t, n, op, s.val, s.val);
    case Cas(o, v) =>
      AloneStep(s, t, n, TryCas(o, v));
      FromTryCas(Goto(s, t, TryCas(o, v)), t, n - 1);
    case Exchange(v) =>
      AloneStep(s, t, n, TryExchange(v, s.val));
      AloneCommits(Goto(s, t, TryExchange(v, s.val)), t, n - 1, op, v, s.val);
    case Increment(d) =>
      var sum := Wrap(s.val + d);
      AloneStep(s, t, n, TryIncrement(d, s.val, sum));
      AloneCommits(Goto(s, t, TryIncrement(d, s.val, sum)), t, n - 1, op, sum, sum);
  }
}
