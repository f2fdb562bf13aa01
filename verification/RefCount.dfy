/**
 Reference counting as a client of the increment loop.

 A thread may add references only while it holds one, and may drop only
 references it holds; references may also be handed from one thread to another.
 The count is then always the number of references held, and the drop that
 reports zero is the last change the count ever sees.
 */
module RefCount {
  import opened Atomics

  /** The atomic word with its threads, and how many references each thread holds. */
  datatype Counted = Counted(atom: Atomics.State, held: seq<nat>)

  function Sum(held: seq<nat>): nat {
    if held == [] then 0 else Sum(held[..|held| - 1]) + held[|held| - 1]
  }

  datatype Action = Step(t: nat, action: Atomics.Action) | Hand(src: nat, dst: nat, count: nat)

  /** A thread that holds `held` references may start this operation. */
  predicate Allowed(op: Op, held: nat) {
    match op
    case Increment(d) => d != 0 && held > 0 && (d < 0 ==> -d <= held)
    case Load => held > 0
    case _ => false
  }

  predicate Enabled(s: Counted, a: Action) {
    match a
    case Step(t, action) =>
      && Atomics.Enabled(s.atom, t, action) && t < |s.held|
      && (action.Invoke? ==> Allowed(action.op, s.held[t]))
    case Hand(src, dst, count) =>
      && src < |s.held| == |s.atom.pcs| && dst < |s.held| && src != dst
      && s.atom.pcs[src].Idle? && count <= s.held[src]
  }

  /** References change hands at the step where the increment takes effect. */
  function HeldAfter(s: Counted, t: nat, action: Atomics.Action): int
    requires Atomics.Enabled(s.atom, t, action) && t < |s.held|
  {
    var atom' := Atomics.Act(s.atom, t, action);
    if |atom'.hist| > |s.atom.hist| && atom'.hist[|s.atom.hist|].op.Increment?
    then s.held[t] + atom'.hist[|s.atom.hist|].op.amount
    else s.held[t]
  }

  function Act(s: Counted, a: Action): Counted
    requires Enabled(s, a)
  {
    match a
    case Step(t, action) =>
      var h := HeldAfter(s, t, action);
      Counted(Atomics.Act(s.atom, t, action), s.held[t := if h >= 0 then h else 0])
    case Hand(src, dst, count) =>
      s.(held := s.held[src := s.held[src] - count][dst := s.held[dst] + count])
  }

  predicate Runs(s: Counted, schedule: seq<Action>)
    decreases |schedule|
  {
    schedule != [] ==> Enabled(s, schedule[0]) && Runs(Act(s, schedule[0]), schedule[1..])
  }

  function Run(s: Counted, schedule: seq<Action>): Counted
    requires Runs(s, schedule)
    decreases |schedule|
  {
    if schedule == [] then s else Run(Act(s, schedule[0]), schedule[1..])
  }

  /** The references held do not make up a full turn of the 32-bit word. */
  predicate NotFullTurn(held: seq<nat>) {
    Sum(held) == 0 || Sum(held) % 0x1_0000_0000 != 0
  }

  /** At no point of the run do they; in particular if there are never 2^32 of them. */
  predicate NoFullTurn(s: Counted, schedule: seq<Action>)
    requires Runs(s, schedule)
    decreases |schedule|
  {
    NotFullTurn(s.held) && (schedule != [] ==> NoFullTurn(Act(s, schedule[0]), schedule[1..]))
  }

  // ---------------------------------------------------------------------------
  // Sums
  // ---------------------------------------------------------------------------

  lemma {:induction false} SumUpdate(held: seq<nat>, t: nat, h: nat)
    requires t < |held|
    ensures Sum(held[t := h]) == Sum(held) - held[t] + h
  {
    var n := |held| - 1;
    if t == n {
      assert held[t := h][..n] == held[..n];
    } else {
      SumUpdate(held[..n], t, h);
      assert held[t := h][..n] == held[..n][t := h];
    }
  }

  lemma {:induction false} SumAtLeast(held: seq<nat>, t: nat)
    requires t < |held|
    ensures held[t] <= Sum(held)
  {
    SumUpdate(held, t, 0);
  }

  /** If one thread holds all the references, no other thread holds any. */
  lemma SumAllInOne(held: seq<nat>, t: nat, u: nat)
    requires t < |held| && u < |held| && t != u
    ensures held[t] + held[u] <= Sum(held)
  {
    SumUpdate(held, t, 0);
    SumAtLeast(held[t := 0], u);
  }

  // ---------------------------------------------------------------------------
  // The invariant
  // ---------------------------------------------------------------------------

  /** An operation under way is still allowed. */
  predicate StillAllowed(s: Counted)
    requires |s.held| == |s.atom.pcs|
  {
    forall t :: 0 <= t < |s.held| && !s.atom.pcs[t].Idle? && !s.atom.pcs[t].Done? ==>
      Allowed(PendingOp(s.atom.pcs[t]), s.held[t])
  }

  predicate OnlyCounting(hist: seq<Entry>) {
    forall i :: 0 <= i < |hist| ==> hist[i].op.Increment? || hist[i].op.Load?
  }

  predicate IsChange(e: Entry) {
    e.op.Increment?
  }

  /** A change that reports zero has no change after it. */
  predicate ZeroIsLast(hist: seq<Entry>) {
    forall i, j :: 0 <= i < j < |hist| && IsChange(hist[i]) && hist[i].ret == 0 ==> !IsChange(hist[j])
  }

  predicate ReportedZero(hist: seq<Entry>) {
    exists i :: 0 <= i < |hist| && IsChange(hist[i]) && hist[i].ret == 0
  }

  ghost predicate Inv(init: int, s: Counted) {
    && Atomics.Inv(init, s.atom)
    && |s.held| == |s.atom.pcs|
    && s.atom.val == Wrap(Sum(s.held))
    && StillAllowed(s)
    && OnlyCounting(s.atom.hist)
  }

  /** What a step of one thread does: it commits an allowed operation, or it changes
      neither the word nor the history. */
  lemma StepCases(init: int, s: Counted, t: nat, action: Atomics.Action)
    requires Inv(init, s) && Enabled(s, Step(t, action))
    ensures var atom', h := Atomics.Act(s.atom, t, action), HeldAfter(s, t, action);
            && |atom'.pcs| == |s.atom.pcs|
            && (forall u :: 0 <= u < |s.atom.pcs| && u != t ==> atom'.pcs[u] == s.atom.pcs[u])
            && if !action.Return? && atom'.pcs[t].Done? then
                 var op := OpOf(s.atom, t, action);
                 && Allowed(op, s.held[t])
                 && atom' == Commit(s.atom, t, op, After(op, s.atom.val), Ret(op, s.atom.val))
                 && h == s.held[t] + (if op.Increment? then op.amount else 0)
               else
                 && atom'.val == s.atom.val && atom'.hist == s.atom.hist && h == s.held[t]
                 && (!atom'.pcs[t].Idle? ==> Allowed(PendingOp(atom'.pcs[t]), s.held[t]))
  {
    hide Legal, Replay, Count, LastIs, Wrap, Sum, ThreadOk, DoRead, DoCmpxchg;
    if !action.Return? {
      StepShape(init, s.atom, t, action);
    }
  }

  lemma StepKeepsInv(init: int, s: Counted, t: nat, action: Atomics.Action)
    requires Inv(init, s) && Enabled(s, Step(t, action))
    ensures Inv(init, Act(s, Step(t, action)))
    ensures HeldAfter(s, t, action) >= 0
  {
    hide Legal, Replay, Count, LastIs, Wrap, Sum, ThreadOk, HeldAfter, Atomics.Act, Atomics.Inv;
    var s' := Act(s, Step(t, action));
    StepCases(init, s, t, action);
    ActKeepsInv(init, s.atom, t, action);
    var h := HeldAfter(s, t, action);
    SumUpdate(s.held, t, if h >= 0 then h else 0);
    WrapAdd(Sum(s.held), h - s.held[t]);
    if Sum(s'.held) == Sum(s.held) {
      WrapFixed(Sum(s.held));
    }
  }

  lemma WrapFixed(x: int)
    ensures Wrap(Wrap(x)) == Wrap(x)
  {
    WrapSmall(Wrap(x));
  }

  lemma HandKeepsInv(init: int, s: Counted, a: Action)
    requires Inv(init, s) && a.Hand? && Enabled(s, a)
    ensures Inv(init, Act(s, a)) && Sum(Act(s, a).held) == Sum(s.held)
  {
    hide Legal, Replay, Count, LastIs, Wrap, Sum, ThreadOk, Atomics.Inv;
    var mid := s.held[a.src := s.held[a.src] - a.count];
    SumUpdate(s.held, a.src, s.held[a.src] - a.count);
    SumUpdate(mid, a.dst, s.held[a.dst] + a.count);
  }

  lemma ActKeepsInvariant(init: int, s: Counted, a: Action)
    requires Inv(init, s) && Enabled(s, a)
    ensures Inv(init, Act(s, a))
  {
    hide Inv, Act;
    match a
    case Step(t, action) => StepKeepsInv(init, s, t, action);
    case Hand(_, _, _) => HandKeepsInv(init, s, a);
  }

  // ---------------------------------------------------------------------------
  // Zero is the end
  // ---------------------------------------------------------------------------

  /** Once a change has reported zero there are no references left, so no change follows. */
  ghost predicate ZeroInv(s: Counted) {
    && ZeroIsLast(s.atom.hist)
    && (ReportedZero(s.atom.hist) ==> Sum(s.held) == 0)
  }

  lemma ActKeepsZero(init: int, s: Counted, a: Action)
    requires Inv(init, s) && ZeroInv(s) && Enabled(s, a)
    requires NotFullTurn(Act(s, a).held)
    ensures ZeroInv(Act(s, a))
  {
    hide Legal, Replay, Count, LastIs, Wrap, Sum, ThreadOk, Atomics.Act, Atomics.Inv, Act;
    var s' := Act(s, a);
    match a
    case Hand(_, _, _) =>
      HandKeepsInv(init, s, a);
      assert s'.atom == s.atom by { HandKeepsAtom(s, a); }
    case Step(t, action) =>
      StepEffect(init, s, t, action);
      StepKeepsInv(init, s, t, action);
      if s'.atom.hist != s.atom.hist {
        var e := s'.atom.hist[|s.atom.hist|];
        SumAtLeast(s.held, t);
        if IsChange(e) {
          assert !ReportedZero(s.atom.hist);
          ZeroIffTurn(Sum(s'.held));
        }
        ZeroPush(s.atom.hist, e);
      }
  }

  lemma ZeroIffTurn(x: int)
    ensures Wrap(x) == 0 <==> x % TWO_32 == 0
  {
    WrapEqual(x, 0);
    WrapSmall(0);
  }

  lemma HandKeepsAtom(s: Counted, a: Action)
    requires a.Hand? && Enabled(s, a)
    ensures Act(s, a).atom == s.atom
  {
  }

  /** The part of a step that the zero argument needs. */
  lemma StepEffect(init: int, s: Counted, t: nat, action: Atomics.Action)
    requires Inv(init, s) && Enabled(s, Step(t, action))
    ensures var s' := Act(s, Step(t, action));
            if s'.atom.hist == s.atom.hist then Sum(s'.held) == Sum(s.held)
            else
              && |s'.atom.hist| == |s.atom.hist| + 1 && s'.atom.hist[..|s.atom.hist|] == s.atom.hist
              && var e := s'.atom.hist[|s.atom.hist|];
                 && s.held[t] > 0
                 && e.tid == t
                 && (IsChange(e) ==> e.ret == s'.atom.val)
                 && (e.op.Load? ==> e.ret == s.atom.val && s'.held == s.held)
                 && (IsChange(e) || e.op.Load?)
  {
    hide Legal, Replay, Count, LastIs, Wrap, Sum, ThreadOk, HeldAfter, Atomics.Act, Atomics.Inv;
    StepCases(init, s, t, action);
    var s' := Act(s, Step(t, action));
    var h := HeldAfter(s, t, action);
    SumUpdate(s.held, t, if h >= 0 then h else 0);
  }

  lemma ZeroPush(hist: seq<Entry>, e: Entry)
    requires ZeroIsLast(hist) && (IsChange(e) ==> !ReportedZero(hist))
    ensures ZeroIsLast(hist + [e])
    ensures ReportedZero(hist + [e]) <==> ReportedZero(hist) || (IsChange(e) && e.ret == 0)
  {
    var longer := hist + [e];
    assert longer[|hist|] == e && forall i :: 0 <= i < |hist| ==> longer[i] == hist[i];
    if i :| 0 <= i < |hist| && IsChange(hist[i]) && hist[i].ret == 0 {
      assert IsChange(longer[i]) && longer[i].ret == 0;
    }
  }

  lemma {:induction false} RunInvariants(init: int, s: Counted, schedule: seq<Action>)
    requires Inv(init, s) && Runs(s, schedule)
    ensures Inv(init, Run(s, schedule))
    ensures ZeroInv(s) && NoFullTurn(s, schedule) ==> ZeroInv(Run(s, schedule))
    decreases |schedule|
  {
    hide Inv, ZeroInv, Act, Sum;
    if schedule != [] {
      ActKeepsInvariant(init, s, schedule[0]);
      if ZeroInv(s) && NoFullTurn(s, schedule) {
        assert NoFullTurn(Act(s, schedule[0]), schedule[1..]);
        ActKeepsZero(init, s, schedule[0]);
      }
      RunInvariants(init, Act(s, schedule[0]), schedule[1..]);
    }
  }

  // ---------------------------------------------------------------------------
  // The theorems
  // ---------------------------------------------------------------------------

  /** The creating thread 0 holds `refs` references, which is what the word says; all threads are idle. */
  function Start(n: nat, refs: nat): Counted
    requires n > 0
  {
    Counted(Atomics.Initial(refs, n), seq(n, i => 0)[0 := refs])
  }

  lemma {:induction false} SumZeros(n: nat)
    ensures Sum(seq(n, i => 0)) == 0
  {
    if n > 0 {
      SumZeros(n - 1);
      assert seq(n, i => 0)[..n - 1] == seq(n - 1, i => 0);
    }
  }

  lemma StartInv(n: nat, refs: nat)
    requires 0 < n && 0 < refs < TWO_31
    ensures Inv(refs, Start(n, refs)) && ZeroInv(Start(n, refs)) && Sum(Start(n, refs).held) == refs
  {
    InitialInv(refs, n);
    SumZeros(n);
    SumUpdate(seq(n, i => 0), 0, refs);
    WrapSmall(refs);
  }

  /** After any schedule the word is the number of references held, modulo its size, and so
      equal to it exactly below 2^31.  If the references never make up a full turn, the
      drop that reports zero is unique, no change follows it, and zero has been reported exactly
      when no reference is left. */
  lemma CountIsReferences(n: nat, refs: nat, schedule: seq<Action>)
    requires 0 < n && 0 < refs < TWO_31 && Runs(Start(n, refs), schedule)
    ensures var s := Run(Start(n, refs), schedule);
            && s.atom.val == Wrap(Sum(s.held))
            && (s.atom.val == Sum(s.held) <==> Sum(s.held) < 0x8000_0000)
            && (NoFullTurn(Start(n, refs), schedule) ==>
                  ZeroIsLast(s.atom.hist) && (ReportedZero(s.atom.hist) <==> Sum(s.held) == 0))
  {
    hide Wrap, Sum, StillAllowed, Run, Runs, NoFullTurn;
    var s := Run(Start(n, refs), schedule);
    StartInv(n, refs);
    RunInvariants(refs, Start(n, refs), schedule);
    if Sum(s.held) < TWO_31 {
      WrapSmall(Sum(s.held));
    }
    if Sum(s.held) == 0 {
      WrapSmall(0);
      ZeroWasReported(refs, s.atom.hist);
    }
  }

  /** A change that reports zero. */
  predicate ReportsZero(s: Counted, s': Counted) {
    |s'.atom.hist| > |s.atom.hist| && IsChange(s'.atom.hist[|s.atom.hist|]) && s'.atom.hist[|s.atom.hist|].ret == 0
  }

  /** Whenever a change of the run reports zero, no reference is left. */
  predicate HonestZeros(s: Counted, schedule: seq<Action>)
    requires Runs(s, schedule)
    decreases |schedule|
  {
    schedule != [] ==>
      var s' := Act(s, schedule[0]);
      (ReportsZero(s, s') ==> Sum(s'.held) == 0) && HonestZeros(s', schedule[1..])
  }

  /** The reports of zero are to be trusted exactly when the references never make up a full turn. */
  lemma {:induction false} HonestZerosIff(init: int, s: Counted, schedule: seq<Action>)
    requires Inv(init, s) && Runs(s, schedule) && NotFullTurn(s.held)
    ensures HonestZeros(s, schedule) <==> NoFullTurn(s, schedule)
    decreases |schedule|
  {
    hide Inv, Act, Sum, NotFullTurn, ReportsZero;
    if schedule != [] {
      var s' := Act(s, schedule[0]);
      ActKeepsInvariant(init, s, schedule[0]);
      StepHonest(init, s, schedule[0]);
      if NotFullTurn(s'.held) {
        HonestZerosIff(init, s', schedule[1..]);
      } else {
        assert !NoFullTurn(s', schedule[1..]);
      }
    }
  }

  lemma StepHonest(init: int, s: Counted, a: Action)
    requires Inv(init, s) && Enabled(s, a) && NotFullTurn(s.held)
    ensures var s' := Act(s, a); NotFullTurn(s'.held) <==> (ReportsZero(s, s') ==> Sum(s'.held) == 0)
  {
    hide Legal, Replay, Count, LastIs, Wrap, Sum, ThreadOk, Atomics.Act, Atomics.Inv, Act;
    var s' := Act(s, a);
    match a
    case Hand(_, _, _) =>
      HandKeepsInv(init, s, a);
      HandKeepsAtom(s, a);
    case Step(t, action) =>
      StepEffect(init, s, t, action);
      StepKeepsInv(init, s, t, action);
      ZeroIffTurn(Sum(s'.held));
  }

  /** A word that started positive and is now zero was made zero by a change that reported it. */
  lemma {:induction false} ZeroWasReported(init: int, hist: seq<Entry>)
    requires init != 0 && Legal(init, hist) && OnlyCounting(hist) && Replay(init, hist) == 0
    ensures ReportedZero(hist)
  {
    hide Wrap;
    assert hist != [];
    var n := |hist| - 1;
    var front := hist[..n];
    LegalFront(init, hist);
    if IsChange(hist[n]) {
      assert hist[n].ret == 0;
    } else {
      ZeroWasReported(init, front);
      var i :| 0 <= i < |front| && IsChange(front[i]) && front[i].ret == 0;
      assert hist[i] == front[i];
    }
  }

  /** A holder that sees a count of one is the only holder at that step, exactly if there
      are fewer than 2^32 references. */
  lemma OneMeansExclusive(n: nat, refs: nat, schedule: seq<Action>, t: nat, action: Atomics.Action)
    requires 0 < n && 0 < refs < TWO_31 && Runs(Start(n, refs), schedule)
    requires Enabled(Run(Start(n, refs), schedule), Step(t, action))
    ensures var s := Run(Start(n, refs), schedule);
            var s' := Act(s, Step(t, action));
            |s'.atom.hist| > |s.atom.hist| && s'.atom.hist[|s.atom.hist|].op.Load? && s'.atom.hist[|s.atom.hist|].ret == 1 ==>
              (IsOnlyHolder(s'.held, t) <==> Sum(s'.held) < 0x1_0000_0000)
  {
    hide Wrap, Sum, StillAllowed, Run, Runs, Act, IsOnlyHolder;
    var s := Run(Start(n, refs), schedule);
    StartInv(n, refs);
    RunInvariants(refs, Start(n, refs), schedule);
    StepEffect(refs, s, t, action);
    WrapEqual(Sum(s.held), 1);
    WrapSmall(1);
    if s.held[t] > 0 {
      OnlyHolderIff(s.held, t);
    }
  }

  /** Thread t holds the one reference there is. */
  predicate IsOnlyHolder(held: seq<nat>, t: nat)
    requires t < |held|
  {
    held[t] == 1 && forall u :: 0 <= u < |held| && u != t ==> held[u] == 0
  }

  lemma {:induction false} SumOfNone(held: seq<nat>)
    requires forall u :: 0 <= u < |held| ==> held[u] == 0
    ensures Sum(held) == 0
  {
    if held != [] {
      SumOfNone(held[..|held| - 1]);
    }
  }

  lemma OnlyHolderIff(held: seq<nat>, t: nat)
    requires t < |held| && held[t] > 0
    ensures IsOnlyHolder(held, t) <==> Sum(held) == 1
  {
    hide Sum;
    SumAtLeast(held, t);
    if IsOnlyHolder(held, t) {
      SumUpdate(held, t, 0);
      SumOfNone(held[t := 0]);
    }
    forall u | 0 <= u < |held| && u != t
      ensures held[t] + held[u] <= Sum(held)
    {
      SumAllInOne(held, t, u);
    }
  }
}
