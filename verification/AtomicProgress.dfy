/** That calls of atomic.h do take effect: a thread left alone finishes its call in four steps,
    every reachable state can be run to one where all calls have returned, and every sequential
    order of calls is a run. */
module AtomicProgress {
  import opened Atomic
  import opened AtomicUses
  import opened Basics

  /** The scheduler goes on from this state. */
  function Then(ty: WordType, s: State, steps: seq<Step>): (r: State)
    requires Shaped(s)
    ensures Shaped(r)
    decreases |steps|
  {
    if steps == [] then s
    else
      NextShaped(ty, s, steps[0]);
      Then(ty, Next(ty, s, steps[0]), steps[1..])
  }

  lemma {:induction false} ThenSplit(ty: WordType, s: State, a: seq<Step>, b: seq<Step>)
    requires Shaped(s)
    ensures Then(ty, s, a + b) == Then(ty, Then(ty, s, a), b)
    decreases |a|
  {
    if a == [] {
      assert a + b == b;
    } else {
      assert (a + b)[1..] == a[1..] + b;
      NextShaped(ty, s, a[0]);
      ThenSplit(ty, Next(ty, s, a[0]), a[1..], b);
    }
  }

  lemma {:induction false} ExecThen(ty: WordType, threads: nat, mem0: nat, steps: seq<Step>, more: seq<Step>)
    ensures Exec(ty, threads, mem0, steps + more) == Then(ty, Exec(ty, threads, mem0, steps), more)
    decreases |more|
  {
    if more == [] {
      assert steps + more == steps;
    } else {
      var next := steps + [more[0]];
      assert next[..|next| - 1] == steps;
      assert steps + more == next + more[1..];
      ExecThen(ty, threads, mem0, next, more[1..]);
    }
  }

  // ---- One thread alone ----

  /** Enough turns for a thread to finish whatever it is doing. */
  function Finish(t: nat): seq<Step> { [Swap(t), Load(t), Swap(t), Return(t)] }

  lemma {:induction false} FourSteps(ty: WordType, s: State, a: Step, b: Step, c: Step, d: Step)
    requires Shaped(s)
    ensures Shaped(Next(ty, s, a)) && Shaped(Next(ty, Next(ty, s, a), b))
    ensures Shaped(Next(ty, Next(ty, Next(ty, s, a), b), c))
    ensures Then(ty, s, [a, b, c, d]) == Next(ty, Next(ty, Next(ty, Next(ty, s, a), b), c), d)
  {
    NextShaped(ty, s, a);
    NextShaped(ty, Next(ty, s, a), b);
    NextShaped(ty, Next(ty, Next(ty, s, a), b), c);
    var s3 := Next(ty, Next(ty, Next(ty, s, a), b), c);
    assert [a, b, c, d][1..] == [b, c, d] && [b, c, d][1..] == [c, d] && [c, d][1..] == [d];
    NextShaped(ty, s3, d);
    assert Then(ty, s3, [d]) == Next(ty, s3, d) by { assert [d][1..] == []; }
    assert Then(ty, Next(ty, s, a), [b, c, d]) == Then(ty, Next(ty, Next(ty, s, a), b), [c, d]);
  }

  /** Thread `t` was at call `c`, which has now returned, and nothing else has. */
  ghost predicate Finished(s: State, n: State, t: nat, c: nat, result: int)
    requires t < |s.phases| && c < |s.calls|
  {
    && n.phases == s.phases[t := Idle] && |n.calls| == |s.calls|
    && (forall d :: 0 <= d < |s.calls| && d != c ==> n.calls[d] == s.calls[d])
    && n.calls[c].thread == s.calls[c].thread && n.calls[c].op == s.calls[c].op
    && n.calls[c].response.Some? && n.calls[c].response.value.result == result
  }

  /** Thread `t` is at a call that has not taken effect. */
  ghost predicate Working(s: State, t: nat) {
    t < |s.phases| && (s.phases[t].Entered? || s.phases[t].Holding?)
  }

  /** The call of thread `t` has taken effect on the word of state `s`. */
  ghost predicate Effected(ty: WordType, s: State, n: State, t: nat)
    requires Shaped(s) && Working(s, t)
  {
    var c := s.phases[t].call;
    var op := s.calls[c].op;
    && n.mem == After(ty, op, s.mem)
    && n.phases == s.phases[t := Leaving(c, Result(ty, op, s.mem))]
    && |n.calls| == |s.calls| && n.calls[c].thread == s.calls[c].thread && n.calls[c].op == op
    && (forall d :: 0 <= d < |s.calls| && d != c ==> n.calls[d] == s.calls[d])
  }

  lemma {:induction false} EnteredTakesEffect(ty: WordType, s: State, t: nat)
    requires Shaped(s) && t < |s.phases| && s.phases[t].Entered?
    ensures Shaped(Next(ty, s, Load(t)))
    ensures !s.calls[s.phases[t].call].op.CompareExchange? ==>
              Next(ty, s, Swap(t)) == s && Effected(ty, s, Next(ty, Next(ty, s, Load(t)), Swap(t)), t)
    ensures s.calls[s.phases[t].call].op.CompareExchange? ==> Effected(ty, s, Next(ty, s, Swap(t)), t)
  {
    NextShaped(ty, s, Load(t));
  }

  lemma {:induction false} LeavingWaits(ty: WordType, s: State, t: nat)
    requires Shaped(s) && t < |s.phases| && (s.phases[t].Leaving? || s.phases[t].Idle?)
    ensures Next(ty, s, Load(t)) == s && Next(ty, s, Swap(t)) == s
  {
  }

  lemma {:induction false} HoldingMoves(ty: WordType, s: State, t: nat)
    requires Shaped(s) && t < |s.phases| && s.phases[t].Holding? && PhaseOk(ty, s, t)
    ensures var n := Next(ty, s, Swap(t));
            if s.mem == s.phases[t].read then Effected(ty, s, n, t)
            else n.mem == s.mem && n.calls == s.calls && n.phases == s.phases[t := Entered(s.phases[t].call)]
  {
  }

  lemma {:induction false} TakesEffect(ty: WordType, s: State, t: nat)
    requires Shaped(s) && Working(s, t) && (s.phases[t].Holding? ==> PhaseOk(ty, s, t))
    ensures var a := Next(ty, s, Swap(t));
            Shaped(a) && Shaped(Next(ty, a, Load(t))) && Effected(ty, s, Next(ty, Next(ty, a, Load(t)), Swap(t)), t)
  {
    var a := Next(ty, s, Swap(t));
    NextShaped(ty, s, Swap(t));
    NextShaped(ty, a, Load(t));
    if s.phases[t].Holding? {
      HoldingMoves(ty, s, t);
      if s.mem == s.phases[t].read {
        LeavingWaits(ty, a, t);
      } else {
        EnteredTakesEffect(ty, a, t);
      }
    } else {
      EnteredTakesEffect(ty, s, t);
      if s.calls[s.phases[t].call].op.CompareExchange? {
        LeavingWaits(ty, a, t);
      }
    }
  }

  /** A thread that is at a call and runs alone, wherever others have left it, finishes the call
      within four steps: the word is what the operation makes of the word there was, and the call
      returns what it would sequentially. */
  lemma {:induction false} AloneCompletes(ty: WordType, s: State, t: nat)
    requires Shaped(s) && Working(s, t) && (s.phases[t].Holding? ==> PhaseOk(ty, s, t))
    ensures var n, c := Then(ty, s, Finish(t)), s.phases[t].call;
            && n.mem == After(ty, s.calls[c].op, s.mem)
            && Finished(s, n, t, c, Result(ty, s.calls[c].op, s.mem))
  {
    FourSteps(ty, s, Swap(t), Load(t), Swap(t), Return(t));
    TakesEffect(ty, s, t);
  }

  lemma {:induction false} LeavingReturns(ty: WordType, s: State, t: nat)
    requires Shaped(s) && t < |s.phases| && s.phases[t].Leaving?
    ensures var n := Then(ty, s, Finish(t));
            n.mem == s.mem && Finished(s, n, t, s.phases[t].call, s.phases[t].result)
  {
    FourSteps(ty, s, Swap(t), Load(t), Swap(t), Return(t));
    LeavingWaits(ty, s, t);
  }

  lemma {:induction false} IdleStays(ty: WordType, s: State, t: nat)
    requires Shaped(s) && t < |s.phases| && s.phases[t].Idle?
    ensures Then(ty, s, Finish(t)) == s
  {
    FourSteps(ty, s, Swap(t), Load(t), Swap(t), Return(t));
    LeavingWaits(ty, s, t);
  }

  // ---- Every state can be run to the end of its calls ----

  /** A call that has not returned is the one its thread is at. */
  ghost predicate Attended(s: State) {
    forall c :: 0 <= c < |s.calls| && s.calls[c].response.None? ==> AtCall(s, c)
  }

  ghost predicate AtCall(s: State, c: int)
    requires 0 <= c < |s.calls|
  {
    var t := s.calls[c].thread;
    t < |s.phases| && !s.phases[t].Idle? && s.phases[t].call == c
  }

  lemma {:induction false} NextAttended(ty: WordType, s: State, step: Step)
    requires Shaped(s) && Attended(s)
    ensures Attended(Next(ty, s, step))
  {
    var n := Next(ty, s, step);
    forall c | 0 <= c < |n.calls| && n.calls[c].response.None? ensures AtCall(n, c) {
      assert c < |s.calls| ==> AtCall(s, c);
    }
  }

  lemma {:induction false} ThenAttended(ty: WordType, s: State, steps: seq<Step>)
    requires Shaped(s) && Attended(s)
    ensures Attended(Then(ty, s, steps))
    decreases |steps|
  {
    if steps != [] {
      NextAttended(ty, s, steps[0]);
      NextShaped(ty, s, steps[0]);
      ThenAttended(ty, Next(ty, s, steps[0]), steps[1..]);
    }
  }

  /** The same calls, those that had returned unchanged. */
  ghost predicate SameCalls(a: seq<Call>, b: seq<Call>) {
    && |a| == |b|
    && forall c :: 0 <= c < |a| ==>
         a[c].thread == b[c].thread && a[c].op == b[c].op && (a[c].response.Some? ==> b[c] == a[c])
  }

  ghost predicate FirstIdle(s: State, n: nat) {
    n <= |s.phases| && forall t :: 0 <= t < n ==> s.phases[t].Idle?
  }

  /** A turn for each of the first n threads. */
  function Drain(n: nat): seq<Step> {
    if n == 0 then [] else Drain(n - 1) + Finish(n - 1)
  }

  lemma {:induction false} TurnFinishes(ty: WordType, mem0: nat, s: State, t: nat)
    requires Inv(ty, mem0, s) && t < |s.phases|
    ensures var n := Then(ty, s, Finish(t)); n.phases == s.phases[t := Idle] && SameCalls(s.calls, n.calls)
  {
    assert PhaseOk(ty, s, t);
    if s.phases[t].Idle? {
      IdleStays(ty, s, t);
    } else if s.phases[t].Leaving? {
      LeavingReturns(ty, s, t);
    } else {
      assert Placed(s, s.phases[t].call);
      AloneCompletes(ty, s, t);
    }
  }

  lemma {:induction false} SameCallsTwice(a: seq<Call>, b: seq<Call>, c: seq<Call>)
    requires SameCalls(a, b) && SameCalls(b, c)
    ensures SameCalls(a, c)
  {
  }

  /** State `r` has all the calls of `s`, and the first n threads have finished theirs. */
  ghost predicate Drained(s: State, r: State, n: nat) {
    |r.phases| == |s.phases| && SameCalls(s.calls, r.calls) && FirstIdle(r, n)
  }

  lemma {:induction false} DrainedOnce(s: State, m: State, r: State, n: nat)
    requires 0 < n <= |m.phases| && Drained(s, m, n - 1)
    requires r.phases == m.phases[n - 1 := Idle] && SameCalls(m.calls, r.calls)
    ensures Drained(s, r, n)
  {
    SameCallsTwice(s.calls, m.calls, r.calls);
  }

  lemma {:induction false} TurnInRun(ty: WordType, threads: nat, mem0: nat, steps: seq<Step>, t: nat)
    requires t < |Exec(ty, threads, mem0, steps).phases|
    ensures var s, n := Exec(ty, threads, mem0, steps), Exec(ty, threads, mem0, steps + Finish(t));
            n.phases == s.phases[t := Idle] && SameCalls(s.calls, n.calls)
  {
    ExecInv(ty, threads, mem0, steps);
    ExecThen(ty, threads, mem0, steps, Finish(t));
    TurnFinishes(ty, mem0, Exec(ty, threads, mem0, steps), t);
  }

  lemma {:induction false} DrainFinishes(ty: WordType, threads: nat, mem0: nat, steps: seq<Step>, n: nat)
    requires n <= |Exec(ty, threads, mem0, steps).phases|
    ensures Drained(Exec(ty, threads, mem0, steps), Exec(ty, threads, mem0, steps + Drain(n)), n)
  {
    var s := Exec(ty, threads, mem0, steps);
    if n == 0 {
      assert steps + Drain(0) == steps;
      assert Drained(s, s, 0);
    } else {
      DrainFinishes(ty, threads, mem0, steps, n - 1);
      OneMoreTurn(ty, threads, mem0, s, steps + Drain(n - 1), n);
      assert steps + Drain(n) == (steps + Drain(n - 1)) + Finish(n - 1);
    }
  }

  lemma {:induction false} OneMoreTurn(ty: WordType, threads: nat, mem0: nat, s: State, front: seq<Step>, n: nat)
    requires 0 < n <= |s.phases| && Drained(s, Exec(ty, threads, mem0, front), n - 1)
    ensures Drained(s, Exec(ty, threads, mem0, front + Finish(n - 1)), n)
  {
    TurnInRun(ty, threads, mem0, front, n - 1);
    DrainedOnce(s, Exec(ty, threads, mem0, front), Exec(ty, threads, mem0, front + Finish(n - 1)), n);
  }

  lemma {:induction false} StartAttended(ty: WordType, threads: nat, mem0: nat, steps: seq<Step>)
    ensures var s := Exec(ty, threads, mem0, steps); Attended(s) && |s.phases| == threads
  {
    assert [] + steps == steps && Exec(ty, threads, mem0, []) == Start(threads, mem0);
    ExecThen(ty, threads, mem0, [], steps);
    ThenAttended(ty, Start(threads, mem0), steps);
    TotalIsSum(ty, threads, mem0, steps);
  }

  /** No schedule leads to where calls cannot finish: from any reachable state, a turn for each
      thread completes every call, without new calls and without disturbing any that returned. */
  lemma {:induction false} AllCanFinish(ty: WordType, threads: nat, mem0: nat, steps: seq<Step>)
    ensures var s, n := Exec(ty, threads, mem0, steps), Exec(ty, threads, mem0, steps + Drain(threads));
            Quiet(n.calls) && SameCalls(s.calls, n.calls)
  {
    var s, n := Exec(ty, threads, mem0, steps), Exec(ty, threads, mem0, steps + Drain(threads));
    StartAttended(ty, threads, mem0, steps);
    StartAttended(ty, threads, mem0, steps + Drain(threads));
    DrainFinishes(ty, threads, mem0, steps, threads);
    forall c | 0 <= c < |n.calls| ensures n.calls[c].response.Some? {
      assert n.calls[c].response.None? ==> AtCall(n, c);
    }
  }

  ghost predicate AllAdd(calls: seq<Call>) {
    forall c :: 0 <= c < |calls| ==> calls[c].op.Add?
  }

  lemma {:induction false} SameRequests(a: seq<Call>, b: seq<Call>)
    requires SameCalls(a, b) && AllAdd(a)
    ensures Requested(a) == Requested(b)
  {
    if a != [] {
      SameRequests(a[..|a| - 1], b[..|b| - 1]);
    }
  }

  /** In state `n` the word is what it was at first plus all additions asked for in state `s`. */
  ghost predicate Landed(ty: WordType, mem0: nat, s: State, n: State) {
    n.mem == ty.Wrap(mem0 + Requested(s.calls))
  }

  lemma {:induction false} FinishedAdditions(ty: WordType, mem0: nat, s: State, n: State)
    requires AllAdd(s.calls) && SameCalls(s.calls, n.calls) && NothingLost(ty, mem0, n)
    ensures Landed(ty, mem0, s, n)
  {
    SameRequests(s.calls, n.calls);
  }

  lemma {:induction false} AdditionsCount(a: seq<Call>, b: seq<Call>)
    requires AllAdd(a) && SameCalls(a, b)
    ensures AllCount(b)
  {
  }

  /** So whatever additions are under way in whatever state, all of them land: the word can be run
      to what it was at first plus everything asked for. */
  lemma {:induction false} AdditionsLand(ty: WordType, threads: nat, mem0: nat, steps: seq<Step>)
    requires mem0 < ty.Size() && AllAdd(Exec(ty, threads, mem0, steps).calls)
    ensures Landed(ty, mem0, Exec(ty, threads, mem0, steps), Exec(ty, threads, mem0, steps + Drain(threads)))
  {
    var s, n := Exec(ty, threads, mem0, steps), Exec(ty, threads, mem0, steps + Drain(threads));
    AllCanFinish(ty, threads, mem0, steps);
    AdditionsCount(s.calls, n.calls);
    NoUpdateLost(ty, threads, mem0, steps + Drain(threads));
    FinishedAdditions(ty, mem0, s, n);
  }

  // ---- Every sequential order is a run ----

  /** One call after the other. */
  function OneByOne(ops: seq<(nat, Op)>): seq<Step> {
    if ops == [] then []
    else OneByOne(Front(ops)) + [Invoke(Last(ops).0, Last(ops).1)] + Finish(Last(ops).0)
  }

  /** The word that the operations leave, in this order. */
  function Fold(ty: WordType, mem0: nat, ops: seq<(nat, Op)>): nat {
    if ops == [] then mem0 else After(ty, Last(ops).1, Fold(ty, mem0, Front(ops)))
  }

  lemma {:induction false} InvokeEnters(ty: WordType, s: State, t: nat, op: Op)
    requires Shaped(s) && t < |s.phases| && s.phases[t].Idle?
    ensures var n := Then(ty, s, [Invoke(t, op)]);
            && n.mem == s.mem && n.phases == s.phases[t := Entered(|s.calls|)]
            && |n.calls| == |s.calls| + 1 && n.calls[..|s.calls|] == s.calls
            && n.calls[|s.calls|].thread == t && n.calls[|s.calls|].op == op
            && n.calls[|s.calls|].point.None?
  {
    assert [Invoke(t, op)][1..] == [];
    NextShaped(ty, s, Invoke(t, op));
    assert Then(ty, Next(ty, s, Invoke(t, op)), []) == Next(ty, s, Invoke(t, op));
  }

  /** A call made by an idle thread that runs alone. */
  lemma {:induction false} CallAlone(ty: WordType, s: State, t: nat, op: Op)
    requires Shaped(s) && t < |s.phases| && s.phases[t].Idle?
    ensures var n := Then(ty, s, [Invoke(t, op)] + Finish(t));
            && n.mem == After(ty, op, s.mem) && n.phases == s.phases
            && |n.calls| == |s.calls| + 1 && n.calls[..|s.calls|] == s.calls
            && n.calls[|s.calls|].thread == t && n.calls[|s.calls|].op == op
            && n.calls[|s.calls|].response.Some?
            && n.calls[|s.calls|].response.value.result == Result(ty, op, s.mem)
  {
    var m := Then(ty, s, [Invoke(t, op)]);
    ThenSplit(ty, s, [Invoke(t, op)], Finish(t));
    InvokeEnters(ty, s, t, op);
    AloneCompletes(ty, m, t);
  }

  /** The calls so far are these, and each returned what it does in this order. */
  ghost predicate Served(ty: WordType, mem0: nat, calls: seq<Call>, ops: seq<(nat, Op)>) {
    && |calls| == |ops|
    && forall i :: 0 <= i < |ops| ==>
         && calls[i].thread == ops[i].0 && calls[i].op == ops[i].1 && calls[i].response.Some?
         && calls[i].response.value.result == Result(ty, ops[i].1, Fold(ty, mem0, ops[..i]))
  }

  /** Linearizability is exact: each sequential order of any calls by any of the threads is a run
      of the machine, with the results and the final word of that order. */
  lemma {:induction false} EveryOrderRuns(ty: WordType, threads: nat, mem0: nat, ops: seq<(nat, Op)>)
    requires forall i :: 0 <= i < |ops| ==> ops[i].0 < threads
    ensures var s := Exec(ty, threads, mem0, OneByOne(ops));
            && s.mem == Fold(ty, mem0, ops) && Served(ty, mem0, s.calls, ops)
            && |s.phases| == threads && forall t :: 0 <= t < threads ==> s.phases[t].Idle?
  {
    if ops != [] {
      var p, t, op := Front(ops), Last(ops).0, Last(ops).1;
      var s := Exec(ty, threads, mem0, OneByOne(p));
      EveryOrderRuns(ty, threads, mem0, p);
      assert OneByOne(ops) == OneByOne(p) + ([Invoke(t, op)] + Finish(t));
      ExecThen(ty, threads, mem0, OneByOne(p), [Invoke(t, op)] + Finish(t));
      CallAlone(ty, s, t, op);
      OneMoreServed(ty, mem0, s.calls, Exec(ty, threads, mem0, OneByOne(ops)).calls, ops);
    }
  }

  lemma {:induction false} OneMoreServed(ty: WordType, mem0: nat, before: seq<Call>, after: seq<Call>,
                                         ops: seq<(nat, Op)>)
    requires ops != [] && Served(ty, mem0, before, Front(ops))
    requires |after| == |before| + 1 && after[..|before|] == before
    requires var c := after[|before|];
             && c.thread == Last(ops).0 && c.op == Last(ops).1 && c.response.Some?
             && c.response.value.result == Result(ty, Last(ops).1, Fold(ty, mem0, Front(ops)))
    ensures Served(ty, mem0, after, ops)
  {
    forall i | 0 <= i < |ops| - 1
      ensures after[i] == before[i] && ops[i] == Front(ops)[i] && ops[..i] == Front(ops)[..i]
    {
      assert after[i] == after[..|before|][i];
    }
    assert ops[..|ops| - 1] == Front(ops);
  }

  // ---- When a swap succeeds ----

  lemma {:induction false} OthersLeaveThread(ty: WordType, s: State, t: nat, steps: seq<Step>)
    requires Shaped(s) && t < |s.phases| && !s.phases[t].Idle?
    requires forall i :: 0 <= i < |steps| ==> steps[i].thread != t
    ensures var n := Then(ty, s, steps);
            && t < |n.phases| && n.phases[t] == s.phases[t] && n.wins[t] == s.wins[t] && n.fails[t] == s.fails[t]
            && s.phases[t].call < |n.calls| && n.calls[s.phases[t].call].op == s.calls[s.phases[t].call].op
    decreases |steps|
  {
    if steps != [] {
      var n := Next(ty, s, steps[0]);
      NextShaped(ty, s, steps[0]);
      assert n.calls[s.phases[t].call].op == s.calls[s.phases[t].call].op;
      OthersLeaveThread(ty, n, t, steps[1..]);
    }
  }

  /** Whatever other threads have done to the word since the thread read it, its swap succeeds if
      and only if the word is again what it was, and the attempt is counted as what it was. */
  lemma {:induction false} SwapSucceedsExactly(ty: WordType, s: State, t: nat, others: seq<Step>)
    requires Shaped(s) && t < |s.phases| && s.phases[t].Holding?
    requires forall i :: 0 <= i < |others| ==> others[i].thread != t
    ensures var read, op := s.phases[t].read, s.calls[s.phases[t].call].op;
            var r := Then(ty, s, others);
            var n := Next(ty, r, Swap(t));
            && t < |n.phases| && Shaped(n)
            && if r.mem == read then
                 && n.phases[t].Leaving? && n.mem == Stored(ty, op, read)
                 && n.wins[t] == s.wins[t] + 1 && n.fails[t] == s.fails[t]
               else
                 && n.phases[t] == Entered(s.phases[t].call) && n.mem == r.mem
                 && n.wins[t] == s.wins[t] && n.fails[t] == s.fails[t] + 1
  {
    OthersLeaveThread(ty, s, t, others);
    NextShaped(ty, Then(ty, s, others), Swap(t));
  }
}
