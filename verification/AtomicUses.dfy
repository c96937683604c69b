/** What callers of atomic.h build on its linearizability: progress, semaphores, elections and
    the tests of the *_and_test macros. */
module AtomicUses {
  import opened Atomic
  import opened Basics
  import opened Bits

  // ---- Progress ----

  /** A thread's failed swaps are paid for by swaps of others that succeeded: `seen` is what the
      others had achieved when the thread last read the word, and the word can differ from what
      it read only if they achieved more since. */
  ghost predicate Paid(s: State, t: int)
    requires Shaped(s) && 0 <= t < |s.phases|
  {
    && s.wins[t] <= s.total
    && s.fails[t] <= s.Others(t)
    && (s.phases[t].Holding? ==>
          s.fails[t] <= s.phases[t].seen <= s.Others(t) &&
          (s.mem != s.phases[t].read ==> s.phases[t].seen < s.Others(t)))
  }

  ghost predicate AllPaid(s: State)
    requires Shaped(s)
  {
    forall t :: 0 <= t < |s.phases| ==> Paid(s, t)
  }

  lemma {:induction false} NextPaid(ty: WordType, s: State, step: Step)
    requires Shaped(s) && AllPaid(s)
    ensures Shaped(Next(ty, s, step)) && AllPaid(Next(ty, s, step))
  {
    NextShaped(ty, s, step);
    var n := Next(ty, s, step);
    forall t | 0 <= t < |n.phases| ensures Paid(n, t) {
      assert Paid(s, t);
    }
  }

  lemma {:induction false} ExecPaid(ty: WordType, threads: nat, mem0: nat, steps: seq<Step>)
    ensures AllPaid(Exec(ty, threads, mem0, steps))
  {
    if steps != [] {
      var front := steps[..|steps| - 1];
      ExecPaid(ty, threads, mem0, front);
      NextPaid(ty, Exec(ty, threads, mem0, front), steps[|steps| - 1]);
    }
  }

  /** In every interleaving a thread fails at most as often as the other threads succeed. */
  lemma {:induction false} FailuresBounded(ty: WordType, threads: nat, mem0: nat, steps: seq<Step>, t: nat)
    requires t < |Exec(ty, threads, mem0, steps).fails|
    ensures var s := Exec(ty, threads, mem0, steps); s.fails[t] <= s.Others(t)
  {
    ExecPaid(ty, threads, mem0, steps);
    assert Paid(Exec(ty, threads, mem0, steps), t);
  }

  function SumOf(s: seq<nat>): nat {
    if s == [] then 0 else SumOf(s[..|s| - 1]) + s[|s| - 1]
  }

  lemma {:induction false} SumBump(s: seq<nat>, i: nat)
    requires i < |s|
    ensures SumOf(s[i := s[i] + 1]) == SumOf(s) + 1
  {
    var u := s[i := s[i] + 1];
    if i == |s| - 1 {
      assert u[..|u| - 1] == s[..|s| - 1];
    } else {
      SumBump(s[..|s| - 1], i);
      assert u[..|u| - 1] == s[..|s| - 1][i := s[i] + 1];
    }
  }

  lemma {:induction false} SumZero(n: nat)
    ensures SumOf(seq(n, _ => 0)) == 0
  {
    if n > 0 {
      SumZero(n - 1);
      assert seq(n, _ => 0)[..n - 1] == seq(n - 1, _ => 0);
    }
  }

  lemma {:induction false} NextTotal(ty: WordType, s: State, step: Step)
    requires Shaped(s) && s.total == SumOf(s.wins)
    ensures var n := Next(ty, s, step); n.total == SumOf(n.wins) && |n.phases| == |s.phases|
  {
    var n := Next(ty, s, step);
    if n.wins != s.wins {
      SumBump(s.wins, step.thread);
    }
  }

  lemma {:induction false} TotalIsSum(ty: WordType, threads: nat, mem0: nat, steps: seq<Step>)
    ensures var s := Exec(ty, threads, mem0, steps); s.total == SumOf(s.wins) && |s.phases| == threads
  {
    if steps == [] {
      SumZero(threads);
    } else {
      var front := steps[..|steps| - 1];
      TotalIsSum(ty, threads, mem0, front);
      NextTotal(ty, Exec(ty, threads, mem0, front), steps[|steps| - 1]);
    }
  }

  lemma {:induction false} SumBounded(fails: seq<nat>, wins: seq<nat>, total: nat)
    requires |fails| == |wins| && forall t :: 0 <= t < |fails| ==> fails[t] + wins[t] <= total
    ensures SumOf(fails) + SumOf(wins) <= |fails| * total
  {
    if fails != [] {
      var n := |fails| - 1;
      SumBounded(fails[..n], wins[..n], total);
      assert |fails| * total == n * total + total;
    }
  }

  /** Lock freedom: all failures together are fewer than threads times successes, so attempts
      cannot go on failing without some swap succeeding. */
  lemma {:induction false} SomeThreadProgresses(ty: WordType, threads: nat, mem0: nat, steps: seq<Step>)
    ensures var s := Exec(ty, threads, mem0, steps);
            SumOf(s.fails) + SumOf(s.wins) <= threads * SumOf(s.wins)
  {
    var s := Exec(ty, threads, mem0, steps);
    ExecPaid(ty, threads, mem0, steps);
    TotalIsSum(ty, threads, mem0, steps);
    forall t | 0 <= t < |s.fails| ensures s.fails[t] + s.wins[t] <= s.total {
      assert Paid(s, t);
    }
    SumBounded(s.fails, s.wins, s.total);
  }

  // ---- Calls and their points ----

  /** The calls of this operation. */
  ghost function Callers(calls: seq<Call>, op: Op): set<nat> {
    set c: nat | c < |calls| && calls[c].op == op
  }

  /** Those of them that have taken effect. */
  ghost function Effective(points: seq<Point>, op: Op): set<nat> {
    if points == [] then {}
    else
      var p := points[|points| - 1];
      Effective(points[..|points| - 1], op) + if p.op == op then {p.call} else {}
  }

  function CountAt(points: seq<Point>, op: Op): nat {
    if points == [] then 0
    else CountAt(points[..|points| - 1], op) + if points[|points| - 1].op == op then 1 else 0
  }

  ghost predicate Distinct(points: seq<Point>) {
    forall i, j :: 0 <= i < j < |points| ==> points[i].call != points[j].call
  }

  lemma {:induction false} EffectiveMembers(points: seq<Point>, op: Op, c: nat)
    ensures c in Effective(points, op) <==> exists i :: 0 <= i < |points| && points[i].op == op && points[i].call == c
  {
    if points != [] {
      var p := points[..|points| - 1];
      EffectiveMembers(p, op, c);
      assert forall i :: 0 <= i < |p| ==> p[i] == points[i];
      if c in Effective(p, op) {
        var i :| 0 <= i < |p| && p[i].op == op && p[i].call == c;
        assert points[i] == p[i];
      }
    }
  }

  lemma {:induction false} EffectiveSize(points: seq<Point>, op: Op)
    requires Distinct(points)
    ensures |Effective(points, op)| == CountAt(points, op)
  {
    if points != [] {
      var p, last := points[..|points| - 1], points[|points| - 1];
      EffectiveSize(p, op);
      EffectiveMembers(p, op, last.call);
    }
  }

  lemma {:induction false} SubsetSize<T>(a: set<T>, b: set<T>)
    requires a <= b
    ensures |a| <= |b|
  {
    assert b == a + (b - a);
  }

  lemma {:induction false} EffectsAtMostCalls(ty: WordType, mem0: nat, s: State, op: Op)
    requires Linearization(ty, mem0, s.calls, s.points, s.mem)
    ensures CountAt(s.points, op) <= |Callers(s.calls, op)|
  {
    EffectiveSize(s.points, op);
    forall c | c in Effective(s.points, op) ensures c in Callers(s.calls, op) {
      EffectiveMembers(s.points, op, c);
      var i :| 0 <= i < |s.points| && s.points[i].op == op && s.points[i].call == c;
      assert Explains(ty, s.points[i], s.calls[c]);
    }
    SubsetSize(Effective(s.points, op), Callers(s.calls, op));
  }

  lemma {:induction false} PrefixSequential(ty: WordType, mem0: nat, points: seq<Point>, mem: nat, i: nat)
    requires Sequential(ty, mem0, points, mem) && i < |points|
    ensures Sequential(ty, mem0, points[..i], points[i].before)
    decreases |points|
  {
    var p := points[..|points| - 1];
    if i < |p| {
      PrefixSequential(ty, mem0, p, points[|points| - 1].before, i);
      assert p[..i] == points[..i];
    }
  }

  // ---- Semaphores ----

  /** `x` is a non-negative number the type can hold. */
  ghost predicate Fits(ty: WordType, x: int) {
    0 <= x && if ty.signed then 2 * x < ty.Size() else x < ty.Size()
  }

  /** Decrements that succeeded, as their callers see it: they returned a positive value. */
  function Taken(ty: WordType, points: seq<Point>): nat {
    if points == [] then 0
    else
      var p := points[|points| - 1];
      Taken(ty, points[..|points| - 1]) +
      if p.op.DecrementIfPositive? && Result(ty, p.op, p.before) > 0 then 1 else 0
  }

  ghost predicate SemaphoreOps(points: seq<Point>) {
    forall i :: 0 <= i < |points| ==> points[i].op == DecrementIfPositive || points[i].op == Add(1)
  }

  /** No increment overflows where it takes effect. */
  ghost predicate NoOverflow(ty: WordType, points: seq<Point>) {
    forall i :: 0 <= i < |points| && points[i].op == Add(1) ==> Fits(ty, ty.Value(points[i].before) + 1)
  }

  lemma {:induction false} SemaphoreCounts(ty: WordType, mem0: nat, points: seq<Point>, mem: nat)
    requires mem0 < ty.Size() && SemaphoreOps(points) && Sequential(ty, mem0, points, mem)
    requires 0 <= ty.Value(mem0) && NoOverflow(ty, points)
    ensures mem < ty.Size() && 0 <= ty.Value(mem)
    ensures ty.Value(mem) == ty.Value(mem0) + CountAt(points, Add(1)) - Taken(ty, points)
  {
    if points != [] {
      var p := points[|points| - 1];
      SemaphoreCounts(ty, mem0, points[..|points| - 1], p.before);
    }
  }

  ghost predicate SemaphoreCalls(calls: seq<Call>) {
    forall c :: 0 <= c < |calls| ==> calls[c].op == DecrementIfPositive || calls[c].op == Add(1)
  }

  lemma {:induction false} SemaphorePoints(ty: WordType, mem0: nat, s: State)
    requires Linearization(ty, mem0, s.calls, s.points, s.mem) && SemaphoreCalls(s.calls)
    ensures SemaphoreOps(s.points)
  {
    forall i | 0 <= i < |s.points|
      ensures s.points[i].op == DecrementIfPositive || s.points[i].op == Add(1)
    {
      assert Explains(ty, s.points[i], s.calls[s.points[i].call]);
    }
  }

  /** A word used as a semaphore is never negative, and in every reachable state its value is
      what it started with, plus the increments, minus the decrements that succeeded, however
      many of either there have been. */
  lemma {:induction false} SemaphoreConservation(ty: WordType, threads: nat, mem0: nat, steps: seq<Step>)
    requires mem0 < ty.Size() && 0 <= ty.Value(mem0)
    requires SemaphoreCalls(Exec(ty, threads, mem0, steps).calls)
    requires NoOverflow(ty, Exec(ty, threads, mem0, steps).points)
    ensures var s := Exec(ty, threads, mem0, steps);
            0 <= ty.Value(s.mem) == ty.Value(mem0) + CountAt(s.points, Add(1)) - Taken(ty, s.points)
  {
    var s := Exec(ty, threads, mem0, steps);
    Linearizable(ty, threads, mem0, steps);
    SemaphorePoints(ty, mem0, s);
    SemaphoreCounts(ty, mem0, s.points, s.mem);
  }

  lemma {:induction false} FewNeverOverflow(ty: WordType, mem0: nat, points: seq<Point>, mem: nat)
    requires mem0 < ty.Size() && SemaphoreOps(points) && Sequential(ty, mem0, points, mem)
    requires 0 <= ty.Value(mem0) && Fits(ty, ty.Value(mem0) + CountAt(points, Add(1)))
    ensures NoOverflow(ty, points)
  {
    if points != [] {
      var p, before := points[..|points| - 1], points[|points| - 1].before;
      FewNeverOverflow(ty, mem0, p, before);
      SemaphoreCounts(ty, mem0, p, before);
      assert forall i :: 0 <= i < |p| ==> p[i] == points[i];
    }
  }

  /** No increment can overflow while fewer were ever made than the type has room for. */
  lemma {:induction false} FewIncrementsFit(ty: WordType, threads: nat, mem0: nat, steps: seq<Step>)
    requires mem0 < ty.Size() && 0 <= ty.Value(mem0)
    requires SemaphoreCalls(Exec(ty, threads, mem0, steps).calls)
    requires Fits(ty, ty.Value(mem0) + |Callers(Exec(ty, threads, mem0, steps).calls, Add(1))|)
    ensures var s := Exec(ty, threads, mem0, steps);
            && NoOverflow(ty, s.points)
            && 0 <= ty.Value(s.mem) == ty.Value(mem0) + CountAt(s.points, Add(1)) - Taken(ty, s.points)
  {
    var s := Exec(ty, threads, mem0, steps);
    Linearizable(ty, threads, mem0, steps);
    SemaphorePoints(ty, mem0, s);
    EffectsAtMostCalls(ty, mem0, s, Add(1));
    FewNeverOverflow(ty, mem0, s.points, s.mem);
    SemaphoreCounts(ty, mem0, s.points, s.mem);
  }

  /** A decrement that returned a value that is not positive left the word as it was: whatever
      comes next finds what it found. */
  lemma {:induction false} RefusalChangesNothing(ty: WordType, mem0: nat, points: seq<Point>, mem: nat, i: nat)
    requires Sequential(ty, mem0, points, mem) && i < |points| && points[i].op.DecrementIfPositive?
    requires Result(ty, points[i].op, points[i].before) <= 0
    ensures (if i + 1 < |points| then points[i + 1].before else mem) == points[i].before
    decreases |points|
  {
    if i + 1 < |points| {
      PrefixSequential(ty, mem0, points, mem, i + 1);
      assert points[..i + 1][i] == points[i];
    }
  }

  // ---- Exchanges and additions ----

  /** What the exchanges returned. */
  function Handed(ty: WordType, points: seq<Point>): multiset<int> {
    if points == [] then multiset{}
    else
      var p := points[|points| - 1];
      Handed(ty, points[..|points| - 1]) + multiset{Result(ty, p.op, p.before)}
  }

  /** What they brought, as read back from a word. */
  function Given(ty: WordType, points: seq<Point>): multiset<int> {
    if points == [] then multiset{}
    else
      var p := points[|points| - 1];
      Given(ty, points[..|points| - 1]) +
      if p.op.Exchange? then multiset{ty.Value(ty.Wrap(p.op.newvalue))} else multiset{}
  }

  /** Among exchanges every value is handed over once: what the calls returned, and what is left,
      is what there was at first and what they brought. */
  lemma {:induction false} ExchangesHandOver(ty: WordType, mem0: nat, points: seq<Point>, mem: nat)
    requires Sequential(ty, mem0, points, mem) && forall i :: 0 <= i < |points| ==> points[i].op.Exchange?
    ensures Handed(ty, points) + multiset{ty.Value(mem)} == multiset{ty.Value(mem0)} + Given(ty, points)
  {
    if points != [] {
      ExchangesHandOver(ty, mem0, points[..|points| - 1], points[|points| - 1].before);
    }
  }

  /** What a call adds to the word, as its caller sees it: a decrement that returned a positive
      value took one. */
  function Gain(op: Op, result: int): int {
    match op
    case Add(v) => v
    case DecrementIfPositive => if result > 0 then -1 else 0
    case _ => 0
  }

  function Gained(ty: WordType, points: seq<Point>): int {
    if points == [] then 0
    else
      var p := points[|points| - 1];
      Gained(ty, points[..|points| - 1]) + Gain(p.op, Result(ty, p.op, p.before))
  }

  lemma {:induction false} WrapSum(ty: WordType, x: int, v: int)
    ensures ty.Wrap(ty.Wrap(x) + v) == ty.Wrap(x + v)
  {
    var n := ty.Size();
    WrapMultiple(ty, x);
    var q :| x == n * q + ty.Wrap(x);
    WrapMultiple(ty, ty.Wrap(x) + v);
    var r :| ty.Wrap(x) + v == n * r + ty.Wrap(ty.Wrap(x) + v);
    assert n * (q + r) == n * q + n * r;
    WrapOf(ty, x + v, q + r, ty.Wrap(ty.Wrap(x) + v));
  }

  lemma {:induction false} WrapMultiple(ty: WordType, x: int)
    ensures exists q :: x == ty.Size() * q + ty.Wrap(x)
  {
    if 0 <= x < ty.Size() {
      assert x == ty.Size() * 0 + ty.Wrap(x);
    } else {
      assert x == ty.Size() * (x / ty.Size()) + ty.Wrap(x);
    }
  }

  lemma {:induction false} WrapOf(ty: WordType, x: int, q: int, r: nat)
    requires r < ty.Size() && x == ty.Size() * q + r
    ensures ty.Wrap(x) == r
  {
    RemainderOf(x, ty.Size(), q, r);
    if 0 <= x < ty.Size() {
      RemainderOf(x, ty.Size(), 0, x);
    }
  }

  ghost predicate Counts(op: Op) { op.Add? || op.DecrementIfPositive? }

  /** No addition or decrement is lost: the word is what it was plus everything gained, wrapped. */
  lemma {:induction false} AdditionsKept(ty: WordType, mem0: nat, points: seq<Point>, mem: nat)
    requires mem0 < ty.Size() && Sequential(ty, mem0, points, mem)
    requires forall i :: 0 <= i < |points| ==> Counts(points[i].op)
    ensures mem == ty.Wrap(mem0 + Gained(ty, points))
  {
    if points != [] {
      var p := points[|points| - 1];
      AdditionsKept(ty, mem0, points[..|points| - 1], p.before);
      GainStored(ty, mem0 + Gained(ty, points[..|points| - 1]), p.op);
    }
  }

  lemma {:induction false} GainStored(ty: WordType, x: int, op: Op)
    requires Counts(op)
    ensures After(ty, op, ty.Wrap(x)) == ty.Wrap(x + Gain(op, Result(ty, op, ty.Wrap(x))))
  {
    WrapSum(ty, x, Gain(op, Result(ty, op, ty.Wrap(x))));
  }

  /** What all callers were told; what an addition adds is known before it returns. */
  function Requested(calls: seq<Call>): int {
    if calls == [] then 0
    else
      var c := calls[|calls| - 1];
      Requested(calls[..|calls| - 1]) + Gain(c.op, if c.response.Some? then c.response.value.result else 0)
  }

  lemma {:induction false} GainedSplit(ty: WordType, a: seq<Point>, b: seq<Point>)
    ensures Gained(ty, a + b) == Gained(ty, a) + Gained(ty, b)
  {
    if b == [] {
      assert a + b == a;
    } else {
      assert (a + b)[..|a + b| - 1] == a + b[..|b| - 1];
      GainedSplit(ty, a, b[..|b| - 1]);
    }
  }

  ghost predicate TookEffect(points: seq<Point>, c: int) {
    exists i :: 0 <= i < |points| && points[i].call == c
  }

  /** The call returned what it would at this point. */
  ghost predicate AnsweredAt(ty: WordType, p: Point, c: Call) {
    p.op == c.op && c.response.Some? && c.response.value.result == Result(ty, p.op, p.before)
  }

  /** Every call has its point and no two share one. */
  ghost predicate OneToOne(ty: WordType, points: seq<Point>, calls: seq<Call>) {
    && Distinct(points)
    && (forall i :: 0 <= i < |points| ==> points[i].call < |calls| && AnsweredAt(ty, points[i], calls[points[i].call]))
    && (forall c :: 0 <= c < |calls| ==> TookEffect(points, c))
  }

  lemma {:induction false} LastCallOut(ty: WordType, points: seq<Point>, calls: seq<Call>, i: nat)
    requires OneToOne(ty, points, calls) && i < |points| && points[i].call == |calls| - 1
    ensures OneToOne(ty, Without(points, i), calls[..|calls| - 1])
  {
    var q, rest := Without(points, i), calls[..|calls| - 1];
    forall j | 0 <= j < |q| ensures q[j].call < |rest| && AnsweredAt(ty, q[j], rest[q[j].call]) {
      var k := if j < i then j else j + 1;
      assert q[j] == points[k];
    }
    forall c | 0 <= c < |rest| ensures TookEffect(q, c) {
      assert TookEffect(points, c);
      var k :| 0 <= k < |points| && points[k].call == c;
      assert q[if k < i then k else k - 1] == points[k];
    }
  }

  lemma {:induction false} AddedIsRequested(ty: WordType, points: seq<Point>, calls: seq<Call>)
    requires OneToOne(ty, points, calls)
    ensures Gained(ty, points) == Requested(calls)
    decreases |calls|
  {
    if calls != [] {
      assert TookEffect(points, |calls| - 1);
      var i: nat :| i < |points| && points[i].call == |calls| - 1;
      assert AnsweredAt(ty, points[i], calls[|calls| - 1]);
      LastCallOut(ty, points, calls, i);
      AddedIsRequested(ty, Without(points, i), calls[..|calls| - 1]);
      GainedWithout(ty, points, i);
    }
  }

  lemma {:induction false} GainedWithout(ty: WordType, points: seq<Point>, i: nat)
    requires i < |points|
    ensures Gained(ty, points) ==
            Gained(ty, Without(points, i)) + Gain(points[i].op, Result(ty, points[i].op, points[i].before))
  {
    GainedSplit(ty, points[..i], points[i + 1..]);
    GainedSplit(ty, points[..i + 1], points[i + 1..]);
    assert points[..i + 1] + points[i + 1..] == points;
    assert points[..i + 1][..i] == points[..i];
  }

  lemma {:induction false} QuietIsOneToOne(ty: WordType, mem0: nat, s: State)
    requires Linearization(ty, mem0, s.calls, s.points, s.mem) && Quiet(s.calls)
    ensures OneToOne(ty, s.points, s.calls)
  {
    forall i | 0 <= i < |s.points| ensures AnsweredAt(ty, s.points[i], s.calls[s.points[i].call]) {
      assert Explains(ty, s.points[i], s.calls[s.points[i].call]);
    }
    forall c | 0 <= c < |s.calls| ensures TookEffect(s.points, c) {
      assert s.calls[c].response.Some?;
    }
  }

  ghost predicate AllCount(calls: seq<Call>) {
    forall c :: 0 <= c < |calls| ==> Counts(calls[c].op)
  }

  /** The word is what it was plus all that its callers were told, wrapped. */
  ghost predicate NothingLost(ty: WordType, mem0: nat, s: State) {
    s.mem == ty.Wrap(mem0 + Requested(s.calls))
  }

  lemma {:induction false} NothingLostWhenQuiet(ty: WordType, mem0: nat, s: State)
    requires mem0 < ty.Size() && Linearization(ty, mem0, s.calls, s.points, s.mem) && Quiet(s.calls)
    requires AllCount(s.calls)
    ensures NothingLost(ty, mem0, s)
  {
    QuietIsOneToOne(ty, mem0, s);
    AdditionsKept(ty, mem0, s.points, s.mem);
    AddedIsRequested(ty, s.points, s.calls);
  }

  /** When any number of concurrent additions and conditional decrements have all returned, the
      word is what it was plus all additions, less the decrements whose callers saw a positive
      value, wrapped: no update is lost in any interleaving. */
  lemma {:induction false} NoUpdateLost(ty: WordType, threads: nat, mem0: nat, steps: seq<Step>)
    requires mem0 < ty.Size() && Quiet(Exec(ty, threads, mem0, steps).calls)
    requires AllCount(Exec(ty, threads, mem0, steps).calls)
    ensures NothingLost(ty, mem0, Exec(ty, threads, mem0, steps))
  {
    Linearizable(ty, threads, mem0, steps);
    NothingLostWhenQuiet(ty, mem0, Exec(ty, threads, mem0, steps));
  }

  lemma {:induction false} GainedCounts(ty: WordType, points: seq<Point>)
    requires SemaphoreOps(points)
    ensures Gained(ty, points) == CountAt(points, Add(1)) - Taken(ty, points)
  {
    if points != [] {
      GainedCounts(ty, points[..|points| - 1]);
    }
  }

  /** When all users of a semaphore have returned, its value is what it started with plus the
      increments made less the decrements whose callers saw a positive value. */
  lemma {:induction false} SemaphoreByCallers(ty: WordType, threads: nat, mem0: nat, steps: seq<Step>)
    requires mem0 < ty.Size() && 0 <= ty.Value(mem0)
    requires SemaphoreCalls(Exec(ty, threads, mem0, steps).calls) && Quiet(Exec(ty, threads, mem0, steps).calls)
    requires NoOverflow(ty, Exec(ty, threads, mem0, steps).points)
    ensures var s := Exec(ty, threads, mem0, steps); 0 <= ty.Value(s.mem) == ty.Value(mem0) + Requested(s.calls)
  {
    var s := Exec(ty, threads, mem0, steps);
    SemaphoreConservation(ty, threads, mem0, steps);
    Linearizable(ty, threads, mem0, steps);
    SemaphorePoints(ty, mem0, s);
    GainedCounts(ty, s.points);
    QuietIsOneToOne(ty, mem0, s);
    AddedIsRequested(ty, s.points, s.calls);
  }

  // ---- Elections ----

  ghost predicate Returned(calls: seq<Call>, c: nat, op: Op, result: int) {
    && c < |calls| && calls[c].op == op
    && calls[c].response.Some? && calls[c].response.value.result == result
  }

  ghost predicate SetsBit(points: seq<Point>, b: nat) {
    exists i :: 0 <= i < |points| && points[i].op == BitTestSet(b)
  }

  lemma {:induction false} MaskIsBit(ty: WordType, b: nat)
    requires b < ty.bits
    ensures Mask(ty, b) == Pow2(b)
  {
    Pow2Monotone(b, ty.bits);
  }

  /** No call that took effect cleared the bit. */
  ghost predicate NeverClears(ty: WordType, points: seq<Point>, b: nat) {
    forall i :: 0 <= i < |points| ==>
      Bit(points[i].before, b) ==> Bit(After(ty, points[i].op, points[i].before), b)
  }

  /** All calls but the ones that set the bit left it as it was. */
  ghost predicate OthersLeave(ty: WordType, points: seq<Point>, b: nat) {
    forall i :: 0 <= i < |points| && points[i].op != BitTestSet(b) ==>
      (Bit(points[i].before, b) <==> Bit(After(ty, points[i].op, points[i].before), b))
  }

  lemma {:induction false} SetterSets(ty: WordType, before: nat, c: nat, b: nat)
    requires c < ty.bits
    ensures Bit(After(ty, BitTestSet(c), before), b) <==> Bit(before, b) || c == b
  {
    MaskIsBit(ty, c);
    OrBit(before, Mask(ty, c), b);
    Pow2Bit(c, b);
  }

  lemma {:induction false} TestResult(ty: WordType, before: nat, b: nat)
    requires b < ty.bits
    ensures Result(ty, BitTestSet(b), before) == 0 <==> !Bit(before, b)
  {
    MaskIsBit(ty, b);
    AndMask(before, b);
    Pow2Monotone(b, ty.bits);
  }

  lemma {:induction false} StaysSet(ty: WordType, mem0: nat, points: seq<Point>, mem: nat, b: nat, i: nat)
    requires Sequential(ty, mem0, points, mem) && b < ty.bits && NeverClears(ty, points, b)
    requires i < |points| && points[i].op == BitTestSet(b)
    ensures Bit(mem, b)
  {
    var p, last := points[..|points| - 1], points[|points| - 1];
    if i < |p| {
      assert forall j :: 0 <= j < |p| ==> p[j] == points[j];
      StaysSet(ty, mem0, p, last.before, b, i);
    } else {
      SetterSets(ty, last.before, b, b);
    }
  }

  /** Nobody sees a bit clear once a call for it has taken effect. */
  lemma {:induction false} LaterSetterLoses(ty: WordType, mem0: nat, points: seq<Point>, mem: nat,
                                            b: nat, i: nat, j: nat)
    requires Sequential(ty, mem0, points, mem) && b < ty.bits && NeverClears(ty, points, b)
    requires i < j < |points| && points[i].op == points[j].op == BitTestSet(b)
    ensures Result(ty, points[j].op, points[j].before) != 0
  {
    var p := points[..j];
    PrefixSequential(ty, mem0, points, mem, j);
    assert forall k :: 0 <= k < |p| ==> p[k] == points[k];
    StaysSet(ty, mem0, p, points[j].before, b, i);
    TestResult(ty, points[j].before, b);
  }

  /** A bit that starts clear and that only calls for it change is set exactly once some such
      call has taken effect. */
  lemma {:induction false} BitHistory(ty: WordType, mem0: nat, points: seq<Point>, mem: nat, b: nat)
    requires Sequential(ty, mem0, points, mem) && b < ty.bits && !Bit(mem0, b) && OthersLeave(ty, points, b)
    ensures Bit(mem, b) <==> SetsBit(points, b)
  {
    if points != [] {
      var p, last := points[..|points| - 1], points[|points| - 1];
      assert forall i :: 0 <= i < |p| ==> p[i] == points[i];
      BitHistory(ty, mem0, p, last.before, b);
      SetterSets(ty, last.before, b, b);
      if SetsBit(p, b) {
        var i :| 0 <= i < |p| && p[i].op == BitTestSet(b);
        assert points[i].op == BitTestSet(b);
      }
      if last.op == BitTestSet(b) {
        assert points[|points| - 1].op == BitTestSet(b);
      }
    }
  }

  /** The first call for such a bit to take effect sees it clear, and no other does. */
  lemma {:induction false} FirstSetterWins(ty: WordType, mem0: nat, points: seq<Point>, mem: nat, b: nat, i: nat)
    requires Sequential(ty, mem0, points, mem) && b < ty.bits && !Bit(mem0, b) && OthersLeave(ty, points, b)
    requires i < |points| && points[i].op == BitTestSet(b)
    ensures Result(ty, points[i].op, points[i].before) == 0 <==> !SetsBit(points[..i], b)
  {
    var p := points[..i];
    PrefixSequential(ty, mem0, points, mem, i);
    assert forall k :: 0 <= k < |p| ==> p[k] == points[k];
    BitHistory(ty, mem0, p, points[i].before, b);
    TestResult(ty, points[i].before, b);
  }

  ghost predicate BitOps(ty: WordType, calls: seq<Call>) {
    forall c :: 0 <= c < |calls| ==> calls[c].op.BitTestSet? && calls[c].op.bit < ty.bits
  }

  /** Calls that set other bits leave this one alone. */
  lemma {:induction false} SettersLeave(ty: WordType, mem0: nat, s: State, b: nat)
    requires Linearization(ty, mem0, s.calls, s.points, s.mem) && BitOps(ty, s.calls)
    ensures OthersLeave(ty, s.points, b) && NeverClears(ty, s.points, b)
  {
    forall i | 0 <= i < |s.points|
      ensures Bit(After(ty, s.points[i].op, s.points[i].before), b) <==>
              Bit(s.points[i].before, b) || s.points[i].op == BitTestSet(b)
    {
      assert Explains(ty, s.points[i], s.calls[s.points[i].call]);
      SetterSets(ty, s.points[i].before, s.points[i].op.bit, b);
    }
  }

  /** Among any number of concurrent callers for a bit that is never cleared, whatever else is
      done to the word, at most one sees 0. */
  lemma {:induction false} AtMostOneSetter(ty: WordType, threads: nat, mem0: nat, steps: seq<Step>,
                                           b: nat, c: nat, d: nat)
    requires b < ty.bits && NeverClears(ty, Exec(ty, threads, mem0, steps).points, b)
    requires Returned(Exec(ty, threads, mem0, steps).calls, c, BitTestSet(b), 0)
    requires Returned(Exec(ty, threads, mem0, steps).calls, d, BitTestSet(b), 0)
    ensures c == d
  {
    var s := Exec(ty, threads, mem0, steps);
    Linearizable(ty, threads, mem0, steps);
    var i: nat :| i < |s.points| && s.points[i].call == c;
    var j: nat :| j < |s.points| && s.points[j].call == d;
    assert Explains(ty, s.points[i], s.calls[c]) && Explains(ty, s.points[j], s.calls[d]);
    if i < j {
      LaterSetterLoses(ty, mem0, s.points, s.mem, b, i, j);
    } else if j < i {
      LaterSetterLoses(ty, mem0, s.points, s.mem, b, j, i);
    }
  }

  /** And if only they set it, once all have returned, one of them has. */
  lemma {:induction false} SomeSetterWins(ty: WordType, threads: nat, mem0: nat, steps: seq<Step>, b: nat, c: nat)
    returns (winner: nat)
    requires b < ty.bits && !Bit(mem0, b) && OthersLeave(ty, Exec(ty, threads, mem0, steps).points, b)
    requires var calls := Exec(ty, threads, mem0, steps).calls;
             Quiet(calls) && c < |calls| && calls[c].op == BitTestSet(b)
    ensures Returned(Exec(ty, threads, mem0, steps).calls, winner, BitTestSet(b), 0)
  {
    var s := Exec(ty, threads, mem0, steps);
    Linearizable(ty, threads, mem0, steps);
    var i: nat :| i < |s.points| && s.points[i].call == c;
    assert Explains(ty, s.points[i], s.calls[c]);
    var k := FirstFor(s.points, b, i);
    FirstSetterWins(ty, mem0, s.points, s.mem, b, k);
    winner := s.points[k].call;
    assert Explains(ty, s.points[k], s.calls[winner]);
  }

  lemma {:induction false} FirstFor(points: seq<Point>, b: nat, i: nat) returns (k: nat)
    requires i < |points| && points[i].op == BitTestSet(b)
    ensures k <= i && points[k].op == BitTestSet(b) && !SetsBit(points[..k], b)
    decreases i
  {
    if SetsBit(points[..i], b) {
      var j: nat :| j < i && points[..i][j].op == BitTestSet(b);
      k := FirstFor(points, b, j);
    } else {
      k := i;
    }
  }

  // ---- Reference counts ----

  lemma {:induction false} CountDown(ty: WordType, n: nat, points: seq<Point>, mem: nat)
    requires |points| <= n < ty.Size() && Sequential(ty, n, points, mem)
    requires forall i :: 0 <= i < |points| ==> points[i].op == Add(-1)
    ensures mem == n - |points|
  {
    if points != [] {
      CountDown(ty, n, points[..|points| - 1], points[|points| - 1].before);
    }
  }

  lemma {:induction false} CountAll(points: seq<Point>, op: Op)
    requires forall i :: 0 <= i < |points| ==> points[i].op == op
    ensures CountAt(points, op) == |points|
  {
    if points != [] {
      CountAll(points[..|points| - 1], op);
    }
  }

  lemma {:induction false} CallersAll(calls: seq<Call>, op: Op)
    requires forall c :: 0 <= c < |calls| ==> calls[c].op == op
    ensures |Callers(calls, op)| == |calls|
  {
    if calls == [] {
      assert Callers(calls, op) == {};
    } else {
      var front := calls[..|calls| - 1];
      CallersAll(front, op);
      assert Callers(calls, op) == Callers(front, op) + {|front|};
    }
  }

  ghost predicate AllAre(calls: seq<Call>, op: Op) {
    forall c :: 0 <= c < |calls| ==> calls[c].op == op
  }

  /** With every call a decrement, no more of them take effect than were made, and all of them
      once all have returned. */
  lemma {:induction false} DecrementPoints(ty: WordType, mem0: nat, s: State)
    requires Linearization(ty, mem0, s.calls, s.points, s.mem) && AllAre(s.calls, Add(-1))
    ensures |s.points| <= |s.calls| && forall i :: 0 <= i < |s.points| ==> s.points[i].op == Add(-1)
    ensures Quiet(s.calls) ==> |s.points| == |s.calls|
  {
    var op := Add(-1);
    forall i | 0 <= i < |s.points| ensures s.points[i].op == op {
      assert Explains(ty, s.points[i], s.calls[s.points[i].call]);
    }
    EffectsAtMostCalls(ty, mem0, s, op);
    CountAll(s.points, op);
    CallersAll(s.calls, op);
    if Quiet(s.calls) {
      forall c | c in Callers(s.calls, op) ensures c in Effective(s.points, op) {
        EffectiveMembers(s.points, op, c);
      }
      EffectiveSize(s.points, op);
      SubsetSize(Callers(s.calls, op), Effective(s.points, op));
    }
  }

  /** `atomic_decrement_and_test` on what the call returned. */
  predicate DecrementTest(c: Call) {
    c.response.Some? && c.response.value.result == 1
  }

  /** With n callers on a counter of n, only the last to take effect can see its test succeed. */
  lemma {:induction false} OnlyLastReleases(ty: WordType, threads: nat, n: nat, steps: seq<Step>, c: nat)
    requires Fits(ty, n)
    requires var calls := Exec(ty, threads, n, steps).calls;
             |calls| <= n && AllAre(calls, Add(-1)) && c < |calls| && DecrementTest(calls[c])
    ensures var s := Exec(ty, threads, n, steps); |s.points| == n && s.points[n - 1].call == c
  {
    var s := Exec(ty, threads, n, steps);
    Linearizable(ty, threads, n, steps);
    DecrementPoints(ty, n, s);
    var i: nat :| i < |s.points| && s.points[i].call == c;
    assert Explains(ty, s.points[i], s.calls[c]);
    CountReads(ty, n, s.points, s.mem, i);
  }

  lemma {:induction false} CountReads(ty: WordType, n: nat, points: seq<Point>, mem: nat, i: nat)
    requires i < |points| <= n && Fits(ty, n) && Sequential(ty, n, points, mem)
    requires forall i :: 0 <= i < |points| ==> points[i].op == Add(-1)
    ensures points[i].before == n - i == Result(ty, points[i].op, points[i].before)
  {
    PrefixSequential(ty, n, points, mem, i);
    CountDown(ty, n, points[..i], points[i].before);
  }

  /** And once all n have returned, it does. */
  lemma {:induction false} LastReleases(ty: WordType, threads: nat, n: nat, steps: seq<Step>)
    requires Fits(ty, n) && n > 0
    requires var calls := Exec(ty, threads, n, steps).calls;
             |calls| == n && AllAre(calls, Add(-1)) && Quiet(calls)
    ensures var s := Exec(ty, threads, n, steps);
            |s.points| == n && s.points[n - 1].call < |s.calls| && DecrementTest(s.calls[s.points[n - 1].call])
  {
    var s := Exec(ty, threads, n, steps);
    Linearizable(ty, threads, n, steps);
    DecrementPoints(ty, n, s);
    CountReads(ty, n, s.points, s.mem, n - 1);
    assert Explains(ty, s.points[n - 1], s.calls[s.points[n - 1].call]);
  }

  // ---- The *_and_test forms ----

  /** C arithmetic on a value read from the word: types narrower than `int` are promoted. */
  function Arithmetic(ty: WordType, x: int): int {
    var p := if ty.bits < 32 then WordType(32, true) else ty;
    p.Value(p.Wrap(x))
  }

  predicate IncrementAndTest(ty: WordType, old': nat) { Arithmetic(ty, ty.Value(old') + 1) == 0 }

  predicate DecrementAndTest(ty: WordType, old': nat) { ty.Value(old') == 1 }

  predicate AddNegative(ty: WordType, old': nat, v: int) { ty.Value(old') < Arithmetic(ty, -v) }

  predicate AddZero(ty: WordType, old': nat, v: int) { ty.Value(old') == Arithmetic(ty, -v) }

  ghost predicate InRange(ty: WordType, x: int) {
    if ty.signed then -ty.Size() <= 2 * x < ty.Size() else 0 <= x < ty.Size()
  }

  lemma {:induction false} WordSizes(ty: WordType)
    requires ty.Valid()
    ensures ty.Size() >= 256 && (ty.bits < 32 ==> 256 * ty.Size() <= Pow2(32))
  {
    EightBits(0);
    if ty.bits > 8 {
      Pow2Monotone(8, ty.bits);
    }
    if ty.bits < 32 {
      EightBits(ty.bits);
      Pow2Monotone(ty.bits + 8, 32);
    }
  }

  lemma {:induction false} EightBits(a: nat)
    ensures Pow2(a + 8) == 256 * Pow2(a)
  {
    assert Pow2(a + 2) == 4 * Pow2(a);
    assert Pow2(a + 4) == 4 * Pow2(a + 2);
    assert Pow2(a + 6) == 4 * Pow2(a + 4);
  }

  /** Storing a number the type can represent and reading it back. */
  lemma {:induction false} Represented(ty: WordType, x: int)
    requires InRange(ty, x)
    ensures ty.Value(ty.Wrap(x)) == x
  {
    if x < 0 {
      RemainderOf(x, ty.Size(), -1, x + ty.Size());
    }
  }

  // ---- What one call does, in numbers ----

  lemma {:induction false} ExchangeMeans(ty: WordType, w: nat, v: int)
    requires w < ty.Size()
    ensures Result(ty, Exchange(v), w) == ty.Value(w)
    ensures Congruent(ty, After(ty, Exchange(v), w), v)
    ensures InRange(ty, v) ==> ty.Value(After(ty, Exchange(v), w)) == v
  {
    WrapMultiple(ty, v);
    if InRange(ty, v) {
      Represented(ty, v);
    }
  }

  /** The two numbers differ by a multiple of 2^bits. */
  ghost predicate Congruent(ty: WordType, w: nat, x: int) {
    w < ty.Size() && exists q :: x == ty.Size() * q + w
  }

  /** The sum is stored, exactly if the type can hold it; the value before is returned. */
  lemma {:induction false} AddMeans(ty: WordType, w: nat, v: int)
    requires w < ty.Size()
    ensures Result(ty, Add(v), w) == ty.Value(w)
    ensures Congruent(ty, After(ty, Add(v), w), w + v)
    ensures InRange(ty, ty.Value(w) + v) ==> ty.Value(After(ty, Add(v), w)) == ty.Value(w) + v
  {
    var n, x := ty.Size(), ty.Value(w) + v;
    WrapMultiple(ty, w + v);
    if InRange(ty, x) && x != w + v {
      var r := if x < 0 then x + n else x;
      RemainderOf(w + v, n, if x < 0 then 0 else 1, r);
    } else if InRange(ty, x) {
      Represented(ty, x);
    }
  }

  /** A positive value is taken down by one and any other left alone; the value before is
      returned. */
  lemma {:induction false} DecrementMeans(ty: WordType, w: nat)
    requires w < ty.Size()
    ensures Result(ty, DecrementIfPositive, w) == ty.Value(w)
    ensures ty.Value(After(ty, DecrementIfPositive, w)) == if ty.Value(w) > 0 then ty.Value(w) - 1 else ty.Value(w)
  {
  }

  /** That bit becomes set and every other stays as it was; the result tells the bit before. */
  lemma {:induction false} BitTestSetMeans(ty: WordType, w: nat, b: nat, k: nat)
    requires b < ty.bits
    ensures Bit(After(ty, BitTestSet(b), w), k) <==> Bit(w, k) || k == b
    ensures Result(ty, BitTestSet(b), w) == if Bit(w, b) then ty.Value(Pow2(b)) else 0
    ensures Result(ty, BitTestSet(b), w) == 0 <==> !Bit(w, b)
  {
    SetterSets(ty, w, b, k);
    MaskIsBit(ty, b);
    AndMask(w, b);
    TestResult(ty, w, b);
  }

  /** The new value is stored if and only if the word was the old one; the value before is
      returned. */
  lemma {:induction false} CompareExchangeMeans(ty: WordType, w: nat, newval: int, oldval: int)
    requires w < ty.Size() && InRange(ty, newval) && InRange(ty, oldval)
    ensures Result(ty, CompareExchange(newval, oldval), w) == ty.Value(w)
    ensures ty.Value(After(ty, CompareExchange(newval, oldval), w)) ==
            if ty.Value(w) == oldval then newval else ty.Value(w)
  {
    Represented(ty, newval);
    Represented(ty, oldval);
  }

  lemma {:induction false} IncrementStored(ty: WordType, w: nat)
    requires w < ty.Size()
    ensures After(ty, Add(1), w) == 0 <==> w == ty.Size() - 1
  {
    RemainderOf(ty.Size(), ty.Size(), 1, 0);
  }

  lemma {:induction false} NarrowIncrement(ty: WordType, w: nat)
    requires ty.Valid() && ty.bits < 32 && w < ty.Size()
    ensures IncrementAndTest(ty, w) <==> ty.Value(w) == -1
  {
    WordSizes(ty);
    Represented(WordType(32, true), ty.Value(w) + 1);
  }

  lemma {:induction false} WideIncrement(ty: WordType, w: nat)
    requires ty.Valid() && ty.bits >= 32 && w < ty.Size()
    ensures IncrementAndTest(ty, w) <==> w == ty.Size() - 1
  {
    var n, x := ty.Size(), ty.Value(w) + 1;
    WordSizes(ty);
    assert Arithmetic(ty, x) == ty.Value(ty.Wrap(x));
    if InRange(ty, x) {
      Represented(ty, x);
    } else if ty.signed {
      assert ty.Wrap(x) == x;
    } else {
      RemainderOf(n, n, 1, 0);
    }
  }

  /** The increment test says whether the word became zero, for every type but the unsigned ones
      narrower than `int`, where it misses the wrap from the largest value. */
  lemma {:induction false} IncrementTestExactly(ty: WordType, w: nat)
    requires ty.Valid() && w < ty.Size()
    ensures (IncrementAndTest(ty, w) <==> After(ty, Add(1), w) == 0) <==>
            !(ty.bits < 32 && !ty.signed && w == ty.Size() - 1)
  {
    if ty.bits < 32 {
      NarrowIncrement(ty, w);
    } else {
      WideIncrement(ty, w);
    }
    IncrementStored(ty, w);
  }

  /** The decrement test says so for every type. */
  lemma {:induction false} DecrementTestCorrect(ty: WordType, w: nat)
    requires ty.Valid() && w < ty.Size()
    ensures DecrementAndTest(ty, w) <==> After(ty, Add(-1), w) == 0
  {
    WordSizes(ty);
    RemainderOf(-1, ty.Size(), -1, ty.Size() - 1);
  }

  lemma {:induction false} SumStored(ty: WordType, w: nat, v: int)
    requires w < ty.Size() && InRange(ty, v)
    ensures var n, r := ty.Size(), After(ty, Add(v), w);
            r == if w + v >= n then w + v - n else if w + v < 0 then w + v + n else w + v
  {
    var n := ty.Size();
    if w + v >= n {
      RemainderOf(w + v, n, 1, w + v - n);
    } else if w + v < 0 {
      RemainderOf(w + v, n, -1, w + v + n);
    }
  }

  /** Types narrower than `int` negate exactly. */
  lemma {:induction false} NarrowNegation(ty: WordType, v: int)
    requires ty.Valid() && ty.bits < 32 && InRange(ty, v)
    ensures Arithmetic(ty, -v) == -v
  {
    WordSizes(ty);
    Represented(WordType(32, true), -v);
  }

  lemma {:induction false} WideNegation(ty: WordType, v: int)
    requires ty.bits >= 32 && InRange(ty, v)
    ensures Arithmetic(ty, -v) == ty.Value(if v > 0 then ty.Size() - v else -v)
  {
    if v > 0 {
      RemainderOf(-v, ty.Size(), -1, ty.Size() - v);
    }
  }

  predicate NowNegative(ty: WordType, w: nat, v: int) { ty.Value(After(ty, Add(v), w)) < 0 }

  predicate NowZero(ty: WordType, w: nat, v: int) { After(ty, Add(v), w) == 0 }

  /** When the sign test tells the sign of the word stored: on signed words if the sum did not
      overflow, but for the least addend of a type as wide as `int` if it did; on unsigned words
      if the type is narrow, or nothing was added, or the sum overflowed. */
  lemma {:induction false} SignTestExactly(ty: WordType, w: nat, v: int)
    requires ty.Valid() && w < ty.Size() && InRange(ty, v)
    ensures (AddNegative(ty, w, v) <==> NowNegative(ty, w, v)) <==>
            if ty.signed then InRange(ty, ty.Value(w) + v) <==> !(ty.bits >= 32 && 2 * v == -ty.Size())
            else ty.bits < 32 || v == 0 || w + v >= ty.Size()
  {
    SumStored(ty, w, v);
    if ty.bits < 32 {
      NarrowNegation(ty, v);
    } else {
      WideNegation(ty, v);
    }
  }

  /** The zero test says whether the word became zero, unless the type is narrower than `int` and
      the sum wrapped to zero: from the least value of a signed type added to itself, or by a
      carry out of an unsigned one. */
  lemma {:induction false} ZeroTestExactly(ty: WordType, w: nat, v: int)
    requires ty.Valid() && w < ty.Size() && InRange(ty, v)
    ensures (AddZero(ty, w, v) <==> NowZero(ty, w, v)) <==>
            !(ty.bits < 32 && (ty.Value(w) + v == ty.Size() || ty.Value(w) + v == -ty.Size()))
  {
    SumStored(ty, w, v);
    if ty.bits < 32 {
      NarrowNegation(ty, v);
    } else {
      WideNegation(ty, v);
    }
  }
}
