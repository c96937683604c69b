/** The compare-and-swap retry loops of atomic.h, run by any number of threads in any
    interleaving. A thread's load and its compare-and-swap are separate steps. */
module Atomic {
  import opened Basics
  import opened Bits

  // ---- Words and operations ----

  /** The type of `*mem`. A word is kept as its bit pattern, a number below 2^bits. */
  datatype WordType = WordType(bits: nat, signed: bool) {
    /** Other sizes reach `abort`. */
    ghost predicate Valid() { bits == 8 || bits == 16 || bits == 32 || bits == 64 }

    function Size(): (n: int)
      ensures n >= 1
    {
      Pow2(bits)
    }

    /** The pattern left when `x` is stored. */
    function Wrap(x: int): (w: nat)
      ensures w < Size()
    {
      if 0 <= x < Size() then x else x % Size()
    }

    /** The number a pattern stands for. */
    function Value(w: nat): int {
      if signed && 2 * w >= Size() then w - Size() else w
    }
  }

  datatype Op =
    | Exchange(newvalue: int)
    | Add(value: int)
    | DecrementIfPositive
    | BitTestSet(bit: nat)
    | CompareExchange(newval: int, oldval: int)

  function Mask(ty: WordType, bit: nat): nat { ty.Wrap(Pow2(bit)) }

  /** What the compare-and-swap of a call stores once the call has read `old`. */
  function Stored(ty: WordType, op: Op, old': nat): nat {
    match op
    case Exchange(v) => ty.Wrap(v)
    case Add(v) => ty.Wrap(old' + v)
    case DecrementIfPositive => ty.Wrap(old' - 1)
    case BitTestSet(b) => Or(old', Mask(ty, b))
    case CompareExchange(n, o) => if old' == ty.Wrap(o) then ty.Wrap(n) else old'
  }

  /** The loop is left without a compare-and-swap. */
  predicate Declines(ty: WordType, op: Op, old': nat) {
    op.DecrementIfPositive? && ty.Value(old') <= 0
  }

  /** The sequential meaning of a call: the word after it, and what it returns. */
  function After(ty: WordType, op: Op, old': nat): nat {
    if Declines(ty, op, old') then old' else Stored(ty, op, old')
  }

  function Result(ty: WordType, op: Op, old': nat): int {
    if op.BitTestSet? then ty.Value(And(old', Mask(ty, op.bit))) else ty.Value(old')
  }

  // ---- The machine ----

  datatype Response = Response(result: int, at: nat)

  /** One macro call: who made it, when it began, its place in `points` once it has taken
      effect, and its return. */
  datatype Call = Call(thread: nat, op: Op, invokedAt: nat, point: Option<nat>, response: Option<Response>)

  /** A moment at which a call takes effect, and the word it finds there. */
  datatype Point = Point(call: nat, op: Op, before: nat, at: nat)

  datatype Phase =
    | Idle
    | Entered(call: nat)                              // about to read the word
    | Holding(call: nat, read: nat, seen: int)        // about to compare and swap
    | Leaving(call: nat, result: int)                 // about to return

  datatype State = State(mem: nat, phases: seq<Phase>, calls: seq<Call>, points: seq<Point>, clock: nat,
                         wins: seq<nat>, fails: seq<nat>, total: nat)
  {
    /** Successful compare-and-swaps of threads other than `t`. */
    function Others(t: nat): int
      requires t < |wins|
    {
      total - wins[t]
    }
  }

  datatype Step = Invoke(thread: nat, op: Op) | Load(thread: nat) | Swap(thread: nat) | Return(thread: nat)

  function Start(threads: nat, mem: nat): State {
    State(mem, seq(threads, _ => Idle), [], [], 0, seq(threads, _ => 0), seq(threads, _ => 0), 0)
  }

  predicate Shaped(s: State) {
    && |s.wins| == |s.phases| && |s.fails| == |s.phases|
    && (forall t :: 0 <= t < |s.phases| && !s.phases[t].Idle? ==>
          s.phases[t].call < |s.calls| && s.calls[s.phases[t].call].thread == t)
  }

  /** Call `c` takes effect now, leaving `mem` in the word. */
  function TakeEffect(ty: WordType, s: State, t: nat, c: nat, mem: nat): State
    requires t < |s.phases| && c < |s.calls|
  {
    var op := s.calls[c].op;
    s.(mem := mem,
       phases := s.phases[t := Leaving(c, Result(ty, op, s.mem))],
       calls := s.calls[c := s.calls[c].(point := Some(|s.points|))],
       points := s.points + [Point(c, op, s.mem, s.clock)],
       clock := s.clock + 1)
  }

  /** The state in which thread `t` has returned from call `c`. */
  function Answer(s: State, t: nat, c: nat, result: int): State
    requires t < |s.phases| && c < |s.calls|
  {
    s.(phases := s.phases[t := Idle],
       calls := s.calls[c := s.calls[c].(response := Some(Response(result, s.clock)))],
       clock := s.clock + 1)
  }

  function Win(s: State, t: nat): State
    requires t < |s.wins|
  {
    s.(wins := s.wins[t := s.wins[t] + 1], total := s.total + 1)
  }

  /** One scheduler choice; a choice the thread cannot make changes nothing. */
  function Next(ty: WordType, s: State, step: Step): State
    requires Shaped(s)
  {
    var t := step.thread;
    if t >= |s.phases| then s
    else match (step, s.phases[t])
      case (Invoke(_, op), Idle) =>
        s.(phases := s.phases[t := Entered(|s.calls|)],
           calls := s.calls + [Call(t, op, s.clock, None, None)],
           clock := s.clock + 1)
      case (Load(_), Entered(c)) =>
        var op := s.calls[c].op;
        if op.CompareExchange? then s
        else if Declines(ty, op, s.mem) then TakeEffect(ty, s, t, c, s.mem)
        else s.(phases := s.phases[t := Holding(c, s.mem, s.Others(t))],
                clock := s.clock + 1)
      case (Swap(_), Entered(c)) =>
        var op := s.calls[c].op;
        if !op.CompareExchange? then s
        else if s.mem == ty.Wrap(op.oldval) then Win(TakeEffect(ty, s, t, c, ty.Wrap(op.newval)), t)
        else TakeEffect(ty, s, t, c, s.mem)
      case (Swap(_), Holding(c, read, _)) =>
        if s.mem == read then Win(TakeEffect(ty, s, t, c, Stored(ty, s.calls[c].op, read)), t)
        else s.(phases := s.phases[t := Entered(c)], fails := s.fails[t := s.fails[t] + 1], clock := s.clock + 1)
      case (Return(_), Leaving(c, result)) =>
        Answer(s, t, c, result)
      case _ => s
  }

  lemma {:induction false} NextShaped(ty: WordType, s: State, step: Step)
    requires Shaped(s)
    ensures Shaped(Next(ty, s, step))
  {
  }

  /** The machine after a list of scheduler choices. */
  function Exec(ty: WordType, threads: nat, mem: nat, steps: seq<Step>): (s: State)
    ensures Shaped(s)
  {
    if steps == [] then Start(threads, mem)
    else
      var s := Exec(ty, threads, mem, steps[..|steps| - 1]);
      NextShaped(ty, s, steps[|steps| - 1]);
      Next(ty, s, steps[|steps| - 1])
  }

  // ---- Linearizability ----

  /** From `mem0`, applying the operations one after the other finds exactly these words and
      leaves `mem`. */
  ghost predicate Sequential(ty: WordType, mem0: nat, points: seq<Point>, mem: nat) {
    if points == [] then mem == mem0
    else
      var p := points[|points| - 1];
      mem == After(ty, p.op, p.before) && Sequential(ty, mem0, points[..|points| - 1], p.before)
  }

  /** The moment lies inside the call, and the call returns what it would sequentially. */
  ghost predicate Explains(ty: WordType, p: Point, c: Call) {
    && p.op == c.op && c.invokedAt < p.at
    && (c.response.Some? ==>
          p.at < c.response.value.at && c.response.value.result == Result(ty, p.op, p.before))
  }

  /** Every returned call takes effect at one moment between its invocation and its return, and
      in the order of these moments the calls are a sequential run from `mem0` to `mem`. */
  ghost predicate Linearization(ty: WordType, mem0: nat, calls: seq<Call>, points: seq<Point>, mem: nat) {
    && (forall i :: 0 <= i < |points| ==> points[i].call < |calls| && Explains(ty, points[i], calls[points[i].call]))
    && (forall i, j :: 0 <= i < j < |points| ==> points[i].at < points[j].at && points[i].call != points[j].call)
    && (forall c :: 0 <= c < |calls| && calls[c].response.Some? ==>
          exists i :: 0 <= i < |points| && points[i].call == c)
    && Sequential(ty, mem0, points, mem)
  }

  /** All calls have returned. */
  ghost predicate Quiet(calls: seq<Call>) {
    forall c :: 0 <= c < |calls| ==> calls[c].response.Some?
  }

  ghost predicate Placed(s: State, c: int)
    requires 0 <= c < |s.calls|
  {
    match s.calls[c].point
    case None => s.calls[c].response.None?
    case Some(i) => i < |s.points| && s.points[i].call == c
  }

  ghost predicate Timely(s: State) {
    && (forall i :: 0 <= i < |s.points| ==> s.points[i].at < s.clock)
    && (forall i, j :: 0 <= i < j < |s.points| ==> s.points[i].at < s.points[j].at)
    && (forall c :: 0 <= c < |s.calls| ==> s.calls[c].invokedAt < s.clock)
  }

  ghost predicate Matched(ty: WordType, s: State) {
    && (forall i :: 0 <= i < |s.points| ==> s.points[i].call < |s.calls|)
    && (forall i :: 0 <= i < |s.points| ==> s.calls[s.points[i].call].point == Some(i))
    && (forall i :: 0 <= i < |s.points| ==> Explains(ty, s.points[i], s.calls[s.points[i].call]))
    && (forall c :: 0 <= c < |s.calls| ==> Placed(s, c))
  }

  ghost predicate PhaseOk(ty: WordType, s: State, t: int)
    requires Shaped(s) && 0 <= t < |s.phases|
  {
    match s.phases[t]
    case Idle => true
    case Entered(c) => s.calls[c].point.None?
    case Holding(c, read, _) =>
      s.calls[c].point.None? && !Declines(ty, s.calls[c].op, read) && !s.calls[c].op.CompareExchange?
    case Leaving(c, r) =>
      s.calls[c].response.None? && s.calls[c].point.Some? && s.calls[c].point.value < |s.points| &&
      r == Result(ty, s.calls[c].op, s.points[s.calls[c].point.value].before)
  }

  ghost predicate PhasesOk(ty: WordType, s: State)
    requires Shaped(s)
  {
    forall t :: 0 <= t < |s.phases| ==> PhaseOk(ty, s, t)
  }

  ghost predicate Inv(ty: WordType, mem0: nat, s: State) {
    Shaped(s) && Timely(s) && Matched(ty, s) && Sequential(ty, mem0, s.points, s.mem) && PhasesOk(ty, s)
  }

  lemma {:induction false} EffectMatched(ty: WordType, s: State, t: nat, mem: nat)
    requires Shaped(s) && Timely(s) && Matched(ty, s) && PhasesOk(ty, s)
    requires t < |s.phases| && (s.phases[t].Entered? || s.phases[t].Holding?)
    ensures Matched(ty, TakeEffect(ty, s, t, s.phases[t].call, mem))
  {
    var c := s.phases[t].call;
    var n := TakeEffect(ty, s, t, c, mem);
    assert PhaseOk(ty, s, t) && Placed(s, c);
    forall i | 0 <= i < |n.points|
      ensures n.calls[n.points[i].call].point == Some(i)
      ensures Explains(ty, n.points[i], n.calls[n.points[i].call])
    {
      if i < |s.points| {
        assert s.points[i].call != c;
      }
    }
    forall d | 0 <= d < |n.calls| ensures Placed(n, d) {
      assert Placed(s, d);
    }
  }

  lemma {:induction false} EffectPhases(ty: WordType, s: State, t: nat, mem: nat)
    requires Shaped(s) && Matched(ty, s) && PhasesOk(ty, s)
    requires t < |s.phases| && (s.phases[t].Entered? || s.phases[t].Holding?)
    ensures PhasesOk(ty, TakeEffect(ty, s, t, s.phases[t].call, mem))
  {
    var c := s.phases[t].call;
    var n := TakeEffect(ty, s, t, c, mem);
    assert PhaseOk(ty, s, t) && Placed(s, c);
    forall u | 0 <= u < |n.phases| ensures PhaseOk(ty, n, u) {
      assert PhaseOk(ty, s, u);
      if u != t && !s.phases[u].Idle? {
        assert s.calls[s.phases[u].call].thread != s.calls[c].thread;
      }
    }
  }

  lemma {:induction false} EffectInOrder(ty: WordType, mem0: nat, s: State, t: nat, c: nat, mem: nat)
    requires t < |s.phases| && c < |s.calls| && Shaped(s) && Timely(s) && Sequential(ty, mem0, s.points, s.mem)
    requires s.calls[c].thread == t && mem == After(ty, s.calls[c].op, s.mem)
    ensures var n := TakeEffect(ty, s, t, c, mem);
            Shaped(n) && Timely(n) && Sequential(ty, mem0, n.points, n.mem)
  {
    var n := TakeEffect(ty, s, t, c, mem);
    assert n.points[..|n.points| - 1] == s.points;
  }

  lemma {:induction false} EffectKeepsInv(ty: WordType, mem0: nat, s: State, t: nat, mem: nat)
    requires Inv(ty, mem0, s) && t < |s.phases| && (s.phases[t].Entered? || s.phases[t].Holding?)
    requires mem == After(ty, s.calls[s.phases[t].call].op, s.mem)
    ensures Inv(ty, mem0, TakeEffect(ty, s, t, s.phases[t].call, mem))
  {
    EffectMatched(ty, s, t, mem);
    EffectPhases(ty, s, t, mem);
    EffectInOrder(ty, mem0, s, t, s.phases[t].call, mem);
  }

  lemma {:induction false} InvokeKeepsInv(ty: WordType, mem0: nat, s: State, t: nat, op: Op)
    requires Inv(ty, mem0, s)
    ensures Inv(ty, mem0, Next(ty, s, Invoke(t, op)))
  {
    var n := Next(ty, s, Invoke(t, op));
    forall d | 0 <= d < |n.calls| ensures Placed(n, d) {
      assert d < |s.calls| ==> Placed(s, d);
    }
    forall u | 0 <= u < |n.phases| ensures PhaseOk(ty, n, u) {
      assert PhaseOk(ty, s, u);
    }
  }

  lemma {:induction false} AnswerMatched(ty: WordType, s: State, t: nat)
    requires Shaped(s) && Timely(s) && Matched(ty, s) && PhasesOk(ty, s) && t < |s.phases| && s.phases[t].Leaving?
    ensures Matched(ty, Answer(s, t, s.phases[t].call, s.phases[t].result))
  {
    assert PhaseOk(ty, s, t);
    var n := Answer(s, t, s.phases[t].call, s.phases[t].result);
    forall d | 0 <= d < |n.calls| ensures Placed(n, d) {
      assert Placed(s, d);
    }
  }

  lemma {:induction false} AnswerPhases(ty: WordType, s: State, t: nat)
    requires Shaped(s) && PhasesOk(ty, s) && t < |s.phases| && s.phases[t].Leaving?
    ensures var n := Answer(s, t, s.phases[t].call, s.phases[t].result); Shaped(n) && PhasesOk(ty, n)
  {
    var n := Answer(s, t, s.phases[t].call, s.phases[t].result);
    forall u | 0 <= u < |n.phases| ensures PhaseOk(ty, n, u) {
      assert PhaseOk(ty, s, u);
    }
  }

  lemma {:induction false} ReturnKeepsInv(ty: WordType, mem0: nat, s: State, t: nat)
    requires Inv(ty, mem0, s)
    ensures Inv(ty, mem0, Next(ty, s, Return(t)))
  {
    if t < |s.phases| && s.phases[t].Leaving? {
      AnswerMatched(ty, s, t);
      AnswerPhases(ty, s, t);
    }
  }

  lemma {:induction false} WaitKeepsInv(ty: WordType, mem0: nat, s: State, t: nat, n: State)
    requires Inv(ty, mem0, s) && t < |s.phases| && Shaped(n)
    requires n.mem == s.mem && n.calls == s.calls && n.points == s.points && n.clock >= s.clock
    requires |n.phases| == |s.phases| && forall u :: 0 <= u < |s.phases| && u != t ==> n.phases[u] == s.phases[u]
    requires PhaseOk(ty, n, t)
    ensures Inv(ty, mem0, n)
  {
    forall u | 0 <= u < |n.phases| ensures PhaseOk(ty, n, u) {
      assert PhaseOk(ty, s, u);
    }
    forall d | 0 <= d < |n.calls| ensures Placed(n, d) {
      assert Placed(s, d);
    }
  }

  lemma {:induction false} LoadKeepsInv(ty: WordType, mem0: nat, s: State, t: nat)
    requires Inv(ty, mem0, s)
    ensures Inv(ty, mem0, Next(ty, s, Load(t)))
  {
    var n := Next(ty, s, Load(t));
    if t < |s.phases| && n != s {
      assert PhaseOk(ty, s, t);
      if Declines(ty, s.calls[s.phases[t].call].op, s.mem) {
        EffectKeepsInv(ty, mem0, s, t, s.mem);
      } else {
        WaitKeepsInv(ty, mem0, s, t, n);
      }
    }
  }

  lemma {:induction false} WinKeepsInv(ty: WordType, mem0: nat, s: State, t: nat)
    requires Inv(ty, mem0, s) && t < |s.phases|
    ensures Inv(ty, mem0, Win(s, t))
  {
    assert PhaseOk(ty, s, t);
    WaitKeepsInv(ty, mem0, s, t, Win(s, t));
  }

  lemma {:induction false} SwapKeepsInv(ty: WordType, mem0: nat, s: State, t: nat)
    requires Inv(ty, mem0, s)
    ensures Inv(ty, mem0, Next(ty, s, Swap(t)))
  {
    var n := Next(ty, s, Swap(t));
    if t < |s.phases| && n != s {
      assert PhaseOk(ty, s, t);
      if s.phases[t].Holding? && s.mem != s.phases[t].read {
        WaitKeepsInv(ty, mem0, s, t, n);
      } else {
        EffectKeepsInv(ty, mem0, s, t, n.mem);
        var e := TakeEffect(ty, s, t, s.phases[t].call, n.mem);
        if n != e {
          WinKeepsInv(ty, mem0, e, t);
        }
      }
    }
  }

  lemma {:induction false} NextKeepsInv(ty: WordType, mem0: nat, s: State, step: Step)
    requires Inv(ty, mem0, s)
    ensures Inv(ty, mem0, Next(ty, s, step))
  {
    match step
    case Invoke(t, op) => InvokeKeepsInv(ty, mem0, s, t, op);
    case Load(t) => LoadKeepsInv(ty, mem0, s, t);
    case Swap(t) => SwapKeepsInv(ty, mem0, s, t);
    case Return(t) => ReturnKeepsInv(ty, mem0, s, t);
  }

  lemma {:induction false} ExecInv(ty: WordType, threads: nat, mem0: nat, steps: seq<Step>)
    ensures Inv(ty, mem0, Exec(ty, threads, mem0, steps))
  {
    if steps != [] {
      var front := steps[..|steps| - 1];
      ExecInv(ty, threads, mem0, front);
      NextKeepsInv(ty, mem0, Exec(ty, threads, mem0, front), steps[|steps| - 1]);
    }
  }

  /** Any interleaving of any number of threads is linearizable, with the successful swaps and
      declined decrements as linearization points. */
  lemma {:induction false} Linearizable(ty: WordType, threads: nat, mem0: nat, steps: seq<Step>)
    ensures var s := Exec(ty, threads, mem0, steps); Linearization(ty, mem0, s.calls, s.points, s.mem)
  {
    var s := Exec(ty, threads, mem0, steps);
    ExecInv(ty, threads, mem0, steps);
    InvIsLinearization(ty, mem0, s);
  }

  lemma {:induction false} InvIsLinearization(ty: WordType, mem0: nat, s: State)
    requires Inv(ty, mem0, s)
    ensures Linearization(ty, mem0, s.calls, s.points, s.mem)
  {
    forall c | 0 <= c < |s.calls| && s.calls[c].response.Some?
      ensures exists i :: 0 <= i < |s.points| && s.points[i].call == c
    {
      assert Placed(s, c);
    }
  }

  /** Linearization respects real time: a call that returned before another began also took
      effect before it. */
  lemma {:induction false} RealTimeOrder(ty: WordType, mem0: nat, calls: seq<Call>, points: seq<Point>,
                                         mem: nat, i: nat, j: nat)
    requires Linearization(ty, mem0, calls, points, mem) && i < |points| && j < |points|
    requires calls[points[i].call].response.Some?
    requires calls[points[i].call].response.value.at < calls[points[j].call].invokedAt
    ensures i < j
  {
    assert Explains(ty, points[i], calls[points[i].call]) && Explains(ty, points[j], calls[points[j].call]);
    assert points[i].at < points[j].at;
  }
}
