/** The two families of macros in obstack.h, as assignments to the control block: the GNU C forms
    and the portable forms, which go through the scratch field `temp`. */
module ObstackMacros {
  import opened Basics
  import opened Obstack

  /** A macro call and the chunk at hand should it need one. */
  datatype Request =
    | MakeRoomOf(length: nat)
    | GrowBy(data: seq<Byte>)
    | Grow0By(data: seq<Byte>)
    | OneGrowBy(datum: Byte)
    | BlankOf(length: nat)
    | Finishing
    | Allocating(length: nat)
    | Copying(data: seq<Byte>)
    | Copying0(data: seq<Byte>)
    | FreeingAt(obj: nat)

  datatype Family = GnuC | PortableC

  /** The control block after a request, and the object it returns; None if it aborts. */
  function Serve(s: Stack, r: Request, spare: Spare): (a: Option<(Stack, nat)>)
    requires Formed(s)
    ensures a.Some? ==> Formed(a.value.0)
  {
    match r
    case MakeRoomOf(n) => Some((MakeRoom(s, n, spare), 0))
    case GrowBy(data) => Some((Grow(s, data, spare), 0))
    case Grow0By(data) => Some((Grow0(s, data, spare), 0))
    case OneGrowBy(b) => Some((OneGrow(s, b, spare), 0))
    case BlankOf(n) => Some((Blank(s, n, spare), 0))
    case Finishing => Some((Finish(s), s.objectBase))
    case Allocating(n) => var g := Blank(s, n, spare); Some((Finish(g), g.objectBase))
    case Copying(data) => var g := Grow(s, data, spare); Some((Finish(g), g.objectBase))
    case Copying0(data) => var g := Grow0(s, data, spare); Some((Finish(g), g.objectBase))
    case FreeingAt(obj) =>
      match Free(s, obj)
      case None => None
      case Some(f) => Some((f, 0))
  }

  /** The control block after all of these requests, None if one of them aborts, and what the
      requests up to that one returned. */
  function ServeAll(s: Stack, calls: seq<(Request, Spare)>): (a: (Option<Stack>, seq<nat>))
    requires Formed(s)
    ensures a.0.Some? ==> |a.1| == |calls|
    decreases |calls|
  {
    if calls == [] then (Some(s), [])
    else match Serve(s, calls[0].0, calls[0].1)
      case None => (None, [])
      case Some((next, value)) =>
        var (end, values) := ServeAll(next, calls[1..]);
        (end, [value] + values)
  }

  // ---- Requests as steps of the machine ----

  /** Position of the first live object that starts here. */
  function IndexOf(objects: seq<Obj>, start: nat): (i: nat)
    ensures i <= |objects| && (i < |objects| ==> objects[i].start == start)
    ensures forall j :: 0 <= j < i ==> objects[j].start != start
  {
    if objects == [] || objects[0].start == start then 0 else IndexOf(objects[1..], start) + 1
  }

  /** The steps a request stands for. */
  function Steps(v: View, r: Request, spare: Spare): seq<Cmd> {
    match r
    case MakeRoomOf(n) => [Cmd(RoomOp(n), spare)]
    case GrowBy(data) => [Cmd(GrowOp(data), spare)]
    case Grow0By(data) => [Cmd(Grow0Op(data), spare)]
    case OneGrowBy(b) => [Cmd(OneGrowOp(b), spare)]
    case BlankOf(n) => [Cmd(BlankOp(n), spare)]
    case Finishing => [Cmd(FinishOp, spare)]
    case Allocating(n) => [Cmd(BlankOp(n), spare), Cmd(FinishOp, spare)]
    case Copying(data) => [Cmd(GrowOp(data), spare), Cmd(FinishOp, spare)]
    case Copying0(data) => [Cmd(Grow0Op(data), spare), Cmd(FinishOp, spare)]
    case FreeingAt(obj) => [Cmd(FreeOp(IndexOf(v.objects, obj)), spare)]
  }

  predicate Finishes(r: Request) { r.Finishing? || r.Allocating? || r.Copying? || r.Copying0? }

  /** What a request returns that leaves this view: the address of the object it finished. */
  function Reply(r: Request, v: View): nat {
    if Finishes(r) && v.objects != [] then Last(v.objects).start else 0
  }

  function AllSteps(m: Machine, calls: seq<(Request, Spare)>): seq<Cmd>
    decreases |calls|
  {
    if calls == [] then []
    else
      var cmds := Steps(m.view, calls[0].0, calls[0].1);
      cmds + AllSteps(Run(m, cmds), calls[1..])
  }

  function Replies(m: Machine, calls: seq<(Request, Spare)>): seq<nat>
    decreases |calls|
  {
    if calls == [] then []
    else
      var r := Run(m, Steps(m.view, calls[0].0, calls[0].1));
      [Reply(calls[0].0, r.view)] + Replies(r, calls[1..])
  }

  /** Only live objects are freed. */
  ghost predicate FreesLive(m: Machine, calls: seq<(Request, Spare)>)
    decreases |calls|
  {
    calls == [] ||
    ((calls[0].0.FreeingAt? ==> IndexOf(m.view.objects, calls[0].0.obj) < |m.view.objects|) &&
     FreesLive(Run(m, Steps(m.view, calls[0].0, calls[0].1)), calls[1..]))
  }

  lemma {:induction false} RunSplit(m: Machine, a: seq<Cmd>, b: seq<Cmd>, k: nat)
    ensures Run(m, a + b) == Run(Run(m, a), b)
    ensures Supplied(m, a + b, k) <==> Supplied(m, a, k) && Supplied(Run(m, a), b, k)
    decreases |a|
  {
    if a == [] {
      assert a + b == b;
    } else {
      assert (a + b)[1..] == a[1..] + b;
      RunSplit(Step(m, a[0]), a[1..], b, k);
    }
  }

  lemma {:induction false} OneStep(m: Machine, cmd: Cmd)
    ensures Run(m, [cmd]) == Step(m, cmd)
  {
    assert Run(Step(m, cmd), []) == Step(m, cmd);
  }

  /** The steps of a request that grows the object and finishes it. */
  lemma {:induction false} GrowAndFinish(m: Machine, cmd: Cmd)
    requires Formed(m.stack) && Grows(cmd.op)
    ensures var g, r := StackStep(m.stack, m.view, cmd), Run(m, [cmd, Cmd(FinishOp, cmd.spare)]);
            && Formed(g) && r.stack == Finish(g)
            && r.view.objects != [] && Last(r.view.objects).start == g.objectBase
  {
    var cmds := [cmd, Cmd(FinishOp, cmd.spare)];
    assert cmds[1..] == [Cmd(FinishOp, cmd.spare)];
    OneStep(Step(m, cmd), Cmd(FinishOp, cmd.spare));
  }

  ghost predicate ServedAs(m: Machine, r: Request, spare: Spare, n: Machine)
    requires Formed(m.stack)
  {
    && Serve(m.stack, r, spare) == Some((n.stack, Reply(r, n.view)))
    && (Finishes(r) ==> n.view.objects != [])
  }

  lemma {:induction false} GrowingIsStep(m: Machine, r: Request, spare: Spare)
    requires Formed(m.stack) && !r.FreeingAt? && !Finishes(r)
    ensures ServedAs(m, r, spare, Run(m, Steps(m.view, r, spare)))
  {
    OneStep(m, Steps(m.view, r, spare)[0]);
  }

  lemma {:induction false} CompositeIsSteps(m: Machine, r: Request, spare: Spare, cmd: Cmd)
    requires Formed(m.stack) && Finishes(r) && Grows(cmd.op)
    requires Steps(m.view, r, spare) == [cmd, Cmd(FinishOp, cmd.spare)] && Formed(StackStep(m.stack, m.view, cmd))
    requires var g := StackStep(m.stack, m.view, cmd); Serve(m.stack, r, spare) == Some((Finish(g), g.objectBase))
    ensures ServedAs(m, r, spare, Run(m, Steps(m.view, r, spare)))
  {
    GrowAndFinish(m, cmd);
  }

  lemma {:induction false} FinishingIsSteps(m: Machine, r: Request, spare: Spare)
    requires Formed(m.stack) && Finishes(r)
    ensures ServedAs(m, r, spare, Run(m, Steps(m.view, r, spare)))
  {
    if r.Finishing? {
      OneStep(m, Cmd(FinishOp, spare));
    } else {
      CompositeIsSteps(m, r, spare, Steps(m.view, r, spare)[0]);
    }
  }

  /** A request moves the control block as its steps move the machine, and what it returns is
      where the object it finished starts. */
  lemma {:induction false} ServeIsSteps(m: Machine, r: Request, spare: Spare, k: nat)
    requires Inv(m.stack, m.view, k) && Formed(m.stack)
    requires r.FreeingAt? ==> IndexOf(m.view.objects, r.obj) < |m.view.objects|
    ensures ServedAs(m, r, spare, Run(m, Steps(m.view, r, spare)))
  {
    if r.FreeingAt? {
      FreeInv(m.stack, m.view, k, IndexOf(m.view.objects, r.obj));
      OneStep(m, Steps(m.view, r, spare)[0]);
    } else if Finishes(r) {
      FinishingIsSteps(m, r, spare);
    } else {
      GrowingIsStep(m, r, spare);
    }
  }

  /** What the header says a request puts after the growing object: the data, with a NUL for the
      two forms ending in 0, or space of unknown contents. */
  function Bytes(r: Request): seq<Cell> {
    match r
    case GrowBy(data) => Known(data)
    case Grow0By(data) => Known(data + [0])
    case OneGrowBy(b) => [Some(b)]
    case BlankOf(n) => Blanks(n)
    case Allocating(n) => Blanks(n)
    case Copying(data) => Known(data)
    case Copying0(data) => Known(data + [0])
    case _ => []
  }

  /** A request that does not finish extends the growing object by these bytes; one that does adds
      an object of the growing bytes and these, and leaves nothing growing. */
  lemma {:induction false} RequestMeans(m: Machine, r: Request, spare: Spare)
    requires Formed(m.stack) && !r.FreeingAt?
    ensures var v, n := m.view, Run(m, Steps(m.view, r, spare)).view;
            if Finishes(r) then
              && |n.objects| == |v.objects| + 1 && v.objects == Front(n.objects) && n.growing == []
              && Last(n.objects).cells == v.growing + Bytes(r)
            else n.objects == v.objects && n.growing == v.growing + Bytes(r)
  {
    var cmds := Steps(m.view, r, spare);
    assert Grows(cmds[0].op) ==> Added(cmds[0].op) == Bytes(r);
    if |cmds| == 1 {
      OneStep(m, cmds[0]);
      assert m.view.growing + [] == m.view.growing;
    } else {
      GrowAndFinish(m, cmds[0]);
      TwoSteps(m, cmds[0], cmds[1]);
    }
  }

  lemma {:induction false} TwoSteps(m: Machine, a: Cmd, b: Cmd)
    ensures Run(m, [a, b]) == Step(Step(m, a), b)
  {
    assert [a, b][1..] == [b];
    OneStep(Step(m, a), b);
  }

  /** So any series of requests is a run of the machine, and none of them aborts. */
  lemma {:induction false} ServeAllIsRun(m: Machine, calls: seq<(Request, Spare)>, k: nat)
    requires Inv(m.stack, m.view, k) && Formed(m.stack)
    requires FreesLive(m, calls) && Supplied(m, AllSteps(m, calls), k)
    ensures ServeAll(m.stack, calls) == (Some(Run(m, AllSteps(m, calls)).stack), Replies(m, calls))
    decreases |calls|
  {
    if calls != [] {
      var cmds := Steps(m.view, calls[0].0, calls[0].1);
      var next := Run(m, cmds);
      RunSplit(m, cmds, AllSteps(next, calls[1..]), k);
      ServeIsSteps(m, calls[0].0, calls[0].1, k);
      RunRefines(m, cmds, k);
      InvFormed(next.stack, next.view, k);
      ServeAllIsRun(next, calls[1..], k);
    }
  }

  class ControlBlock {
    var chunks: seq<Chunk>
    var objectBase: nat
    var nextFree: nat
    var chunkLimit: nat
    var temp: int
    var alignmentMask: nat
    var maybeEmpty: bool
    var mem: Memory

    constructor (spare: Spare, mask: nat)
      ensures State() == Begin(spare, mask) && Formed(State())
    {
      chunks, temp := [spare.chunk], 0;
      objectBase, nextFree, chunkLimit := spare.chunk.First(), spare.chunk.First(), spare.chunk.limit;
      alignmentMask, maybeEmpty := mask, false;
      mem := Store(map[], spare.chunk.First(), spare.bytes);
    }

    /** Everything but the scratch field. */
    function State(): Stack
      reads this
    {
      Stack(chunks, objectBase, nextFree, chunkLimit, alignmentMask, maybeEmpty, mem)
    }

    /** Address of the current chunk. */
    function Current(): nat
      requires chunks != []
      reads this
    {
      Last(chunks).addr
    }

    /** `_obstack_newchunk` */
    method NewChunk(spare: Spare)
      requires Formed(State())
      modifies this
      ensures State() == Obstack.NewChunk(old(State()), spare) && Formed(State())
      ensures temp == old(temp)
    {
      var size := nextFree - objectBase;
      var previous, alone := Last(chunks), !maybeEmpty && objectBase == Last(chunks).First();
      var obj := Load(mem, objectBase, size);
      if alone {
        chunks := chunks[..|chunks| - 1];
      }
      chunks := chunks + [spare.chunk];
      mem := Store(mem, spare.chunk.First(), spare.bytes);
      mem := Store(mem, spare.chunk.First(), obj);
      if alone {
        mem := Release(mem, previous);
      }
      objectBase, chunkLimit := spare.chunk.First(), spare.chunk.limit;
      nextFree := objectBase + size;
      maybeEmpty := false;
    }

    /** `_obstack_free`; false if it aborts. */
    method FreeSlowly(obj: nat) returns (found: bool)
      modifies this
      ensures found <==> Obstack.FreeSlowly(old(State()), obj).Some?
      ensures found ==> State() == Obstack.FreeSlowly(old(State()), obj).value && Formed(State())
    {
      while chunks != [] && !Holds(Last(chunks), obj)
        invariant Obstack.FreeSlowly(State(), obj) == Obstack.FreeSlowly(old(State()), obj)
        decreases |chunks|
      {
        mem := Release(mem, Last(chunks));
        chunks, maybeEmpty := chunks[..|chunks| - 1], true;
      }
      found := chunks != [];
      if found {
        objectBase, nextFree, chunkLimit := obj, obj, Last(chunks).limit;
      }
    }

    method Put(data: seq<Byte>)
      requires Formed(State())
      modifies this`mem, this`nextFree
      ensures State() == Append(old(State()), data) && Formed(State())
    {
      mem := Store(mem, nextFree, data);
      nextFree := nextFree + |data|;
    }

    // ---- GNU C forms ----

    method GnuMakeRoom(length: nat, spare: Spare)
      requires Formed(State())
      modifies this
      ensures State() == MakeRoom(old(State()), length, spare) && Formed(State())
    {
      if chunkLimit - nextFree < length {
        NewChunk(spare);
      }
    }

    method GnuGrow(where: seq<Byte>, spare: Spare)
      requires Formed(State())
      modifies this
      ensures State() == Grow(old(State()), where, spare) && Formed(State())
    {
      if nextFree + |where| > chunkLimit {
        NewChunk(spare);
      }
      Put(where);
    }

    method GnuGrow0(where: seq<Byte>, spare: Spare)
      requires Formed(State())
      modifies this
      ensures State() == Grow0(old(State()), where, spare) && Formed(State())
    {
      if nextFree + |where| + 1 > chunkLimit {
        NewChunk(spare);
      }
      Put(where);
      Put([0]);
    }

    method GnuOneGrow(datum: Byte, spare: Spare)
      requires Formed(State())
      modifies this
      ensures State() == OneGrow(old(State()), datum, spare) && Formed(State())
    {
      if nextFree + 1 > chunkLimit {
        NewChunk(spare);
      }
      Put([datum]);
    }

    method GnuBlank(length: nat, spare: Spare)
      requires Formed(State())
      modifies this
      ensures State() == Blank(old(State()), length, spare) && Formed(State())
    {
      if chunkLimit - nextFree < length {
        NewChunk(spare);
      }
      nextFree := nextFree + length;
    }

    method GnuFinish() returns (value: nat)
      requires Formed(State())
      modifies this
      ensures State() == Finish(old(State())) && value == old(objectBase) && Formed(State())
    {
      value := objectBase;
      if nextFree == value {
        maybeEmpty := true;
      }
      nextFree := AlignUp(nextFree, alignmentMask);
      if nextFree - Current() > chunkLimit - Current() {
        nextFree := chunkLimit;
      }
      objectBase := nextFree;
    }

    method GnuFree(obj: nat) returns (done: bool)
      requires Formed(State())
      modifies this
      ensures done <==> Free(old(State()), obj).Some?
      ensures done ==> State() == Free(old(State()), obj).value && Formed(State())
    {
      if obj > Current() && obj < chunkLimit {
        objectBase, nextFree, done := obj, obj, true;
      } else {
        done := FreeSlowly(obj);
      }
    }

    method Gnu(r: Request, spare: Spare) returns (done: bool, value: nat)
      requires Formed(State())
      modifies this
      ensures var a := Serve(old(State()), r, spare);
              (done <==> a.Some?) && (done ==> Formed(State()) && (State(), value) == a.value)
    {
      done, value := true, 0;
      match r
      case MakeRoomOf(n) => GnuMakeRoom(n, spare);
      case GrowBy(data) => GnuGrow(data, spare);
      case Grow0By(data) => GnuGrow0(data, spare);
      case OneGrowBy(b) => GnuOneGrow(b, spare);
      case BlankOf(n) => GnuBlank(n, spare);
      case Finishing => value := GnuFinish();
      case Allocating(n) => GnuBlank(n, spare); value := GnuFinish();
      case Copying(data) => GnuGrow(data, spare); value := GnuFinish();
      case Copying0(data) => GnuGrow0(data, spare); value := GnuFinish();
      case FreeingAt(obj) => done := GnuFree(obj);
    }

    // ---- Portable forms ----

    method PortableMakeRoom(length: nat, spare: Spare)
      requires Formed(State())
      modifies this
      ensures State() == MakeRoom(old(State()), length, spare) && Formed(State())
    {
      temp := length;
      if nextFree + temp > chunkLimit {
        NewChunk(spare);
      }
    }

    method PortableGrow(where: seq<Byte>, spare: Spare)
      requires Formed(State())
      modifies this
      ensures State() == Grow(old(State()), where, spare) && Formed(State())
    {
      temp := |where|;
      if nextFree + temp > chunkLimit {
        NewChunk(spare);
      }
      Put(where);
    }

    method PortableGrow0(where: seq<Byte>, spare: Spare)
      requires Formed(State())
      modifies this
      ensures State() == Grow0(old(State()), where, spare) && Formed(State())
    {
      temp := |where|;
      if nextFree + temp + 1 > chunkLimit {
        NewChunk(spare);
      }
      Put(where);
      Put([0]);
    }

    method PortableOneGrow(datum: Byte, spare: Spare)
      requires Formed(State())
      modifies this
      ensures State() == OneGrow(old(State()), datum, spare) && Formed(State())
    {
      if nextFree + 1 > chunkLimit {
        NewChunk(spare);
      }
      Put([datum]);
    }

    method PortableBlank(length: nat, spare: Spare)
      requires Formed(State())
      modifies this
      ensures State() == Blank(old(State()), length, spare) && Formed(State())
    {
      temp := length;
      if chunkLimit - nextFree < temp {
        NewChunk(spare);
      }
      nextFree := nextFree + temp;
    }

    method PortableFinish() returns (value: nat)
      requires Formed(State())
      modifies this
      ensures State() == Finish(old(State())) && value == old(objectBase) && Formed(State())
    {
      if nextFree == objectBase {
        maybeEmpty := true;
      }
      temp := objectBase;
      nextFree := AlignUp(nextFree, alignmentMask);
      if nextFree - Current() > chunkLimit - Current() {
        nextFree := chunkLimit;
      }
      objectBase := nextFree;
      value := temp;
    }

    method PortableFree(obj: nat) returns (done: bool)
      requires Formed(State())
      modifies this
      ensures done <==> Free(old(State()), obj).Some?
      ensures done ==> State() == Free(old(State()), obj).value && Formed(State())
    {
      temp := obj - Current();
      if temp > 0 && temp < chunkLimit - Current() {
        objectBase, nextFree, done := temp + Current(), temp + Current(), true;
      } else {
        done := FreeSlowly(temp + Current());
      }
    }

    method Portable(r: Request, spare: Spare) returns (done: bool, value: nat)
      requires Formed(State())
      modifies this
      ensures var a := Serve(old(State()), r, spare);
              (done <==> a.Some?) && (done ==> Formed(State()) && (State(), value) == a.value)
    {
      done, value := true, 0;
      match r
      case MakeRoomOf(n) => PortableMakeRoom(n, spare);
      case GrowBy(data) => PortableGrow(data, spare);
      case Grow0By(data) => PortableGrow0(data, spare);
      case OneGrowBy(b) => PortableOneGrow(b, spare);
      case BlankOf(n) => PortableBlank(n, spare);
      case Finishing => value := PortableFinish();
      case Allocating(n) => PortableBlank(n, spare); value := PortableFinish();
      case Copying(data) => PortableGrow(data, spare); value := PortableFinish();
      case Copying0(data) => PortableGrow0(data, spare); value := PortableFinish();
      case FreeingAt(obj) => done := PortableFree(obj);
    }

    // ---- Series of requests ----

    method Expand(family: Family, r: Request, spare: Spare) returns (done: bool, value: nat)
      requires Formed(State())
      modifies this
      ensures var a := Serve(old(State()), r, spare);
              (done <==> a.Some?) && (done ==> Formed(State()) && (State(), value) == a.value)
    {
      if family == GnuC {
        done, value := Gnu(r, spare);
      } else {
        done, value := Portable(r, spare);
      }
    }

    /** Serves requests until one aborts. */
    method Perform(family: Family, calls: seq<(Request, Spare)>) returns (done: bool, values: seq<nat>)
      requires Formed(State())
      modifies this
      ensures var (end, answers) := ServeAll(old(State()), calls);
              values == answers && done == end.Some? && (done ==> State() == end.value)
    {
      done, values := true, [];
      var i := 0;
      assert calls[i..] == calls;
      while i < |calls|
        invariant 0 <= i <= |calls| && Formed(State())
        invariant ServeAll(old(State()), calls).0 == ServeAll(State(), calls[i..]).0
        invariant ServeAll(old(State()), calls).1 == values + ServeAll(State(), calls[i..]).1
      {
        assert calls[i..][1..] == calls[i + 1..];
        var value;
        done, value := Expand(family, calls[i].0, calls[i].1);
        if !done {
          return;
        }
        values, i := values + [value], i + 1;
      }
    }

    /** Served by either family, requests that free only live objects never abort; the memory
        shows exactly the stack of byte strings they describe, and each finished object is where
        its request said. */
    method PerformLawfully(family: Family, calls: seq<(Request, Spare)>, ghost v: View, ghost k: nat)
      returns (done: bool, values: seq<nat>, ghost v': View)
      requires Inv(State(), v, k)
      requires FreesLive(Machine(State(), v), calls)
      requires Supplied(Machine(State(), v), AllSteps(Machine(State(), v), calls), k)
      modifies this
      ensures var m := Machine(old(State()), v);
              && done
              && Machine(State(), v') == Run(m, AllSteps(m, calls))
              && Inv(State(), v', k)
              && Contents(v') == StringsRun(Contents(v), AllSteps(m, calls))
              && values == Replies(m, calls)
    {
      ghost var m := Machine(State(), v);
      InvFormed(State(), v, k);
      ServeAllIsRun(m, calls, k);
      RunRefines(m, AllSteps(m, calls), k);
      v' := Run(m, AllSteps(m, calls)).view;
      done, values := Perform(family, calls);
    }
  }

  /** The two families are interchangeable: from equal control blocks the same requests return
      the same objects, leave equal control blocks and memory, and abort together. */
  method SideBySide(gnu: ControlBlock, portable: ControlBlock, calls: seq<(Request, Spare)>)
    returns (done: bool, values: seq<nat>, done': bool, values': seq<nat>)
    requires gnu != portable && gnu.State() == portable.State() && Formed(gnu.State())
    modifies gnu, portable
    ensures done == done' && values == values'
    ensures done ==> |values| == |calls| && gnu.State() == portable.State()
    ensures (if done then Some(gnu.State()) else None, values) == ServeAll(old(gnu.State()), calls)
  {
    done, values := gnu.Perform(GnuC, calls);
    done', values' := portable.Perform(PortableC, calls);
  }
}
