/** The object stack of obstack.h: a bump allocator with one growing object, over a flat memory.
    The two functions the header only declares, `_obstack_newchunk` and `_obstack_free`, follow
    what its comments promise of them. */
module Obstack {
  import opened Basics
  import opened Bits

  type Byte = x: int | 0 <= x < 256

  type Memory = map<nat, Byte>

  /** Offset of `contents` in `struct _obstack_chunk` where pointers take four bytes. */
  const HEADER: nat := 8

  datatype Chunk = Chunk(addr: nat, limit: nat) {
    function First(): nat { addr + HEADER }
  }

  /** What the chunk allocator hands out: a place, and the bytes found there. */
  datatype Spare = Spare(chunk: Chunk, bytes: seq<Byte>)

  /** `struct obstack`; the chunks linked by `prev` are listed oldest first. */
  datatype Stack = Stack(chunks: seq<Chunk>, objectBase: nat, nextFree: nat, chunkLimit: nat,
                         alignmentMask: nat, maybeEmpty: bool, mem: Memory)

  // ---- Memory ----

  function Load(mem: Memory, a: nat, n: nat): seq<Byte> {
    seq(n, i requires 0 <= i => if a + i in mem then mem[a + i] else 0)
  }

  /** `memcpy` */
  function Store(mem: Memory, a: nat, data: seq<Byte>): (r: Memory)
    ensures forall x :: x in r <==> x in mem || a <= x < a + |data|
    ensures forall i :: 0 <= i < |data| ==> r[a + i] == data[i]
    ensures forall x :: x in mem && !(a <= x < a + |data|) ==> r[x] == mem[x]
  {
    if data == [] then mem
    else
      var n := |data| - 1;
      Store(mem, a, data[..n])[a + n := data[n]]
  }

  function Release(mem: Memory, c: Chunk): Memory {
    map x | x in mem && !(c.addr <= x < c.limit) :: mem[x]
  }

  // ---- The macros ----

  function Room(s: Stack): int { s.chunkLimit - s.nextFree }

  function ObjectSize(s: Stack): int { s.nextFree - s.objectBase }

  /** The object under construction is alone in its chunk, so the chunk need not be kept. */
  predicate AloneInChunk(s: Stack)
    requires s.chunks != []
  {
    !s.maybeEmpty && s.objectBase == Last(s.chunks).First()
  }

  predicate Formed(s: Stack) {
    s.chunks != [] && s.objectBase <= s.nextFree
  }

  /** Moves the growing object to the start of a new chunk. */
  function NewChunk(s: Stack, spare: Spare): Stack
    requires Formed(s)
  {
    var base, size := spare.chunk.First(), s.nextFree - s.objectBase;
    var filled := Store(s.mem, base, spare.bytes);
    var moved := Store(filled, base, Load(s.mem, s.objectBase, size));
    var alone := AloneInChunk(s);
    Stack((if alone then s.chunks[..|s.chunks| - 1] else s.chunks) + [spare.chunk],
          base, base + size, spare.chunk.limit, s.alignmentMask, false,
          if alone then Release(moved, Last(s.chunks)) else moved)
  }

  function MakeRoom(s: Stack, length: nat, spare: Spare): (r: Stack)
    requires Formed(s)
    ensures Formed(r)
  {
    if s.chunkLimit - s.nextFree < length then NewChunk(s, spare) else s
  }

  function Append(s: Stack, data: seq<Byte>): Stack {
    s.(mem := Store(s.mem, s.nextFree, data), nextFree := s.nextFree + |data|)
  }

  function Grow(s: Stack, data: seq<Byte>, spare: Spare): Stack
    requires Formed(s)
  {
    Append(MakeRoom(s, |data|, spare), data)
  }

  function Grow0(s: Stack, data: seq<Byte>, spare: Spare): Stack
    requires Formed(s)
  {
    Append(Append(MakeRoom(s, |data| + 1, spare), data), [0])
  }

  function OneGrow(s: Stack, b: Byte, spare: Spare): Stack
    requires Formed(s)
  {
    Append(MakeRoom(s, 1, spare), [b])
  }

  function Blank(s: Stack, length: nat, spare: Spare): Stack
    requires Formed(s)
  {
    var r := MakeRoom(s, length, spare);
    r.(nextFree := r.nextFree + length)
  }

  /** `p` rounded up by the mask. */
  function AlignUp(p: nat, mask: nat): nat { AndNot(p + mask, mask) }

  function Finish(s: Stack): Stack
    requires Formed(s)
  {
    var up := AlignUp(s.nextFree, s.alignmentMask);
    var next := if up > s.chunkLimit then s.chunkLimit else up;
    s.(nextFree := next, objectBase := next, maybeEmpty := s.maybeEmpty || s.nextFree == s.objectBase)
  }

  predicate Holds(c: Chunk, obj: nat) { c.addr < obj <= c.limit }

  function DropChunk(s: Stack): Stack
    requires s.chunks != []
  {
    s.(chunks := s.chunks[..|s.chunks| - 1], maybeEmpty := true, mem := Release(s.mem, Last(s.chunks)))
  }

  /** Drops chunks until one holds the object; with none left the program aborts. */
  function FreeSlowly(s: Stack, obj: nat): (r: Option<Stack>)
    ensures r.Some? ==> Formed(r.value)
    decreases |s.chunks|
  {
    if s.chunks == [] then None
    else if Holds(Last(s.chunks), obj) then
      Some(s.(objectBase := obj, nextFree := obj, chunkLimit := Last(s.chunks).limit))
    else
      FreeSlowly(DropChunk(s), obj)
  }

  function Free(s: Stack, obj: nat): Option<Stack>
    requires Formed(s)
  {
    if Last(s.chunks).addr < obj < s.chunkLimit then Some(s.(objectBase := obj, nextFree := obj))
    else FreeSlowly(s, obj)
  }

  // ---- What the stack means ----

  /** A byte of an object; None where the client asked for blank space. */
  type Cell = Option<Byte>

  datatype Obj = Obj(home: nat, start: nat, cells: seq<Cell>) {
    function End(): nat { start + |cells| }
  }

  datatype View = View(objects: seq<Obj>, growing: seq<Cell>)

  function Known(data: seq<Byte>): seq<Cell> {
    seq(|data|, i requires 0 <= i < |data| => Some(data[i]))
  }

  function Blanks(n: nat): seq<Cell> { seq(n, _ => None) }

  ghost predicate MultipleOf(x: nat, a: nat)
    requires a >= 1
  {
    x % a == 0
  }

  ghost predicate Aligned(x: nat, k: nat) { MultipleOf(x, Pow2(k)) }

  ghost predicate ShowsAt(mem: Memory, x: nat, c: Cell) {
    x in mem && (c.Some? ==> mem[x] == c.value)
  }

  ghost predicate Shows(mem: Memory, a: nat, cells: seq<Cell>) {
    forall i :: 0 <= i < |cells| ==> ShowsAt(mem, a + i, cells[i])
  }

  ghost predicate Apart(c: Chunk, d: Chunk) { c.limit <= d.addr || d.limit <= c.addr }

  ghost predicate ChunkOk(c: Chunk, mem: Memory, k: nat) {
    c.First() <= c.limit && Aligned(c.First(), k) && forall x :: c.First() <= x < c.limit ==> x in mem
  }

  ghost predicate ChunksOk(s: Stack, k: nat) {
    && s.chunks != []
    && (forall i :: 0 <= i < |s.chunks| ==> ChunkOk(s.chunks[i], s.mem, k))
    && (forall i, j :: 0 <= i < j < |s.chunks| ==> Apart(s.chunks[i], s.chunks[j]))
  }

  ghost predicate PointersOk(s: Stack, growing: seq<Cell>, k: nat)
    requires s.chunks != []
  {
    && s.alignmentMask == Pow2(k) - 1
    && s.chunkLimit == Last(s.chunks).limit
    && Last(s.chunks).First() <= s.objectBase <= s.nextFree <= s.chunkLimit
    && |growing| == s.nextFree - s.objectBase
    && Shows(s.mem, s.objectBase, growing)
    && (Aligned(s.objectBase, k) || (s.objectBase == s.chunkLimit && growing == []))
  }

  /** The finished object lies in its chunk, below the growing one, and holds its bytes. */
  ghost predicate ObjOk(s: Stack, o: Obj, k: nat)
    requires s.chunks != []
  {
    && o.home < |s.chunks|
    && s.chunks[o.home].First() <= o.start
    && o.End() <= (if o.home == |s.chunks| - 1 then s.objectBase else s.chunks[o.home].limit)
    && Shows(s.mem, o.start, o.cells)
    && (Aligned(o.start, k) || (o.start == s.chunks[o.home].limit && o.cells == []))
    && (o.home == |s.chunks| - 1 && !s.maybeEmpty ==> o.cells != [])
  }

  ghost predicate InOrder(o: Obj, p: Obj) {
    o.home < p.home || (o.home == p.home && o.End() <= p.start)
  }

  ghost predicate ObjectsOk(s: Stack, objects: seq<Obj>, k: nat)
    requires s.chunks != []
  {
    && (forall i :: 0 <= i < |objects| ==> ObjOk(s, objects[i], k))
    && (forall i, j :: 0 <= i < j < |objects| ==> InOrder(objects[i], objects[j]))
  }

  ghost predicate Inv(s: Stack, v: View, k: nat) {
    ChunksOk(s, k) && PointersOk(s, v.growing, k) && ObjectsOk(s, v.objects, k)
  }

  // ---- Alignment ----

  /** Rounding by a mask of k low bits gives the least multiple of 2^k not below `p`. */
  lemma {:induction false} AlignUpIsLeast(p: nat, k: nat, m: nat)
    ensures var r := AlignUp(p, Pow2(k) - 1);
            Aligned(r, k) && p <= r && (Aligned(m, k) && p <= m ==> r <= m)
  {
    ClearLowBits(p + Pow2(k) - 1, k);
    LeastMultiple(p, Pow2(k), AlignUp(p, Pow2(k) - 1), m);
  }

  lemma {:induction false} LeastMultiple(p: nat, a: nat, r: nat, m: nat)
    requires a >= 1 && r == (p + a - 1) - (p + a - 1) % a
    ensures MultipleOf(r, a) && p <= r && (MultipleOf(m, a) && p <= m ==> r <= m)
  {
    var x := p + a - 1;
    var q, n := x / a, m / a;
    assert r == a * q;
    assert m == a * n + m % a;
    RemainderOf(r, a, q, 0);
    if a * n < a * q {
      NextMultiple(a, n, q);
    }
  }

  lemma {:induction false} NextMultiple(a: nat, n: int, q: int)
    requires a * n < a * q
    ensures a * n + a <= a * q
  {
    assert a * (n + 1) == a * n + a;
    if q <= n {
      MulMonotone(a, q, n);
    } else {
      MulMonotone(a, n + 1, q);
    }
  }

  // ---- Each macro keeps the meaning ----

  lemma {:induction false} StoreKeeps(mem: Memory, a: nat, data: seq<Byte>, at: nat, cells: seq<Cell>)
    requires Shows(mem, at, cells) && (at + |cells| <= a || a + |data| <= at)
    ensures Shows(Store(mem, a, data), at, cells)
  {
    var r := Store(mem, a, data);
    forall i | 0 <= i < |cells| ensures ShowsAt(r, at + i, cells[i]) {
      assert ShowsAt(mem, at + i, cells[i]);
    }
  }

  /** There is room after the growing object for this data. */
  lemma {:induction false} AppendInv(s: Stack, v: View, k: nat, data: seq<Byte>)
    requires Inv(s, v, k) && s.nextFree + |data| <= s.chunkLimit
    requires Aligned(s.objectBase, k) || data == []
    ensures Inv(Append(s, data), View(v.objects, v.growing + Known(data)), k)
  {
    var r := Append(s, data);
    var cur := Last(s.chunks);
    forall i | 0 <= i < |v.objects| ensures ObjOk(r, v.objects[i], k) {
      var o := v.objects[i];
      assert ObjOk(s, o, k);
      if o.home != |s.chunks| - 1 {
        assert Apart(s.chunks[o.home], cur);
      }
      StoreKeeps(s.mem, s.nextFree, data, o.start, o.cells);
    }
    forall i | 0 <= i < |r.chunks| ensures ChunkOk(r.chunks[i], r.mem, k) {
      assert ChunkOk(s.chunks[i], s.mem, k);
    }
    StoreKeeps(s.mem, s.nextFree, data, s.objectBase, v.growing);
  }

  lemma {:induction false} BlankInv(s: Stack, v: View, k: nat, n: nat)
    requires Inv(s, v, k) && s.nextFree + n <= s.chunkLimit
    requires Aligned(s.objectBase, k) || n == 0
    ensures Inv(s.(nextFree := s.nextFree + n), View(v.objects, v.growing + Blanks(n)), k)
  {
    var r := s.(nextFree := s.nextFree + n);
    assert ChunkOk(Last(s.chunks), s.mem, k);
    forall i | 0 <= i < |v.objects| ensures ObjOk(r, v.objects[i], k) {
      assert ObjOk(s, v.objects[i], k);
    }
  }

  /** Finishing rounds up or clamps, and the object stays where it grew. */
  lemma {:induction false} FinishInv(s: Stack, v: View, k: nat)
    requires Inv(s, v, k)
    ensures Inv(Finish(s), View(v.objects + [Obj(|s.chunks| - 1, s.objectBase, v.growing)], []), k)
  {
    var r := Finish(s);
    AlignUpIsLeast(s.nextFree, k, 0);
    var objects := v.objects + [Obj(|s.chunks| - 1, s.objectBase, v.growing)];
    forall i | 0 <= i < |objects| ensures ObjOk(r, objects[i], k) {
      assert i < |v.objects| ==> ObjOk(s, v.objects[i], k);
    }
    forall i, j | 0 <= i < j < |objects| ensures InOrder(objects[i], objects[j]) {
      assert ObjOk(s, v.objects[i], k);
      assert j < |v.objects| ==> InOrder(v.objects[i], v.objects[j]);
    }
  }

  /** The chunk allocator's side: an aligned chunk that is large enough and overlaps no other. */
  ghost predicate SpareOk(s: Stack, length: nat, spare: Spare, k: nat)
    requires Formed(s)
  {
    var c := spare.chunk;
    && c.First() + (s.nextFree - s.objectBase) + length <= c.limit
    && |spare.bytes| == c.limit - c.First()
    && Aligned(c.First(), k)
    && forall i :: 0 <= i < |s.chunks| ==> Apart(s.chunks[i], c)
  }

  lemma {:induction false} InvFormed(s: Stack, v: View, k: nat)
    requires Inv(s, v, k)
    ensures Formed(s)
  {
  }

  /** The chunk that is given up holds no finished object, not even an empty one. */
  lemma {:induction false} AloneMeansNoObjects(s: Stack, v: View, k: nat, i: nat)
    requires Inv(s, v, k) && AloneInChunk(s) && i < |v.objects|
    ensures v.objects[i].home < |s.chunks| - 1
  {
    assert ObjOk(s, v.objects[i], k);
  }

  lemma {:induction false} ReleaseKeeps(mem: Memory, c: Chunk, at: nat, cells: seq<Cell>)
    requires Shows(mem, at, cells) && (at + |cells| <= c.addr || c.limit <= at)
    ensures Shows(Release(mem, c), at, cells)
  {
    forall i | 0 <= i < |cells| ensures ShowsAt(Release(mem, c), at + i, cells[i]) {
      assert ShowsAt(mem, at + i, cells[i]);
    }
  }

  /** Bytes copied to another place show what they showed. */
  lemma {:induction false} CopyShows(mem: Memory, from: nat, cells: seq<Cell>, mem': Memory, to: nat)
    requires Shows(mem, from, cells)
    ensures Shows(Store(mem', to, Load(mem, from, |cells|)), to, cells)
  {
    var data := Load(mem, from, |cells|);
    forall i | 0 <= i < |cells| ensures ShowsAt(Store(mem', to, data), to + i, cells[i]) {
      assert ShowsAt(mem, from + i, cells[i]);
      assert Store(mem', to, data)[to + i] == data[i];
    }
  }

  lemma {:induction false} NewChunkKeeps(s: Stack, spare: Spare, at: nat, cells: seq<Cell>)
    requires Formed(s) && Shows(s.mem, at, cells)
    requires var c := spare.chunk;
             && (at + |cells| <= c.addr || c.limit <= at)
             && c.First() + |spare.bytes| <= c.limit && c.First() + (s.nextFree - s.objectBase) <= c.limit
    requires AloneInChunk(s) ==> at + |cells| <= Last(s.chunks).addr || Last(s.chunks).limit <= at
    ensures Shows(NewChunk(s, spare).mem, at, cells)
  {
    var base, obj := spare.chunk.First(), Load(s.mem, s.objectBase, s.nextFree - s.objectBase);
    var filled := Store(s.mem, base, spare.bytes);
    StoreKeeps(s.mem, base, spare.bytes, at, cells);
    StoreKeeps(filled, base, obj, at, cells);
    if AloneInChunk(s) {
      ReleaseKeeps(Store(filled, base, obj), Last(s.chunks), at, cells);
    }
  }

  lemma {:induction false} NewChunkObject(s: Stack, v: View, k: nat, spare: Spare, o: Obj)
    requires ChunksOk(s, k) && PointersOk(s, v.growing, k) && ObjOk(s, o, k) && SpareOk(s, 0, spare, k)
    ensures ObjOk(NewChunk(s, spare), o, k)
  {
    var home := s.chunks[o.home];
    assert ChunkOk(home, s.mem, k) && Apart(home, spare.chunk);
    if AloneInChunk(s) {
      assert o.home < |s.chunks| - 1 && Apart(home, Last(s.chunks));
    }
    NewChunkKeeps(s, spare, o.start, o.cells);
  }

  lemma {:induction false} NewChunkChunks(s: Stack, k: nat, spare: Spare)
    requires ChunksOk(s, k) && Formed(s) && SpareOk(s, 0, spare, k)
    ensures ChunksOk(NewChunk(s, spare), k)
  {
    var r := NewChunk(s, spare);
    forall i | 0 <= i < |r.chunks| ensures ChunkOk(r.chunks[i], r.mem, k) {
      if i < |r.chunks| - 1 {
        assert ChunkOk(s.chunks[i], s.mem, k);
        assert AloneInChunk(s) ==> Apart(s.chunks[i], Last(s.chunks));
      } else {
        assert Apart(Last(s.chunks), spare.chunk);
      }
    }
  }

  lemma {:induction false} NewChunkShows(s: Stack, growing: seq<Cell>, spare: Spare)
    requires Formed(s) && Shows(s.mem, s.objectBase, growing) && |growing| == s.nextFree - s.objectBase
    requires Apart(Last(s.chunks), spare.chunk) && spare.chunk.First() + |growing| <= spare.chunk.limit
    ensures Shows(NewChunk(s, spare).mem, spare.chunk.First(), growing)
  {
    var base, obj := spare.chunk.First(), Load(s.mem, s.objectBase, |growing|);
    var filled := Store(s.mem, base, spare.bytes);
    CopyShows(s.mem, s.objectBase, growing, filled, base);
    if AloneInChunk(s) {
      ReleaseKeeps(Store(filled, base, obj), Last(s.chunks), base, growing);
    }
  }

  lemma {:induction false} NewChunkPointers(s: Stack, growing: seq<Cell>, k: nat, spare: Spare)
    requires ChunksOk(s, k) && PointersOk(s, growing, k) && SpareOk(s, 0, spare, k)
    ensures PointersOk(NewChunk(s, spare), growing, k)
  {
    assert Apart(Last(s.chunks), spare.chunk);
    NewChunkShows(s, growing, spare);
  }

  /** Moving to a new chunk keeps every finished object and the bytes of the growing one. */
  lemma {:induction false} NewChunkInv(s: Stack, v: View, k: nat, spare: Spare)
    requires Inv(s, v, k) && SpareOk(s, 0, spare, k)
    ensures Inv(NewChunk(s, spare), v, k)
  {
    NewChunkChunks(s, k, spare);
    NewChunkPointers(s, v.growing, k, spare);
    forall i | 0 <= i < |v.objects| ensures ObjOk(NewChunk(s, spare), v.objects[i], k) {
      NewChunkObject(s, v, k, spare, v.objects[i]);
    }
  }

  // ---- Unwinding ----

  /** What is left of ObjOk while chunks above the freed object are being dropped. */
  ghost predicate Held(s: Stack, o: Obj, k: nat) {
    && o.home < |s.chunks|
    && s.chunks[o.home].First() <= o.start && o.End() <= s.chunks[o.home].limit
    && Shows(s.mem, o.start, o.cells)
    && (Aligned(o.start, k) || (o.start == s.chunks[o.home].limit && o.cells == []))
    && (o.home == |s.chunks| - 1 && !s.maybeEmpty ==> o.cells != [])
  }

  ghost predicate Below(s: Stack, objects: seq<Obj>, o: Obj, k: nat) {
    && (forall i :: 0 <= i < |objects| ==> Held(s, objects[i], k))
    && (forall i :: 0 <= i < |objects| ==> InOrder(objects[i], o))
    && (forall i, j :: 0 <= i < j < |objects| ==> InOrder(objects[i], objects[j]))
  }

  lemma {:induction false} FoundAtHome(s: Stack, o: Obj, k: nat)
    requires ChunksOk(s, k) && Held(s, o, k)
    ensures Holds(Last(s.chunks), o.start) <==> o.home == |s.chunks| - 1
  {
    if o.home < |s.chunks| - 1 {
      assert Apart(s.chunks[o.home], Last(s.chunks));
    }
  }

  lemma {:induction false} DropKeepsChunks(s: Stack, k: nat)
    requires ChunksOk(s, k) && |s.chunks| > 1
    ensures ChunksOk(DropChunk(s), k)
  {
    var r := DropChunk(s);
    forall i | 0 <= i < |r.chunks| ensures ChunkOk(r.chunks[i], r.mem, k) {
      assert ChunkOk(s.chunks[i], s.mem, k) && Apart(s.chunks[i], Last(s.chunks));
    }
  }

  lemma {:induction false} DropKeepsHeld(s: Stack, o: Obj, k: nat)
    requires ChunksOk(s, k) && Held(s, o, k) && o.home < |s.chunks| - 1
    ensures Held(DropChunk(s), o, k)
  {
    assert Apart(s.chunks[o.home], Last(s.chunks));
  }

  lemma {:induction false} CutBack(s: Stack, objects: seq<Obj>, o: Obj, k: nat)
    requires ChunksOk(s, k) && s.alignmentMask == Pow2(k) - 1 && Held(s, o, k) && Below(s, objects, o, k)
    requires o.home == |s.chunks| - 1
    ensures Inv(s.(objectBase := o.start, nextFree := o.start, chunkLimit := Last(s.chunks).limit),
                View(objects, []), k)
  {
    var r := s.(objectBase := o.start, nextFree := o.start, chunkLimit := Last(s.chunks).limit);
    forall i | 0 <= i < |objects| ensures ObjOk(r, objects[i], k) {
      assert Held(s, objects[i], k) && InOrder(objects[i], o);
    }
  }

  lemma {:induction false} FreeSlowlyInv(s: Stack, objects: seq<Obj>, o: Obj, k: nat)
    requires ChunksOk(s, k) && s.alignmentMask == Pow2(k) - 1 && Held(s, o, k) && Below(s, objects, o, k)
    ensures var r := FreeSlowly(s, o.start); r.Some? && Inv(r.value, View(objects, []), k)
    decreases |s.chunks|
  {
    FoundAtHome(s, o, k);
    if o.home == |s.chunks| - 1 {
      CutBack(s, objects, o, k);
    } else {
      DropKeepsChunks(s, k);
      DropKeepsHeld(s, o, k);
      forall i | 0 <= i < |objects| ensures Held(DropChunk(s), objects[i], k) {
        assert Held(s, objects[i], k) && InOrder(objects[i], o);
        DropKeepsHeld(s, objects[i], k);
      }
      FreeSlowlyInv(DropChunk(s), objects, o, k);
    }
  }

  /** Freeing any finished object leaves exactly the earlier ones, unmoved and unchanged, and
      nothing growing. */
  lemma {:induction false} FreeInv(s: Stack, v: View, k: nat, j: nat)
    requires Inv(s, v, k) && j < |v.objects|
    ensures var r := Free(s, v.objects[j].start);
            r.Some? && Inv(r.value, View(v.objects[..j], []), k)
  {
    var o, objects := v.objects[j], v.objects[..j];
    forall i | 0 <= i <= j ensures Held(s, v.objects[i], k) {
      assert ObjOk(s, v.objects[i], k);
    }
    assert Below(s, objects, o, k) by {
      assert forall i :: 0 <= i < |objects| ==> objects[i] == v.objects[i];
    }
    FoundAtHome(s, o, k);
    if Last(s.chunks).addr < o.start < s.chunkLimit {
      CutBack(s, objects, o, k);
    } else {
      FreeSlowlyInv(s, objects, o, k);
    }
  }

  // ---- Runs ----

  datatype Op =
    | RoomOp(length: nat)
    | GrowOp(data: seq<Byte>)
    | Grow0Op(data: seq<Byte>)
    | OneGrowOp(datum: Byte)
    | BlankOp(length: nat)
    | FinishOp
    | FreeOp(index: nat)        // free the object with this position among the live ones

  /** A macro call, and the chunk the allocator hands out should the call need one. */
  datatype Cmd = Cmd(op: Op, spare: Spare)

  datatype Machine = Machine(stack: Stack, view: View)

  function Need(op: Op): nat {
    match op
    case RoomOp(n) => n
    case GrowOp(data) => |data|
    case Grow0Op(data) => |data| + 1
    case OneGrowOp(_) => 1
    case BlankOp(n) => n
    case FinishOp => 0
    case FreeOp(_) => 0
  }

  /** What a call adds to the growing object. */
  function Added(op: Op): seq<Cell> {
    match op
    case GrowOp(data) => Known(data)
    case Grow0Op(data) => Known(data) + Known([0])
    case OneGrowOp(b) => Known([b])
    case BlankOp(n) => Blanks(n)
    case _ => []
  }

  function StackStep(s: Stack, v: View, cmd: Cmd): Stack
    requires Formed(s)
  {
    match cmd.op
    case RoomOp(n) => MakeRoom(s, n, cmd.spare)
    case GrowOp(data) => Grow(s, data, cmd.spare)
    case Grow0Op(data) => Grow0(s, data, cmd.spare)
    case OneGrowOp(b) => OneGrow(s, b, cmd.spare)
    case BlankOp(n) => Blank(s, n, cmd.spare)
    case FinishOp => Finish(s)
    case FreeOp(j) =>
      if j >= |v.objects| then s
      else match Free(s, v.objects[j].start)
        case None => s
        case Some(r) => r
  }

  function ViewStep(s: Stack, v: View, op: Op): View
    requires Formed(s)
  {
    match op
    case FinishOp => View(v.objects + [Obj(|s.chunks| - 1, s.objectBase, v.growing)], [])
    case FreeOp(j) => if j >= |v.objects| then v else View(v.objects[..j], [])
    case _ => View(v.objects, v.growing + Added(op))
  }

  function Step(m: Machine, cmd: Cmd): Machine {
    if Formed(m.stack) then Machine(StackStep(m.stack, m.view, cmd), ViewStep(m.stack, m.view, cmd.op)) else m
  }

  function Run(m: Machine, cmds: seq<Cmd>): Machine
    decreases |cmds|
  {
    if cmds == [] then m else Run(Step(m, cmds[0]), cmds[1..])
  }

  /** Whenever a chunk is asked for, the allocator does its part. */
  ghost predicate Supplied(m: Machine, cmds: seq<Cmd>, k: nat)
    decreases |cmds|
  {
    cmds == [] ||
    ((Formed(m.stack) && Room(m.stack) < Need(cmds[0].op) ==>
        SpareOk(m.stack, Need(cmds[0].op), cmds[0].spare, k)) &&
     Supplied(Step(m, cmds[0]), cmds[1..], k))
  }

  /** The stack of byte strings that an obstack stands for. */
  datatype Strings = Strings(finished: seq<seq<Cell>>, growing: seq<Cell>)

  function Contents(v: View): Strings {
    Strings(seq(|v.objects|, i requires 0 <= i < |v.objects| => v.objects[i].cells), v.growing)
  }

  function StringsStep(a: Strings, op: Op): Strings {
    match op
    case FinishOp => Strings(a.finished + [a.growing], [])
    case FreeOp(j) => if j >= |a.finished| then a else Strings(a.finished[..j], [])
    case _ => Strings(a.finished, a.growing + Added(op))
  }

  function StringsRun(a: Strings, cmds: seq<Cmd>): Strings
    decreases |cmds|
  {
    if cmds == [] then a else StringsRun(StringsStep(a, cmds[0].op), cmds[1..])
  }

  /** The first chunk, as `_obstack_begin` sets it up. */
  function Begin(spare: Spare, mask: nat): Stack {
    Stack([spare.chunk], spare.chunk.First(), spare.chunk.First(), spare.chunk.limit, mask, false,
          Store(map[], spare.chunk.First(), spare.bytes))
  }

  lemma {:induction false} BeginInv(spare: Spare, k: nat)
    requires spare.chunk.First() <= spare.chunk.limit && Aligned(spare.chunk.First(), k)
    requires |spare.bytes| == spare.chunk.limit - spare.chunk.First()
    ensures Inv(Begin(spare, Pow2(k) - 1), View([], []), k) && FlagExact(Begin(spare, Pow2(k) - 1), [])
    ensures OnlyChunks(Begin(spare, Pow2(k) - 1)) && NoneWasted(Begin(spare, Pow2(k) - 1), [])
  {
    var s := Begin(spare, Pow2(k) - 1);
    forall x | x in s.mem ensures Covered(s.chunks, x) {
      assert Covers(s.chunks[0], x);
    }
  }

  lemma {:induction false} MakeRoomInv(s: Stack, v: View, k: nat, n: nat, spare: Spare)
    requires Inv(s, v, k) && (Room(s) < n ==> SpareOk(s, n, spare, k))
    ensures var r := MakeRoom(s, n, spare);
            Inv(r, v, k) && r.nextFree + n <= r.chunkLimit && (Aligned(r.objectBase, k) || n == 0)
  {
    if Room(s) < n {
      NewChunkInv(s, v, k, spare);
    }
  }

  lemma {:induction false} Grow0Inv(r: Stack, v: View, k: nat, data: seq<Byte>)
    requires Inv(r, v, k) && r.nextFree + |data| + 1 <= r.chunkLimit && Aligned(r.objectBase, k)
    ensures Inv(Append(Append(r, data), [0]), View(v.objects, v.growing + Added(Grow0Op(data))), k)
  {
    var w := View(v.objects, v.growing + Known(data));
    AppendInv(r, v, k, data);
    AppendInv(Append(r, data), w, k, [0]);
    assert w.growing + Known([0]) == v.growing + Added(Grow0Op(data));
  }

  ghost predicate Grows(op: Op) { !op.FinishOp? && !op.FreeOp? }

  /** What a growing call does once there is room. */
  ghost function Extend(r: Stack, op: Op): Stack
    requires Grows(op)
  {
    match op
    case RoomOp(_) => r
    case GrowOp(data) => Append(r, data)
    case Grow0Op(data) => Append(Append(r, data), [0])
    case OneGrowOp(b) => Append(r, [b])
    case BlankOp(n) => r.(nextFree := r.nextFree + n)
  }

  lemma {:induction false} ExtendInv(r: Stack, v: View, k: nat, op: Op)
    requires Grows(op) && Inv(r, v, k) && r.nextFree + Need(op) <= r.chunkLimit
    requires Aligned(r.objectBase, k) || Need(op) == 0
    ensures Inv(Extend(r, op), View(v.objects, v.growing + Added(op)), k)
  {
    match op
    case RoomOp(_) => assert v.growing + [] == v.growing;
    case GrowOp(data) => AppendInv(r, v, k, data);
    case Grow0Op(data) => Grow0Inv(r, v, k, data);
    case OneGrowOp(b) => AppendInv(r, v, k, [b]);
    case BlankOp(n) => BlankInv(r, v, k, n);
  }

  lemma {:induction false} GrowingStep(m: Machine, cmd: Cmd, k: nat)
    requires Inv(m.stack, m.view, k) && Grows(cmd.op) && Formed(m.stack)
    requires Room(m.stack) < Need(cmd.op) ==> SpareOk(m.stack, Need(cmd.op), cmd.spare, k)
    ensures Inv(Step(m, cmd).stack, Step(m, cmd).view, k)
  {
    var n := Need(cmd.op);
    var r := MakeRoom(m.stack, n, cmd.spare);
    MakeRoomInv(m.stack, m.view, k, n, cmd.spare);
    ExtendInv(r, m.view, k, cmd.op);
    StepGrows(m, cmd);
  }

  lemma {:induction false} StepInv(m: Machine, cmd: Cmd, k: nat)
    requires Inv(m.stack, m.view, k)
    requires Formed(m.stack) && Room(m.stack) < Need(cmd.op) ==> SpareOk(m.stack, Need(cmd.op), cmd.spare, k)
    ensures Inv(Step(m, cmd).stack, Step(m, cmd).view, k)
  {
    InvFormed(m.stack, m.view, k);
    match cmd.op
    case FinishOp => FinishInv(m.stack, m.view, k);
    case FreeOp(j) =>
      if j < |m.view.objects| {
        FreeInv(m.stack, m.view, k, j);
      }
    case _ => GrowingStep(m, cmd, k);
  }

  /** Over every run, across chunk moves and frees, the memory shows exactly the stack of byte
      strings the calls describe: the growing object is everything grown since the last finish,
      and every live finished object is where it was finished. */
  lemma {:induction false} RunRefines(m: Machine, cmds: seq<Cmd>, k: nat)
    requires Inv(m.stack, m.view, k) && Supplied(m, cmds, k)
    ensures var r := Run(m, cmds);
            Inv(r.stack, r.view, k) && Contents(r.view) == StringsRun(Contents(m.view), cmds)
    decreases |cmds|
  {
    if cmds != [] {
      StepInv(m, cmds[0], k);
      InvFormed(m.stack, m.view, k);
      StepContents(m, cmds[0]);
      RunRefines(Step(m, cmds[0]), cmds[1..], k);
    }
  }

  /** The same for an obstack from its first call on. */
  lemma {:induction false} RunFromBegin(spare: Spare, k: nat, cmds: seq<Cmd>)
    requires spare.chunk.First() <= spare.chunk.limit && Aligned(spare.chunk.First(), k)
    requires |spare.bytes| == spare.chunk.limit - spare.chunk.First()
    requires Supplied(Machine(Begin(spare, Pow2(k) - 1), View([], [])), cmds, k)
    ensures var r := Run(Machine(Begin(spare, Pow2(k) - 1), View([], [])), cmds);
            Inv(r.stack, r.view, k) && Contents(r.view) == StringsRun(Strings([], []), cmds)
  {
    BeginInv(spare, k);
    RunRefines(Machine(Begin(spare, Pow2(k) - 1), View([], [])), cmds, k);
  }

  lemma {:induction false} StepContents(m: Machine, cmd: Cmd)
    requires Formed(m.stack)
    ensures Contents(Step(m, cmd).view) == StringsStep(Contents(m.view), cmd.op)
  {
  }

  ghost predicate FreesOnlyFrom(cmds: seq<Cmd>, n: nat) {
    forall i :: 0 <= i < |cmds| && cmds[i].op.FreeOp? ==> cmds[i].op.index >= n
  }

  /** As long as none of the first n finished objects is freed, their bytes stay where they are
      in memory, whatever is grown, finished or freed after them. */
  lemma {:induction false} FinishedStay(m: Machine, cmds: seq<Cmd>, k: nat, n: nat, i: nat)
    requires Inv(m.stack, m.view, k) && Supplied(m, cmds, k)
    requires i < n <= |m.view.objects| && FreesOnlyFrom(cmds, n)
    ensures var r := Run(m, cmds);
            && Shows(r.stack.mem, m.view.objects[i].start, m.view.objects[i].cells)
            && m.view.objects[..n] <= r.view.objects
  {
    var r := Run(m, cmds);
    RunRefines(m, cmds, k);
    StillListed(m, cmds, n);
    assert ObjOk(r.stack, r.view.objects[i], k);
    assert r.view.objects[i] == m.view.objects[..n][i];
  }

  lemma {:induction false} StillListed(m: Machine, cmds: seq<Cmd>, n: nat)
    requires n <= |m.view.objects| && FreesOnlyFrom(cmds, n)
    ensures m.view.objects[..n] <= Run(m, cmds).view.objects
    decreases |cmds|
  {
    if cmds != [] {
      var next := Step(m, cmds[0]);
      assert next.view.objects[..n] == m.view.objects[..n];
      StillListed(next, cmds[1..], n);
    }
  }

  /** The flag is set only for an empty object in the current chunk, and the base has moved from
      the start of the chunk only past an object. */
  ghost predicate FlagExact(s: Stack, objects: seq<Obj>) {
    && s.chunks != []
    && (s.maybeEmpty ==> exists i :: 0 <= i < |objects| && objects[i].home == |s.chunks| - 1 && objects[i].cells == [])
    && (s.objectBase > Last(s.chunks).First() ==> exists i :: 0 <= i < |objects| && objects[i].home == |s.chunks| - 1)
  }

  lemma {:induction false} FinishExact(s: Stack, v: View, k: nat)
    requires Inv(s, v, k) && FlagExact(s, v.objects)
    ensures FlagExact(Finish(s), v.objects + [Obj(|s.chunks| - 1, s.objectBase, v.growing)])
  {
    var o := Obj(|s.chunks| - 1, s.objectBase, v.growing);
    var objects := v.objects + [o];
    assert objects[|v.objects|] == o;
    if s.maybeEmpty {
      var i :| 0 <= i < |v.objects| && v.objects[i].home == |s.chunks| - 1 && v.objects[i].cells == [];
      assert objects[i] == v.objects[i];
    }
  }

  lemma {:induction false} GrowExact(s: Stack, objects: seq<Obj>, op: Op, spare: Spare)
    requires Formed(s) && FlagExact(s, objects) && Grows(op)
    ensures FlagExact(Extend(MakeRoom(s, Need(op), spare), op), objects)
  {
  }

  lemma {:induction false} StepGrows(m: Machine, cmd: Cmd)
    requires Formed(m.stack) && Grows(cmd.op)
    ensures Step(m, cmd).stack == Extend(MakeRoom(m.stack, Need(cmd.op), cmd.spare), cmd.op)
    ensures Step(m, cmd).view.objects == m.view.objects
  {
  }

  lemma {:induction false} StepExact(m: Machine, cmd: Cmd, k: nat)
    requires Inv(m.stack, m.view, k) && FlagExact(m.stack, m.view.objects) && !cmd.op.FreeOp?
    ensures FlagExact(Step(m, cmd).stack, Step(m, cmd).view.objects)
  {
    InvFormed(m.stack, m.view, k);
    if cmd.op.FinishOp? {
      FinishExact(m.stack, m.view, k);
    } else {
      GrowExact(m.stack, m.view.objects, cmd.op, cmd.spare);
      StepGrows(m, cmd);
    }
  }

  /** Without frees the growing object's chunk is given up at a move exactly if no finished
      object lies in it. */
  lemma {:induction false} GivenUpExactly(m: Machine, cmds: seq<Cmd>, k: nat)
    requires Inv(m.stack, m.view, k) && FlagExact(m.stack, m.view.objects) && Supplied(m, cmds, k)
    requires forall i :: 0 <= i < |cmds| ==> !cmds[i].op.FreeOp?
    ensures var r := Run(m, cmds);
            && FlagExact(r.stack, r.view.objects)
            && (AloneInChunk(r.stack) <==>
                forall i :: 0 <= i < |r.view.objects| ==> r.view.objects[i].home != |r.stack.chunks| - 1)
    decreases |cmds|
  {
    if cmds == [] {
      if AloneInChunk(m.stack) {
        forall i | 0 <= i < |m.view.objects| ensures m.view.objects[i].home != |m.stack.chunks| - 1 {
          AloneMeansNoObjects(m.stack, m.view, k, i);
        }
      }
    } else {
      StepInv(m, cmds[0], k);
      StepExact(m, cmds[0], k);
      GivenUpExactly(Step(m, cmds[0]), cmds[1..], k);
    }
  }

  /** Some finished object lies in the chunk. */
  ghost predicate Lodges(objects: seq<Obj>, chunk: int) {
    exists i :: 0 <= i < |objects| && objects[i].home == chunk
  }

  /** Every chunk below the current one holds a finished object. */
  ghost predicate NoneWasted(s: Stack, objects: seq<Obj>) {
    forall c :: 0 <= c < |s.chunks| - 1 ==> Lodges(objects, c)
  }

  lemma {:induction false} MoreLodge(objects: seq<Obj>, o: Obj, chunk: int)
    requires Lodges(objects, chunk)
    ensures Lodges(objects + [o], chunk)
  {
    var i :| 0 <= i < |objects| && objects[i].home == chunk;
    assert (objects + [o])[i] == objects[i];
  }

  lemma {:induction false} MoveWastesNone(s: Stack, v: View, k: nat, spare: Spare)
    requires Inv(s, v, k) && FlagExact(s, v.objects) && NoneWasted(s, v.objects)
    ensures NoneWasted(NewChunk(s, spare), v.objects)
  {
    var r := NewChunk(s, spare);
    forall c | 0 <= c < |r.chunks| - 1 ensures Lodges(v.objects, c) {
      if c == |s.chunks| - 1 {
        assert !AloneInChunk(s);
      }
    }
  }

  lemma {:induction false} StepWastesNone(m: Machine, cmd: Cmd, k: nat)
    requires Inv(m.stack, m.view, k) && FlagExact(m.stack, m.view.objects) && NoneWasted(m.stack, m.view.objects)
    requires !cmd.op.FreeOp?
    ensures NoneWasted(Step(m, cmd).stack, Step(m, cmd).view.objects)
  {
    var s, n := m.stack, Step(m, cmd);
    InvFormed(s, m.view, k);
    if cmd.op.FinishOp? {
      forall c | 0 <= c < |s.chunks| - 1 ensures Lodges(n.view.objects, c) {
        MoreLodge(m.view.objects, Last(n.view.objects), c);
      }
    } else {
      MoveWastesNone(s, m.view, k, cmd.spare);
      StepGrows(m, cmd);
    }
  }

  /** Without frees no chunk is ever kept for nothing: at every moment each chunk but the current
      one holds a finished object. */
  lemma {:induction false} EveryChunkInUse(m: Machine, cmds: seq<Cmd>, k: nat)
    requires Inv(m.stack, m.view, k) && FlagExact(m.stack, m.view.objects) && Supplied(m, cmds, k)
    requires NoneWasted(m.stack, m.view.objects)
    requires forall i :: 0 <= i < |cmds| ==> !cmds[i].op.FreeOp?
    ensures NoneWasted(Run(m, cmds).stack, Run(m, cmds).view.objects)
    decreases |cmds|
  {
    if cmds != [] {
      StepInv(m, cmds[0], k);
      StepExact(m, cmds[0], k);
      StepWastesNone(m, cmds[0], k);
      EveryChunkInUse(Step(m, cmds[0]), cmds[1..], k);
    }
  }

  // ---- Which memory an obstack owns ----

  /** The bytes of a chunk past the two pointers of its header, four bytes each. */
  ghost predicate Covers(c: Chunk, x: nat) { c.addr + 4 + 4 <= x < c.limit }

  ghost predicate Covered(chunks: seq<Chunk>, x: nat) {
    exists i :: 0 <= i < |chunks| && Covers(chunks[i], x)
  }

  ghost predicate OnlyChunks(s: Stack) {
    forall x :: x in s.mem ==> Covered(s.chunks, x)
  }

  lemma {:induction false} AppendOwns(s: Stack, v: View, k: nat, data: seq<Byte>)
    requires Inv(s, v, k) && OnlyChunks(s) && s.nextFree + |data| <= s.chunkLimit
    ensures OnlyChunks(Append(s, data)) && Append(s, data).mem.Keys == s.mem.Keys
  {
    assert ChunkOk(Last(s.chunks), s.mem, k);
  }

  lemma {:induction false} CoveredByLast(chunks: seq<Chunk>, x: nat)
    requires chunks != [] && Covers(Last(chunks), x)
    ensures Covered(chunks, x)
  {
    assert Covers(chunks[|chunks| - 1], x);
  }

  lemma {:induction false} CoveredStill(chunks: seq<Chunk>, x: nat, last: Chunk)
    requires Covered(chunks, x)
    ensures Covered(chunks + [last], x)
    ensures chunks != [] && !Covers(Last(chunks), x) ==> Covered(Front(chunks), x) && Covered(Front(chunks) + [last], x)
  {
    var i :| 0 <= i < |chunks| && Covers(chunks[i], x);
    assert (chunks + [last])[i] == chunks[i];
    if chunks != [] && !Covers(Last(chunks), x) {
      assert Front(chunks)[i] == chunks[i] && (Front(chunks) + [last])[i] == chunks[i];
    }
  }

  lemma {:induction false} NewChunkOwns(s: Stack, spare: Spare)
    requires Formed(s) && OnlyChunks(s)
    requires spare.chunk.First() + (s.nextFree - s.objectBase) <= spare.chunk.limit
    requires spare.chunk.First() + |spare.bytes| <= spare.chunk.limit
    ensures OnlyChunks(NewChunk(s, spare))
  {
    var r := NewChunk(s, spare);
    forall x | x in r.mem ensures Covered(r.chunks, x) {
      if Covers(spare.chunk, x) {
        CoveredByLast(r.chunks, x);
      } else {
        CoveredStill(s.chunks, x, spare.chunk);
      }
    }
  }

  lemma {:induction false} DropOwns(s: Stack)
    requires s.chunks != [] && OnlyChunks(s)
    ensures OnlyChunks(DropChunk(s))
  {
    forall x | x in DropChunk(s).mem ensures Covered(DropChunk(s).chunks, x) {
      CoveredStill(s.chunks, x, Last(s.chunks));
    }
  }

  lemma {:induction false} FreeSlowlyOwns(s: Stack, obj: nat)
    requires OnlyChunks(s) && FreeSlowly(s, obj).Some?
    ensures OnlyChunks(FreeSlowly(s, obj).value)
    decreases |s.chunks|
  {
    if !Holds(Last(s.chunks), obj) {
      DropOwns(s);
      FreeSlowlyOwns(DropChunk(s), obj);
    }
  }

  lemma {:induction false} ExtendOwns(r: Stack, v: View, k: nat, op: Op)
    requires Grows(op) && Inv(r, v, k) && OnlyChunks(r) && r.nextFree + Need(op) <= r.chunkLimit
    requires Aligned(r.objectBase, k) || Need(op) == 0
    ensures OnlyChunks(Extend(r, op))
  {
    match op
    case GrowOp(data) => AppendOwns(r, v, k, data);
    case Grow0Op(data) =>
      AppendOwns(r, v, k, data);
      AppendInv(r, v, k, data);
      AppendOwns(Append(r, data), View(v.objects, v.growing + Known(data)), k, [0]);
    case OneGrowOp(b) => AppendOwns(r, v, k, [b]);
    case _ =>
  }

  lemma {:induction false} StepOwns(m: Machine, cmd: Cmd, k: nat)
    requires Inv(m.stack, m.view, k) && OnlyChunks(m.stack) && Formed(m.stack)
    requires Room(m.stack) < Need(cmd.op) ==> SpareOk(m.stack, Need(cmd.op), cmd.spare, k)
    ensures OnlyChunks(Step(m, cmd).stack)
  {
    match cmd.op
    case FinishOp =>
    case FreeOp(j) =>
      if j < |m.view.objects| {
        FreeInv(m.stack, m.view, k, j);
        if !(Last(m.stack.chunks).addr < m.view.objects[j].start < m.stack.chunkLimit) {
          FreeSlowlyOwns(m.stack, m.view.objects[j].start);
        }
      }
    case _ => GrowOwns(m, cmd, k);
  }

  lemma {:induction false} GrowOwns(m: Machine, cmd: Cmd, k: nat)
    requires Inv(m.stack, m.view, k) && OnlyChunks(m.stack) && Formed(m.stack) && Grows(cmd.op)
    requires Room(m.stack) < Need(cmd.op) ==> SpareOk(m.stack, Need(cmd.op), cmd.spare, k)
    ensures OnlyChunks(Step(m, cmd).stack)
  {
    var n := Need(cmd.op);
    MakeRoomInv(m.stack, m.view, k, n, cmd.spare);
    if Room(m.stack) < n {
      NewChunkOwns(m.stack, cmd.spare);
    }
    ExtendOwns(MakeRoom(m.stack, n, cmd.spare), m.view, k, cmd.op);
    StepGrows(m, cmd);
  }

  /** Over every run the obstack has exactly the bytes of the chunks on its list, less their
      headers: what a chunk given up or dropped held is gone, and nothing else is. */
  lemma {:induction false} OwnsExactly(m: Machine, cmds: seq<Cmd>, k: nat, x: nat)
    requires Inv(m.stack, m.view, k) && OnlyChunks(m.stack) && Supplied(m, cmds, k)
    ensures var r := Run(m, cmds).stack; OnlyChunks(r) && (x in r.mem <==> Covered(r.chunks, x))
    decreases |cmds|
  {
    if cmds == [] {
      if Covered(m.stack.chunks, x) {
        var i :| 0 <= i < |m.stack.chunks| && Covers(m.stack.chunks[i], x);
        assert ChunkOk(m.stack.chunks[i], m.stack.mem, k);
      }
    } else {
      InvFormed(m.stack, m.view, k);
      StepInv(m, cmds[0], k);
      StepOwns(m, cmds[0], k);
      OwnsExactly(Step(m, cmds[0]), cmds[1..], k, x);
    }
  }

  /** No object, finished or growing, reaches into the two pointers of a chunk header. */
  lemma {:induction false} HeadersSpared(s: Stack, v: View, k: nat, i: nat)
    requires Inv(s, v, k) && i < |v.objects|
    ensures s.chunks[v.objects[i].home].addr + 4 + 4 <= v.objects[i].start
    ensures v.objects[i].End() <= s.chunks[v.objects[i].home].limit
    ensures Last(s.chunks).addr + 4 + 4 <= s.objectBase <= s.nextFree <= Last(s.chunks).limit
  {
    assert ObjOk(s, v.objects[i], k);
  }

  /** Freeing an address aborts exactly if it lies in no chunk; otherwise the newest chunk it lies
      in becomes the current one. */
  lemma {:induction false} FreeSlowlyExactly(s: Stack, obj: nat, i: nat)
    requires i < |s.chunks| && s.chunks[i].addr < obj <= s.chunks[i].limit
    requires forall j :: i < j < |s.chunks| ==> !(s.chunks[j].addr < obj <= s.chunks[j].limit)
    ensures var r := FreeSlowly(s, obj);
            && r.Some? && r.value.chunks == s.chunks[..i + 1] && r.value.objectBase == r.value.nextFree == obj
            && r.value.chunkLimit == s.chunks[i].limit
    decreases |s.chunks|
  {
    if i < |s.chunks| - 1 {
      FreeSlowlyExactly(DropChunk(s), obj, i);
    } else {
      assert s.chunks[..i + 1] == s.chunks;
    }
  }

  lemma {:induction false} FreeSlowlyAborts(s: Stack, obj: nat)
    requires forall j :: 0 <= j < |s.chunks| ==> !(s.chunks[j].addr < obj <= s.chunks[j].limit)
    ensures FreeSlowly(s, obj).None?
    decreases |s.chunks|
  {
    if s.chunks != [] {
      FreeSlowlyAborts(DropChunk(s), obj);
    }
  }

  /** The bytes a growing call that finds room writes. */
  function Written(op: Op): seq<Byte> {
    match op
    case GrowOp(data) => data
    case Grow0Op(data) => data + [0]
    case OneGrowOp(b) => [b]
    case _ => []
  }

  /** From memory `mem` to `mem'`, exactly these bytes were written at `a`, seen from address x. */
  ghost predicate WroteAt(mem: Memory, mem': Memory, a: nat, data: seq<Byte>, x: nat) {
    if a <= x < a + |data| then x in mem' && mem'[x] == data[x - a]
    else (x in mem' <==> x in mem) && (x in mem ==> mem'[x] == mem[x])
  }

  lemma {:induction false} ExtendWrites(r: Stack, op: Op, x: nat)
    requires Grows(op)
    ensures WroteAt(r.mem, Extend(r, op).mem, r.nextFree, Written(op), x)
  {
    match op
    case Grow0Op(data) =>
      assert WroteAt(r.mem, Append(r, data).mem, r.nextFree, data, x);
    case _ =>
  }

  /** A call that finds room leaves every byte alone but those it writes, after the growing
      object and in order, a NUL last for grow0 and none for blank space or a finish. */
  lemma {:induction false} WritesOnly(m: Machine, cmd: Cmd, x: nat)
    requires Formed(m.stack) && Need(cmd.op) <= Room(m.stack) && !cmd.op.FreeOp?
    ensures Step(m, cmd).stack.chunks == m.stack.chunks
    ensures WroteAt(m.stack.mem, Step(m, cmd).stack.mem, m.stack.nextFree, Written(cmd.op), x)
  {
    if Grows(cmd.op) {
      StepGrows(m, cmd);
      ExtendWrites(m.stack, cmd.op, x);
    }
  }

  /** No two live objects share a byte, nor does any with the growing one. */
  lemma {:induction false} ObjectsDisjoint(s: Stack, v: View, k: nat, i: nat, j: nat)
    requires Inv(s, v, k) && i < |v.objects|
    ensures i < j < |v.objects| ==>
              v.objects[i].End() <= v.objects[j].start || v.objects[j].End() <= v.objects[i].start
    ensures v.objects[i].End() <= s.objectBase || s.nextFree <= v.objects[i].start
  {
    assert ObjOk(s, v.objects[i], k);
    var home := s.chunks[v.objects[i].home];
    if v.objects[i].home < |s.chunks| - 1 {
      assert Apart(home, Last(s.chunks));
    }
    if i < j < |v.objects| {
      assert ObjOk(s, v.objects[j], k) && InOrder(v.objects[i], v.objects[j]);
      if v.objects[i].home < v.objects[j].home {
        assert Apart(home, s.chunks[v.objects[j].home]);
      }
    }
  }

  /** Every object that has any bytes starts on a multiple of the alignment. */
  lemma {:induction false} ObjectsAligned(m: Machine, cmds: seq<Cmd>, k: nat, i: nat)
    requires Inv(m.stack, m.view, k) && Supplied(m, cmds, k) && i < |Run(m, cmds).view.objects|
    ensures var o := Run(m, cmds).view.objects[i]; o.cells != [] ==> Aligned(o.start, k)
  {
    RunRefines(m, cmds, k);
    var r := Run(m, cmds);
    assert ObjOk(r.stack, r.view.objects[i], k);
  }

  /** After a finish the next object starts on the least multiple of the alignment that is not
      below the end of the finished one, or on the chunk limit if that is passed. */
  lemma {:induction false} FinishPlaces(s: Stack, v: View, k: nat, m: nat)
    requires Inv(s, v, k)
    ensures var base := Finish(s).objectBase;
            && s.nextFree <= base <= s.chunkLimit && (Aligned(base, k) || base == s.chunkLimit)
            && (Aligned(m, k) && s.nextFree <= m <= s.chunkLimit ==> base <= m)
  {
    AlignUpIsLeast(s.nextFree, k, m);
  }

  // ---- Replaying allocations ----

  /** `obstack_alloc` for a size that fits. */
  function Alloc(s: Stack, size: nat): Stack
    requires Formed(s)
  {
    Finish(s.(nextFree := s.nextFree + size))
  }

  /** All of these sizes fit in the current chunk. */
  ghost predicate AllFit(s: Stack, sizes: seq<nat>)
    requires Formed(s)
    decreases |sizes|
  {
    sizes == [] || (sizes[0] <= Room(s) && AllFit(Alloc(s, sizes[0]), sizes[1..]))
  }

  function AllocAll(s: Stack, sizes: seq<nat>): (r: Stack)
    requires Formed(s)
    ensures Formed(r)
    decreases |sizes|
  {
    if sizes == [] then s else AllocAll(Alloc(s, sizes[0]), sizes[1..])
  }

  function Addresses(s: Stack, sizes: seq<nat>): (r: seq<nat>)
    requires Formed(s)
    ensures |r| == |sizes|
    decreases |sizes|
  {
    if sizes == [] then [] else [s.objectBase] + Addresses(Alloc(s, sizes[0]), sizes[1..])
  }

  ghost predicate SamePointers(a: Stack, b: Stack) {
    && a.objectBase == b.objectBase && a.nextFree == b.nextFree
    && a.chunkLimit == b.chunkLimit && a.alignmentMask == b.alignmentMask
  }

  lemma {:induction false} SameAddresses(a: Stack, b: Stack, sizes: seq<nat>)
    requires Formed(a) && Formed(b) && SamePointers(a, b)
    ensures Addresses(a, sizes) == Addresses(b, sizes) && (AllFit(a, sizes) <==> AllFit(b, sizes))
    decreases |sizes|
  {
    if sizes != [] {
      SameAddresses(Alloc(a, sizes[0]), Alloc(b, sizes[0]), sizes[1..]);
    }
  }

  lemma {:induction false} AllocAllStays(s: Stack, sizes: seq<nat>)
    requires Formed(s) && AllFit(s, sizes) && s.nextFree <= s.chunkLimit
    ensures var r := AllocAll(s, sizes);
            r.chunks == s.chunks && r.chunkLimit == s.chunkLimit && r.alignmentMask == s.alignmentMask
    ensures forall i :: 0 <= i < |sizes| ==> s.objectBase <= Addresses(s, sizes)[i] <= s.chunkLimit
    decreases |sizes|
  {
    if sizes != [] {
      AlignUpAtLeast(s.nextFree + sizes[0], s.alignmentMask);
      AllocAllStays(Alloc(s, sizes[0]), sizes[1..]);
    }
  }

  /** Rounding may go down for a mask that is no run of low bits, but not by more than the mask. */
  lemma {:induction false} AlignUpAtLeast(p: nat, mask: nat)
    ensures AlignUp(p, mask) >= p
  {
    AndNotLoses(p + mask, mask);
  }

  lemma {:induction false} AndNotLoses(x: nat, y: nat)
    ensures AndNot(x, y) + y >= x
  {
    if x > 0 {
      AndNotLoses(x / 2, y / 2);
    }
  }

  lemma {:induction false} SplitAlloc(s: Stack, sizes: seq<nat>, j: nat)
    requires Formed(s) && j < |sizes| && AllFit(s, sizes)
    ensures var m := AllocAll(s, sizes[..j]);
            Addresses(m, sizes[j..]) == Addresses(s, sizes)[j..] && AllFit(m, sizes[j..])
    ensures AllFit(s, sizes[..j]) && AllocAll(s, sizes[..j]).objectBase == Addresses(s, sizes)[j]
    ensures j > 0 ==> AllocAll(s, sizes[..j]).objectBase == AllocAll(s, sizes[..j]).nextFree
    decreases j
  {
    if j > 0 {
      assert sizes[..j][1..] == sizes[1..][..j - 1] && sizes[1..][j - 1..] == sizes[j..];
      SplitAlloc(Alloc(s, sizes[0]), sizes[1..], j - 1);
    } else {
      assert sizes[..0] == [] && sizes[0..] == sizes;
    }
  }

  /** Freeing the j-th of a run of allocations that fitted in the current chunk and asking for
      the same sizes again gives back the same addresses. */
  lemma {:induction false} ReplaySameAddresses(s: Stack, v: View, k: nat, sizes: seq<nat>, j: nat)
    requires Inv(s, v, k) && s.nextFree == s.objectBase && AllFit(s, sizes) && j < |sizes|
    ensures var r := Free(AllocAll(s, sizes), Addresses(s, sizes)[j]);
            && r.Some? && Formed(r.value) && AllFit(r.value, sizes[j..])
            && Addresses(r.value, sizes[j..]) == Addresses(s, sizes)[j..]
  {
    SplitAlloc(s, sizes, j);
    AllocAllStays(s, sizes);
    AllocAllStays(s, sizes[..j]);
    if j == 0 {
      assert sizes[..0] == [];
    }
    var r := Free(AllocAll(s, sizes), Addresses(s, sizes)[j]);
    SameAddresses(AllocAll(s, sizes[..j]), r.value, sizes[j..]);
  }
}
