/** The input loop of `compile` in regexp.h: characters are stored in a buffer that grows by
    `alloca`, wherever on the stack the new blocks land. */
module PatternReader {

  const NUL: int := 0
  const NEWLINE: int := 10

  /** Allocated bytes by address; NULL is 0. */
  type Memory = map<int, int>

  predicate Stops(ch: int, eof: int) { ch == eof || ch == NUL || ch == NEWLINE }

  /** Position of the character that ends the pattern. */
  function PatternLength(input: seq<int>, eof: int): (n: nat)
    requires exists k :: 0 <= k < |input| && Stops(input[k], eof)
    ensures n < |input| && Stops(input[n], eof) && forall i :: 0 <= i < n ==> !Stops(input[i], eof)
  {
    if Stops(input[0], eof) then 0
    else
      assert exists k :: 0 <= k < |input[1..]| && Stops(input[1..][k], eof) by {
        var k :| 0 <= k < |input| && Stops(input[k], eof);
        assert Stops(input[1..][k - 1], eof);
      }
      var n := PatternLength(input[1..], eof);
      assert forall i :: 1 <= i <= n ==> input[i] == input[1..][i - 1];
      n + 1
  }

  /** A character as stored in a `char`. */
  function Stored(ch: int): int { ch % 256 }

  /** What the buffer should hold in the end. */
  function Pattern(input: seq<int>, eof: int): seq<int>
    requires exists k :: 0 <= k < |input| && Stops(input[k], eof)
  {
    var n := PatternLength(input, eof);
    seq(n, i requires 0 <= i < n => Stored(input[i])) + [NUL]
  }

  predicate Allocated(mem: Memory, a: int, n: nat) {
    forall x :: a <= x < a + n ==> x in mem
  }

  predicate Unused(mem: Memory, a: int, n: nat) {
    forall x :: a <= x < a + n ==> x !in mem
  }

  function Bytes(mem: Memory, a: int, n: nat): seq<int>
    requires Allocated(mem, a, n)
  {
    seq(n, i requires 0 <= i < n && Allocated(mem, a, n) => mem[a + i])
  }

  /** A store, to allocated memory only. */
  function Write(mem: Memory, a: int, b: int): Memory
    requires a in mem
  {
    mem[a := b]
  }

  lemma {:induction false} WriteNext(mem: Memory, a: int, n: nat, b: int)
    requires Allocated(mem, a, n + 1)
    ensures Bytes(Write(mem, a + n, b), a, n + 1) == Bytes(mem, a, n) + [b]
  {
  }

  /** `memcpy`, within allocated memory and between areas that do not overlap. */
  function Memcpy(mem: Memory, to: int, from: int, n: nat): (r: Memory)
    requires Allocated(mem, to, n) && Allocated(mem, from, n)
    requires to + n <= from || from + n <= to
    ensures r.Keys == mem.Keys
    ensures forall x :: to <= x < to + n ==> r[x] == mem[x - to + from]
    ensures forall x :: x in mem && !(to <= x < to + n) ==> r[x] == mem[x]
  {
    if n == 0 then mem else Write(Memcpy(mem, to, from, n - 1), to + n - 1, mem[from + n - 1])
  }

  lemma {:induction false} RoomExists(mem: Memory, size: nat)
    ensures exists room: int :: room > 0 && Unused(mem, room, size)
  {
    var top := Above(mem.Keys);
    assert Unused(mem, top, size);
  }

  lemma {:induction false} Above(s: set<int>) returns (top: int)
    ensures top > 0 && forall x :: x in s ==> x < top
  {
    if x :| x in s {
      var t := Above(s - {x});
      top := if x < t then t else x + 1;
      assert forall y :: y in s ==> y == x || y in s - {x};
    } else {
      top := 1;
    }
  }

  /** A block anywhere that is not in use. */
  method Alloca(mem: Memory, size: nat) returns (room: int, grown: Memory)
    ensures room > 0 && Allocated(grown, room, size) && Unused(mem, room, size)
    ensures mem.Keys <= grown.Keys && forall x :: x in mem ==> grown[x] == mem[x]
  {
    RoomExists(mem, size);
    room :| room > 0 && Unused(mem, room, size);
    grown := mem;
    var i := 0;
    while i < size
      invariant 0 <= i <= size && Allocated(grown, room, i)
      invariant mem.Keys <= grown.Keys && forall x :: x in mem ==> grown[x] == mem[x]
    {
      var garbage: int := *;
      grown := grown[room + i := garbage];
      i := i + 1;
    }
  }

  /** The buffer handed to the regular expression compiler, or a store through NULL. */
  datatype Outcome = Text(chars: seq<int>) | NullStore

  /** A new block overlaps nothing in use. */
  lemma {:induction false} BlocksApart(mem: Memory, a: int, n: nat, room: int, size: nat)
    requires Allocated(mem, a, n) && Unused(mem, room, size) && n <= size
    ensures n == 0 || a + n <= room || room + size <= a
  {
    assert n > 0 ==> a in mem;
    assert a <= room < a + n ==> room in mem;
  }

  /** Makes room for one more character: the new block may continue the buffer on either side. */
  method Enlarge(mem: Memory, buffer: int, size: nat, used: nat)
    returns (mem': Memory, buffer': int, size': nat, copied: nat)
    requires used <= size && used + 1 >= size && Allocated(mem, buffer, size)
    requires if size == 0 then buffer == 0 else buffer > 0 && size >= 128
    ensures Allocated(mem', buffer', size') && buffer' > 0 && size' >= 128 && size' >= 2 * size
    ensures Bytes(mem', buffer', used) == Bytes(mem, buffer, used)
    ensures copied == if buffer' == buffer then 0 else used
  {
    var newSize := if size != 0 then 2 * size else 128;
    var room, grown := Alloca(mem, newSize);
    BlocksApart(mem, buffer, size, room, newSize);
    if room + newSize == buffer {
      size' := size + newSize;
      mem', buffer', copied := Memcpy(grown, room, buffer, used), room, used;
    } else if buffer + size == room {
      size' := size + newSize;
      mem', buffer', copied := grown, buffer, 0;
    } else {
      size' := newSize;
      mem', buffer', copied := Memcpy(grown, room, buffer, used), room, used;
    }
  }

  /** A NUL after the characters before the first eof, NUL or newline; those that fit a byte are
      kept, and the rest keep their low eight bits. */
  ghost predicate Copies(chars: seq<int>, input: seq<int>, eof: int) {
    && 1 <= |chars| <= |input| && chars[|chars| - 1] == 0
    && var n := |chars| - 1;
       && (input[n] == eof || input[n] == 0 || input[n] == 10)
       && forall i :: 0 <= i < n ==>
            && input[i] != eof && input[i] != 0 && input[i] != 10
            && 0 <= chars[i] < 256 && (chars[i] - input[i]) % 256 == 0
            && (0 <= input[i] < 256 ==> chars[i] == input[i])
  }

  lemma {:induction false} StoredCongruent(ch: int)
    ensures 0 <= Stored(ch) < 256 && (Stored(ch) - ch) % 256 == 0
    ensures 0 <= ch < 256 ==> Stored(ch) == ch
  {
    var q := ch / 256;
    assert Stored(ch) - ch == -q * 256;
  }

  lemma {:induction false} PatternCopies(input: seq<int>, eof: int)
    requires exists k :: 0 <= k < |input| && Stops(input[k], eof)
    ensures Copies(Pattern(input, eof), input, eof)
  {
    var n := PatternLength(input, eof);
    forall i | 0 <= i < n
      ensures !Stops(input[i], eof) && Pattern(input, eof)[i] == Stored(input[i])
      ensures 0 <= Stored(input[i]) < 256 && (Stored(input[i]) - input[i]) % 256 == 0
      ensures 0 <= input[i] < 256 ==> Stored(input[i]) == input[i]
    {
      StoredCongruent(input[i]);
    }
  }

  /** Every store and copy stays in allocated memory, the buffer ends up with the pattern, and all
      growths together copy at most twice its length. An empty pattern never gets a buffer, and
      only then does the terminator go through NULL. */
  method Read(input: seq<int>, eof: int) returns (outcome: Outcome, consumed: nat, copied: nat)
    requires exists k :: 0 <= k < |input| && Stops(input[k], eof)
    ensures outcome == if PatternLength(input, eof) == 0 then NullStore else Text(Pattern(input, eof))
    ensures copied <= 2 * PatternLength(input, eof)
    ensures var n := PatternLength(input, eof); consumed == if input[n] == eof then n + 1 else n
    ensures outcome.Text? ==> Copies(outcome.chars, input, eof)
  {
    ghost var n := PatternLength(input, eof);
    var mem: Memory := map[];
    var buffer, size, used := 0, 0, 0;
    copied, consumed := 0, 0;
    while true
      invariant 0 <= used <= n && consumed == used
      invariant if size == 0 then buffer == 0 && used == 0 else buffer > 0 && size >= 128 && 0 < used < size
      invariant Allocated(mem, buffer, size)
      invariant used <= size && Bytes(mem, buffer, used) == Pattern(input, eof)[..used]
      invariant copied <= size && copied <= 2 * used
      decreases n - used
    {
      var ch := input[consumed];
      consumed := consumed + 1;
      if ch == eof {
        break;
      }
      if ch == NUL || ch == NEWLINE {
        consumed := consumed - 1;
        break;
      }
      if used + 1 >= size {
        var more: nat;
        mem, buffer, size, more := Enlarge(mem, buffer, size, used);
        copied := copied + more;
      }
      assert Pattern(input, eof)[..used + 1] == Pattern(input, eof)[..used] + [Stored(ch)];
      WriteNext(mem, buffer, used, Stored(ch));
      mem := Write(mem, buffer + used, Stored(ch));
      used := used + 1;
    }
    assert used == n;
    if buffer == 0 {
      return NullStore, consumed, copied;
    }
    WriteNext(mem, buffer, used, NUL);
    mem := Write(mem, buffer + used, NUL);
    used := used + 1;
    assert Pattern(input, eof) == Pattern(input, eof)[..n] + [NUL];
    outcome := Text(Bytes(mem, buffer, used));
    PatternCopies(input, eof);
  }
}
