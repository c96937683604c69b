/** The byte cursor and the NXT bitmap macros of arpa/nameser.h. */
module Nameser {
  import opened Bits

  type Byte = x: nat | x < 256

  function Shl(x: nat, k: nat): nat { x * Pow2(k) }

  function Shr(x: nat, k: nat): nat {
    if k == 0 then x else Shr(x / 2, k - 1)
  }

  function Low(x: nat): Byte { x % 256 }

  lemma {:induction false} Shifts()
    ensures Pow2(8) == 256 && Pow2(16) == 0x10000 && Pow2(24) == 0x1000000
  {
    assert Pow2(4) == 16;
    assert Pow2(8) == 16 * Pow2(4) by { assert Pow2(6) == 4 * Pow2(4); }
    assert Pow2(12) == 16 * Pow2(8) by { assert Pow2(10) == 4 * Pow2(8); }
    assert Pow2(16) == 16 * Pow2(12) by { assert Pow2(14) == 4 * Pow2(12); }
    assert Pow2(20) == 16 * Pow2(16) by { assert Pow2(18) == 4 * Pow2(16); }
    assert Pow2(24) == 16 * Pow2(20) by { assert Pow2(22) == 4 * Pow2(20); }
  }

  lemma {:induction false} ShrFour(x: nat, k: nat)
    ensures Shr(x, k + 4) == Shr(x / 16, k)
  {
    assert Shr(x, k + 4) == Shr(x / 4, k + 2) by { assert x / 4 == (x / 2) / 2; }
    assert Shr(x / 4, k + 2) == Shr(x / 16, k) by { assert x / 16 == ((x / 4) / 2) / 2; }
  }

  lemma {:induction false} ShrOctet(x: nat, k: nat)
    ensures Shr(x, k + 8) == Shr(x / 256, k)
  {
    ShrFour(x, k + 4);
    ShrFour(x / 16, k);
    assert x / 256 == (x / 16) / 16;
  }

  lemma {:induction false} Octets(t: nat)
    ensures Shr(t, 8) == t / 256 && Shr(t, 16) == t / 0x10000 && Shr(t, 24) == t / 0x1000000
  {
    ShrOctet(t, 0);
    ShrOctet(t, 8);
    ShrOctet(t / 256, 0);
    ShrOctet(t, 16);
    ShrOctet(t / 256, 8);
    ShrOctet(t / 0x10000, 0);
    assert t / 0x10000 == (t / 256) / 256 && t / 0x1000000 == (t / 0x10000) / 256;
  }

  // ---- Numbers on the wire, most significant octet first (section 2.3.2 of RFC 1035) ----

  function BigEndian(bytes: seq<Byte>): nat {
    if bytes == [] then 0 else 256 * BigEndian(bytes[..|bytes| - 1]) + bytes[|bytes| - 1]
  }

  ghost function Pair(a: nat, b: nat): nat { 256 * a + b }

  ghost function Quad(a: nat, b: nat, c: nat, d: nat): nat { 0x1000000 * a + 0x10000 * b + 256 * c + d }

  lemma {:induction false} BigEndian2(a: Byte, b: Byte)
    ensures BigEndian([a, b]) == Pair(a, b)
  {
    assert [a, b][..1] == [a] && [a][..0] == [];
    assert BigEndian([a]) == a;
  }

  lemma {:induction false} BigEndian4(a: Byte, b: Byte, c: Byte, d: Byte)
    ensures BigEndian([a, b, c, d]) == Quad(a, b, c, d)
  {
    assert [a, b, c, d][..3] == [a, b, c] && [a, b, c][..2] == [a, b];
    BigEndian2(a, b);
  }

  /** A field: its width in octets and the number stored, cut to that width. */
  datatype Field = Short(value: int) | Long(value: int) {
    function Width(): nat { if Short? then 2 else 4 }

    function Number(): nat { if Short? then value % 0x10000 else value % 0x1_0000_0000 }
  }

  /** The octets from position `at` spell the field. */
  ghost predicate Spells(bytes: seq<Byte>, at: nat, f: Field) {
    at + f.Width() <= |bytes| && BigEndian(bytes[at..at + f.Width()]) == f.Number()
  }

  lemma {:induction false} TwoOctets(t: nat)
    requires t < 0x10000
    ensures BigEndian([Low(Shr(t, 8)), Low(t)]) == t
  {
    Octets(t);
    BigEndian2(Low(Shr(t, 8)), Low(t));
  }

  lemma {:induction false} FourOctets(t: nat)
    requires t < 0x1_0000_0000
    ensures BigEndian([Low(Shr(t, 24)), Low(Shr(t, 16)), Low(Shr(t, 8)), Low(t)]) == t
  {
    Octets(t);
    BigEndian4(Low(Shr(t, 24)), Low(Shr(t, 16)), Low(Shr(t, 8)), Low(t));
    assert t / 0x10000 == (t / 256) / 256 && t / 0x1000000 == (t / 0x10000) / 256;
  }

  /** What comes back for the field: the value written, if its width can hold it, and in any case
      the number of that width that differs from it by a multiple of 2^16 or 2^32. */
  ghost predicate ComesBack(f: Field, number: nat) {
    match f
    case Short(v) => number < 0x10000 && (number - v) % 0x10000 == 0 && (0 <= v < 0x10000 ==> number == v)
    case Long(v) =>
      number < 0x1_0000_0000 && (number - v) % 0x1_0000_0000 == 0 && (0 <= v < 0x1_0000_0000 ==> number == v)
  }

  lemma {:induction false} NumberComesBack(f: Field)
    ensures ComesBack(f, f.Number())
  {
    var m := if f.Short? then 0x10000 else 0x1_0000_0000;
    RemainderOf(f.Number() - f.value, m, -(f.value / m), 0);
  }

  /** `NS_PUT16` */
  method Put16(s: int, buf: array<Byte>, cp: nat) returns (next: nat)
    requires cp + 2 <= buf.Length
    modifies buf
    ensures next == cp + 2 && Spells(buf[..], cp, Short(s))
    ensures Pair(buf[cp], buf[cp + 1]) == s % 0x10000
    ensures forall i :: 0 <= i < buf.Length && !(cp <= i < next) ==> buf[i] == old(buf[i])
  {
    var t: nat := s % 0x10000;
    buf[cp], buf[cp + 1] := Low(Shr(t, 8)), Low(t);
    next := cp + 2;
    assert buf[..][cp..next] == [Low(Shr(t, 8)), Low(t)];
    TwoOctets(t);
    BigEndian2(buf[cp], buf[cp + 1]);
  }

  /** `NS_PUT32` */
  method Put32(l: int, buf: array<Byte>, cp: nat) returns (next: nat)
    requires cp + 4 <= buf.Length
    modifies buf
    ensures next == cp + 4 && Spells(buf[..], cp, Long(l))
    ensures Quad(buf[cp], buf[cp + 1], buf[cp + 2], buf[cp + 3]) == l % 0x1_0000_0000
    ensures forall i :: 0 <= i < buf.Length && !(cp <= i < next) ==> buf[i] == old(buf[i])
  {
    var t: nat := l % 0x1_0000_0000;
    buf[cp], buf[cp + 1] := Low(Shr(t, 24)), Low(Shr(t, 16));
    buf[cp + 2], buf[cp + 3] := Low(Shr(t, 8)), Low(t);
    next := cp + 4;
    assert buf[..][cp..next] == [Low(Shr(t, 24)), Low(Shr(t, 16)), Low(Shr(t, 8)), Low(t)];
    FourOctets(t);
    BigEndian4(buf[cp], buf[cp + 1], buf[cp + 2], buf[cp + 3]);
  }

  /** `NS_GET16` */
  method Get16(buf: array<Byte>, cp: nat) returns (s: nat, next: nat)
    requires cp + 2 <= buf.Length
    ensures next == cp + 2 && s == BigEndian(buf[cp..next])
    ensures s == Pair(buf[cp], buf[cp + 1])
  {
    Shifts();
    OrIsSum(buf[cp], buf[cp + 1], 8);
    s, next := Or(Shl(buf[cp], 8), buf[cp + 1]), cp + 2;
    assert buf[cp..next] == [buf[cp], buf[cp + 1]];
    BigEndian2(buf[cp], buf[cp + 1]);
  }

  /** `NS_GET32` */
  method Get32(buf: array<Byte>, cp: nat) returns (l: nat, next: nat)
    requires cp + 4 <= buf.Length
    ensures next == cp + 4 && l == BigEndian(buf[cp..next])
    ensures l == Quad(buf[cp], buf[cp + 1], buf[cp + 2], buf[cp + 3])
  {
    var a, b, c, d := buf[cp], buf[cp + 1], buf[cp + 2], buf[cp + 3];
    JoinOctets(a, b, c, d);
    BigEndian4(a, b, c, d);
    l, next := Or(Or(Or(Shl(a, 24), Shl(b, 16)), Shl(c, 8)), d), cp + 4;
    assert buf[cp..next] == [a, b, c, d];
  }

  lemma {:induction false} JoinOctets(a: Byte, b: Byte, c: Byte, d: Byte)
    ensures Or(Or(Or(Shl(a, 24), Shl(b, 16)), Shl(c, 8)), d) == BigEndian([a, b, c, d])
  {
    Shifts();
    BigEndian4(a, b, c, d);
    var ab, abc := 256 * a + b, 0x10000 * a + 256 * b + c;
    assert Or(Shl(a, 24), Shl(b, 16)) == ab * 0x10000 by { OrIsSum(a, b * 0x10000, 24); }
    assert Or(ab * 0x10000, Shl(c, 8)) == abc * 256 by { OrIsSum(ab, c * 256, 16); }
    OrIsSum(abc, d, 8);
  }

  function TotalWidth(fields: seq<Field>): nat {
    if fields == [] then 0 else TotalWidth(fields[..|fields| - 1]) + fields[|fields| - 1].Width()
  }

  /** The octets from `at` spell all the fields, one after the other. */
  ghost predicate SpellsAll(bytes: seq<Byte>, at: nat, fields: seq<Field>) {
    fields == [] ||
    (var n := |fields| - 1;
     SpellsAll(bytes, at, fields[..n]) && Spells(bytes, at + TotalWidth(fields[..n]), fields[n]))
  }

  lemma {:induction false} SpellingKept(a: seq<Byte>, b: seq<Byte>, at: nat, fields: seq<Field>, upto: nat)
    requires SpellsAll(a, at, fields) && at + TotalWidth(fields) <= upto <= |a| && upto <= |b| && a[..upto] == b[..upto]
    ensures SpellsAll(b, at, fields)
  {
    if fields != [] {
      var n := |fields| - 1;
      SpellingKept(a, b, at, fields[..n], upto);
      var from := at + TotalWidth(fields[..n]);
      SliceKept(a, b, upto, from, from + fields[n].Width());
    }
  }

  lemma {:induction false} SliceKept(a: seq<Byte>, b: seq<Byte>, upto: nat, i: nat, j: nat)
    requires i <= j <= upto <= |a| && upto <= |b| && a[..upto] == b[..upto]
    ensures a[i..j] == b[i..j]
  {
    assert a[i..j] == a[..upto][i..j];
    assert b[i..j] == b[..upto][i..j];
  }

  lemma {:induction false} WidthsGrow(fields: seq<Field>, i: nat)
    requires i <= |fields|
    ensures TotalWidth(fields[..i]) <= TotalWidth(fields)
    decreases |fields|
  {
    if i < |fields| {
      WidthsGrow(fields[..|fields| - 1], i);
      assert fields[..|fields| - 1][..i] == fields[..i];
    } else {
      assert fields[..i] == fields;
    }
  }

  /** The macro for the width of the field. */
  method Put(f: Field, buf: array<Byte>, cp: nat) returns (next: nat)
    requires cp + f.Width() <= buf.Length
    modifies buf
    ensures next == cp + f.Width() && Spells(buf[..], cp, f)
    ensures buf[..][..cp] == old(buf[..])[..cp] && buf[..][next..] == old(buf[..])[next..]
  {
    match f
    case Short(v) => next := Put16(v, buf, cp);
    case Long(v) => next := Put32(v, buf, cp);
  }

  method Get(f: Field, buf: array<Byte>, cp: nat) returns (value: nat, next: nat)
    requires cp + f.Width() <= buf.Length
    ensures next == cp + f.Width() && value == BigEndian(buf[cp..next])
  {
    match f
    case Short(_) => value, next := Get16(buf, cp);
    case Long(_) => value, next := Get32(buf, cp);
  }

  /** From `cp` on the buffer spells the fields, and around them it is what it was. */
  ghost predicate Filled(initial: seq<Byte>, bytes: seq<Byte>, cp: nat, fields: seq<Field>) {
    var next := cp + TotalWidth(fields);
    && next <= |bytes| == |initial| && SpellsAll(bytes, cp, fields)
    && bytes[..cp] == initial[..cp] && bytes[next..] == initial[next..]
  }

  /** One more field written after those already there. */
  lemma {:induction false} PutNext(initial: seq<Byte>, before: seq<Byte>, after: seq<Byte>,
                                   cp: nat, fields: seq<Field>, i: nat)
    requires i < |fields| && Filled(initial, before, cp, fields[..i]) && |after| == |before|
    requires var start := cp + TotalWidth(fields[..i]);
             var next := start + fields[i].Width();
             && next <= |after| && Spells(after, start, fields[i])
             && after[..start] == before[..start] && after[next..] == before[next..]
    ensures Filled(initial, after, cp, fields[..i + 1])
  {
    var start := cp + TotalWidth(fields[..i]);
    var next := start + fields[i].Width();
    assert fields[..i + 1][..i] == fields[..i];
    SpellingKept(before, after, cp, fields[..i], start);
    assert after[..cp] == after[..start][..cp] && before[..cp] == before[..start][..cp];
    assert before[next..] == before[start..][fields[i].Width()..];
    assert initial[next..] == initial[start..][fields[i].Width()..];
  }

  method PutAll(fields: seq<Field>, buf: array<Byte>, cp: nat) returns (next: nat)
    requires cp + TotalWidth(fields) <= buf.Length
    modifies buf
    ensures next == cp + TotalWidth(fields) && SpellsAll(buf[..], cp, fields)
    ensures buf[..cp] == old(buf[..cp]) && buf[next..] == old(buf[cp + TotalWidth(fields)..])
  {
    next := cp;
    ghost var initial := buf[..];
    var i := 0;
    while i < |fields|
      invariant 0 <= i <= |fields| && next == cp + TotalWidth(fields[..i])
      invariant Filled(initial, buf[..], cp, fields[..i])
    {
      ghost var before := buf[..];
      assert fields[..i + 1][..i] == fields[..i];
      WidthsGrow(fields, i + 1);
      next := Put(fields[i], buf, next);
      PutNext(initial, before, buf[..], cp, fields, i);
      i := i + 1;
    }
    assert fields[..i] == fields;
    assert buf[..][..cp] == buf[..cp] && buf[..][next..] == buf[next..];
  }

  /** Reads as many fields, of the same widths. */
  method GetAll(fields: seq<Field>, buf: array<Byte>, cp: nat) returns (values: seq<nat>, next: nat)
    requires SpellsAll(buf[..], cp, fields)
    ensures next == cp + TotalWidth(fields)
    ensures |values| == |fields| && forall i :: 0 <= i < |fields| ==> values[i] == fields[i].Number()
  {
    values, next := [], cp;
    var i := 0;
    while i < |fields|
      invariant 0 <= i <= |fields| && next == cp + TotalWidth(fields[..i]) && |values| == i
      invariant forall j :: 0 <= j < i ==> values[j] == fields[j].Number()
    {
      SpellsEach(buf[..], cp, fields, i);
      assert fields[..i + 1][..i] == fields[..i];
      ghost var start := next;
      var v;
      v, next := Get(fields[i], buf, next);
      assert buf[..][start..next] == buf[start..next];
      values, i := values + [v], i + 1;
    }
    assert fields[..i] == fields;
  }

  lemma {:induction false} SpellsEach(bytes: seq<Byte>, at: nat, fields: seq<Field>, i: nat)
    requires SpellsAll(bytes, at, fields) && i < |fields|
    ensures Spells(bytes, at + TotalWidth(fields[..i]), fields[i])
    decreases |fields|
  {
    var n := |fields| - 1;
    if i < n {
      SpellsEach(bytes, at, fields[..n], i);
      assert fields[..n][..i] == fields[..i];
    }
  }

  /** The spelling fixes the numbers: octets that spell two lists of fields of the same widths
      spell the same numbers. */
  lemma {:induction false} SpellingUnique(bytes: seq<Byte>, at: nat, f: seq<Field>, g: seq<Field>, i: nat)
    requires SpellsAll(bytes, at, f) && SpellsAll(bytes, at, g) && |f| == |g| && i < |f|
    requires forall j :: 0 <= j < |f| ==> f[j].Width() == g[j].Width()
    ensures f[i].Number() == g[i].Number()
    ensures ComesBack(f[i], g[i].Number())
  {
    NumberComesBack(f[i]);
    SpellsEach(bytes, at, f, i);
    SpellsEach(bytes, at, g, i);
    SameWidths(f[..i], g[..i]);
  }

  lemma {:induction false} SameWidths(f: seq<Field>, g: seq<Field>)
    requires |f| == |g| && forall j :: 0 <= j < |f| ==> f[j].Width() == g[j].Width()
    ensures TotalWidth(f) == TotalWidth(g)
  {
    if f != [] {
      SameWidths(f[..|f| - 1], g[..|g| - 1]);
    }
  }

  /** Writing any list of fields and reading it back gives the values written, cut to their
      widths, moves both cursors alike and touches nothing else. */
  method RoundTrip(fields: seq<Field>, buf: array<Byte>, cp: nat) returns (values: seq<nat>, put: nat, got: nat)
    requires cp + TotalWidth(fields) <= buf.Length
    modifies buf
    ensures put == got == cp + TotalWidth(fields)
    ensures |values| == |fields| && forall i :: 0 <= i < |fields| ==> ComesBack(fields[i], values[i])
    ensures buf[..cp] == old(buf[..cp]) && buf[put..] == old(buf[cp + TotalWidth(fields)..])
  {
    put := PutAll(fields, buf, cp);
    values, got := GetAll(fields, buf, cp);
    forall i | 0 <= i < |fields| ensures ComesBack(fields[i], values[i]) {
      NumberComesBack(fields[i]);
    }
  }

  // ---- The type bitmap of NXT records (section 5.2 of RFC 2535) ----

  function TypeMask(n: nat): nat { Shr(0x80, n % 8) }

  predicate IsSet(n: nat, p: seq<Byte>)
    requires n / 8 < |p|
  {
    And(p[n / 8], TypeMask(n)) != 0
  }

  /** The types a bitmap lists. */
  ghost function Types(p: seq<Byte>): set<nat> {
    set n: nat | n < 8 * |p| && IsSet(n, p)
  }

  lemma {:induction false} TypeMaskIsBit(n: nat)
    ensures TypeMask(n) == Pow2(7 - n % 8) && TypeMask(n) < 256
  {
    MaskShift(n % 8);
  }

  lemma {:induction false} MaskShift(k: nat)
    requires k < 8
    ensures Shr(0x80, k) == Pow2(7 - k) <= 0x80
  {
    ShiftDown(7, k);
    assert Pow2(7) == 0x80 by { assert Pow2(3) == 8 && Pow2(5) == 32; }
    Pow2Monotone(7 - k, 7);
  }

  lemma {:induction false} ShiftDown(n: nat, k: nat)
    requires k <= n
    ensures Shr(Pow2(n), k) == Pow2(n - k)
    decreases k
  {
    if k > 0 {
      ShiftDown(n - 1, k - 1);
    }
  }

  lemma {:induction false} IsSetIsBit(n: nat, p: seq<Byte>)
    requires n / 8 < |p|
    ensures IsSet(n, p) <==> Bit(p[n / 8], 7 - n % 8)
  {
    TypeMaskIsBit(n);
    AndMask(p[n / 8], 7 - n % 8);
  }

  /** A type is listed if its bit is set, the most significant bit of an octet standing for the
      lowest type. */
  lemma {:induction false} ListedExactly(p: seq<Byte>, n: nat)
    ensures n in Types(p) <==> n < 8 * |p| && p[n / 8] / Pow2(7 - n % 8) % 2 == 1
  {
    if n < 8 * |p| {
      IsSetIsBit(n, p);
      BitIsDigit(p[n / 8], 7 - n % 8);
    }
  }

  lemma {:induction false} SetOne(p: seq<Byte>, q: seq<Byte>, n: nat)
    requires n / 8 < |p| == |q| && q == p[n / 8 := q[n / 8]] && q[n / 8] == Or(p[n / 8], TypeMask(n))
    ensures Types(q) == Types(p) + {n}
  {
    TypeMaskIsBit(n);
    forall m: nat | m < 8 * |p| ensures IsSet(m, q) <==> IsSet(m, p) || m == n {
      IsSetIsBit(m, p);
      IsSetIsBit(m, q);
      OrBit(p[n / 8], TypeMask(n), 7 - m % 8);
      Pow2Bit(7 - n % 8, 7 - m % 8);
    }
  }

  lemma {:induction false} ClearOne(p: seq<Byte>, q: seq<Byte>, n: nat)
    requires n / 8 < |p| == |q| && q == p[n / 8 := q[n / 8]] && q[n / 8] == AndNot(p[n / 8], TypeMask(n))
    ensures Types(q) == Types(p) - {n}
  {
    TypeMaskIsBit(n);
    forall m: nat | m < 8 * |p| ensures IsSet(m, q) <==> IsSet(m, p) && m != n {
      IsSetIsBit(m, p);
      IsSetIsBit(m, q);
      AndNotBit(p[n / 8], TypeMask(n), 7 - m % 8);
      Pow2Bit(7 - n % 8, 7 - m % 8);
    }
  }

  /** `NS_NXT_BIT_SET` */
  method BitSet(n: nat, p: array<Byte>)
    requires n / 8 < p.Length
    modifies p
    ensures Types(p[..]) == old(Types(p[..])) + {n}
  {
    TypeMaskIsBit(n);
    Shifts();
    OrBound(p[n / 8], TypeMask(n), 8);
    p[n / 8] := Or(p[n / 8], TypeMask(n));
    SetOne(old(p[..]), p[..], n);
  }

  /** `NS_NXT_BIT_CLEAR` */
  method BitClear(n: nat, p: array<Byte>)
    requires n / 8 < p.Length
    modifies p
    ensures Types(p[..]) == old(Types(p[..])) - {n}
  {
    AndNotBound(p[n / 8], TypeMask(n));
    p[n / 8] := AndNot(p[n / 8], TypeMask(n));
    ClearOne(old(p[..]), p[..], n);
  }
}
