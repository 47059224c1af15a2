/** The frequency tables in an LZFSE block header: a fixed prefix code, packed from the
    lowest bit on. */
module FseFreqTable {
  import opened Arith
  import opened Nibbles
  import opened Words
  import opened FseStream

  const MAX_FREQ := 1047

  /** Number of bits of a value's code, and the code. */
  function CodeOf(v: nat): (nat, nat) {
    if v == 0 then (2, 0)
    else if v == 1 then (2, 2)
    else if v == 2 then (3, 1)
    else if v == 3 then (3, 5)
    else if v == 4 then (5, 3)
    else if v == 5 then (5, 11)
    else if v == 6 then (5, 19)
    else if v == 7 then (5, 27)
    else if v < 24 then (8, 7 + (v - 8) * 16)
    else (14, (v - 24) * 16 + 15)
  }

  /** The decoder's tables over the five lowest bits, in rows of eight. */
  const NBITS_TABLE: seq<seq<nat>> :=
    [[2, 3, 2, 5, 2, 3, 2, 8], [2, 3, 2, 5, 2, 3, 2, 14],
     [2, 3, 2, 5, 2, 3, 2, 8], [2, 3, 2, 5, 2, 3, 2, 14]]

  const VALUE_TABLE: seq<seq<int>> :=
    [[0, 2, 1, 4, 0, 3, 1, -1], [0, 2, 1, 5, 0, 3, 1, -1],
     [0, 2, 1, 6, 0, 3, 1, -1], [0, 2, 1, 7, 0, 3, 1, -1]]

  function NbitsAt(b: nat): (n: nat)
    requires b < 32
    ensures n <= 14
  {
    NBITS_TABLE[b / 8][b % 8]
  }

  function ValueAt(b: nat): int
    requires b < 32
  {
    VALUE_TABLE[b / 8][b % 8]
  }

  /** The value at the low end of `bits`, and how many bits it takes. */
  function ValueOf(bits: nat): (r: (int, nat))
    ensures r.1 <= 14 && r.0 >= 0
  {
    var b := bits % 32;
    TablesAt(b);
    var n := NbitsAt(b);
    if n == 8 then (8 + bits / 16 % 16, n)
    else if n == 14 then (24 + bits / 16 % 1024, n)
    else (ValueAt(b), n)
  }

  /** The position of the lowest zero bit gives the length. */
  lemma TablesAt(b: nat)
    requires b < 32
    ensures b % 4 == 0 ==> NbitsAt(b) == 2 && ValueAt(b) == 0
    ensures b % 4 == 2 ==> NbitsAt(b) == 2 && ValueAt(b) == 1
    ensures b % 8 == 1 ==> NbitsAt(b) == 3 && ValueAt(b) == 2
    ensures b % 8 == 5 ==> NbitsAt(b) == 3 && ValueAt(b) == 3
    ensures b % 8 == 3 ==> NbitsAt(b) == 5 && ValueAt(b) == 4 + b / 8
    ensures b % 16 == 7 ==> NbitsAt(b) == 8
    ensures b % 16 == 15 ==> NbitsAt(b) == 14
  {
    assert b / 8 == 0 || b / 8 == 1 || b / 8 == 2 || b / 8 == 3;
  }

  /** The code is a prefix code: whatever lies above a value's bits, the value is read. */
  lemma CodeIsRead(v: nat, above: nat)
    requires v <= MAX_FREQ
    ensures var (n, c) := CodeOf(v);
            c < Pow2(n) && n <= 14 && ValueOf(c + above * Pow2(n)) == (v, n)
  {
    hide NbitsAt, ValueAt, Pow2, ValueOf;
    SmallPowers();
    if v < 8 {
      ShortCode(v, above);
    } else if v < 24 {
      ByteCodeRead(v - 8, above);
    } else {
      LongCode(v - 24, above);
    }
  }

  lemma ShortCode(v: nat, above: nat)
    requires v < 8
    ensures v < 2 ==> ValueOf(2 * v + above * 4) == (v, 2)
    ensures 2 <= v < 4 ==> ValueOf(4 * v - 7 + above * 8) == (v, 3)
    ensures 4 <= v ==> ValueOf(8 * v - 29 + above * 32) == (v, 5)
  {
    hide NbitsAt, ValueAt;
    TablesAt(if v < 2 then (2 * v + above * 4) % 32 else if v < 4 then (4 * v - 7 + above * 8) % 32 else 8 * v - 29);
    if v < 2 {
      Low(2 * v, above, 4, 8, 32);
    } else if v < 4 {
      Low(4 * v - 7, above, 8, 4, 32);
    } else {
      LowDigit(8 * v - 29, above, 32);
    }
  }

  lemma ByteCodeRead(d: nat, above: nat)
    requires d < 16
    ensures ValueOf(7 + d * 16 + above * 256) == (8 + d, 8)
  {
    hide NbitsAt, ValueAt;
    var x := 7 + d * 16 + above * 256;
    assert x == 7 + (d + above * 16) * 16;
    Low(7, d + above * 16, 16, 2, 32);
    TablesAt(x % 32);
    LowDigit(d, above, 16);
  }

  lemma LongCode(d: nat, above: nat)
    requires d < 1024
    ensures ValueOf(d * 16 + 15 + above * 0x4000) == (24 + d, 14)
  {
    hide NbitsAt, ValueAt;
    var x := d * 16 + 15 + above * 0x4000;
    assert x == 15 + (d + above * 1024) * 16;
    Low(15, d + above * 1024, 16, 2, 32);
    TablesAt(x % 32);
    LowDigit(d, above, 1024);
  }

  /** The last code has room for values up to 1047 and no more. */
  lemma CodeFits(v: nat)
    ensures CodeOf(v).1 < Pow2(CodeOf(v).0) <==> v <= MAX_FREQ
  {
    SmallPowers();
  }

  /** The low digit of a number, read off its remainder by a multiple of the base. */
  lemma Low(c: nat, above: nat, base: nat, k: nat, m: nat)
    requires base > 0 && c < base && k > 0 && m == k * base > 0
    ensures (c + above * base) % m % base == c
    ensures (c + above * base) / base == above
  {
    var q, r := above / k, above % k;
    assert above * base == q * m + r * base by { Regroup(above, base, k, q, r); }
    assert r * base + c < m by { MulMonotone(r + 1, k, base); assert (r + 1) * base == r * base + base; }
    DivModUnique(c + above * base, m, q, r * base + c);
    DivModUnique(r * base + c, base, r, c);
    DivModUnique(c + above * base, base, above, c);
  }

  lemma Regroup(above: nat, base: nat, k: nat, q: nat, r: nat)
    requires above == q * k + r
    ensures above * base == q * (k * base) + r * base
  {
    assert q * (k * base) == q * k * base;
  }

  lemma LowDigit(d: nat, above: nat, base: nat)
    requires d < base
    ensures (d + above * base) % base == d
  {
    DivModUnique(d + above * base, base, above, d);
  }

  lemma SmallPowers()
    ensures Pow2(2) == 4 && Pow2(3) == 8 && Pow2(5) == 32 && Pow2(8) == 256 && Pow2(14) == 0x4000
  {
    Pow2Add(4, 4);
    Pow2Values();
    assert Pow2(4) == 16;
  }

  /** Only the low fourteen bits matter. */
  lemma LowBitsDecide(a: nat, above: nat, n: nat)
    requires n >= 14
    ensures ValueOf(a + above * Pow2(n)) == ValueOf(a)
  {
    hide NbitsAt, ValueAt, Pow2;
    SmallPowers();
    Pow2Add(14, n - 14);
    var m := above * Pow2(n - 14);
    assert above * Pow2(n) == m * 0x4000;
    SameRest(a, m * 0x200, 32);
    SameRest(a / 16, m * 64, 16);
    SameRest(a / 16, m, 1024);
    Sixteenth(a, m);
  }

  lemma Sixteenth(a: nat, m: nat)
    ensures (a + m * 0x4000) / 16 == a / 16 + m * 1024
  {
    DivModUnique(a + m * 0x4000, 16, a / 16 + m * 1024, a % 16);
  }

  lemma SameRest(a: nat, m: nat, d: nat)
    requires d > 0
    ensures (a + m * d) % d == a % d
  {
    assert a + m * d == (a / d + m) * d + a % d by { assert (a / d + m) * d == a / d * d + m * d; }
    DivModUnique(a + m * d, d, a / d + m, a % d);
  }

  // ---------------------------------------------------------------------- packing

  ghost predicate Storable(vs: seq<nat>) {
    forall i | 0 <= i < |vs| :: vs[i] <= MAX_FREQ
  }

  /** All codes, each above the ones before. */
  function Packed(vs: seq<nat>): Bits {
    if vs == [] then Bits(0, 0)
    else
      var (n, c) := CodeOf(vs[|vs| - 1]);
      Packed(vs[..|vs| - 1]).Push(n, c)
  }

  lemma {:induction false} PackedFits(vs: seq<nat>)
    requires Storable(vs)
    ensures Packed(vs).Fits()
    decreases vs
  {
    hide CodeOf, Pow2;
    if vs == [] {
      Pow2Eight();
    } else {
      PackedFits(vs[..|vs| - 1]);
      var (n, c) := CodeOf(vs[|vs| - 1]);
      CodeIsRead(vs[|vs| - 1], 0);
      PopUndoesPush(Packed(vs[..|vs| - 1]), n, c);
    }
  }

  /** Seen from the low end: the first code, and the others above it. */
  lemma {:induction false} PackedFirst(v: nat, vs: seq<nat>)
    ensures var (n, c) := CodeOf(v);
            && Packed([v] + vs).value == c + Packed(vs).value * Pow2(n)
            && Packed([v] + vs).count == n + Packed(vs).count
    decreases vs
  {
    hide CodeOf, Pow2;
    var (n, c) := CodeOf(v);
    if vs == [] {
      assert ([v] + vs)[..0] == [];
      Pow2Eight();
    } else {
      var last := |vs| - 1;
      assert ([v] + vs)[..last + 1] == [v] + vs[..last];
      PackedFirst(v, vs[..last]);
      var (m, d) := CodeOf(vs[last]);
      Pow2Add(n, Packed(vs[..last]).count);
      Distribute(Packed(vs[..last]).value, d, Pow2(Packed(vs[..last]).count), Pow2(n));
    }
  }

  lemma Distribute(a: nat, d: nat, p: nat, q: nat)
    ensures (a + d * p) * q == a * q + d * (q * p)
  {
    assert d * p * q == d * (q * p);
  }

  /** The header's bytes. */
  function Encode(vs: seq<nat>): (b: seq<byte>) {
    LE(Packed(vs).value, (Packed(vs).count + 7) / 8)
  }

  // -------------------------------------------------------------------- unpacking

  /** `count` values from `left` bits; less than a byte may be left over. */
  function Unpack(value: nat, left: nat, count: nat): (r: Option<seq<nat>>)
    ensures r.Some? ==> |r.value| == count
    decreases count, left
  {
    if count == 0 then (if left < 8 then Some([]) else None)
    else
      var (v, n) := ValueOf(value);
      if n > left then None
      else
        QuotientIsNat(value, Pow2(n));
        match Unpack(value / Pow2(n), left - n, count - 1)
        case None => None
        case Some(rest) => Some([v] + rest)
  }

  /** The tables of a header; without any bytes all frequencies are zero. */
  function ReadTable(buf: seq<byte>, count: nat): (r: Option<seq<nat>>)
    ensures r.Some? ==> |r.value| == count
  {
    if buf == [] then Some(seq(count, _ => 0)) else Unpack(Value(buf), 8 * |buf|, count)
  }

  lemma {:induction false} UnpackPacked(vs: seq<nat>, left: nat)
    requires Storable(vs) && Packed(vs).count <= left < Packed(vs).count + 8
    ensures Unpack(Packed(vs).value, left, |vs|) == Some(vs)
    decreases |vs|
  {
    hide CodeOf, ValueOf, Pow2;
    if vs == [] {
    } else {
      assert vs == [vs[0]] + vs[1..];
      PackedFirst(vs[0], vs[1..]);
      var (n, c) := CodeOf(vs[0]);
      CodeIsRead(vs[0], Packed(vs[1..]).value);
      DivModUnique(Packed(vs).value, Pow2(n), Packed(vs[1..]).value, c);
      UnpackPacked(vs[1..], left - n);
    }
  }

  /** The header codec inverts: all values up to 1047 come back, the bits are all there, and
      less than a byte is left at the end. */
  lemma TableRoundTrip(vs: seq<nat>)
    requires Storable(vs)
    ensures ReadTable(Encode(vs), |vs|) == Some(vs)
  {
    UnpackEncoded(vs);
    if vs != [] {
      PackedFirst(vs[0], vs[1..]);
      assert [vs[0]] + vs[1..] == vs;
    }
  }

  lemma UnpackEncoded(vs: seq<nat>)
    requires Storable(vs)
    ensures Unpack(Value(Encode(vs)), 8 * |Encode(vs)|, |vs|) == Some(vs)
  {
    hide Packed, Unpack, LE, Pow2, Value;
    var m := (Packed(vs).count + 7) / 8;
    PackedFits(vs);
    ValueOfLE(Packed(vs).value, m);
    Pow2Monotone(Packed(vs).count, 8 * m);
    DivModUnique(Packed(vs).value, Pow2(8 * m), 0, Packed(vs).value);
    UnpackPacked(vs, 8 * m);
  }

  // --------------------------------------------------------------------- the loops

  /** lzfse_encode_v1_freq_table. */
  method EncodeTable(vs: seq<nat>, dst: array<byte>) returns (size: nat)
    requires Storable(vs) && dst.Length >= |Encode(vs)|
    modifies dst
    ensures size == |Encode(vs)| && dst[..size] == Encode(vs)
    ensures dst[size..] == old(dst[size..])
  {
    hide CodeOf, Pow2, Value, Held, Packed, LE;
    var accum: dword, nbits: nat := 0, 0;
    size := 0;
    EmptyPack(dst[..0]);
    for i := 0 to |vs|
      invariant size <= dst.Length && nbits < 8 && accum < Pow2(nbits)
      invariant Held(dst[..size], accum, nbits) == Packed(vs[..i])
      invariant dst[size..] == old(dst[size..])
    {
      NextCode(vs, i);
      CountMonotone(vs, i + 1);
      HeldCount(dst[..size], accum, nbits);
      size, accum, nbits := PutValue(vs[i], dst, size, accum, nbits);
    }
    assert vs[..|vs|] == vs;
    ghost var was, at := dst[..], size;
    assert was[at..] == old(dst[..])[at..];
    size := PutLast(dst, size, accum, nbits, Packed(vs));
    assert was[size..] == was[at..][size - at..];
    assert old(dst[..])[size..] == old(dst[..])[at..][size - at..];
  }

  /** The bits left over go into one more byte, if there are any. */
  method PutLast(dst: array<byte>, size0: nat, accum: dword, nbits: nat, ghost all: Bits) returns (size: nat)
    requires size0 <= dst.Length && nbits < 8 && accum < Pow2(nbits)
    requires Held(dst[..size0], accum, nbits) == all && dst.Length >= (all.count + 7) / 8
    modifies dst
    ensures size0 <= size == (all.count + 7) / 8 <= dst.Length && dst[..size] == LE(all.value, size)
    ensures dst[size..] == old(dst[size..])
  {
    hide Pow2, Value, Held, LE;
    HeldCount(dst[..size0], accum, nbits);
    size := size0;
    if nbits > 0 {
      LastByte(dst[..size], accum, nbits);
      ghost var was := dst[..];
      dst[size] := accum % 0x100;
      assert dst[..size + 1] == was[..size] + [accum % 0x100];
      assert dst[size + 1..] == was[size + 1..];
      size := size + 1;
    } else {
      NoLastByte(dst[..size], accum);
    }
    BytesOfValue(dst[..size]);
  }

  /** One value: its code goes above the accumulator, and the whole bytes out. */
  method PutValue(v: nat, dst: array<byte>, size0: nat, accum0: dword, nbits0: nat) returns (size: nat, accum: dword, nbits: nat)
    requires v <= MAX_FREQ && nbits0 < 8 && accum0 < Pow2(nbits0) && size0 <= dst.Length
    requires 8 * size0 + nbits0 + CodeOf(v).0 <= 8 * dst.Length + 7
    modifies dst
    ensures size0 <= size <= dst.Length && nbits < 8 && accum < Pow2(nbits)
    ensures var (n, c) := CodeOf(v);
            Held(dst[..size], accum, nbits) == Held(old(dst[..size0]), accum0, nbits0).Push(n, c)
    ensures dst[size..] == old(dst[size..])
  {
    hide CodeOf, Pow2, Value, Held, Or;
    var (n, c) := CodeOf(v);
    CodeIsRead(v, 0);
    HeldPush(dst[..size0], accum0, nbits0, n, c);
    OrDisjoint(accum0, c, nbits0);
    FitsDword(accum0 + c * Pow2(nbits0), nbits0 + n);
    size, accum, nbits := StoreBytes(dst, size0, Or(accum0, c * Pow2(nbits0)), nbits0 + n);
  }

  lemma HeldCount(low: seq<byte>, accum: nat, nbits: nat)
    ensures Held(low, accum, nbits).count == 8 * |low| + nbits
  {
  }

  lemma EmptyPack(none: seq<byte>)
    requires none == []
    ensures Held(none, 0, 0) == Packed([]) && Pow2(0) == 1
  {
  }

  lemma NextCode(vs: seq<nat>, i: nat)
    requires Storable(vs) && i < |vs|
    ensures var (n, c) := CodeOf(vs[i]);
            && Packed(vs[..i + 1]) == Packed(vs[..i]).Push(n, c) && n <= 14 && c < Pow2(n)
  {
    hide Pow2, CodeOf;
    assert vs[..i + 1][..i] == vs[..i];
    CodeIsRead(vs[i], 0);
  }

  lemma {:induction false} CountMonotone(vs: seq<nat>, i: nat)
    requires i <= |vs|
    ensures Packed(vs[..i]).count <= Packed(vs).count
    decreases vs
  {
    if i == |vs| {
      assert vs[..i] == vs;
    } else {
      assert vs[..|vs| - 1][..i] == vs[..i];
      CountMonotone(vs[..|vs| - 1], i);
    }
  }

  lemma FitsDword(x: nat, n: nat)
    requires x < Pow2(n) && n <= 32
    ensures x < 0x1_0000_0000
  {
    Pow2Values();
    Pow2Monotone(n, 32);
  }

  /** The whole bytes of the accumulator go to the output. */
  method StoreBytes(dst: array<byte>, size0: nat, accum0: dword, nbits0: nat) returns (size: nat, accum: dword, nbits: nat)
    requires accum0 < Pow2(nbits0) && size0 + nbits0 / 8 <= dst.Length
    modifies dst
    ensures size0 <= size <= dst.Length && nbits < 8 && accum < Pow2(nbits)
    ensures Held(dst[..size], accum, nbits) == Held(old(dst[..size0]), accum0, nbits0)
    ensures dst[size..] == old(dst[size..])
  {
    hide Pow2, Value, Held;
    size, accum, nbits := size0, accum0, nbits0;
    while nbits >= 8
      invariant size0 <= size && 8 * size + nbits == 8 * size0 + nbits0 && accum < Pow2(nbits)
      invariant Held(dst[..size], accum, nbits) == Held(old(dst[..size0]), accum0, nbits0)
      invariant dst[size..] == old(dst[size..])
    {
      OneByte(dst[..size], accum, nbits);
      assert size < dst.Length;
      assert dst[size..][1..] == dst[size + 1..] && old(dst[size..])[1..] == old(dst[size + 1..]);
      dst[size] := accum % 0x100;
      assert dst[..size + 1] == dst[..size] + [accum % 0x100];
      size, accum, nbits := size + 1, accum / 0x100, nbits - 8;
    }
  }

  lemma OneByte(low: seq<byte>, accum: nat, nbits: nat)
    requires nbits >= 8 && accum < Pow2(nbits)
    ensures Held(low + [accum % 0x100], accum / 0x100, nbits - 8) == Held(low, accum, nbits)
    ensures accum / 0x100 < Pow2(nbits - 8)
  {
    hide Pow2, Held;
    Pow2Eight();
    HeldMove(low, [accum % 0x100], accum / 0x100, nbits - 8);
    HighPart(accum, nbits, 8);
  }

  lemma LastByte(low: seq<byte>, accum: nat, nbits: nat)
    requires 0 < nbits < 8 && accum < Pow2(nbits)
    ensures accum < 0x100
    ensures Value(low + [accum % 0x100]) == Held(low, accum, nbits).value
  {
    hide Pow2;
    Pow2Eight();
    Pow2Monotone(nbits, 8);
    ValueConcat(low, [accum % 0x100]);
  }

  lemma NoLastByte(low: seq<byte>, accum: nat)
    requires accum < Pow2(0)
    ensures Value(low) == Held(low, accum, 0).value
  {
  }

  /** A byte string is the little-endian form of its value. */
  lemma {:induction false} BytesOfValue(b: seq<byte>)
    ensures LE(Value(b), |b|) == b
    decreases b
  {
    if b == [] {
    } else {
      assert Value(b) == b[0] + 0x100 * Value(b[1..]);
      BytesOfValue(b[1..]);
    }
  }

  /** The tables of lzfse_decode_v1, for every header content; they may be omitted. */
  method DecodeTable(buf: seq<byte>, count: nat, dst: array<nat>) returns (ok: bool)
    requires count > 0 && dst.Length >= count
    modifies dst
    ensures ReadTable(buf, count) == if ok then Some(dst[..count]) else None
  {
    hide Value, Unpack;
    for i := 0 to count
      invariant dst[..i] == seq(i, _ => 0)
    {
      dst[i] := 0;
      assert dst[..i + 1] == dst[..i] + [0];
    }
    if buf == [] { return true; }
    ok := DecodeFreqs(buf, count, dst);
  }

  /** The frequency loop. */
  method DecodeFreqs(buf: seq<byte>, count: nat, dst: array<nat>) returns (ok: bool)
    requires count > 0 && dst.Length >= count
    modifies dst
    ensures Unpack(Value(buf), 8 * |buf|, count) == if ok then Some(dst[..count]) else None
  {
    hide ValueOf, Pow2, Value, Unpack;
    var src := 0;
    var accum: dword, nbits: nat := 0, 0;
    assert buf[0..] == buf;
    StartRest(Value(buf));
    for i := 0 to count
      invariant src <= |buf| && nbits <= 32 && accum < Pow2(nbits)
      invariant Whole(dst[..i], Unpack(Rest(accum, nbits, buf[src..]), nbits + 8 * (|buf| - src), count - i))
             == Unpack(Value(buf), 8 * |buf|, count)
      invariant i > 0 && src < |buf| ==> nbits >= 8
    {
      src, accum, nbits := Refill(buf, src, accum, nbits);
      var (v, n) := ValueOf(accum);
      UnpackOne(accum, nbits, buf[src..], count - i);
      ghost var done := dst[..i];
      dst[i] := v;
      if n > nbits { return false; }
      Consume(accum, nbits, buf[src..], n);
      WholeNext(done, v, Unpack(Rest(accum / Pow2(n), nbits - n, buf[src..]), nbits - n + 8 * (|buf| - src), count - i - 1));
      assert dst[..i + 1] == done + [v];
      QuotientIsNat(accum, Pow2(n));
      accum, nbits := accum / Pow2(n), nbits - n;
    }
    UnpackNone(Rest(accum, nbits, buf[src..]), nbits + 8 * (|buf| - src));
    assert dst[..count] + [] == dst[..count];
    ok := !(nbits >= 8 || src != |buf|);
  }

  /** What is still to be read: the accumulator, and the bytes above it. */
  ghost function Rest(accum: nat, nbits: nat, bytes: seq<byte>): nat {
    accum + Value(bytes) * Pow2(nbits)
  }

  ghost function Whole(done: seq<nat>, r: Option<seq<nat>>): Option<seq<nat>> {
    match r
    case None => None
    case Some(vs) => Some(done + vs)
  }

  lemma StartRest(v: nat)
    ensures v * Pow2(0) == v && 0 < Pow2(0)
    ensures forall r: Option<seq<nat>> :: Whole([], r) == r
  {
    forall r: Option<seq<nat>>
      ensures Whole([], r) == r
    {
      if r.Some? {
        assert [] + r.value == r.value;
      }
    }
  }

  lemma WholeNext(done: seq<nat>, v: nat, r: Option<seq<nat>>)
    ensures Whole(done, Whole([v], r)) == Whole(done + [v], r)
  {
    if r.Some? {
      assert done + ([v] + r.value) == done + [v] + r.value;
    }
  }

  lemma UnpackNone(value: nat, left: nat)
    ensures Unpack(value, left, 0) == if left < 8 then Some([]) else None
  {
  }

  /** One value off what is left: the accumulator decides, since it holds fourteen bits or
      everything. */
  lemma UnpackOne(accum: nat, nbits: nat, bytes: seq<byte>, count: nat)
    requires count > 0 && (bytes == [] || nbits >= 14)
    ensures var (v, n) := ValueOf(accum);
            var left := nbits + 8 * |bytes|;
            && 0 <= Rest(accum, nbits, bytes) / Pow2(n)
            && Unpack(Rest(accum, nbits, bytes), left, count)
               == (if n > nbits then None
                   else Whole([v], Unpack(Rest(accum, nbits, bytes) / Pow2(n), left - n, count - 1)))
  {
    hide ValueOf, Pow2;
    if bytes == [] {
      assert Rest(accum, nbits, bytes) == accum;
    } else {
      LowBitsDecide(accum, Value(bytes), nbits);
    }
    QuotientIsNat(Rest(accum, nbits, bytes), Pow2(ValueOf(accum).1));
  }

  lemma Consume(accum: nat, nbits: nat, bytes: seq<byte>, n: nat)
    requires n <= nbits && accum < Pow2(nbits)
    ensures 0 <= accum / Pow2(n) < Pow2(nbits - n)
    ensures Rest(accum, nbits, bytes) / Pow2(n) == Rest(accum / Pow2(n), nbits - n, bytes)
  {
    hide Pow2, Value;
    HighPart(accum, nbits, n);
    QuotientIsNat(accum, Pow2(n));
    Pow2Add(n, nbits - n);
    Quotients(accum, Value(bytes), Pow2(n), Pow2(nbits - n));
  }

  lemma Quotients(a: nat, v: nat, p: nat, r: nat)
    requires p > 0
    ensures (a + v * (p * r)) / p == a / p + v * r
  {
    assert v * (p * r) == v * r * p;
    assert (a / p + v * r) * p == a / p * p + v * r * p;
    DivModUnique(a + v * (p * r), p, a / p + v * r, a % p);
  }

  /** Bytes go above the accumulator until it holds more than 24 bits or none are left. */
  method Refill(buf: seq<byte>, src0: nat, accum0: dword, nbits0: nat) returns (src: nat, accum: dword, nbits: nat)
    requires src0 <= |buf| && nbits0 <= 32 && accum0 < Pow2(nbits0)
    ensures src0 <= src <= |buf| && nbits <= 32 && accum < Pow2(nbits)
    ensures src == |buf| || nbits > 24
    ensures nbits + 8 * (|buf| - src) == nbits0 + 8 * (|buf| - src0)
    ensures Rest(accum, nbits, buf[src..]) == Rest(accum0, nbits0, buf[src0..])
  {
    hide Pow2, Value, Rest, Or;
    src, accum, nbits := src0, accum0, nbits0;
    while src < |buf| && nbits + 8 <= 32
      invariant src0 <= src <= |buf| && nbits <= 32 && accum < Pow2(nbits)
      invariant nbits + 8 * (|buf| - src) == nbits0 + 8 * (|buf| - src0)
      invariant Rest(accum, nbits, buf[src..]) == Rest(accum0, nbits0, buf[src0..])
    {
      TakeByte(accum, nbits, buf[src..]);
      OrDisjoint(accum, buf[src], nbits);
      FitsDword(accum + buf[src] * Pow2(nbits), nbits + 8);
      assert buf[src..][1..] == buf[src + 1..];
      accum := Or(accum, buf[src] * Pow2(nbits));
      src, nbits := src + 1, nbits + 8;
    }
  }

  lemma TakeByte(accum: nat, nbits: nat, bytes: seq<byte>)
    requires bytes != [] && accum < Pow2(nbits)
    ensures accum + bytes[0] * Pow2(nbits) < Pow2(nbits + 8)
    ensures Rest(accum + bytes[0] * Pow2(nbits), nbits + 8, bytes[1..]) == Rest(accum, nbits, bytes)
  {
    hide Pow2;
    Pow2Eight();
    PopUndoesPush(Bits(accum, nbits), 8, bytes[0]);
    Pow2Add(8, nbits);
    Spread(bytes[0], Value(bytes[1..]), Pow2(nbits));
  }

  lemma Spread(b: nat, v: nat, p: nat)
    ensures (b + 0x100 * v) * p == b * p + v * (0x100 * p)
  {
  }
}
