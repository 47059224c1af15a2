/** The bit streams of LZFSE: bits pushed forwards through a 64-bit accumulator are pulled
    backwards, so a stream is a stack of bit groups. */
module FseStream {
  import opened Arith
  import opened Nibbles
  import opened Words

  // ------------------------------------------------------------------ the stack

  /** All bits of a stream as one number of `count` bits; the top group is the highest. */
  datatype Bits = Bits(value: nat, count: nat)
  {
    ghost predicate Fits() {
      value < Pow2(count)
    }

    function Push(n: nat, b: nat): Bits {
      Bits(value + b * Pow2(count), count + n)
    }

    function Top(n: nat): nat
      requires n <= count
    {
      QuotientIsNat(value, Pow2(count - n));
      value / Pow2(count - n)
    }

    function Pop(n: nat): Bits
      requires n <= count
    {
      Bits(value % Pow2(count - n), count - n)
    }
  }

  lemma PopUndoesPush(s: Bits, n: nat, b: nat)
    requires s.Fits() && b < Pow2(n)
    ensures s.Push(n, b).Fits()
    ensures s.Push(n, b).Top(n) == b && s.Push(n, b).Pop(n) == s
  {
    hide Pow2;
    Pow2Add(s.count, n);
    MulMonotone(b + 1, Pow2(n), Pow2(s.count));
    assert (b + 1) * Pow2(s.count) == b * Pow2(s.count) + Pow2(s.count);
    assert Pow2(s.count) * Pow2(n) == Pow2(n) * Pow2(s.count);
    DivModUnique(s.value + b * Pow2(s.count), Pow2(s.count), b, s.value);
  }

  /** Pulling two adjacent groups at once yields both. */
  lemma PopTwo(s: Bits, n: nat, a: nat, m: nat, b: nat)
    requires s.Fits() && a < Pow2(n) && b < Pow2(m)
    ensures var t := s.Push(n, a).Push(m, b);
            t.Top(n + m) == b * Pow2(n) + a && t.Pop(n + m) == s
    ensures b * Pow2(n) + a < Pow2(n + m)
    ensures (b * Pow2(n) + a) / Pow2(n) == b && (b * Pow2(n) + a) % Pow2(n) == a
  {
    hide Pow2;
    Pow2Add(n, m);
    MulMonotone(b + 1, Pow2(m), Pow2(n));
    assert (b + 1) * Pow2(n) == b * Pow2(n) + Pow2(n);
    assert Pow2(n) * Pow2(m) == Pow2(m) * Pow2(n);
    Pow2Add(s.count, n);
    assert (b * Pow2(n) + a) * Pow2(s.count) == b * (Pow2(s.count) * Pow2(n)) + a * Pow2(s.count);
    PopUndoesPush(s, n + m, b * Pow2(n) + a);
    DivModUnique(b * Pow2(n) + a, Pow2(n), b, a);
  }

  // ----------------------------------------------------------- bytes as numbers

  /** A little-endian number. */
  function Value(b: seq<byte>): nat {
    if b == [] then 0 else b[0] + 0x100 * Value(b[1..])
  }

  function LE(x: nat, n: nat): (b: seq<byte>)
    ensures |b| == n
  {
    if n == 0 then [] else [x % 0x100] + LE(x / 0x100, n - 1)
  }

  lemma Pow2Byte(n: nat)
    requires n > 0
    ensures Pow2(8 * n) == 0x100 * Pow2(8 * (n - 1))
  {
    hide Pow2;
    Pow2Add(8, 8 * (n - 1));
    Pow2Eight();
  }

  lemma Pow2Eight()
    ensures Pow2(8) == 0x100 && Pow2(0) == 1
  {
    Pow2Add(4, 4);
  }

  lemma {:induction false} ValueBelow(b: seq<byte>)
    ensures Value(b) < Pow2(8 * |b|)
  {
    hide Pow2;
    if b == [] {
      Pow2Eight();
    } else {
      ValueBelow(b[1..]);
      Pow2Byte(|b|);
    }
  }

  lemma {:induction false} ValueConcat(a: seq<byte>, b: seq<byte>)
    ensures Value(a + b) == Value(a) + Value(b) * Pow2(8 * |a|)
    decreases a
  {
    hide Pow2;
    if a == [] {
      assert a + b == b;
      Pow2Eight();
    } else {
      assert (a + b)[1..] == a[1..] + b;
      ValueConcat(a[1..], b);
      Pow2Byte(|a|);
      Shuffle(Value(b), Pow2(8 * (|a| - 1)));
    }
  }

  lemma Shuffle(v: nat, p: nat)
    ensures 0x100 * (v * p) == v * (0x100 * p)
  {
  }

  /** The low bytes of a number are the number modulo a power of 256. */
  lemma {:induction false} ValueOfLE(x: nat, n: nat)
    ensures Value(LE(x, n)) == x % Pow2(8 * n)
  {
    hide Pow2;
    if n == 0 {
      Pow2Eight();
    } else {
      ValueOfLE(x / 0x100, n - 1);
      Pow2Byte(n);
      LowByte(x, Pow2(8 * (n - 1)));
    }
  }

  lemma LowByte(x: nat, p: nat)
    requires p > 0
    ensures x % 0x100 + 0x100 * (x / 0x100 % p) == x % (0x100 * p)
  {
    var q, r := x / 0x100 / p, x / 0x100 % p;
    assert x / 0x100 == q * p + r;
    assert x == 0x100 * (q * p + r) + x % 0x100;
    assert 0x100 * (q * p) == q * (0x100 * p);
    DivModUnique(x, 0x100 * p, q, 0x100 * r + x % 0x100);
  }

  lemma {:induction false} LEPrefix(x: nat, n: nat, m: nat)
    requires m <= n
    ensures LE(x, n)[..m] == LE(x, m)
    decreases n
  {
    if m == 0 {
    } else {
      LEPrefix(x / 0x100, n - 1, m - 1);
    }
  }

  lemma ValuePrefix(b: seq<byte>, m: nat)
    requires m <= |b|
    ensures Value(b) % Pow2(8 * m) == Value(b[..m])
  {
    hide Pow2, Value;
    assert b == b[..m] + b[m..];
    ValueConcat(b[..m], b[m..]);
    ValueBelow(b[..m]);
    DivModUnique(Value(b), Pow2(8 * m), Value(b[m..]), Value(b[..m]));
  }

  // --------------------------------------------------- an accumulator over bytes

  /** The stack that `low` bytes and an accumulator over them hold. */
  ghost function Held(low: seq<byte>, accum: nat, nbits: nat): Bits {
    Bits(Value(low) + accum * Pow2(8 * |low|), 8 * |low| + nbits)
  }

  lemma HeldFits(low: seq<byte>, accum: nat, nbits: nat)
    requires accum < Pow2(nbits)
    ensures Held(low, accum, nbits).Fits()
  {
    hide Pow2, Value;
    ValueBelow(low);
    PopUndoesPush(Bits(Value(low), 8 * |low|), nbits, accum);
  }

  /** Or-ing a group above the accumulator pushes it. */
  lemma HeldPush(low: seq<byte>, accum: nat, nbits: nat, n: nat, b: nat)
    requires accum < Pow2(nbits) && b < Pow2(n)
    ensures Held(low, accum, nbits).Push(n, b) == Held(low, accum + b * Pow2(nbits), nbits + n)
    ensures accum + b * Pow2(nbits) < Pow2(nbits + n)
  {
    hide Pow2, Value;
    var p, a := Pow2(8 * |low|), Pow2(nbits);
    Pow2Add(8 * |low|, nbits);
    assert b * (p * a) == b * a * p;
    assert (accum + b * a) * p == accum * p + b * a * p;
    PopUndoesPush(Bits(accum, nbits), n, b);
  }

  /** Taking the accumulator's high bits pops them. */
  lemma HeldPop(low: seq<byte>, accum: nat, nbits: nat, n: nat)
    requires n <= nbits
    ensures Held(low, accum, nbits).Top(n) == accum / Pow2(nbits - n)
    ensures Held(low, accum, nbits).Pop(n) == Held(low, accum % Pow2(nbits - n), nbits - n)
  {
    hide Pow2, Value;
    ValueBelow(low);
    Pow2Add(8 * |low|, nbits - n);
    HighDigits(Value(low), accum, Pow2(8 * |low|), Pow2(nbits - n));
  }

  lemma HighDigits(low: nat, accum: nat, p: nat, c: nat)
    requires low < p && c > 0
    ensures p * c > 0
    ensures (low + accum * p) / (p * c) == accum / c
    ensures (low + accum * p) % (p * c) == low + accum % c * p
  {
    MulAtLeast(p, c);
    var q, r := accum / c, accum % c;
    assert accum * p == q * (p * c) + r * p by {
      assert accum == q * c + r;
      assert (q * c + r) * p == q * (p * c) + r * p;
    }
    MulMonotone(0, r, p);
    MulMonotone(r + 1, c, p);
    assert (r + 1) * p == r * p + p;
    assert c * p == p * c;
    DivModUnique(low + accum * p, p * c, q, low + r * p);
  }

  /** Moving whole bytes between the accumulator's low end and the buffer changes nothing. */
  lemma HeldMove(low: seq<byte>, bytes: seq<byte>, accum: nat, nbits: nat)
    ensures Held(low + bytes, accum, nbits)
         == Held(low, accum * Pow2(8 * |bytes|) + Value(bytes), nbits + 8 * |bytes|)
  {
    hide Pow2, Value;
    ValueConcat(low, bytes);
    Pow2Add(8 * |low|, 8 * |bytes|);
    var p, m := Pow2(8 * |low|), Pow2(8 * |bytes|);
    assert 8 * |low + bytes| == 8 * |low| + 8 * |bytes|;
    Raised(accum, Value(bytes), p, m);
  }

  lemma Raised(accum: nat, v: nat, p: nat, m: nat)
    ensures (accum * m + v) * p == accum * (p * m) + v * p
  {
    assert accum * (p * m) == accum * m * p;
  }

  // -------------------------------------------------------------- output stream

  class OutStream {
    const buf: array<byte>
    var pos: nat
    var accum: qword
    var nbits: int

    ghost predicate Valid()
      reads this
    {
      pos <= buf.Length && 0 <= nbits <= 64 && accum < Pow2(nbits)
    }

    /** All bits up to here: those already in the buffer and those in the accumulator. */
    ghost function Stack(): (s: Bits)
      reads this, buf
      requires Valid()
      ensures s.count == 8 * pos + nbits
    {
      Held(buf[..pos], accum, nbits)
    }

    /** fse_out_init, on the buffer from `pos` on. */
    constructor (buf: array<byte>, pos: nat)
      requires pos <= buf.Length
      ensures Valid() && this.buf == buf && this.pos == pos && nbits == 0
      ensures Stack() == Bits(Value(buf[..pos]), 8 * pos)
    {
      this.buf, this.pos, accum, nbits := buf, pos, 0, 0;
    }

    /** fse_out_push. */
    method Push(n: nat, b: nat)
      requires Valid() && nbits < 64 && nbits + n <= 64 && b < Pow2(n)
      modifies this`accum, this`nbits
      ensures Valid() && nbits == old(nbits) + n
      ensures Stack() == old(Stack()).Push(n, b)
    {
      hide Pow2, Value, Held, Or;
      HeldPush(buf[..pos], accum, nbits, n, b);
      Merged(accum, nbits, b, n);
      accum := Or(accum, b * Pow2(nbits) % 0x1_0000_0000_0000_0000);
      nbits := nbits + n;
    }

    static lemma Merged(accum: nat, nbits: nat, b: nat, n: nat)
      requires accum < Pow2(nbits) && b < Pow2(n) && nbits + n <= 64
      ensures b * Pow2(nbits) % 0x1_0000_0000_0000_0000 == b * Pow2(nbits)
      ensures Or(accum, b * Pow2(nbits)) == accum + b * Pow2(nbits) < 0x1_0000_0000_0000_0000
    {
      hide Pow2, Or;
      var high := b * Pow2(nbits);
      OrDisjoint(accum, b, nbits);
      PopUndoesPush(Bits(accum, nbits), n, b);
      Pow2Values();
      Pow2Monotone(nbits + n, 64);
      assert accum + high < 0x1_0000_0000_0000_0000;
      ProductIsNat(b, Pow2(nbits));
      DivModUnique(high, 0x1_0000_0000_0000_0000, 0, high);
    }

    static lemma ProductIsNat(b: nat, p: nat)
      ensures b * p >= 0
    {
    }

    /** The eight-byte store both flushes make. */
    method Store()
      requires pos + 8 <= buf.Length
      modifies buf
      ensures buf[..pos] == old(buf[..pos]) && buf[pos..pos + 8] == LE(accum, 8)
    {
      ghost var x := accum;
      var b := LE(accum, 8);
      for i := 0 to 8
        invariant buf[..pos] == old(buf[..pos])
        invariant forall k | 0 <= k < i :: buf[pos + k] == b[k]
      {
        buf[pos + i] := b[i];
      }
    }

    /** fse_out_flush: whole bytes leave the accumulator. */
    method Flush()
      requires Valid() && nbits < 64 && pos + 8 <= buf.Length
      modifies this`pos, this`accum, this`nbits, buf
      ensures Valid() && 0 <= nbits <= 7 && old(pos) <= pos <= old(pos) + 7
      ensures Stack() == old(Stack()) && buf[..old(pos)] == old(buf[..pos])
    {
      hide Pow2, Value, Held, LE;
      var m := nbits / 8;
      Store();
      Stored(buf[..], pos, m, accum);
      HeldMove(buf[..pos], LE(accum, m), accum / Pow2(8 * m), nbits - 8 * m);
      HighPart(accum, nbits, 8 * m);
      accum := accum / Pow2(8 * m);
      pos := pos + m;
      nbits := nbits - 8 * m;
    }

    /** fse_out_finish: the last byte is padded with zeros, and the number of bits becomes
        the negated amount of padding. */
    method Finish()
      requires Valid() && pos + 8 <= buf.Length
      modifies this, buf
      ensures -7 <= nbits <= 0 && old(pos) <= pos <= buf.Length
      ensures 8 * pos + nbits == old(Stack()).count
      ensures Value(buf[..pos]) == old(Stack()).value
      ensures buf[..old(pos)] == old(buf[..pos])
    {
      hide Pow2, Value, LE;
      var m := (nbits + 7) / 8;
      Store();
      Stored(buf[..], pos, m, accum);
      Pow2Monotone(nbits, 8 * m);
      HeldAll(buf[..pos], m, accum, nbits);
      accum := 0;
      pos := pos + m;
      nbits := nbits - 8 * m;
    }

    static lemma Stored(buf: seq<byte>, pos: nat, m: nat, accum: nat)
      requires pos + 8 <= |buf| && m <= 8 && buf[pos..pos + 8] == LE(accum, 8)
      ensures buf[..pos + m] == buf[..pos] + LE(accum, m)
      ensures Value(LE(accum, m)) == accum % Pow2(8 * m)
    {
      hide Pow2, Value;
      LEPrefix(accum, 8, m);
      ValueOfLE(accum, m);
      assert buf[pos..pos + 8][..m] == buf[pos..pos + m];
    }

    static lemma HeldAll(low: seq<byte>, m: nat, accum: nat, nbits: nat)
      requires accum < Pow2(8 * m) && nbits <= 8 * m
      ensures Value(low + LE(accum, m)) == Held(low, accum, nbits).value
    {
      hide Pow2, Value, LE;
      ValueOfLE(accum, m);
      DivModUnique(accum, Pow2(8 * m), 0, accum);
      ValueConcat(low, LE(accum, m));
    }
  }

  lemma HighPart(accum: nat, nbits: nat, m: nat)
    requires m <= nbits && accum < Pow2(nbits)
    ensures accum / Pow2(m) < Pow2(nbits - m)
    ensures accum / Pow2(m) * Pow2(m) + accum % Pow2(m) == accum
  {
    hide Pow2;
    Pow2Add(nbits - m, m);
    DivBetween(accum, Pow2(m), 0, Pow2(nbits - m));
  }

  // --------------------------------------------------------------- input stream

  class InStream {
    const buf: seq<byte>
    const start: nat
    var pos: nat
    var accum: qword
    var nbits: int

    ghost predicate Valid()
      reads this
    {
      start <= pos <= |buf| && 0 <= nbits < 64 && accum < Pow2(nbits)
    }

    ghost predicate Full()
      reads this
    {
      Valid() && 56 <= nbits
    }

    /** All bits still to be pulled, and everything before them. */
    ghost function Stack(): (s: Bits)
      reads this
      requires Valid()
      ensures s.count == 8 * pos + nbits
    {
      Held(buf[..pos], accum, nbits)
    }

    constructor (buf: seq<byte>, start: nat, end: nat)
      requires start <= end <= |buf|
      ensures Valid() && this.buf == buf && this.start == start && pos == end
    {
      this.buf, this.start, pos, accum, nbits := buf, start, end, 0, 0;
    }

    /** fse_in_checked_init: `n` is the negated padding of the last byte. It succeeds exactly
        when there are enough bytes and the padding is zero. */
    method Init(n: int) returns (ok: bool)
      requires Valid()
      modifies this`pos, this`accum, this`nbits
      ensures ok <==> -8 <= n <= 0 && old(pos) >= start + (if n == 0 then 7 else 8)
                      && Value(buf[..old(pos)]) < Pow2(8 * old(pos) + n)
      ensures ok ==> Full() && Stack() == Bits(Value(buf[..old(pos)]), 8 * old(pos) + n)
    {
      hide Pow2, Value, Held;
      ghost var end := pos;
      var m := if n != 0 then 8 else 7;
      if pos < start + m { return false; }
      pos := pos - m;
      assert buf[pos..end] == buf[pos..pos + m];
      InitValue(buf[..pos], buf[pos..pos + m], n);
      assert buf[..end] == buf[..pos] + buf[pos..pos + m];
      accum := Value(buf[pos..pos + m]);
      nbits := n + 8 * m;
      ok := 56 <= nbits < 64 && accum / Pow2(nbits) == 0;
    }

    static lemma InitValue(low: seq<byte>, b: seq<byte>, n: int)
      requires |b| == if n != 0 then 8 else 7
      ensures Value(b) < 0x1_0000_0000_0000_0000
      ensures -8 <= n <= 0 ==>
        && (Value(b) / Pow2(8 * |b| + n) == 0 <==> Value(b) < Pow2(8 * |b| + n))
        && (Value(b) < Pow2(8 * |b| + n) <==> Value(low + b) < Pow2(8 * |low + b| + n))
        && Held(low, Value(b), 8 * |b| + n) == Bits(Value(low + b), 8 * |low + b| + n)
      ensures n == 0 ==> Value(low + b) < Pow2(8 * |low + b|)
    {
      hide Pow2, Value;
      ValueBelow(b);
      ValueBelow(low + b);
      Pow2Values();
      Pow2Monotone(8 * |b|, 64);
      ValueConcat(low, b);
      if -8 <= n <= 0 {
        ValueBelow(low);
        Pow2Add(8 * |low|, 8 * |b| + n);
        Thresholds(Value(low), Value(b), Pow2(8 * |low|), Pow2(8 * |b| + n));
      }
    }

    static lemma Thresholds(low: nat, v: nat, p: nat, t: nat)
      requires low < p && t > 0
      ensures v / t == 0 <==> v < t
      ensures v < t <==> low + v * p < p * t
    {
      assert p * t == t * p;
      if v < t {
        DivModUnique(v, t, 0, v);
        MulMonotone(v + 1, t, p);
        assert (v + 1) * p == v * p + p;
      } else {
        DivBetween(v, t, 1, v + 1) by {
          MulMonotone(1, t, v + 1);
        }
        MulMonotone(t, v, p);
      }
    }

    /** fse_in_checked_flush: it fails exactly when fewer than 56 bits lie in front of the
        cursor and in the accumulator together. */
    method Flush() returns (ok: bool)
      requires Valid()
      modifies this`pos, this`accum, this`nbits
      ensures Valid() && Stack() == old(Stack())
      ensures ok <==> Stack().count >= 8 * start + 56
      ensures ok ==> Full()
    {
      hide Pow2, Value, Or;
      var m := (63 - nbits) / 8;
      var p: int := pos - m;
      if p < start { return false; }
      Load(buf, p, m);
      assert buf[..pos] == buf[..p] + buf[p..pos];
      HeldMove(buf[..p], buf[p..pos], accum, nbits);
      ValueBelow(buf[p..pos]);
      Refilled(accum, nbits, Value(buf[p..pos]), 8 * m);
      var incoming := Value(buf[p..if p + 8 <= |buf| then p + 8 else |buf|]);
      var low := incoming % Pow2(8 * m);
      assert low == Value(buf[p..pos]);
      accum := Or(low, accum * Pow2(8 * m) % 0x1_0000_0000_0000_0000);
      pos := p;
      nbits := nbits + 8 * m;
      ok := true;
    }

    /** Of the eight bytes loaded only those in front of the cursor matter. */
    static lemma Load(buf: seq<byte>, p: nat, m: nat)
      requires p + m <= |buf| && m <= 7
      ensures var end := if p + 8 <= |buf| then p + 8 else |buf|;
              Value(buf[p..end]) % Pow2(8 * m) == Value(buf[p..p + m])
    {
      var end := if p + 8 <= |buf| then p + 8 else |buf|;
      ValuePrefix(buf[p..end], m);
      assert buf[p..end][..m] == buf[p..p + m];
    }

    static lemma Refilled(accum: nat, nbits: nat, v: nat, m: nat)
      requires accum < Pow2(nbits) && v < Pow2(m) && nbits + m <= 63
      ensures accum * Pow2(m) % 0x1_0000_0000_0000_0000 == accum * Pow2(m)
      ensures Or(v, accum * Pow2(m)) == accum * Pow2(m) + v < Pow2(nbits + m)
      ensures accum * Pow2(m) + v < 0x1_0000_0000_0000_0000
    {
      hide Pow2, Or;
      OrDisjoint(v, accum, m);
      Pow2Add(m, nbits);
      PopUndoesPush(Bits(v, m), nbits, accum);
      Pow2Values();
      Pow2Monotone(nbits + m, 64);
      assert 0 <= accum * Pow2(m) < 0x1_0000_0000_0000_0000;
    }

    /** fse_in_pull. */
    method Pull(n: nat) returns (b: qword)
      requires Valid() && n <= nbits
      modifies this`accum, this`nbits
      ensures Valid() && nbits == old(nbits) - n
      ensures b == old(Stack()).Top(n) && Stack() == old(Stack()).Pop(n)
    {
      hide Pow2, Value, Held;
      HeldPop(buf[..pos], accum, nbits, n);
      Pow2Add(nbits - n, n);
      QuotientIsNat(accum, Pow2(nbits - n));
      nbits := nbits - n;
      b := accum / Pow2(nbits);
      accum := accum % Pow2(nbits);
    }
  }
}
