/** The stretch of memory that receives nibbles through a shared half-byte cursor. The stores
    or their bits in, so what was there before shows through. */
module NibbleBuffer {
  import opened Arith
  import opened Words
  import opened Nibbles

  function Nib(buf: seq<byte>, i: nat): nibble
    requires i < 2 * |buf|
  {
    if i % 2 == 0 then buf[i / 2] % 16 else buf[i / 2] / 16
  }

  /** All nibbles of a byte section. */
  function Unpack(buf: seq<byte>): (nibs: seq<nibble>)
    ensures |nibs| == 2 * |buf|
  {
    seq(2 * |buf|, i requires 0 <= i < 2 * |buf| => Nib(buf, i))
  }

  /** Nibbles in whole bytes. */
  function PackNibbles(nibs: seq<nibble>): (b: seq<byte>)
    requires |nibs| % 2 == 0
    ensures |b| == |nibs| / 2
  {
    seq(|nibs| / 2, i requires 0 <= i < |nibs| / 2 => ReadByte(nibs, 2 * i))
  }

  lemma UnpackPacked(nibs: seq<nibble>)
    requires |nibs| % 2 == 0
    ensures Unpack(PackNibbles(nibs)) == nibs
  {
    forall i | 0 <= i < |nibs|
      ensures Unpack(PackNibbles(nibs))[i] == nibs[i]
    {
      assert i == 2 * (i / 2) + i % 2;
      assert PackNibbles(nibs)[i / 2] == ReadByte(nibs, 2 * (i / 2));
    }
  }

  /** Cursor of the buffer: byte `p`, half `n`. */
  ghost predicate Cursor(p: nat, n: nat, nibs: seq<nibble>) {
    n < 2 && 2 * p + n == |nibs|
  }

  /** What a position `i` places into the section holds once `nibs` are or-ed over `x`. */
  function Over(x: nibble, nibs: seq<nibble>, i: int): nibble {
    if 0 <= i < |nibs| then Or4(x, nibs[i]) else x
  }

  /** In the bytes from `base` to `end` of the memory `m`, `nibs` are or-ed over what was
      there before, which `init` remembers. */
  ghost predicate Merged(m: seq<byte>, init: seq<byte>, base: nat, end: nat, nibs: seq<nibble>) {
    && base <= end <= |m| && |init| == |m| && |nibs| <= 2 * (end - base)
    && forall i | 2 * base <= i < 2 * end :: Nib(m, i) == Over(Nib(init, i), nibs, i - 2 * base)
  }

  /** The nibbles a section holds in the end. */
  function Overlaid(init: seq<byte>, base: nat, nibs: seq<nibble>): (r: seq<nibble>)
    requires 2 * base + |nibs| <= 2 * |init|
    ensures |r| == |nibs|
  {
    seq(|nibs|, i requires 0 <= i < |nibs| => Or4(Nib(init, 2 * base + i), nibs[i]))
  }

  /** A store that or-s `code` into the nibbles behind `nibs` extends the section. */
  lemma MergedMore(m: seq<byte>, m': seq<byte>, init: seq<byte>, base: nat, end: nat, nibs: seq<nibble>, code: seq<nibble>)
    requires Merged(m, init, base, end, nibs) && |m'| == |m| && |nibs| + |code| <= 2 * (end - base)
    requires forall i | 2 * base <= i < 2 * end :: Nib(m', i) == Over(Nib(m, i), code, i - 2 * base - |nibs|)
    ensures Merged(m', init, base, end, nibs + code)
  {
    hide Nib, Or4;
    forall i | 2 * base <= i < 2 * end
      ensures Nib(m', i) == Over(Nib(init, i), nibs + code, i - 2 * base)
    {
      assert Nib(m, i) == Over(Nib(init, i), nibs, i - 2 * base);
    }
  }

  /** The byte a shifted nibble or byte or-s into, as its two nibbles. */
  lemma StoredBytes(b0: byte, b1: byte, x: byte, n: nat)
    requires n < 2
    ensures var low := if n == 0 then x else 16 * (x % 16);
            var high := if n == 0 then 0 else x / 16;
            var hi: nat := b1;
            var w := Or(b0 + 0x100 * hi, x * (if n == 0 then 1 else 16));
            && w < 0x1_0000
            && low < 0x100
            && w % 0x100 == Or(b0, low) && w / 0x100 == Or(b1, high)
  {
    hide Or, Pow2;
    var hi: nat := b1;
    var y := x * (if n == 0 then 1 else 16);
    var low := if n == 0 then x else 16 * (x % 16);
    assert y % 0x100 == low && y / 0x100 == if n == 0 then 0 else x / 16;
    Pow2Values();
    OrBelow(b0 + 0x100 * hi, y, 16);
    OrWords(b0 + 0x100 * hi, y);
  }

  /** Or-ing a byte into the memory. */
  function OrAt(m: seq<byte>, k: nat, y: byte): (r: seq<byte>)
    requires k < |m|
    ensures |r| == |m|
  {
    OrBytes(m[k], y);
    var v: byte := Or(m[k], y);
    m[k := v]
  }

  /** Nibbles before and after or-ing into one byte. */
  lemma ByteStored(m: seq<byte>, k: nat, y: byte, i: nat)
    requires k < |m| && i < 2 * |m|
    ensures Nib(OrAt(m, k, y), i)
         == if i == 2 * k then Or4(Nib(m, i), y % 16) else if i == 2 * k + 1 then Or4(Nib(m, i), y / 16) else Nib(m, i)
  {
    hide Or, Or4;
    OrBytes(m[k], y);
  }

  lemma OrZero(x: nibble)
    ensures Or4(x, 0) == x
  {
  }

  /** The short store: `*p |= l << (n << 2)`. */
  method PutNibble(mem: array<byte>, base: nat, ghost end: nat, p: nat, n: nat, v: nibble, ghost init: seq<byte>, ghost nibs: seq<nibble>)
    returns (q: nat, m: nat)
    requires Merged(mem[..], init, base, end, nibs) && Cursor(p, n, nibs) && base + p < end
    modifies mem
    ensures Merged(mem[..], init, base, end, nibs + [v]) && Cursor(q, m, nibs + [v])
    ensures forall k | 0 <= k < base || end <= k < mem.Length :: mem[k] == old(mem[k])
  {
    hide Or, Nib, Or4, Merged;
    ghost var before := mem[..];
    var k := base + p;
    var y: byte := v * (if n == 0 then 1 else 16);
    MergedBounds(before, init, base, end, nibs);
    OrBytes(mem[k], y);
    mem[k] := Or(mem[k], y);
    assert mem[..] == OrAt(before, k, y);
    NibbleStored(before, init, base, end, nibs, p, n, v);
    q, m := p + n, 1 - n;
  }

  lemma MergedBounds(m: seq<byte>, init: seq<byte>, base: nat, end: nat, nibs: seq<nibble>)
    requires Merged(m, init, base, end, nibs)
    ensures base <= end <= |m| == |init| && |nibs| <= 2 * (end - base)
  {
  }

  lemma NibbleStored(m: seq<byte>, init: seq<byte>, base: nat, end: nat, nibs: seq<nibble>, p: nat, n: nat, v: nibble)
    requires Merged(m, init, base, end, nibs) && Cursor(p, n, nibs) && base + p < end
    ensures var y := v * (if n == 0 then 1 else 16);
            base + p < |m| && Merged(OrAt(m, base + p, y), init, base, end, nibs + [v])
  {
    hide Or, Or4, Nib, Merged;
    MergedBounds(m, init, base, end, nibs);
    var k := base + p;
    var y: byte := v * (if n == 0 then 1 else 16);
    var m' := OrAt(m, k, y);
    forall i | 2 * base <= i < 2 * end
      ensures Nib(m', i) == Over(Nib(m, i), [v], i - 2 * base - |nibs|)
    {
      ByteStored(m, k, y, i);
      OrZero(Nib(m, i));
    }
    MergedMore(m, m', init, base, end, nibs, [v]);
  }

  /** The wide store: `*(WORD *)p |= x << (n << 2)`, two nibbles across one or two bytes. */
  method PutByte(mem: array<byte>, base: nat, ghost end: nat, p: nat, n: nat, x: byte, ghost init: seq<byte>, ghost nibs: seq<nibble>)
    returns (q: nat, m: nat)
    requires Merged(mem[..], init, base, end, nibs) && Cursor(p, n, nibs) && base + p + 1 < end
    modifies mem
    ensures Merged(mem[..], init, base, end, nibs + ByteCode(x)) && Cursor(q, m, nibs + ByteCode(x))
    ensures forall k | 0 <= k < base || end <= k < mem.Length :: mem[k] == old(mem[k])
  {
    hide Or, Nib, Or4, Merged;
    ghost var before := mem[..];
    var k := base + p;
    MergedBounds(before, init, base, end, nibs);
    StoredBytes(mem[k], mem[k + 1], x, n);
    ByteStoredTwice(before, init, base, end, nibs, p, n, x);
    var high: nat := mem[k + 1];
    var w := Or(mem[k] + 0x100 * high, x * (if n == 0 then 1 else 16));
    mem[k], mem[k + 1] := w % 0x100, w / 0x100;
    assert mem[..] == OrAt(OrAt(before, k, if n == 0 then x else 16 * (x % 16)), k + 1, if n == 0 then 0 else x / 16);
    q, m := p + 1, n;
  }

  lemma ByteStoredTwice(m: seq<byte>, init: seq<byte>, base: nat, end: nat, nibs: seq<nibble>, p: nat, n: nat, x: byte)
    requires Merged(m, init, base, end, nibs) && Cursor(p, n, nibs) && base + p + 1 < end
    ensures var low := if n == 0 then x else 16 * (x % 16);
            var high := if n == 0 then 0 else x / 16;
            var k := base + p;
            k + 1 < |m| && Merged(OrAt(OrAt(m, k, low), k + 1, high), init, base, end, nibs + ByteCode(x))
  {
    hide Or, Or4, Nib, Merged;
    MergedBounds(m, init, base, end, nibs);
    var low := if n == 0 then x else 16 * (x % 16);
    var high := if n == 0 then 0 else x / 16;
    var k := base + p;
    var m1 := OrAt(m, k, low);
    var m2 := OrAt(m1, k + 1, high);
    forall i | 2 * base <= i < 2 * end
      ensures Nib(m2, i) == Over(Nib(m, i), ByteCode(x), i - 2 * base - |nibs|)
    {
      ByteStored(m, k, low, i);
      ByteStored(m1, k + 1, high, i);
      OrZero(Nib(m, i));
    }
    MergedMore(m, m2, init, base, end, nibs, ByteCode(x));
  }

  /** mylz_WriteLength44. */
  method WriteLength44(mem: array<byte>, base: nat, ghost end: nat, p: nat, n: nat, l: nat, ghost init: seq<byte>, ghost nibs: seq<nibble>)
    returns (q: nat, m: nat)
    requires Merged(mem[..], init, base, end, nibs) && Cursor(p, n, nibs)
    requires |nibs| + |LengthCode(l)| + 2 <= 2 * (end - base)
    modifies mem
    ensures Merged(mem[..], init, base, end, nibs + LengthCode(l)) && Cursor(q, m, nibs + LengthCode(l))
    ensures forall k | 0 <= k < base || end <= k < mem.Length :: mem[k] == old(mem[k])
  {
    hide Merged;
    MergedBounds(mem[..], init, base, end, nibs);
    if l < 15 {
      q, m := PutNibble(mem, base, end, p, n, l, init, nibs);
    } else if l < 30 {
      q, m := PutByte(mem, base, end, p, n, (l - 15) * 16 + 15, init, nibs);
    } else {
      var rest := l + 255 - 30;
      ghost var done := nibs;
      q, m := p, n;
      while rest >= 255
        invariant Merged(mem[..], init, base, end, done) && Cursor(q, m, done)
        invariant nibs + LengthCode(l) == done + RunCode(rest)
        invariant |done + RunCode(rest)| + 2 <= 2 * (end - base)
        invariant forall k | 0 <= k < base || end <= k < mem.Length :: mem[k] == old(mem[k])
        decreases rest
      {
        RunCodeSize(rest - 255);
        assert done + (ByteCode(255) + RunCode(rest - 255)) == done + ByteCode(255) + RunCode(rest - 255);
        q, m := PutByte(mem, base, end, q, m, 255, init, done);
        done := done + ByteCode(255);
        rest := rest - 255;
      }
      q, m := PutByte(mem, base, end, q, m, rest, init, done);
    }
  }

  // ----------------------------------------------------------------------- reading

  /** The 16 bits a wide load finds at byte `p`; the byte behind the section is of no
      consequence. */
  function LoadWord(buf: seq<byte>, p: nat): nat
    requires p < |buf|
  {
    var high: nat := if p + 1 < |buf| then buf[p + 1] else 0;
    buf[p] + 0x100 * high
  }

  /** Shifting the load by the half-byte cursor selects the nibbles at the cursor. */
  lemma LoadIsNibbles(buf: seq<byte>, p: nat, n: nat)
    requires p < |buf| && n < 2
    ensures var shifted := LoadWord(buf, p) / (if n == 0 then 1 else 16);
            && shifted % 16 == Unpack(buf)[2 * p + n]
            && (2 * p + n + 1 < 2 * |buf| ==>
                 shifted / 16 % 16 == Unpack(buf)[2 * p + n + 1] && shifted % 0x100 == ReadByte(Unpack(buf), 2 * p + n))
  {
    hide Unpack;
    UnpackAt(buf, p);
    if p + 1 < |buf| {
      UnpackAt(buf, p + 1);
    }
    var high: nat := if p + 1 < |buf| then buf[p + 1] else 0;
    if n == 0 {
      LowOfWord(buf[p], high);
    } else {
      MiddleOfWord(buf[p], high);
    }
  }

  lemma UnpackAt(buf: seq<byte>, p: nat)
    requires p < |buf|
    ensures Unpack(buf)[2 * p] == buf[p] % 16 && Unpack(buf)[2 * p + 1] == buf[p] / 16
  {
  }

  lemma LowOfWord(low: byte, high: nat)
    ensures var w := low + 0x100 * high;
            w / 1 == w && w % 0x100 == low == low % 16 + 16 * (low / 16) && w % 16 == low % 16 && w / 16 % 16 == low / 16
  {
    var w := low + 0x100 * high;
    DivModUnique(w, 0x100, high, low);
    DivModUnique(w, 16, low / 16 + 16 * high, low % 16);
    DivModUnique(low / 16 + 16 * high, 16, high, low / 16);
  }

  lemma MiddleOfWord(low: byte, high: nat)
    requires high < 0x100
    ensures var w := (low + 0x100 * high) / 16;
            w % 16 == low / 16 && w / 16 % 16 == high % 16 && w % 0x100 == low / 16 + 16 * (high % 16)
  {
    var w := low / 16 + 16 * high;
    DivModUnique(low + 0x100 * high, 16, w, low % 16);
    DivModUnique(w, 16, high, low / 16);
    DivModUnique(w, 0x100, high / 16, low / 16 + 16 * (high % 16));
  }

  /** mylz_ReadLength44: `ok` is false when it would read behind the section. */
  method ReadLength44(buf: seq<byte>, p: nat, n: nat) returns (ok: bool, m: nat, q: nat, k: nat)
    requires n < 2
    ensures k < 2
    ensures ReadLength(Unpack(buf), 2 * p + n) == if ok then Some((m, 2 * q + k)) else None
  {
    hide Unpack;
    ok, m, q, k := false, 0, p, n;
    if p >= |buf| { return; }
    LoadIsNibbles(buf, p, n);
    var w := LoadWord(buf, p) / (if n == 0 then 1 else 16);
    m := w % 16;
    if m < 15 {
      return true, m, p + n, 1 - n;
    }
    if 2 * p + n + 2 > 2 * |buf| { return; }
    m := m + w / 16 % 16;
    q := p + 1;
    if m >= 30 {
      ok, m, q := ReadRun44(buf, q, n, m);
    } else {
      ok := true;
    }
  }

  method ReadRun44(buf: seq<byte>, p: nat, n: nat, acc: nat) returns (ok: bool, m: nat, q: nat)
    requires n < 2
    ensures ReadRun(Unpack(buf), 2 * p + n, acc) == if ok then Some((m, 2 * q + n)) else None
  {
    hide Unpack;
    m, q := acc, p;
    var more := true;
    while more
      invariant more ==> ReadRun(Unpack(buf), 2 * p + n, acc) == ReadRun(Unpack(buf), 2 * q + n, m)
      invariant !more ==> ReadRun(Unpack(buf), 2 * p + n, acc) == Some((m, 2 * q + n))
      decreases more, |buf| - q
    {
      if 2 * q + n + 2 > 2 * |buf| { return false, m, q; }
      LoadIsNibbles(buf, q, n);
      var y := LoadWord(buf, q) / (if n == 0 then 1 else 16) % 0x100;
      m, q := m + y, q + 1;
      more := y >= 255;
    }
    ok := true;
  }
}
