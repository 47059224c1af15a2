/** The compressed form in numbers: which code a state gets, which bytes a section consists of,
    and what the simplest input compresses to. */
module RansForm {
  import opened Arith
  import opened Words
  import opened Bytes
  import opened Rans64
  import opened Normalize
  import opened Stats
  import opened FreqHeader
  import opened RansCodec

  // ------------------------------------------------------------------ the codes

  /** The codes of a symbol are in the order of the states. */
  lemma CodesAreOrdered(x: nat, y: nat, start: nat, freq: nat, bits: nat)
    requires Slot(start, freq, bits) && x < y
    ensures Put(x, start, freq, bits) < Put(y, start, freq, bits)
  {
    hide Pow2;
    OrderedOf(x / freq, x % freq, y / freq, y % freq, start, freq, Pow2(bits));
  }

  lemma OrderedOf(q: nat, r: nat, u: nat, v: nat, start: nat, freq: nat, m: nat)
    requires r < freq && v < freq && freq <= m && q * freq + r < u * freq + v
    ensures q * m + r + start < u * m + v + start
  {
    if u < q {
      assert (u + 1) * freq == u * freq + freq;
      MulMonotone(u + 1, q, freq);
      assert false;
    } else if q < u {
      MulMonotone(q + 1, u, m);
      assert (q + 1) * m == q * m + m;
    }
  }

  /** They are all the numbers whose remainder lies in the symbol's slots. */
  lemma EveryCodeIsUsed(z: nat, start: nat, freq: nat, bits: nat)
    requires Slot(start, freq, bits) && start <= z % Pow2(bits) < start + freq
    ensures Get(z, start, freq, bits) >= 0
    ensures Put(Get(z, start, freq, bits), start, freq, bits) == z
  {
    hide Pow2;
    UsedOf(z / Pow2(bits), z % Pow2(bits) - start, freq);
  }

  lemma UsedOf(q: nat, r: nat, freq: nat)
    requires r < freq
    ensures 0 <= freq * q + r
    ensures (freq * q + r) / freq == q && (freq * q + r) % freq == r
  {
    DivModUnique(freq * q + r, freq, q, r);
  }

  // ----------------------------------------------------------------- the encoder

  /** One byte in front of others: the two states change places, and the byte goes to the
      first one. Slots are counted in 14 bits, and both states begin at 2^31. */
  lemma OneByteMore(b: byte, data: seq<byte>, cum: seq<int>)
    requires Covers(cum, [b] + data) && Covers(cum, data)
    ensures Width(cum, b) > 0 && 0 <= cum[b]
    ensures EncodeAll([], cum) == Coder(0x8000_0000, 0x8000_0000, [])
    ensures var c := EncodeAll(data, cum);
            var (z, out) := EncStep(c.x1, cum[b], Width(cum, b), 14);
            0x8000_0000 <= z < 0x8000_0000_0000_0000 && EncodeAll([b] + data, cum) == Coder(z, c.x0, out + c.words)
    decreases |data|
  {
    hide EncStep, Table;
    assert ([b] + data)[0] == b;
    ByteIsCovered(cum, [b] + data, 0);
    ByteStep(EncodeAll(data, cum).x1, cum, b);
    if data == [] {
      EncodeOne(b, cum);
    } else if |data| == 1 {
      ByteIsCovered(cum, data, 0);
      TwoBytes(b, data[0], cum);
      assert [b] + data == [b, data[0]];
    } else {
      var rest := data[1..];
      assert data == [data[0]] + rest;
      CoveredRest(cum, data);
      ByteIsCovered(cum, data, 0);
      OneByteMore(data[0], rest, cum);
      assert ([b] + data)[2..] == rest && ([b] + data)[1] == data[0];
      assert EncodeAll([b] + data, cum) == PutPair(EncodeAll(rest, cum), cum, b, data[0]);
      ByteStep(EncodeAll(rest, cum).x1, cum, data[0]);
      ByteStep(EncodeAll(rest, cum).x0, cum, b);
    }
  }

  lemma ByteIsCovered(cum: seq<int>, data: seq<byte>, i: nat)
    requires Covers(cum, data) && i < |data|
    ensures Width(cum, data[i]) > 0
  {
  }

  lemma CoveredRest(cum: seq<int>, data: seq<byte>)
    requires Covers(cum, data) && data != []
    ensures Covers(cum, data[1..])
  {
    assert forall i | 0 <= i < |data| - 1 :: data[1..][i] == data[i + 1];
  }

  lemma ByteStep(x: State, cum: seq<int>, b: byte)
    requires Table(cum) && Width(cum, b) > 0
    ensures 0 <= cum[b] && PutByte(x, cum, b) == EncStep(x, cum[b], Width(cum, b), 14)
  {
    hide EncStep;
    SlotOfByte(cum, b);
  }

  lemma EncodeOne(b: byte, cum: seq<int>)
    requires Covers(cum, [b])
    ensures Width(cum, b) > 0
    ensures var (z, out) := PutByte(0x8000_0000, cum, b); EncodeAll([b], cum) == Coder(z, 0x8000_0000, out)
    ensures EncodeAll([], cum) == Coder(0x8000_0000, 0x8000_0000, [])
  {
    hide PutByte;
    assert [b][0] == b;
  }

  lemma TwoBytes(b: byte, b1: byte, cum: seq<int>)
    requires Covers(cum, [b, b1]) && Covers(cum, [b1]) && Width(cum, b) > 0 && Width(cum, b1) > 0
    ensures var c := EncodeAll([b1], cum);
            var (z, out) := PutByte(c.x1, cum, b);
            EncodeAll([b, b1], cum) == Coder(z, c.x0, out + c.words)
  {
    hide PutByte, Table;
    EncodeOne(b1, cum);
    assert [b, b1][2..] == [];
  }

  // ------------------------------------------------------------------- the bytes

  /** Words are stored lowest byte first. */
  lemma WordByNumber(w: dword)
    ensures var b := LE32(w);
            w == b[0] as nat + 0x100 * b[1] as nat + 0x1_0000 * b[2] as nat + 0x100_0000 * b[3] as nat
  {
  }

  /** A frequency takes one byte below 2^6, two below 2^14, three below 2^22 and four from
      there on. The number of further bytes is in the two low bits, the frequency above them;
      in three bytes only its sixteen low bits, above a byte of their own. */
  lemma FrequencyByNumber(f: dword)
    ensures var b := EncodeFreq(f);
            && |b| == (if f < 0x40 then 1 else if f < 0x4000 then 2 else if f < 0x40_0000 then 3 else 4)
            && (|b| == 1 ==> b[0] as nat == 4 * f)
            && (|b| == 2 ==> b[0] as nat + 0x100 * b[1] as nat == 4 * f + 1)
            && (|b| == 3 ==> b[0] == 2 && b[1] as nat + 0x100 * b[2] as nat == f % 0x1_0000)
            && (|b| == 4 ==> b[0] as nat + 0x100 * b[1] as nat + 0x1_0000 * b[2] as nat + 0x100_0000 * b[3] as nat
                              == (4 * f + 3) % 0x1_0000_0000)
  {
    if f < 0x40_0000 {
      NoHighBits(f);
    } else {
      WordByNumber((f * 4 + 3) % B32);
    }
  }

  lemma NoHighBits(f: dword)
    ensures HighByte(f) == 2
  {
    var h := f / 0x1_0000 % 0x40;
    DivModUnique(h * 0x1_0000, 0x100, h * 0x100, 0);
  }

  /** A compressed section: its uncompressed length, its own length, the frequencies, the two
      states, and the words. */
  lemma SectionByNumber(data: seq<byte>) returns (h: seq<byte>, w: seq<dword>)
    requires 0 < |data| < L
    ensures (WidthsFit(CumOf(data)); h == Header(Widths(CumOf(data)), 0))
    ensures var c := EncodeAll(data, CumOf(data));
            && |w| == 4 + |c.words| && w[4..] == c.words
            && w[0] as nat + 0x1_0000_0000 * w[1] as nat == c.x0
            && w[2] as nat + 0x1_0000_0000 * w[3] as nat == c.x1
    ensures Compress(data) == LE32(|data|) + LE32(|Compress(data)| % 0x1_0000_0000) + h + Flat(w)
  {
    hide Header, EncodeAll, LE32, CumOf, Widths, Flat;
    var cum := CumOf(data);
    WidthsFit(cum);
    var c := EncodeAll(data, cum);
    h, w := Header(Widths(cum), 0), Flushed(c);
    assert |Compress(data)| == |Payload(data)| + 8;
    assert LE32(|data|) + LE32(|Compress(data)| % B32) + (h + Flat(w)) == LE32(|data|) + LE32(|Compress(data)| % B32) + h + Flat(w);
  }

  // ------------------------------------------------------------------ one symbol

  /** The table of an input of one byte value: all slots are its own. */
  lemma {:induction false} OnlySlots(data: seq<byte>, b: byte, k: nat)
    requires 0 < |data| < B32 && (forall i | 0 <= i < |data| :: data[i] == b) && k <= SYMBOLS
    ensures CumOf(data)[k] == if k <= b then 0 else 0x4000
    decreases if k <= b then k else 2 * SYMBOLS - k
  {
    hide NormalCum, Total, Count;
    var cum := CumOf(data);
    CountIsHistogram(data);
    NormaliseIsSlotTable(Count(data), PROB_SCALE);
    if k == 0 || k == SYMBOLS {
    } else if k <= b {
      OnlySlots(data, b, k - 1);
      assert (k - 1) as byte !in data;
      assert Width(cum, k - 1) == 0;
    } else {
      OnlySlots(data, b, k + 1);
      assert k as byte !in data;
      assert Width(cum, k) == 0;
    }
  }

  /** A symbol with all the slots leaves the state as it is. */
  lemma WholeScale(x: State)
    ensures EncStep(x, 0, 0x4000, 14) == (x, [])
  {
    Pow2Values();
    XMaxIsPower(0x4000, 14);
    PowerOf49();
    WholeCode(x);
  }

  lemma WholeCode(x: nat)
    ensures x / 0x4000 * 0x4000 + x % 0x4000 == x
  {
  }

  lemma {:induction false} StatesStay(data: seq<byte>, b: byte, cum: seq<int>)
    requires Covers(cum, data) && forall i | 0 <= i < |data| :: data[i] == b
    requires cum[b] == 0 && cum[b + 1] == 0x4000
    ensures EncodeAll(data, cum) == Coder(0x8000_0000, 0x8000_0000, [])
    decreases |data|
  {
    hide EncodeAll, EncStep, Table;
    if data == [] {
      NothingCoded(cum);
    } else {
      CoveredRest(cum, data);
      assert data == [b] + data[1..];
      OneByteMore(b, data[1..], cum);
      StatesStay(data[1..], b, cum);
      WholeScale(0x8000_0000);
    }
  }

  lemma NothingCoded(cum: seq<int>)
    requires Covers(cum, [])
    ensures EncodeAll([], cum) == Coder(0x8000_0000, 0x8000_0000, [])
  {
  }

  function Zeros(n: nat): (z: seq<byte>)
    ensures |z| == n
  {
    seq(n, _ => 0)
  }

  /** The header in front of symbol `i` and behind it. */
  lemma {:induction false} OneInHeader(f: seq<dword>, b: byte, i: nat)
    requires |f| == SYMBOLS && i <= SYMBOLS
    requires forall k | 0 <= k < SYMBOLS :: f[k] == if k == b as nat then 0x4000 else 0
    ensures Header(f, i) == if i <= b then Zeros(b - i) + [2, 0, 0x40] + Zeros(255 - b) else Zeros(SYMBOLS - i)
    decreases SYMBOLS - i
  {
    hide EncodeFreq;
    if i == SYMBOLS {
    } else {
      OneInHeader(f, b, i + 1);
      HeaderOfOne();
      if i < b {
        assert Zeros(b - i) == [0] + Zeros(b - (i + 1));
        assert [0] + (Zeros(b - (i + 1)) + [2, 0, 0x40] + Zeros(255 - b)) == Zeros(b - i) + [2, 0, 0x40] + Zeros(255 - b);
      } else if i == b as nat {
        assert Zeros(0) + [2, 0, 0x40] + Zeros(255 - b) == [2, 0, 0x40] + Zeros(255 - b);
      } else {
        assert Zeros(SYMBOLS - i) == [0] + Zeros(SYMBOLS - (i + 1));
      }
    }
  }

  lemma HeaderOfOne()
    ensures EncodeFreq(0) == [0] && EncodeFreq(0x4000) == [2, 0, 0x40]
  {
    NoHighBits(0x4000);
  }

  /** An input of one byte value in full: the states never move, so a section of any length
      takes 282 bytes. */
  lemma OneSymbol(data: seq<byte>, b: byte)
    requires 0 < |data| < L && forall i | 0 <= i < |data| :: data[i] == b
    ensures Compress(data) == LE32(|data|) + [0x1A, 1, 0, 0] + Zeros(b) + [2, 0, 0x40] + Zeros(255 - b)
                                + [0, 0, 0, 0x80, 0, 0, 0, 0, 0, 0, 0, 0x80, 0, 0, 0, 0]
  {
    hide EncodeAll, Header, Zeros, CumOf, LE32;
    var cum := CumOf(data);
    OneTable(data, b);
    StatesStay(data, b, cum);
    OneInHeader(Widths(cum), b, 0);
    BeginFlat();
    var h := Zeros(b) + [2, 0, 0x40] + Zeros(255 - b);
    var f: seq<byte> := [0, 0, 0, 0x80, 0, 0, 0, 0, 0, 0, 0, 0x80, 0, 0, 0, 0];
    assert Payload(data) == h + f;
    assert |h + f| + 8 == 282;
    LengthBytes();
    assert LE32(|data|) + [0x1A, 1, 0, 0] + (h + f)
        == LE32(|data|) + [0x1A, 1, 0, 0] + Zeros(b) + [2, 0, 0x40] + Zeros(255 - b) + f;
  }

  lemma LengthBytes()
    ensures LE32(282) == [0x1A, 1, 0, 0]
  {
  }

  lemma OneTable(data: seq<byte>, b: byte)
    requires 0 < |data| < B32 && forall i | 0 <= i < |data| :: data[i] == b
    ensures var cum := CumOf(data);
            && cum[b] == 0 && cum[b + 1] == 0x4000
            && forall k | 0 <= k < SYMBOLS :: Widths(cum)[k] == if k == b as nat then 0x4000 else 0
  {
    hide CumOf;
    var cum := CumOf(data);
    forall k: nat | k <= SYMBOLS
      ensures cum[k] == if k <= b then 0 else 0x4000
    {
      OnlySlots(data, b, k);
    }
  }

  lemma BeginFlat()
    ensures Flat(Flushed(Coder(0x8000_0000, 0x8000_0000, [])))
         == [0, 0, 0, 0x80, 0, 0, 0, 0, 0, 0, 0, 0x80, 0, 0, 0, 0]
  {
    var w: seq<dword> := [0x8000_0000, 0, 0x8000_0000, 0];
    assert Flushed(Coder(0x8000_0000, 0x8000_0000, [])) == w;
    assert w[1..] == [0, 0x8000_0000, 0] && w[1..][1..] == [0x8000_0000, 0] && w[1..][1..][1..] == [0];
    assert LE32(0) == [0, 0, 0, 0] && LE32(0x8000_0000) == [0, 0, 0, 0x80];
    hide LE32;
    assert Flat([0]) == LE32(0) + Flat([]);
  }

  // ------------------------------------------------------------------ the decoder

  /** A section is too long exactly when its length field is a length, and more than there is
      room for. */
  lemma TooLongExactly(b: seq<byte>, outlen: nat)
    ensures Uncompress(b, outlen) == TooLong <==> |b| >= 8 && outlen < Get32(b) < 0x8000_0000
    ensures Uncompress(b, outlen).Ok? ==> |Uncompress(b, outlen).data| == Get32(b) <= outlen
  {
    hide Get32, ReadHeader, NormalCum, DecodeAll, Total;
  }
}
