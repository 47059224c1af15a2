/** The literal payload of an LZFSE block: four interleaved tANS states over one bit stream,
    written from the last literal to the first and read the other way. */
module FseLiterals {
  import opened Arith
  import opened Words
  import opened FseTables
  import opened FseStream

  /** Four states and the stream they share. */
  datatype Machine = Machine(s0: nat, s1: nat, s2: nat, s3: nat, bits: Bits)
  {
    ghost predicate Good(n: nat) {
      s0 < n && s1 < n && s2 < n && s3 < n && bits.Fits()
    }
  }

  /** An encoder table for a block: a power of two of states, few enough for four symbols in
      one accumulator, and frequencies that sum to it. */
  ghost predicate Coder(t: seq<EncEntry>, n: nat, freq: seq<nat>) {
    States(n) && n <= 0x4000 && |freq| <= 256 && IsEncTable(t, n, freq) && Sum(freq) == n
  }

  ghost predicate Used(freq: seq<nat>, lits: seq<byte>) {
    forall i | 0 <= i < |lits| :: lits[i] < |freq| && freq[lits[i]] > 0
  }

  // ------------------------------------------------------------------- one symbol

  function EncodeOne(t: seq<EncEntry>, ghost n: nat, ghost freq: seq<nat>, x: byte, s: nat, bits: Bits): (r: (nat, Bits))
    requires Coder(t, n, freq) && x < |freq| && freq[x] > 0 && s < n
    ensures r.0 < n && bits.count <= r.1.count <= bits.count + Log(n)
    ensures bits.Fits() ==> r.1.Fits()
  {
    TablesInvert(t, n, freq, x, s);
    var c := Encode(t[x], s);
    assert bits.Fits() ==> bits.Push(c.nbits, c.bits).Fits() by {
      if bits.Fits() { PopUndoesPush(bits, c.nbits, c.bits); }
    }
    (c.state, bits.Push(c.nbits, c.bits))
  }

  /** Decoder entries that keep the state in range. */
  ghost predicate Decoder(table: seq<DecEntry>, n: nat) {
    && States(n) && n <= 0x4000 && |table| == n
    && forall i | 0 <= i < n :: table[i].k <= Log(n) && 0 <= table[i].delta && table[i].delta + Pow2(table[i].k) <= n
  }

  function DecodeOne(table: seq<DecEntry>, s: nat, bits: Bits): (r: (byte, int, Bits))
    requires s < |table| && table[s].k <= bits.count
  {
    var e := table[s];
    (e.symbol, e.delta + bits.Top(e.k), bits.Pop(e.k))
  }

  lemma DecodeOneSafe(table: seq<DecEntry>, n: nat, s: nat, bits: Bits)
    requires Decoder(table, n) && s < n && Log(n) <= bits.count && bits.Fits()
    ensures var r := DecodeOne(table, s, bits);
            0 <= r.1 < n && r.2.Fits() && bits.count - Log(n) <= r.2.count <= bits.count
  {
    hide Log, Pow2;
    var k := table[s].k;
    Pow2Add(bits.count - k, k);
    assert Pow2(bits.count - k) * Pow2(k) == Pow2(k) * Pow2(bits.count - k);
    DivBetween(bits.value, Pow2(bits.count - k), 0, Pow2(k));
  }

  lemma OneRoundTrip(t: seq<EncEntry>, n: nat, freq: seq<nat>, x: byte, s: nat, bits: Bits)
    requires Coder(t, n, freq) && x < |freq| && freq[x] > 0 && s < n && bits.Fits()
    ensures var (s', bits') := EncodeOne(t, n, freq, x, s, bits);
            && s' < |DecTable(n, freq)| && DecTable(n, freq)[s'].k <= bits'.count
            && DecodeOne(DecTable(n, freq), s', bits') == (x, s, bits)
  {
    hide DecTable, Encode, Log, Sum;
    TablesInvert(t, n, freq, x, s);
    var c := Encode(t[x], s);
    PopUndoesPush(bits, c.nbits, c.bits);
  }

  /** The decoder table of frequencies that sum to the number of states keeps every state
      in range, whatever bits it is fed. */
  lemma {:induction false} DecTableIsSafe(n: nat, freq: seq<nat>)
    requires States(n) && n <= 0x4000 && |freq| <= 256 && Sum(freq) <= n
    ensures forall i | 0 <= i < Sum(freq) :: var e := DecTable(n, freq)[i];
              e.k <= Log(n) && 0 <= e.delta && e.delta + Pow2(e.k) <= n
    decreases freq
  {
    hide Log, Pow2, DecEntryOf;
    if freq == [] {
    } else {
      var last := |freq| - 1;
      DecTableIsSafe(n, freq[..last]);
      forall j | 0 <= j < freq[last]
        ensures var e := DecEntryOf(n, freq[last], j, last);
                e.k <= Log(n) && 0 <= e.delta && e.delta + Pow2(e.k) <= n
      {
        SlotIsSafe(n, freq[last], j, last);
      }
    }
  }

  lemma SlotIsSafe(n: nat, f: nat, j: nat, symbol: byte)
    requires States(n) && f <= n && j < f
    ensures var e := DecEntryOf(n, f, j, symbol);
            e.k <= Log(n) && 0 <= e.delta && e.delta + Pow2(e.k) <= n
  {
    hide Log, Pow2;
    var k := Shift(n, f);
    var delta1 := if k > 0 then n / Pow2(k - 1) - f else 0;
    var e := EncEntry(f * Pow2(k) - n, k, n / Pow2(k) - f, delta1);
    var d := DecEntryOf(n, f, j, symbol);
    DecodeThenEncode(e, n, f, 0, symbol, j, 0);
    DecodeThenEncode(e, n, f, 0, symbol, j, Pow2(d.k) - 1);
  }

  // -------------------------------------------------------------- groups of four

  function EncodeGroup(t: seq<EncEntry>, ghost n: nat, ghost freq: seq<nat>, g: seq<byte>, m: Machine): (r: Machine)
    requires Coder(t, n, freq) && |g| == 4 && Used(freq, g) && m.Good(n)
    ensures r.Good(n) && m.bits.count <= r.bits.count <= m.bits.count + 4 * Log(n)
  {
    var (s3, b3) := EncodeOne(t, n, freq, g[3], m.s3, m.bits);
    var (s2, b2) := EncodeOne(t, n, freq, g[2], m.s2, b3);
    var (s1, b1) := EncodeOne(t, n, freq, g[1], m.s1, b2);
    var (s0, b0) := EncodeOne(t, n, freq, g[0], m.s0, b1);
    Machine(s0, s1, s2, s3, b0)
  }

  function DecodeGroup(table: seq<DecEntry>, ghost n: nat, m: Machine): (r: (seq<byte>, Machine))
    requires Decoder(table, n) && m.Good(n) && m.bits.count >= 4 * Log(n)
    ensures |r.0| == 4 && r.1.Good(n) && r.1.bits.count >= m.bits.count - 4 * Log(n)
  {
    DecodeOneSafe(table, n, m.s0, m.bits);
    var (x0, s0, b0) := DecodeOne(table, m.s0, m.bits);
    DecodeOneSafe(table, n, m.s1, b0);
    var (x1, s1, b1) := DecodeOne(table, m.s1, b0);
    DecodeOneSafe(table, n, m.s2, b1);
    var (x2, s2, b2) := DecodeOne(table, m.s2, b1);
    DecodeOneSafe(table, n, m.s3, b2);
    var (x3, s3, b3) := DecodeOne(table, m.s3, b2);
    ([x0, x1, x2, x3], Machine(s0, s1, s2, s3, b3))
  }

  lemma FewStates(n: nat)
    requires States(n) && n <= 0x4000
    ensures Log(n) <= 14
  {
    if Log(n) > 14 {
      Pow2Values();
      Pow2Half(15);
      Pow2Monotone(15, Log(n));
      assert false;
    }
  }

  lemma GroupRoundTrip(t: seq<EncEntry>, n: nat, freq: seq<nat>, g: seq<byte>, m: Machine)
    requires Coder(t, n, freq) && |g| == 4 && Used(freq, g) && m.Good(n)
    requires Decoder(DecTable(n, freq), n) && EncodeGroup(t, n, freq, g, m).bits.count >= 4 * Log(n)
    ensures DecodeGroup(DecTable(n, freq), n, EncodeGroup(t, n, freq, g, m)) == (g, m)
  {
    hide DecTable, EncodeOne, DecodeOne, Log, Sum, IsEncTable, States;
    var (s3, b3) := EncodeOne(t, n, freq, g[3], m.s3, m.bits);
    var (s2, b2) := EncodeOne(t, n, freq, g[2], m.s2, b3);
    var (s1, b1) := EncodeOne(t, n, freq, g[1], m.s1, b2);
    OneRoundTrip(t, n, freq, g[3], m.s3, m.bits);
    OneRoundTrip(t, n, freq, g[2], m.s2, b3);
    OneRoundTrip(t, n, freq, g[1], m.s1, b2);
    OneRoundTrip(t, n, freq, g[0], m.s0, b1);
    assert g == [g[0], g[1], g[2], g[3]];
  }

  // ---------------------------------------------------------------- whole payload

  /** All literals, the last group first. */
  function EncodeGroups(t: seq<EncEntry>, ghost n: nat, ghost freq: seq<nat>, lits: seq<byte>, m: Machine): (r: Machine)
    requires Coder(t, n, freq) && |lits| % 4 == 0 && Used(freq, lits) && m.Good(n)
    ensures r.Good(n) && m.bits.count <= r.bits.count
  {
    if lits == [] then m
    else EncodeGroup(t, n, freq, lits[..4], EncodeGroups(t, n, freq, lits[4..], m))
  }

  /** `count` groups, with a refill before each; it fails when fewer than 56 bits are left
      behind `start`. */
  function DecodeGroups(table: seq<DecEntry>, ghost n: nat, start: nat, m: Machine, count: nat): (r: Option<(seq<byte>, Machine)>)
    requires Decoder(table, n) && m.Good(n)
    decreases count, table
  {
    if count == 0 then Some(([], m))
    else if m.bits.count < 8 * start + 56 then None
    else
      FewStates(n);
      var (g, m1) := DecodeGroup(table, n, m);
      match DecodeGroups(table, n, start, m1, count - 1)
      case None => None
      case Some((rest, m2)) => Some((g + rest, m2))
  }

  /** With 56 bits in front of the payload no refill fails: decoding returns the literals,
      and all four states and the stream are back where the encoder began. */
  lemma {:induction false} GroupsRoundTrip(t: seq<EncEntry>, n: nat, freq: seq<nat>, lits: seq<byte>, m: Machine, start: nat)
    requires Coder(t, n, freq) && |lits| % 4 == 0 && Used(freq, lits) && m.Good(n)
    requires Decoder(DecTable(n, freq), n) && m.bits.count >= 8 * start + 56
    ensures DecodeGroups(DecTable(n, freq), n, start, EncodeGroups(t, n, freq, lits, m), |lits| / 4) == Some((lits, m))
    decreases |lits|
  {
    hide DecTable, EncodeGroup, DecodeGroup, Sum, IsEncTable, States, Log, Decoder;
    if lits == [] {
    } else {
      var m1 := EncodeGroups(t, n, freq, lits[4..], m);
      FewStates(n) by { assert Coder(t, n, freq); }
      GroupRoundTrip(t, n, freq, lits[..4], m1);
      GroupsRoundTrip(t, n, freq, lits[4..], m, start);
      assert lits[..4] + lits[4..] == lits;
    }
  }

  /** The encoder's state at the start of a payload behind the bytes `before`. */
  ghost function Begin(before: seq<byte>): Machine {
    Machine(0, 0, 0, 0, Bits(Value(before), 8 * |before|))
  }

  lemma BeginIsGood(before: seq<byte>, n: nat)
    requires n > 0
    ensures Begin(before).Good(n)
  {
    ValueBelow(before);
  }

  /** What the block header records of a payload. */
  datatype Payload = Payload(end: nat, bits: int, s0: nat, s1: nat, s2: nat, s3: nat)

  /** Decoding a payload: the end of `buf[..p.end]` first, nothing in front of `start`. */
  ghost function Decode(table: seq<DecEntry>, n: nat, buf: seq<byte>, start: nat, p: Payload, count: nat): Option<seq<byte>>
    requires Decoder(table, n) && p.end <= |buf|
    requires p.s0 < n && p.s1 < n && p.s2 < n && p.s3 < n
  {
    if !(-8 <= p.bits <= 0 && p.end >= start + (if p.bits == 0 then 7 else 8)
         && Value(buf[..p.end]) < Pow2(8 * p.end + p.bits)) then None
    else
      var m := Machine(p.s0, p.s1, p.s2, p.s3, Bits(Value(buf[..p.end]), 8 * p.end + p.bits));
      match DecodeGroups(table, n, start, m, count)
      case None => None
      case Some((lits, _)) => Some(lits)
  }

  /** `p` describes the payload of `lits` that `buf` holds from `at` on. */
  ghost predicate Describes(p: Payload, t: seq<EncEntry>, n: nat, freq: seq<nat>, lits: seq<byte>, buf: seq<byte>, at: nat)
    requires Coder(t, n, freq) && |lits| % 4 == 0 && Used(freq, lits)
  {
    && at <= p.end <= |buf| && -7 <= p.bits <= 0 <= 8 * p.end + p.bits
    && n > 0
    && (BeginIsGood(buf[..at], n);
        EncodeGroups(t, n, freq, lits, Begin(buf[..at]))
          == Machine(p.s0, p.s1, p.s2, p.s3, Bits(Value(buf[..p.end]), 8 * p.end + p.bits)))
  }

  /** The literal round trip: seven bytes in front of the payload are enough. */
  lemma LiteralsRoundTrip(p: Payload, t: seq<EncEntry>, n: nat, freq: seq<nat>, lits: seq<byte>, buf: seq<byte>, at: nat, start: nat)
    requires Coder(t, n, freq) && |lits| % 4 == 0 && Used(freq, lits)
    requires Describes(p, t, n, freq, lits, buf, at) && at >= start + 7
    ensures p.s0 < n && p.s1 < n && p.s2 < n && p.s3 < n && Decoder(DecTable(n, freq), n)
    ensures Decode(DecTable(n, freq), n, buf, start, p, |lits| / 4) == Some(lits)
  {
    hide EncodeGroups, DecodeGroups, DecTable, Sum, IsEncTable, Log, Pow2, Value;
    DecTableIsSafe(n, freq);
    BeginIsGood(buf[..at], n);
    GroupsRoundTrip(t, n, freq, lits, Begin(buf[..at]), start);
  }
}
