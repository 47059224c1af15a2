/** The frequency header of a compressed section: 256 frequencies of one to four bytes
    each, the length in the two low bits of the first byte. */
module FreqHeader {
  import opened Words
  import opened Rans64
  import opened Bytes

  /** First byte of the three-byte form: bits 16 to 21, narrowed before they are shifted. */
  function HighByte(f: dword): byte {
    (f / 0x1_0000 % 0x40) * 0x1_0000 % 0x100 / 0x4000 + 2
  }

  /** One frequency as the encoder stores it. The three-byte form narrows bits 16 to 21
      to eight bits before it shifts them down, so they are always stored as zero. */
  function EncodeFreq(f: dword): (b: seq<byte>)
    ensures 1 <= |b| <= 4
  {
    if f <= 0x3F then [f * 4]
    else if f <= 0x3FFF then LE16(f * 4 + 1)
    else if f <= 0x3F_FFFF then [HighByte(f)] + LE16(f % 0x1_0000)
    else LE32((f * 4 + 3) % B32)
  }

  /** One frequency as the decoder reads it: the value and the bytes behind it, or
      nothing when the bytes run out. */
  function DecodeFreq(b: seq<byte>): Option<(dword, seq<byte>)> {
    if b == [] then None
    else
      var n := b[0] % 4 + 1;
      if n > |b| then None
      else if n == 1 then Some((b[0] / 4, b[1..]))
      else if n == 2 then Some((Get16(b) / 4, b[2..]))
      else if n == 3 then
        var high: nat := b[0] / 4;
        Some((high * 0x1_0000 + Get16(b[1..]), b[3..]))
      else Some((Get32(b) / 4, b[4..]))
  }

  /** The frequencies this header can carry. */
  predicate Storable(f: dword) {
    f < 0x1_0000 || 0x40_0000 <= f < 0x4000_0000
  }

  /** The cursor is always right; the value comes back exactly when it is storable. */
  lemma FreqRoundTrip(f: dword, rest: seq<byte>)
    ensures var r := DecodeFreq(EncodeFreq(f) + rest);
            && r.Some?
            && r.value.1 == rest
            && (r.value.0 == f <==> Storable(f))
  {
    hide EncodeFreq, DecodeFreq;
    if f <= 0x3FFF {
      ShortFreqRoundTrip(f, rest);
    } else if f <= 0x3F_FFFF {
      ThreeByteFreq(f, rest);
    } else {
      LongFreqRoundTrip(f, rest);
    }
  }

  lemma ShortFreqRoundTrip(f: dword, rest: seq<byte>)
    requires f <= 0x3FFF
    ensures DecodeFreq(EncodeFreq(f) + rest) == Some((f, rest))
  {
    var b := EncodeFreq(f) + rest;
    if f <= 0x3F {
      assert b[1..] == rest;
    } else {
      assert b[2..] == rest;
    }
  }

  /** The low sixteen bits come back; the bits above them are lost. */
  lemma ThreeByteFreq(f: dword, rest: seq<byte>)
    requires 0x3FFF < f <= 0x3F_FFFF
    ensures DecodeFreq(EncodeFreq(f) + rest) == Some((f % 0x1_0000, rest))
  {
    var low := f % 0x1_0000;
    assert (f / 0x1_0000 % 0x40) * 0x1_0000 % 0x100 == 0;
    var b := EncodeFreq(f) + rest;
    assert b == [2] + (LE16(low) + rest);
    assert b[1..] == LE16(low) + rest;
    assert b[3..] == rest;
  }

  lemma LongFreqRoundTrip(f: dword, rest: seq<byte>)
    requires f > 0x3F_FFFF
    ensures DecodeFreq(EncodeFreq(f) + rest) == Some((f % 0x4000_0000, rest))
  {
    var w: dword := (f * 4 + 3) % B32;
    assert w == (f % 0x4000_0000) * 4 + 3;
    assert (LE32(w) + rest)[4..] == rest;
    Get32Prefix(w, rest);
  }

  /** The bytes of frequencies `i` and up, lowest index first. */
  function Header(freqs: seq<dword>, i: nat): seq<byte>
    requires i <= |freqs|
    decreases |freqs| - i
  {
    if i == |freqs| then [] else EncodeFreq(freqs[i]) + Header(freqs, i + 1)
  }

  /** Read `n` frequencies: the values and the bytes behind them. */
  function ReadHeader(b: seq<byte>, n: nat): (r: Option<(seq<dword>, seq<byte>)>)
    ensures r.Some? ==> |r.value.0| == n
    decreases n, b
  {
    if n == 0 then Some(([], b))
    else
      match DecodeFreq(b)
      case None => None
      case Some((f, rest)) =>
        match ReadHeader(rest, n - 1)
        case None => None
        case Some((fs, rest')) => Some(([f] + fs, rest'))
  }

  /** Printing then parsing a header restores every frequency and stops right behind it. */
  lemma {:induction false} HeaderRoundTrip(freqs: seq<dword>, i: nat, rest: seq<byte>)
    requires i <= |freqs|
    requires forall k | 0 <= k < |freqs| :: freqs[k] < 0x1_0000
    ensures ReadHeader(Header(freqs, i) + rest, |freqs| - i) == Some((freqs[i..], rest))
    decreases |freqs| - i
  {
    hide EncodeFreq, DecodeFreq;
    if i == |freqs| {
      assert Header(freqs, i) + rest == rest;
    } else {
      var tail := Header(freqs, i + 1) + rest;
      FreqRoundTrip(freqs[i], tail);
      assert Header(freqs, i) + rest == EncodeFreq(freqs[i]) + tail;
      HeaderRoundTrip(freqs, i + 1, rest);
      assert [freqs[i]] + freqs[i + 1..] == freqs[i..];
    }
  }
}
