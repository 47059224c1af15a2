/** The bits of a printed LZ16 token, field by field, and the errors of the decoders. */
module LzForm {
  import opened Arith
  import opened Words
  import opened Nibbles
  import opened Tokens
  import opened LzDecode
  import opened LzRoundTrip

  // ----------------------------------------------------------------------- words

  /** Words of the input, and the bytes of decoded words, have their low byte first. */
  lemma {:induction false} WordsByNumber(pin: seq<byte>, pad: byte, i: nat)
    requires 2 * i + 1 < |pin|
    ensures Pack(pin, pad)[i] as nat == pin[2 * i] as nat + 0x100 * pin[2 * i + 1] as nat
    decreases i
  {
    if i > 0 {
      WordsByNumber(pin[2..], pad, i - 1);
    }
  }

  lemma {:induction false} BytesByNumber(words: seq<word>, i: nat)
    requires i < |words|
    ensures words[i] as nat == BytesOf(words)[2 * i] as nat + 0x100 * BytesOf(words)[2 * i + 1] as nat
    decreases i
  {
    if i > 0 {
      BytesByNumber(words[1..], i - 1);
    }
  }

  // ------------------------------------------------------------------- distances

  /** The distance flag `iixx,dddd`: below 32 a distance is in the flag's five low bits. From
      there on the bit above them is set, the next one tells one distance byte from two, and
      the bytes hold the distance without its four low bits, lowest byte first. */
  lemma DistanceByNumber(ii: nat, rest: nat)
    requires ii < 4 && rest < 0x10_0000
    ensures var c, b := RestFlag(ii * 0x40, rest), RestBytes(rest);
            && c / 0x40 == ii
            && (rest < 32 ==> c / 0x20 % 2 == 0 && c % 0x20 == rest && b == [])
            && (rest >= 32 ==>
                 && c / 0x20 % 2 == 1 && c % 0x10 == rest % 0x10
                 && c / 0x10 % 2 == (if rest < 4096 then 0 else 1) && |b| == (if rest < 4096 then 1 else 2)
                 && rest / 0x10 == b[0] as nat + (if |b| == 2 then 0x100 * b[1] as nat else 0))
  {
    RestFlagFields(ii, rest);
    if rest >= 32 {
      TopBits(ii, (rest / 0x10 + 0xFF00) / 0x1_0000 + 2, rest % 0x10);
    }
  }

  /** Which of the four kinds a token is. */
  function Kind(n: nat, extra: nat): (ii: nat)
    ensures ii < 4
  {
    (if extra > 0 then 2 else 0) + (if n > 0 then 1 else 0)
  }

  /** A field that shows its limit is continued in the nibbles. */
  ghost predicate Field(f: nat, limit: nat, l: nat, code: seq<nibble>) {
    f == (if l < limit then l else limit) && code == if l < limit then [] else LengthCode(l - limit)
  }

  // ---------------------------------------------------------------------- tokens

  /** Levels 1 and 3: a match of three words or more takes a flag byte `mmmd,dddd`; literals
      take a length of their own. */
  lemma NarrowByNumber(n: nat, extra: nat, dist: nat) returns (run: seq<nibble>, more: seq<nibble>)
    requires 1 <= dist < 0x10_0000
    ensures var F := PrintNarrow(n, extra, dist);
            var rest := if extra > 0 then dist / 0x20 else dist;
            && F.chars == [] && F.dflag == [RestFlag(0x40 * Kind(n, extra), rest)] && F.dist == RestBytes(rest)
            && F.nibs == run + more && run == (if n > 0 then LengthCode(n - 1) else [])
            && (extra == 0 ==> F.flag == [] && more == [])
            && (extra > 0 ==>
                 |F.flag| == 1 && F.flag[0] % 0x20 == dist % 0x20 && Field(F.flag[0] / 0x20, 7, extra - 1, more))
  {
    hide RestFlag, RestBytes, LengthCode;
    run := if n > 0 then LengthCode(n - 1) else [];
    more := if extra > 0 then CappedCode(extra - 1, 7) else [];
    if extra > 0 {
      MatchFields(Capped(extra - 1, 7), dist);
    }
  }

  /** Levels 2 and 4, two words alone: no flag byte, a byte of the distance among the nibbles. */
  lemma PackedTwoByNumber(dist: nat)
    requires 1 <= dist < 0x10_0000
    ensures PrintPacked(0, 0, dist)
         == Streams([], [RestFlag(0, dist / 0x100)], RestBytes(dist / 0x100), [], [dist % 0x10, dist % 0x100 / 0x10])
  {
    hide RestFlag, RestBytes;
    LowNibble(dist);
  }

  lemma NibbleOf(x: nat, q: nat, r: nat, a: nat, b: nat)
    requires x == 0x100 * q + r && r == 0x10 * a + b && b < 0x10
    ensures x % 0x10 == b
  {
    DivModUnique(x, 0x10, 0x10 * q + a, b);
  }

  lemma LowNibble(x: nat)
    ensures x % 0x100 % 0x10 == x % 0x10
  {
    var q, r := x / 0x100, x % 0x100;
    NibbleOf(x, q, r, r / 0x10, r % 0x10);
  }

  /** Levels 2 and 4, a match alone: the flag byte `mmmd,dddd`. */
  lemma PackedMatchByNumber(extra: nat, dist: nat)
    requires 1 <= dist < 0x10_0000 && extra > 0
    ensures var F := PrintPacked(0, extra, dist);
            && F.chars == [] && F.dflag == [RestFlag(0x80, dist / 0x20)] && F.dist == RestBytes(dist / 0x20)
            && |F.flag| == 1 && F.flag[0] % 0x20 == dist % 0x20 && Field(F.flag[0] / 0x20, 7, extra - 1, F.nibs)
  {
    hide RestFlag, RestBytes, LengthCode;
    MatchFields(Capped(extra - 1, 7), dist);
  }

  /** Levels 2 and 4, literals and two words: the flag byte `ccdd,dddd`. */
  lemma PackedRunByNumber(n: nat, dist: nat)
    requires 1 <= dist < 0x10_0000 && n > 0
    ensures var F := PrintPacked(n, 0, dist);
            && F.chars == [] && F.dflag == [RestFlag(0x40, dist / 0x40)] && F.dist == RestBytes(dist / 0x40)
            && |F.flag| == 1 && F.flag[0] % 0x40 == dist % 0x40 && Field(F.flag[0] / 0x40, 3, n - 1, F.nibs)
  {
    hide RestFlag, RestBytes, LengthCode;
  }

  /** Levels 2 and 4, literals and a match: the flag byte `mmmc,cddd`. */
  lemma PackedBothByNumber(n: nat, extra: nat, dist: nat) returns (run: seq<nibble>, more: seq<nibble>)
    requires 1 <= dist < 0x10_0000 && n > 0 && extra > 0
    ensures var F := PrintPacked(n, extra, dist);
            && F.chars == [] && F.dflag == [RestFlag(0xC0, dist / 8)] && F.dist == RestBytes(dist / 8)
            && |F.flag| == 1 && F.flag[0] % 8 == dist % 8 && F.nibs == run + more
            && Field(F.flag[0] / 8 % 4, 3, n - 1, run) && Field(F.flag[0] / 0x20, 7, extra - 1, more)
  {
    hide RestFlag, RestBytes, LengthCode;
    run, more := CappedCode(n - 1, 3), CappedCode(extra - 1, 7);
    PackedFields(Capped(extra - 1, 7), Capped(n - 1, 3), dist);
  }

  // --------------------------------------------------------------------- lengths

  /** Lengths in nibbles: one below 15; 15 and the rest below 30; from there on bytes of 255,
      one for 30 and one for every 255 above it, and a byte with what is left. */
  lemma LengthByNumber(l: nat)
    ensures l < 15 ==> LengthCode(l) == [l]
    ensures 15 <= l < 30 ==> LengthCode(l) == [15, l - 15]
    ensures l >= 30 ==>
              var c, k := LengthCode(l), 2 + 2 * ((l - 30) / 255);
              && |c| == k + 2 && (forall i | 0 <= i < k :: c[i] == 15)
              && c[k] as nat + 16 * c[k + 1] as nat == (l - 30) % 255
  {
    if l >= 30 {
      RunByNumber(l - 30);
    }
  }

  lemma {:induction false} RunByNumber(r: nat)
    ensures var c, k := RunCode(r), 2 * (r / 255);
            && |c| == k + 2 && (forall i | 0 <= i < k :: c[i] == 15)
            && c[k] as nat + 16 * c[k + 1] as nat == r % 255
    decreases r
  {
    if r < 255 {
    } else {
      RunByNumber(r - 255);
      assert r / 255 == (r - 255) / 255 + 1 && r % 255 == (r - 255) % 255;
      assert ByteCode(255) == [15, 15];
    }
  }

  /** The length of the last block in bytes: one below 15; 15, bytes of 255 and the rest from
      there on. */
  lemma TailByNumber(n: nat)
    ensures n < 15 ==> TailFlag(n) == [n]
    ensures n >= 15 ==>
              var b, k := TailFlag(n), 1 + (n - 15) / 255;
              && |b| == k + 1 && b[0] == 15 && (forall i | 1 <= i < k :: b[i] == 255)
              && b[k] as nat == (n - 15) % 255
  {
    if n >= 15 {
      TailRunByNumber(n - 15);
    }
  }

  lemma {:induction false} TailRunByNumber(r: nat)
    ensures var b, k := TailRun(r), r / 255;
            |b| == k + 1 && (forall i | 0 <= i < k :: b[i] == 255) && b[k] as nat == r % 255
    decreases r
  {
    if r < 255 {
    } else {
      TailRunByNumber(r - 255);
      assert r / 255 == (r - 255) / 255 + 1 && r % 255 == (r - 255) % 255;
    }
  }
}
