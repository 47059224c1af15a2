/** The LZ16 decoders as they run: read cursors over the five sections, wide copies into the
    output buffer. */
module LzDecoder {
  import opened Words
  import opened NibbleBuffer
  import opened Tokens
  import opened LzDecode
  import opened LzRoundTrip
  import opened LzMatch
  import LzEncoder
  import WideCopy

  /** How a step ended: it succeeded, returned an error, or left the defined inputs. */
  datatype Status = Fine | Failed(code: int) | Broken

  /** A step ended as its specification says. */
  ghost predicate Ended<T>(status: Status, r: Step<T>, v: T) {
    match r
    case Go(x) => status == Fine && v == x
    case Fail(c) => status == Failed(c)
    case Undefined => status == Broken
  }

  class Decoder {
    const chars: seq<word>
    const dflag: seq<byte>
    const dist: seq<byte>
    const flag: seq<byte>
    const exx: seq<byte>
    const inlen: nat
    const out: array<word>

    var pc: nat
    var pd: nat
    var ps: nat
    var pf: nat
    var px: nat
    var half: nat
    var po: nat

    function S(): Streams {
      Streams(chars, dflag, dist, flag, Unpack(exx))
    }

    /** The output has four words behind the last one for the wide stores. */
    ghost predicate Valid()
      reads this
    {
      half < 2 && 2 * po <= inlen && out.Length >= (inlen + 1) / 2 + 4
    }

    ghost function Now(): St
      reads this, out
      requires Valid()
    {
      St(pc, pd, ps, pf, 2 * px + half, out[..po])
    }

    constructor (S: Streams, exx: seq<byte>, inlen: nat, out: array<word>)
      requires S.nibs == Unpack(exx) && out.Length >= (inlen + 1) / 2 + 4
      ensures Valid() && this.S() == S && Now() == Start
      ensures this.out == out && this.inlen == inlen
    {
      this.chars, this.dflag, this.dist, this.flag, this.exx := S.chars, S.dflag, S.dist, S.flag, exx;
      this.inlen, this.out := inlen, out;
      pc, pd, ps, pf, px, half, po := 0, 0, 0, 0, 0, 0, 0;
    }

    method ReadDistance() returns (status: Status, c: byte, d: nat)
      requires Valid()
      modifies this`pd, this`ps
      ensures Valid()
      ensures Ended(status, TakeDistance(S(), old(Now())), (c, d, Now()))
    {
      hide DistanceBytes, Unpack;
      c, d := 0, 0;
      if pd >= |dflag| { return Broken, c, d; }
      c := dflag[pd];
      pd := pd + 1;
      d := c % 0x20;
      if c / 0x20 % 2 == 1 {
        var i := DistanceBytes(c);
        if ps + i > |dist| { return Broken, c, d; }
        var b0: nat := dist[ps];
        var b1: nat := if i == 2 then dist[ps + 1] else 0;
        d := (b0 + 0x100 * b1) * 0x10 + c % 0x10;
        ps := ps + i;
      }
      return Fine, c, d;
    }

    method ReadFlag() returns (status: Status, f: byte)
      requires Valid()
      modifies this`pf
      ensures Valid()
      ensures Ended(status, TakeFlag(S(), old(Now())), (f, Now()))
    {
      if pf >= |flag| { return Broken, 0; }
      f := flag[pf];
      pf := pf + 1;
      return Fine, f;
    }

    method ReadLen(l: nat) returns (status: Status, n: nat)
      requires Valid()
      modifies this`px, this`half
      ensures Valid()
      ensures Ended(status, TakeLength(S(), old(Now()), l), (n, Now()))
    {
      hide Unpack;
      var ok, m, q, k := ReadLength44(exx, px, half);
      if !ok { return Broken, 0; }
      px, half := q, k;
      return Fine, l + m;
    }

    method ReadCapped(field: nat, limit: nat) returns (status: Status, n: nat)
      requires Valid()
      modifies this`px, this`half
      ensures Valid()
      ensures Ended(status, TakeCapped(S(), old(Now()), field, limit), (n, Now()))
    {
      if field >= limit {
        status, n := ReadLen(field);
      } else {
        status, n := Fine, field;
      }
    }

    method ReadNibbleByte() returns (status: Status, b: byte)
      requires Valid()
      modifies this`px
      ensures Valid()
      ensures Ended(status, TakeNibbleByte(S(), old(Now())), (b, Now()))
    {
      hide Unpack;
      if 2 * px + half + 2 > 2 * |exx| { return Broken, 0; }
      LoadIsNibbles(exx, px, half);
      b := LoadWord(exx, px) / (if half == 0 then 1 else 16) % 0x100;
      px := px + 1;
      return Fine, b;
    }

    method CopyLits(n: nat) returns (status: Status)
      requires Valid()
      modifies this`pc, this`po, out
      ensures Valid() && po >= old(po)
      ensures Ended(status, TakeLits(S(), old(Now()), n, inlen), Now())
      ensures forall k | po + 4 <= k < out.Length :: out[k] == old(out[k])
    {
      if 2 * (po + n) > inlen { return Failed(-3); }
      if pc + n > |chars| { return Broken; }
      WideCopy.CopyLiterals(out, po, chars, pc, n);
      pc, po := pc + n, po + n;
      return Fine;
    }

    method CopyWide(d: nat, len: nat) returns (status: Status)
      requires Valid() && d <= po
      modifies this`po, out
      ensures Valid() && po >= old(po)
      ensures Ended(status, TakeMatch(old(Now()), d, len, inlen), Now())
      ensures forall k | po + 4 <= k < out.Length :: out[k] == old(out[k])
    {
      if 2 * (po + len) > inlen { return Failed(-3); }
      if d > 3 {
        WideCopy.CopyFar(out, po, d, len);
      } else {
        if d <= 0 { return Failed(-5); }
        WideCopy.CopyNear(out, po, d, len);
      }
      po := po + len;
      return Fine;
    }

    method CopyTwo(d: nat) returns (status: Status)
      requires Valid() && d <= po
      modifies this`po, out
      ensures Valid() && po >= old(po)
      ensures Ended(status, TakeTwo(old(Now()), d, inlen), Now())
      ensures forall k | po + 4 <= k < out.Length :: out[k] == old(out[k])
    {
      if d == 0 || 2 * (po + 2) > inlen { return Broken; }
      hide CopyMatch, Unpack;
      StoreTwo(out, po, d);
      po := po + 2;
      return Fine;
    }

    static method StoreTwo(out: array<word>, po: nat, d: nat)
      requires 1 <= d <= po && po + 2 <= out.Length
      modifies out
      ensures out[..po + 2] == CopyMatch(old(out[..po]), d, 2)
      ensures forall k | po + 2 <= k < out.Length :: out[k] == old(out[k])
    {
      hide CopyMatch;
      ghost var o := out[..po];
      TwoWords(o, d);
      out[po] := out[po - d];
      out[po + 1] := out[po + 1 - d];
      assert out[..po + 2] == o + [out[po], out[po + 1]];
    }

    static lemma TwoWords(o: seq<word>, d: nat)
      requires 1 <= d <= |o|
      ensures var a := o[|o| - d];
              CopyMatch(o, d, 2) == o + [a, if d == 1 then a else o[|o| + 1 - d]]
    {
      assert CopyMatch(o, d, 0) == o;
      assert CopyMatch(o, d, 1) == o + [o[|o| - d]];
    }

    /** The literal run of levels 1 and 3. */
    method CopyRun() returns (status: Status)
      requires Valid()
      modifies this`px, this`half, this`pc, this`po, out
      ensures Valid() && po >= old(po)
      ensures Ended(status, TakeLitRun(S(), old(Now()), inlen), Now())
      ensures forall k | po + 4 <= k < out.Length :: out[k] == old(out[k])
    {
      hide TakeLength, TakeLits;
      var n;
      status, n := ReadLen(1);
      if status != Fine { return; }
      status := CopyLits(n);
    }

    /** One token of lz16DEm. */
    method DecodeNarrow() returns (status: Status)
      requires Valid()
      modifies this, out
      ensures Valid() && po >= old(po)
      ensures Ended(status, TakeNarrow(S(), old(Now()), inlen), Now())
      ensures forall k | po + 4 <= k < out.Length :: out[k] == old(out[k])
    {
      hide TakeDistance, TakeLitRun, TakeNarrowMatch, TakeTwo, Unpack;
      var c, d;
      status, c, d := ReadDistance();
      if status != Fine { return; }
      if c / 0x40 % 2 == 1 {
        status := CopyRun();
        if status != Fine { return; }
      }
      if c >= 0x80 {
        status := DecodeNarrowMatch(d);
      } else {
        if d > po { return Failed(-4); }
        status := CopyTwo(d);
      }
    }

    method DecodeNarrowMatch(d: nat) returns (status: Status)
      requires Valid()
      modifies this, out
      ensures Valid() && po >= old(po)
      ensures Ended(status, TakeNarrowMatch(S(), old(Now()), d, inlen), Now())
      ensures forall k | po + 4 <= k < out.Length :: out[k] == old(out[k])
    {
      hide TakeFlag, TakeCapped, TakeMatch, Unpack;
      var f, len;
      status, f := ReadFlag();
      if status != Fine { return; }
      var dist := d * 0x20 + f % 0x20;
      status, len := ReadCapped(f / 0x20, 7);
      if status != Fine { return; }
      if dist > po { return Failed(-4); }
      status := CopyWide(dist, len + 3);
    }

    /** The match part of a token of levels 2 and 4. */
    method CopyPackedMatch(d: nat, f: byte) returns (status: Status)
      requires Valid()
      modifies this`px, this`half, this`po, out
      ensures Valid() && po >= old(po)
      ensures Ended(status, TakePackedMatch(S(), old(Now()), d, f, inlen), Now())
      ensures forall k | po + 4 <= k < out.Length :: out[k] == old(out[k])
    {
      hide TakeCapped, TakeMatch;
      if d > po { return Failed(-4); }
      var len;
      status, len := ReadCapped(f / 0x20, 7);
      if status != Fine { return; }
      status := CopyWide(d, len + 3);
    }

    /** One token of lz16DEmc. */
    method DecodePacked() returns (status: Status)
      requires Valid()
      modifies this, out
      ensures Valid() && po >= old(po)
      ensures Ended(status, TakePacked(S(), old(Now()), inlen), Now())
      ensures forall k | po + 4 <= k < out.Length :: out[k] == old(out[k])
    {
      hide TakeDistance, TakePackedLong, TakePackedTwo, TakePackedRunTwo, Unpack;
      var c, d;
      status, c, d := ReadDistance();
      if status != Fine { return; }
      if c >= 0x80 {
        status := DecodePackedLong(c, d);
      } else if c / 0x40 % 2 == 0 {
        status := DecodePackedTwo(d);
      } else {
        status := DecodePackedRunTwo(d);
      }
    }

    method DecodePackedLong(c: byte, d: nat) returns (status: Status)
      requires Valid()
      modifies this, out
      ensures Valid() && po >= old(po)
      ensures Ended(status, TakePackedLong(S(), old(Now()), c, d, inlen), Now())
      ensures forall k | po + 4 <= k < out.Length :: out[k] == old(out[k])
    {
      hide TakeFlag, TakeCapped, TakeLits, TakePackedMatch, Unpack;
      var f, n;
      status, f := ReadFlag();
      if status != Fine { return; }
      if c / 0x40 % 2 == 0 {
        status := CopyPackedMatch(d * 0x20 + f % 0x20, f);
        return;
      }
      status, n := ReadCapped(f / 8 % 4, 3);
      if status != Fine { return; }
      status := CopyLits(n + 1);
      if status != Fine { return; }
      status := CopyPackedMatch(d * 8 + f % 8, f);
    }

    method DecodePackedTwo(d: nat) returns (status: Status)
      requires Valid()
      modifies this, out
      ensures Valid() && po >= old(po)
      ensures Ended(status, TakePackedTwo(S(), old(Now()), d, inlen), Now())
      ensures forall k | po + 4 <= k < out.Length :: out[k] == old(out[k])
    {
      hide TakeNibbleByte, TakeTwo, Unpack;
      var low;
      status, low := ReadNibbleByte();
      if status != Fine { return; }
      var dist := d * 0x100 + low;
      if dist > po { return Failed(-4); }
      status := CopyTwo(dist);
    }

    method DecodePackedRunTwo(d: nat) returns (status: Status)
      requires Valid()
      modifies this, out
      ensures Valid() && po >= old(po)
      ensures Ended(status, TakePackedRunTwo(S(), old(Now()), d, inlen), Now())
      ensures forall k | po + 4 <= k < out.Length :: out[k] == old(out[k])
    {
      hide TakeFlag, TakeCapped, TakeLits, TakeTwo, Unpack;
      var f, n;
      status, f := ReadFlag();
      if status != Fine { return; }
      status, n := ReadCapped(f / 0x40, 3);
      if status != Fine { return; }
      status := CopyLits(n + 1);
      if status != Fine { return; }
      var dist := d * 0x40 + f % 0x40;
      if dist > po { return Failed(-4); }
      status := CopyTwo(dist);
    }

    /** The token loop: up to the end marker. */
    method DecodeTokens(layout: Layout) returns (status: Status)
      requires Valid()
      modifies this, out
      ensures Valid()
      ensures Ended(status, TakeAll(layout, S(), old(Now()), inlen), Now())
      ensures forall k | po + 4 <= k < out.Length :: out[k] == old(out[k])
      ensures old(pd) + 1 >= |dflag| ==> forall k | 0 <= k < out.Length :: out[k] == old(out[k])
    {
      hide TakeNarrow, TakePacked;
      ghost var start := Now();
      while pd + 1 < |dflag|
        invariant Valid()
        invariant TakeAll(layout, S(), start, inlen) == TakeAll(layout, S(), Now(), inlen)
        invariant forall k | po + 4 <= k < out.Length :: out[k] == old(out[k])
        invariant old(pd) + 1 >= |dflag| ==> pd == old(pd) && forall k | 0 <= k < out.Length :: out[k] == old(out[k])
        decreases |dflag| - pd
      {
        ghost var before := Now();
        if layout == Narrow {
          status := DecodeNarrow();
        } else {
          status := DecodePacked();
        }
        assert Ended(status, TakeToken(layout, S(), before, inlen), Now());
        if status != Fine { return; }
      }
      status := Fine;
    }

    /** mylz_ReadLength. */
    method ReadRunBytes(l0: nat) returns (status: Status, l: nat)
      requires Valid()
      modifies this`pf
      ensures Valid()
      ensures Ended(status, TakeRun(S(), old(Now()), l0), (l, Now()))
    {
      ghost var start := Now();
      l := l0;
      var b := 255;
      while b == 255
        invariant Valid()
        invariant b == 255 ==> TakeRun(S(), start, l0) == TakeRun(S(), Now(), l)
        invariant b != 255 ==> TakeRun(S(), start, l0) == Go((l, Now()))
        decreases b == 255, |flag| - pf
      {
        status, b := ReadFlag();
        if status != Fine { return; }
        l := l + b;
      }
      status := Fine;
    }

    method ReadTailLength() returns (status: Status, n: nat)
      requires Valid()
      modifies this`pf
      ensures Valid()
      ensures Ended(status, TakeTailLength(S(), old(Now())), (n, Now()))
    {
      hide TakeFlag, TakeRun;
      status, n := ReadFlag();
      if status != Fine { return; }
      if n == 15 {
        status, n := ReadRunBytes(15);
      }
    }

    method CopyTailWords(n: nat)
      requires Valid() && pc + n <= |chars| && 2 * (po + n) < inlen
      modifies out
      ensures out[..po + n] == old(out[..po]) + chars[pc..pc + n]
      ensures forall k | po + n <= k < out.Length :: out[k] == old(out[k])
    {
      ghost var o := out[..po];
      for i := 0 to n
        invariant out[..po + i] == o + chars[pc..pc + i]
        invariant forall k | po + n <= k < out.Length :: out[k] == old(out[k])
      {
        assert chars[pc..pc + i + 1] == chars[pc..pc + i] + [chars[pc + i]];
        out[po + i] := chars[pc + i];
        assert out[..po + i + 1] == out[..po + i] + [chars[pc + i]];
      }
    }

    /** The last block's words: whole words, then one or two bytes of the last one. `n` is
        the number of bytes in the output. */
    method DecodeTailWords(charlen: nat) returns (status: Status, n: nat)
      requires Valid()
      modifies out
      ensures match TakeTailWords(S(), old(Now()), charlen, inlen)
              case Go(data) => status == Fine && n == |data| <= 2 * out.Length && BytesOf(out[..])[..n] == data
              case Fail(c) => status == Failed(c)
              case Undefined => status == Broken
      ensures forall k | (inlen + 1) / 2 <= k < out.Length :: out[k] == old(out[k])
    {
      hide BytesOf, WithLast;
      n := 0;
      if 2 * (po + charlen - 1) >= inlen { return Failed(-3), n; }
      var copied := if charlen == 0 then 0 else charlen - 1;
      if pc + copied + 1 > |chars| || 2 * (po + copied) >= inlen { return Broken, n; }
      CopyTailWords(copied);
      n := StoreLast(out, po + copied, chars[pc + copied], inlen);
      return Fine, n;
    }

    /** One or two bytes of the last word. */
    static method StoreLast(out: array<word>, q: nat, last: word, inlen: nat) returns (n: nat)
      requires q < out.Length
      modifies out
      ensures n == |WithLast(old(out[..q]), last, inlen)| <= 2 * out.Length
      ensures BytesOf(out[..])[..n] == WithLast(old(out[..q]), last, inlen)
      ensures forall k | q < k < out.Length :: out[k] == old(out[k])
    {
      hide BytesOf, WithLast;
      ghost var front := out[..q];
      out[q] := Joined(out[q] / 0x100, last % 0x100);
      n := 2 * q + 1;
      if inlen % 2 == 0 {
        out[q] := Joined(last / 0x100, out[q] % 0x100);
        n := n + 1;
      }
      assert out[..q] == front;
      LastBytes(out[..], q, last, inlen, n);
    }

    /** A word of two bytes. */
    static function Joined(high: byte, low: byte): (w: word)
      ensures w % 0x100 == low && w / 0x100 == high
    {
      JoinedBytes(high, low);
      high as nat * 0x100 + low
    }

    static lemma JoinedBytes(high: nat, low: nat)
      requires low < 0x100
      ensures (high * 0x100 + low) % 0x100 == low && (high * 0x100 + low) / 0x100 == high
    {
    }

    static lemma LastBytes(out: seq<word>, q: nat, last: word, inlen: nat, n: nat)
      requires q < |out| && out[q] % 0x100 == last % 0x100
      requires inlen % 2 == 0 ==> out[q] == last && n == 2 * q + 2
      requires inlen % 2 == 1 ==> n == 2 * q + 1
      ensures |WithLast(out[..q], last, inlen)| == n <= |BytesOf(out)|
      ensures BytesOf(out)[..n] == WithLast(out[..q], last, inlen)
    {
      var x := out[q];
      assert out == out[..q] + ([x] + out[q + 1..]);
      BytesOfConcat(out[..q], [x] + out[q + 1..]);
      BytesOfConcat([x], out[q + 1..]);
      BytesOfOne(x);
    }
  }

  /** One past the last word a successful decoding may write: the wide stores reach up to
      four words behind the tokens. */
  function Reach(layout: Layout, S: Streams, inlen: nat): nat {
    var words := (inlen + 1) / 2;
    var st := TakeAll(layout, S, Start, inlen);
    if |S.dflag| <= 1 || !st.Go? || |st.v.out| + 4 <= words then words else |st.v.out| + 4
  }

  /** lz16DEm with `Narrow`, lz16DEmc with `Packed`: for every section set the result is what
      `Decode` says, and a success leaves everything from `Reach` on untouched. */
  method Lz16Decode(layout: Layout, S: Streams, exx: seq<byte>, inlen: nat, outlen: nat, out: array<word>)
    returns (status: Status, n: nat)
    requires S.nibs == Unpack(exx)
    requires inlen <= outlen ==> out.Length >= (inlen + 1) / 2 + 4
    modifies out
    ensures match Decode(layout, S, inlen, outlen)
            case Go(data) => status == Fine && n == |data| <= 2 * out.Length && BytesOf(out[..])[..n] == data
            case Fail(c) => status == Failed(c)
            case Undefined => status == Broken
    ensures status == Fine ==> forall k | Reach(layout, S, inlen) <= k < out.Length :: out[k] == old(out[k])
  {
    hide TakeAll, BytesOf, TakeTailWords, TakeTailLength, Unpack;
    if inlen > outlen { return Failed(-2), 0; }
    var d := new Decoder(S, exx, inlen, out);
    status := d.DecodeTokens(layout);
    n := 0;
    if status != Fine { return; }
    var charlen;
    status, charlen := d.ReadTailLength();
    if status != Fine { return; }
    status, n := d.DecodeTailWords(charlen);
  }

  /** On the encoder's sections the wide stores stay inside the whole words of the input,
      although the decoder never checks for it. */
  lemma NoSpill(layout: Layout, finder: Finder, pin: seq<byte>, pad: byte, h: (word, word) -> Key)
    requires |pin| > LIMIT_LEN
    ensures var S := EncodeStreams(layout, finder, pin, pad, h);
            && TakeAll(layout, S, Start, |pin|).Go?
            && (|S.dflag| > 1 ==> |TakeAll(layout, S, Start, |pin|).v.out| + 4 <= |pin| / 2)
            && Reach(layout, S, |pin|) == (|pin| + 1) / 2
  {
    hide PrintAll, TakeAll, Search, Pack, TailFlag, Valid;
    var w := Pack(pin, pad);
    var st := Search(finder, w, h, |pin|);
    ValidIsPrintable(st.tokens);
    RestIsLong(w, |pin|, st);
    var P := PrintAll(layout, st.tokens);
    var R := FinishPart(|P.nibs|, w[st.from..]);
    FinishIsPlus(P, w[st.from..]);
    FlagPerToken(layout, st.tokens);
    assert |Expand(st.tokens)| == st.from;
    LzEncoder.PrintNothing(layout);
    assert st.tokens[..0] == [];
    TokensRoundTrip(layout, st.tokens, 0, R, |pin|);
  }
}
