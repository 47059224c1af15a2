/** The five output sections of the encoder in one memory, with the cursors the encoder
    advances. */
module LzSections {
  import opened Words
  import opened Nibbles
  import opened NibbleBuffer
  import opened Tokens
  import opened LzDecode
  import opened LzBytes
  import opened LzLayout

  class Sections {
    const mem: array<byte>
    const P: Places

    var pc: nat
    var pd: nat
    var ps: nat
    var pf: nat
    var px: nat
    var half: nat

    /** What the memory held before the first store. */
    ghost const init: seq<byte>

    /** Everything written so far. */
    ghost var out: Streams

    ghost predicate CursorsValid()
      reads this
    {
      && pc == |out.chars| && pd == |out.dflag| && ps == |out.dist| && pf == |out.flag|
      && Cursor(px, half, out.nibs)
      && P.o1 + pd <= P.o2 && P.o2 + ps <= P.o3 && P.o3 + pf <= P.o4
    }

    ghost predicate Valid()
      reads this, mem
    {
      CursorsValid() && Contents(mem[..], init, P, out)
    }

    constructor (mem: array<byte>, P: Places)
      requires P.Ordered() && P.end <= mem.Length
      ensures this.mem == mem && this.P == P && init == mem[..]
      ensures Valid() && out == Empty
    {
      this.mem, this.P, init := mem, P, mem[..];
      pc, pd, ps, pf, px, half := 0, 0, 0, 0, 0, 0;
      out := Empty;
      NothingStored(mem[..], P);
    }

    lemma Bounds()
      requires Valid()
      ensures P.Ordered() && P.end <= mem.Length == |init| && |out.nibs| <= 2 * (P.end - P.o4)
      ensures Merged(mem[..], init, P.o4, P.end, out.nibs)
    {
    }

    method PutChar(x: word)
      requires Valid() && HEADER + 2 * |out.chars| + 2 <= P.o4
      modifies this`pc, this`out, mem
      ensures Valid() && out == old(out).(chars := old(out).chars + [x])
    {
      hide Contents;
      Bounds();
      ghost var before := mem[..];
      mem[HEADER + 2 * pc], mem[HEADER + 2 * pc + 1] := x % 0x100, x / 0x100;
      CharStored(before, mem[..], init, P, out, x);
      pc := pc + 1;
      out := out.(chars := out.chars + [x]);
    }

    method PutFlag(b: byte)
      requires Valid() && P.o3 + |out.flag| < P.o4
      modifies this`pf, this`out, mem
      ensures Valid() && out == old(out).(flag := old(out).flag + [b])
    {
      hide Contents;
      Bounds();
      ghost var before := mem[..];
      mem[P.o3 + pf] := b;
      FlagStored(before, mem[..], init, P, out, b);
      pf := pf + 1;
      out := out.(flag := out.flag + [b]);
    }

    method PutMark(b: byte)
      requires Valid() && P.o1 + |out.dflag| < P.o2
      modifies this`pd, this`out, mem
      ensures Valid() && out == old(out).(dflag := old(out).dflag + [b])
    {
      hide Contents;
      Bounds();
      ghost var before := mem[..];
      mem[P.o1 + pd] := b;
      DflagStored(before, mem[..], init, P, out, b);
      pd := pd + 1;
      out := out.(dflag := out.dflag + [b]);
    }

    method PutLength(l: nat)
      requires Valid() && |out.nibs| + |LengthCode(l)| + 2 <= 2 * (P.end - P.o4)
      modifies this`px, this`half, this`out, mem
      ensures Valid() && out == old(out).(nibs := old(out).nibs + LengthCode(l))
    {
      hide Contents, LengthCode, Merged;
      Bounds();
      ghost var before := mem[..];
      px, half := WriteLength44(mem, P.o4, P.end, px, half, l, init, out.nibs);
      NibblesStored(before, mem[..], init, P, out, out.nibs + LengthCode(l));
      out := out.(nibs := out.nibs + LengthCode(l));
    }

    method PutNibbleByte(b: byte)
      requires Valid() && |out.nibs| + 4 <= 2 * (P.end - P.o4)
      modifies this`px, this`half, this`out, mem
      ensures Valid() && out == old(out).(nibs := old(out).nibs + ByteCode(b))
    {
      hide Contents, Merged;
      Bounds();
      ghost var before := mem[..];
      px, half := NibbleBuffer.PutByte(mem, P.o4, P.end, px, half, b, init, out.nibs);
      NibblesStored(before, mem[..], init, P, out, out.nibs + ByteCode(b));
      out := out.(nibs := out.nibs + ByteCode(b));
    }

    /** mylz_ENWritematchdistance4: the upper part of the distance is stored as four bytes,
        of which the cursor keeps one or two. */
    method PutDistance(id: byte, rest: nat)
      requires Valid() && id <= 0xC0 && rest < MATCH_OFFSET_MAX
      requires P.o1 + |out.dflag| < P.o2 && P.o2 + |out.dist| + 4 <= P.o3
      modifies this`pd, this`ps, this`out, mem
      ensures Valid()
      ensures out == old(out).(dflag := old(out).dflag + [RestFlag(id, rest)], dist := old(out).dist + RestBytes(rest))
    {
      hide Contents;
      if rest < 0x20 {
        PutMark(id + rest);
        assert out.dist + RestBytes(rest) == out.dist;
      } else {
        var dis := rest / 0x10;
        StoreDistance(dis);
        var i := (dis + 0xFF00) / 0x1_0000;
        ps := ps + i + 1;
        out := out.(dist := out.dist + RestBytes(rest));
        PutMark(id + 0x10 * (i + 2) + rest % 0x10);
      }
    }

    /** The four-byte store; the cursor is not moved yet. */
    method StoreDistance(dis: nat)
      requires Valid() && dis < 0x1_0000
      requires P.o2 + |out.dist| + 4 <= P.o3
      modifies mem
      ensures Contents(mem[..], init, P, out.(dist := out.dist + [dis % 0x100]))
      ensures Contents(mem[..], init, P, out.(dist := out.dist + [dis % 0x100, dis / 0x100]))
    {
      hide Contents;
      Bounds();
      ghost var before := mem[..];
      var k := P.o2 + ps;
      mem[k], mem[k + 1], mem[k + 2], mem[k + 3] := dis % 0x100, dis / 0x100, 0, 0;
      OneAt(mem[..], k, dis % 0x100);
      TwoAt(mem[..], k, dis % 0x100, dis / 0x100);
      DistStored(before, mem[..], init, P, out, [dis % 0x100], k + 4);
      DistStored(before, mem[..], init, P, out, [dis % 0x100, dis / 0x100], k + 4);
    }

    /** Room for one more token that prints as `F`. */
    ghost predicate Room(F: Streams)
      reads this`out
    {
      && P.o1 + |out.dflag| < P.o2 && P.o2 + |out.dist| + 4 <= P.o3 && P.o3 + |out.flag| < P.o4
      && |out.nibs| + |F.nibs| + 2 <= 2 * (P.end - P.o4)
    }

    /** mylz16ENhashmCode, without the table fill: the token shapes of levels 1 and 3. */
    method EmitNarrow(charlen: nat, matchlen: nat, matchdistance: nat)
      requires Valid() && 1 <= matchdistance < MATCH_OFFSET_MAX
      requires Room(PrintNarrow(charlen, matchlen, matchdistance))
      modifies this, mem
      ensures Valid() && out == old(out).Plus(PrintNarrow(charlen, matchlen, matchdistance))
    {
      hide RestFlag, RestBytes, LengthCode, Valid;
      ghost var was := out;
      if matchlen > 0 {
        var m := matchlen - 1;
        var id := 0x80;
        var f := m % 8 * 0x20 + matchdistance % 0x20;
        if charlen > 0 {
          id := 0xC0;
          PutLength(charlen - 1);
        }
        if m >= 7 {
          f := 0xE0 + f % 0x20;  // f | 0xe0
          PutLength(m - 7);
        }
        PutFlag(f);
        PutDistance(id, matchdistance / 0x20);
      } else if charlen > 0 {
        PutLength(charlen - 1);
        PutDistance(0x40, matchdistance);
      } else {
        PutDistance(0, matchdistance);
      }
      NoChars(was, out, PrintNarrow(charlen, matchlen, matchdistance));
    }

    /** mylz16ENhashmcCode, without the table fill: the token shapes of levels 2 and 4. */
    method EmitPacked(charlen: nat, matchlen: nat, matchdistance: nat)
      requires Valid() && 1 <= matchdistance < MATCH_OFFSET_MAX
      requires Room(PrintPacked(charlen, matchlen, matchdistance))
      modifies this, mem
      ensures Valid() && out == old(out).Plus(PrintPacked(charlen, matchlen, matchdistance))
    {
      hide RestFlag, RestBytes, LengthCode, Valid;
      ghost var was := out;
      if charlen > 0 {
        EmitPackedRun(charlen, matchlen, matchdistance);
        return;
      }
      if matchlen > 0 {
        var m := matchlen - 1;
        var f := m % 8 * 0x20 + matchdistance % 0x20;
        if m >= 7 {
          f := 0xE0 + f % 0x20;  // f | 0xe0
          PutLength(m - 7);
        }
        PutFlag(f);
        PutDistance(0x80, matchdistance / 0x20);
      } else {
        PutNibbleByte(matchdistance % 0x100);
        PutDistance(0, matchdistance / 0x100);
      }
      NoChars(was, out, PrintPacked(charlen, matchlen, matchdistance));
    }

    /** The branch of a token with literals: their number goes first. */
    method EmitPackedRun(charlen: nat, matchlen: nat, matchdistance: nat)
      requires Valid() && 1 <= matchdistance < MATCH_OFFSET_MAX && charlen > 0
      requires Room(PrintPacked(charlen, matchlen, matchdistance))
      modifies this, mem
      ensures Valid() && out == old(out).Plus(PrintPacked(charlen, matchlen, matchdistance))
    {
      hide RestFlag, RestBytes, LengthCode, Valid;
      ghost var was := out;
      var n := charlen - 1;
      var c := n % 4;
      if n >= 3 {
        c := 3;
        PutLength(n - 3);
      }
      assert c == Capped(n, 3) && out.nibs == was.nibs + CappedCode(n, 3);
      if matchlen > 0 {
        var m := matchlen - 1;
        var low := c * 0x8 + matchdistance % 0x8;
        var f := m % 8 * 0x20 + low;
        OrEscape(m, low);
        if m >= 7 {
          f := 0xE0 + f % 0x20;  // f | 0xe0
          PutLength(m - 7);
        }
        assert out.nibs == was.nibs + (CappedCode(n, 3) + CappedCode(m, 7));
        PutFlag(f);
        PutDistance(0xC0, matchdistance / 0x8);
      } else {
        PutFlag(c * 0x40 + matchdistance % 0x40);
        PutDistance(0x40, matchdistance / 0x40);
      }
      NoChars(was, out, PrintPacked(charlen, matchlen, matchdistance));
    }

    /** Or-ing 0xe0 over a length field of three bits, when the length needs more. */
    static lemma OrEscape(m: nat, low: nat)
      requires low < 0x20
      ensures m % 8 * 0x20 + low <= 0xFF
      ensures (if m >= 7 then 0xE0 + (m % 8 * 0x20 + low) % 0x20 else m % 8 * 0x20 + low) == Capped(m, 7) * 0x20 + low
    {
    }

    static lemma NoChars(a: Streams, b: Streams, F: Streams)
      requires F.chars == [] && b.chars == a.chars
      requires b.dflag == a.dflag + F.dflag && b.dist == a.dist + F.dist
      requires b.flag == a.flag + F.flag && b.nibs == a.nibs + F.nibs
      ensures b == a.Plus(F)
    {
      assert a.chars + [] == a.chars;
    }

    /** mylz_WriteLength behind a 15: bytes of 255 and one smaller byte. */
    method PutTailLength(charlen: nat)
      requires Valid() && P.o3 + |out.flag| + |TailFlag(charlen)| <= P.o4
      modifies this`pf, this`out, mem
      ensures Valid() && out == old(out).(flag := old(out).flag + TailFlag(charlen))
    {
      hide Valid;
      ghost var was := out;
      if charlen < 15 {
        PutFlag(charlen);
      } else {
        PutFlag(15);
        PutTailRun(charlen - 15);
        assert was.flag + [15] + TailRun(charlen - 15) == was.flag + ([15] + TailRun(charlen - 15));
      }
    }

    method PutTailRun(l0: nat)
      requires Valid() && P.o3 + |out.flag| + |TailRun(l0)| <= P.o4
      modifies this`pf, this`out, mem
      ensures Valid() && out == old(out).(flag := old(out).flag + TailRun(l0))
    {
      hide Valid;
      ghost var was := out;
      var l := l0;
      while l >= 255
        invariant Valid()
        invariant out == was.(flag := out.flag)
        invariant out.flag + TailRun(l) == was.flag + TailRun(l0)
        decreases l
      {
        assert out.flag + [255] + TailRun(l - 255) == out.flag + ([255] + TailRun(l - 255));
        PutFlag(255);
        l := l - 255;
      }
      PutFlag(l);
    }

    /** The rest of the half-written byte, or a whole byte, counts as written. */
    method CloseNibbles()
      requires Valid() && |out.nibs| + 2 <= 2 * (P.end - P.o4)
      modifies this`px, this`half, this`out
      ensures Valid() && half == 0
      ensures out == old(out).(nibs := old(out).nibs + (if |old(out).nibs| % 2 == 0 then [0, 0] else [0]))
    {
      hide Contents, Merged;
      Bounds();
      var zeros: seq<nibble> := if half == 0 then [0, 0] else [0];
      ZerosMerged(mem[..], init, P.o4, P.end, out.nibs, zeros);
      NibblesStored(mem[..], mem[..], init, P, out, out.nibs + zeros);
      out := out.(nibs := out.nibs + zeros);
      px, half := px + 1, 0;
    }

    method PutTailChars(w: seq<word>, from: nat)
      requires Valid() && from <= |w| && HEADER + 2 * (|out.chars| + (|w| - from)) <= P.o4
      modifies this`pc, this`out, mem
      ensures Valid() && out == old(out).(chars := old(out).chars + w[from..])
    {
      hide Valid;
      ghost var was := out;
      for i := from to |w|
        invariant Valid() && out == was.(chars := was.chars + w[from..i])
      {
        assert w[from..i + 1] == w[from..i] + [w[i]];
        PutChar(w[i]);
      }
    }

    /** mylz16ENtailEndEx: the last block of `charlen` words, of which those from `from` on
        are still to be copied, then the end marker. */
    method PutTail(w: seq<word>, from: nat, charlen: nat)
      requires Valid() && from <= |w| && HEADER + 2 * (|out.chars| + (|w| - from)) <= P.o4
      requires P.o3 + |out.flag| + |TailFlag(charlen)| <= P.o4
      requires |out.nibs| + 2 <= 2 * (P.end - P.o4) && P.o1 + |out.dflag| < P.o2
      modifies this, mem
      ensures Valid() && half == 0
      ensures out == Streams(old(out).chars + w[from..], old(out).dflag + [0], old(out).dist,
                             old(out).flag + TailFlag(charlen),
                             old(out).nibs + (if |old(out).nibs| % 2 == 0 then [0, 0] else [0]))
    {
      hide Valid;
      PutTailChars(w, from);
      PutTailLength(charlen);
      CloseNibbles();
      PutMark(0);
    }

    /** The sections as they come out: the nibbles lie over what the memory held. */
    ghost function Final(): Streams
      reads this
      requires 2 * P.o4 + |out.nibs| <= 2 * |init|
    {
      out.(nibs := Overlaid(init, P.o4, out.nibs))
    }

    /** One of the copies of mylz16ENtailEndExx, byte by byte upwards. */
    method Move(to: nat, from: nat, n: nat)
      requires to <= from && from + n <= mem.Length
      modifies mem
      ensures mem[to..to + n] == old(mem[from..from + n])
      ensures Changed(old(mem[..]), mem[..], to, to + n)
    {
      ghost var was := mem[..];
      for i := 0 to n
        invariant mem[to..to + i] == was[from..from + i]
        invariant Changed(was, mem[..], to, to + i)
      {
        assert mem[..][from + i] == was[from + i];
        mem[to + i] := mem[from + i];
        assert mem[to..to + i + 1] == mem[to..to + i] + [was[from + i]];
      }
    }

    /** Bytes written to section `i`. */
    function Length(i: nat): nat
      reads this
      requires i < SECTION_COUNT
    {
      if i == 0 then 2 * pc else if i == 1 then pd else if i == 2 then ps else if i == 3 then pf else px
    }

    /** mylz16ENtailEndExx: the sections are moved down, one right behind the other. */
    method Merge() returns (lens: seq<nat>)
      requires Valid() && half == 0 && Fits(P, out)
      modifies mem
      ensures 2 * P.o4 + |out.nibs| <= 2 * |init| && |out.nibs| % 2 == 0
      ensures At(mem[..], HEADER, Concat(SectionBytes(Final()))) && lens == Sizes(SectionBytes(Final()))
      ensures SameFrom(mem[..], init, P.o4 + |out.nibs| / 2)
    {
      hide Contents, Merged, Concat, SectionBytes, At, Length, SameFrom, Changed, CursorsValid, Overlaid, Merging, Spaced;
      Lying();
      ghost var secs := SectionBytes(Final());
      StartMerging(mem[..], init, P, secs);
      var p: nat := HEADER + Length(0);
      for i := 1 to SECTION_COUNT
        invariant Merging(mem[..], init, P, secs, p, i)
      {
        ghost var before := mem[..];
        NextToMove(before, init, P, secs, p, i);
        Move(p, P.Place(i), Length(i));
        Moved(before, mem[..], init, P, secs, p, i);
        p := p + Length(i);
      }
      AllMerged(mem[..], init, P, secs, p);
      lens := [Length(0), Length(1), Length(2), Length(3), Length(4)];
      SizesOfFive(secs);
    }

    /** Before the move every section lies at its place. */
    lemma Lying()
      requires Valid() && half == 0 && Fits(P, out)
      ensures 2 * P.o4 + |out.nibs| <= 2 * |init| && |out.nibs| % 2 == 0 && P.Ordered()
      ensures var secs := SectionBytes(Final());
              && (forall j | 0 <= j < SECTION_COUNT :: |secs[j]| == Length(j) && At(mem[..], P.Place(j), secs[j]))
              && |secs[4]| == |out.nibs| / 2 && Spaced(P, secs)
      ensures SameFrom(mem[..], init, P.o4 + |out.nibs| / 2)
    {
      hide Merged, BytesOf, PackNibbles, Overlaid;
      NibbleBytes(mem[..], init, P.o4, P.end, out.nibs);
    }
  }
}
