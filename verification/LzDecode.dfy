/** What the LZ16 decoders compute, with their error returns, as functions of the
    sections. */
module LzDecode {
  import opened Words
  import opened Nibbles
  import opened Tokens

  /** `Fail` is an error return of the program. `Undefined` stands for the inputs on which
      it reads outside a section, copies words it has not written, or writes past the
      output without noticing. */
  datatype Step<+T> = Go(v: T) | Fail(code: int) | Undefined {
    predicate IsFailure() { !Go? }

    function PropagateFailure<U>(): Step<U>
      requires !Go?
    {
      if Fail? then Step<U>.Fail(code) else Step<U>.Undefined
    }

    function Extract(): T
      requires Go?
    {
      v
    }
  }

  /** Read cursors of the five sections, and the words decoded so far. */
  datatype St = St(pc: nat, pd: nat, ps: nat, pf: nat, pn: nat, out: seq<word>)

  const Start := St(0, 0, 0, 0, 0, [])

  /** How many distance bytes a flag byte announces. */
  function DistanceBytes(c: byte): (i: nat)
    requires c / 0x20 % 2 == 1
    ensures i == 1 || i == 2
  {
    var h := c / 0x10;
    assert c / 0x20 == h / 2;
    h % 4 - 1
  }

  /** Identity and distance head: the flag byte, and the distance read so far. */
  function TakeDistance(S: Streams, st: St): (r: Step<(byte, nat, St)>)
    ensures r.Go? ==> r.v.2.pd == st.pd + 1 && st.pd < |S.dflag|
  {
    if st.pd >= |S.dflag| then Undefined
    else
      var c := S.dflag[st.pd];
      var st1 := st.(pd := st.pd + 1);
      if c / 0x20 % 2 == 0 then Go((c, c % 0x20, st1))
      else
        var i := DistanceBytes(c);
        if st.ps + i > |S.dist| then Undefined
        else
          var b0: nat := S.dist[st.ps];
          var b1: nat := if i == 2 then S.dist[st.ps + 1] else 0;
          Go((c, (b0 + 0x100 * b1) * 0x10 + c % 0x10, st1.(ps := st.ps + i)))
  }

  function TakeFlag(S: Streams, st: St): (r: Step<(byte, St)>)
    ensures r.Go? ==> r.v.1.pd == st.pd
  {
    if st.pf >= |S.flag| then Undefined else Go((S.flag[st.pf], st.(pf := st.pf + 1)))
  }

  /** mylz_ReadLength44, added to `l`. */
  function TakeLength(S: Streams, st: St, l: nat): (r: Step<(nat, St)>)
    ensures r.Go? ==> r.v.1.pd == st.pd
  {
    match ReadLength(S.nibs, st.pn)
    case None => Undefined
    case Some((m, c)) => Go((l + m, st.(pn := c)))
  }

  /** A length field that is extended when it shows its limit. */
  function TakeCapped(S: Streams, st: St, field: nat, limit: nat): (r: Step<(nat, St)>)
    ensures r.Go? ==> r.v.1.pd == st.pd
  {
    if field >= limit then TakeLength(S, st, field) else Go((field, st))
  }

  function TakeNibbleByte(S: Streams, st: St): (r: Step<(byte, St)>)
    ensures r.Go? ==> r.v.1.pd == st.pd
  {
    if st.pn + 2 > |S.nibs| then Undefined else Go((ReadByte(S.nibs, st.pn), st.(pn := st.pn + 2)))
  }

  function TakeLits(S: Streams, st: St, n: nat, inlen: nat): (r: Step<St>)
    ensures r.Go? ==> r.v.pd == st.pd
  {
    if 2 * (|st.out| + n) > inlen then Fail(-3)
    else if st.pc + n > |S.chars| then Undefined
    else Go(st.(pc := st.pc + n, out := st.out + S.chars[st.pc..st.pc + n]))
  }

  function CheckDistance(st: St, dist: nat): Step<()> {
    if dist > |st.out| then Fail(-4) else Go(())
  }

  function TakeMatch(st: St, dist: nat, len: nat, inlen: nat): (r: Step<St>)
    requires dist <= |st.out|
    ensures r.Go? ==> r.v.pd == st.pd
  {
    if 2 * (|st.out| + len) > inlen then Fail(-3)
    else if dist == 0 then Fail(-5)
    else Go(st.(out := CopyMatch(st.out, dist, len)))
  }

  /** The two-word match, which the program copies without a check of the output's end. */
  function TakeTwo(st: St, dist: nat, inlen: nat): (r: Step<St>)
    requires dist <= |st.out|
    ensures r.Go? ==> r.v.pd == st.pd
  {
    if dist == 0 || 2 * (|st.out| + 2) > inlen then Undefined
    else Go(st.(out := CopyMatch(st.out, dist, 2)))
  }

  /** One token of levels 1 and 3. */
  function TakeNarrow(S: Streams, st0: St, inlen: nat): (r: Step<St>)
    ensures r.Go? ==> r.v.pd == st0.pd + 1 && st0.pd < |S.dflag|
  {
    var (c, d, st1) :- TakeDistance(S, st0);
    if c >= 0x80 then
      var st2 :- (if c / 0x40 % 2 == 1 then TakeLitRun(S, st1, inlen) else Go(st1));
      TakeNarrowMatch(S, st2, d, inlen)
    else
      var st2 :- (if c / 0x40 % 2 == 1 then TakeLitRun(S, st1, inlen) else Go(st1));
      var _ :- CheckDistance(st2, d);
      TakeTwo(st2, d, inlen)
  }

  function TakeNarrowMatch(S: Streams, st2: St, d: nat, inlen: nat): (r: Step<St>)
    ensures r.Go? ==> r.v.pd == st2.pd
  {
    var (f, st3) :- TakeFlag(S, st2);
    var (len, st4) :- TakeCapped(S, st3, f / 0x20, 7);
    var dist := d * 0x20 + f % 0x20;
    var _ :- CheckDistance(st4, dist);
    TakeMatch(st4, dist, len + 3, inlen)
  }

  function TakeLitRun(S: Streams, st: St, inlen: nat): (r: Step<St>)
    ensures r.Go? ==> r.v.pd == st.pd
  {
    var (n, st1) :- TakeLength(S, st, 1);
    TakeLits(S, st1, n, inlen)
  }

  /** One token of levels 2 and 4. */
  function TakePacked(S: Streams, st0: St, inlen: nat): (r: Step<St>)
    ensures r.Go? ==> r.v.pd == st0.pd + 1 && st0.pd < |S.dflag|
  {
    var (c, d, st1) :- TakeDistance(S, st0);
    if c >= 0x80 then TakePackedLong(S, st1, c, d, inlen)
    else if c / 0x40 % 2 == 0 then TakePackedTwo(S, st1, d, inlen)
    else TakePackedRunTwo(S, st1, d, inlen)
  }

  /** A match of three words or more, with literals before it or without. */
  function TakePackedLong(S: Streams, st1: St, c: byte, d: nat, inlen: nat): (r: Step<St>)
    ensures r.Go? ==> r.v.pd == st1.pd
  {
    var (f, st2) :- TakeFlag(S, st1);
    if c / 0x40 % 2 == 0 then
      TakePackedMatch(S, st2, d * 0x20 + f % 0x20, f, inlen)
    else
      var (n, st3) :- TakeCapped(S, st2, f / 8 % 4, 3);
      var st4 :- TakeLits(S, st3, n + 1, inlen);
      TakePackedMatch(S, st4, d * 8 + f % 8, f, inlen)
  }

  /** Two words without literals: eight bits of the distance are among the nibbles. */
  function TakePackedTwo(S: Streams, st1: St, d: nat, inlen: nat): (r: Step<St>)
    ensures r.Go? ==> r.v.pd == st1.pd
  {
    var (low, st2) :- TakeNibbleByte(S, st1);
    var dist := d * 0x100 + low;
    var _ :- CheckDistance(st2, dist);
    TakeTwo(st2, dist, inlen)
  }

  /** Literals and two words. */
  function TakePackedRunTwo(S: Streams, st1: St, d: nat, inlen: nat): (r: Step<St>)
    ensures r.Go? ==> r.v.pd == st1.pd
  {
    var (f, st2) :- TakeFlag(S, st1);
    var (n, st3) :- TakeCapped(S, st2, f / 0x40, 3);
    var st4 :- TakeLits(S, st3, n + 1, inlen);
    var dist := d * 0x40 + f % 0x40;
    var _ :- CheckDistance(st4, dist);
    TakeTwo(st4, dist, inlen)
  }

  function TakePackedMatch(S: Streams, st: St, dist: nat, f: byte, inlen: nat): (r: Step<St>)
    ensures r.Go? ==> r.v.pd == st.pd
  {
    var _ :- CheckDistance(st, dist);
    var (len, st1) :- TakeCapped(S, st, f / 0x20, 7);
    TakeMatch(st1, dist, len + 3, inlen)
  }

  function TakeToken(layout: Layout, S: Streams, st: St, inlen: nat): (r: Step<St>)
    ensures r.Go? ==> r.v.pd == st.pd + 1 && st.pd < |S.dflag|
  {
    if layout == Narrow then TakeNarrow(S, st, inlen) else TakePacked(S, st, inlen)
  }

  /** All tokens: the last flag byte is an end marker and is not read. */
  function TakeAll(layout: Layout, S: Streams, st: St, inlen: nat): Step<St>
    decreases |S.dflag| - st.pd
  {
    if st.pd + 1 >= |S.dflag| then Go(st)
    else
      var next :- TakeToken(layout, S, st, inlen);
      TakeAll(layout, S, next, inlen)
  }

  /** mylz_ReadLength: bytes up to and including the first below 255. */
  function TakeRun(S: Streams, st: St, l: nat): (r: Step<(nat, St)>)
    decreases |S.flag| - st.pf
  {
    var (b, st1) :- TakeFlag(S, st);
    if b == 255 then TakeRun(S, st1, l + b) else Go((l + b, st1))
  }

  function BytesOf(words: seq<word>): (b: seq<byte>)
    ensures |b| == 2 * |words|
  {
    if words == [] then [] else [words[0] % 0x100, words[0] / 0x100] + BytesOf(words[1..])
  }

  /** Whole words, then the low byte of the last word, and its high byte for even lengths. */
  function WithLast(front: seq<word>, last: word, inlen: nat): seq<byte> {
    BytesOf(front) + (if inlen % 2 == 0 then [last % 0x100, last / 0x100] else [last % 0x100])
  }

  /** Length of the last block: one flag byte, extended by a byte run from 15 on. */
  function TakeTailLength(S: Streams, st: St): Step<(nat, St)> {
    var (b, st1) :- TakeFlag(S, st);
    if b == 15 then TakeRun(S, st1, 15) else Go((b, st1))
  }

  /** The last block: all but its last word, then one or two bytes of that word. */
  function TakeTailWords(S: Streams, st: St, n: nat, inlen: nat): Step<seq<byte>> {
    if 2 * (|st.out| + n - 1) >= inlen then Fail(-3)
    else
      var copied := if n == 0 then 0 else n - 1;
      if st.pc + copied + 1 > |S.chars| || 2 * (|st.out| + copied) >= inlen then Undefined
      else
        Go(WithLast(st.out + S.chars[st.pc..st.pc + copied], S.chars[st.pc + copied], inlen))
  }

  function TakeTail(S: Streams, st: St, inlen: nat): Step<seq<byte>> {
    var (n, st1) :- TakeTailLength(S, st);
    TakeTailWords(S, st1, n, inlen)
  }

  /** A whole section set, with the length the header gives and the room in the output. */
  function Decode(layout: Layout, S: Streams, inlen: nat, outlen: nat): Step<seq<byte>> {
    if inlen > outlen then Fail(-2)
    else
      var st :- TakeAll(layout, S, Start, inlen);
      TakeTail(S, st, inlen)
  }
}
