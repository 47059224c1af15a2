/** The section loops of the second stage as they run: sections are stored from the last to
    the first at the end of the output, and read back from the first to the last. */
module ContainerProgram {
  import opened Words
  import opened Bytes
  import opened Rans64
  import opened RansCodec
  import opened Container
  import RansProgram
  import RansDecoder

  /** Sections `i` and later, coded below `index`. */
  ghost function JoinedFrom(secs: seq<seq<byte>>, index: nat, i: nat): seq<byte>
    requires i <= |secs| && index <= |secs| && Moderate(secs) && Codable(secs[i..], Below(index, i))
  {
    Joined(secs[i..], Below(index, i))
  }

  /** How many of the sections from `i` on are coded. */
  function Below(index: nat, i: nat): (n: nat)
    ensures i <= index ==> n == index - i
  {
    if i < index then index - i else 0
  }

  ghost function LengthsFrom(secs: seq<seq<byte>>, index: nat, i: nat): seq<nat>
    requires i <= |secs| && index <= |secs| && Moderate(secs) && Codable(secs[i..], Below(index, i))
  {
    CodedLengths(secs[i..], Below(index, i))
  }

  /** The last long section decides. */
  lemma {:induction false} CountIs(secs: seq<seq<byte>>, i: nat)
    requires i <= |secs| && forall k | i <= k < |secs| :: |secs[k]| < CODED_FROM
    ensures CodedCount(secs) <= i
    ensures i > 0 && |secs[i - 1]| >= CODED_FROM ==> CodedCount(secs) == i
    decreases |secs|
  {
    if i < |secs| {
      CountIs(secs[..|secs| - 1], i);
    }
  }

  /** One section more in front. */
  lemma StepFrom(secs: seq<seq<byte>>, index: nat, i: nat)
    requires i < |secs| && index <= |secs| && Moderate(secs) && Codable(secs[i + 1..], Below(index, i + 1))
    requires i < index ==> secs[i] != []
    ensures Codable(secs[i..], Below(index, i))
    ensures JoinedFrom(secs, index, i) == (if i < index then Compress(secs[i]) else secs[i]) + JoinedFrom(secs, index, i + 1)
    ensures LengthsFrom(secs, index, i) == [if i < index then |Compress(secs[i])| else 0] + LengthsFrom(secs, index, i + 1)
  {
    hide Compress;
    assert secs[i..][1..] == secs[i + 1..] && secs[i..][0] == secs[i];
    forall k | 0 <= k < Below(index, i)
      ensures secs[i..][k] != []
    {
      assert k > 0 ==> secs[i..][k] == secs[i + 1..][k - 1];
    }
  }

  /** A coded section without bytes: the normaliser divides by its total. */
  lemma EmptyDivides(secs: seq<seq<byte>>, i: nat)
    requires Moderate(secs) && i < CodedCount(secs) && secs[i] == []
    ensures ToRans(secs) == DividesByZero
  {
  }

  /** Room for every section in whichever form it is stored. */
  function Need(secs: seq<seq<byte>>): nat
    requires Moderate(secs)
  {
    if secs == [] then 0
    else
      var s := secs[0];
      (if s == [] || |Compress(s)| < |s| then |s| else |Compress(s)|) + Need(secs[1..])
  }

  /** What the loop has stored so far needs no more than `Need` of these sections. */
  lemma NeedStep(secs: seq<seq<byte>>, i: nat)
    requires Moderate(secs) && i < |secs|
    ensures Moderate(secs[i..]) && Moderate(secs[i + 1..])
    ensures Need(secs[i..]) >= Need(secs[i + 1..]) + |secs[i]|
    ensures secs[i] != [] ==> Need(secs[i..]) >= Need(secs[i + 1..]) + |Compress(secs[i])|
  {
    hide Compress;
    assert secs[i..][1..] == secs[i + 1..] && secs[i..][0] == secs[i];
  }

  lemma {:induction false} NeedMonotone(secs: seq<seq<byte>>, i: nat)
    requires Moderate(secs) && i <= |secs|
    ensures Moderate(secs[i..]) && Need(secs[i..]) <= Need(secs)
    decreases i
  {
    if i == 0 {
      assert secs[0..] == secs;
    } else {
      NeedMonotone(secs, i - 1);
      NeedStep(secs, i - 1);
    }
  }

  /** The section loop of mylz16torans64. */
  method StoreSections(secs: seq<seq<byte>>, buf: array<byte>) returns (r: Coded, start: nat)
    requires Moderate(secs) && Need(secs) <= buf.Length
    modifies buf
    ensures r == ToRans(secs)
    ensures r.Coded? ==> start <= buf.Length && buf[start..] == r.data
  {
    hide Compress, Joined, CodedLengths, CodedCount, Need, Codable;
    ghost var count := CodedCount(secs);
    var index, checkok, i, lens := 0, true, |secs|, [];
    start := buf.Length;
    NothingFrom(secs, count);
    NeedMonotone(secs, |secs|);
    while i > 0
      invariant 0 <= i <= |secs| && start <= buf.Length
      invariant buf.Length - start <= Need(secs[i..])
      invariant Codable(secs[i..], Below(count, i))
      invariant buf[start..] == JoinedFrom(secs, count, i) && lens == LengthsFrom(secs, count, i)
      invariant checkok ==> forall k | i <= k < |secs| :: |secs[k]| < CODED_FROM
      invariant !checkok ==> i < count
      invariant checkok ==> count <= i
      invariant index == Below(count, i)
      decreases i
    {
      i := i - 1;
      ghost var above := buf[start..];
      NeedStep(secs, i);
      NeedMonotone(secs, i);
      if checkok {
        CountIs(secs, i + 1);
      }
      if |secs[i]| < CODED_FROM && checkok {
        CountIs(secs, i);
        StepFrom(secs, count, i);
        start := StoreBelow(buf, start, secs[i]);
        lens := [0] + lens;
      } else {
        checkok := false;
        if secs[i] == [] {
          EmptyDivides(secs, i);
          r := DividesByZero;
          return;
        }
        StepFrom(secs, count, i);
        var enlen;
        ghost var end := start;
        start, enlen := RansProgram.Ranscompress(secs[i], buf, start);
        lens := [enlen] + lens;
        index := index + 1;
      }
    }
    assert secs[0..] == secs;
    if index == 0 {
      r := Plain;
    } else {
      r := Coded(buf[start..], lens, index);
    }
  }

  lemma NothingFrom(secs: seq<seq<byte>>, index: nat)
    requires index <= |secs| && Moderate(secs)
    ensures Below(index, |secs|) == 0 && Codable(secs[|secs|..], 0)
    ensures JoinedFrom(secs, index, |secs|) == [] && LengthsFrom(secs, index, |secs|) == []
  {
  }

  ghost function Ahead(done: seq<seq<byte>>, r: Sections): Sections {
    match r
    case Bad => Bad
    case Sections(rest) => Sections(done + rest)
  }

  lemma AheadOne(done: seq<seq<byte>>, s: seq<byte>, r: Sections)
    ensures Ahead(done + [s], r) == Ahead(done, Ahead([s], r))
  {
    if r.Sections? {
      assert done + [s] + r.secs == done + ([s] + r.secs);
    }
  }

  lemma AheadNothing(r: Sections)
    ensures Ahead([], r) == r
  {
    if r.Sections? {
      assert [] + r.secs == r.secs;
    }
  }

  /** A plain section, as far as there are bytes. */
  lemma PlainNext(data: seq<byte>, lzlens: seq<nat>, lens: seq<nat>, outlen: nat)
    requires |lzlens| == |lens| > 0
    ensures FromRans(data, lzlens, lens, 0, outlen)
         == if lzlens[0] > |data| then Bad
            else Ahead([data[..lzlens[0]]], FromRans(data[lzlens[0]..], lzlens[1..], lens[1..], 0, outlen))
  {
  }

  /** A coded section, if its lengths agree and it decodes. */
  lemma CodedNext(data: seq<byte>, lzlens: seq<nat>, lens: seq<nat>, index: nat, outlen: nat)
    requires |lzlens| == |lens| > 0 && index > 0
    ensures FromRans(data, lzlens, lens, index, outlen)
         == if lens[0] > |data| || |data| < 8 || Get32(data) != lzlens[0] || Get32(data[4..]) != lens[0] % B32 then Bad
            else match Uncompress(data, outlen)
                 case TooLong => Bad
                 case Undefined => Bad
                 case Ok(sec) => Ahead([sec], FromRans(data[lens[0]..], lzlens[1..], lens[1..], index - 1, outlen))
  {
    hide Uncompress, Get32;
  }

  /** The section loop of myrans64tolz16. */
  method LoadSections(data: seq<byte>, lzlens: seq<nat>, lens: seq<nat>, index: nat, outlen: nat) returns (r: Sections)
    requires |lzlens| == |lens|
    ensures r == FromRans(data, lzlens, lens, index, outlen)
  {
    hide FromRans, Get32, Uncompress;
    var p: nat, secs: seq<seq<byte>> := 0, [];
    AheadNothing(FromRans(data, lzlens, lens, index, outlen));
    assert data[0..] == data && lzlens[0..] == lzlens && lens[0..] == lens;
    for i := 0 to |lzlens|
      invariant p <= |data|
      invariant FromRans(data, lzlens, lens, index, outlen)
             == Ahead(secs, FromRans(data[p..], lzlens[i..], lens[i..], Below(index, i), outlen))
    {
      ghost var rest := FromRans(data[p..], lzlens[i..], lens[i..], Below(index, i), outlen);
      assert lzlens[i..][1..] == lzlens[i + 1..] && lens[i..][1..] == lens[i + 1..];
      assert lzlens[i..][0] == lzlens[i] && lens[i..][0] == lens[i];
      if index > i {
        CodedNext(data[p..], lzlens[i..], lens[i..], Below(index, i), outlen);
        if lens[i] > |data| - p || |data| - p < 8 { return Bad; }
        if Get32(data[p..]) != lzlens[i] || Get32(data[p..][4..]) != lens[i] % B32 { return Bad; }
        var pout := new byte[outlen];
        var status := RansDecoder.Ransuncompress(data[p..], pout);
        if !status.Done? { return Bad; }
        assert data[p..][lens[i]..] == data[p + lens[i]..];
        AheadOne(secs, pout[..status.len], FromRans(data[p + lens[i]..], lzlens[i + 1..], lens[i + 1..], Below(index, i + 1), outlen));
        secs := secs + [pout[..status.len]];
        p := p + lens[i];
      } else {
        PlainNext(data[p..], lzlens[i..], lens[i..], outlen);
        if lzlens[i] > |data| - p { return Bad; }
        assert data[p..][..lzlens[i]] == data[p..p + lzlens[i]] && data[p..][lzlens[i]..] == data[p + lzlens[i]..];
        AheadOne(secs, data[p..p + lzlens[i]], FromRans(data[p + lzlens[i]..], lzlens[i + 1..], lens[i + 1..], 0, outlen));
        secs := secs + [data[p..p + lzlens[i]]];
        p := p + lzlens[i];
      }
    }
    NoneLeft(data[p..], lzlens[|lzlens|..], lens[|lzlens|..], Below(index, |lzlens|), outlen);
    assert secs + [] == secs;
    r := Sections(secs);
  }

  lemma NoneLeft(data: seq<byte>, lzlens: seq<nat>, lens: seq<nat>, index: nat, outlen: nat)
    requires lzlens == [] == lens
    ensures FromRans(data, lzlens, lens, index, outlen) == Sections([])
  {
  }
}
