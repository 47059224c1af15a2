/** The five sections as the bytes they are in memory, and back. */
module LzBytes {
  import opened Words
  import opened NibbleBuffer
  import opened Tokens
  import opened LzDecode
  import LzRoundTrip

  const SECTION_COUNT := 5

  /** Section bytes to words, two at a time. */
  function ToWords(b: seq<byte>): seq<word> {
    if |b| < 2 then [] else [LzRoundTrip.Pair(b[0], b[1])] + ToWords(b[2..])
  }

  lemma {:induction false} ToWordsOfBytes(w: seq<word>)
    ensures ToWords(BytesOf(w)) == w
  {
    if w == [] {
    } else {
      ToWordsOfBytes(w[1..]);
      assert BytesOf(w)[2..] == BytesOf(w[1..]);
    }
  }

  /** The five sections as the byte strings they are in memory. */
  function SectionBytes(S: Streams): (secs: seq<seq<byte>>)
    requires |S.nibs| % 2 == 0
    ensures |secs| == SECTION_COUNT
  {
    [BytesOf(S.chars), S.dflag, S.dist, S.flag, PackNibbles(S.nibs)]
  }

  function StreamsOf(secs: seq<seq<byte>>): Streams
    requires |secs| == SECTION_COUNT
  {
    Streams(ToWords(secs[0]), secs[1], secs[2], secs[3], Unpack(secs[4]))
  }

  lemma SectionBytesReturn(S: Streams)
    requires |S.nibs| % 2 == 0
    ensures StreamsOf(SectionBytes(S)) == S
  {
    ToWordsOfBytes(S.chars);
    UnpackPacked(S.nibs);
  }

  /** One after the other. */
  function Concat(secs: seq<seq<byte>>): seq<byte> {
    if secs == [] then [] else secs[0] + Concat(secs[1..])
  }

  function Sizes(secs: seq<seq<byte>>): (lens: seq<nat>)
    ensures |lens| == |secs|
  {
    if secs == [] then [] else [|secs[0]|] + Sizes(secs[1..])
  }

  lemma {:induction false} SizesAt(secs: seq<seq<byte>>, i: nat)
    requires i < |secs|
    ensures Sizes(secs)[i] == |secs[i]|
    decreases i
  {
    if i > 0 {
      SizesAt(secs[1..], i - 1);
    }
  }

  lemma SizesOfFive(secs: seq<seq<byte>>)
    requires |secs| == SECTION_COUNT
    ensures Sizes(secs) == [|secs[0]|, |secs[1]|, |secs[2]|, |secs[3]|, |secs[4]|]
  {
    hide Sizes;
    forall i | 0 <= i < SECTION_COUNT
      ensures Sizes(secs)[i] == |secs[i]|
    {
      SizesAt(secs, i);
    }
  }

  /** A run of bytes cut by lengths, from the front. */
  function Cut(b: seq<byte>, lens: seq<nat>): Option<seq<seq<byte>>> {
    if lens == [] then Some([])
    else if lens[0] > |b| then None
    else
      match Cut(b[lens[0]..], lens[1..])
      case None => None
      case Some(rest) => Some([b[..lens[0]]] + rest)
  }

  /** The lengths in the header are enough to find all sections again. */
  lemma {:induction false} CutConcat(secs: seq<seq<byte>>, after: seq<byte>)
    ensures Cut(Concat(secs) + after, Sizes(secs)) == Some(secs)
    decreases |secs|
  {
    if secs == [] {
    } else {
      var tail := Concat(secs[1..]) + after;
      assert Concat(secs) + after == secs[0] + tail;
      assert (secs[0] + tail)[|secs[0]|..] == tail && (secs[0] + tail)[..|secs[0]|] == secs[0];
      CutConcat(secs[1..], after);
      assert [secs[0]] + secs[1..] == secs;
    }
  }
}
