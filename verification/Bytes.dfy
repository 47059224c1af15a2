/** Little-endian storage of words in byte buffers. */
module Bytes {
  import opened Words

  function LE16(w: word): seq<byte> {
    [w % 0x100, w / 0x100]
  }

  function LE32(w: dword): (b: seq<byte>)
    ensures |b| == 4
  {
    var w1 := w / 0x100;
    var w2 := w1 / 0x100;
    [w % 0x100, w1 % 0x100, w2 % 0x100, w2 / 0x100]
  }

  function Get16(b: seq<byte>): word
    requires |b| >= 2
  {
    var hi: nat := b[1];
    b[0] + 0x100 * hi
  }

  function Get32(b: seq<byte>): dword
    requires |b| >= 4
  {
    var b1: nat, b2: nat, b3: nat := b[1], b[2], b[3];
    b[0] + 0x100 * (b1 + 0x100 * (b2 + 0x100 * b3))
  }

  lemma Get32Prefix(w: dword, rest: seq<byte>)
    ensures Get32(LE32(w) + rest) == w
  {
  }

  /** A run of 32-bit words as it lies in memory. */
  function Flat(words: seq<dword>): (b: seq<byte>)
    ensures |b| == 4 * |words|
  {
    if words == [] then [] else LE32(words[0]) + Flat(words[1..])
  }

  /** The whole 32-bit words a byte run starts with. */
  function WordsOf(b: seq<byte>): (words: seq<dword>)
    ensures |words| == |b| / 4
  {
    if |b| < 4 then [] else [Get32(b)] + WordsOf(b[4..])
  }

  lemma {:induction false} FlatConcat(a: seq<dword>, b: seq<dword>)
    ensures Flat(a + b) == Flat(a) + Flat(b)
  {
    if a == [] {
      assert a + b == b;
    } else {
      assert (a + b)[1..] == a[1..] + b;
      FlatConcat(a[1..], b);
    }
  }

  /** Reading back a stored run yields its words, whatever follows it. */
  lemma {:induction false} WordsOfFlat(words: seq<dword>, rest: seq<byte>)
    ensures WordsOf(Flat(words) + rest) == words + WordsOf(rest)
  {
    if words == [] {
      assert Flat(words) + rest == rest;
    } else {
      var tail := Flat(words[1..]) + rest;
      assert Flat(words) + rest == LE32(words[0]) + tail;
      assert (LE32(words[0]) + tail)[4..] == tail;
      Get32Prefix(words[0], tail);
      WordsOfFlat(words[1..], rest);
      assert [words[0]] + (words[1..] + WordsOf(rest)) == words + WordsOf(rest);
    }
  }

  /** Store the bytes `v` just below cursor `p` of a buffer that fills downwards. */
  method StoreBelow(buf: array<byte>, p: nat, v: seq<byte>) returns (q: nat)
    requires |v| <= p <= buf.Length
    modifies buf
    ensures q == p - |v|
    ensures buf[q..] == v + old(buf[p..])
    ensures forall k | 0 <= k < q :: buf[k] == old(buf[k])
  {
    q := p - |v|;
    for i := 0 to |v|
      invariant forall k | 0 <= k < i :: buf[q + k] == v[k]
      invariant forall k | 0 <= k < q :: buf[k] == old(buf[k])
      invariant forall k | p <= k < buf.Length :: buf[k] == old(buf[k])
    {
      buf[q + i] := v[i];
    }
  }
}
