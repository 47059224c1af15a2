/** Lengths as runs of nibbles, and the byte buffer with a half-byte cursor that holds
    them. */
module Nibbles {
  import opened Words
  import opened Arith

  /** `code` occurs in `s` at position `c`. */
  predicate At<T(==)>(s: seq<T>, c: nat, code: seq<T>) {
    c + |code| <= |s| && s[c..c + |code|] == code
  }

  lemma AtSplit<T>(s: seq<T>, c: nat, a: seq<T>, b: seq<T>)
    requires At(s, c, a + b)
    ensures At(s, c, a)
    ensures At(s, c + |a|, b)
  {
    assert s[c..c + |a|] == (a + b)[..|a|];
    assert s[c + |a|..c + |a| + |b|] == (a + b)[|a|..];
  }

  /** A byte as two nibbles, low half first. */
  function ByteCode(b: byte): (code: seq<nibble>)
    ensures |code| == 2
  {
    [b % 16, b / 16]
  }

  /** Bytes of 255 and one smaller byte. */
  function RunCode(r: nat): seq<nibble> {
    if r < 255 then ByteCode(r) else ByteCode(255) + RunCode(r - 255)
  }

  /** One nibble below 15, two below 30, and a run of bytes from there on. */
  function LengthCode(l: nat): seq<nibble> {
    if l < 15 then [l]
    else if l < 30 then [15, l - 15]
    else ByteCode(255) + RunCode(l - 30)
  }

  function ReadByte(s: seq<nibble>, c: nat): byte
    requires c + 2 <= |s|
  {
    var high: nat := s[c + 1];
    s[c] + 16 * high
  }

  /** Bytes up to and including the first below 255, summed onto `acc`. */
  function ReadRun(s: seq<nibble>, c: nat, acc: nat): (r: Option<(nat, nat)>)
    ensures r.Some? ==> c <= r.value.1 <= |s|
    decreases |s| - c
  {
    if c + 2 > |s| then None
    else
      var y := ReadByte(s, c);
      if y >= 255 then ReadRun(s, c + 2, acc + y) else Some((acc + y, c + 2))
  }

  /** A length and the position behind it, or nothing when the nibbles run out. */
  function ReadLength(s: seq<nibble>, c: nat): (r: Option<(nat, nat)>)
    ensures r.Some? ==> c <= r.value.1 <= |s|
  {
    if c >= |s| then None
    else if s[c] < 15 then Some((s[c], c + 1))
    else if c + 2 > |s| then None
    else
      var more: nat := s[c + 1];
      if more < 15 then Some((15 + more, c + 2)) else ReadRun(s, c + 2, 30)
  }

  lemma {:induction false} ReadRunOfCode(s: seq<nibble>, c: nat, r: nat, acc: nat)
    requires At(s, c, RunCode(r))
    ensures ReadRun(s, c, acc) == Some((acc + r, c + |RunCode(r)|))
    decreases r
  {
    if r < 255 {
      assert s[c..c + 2] == ByteCode(r);
    } else {
      AtSplit(s, c, ByteCode(255), RunCode(r - 255));
      assert s[c..c + 2] == ByteCode(255);
      ReadRunOfCode(s, c + 2, r - 255, acc + 255);
    }
  }

  /** Every length is read back from its code, whatever surrounds it. */
  lemma ReadLengthOfCode(s: seq<nibble>, c: nat, l: nat)
    requires At(s, c, LengthCode(l))
    ensures ReadLength(s, c) == Some((l, c + |LengthCode(l)|))
  {
    if l < 30 {
      assert s[c..c + |LengthCode(l)|] == LengthCode(l);
    } else {
      AtSplit(s, c, ByteCode(255), RunCode(l - 30));
      assert s[c..c + 2] == ByteCode(255);
      ReadRunOfCode(s, c + 2, l - 30, 30);
    }
  }

  lemma {:induction false} RunCodeSize(r: nat)
    ensures |RunCode(r)| % 2 == 0
    ensures 2 <= |RunCode(r)| <= r + 2
    decreases r
  {
    if r < 255 {
    } else {
      RunCodeSize(r - 255);
    }
  }

  /** A length never takes more nibbles than one for each unit and one more. */
  lemma LengthCodeSize(l: nat)
    ensures 1 <= |LengthCode(l)| <= l + 1
  {
    if l >= 30 {
      RunCodeSize(l - 30);
    }
  }

  // ------------------------------------------------------------------ bitwise or

  function Or(a: nat, b: nat): (r: nat)
    decreases a + b
  {
    if a == 0 then b
    else if b == 0 then a
    else 2 * Or(a / 2, b / 2) + (if a % 2 == 1 || b % 2 == 1 then 1 else 0)
  }

  /** Bit by bit, whichever operand is zero. */
  lemma OrStep(a: nat, b: nat)
    ensures Or(a, b) == 2 * Or(a / 2, b / 2) + (if a % 2 == 1 || b % 2 == 1 then 1 else 0)
  {
    if a == 0 {
      assert Or(0, b / 2) == b / 2;
    } else if b == 0 {
      assert Or(a / 2, 0) == a / 2;
    }
  }

  lemma {:induction false} OrBelow(a: nat, b: nat, k: nat)
    requires a < Pow2(k) && b < Pow2(k)
    ensures Or(a, b) < Pow2(k)
    decreases k
  {
    if k == 0 {
    } else {
      OrStep(a, b);
      OrBelow(a / 2, b / 2, k - 1);
    }
  }

  /** Low and high parts are or-ed independently. */
  lemma {:induction false} OrSplit(a: nat, a': nat, b: nat, b': nat, k: nat)
    requires a < Pow2(k) && b < Pow2(k)
    ensures Or(a + a' * Pow2(k), b + b' * Pow2(k)) == Or(a, b) + Or(a', b') * Pow2(k)
    decreases k
  {
    hide Or;
    if k == 0 {
      assert a == 0 && b == 0 && a' * Pow2(0) == a' && b' * Pow2(0) == b' && Or(a', b') * Pow2(0) == Or(a', b');
      OrNothing(b);
    } else {
      var p := Pow2(k - 1);
      Halve(a, a', p);
      Halve(b, b', p);
      OrStep(a, b);
      OrStep(a + a' * Pow2(k), b + b' * Pow2(k));
      OrSplit(a / 2, a', b / 2, b', k - 1);
      Halve(0, Or(a', b'), p);
    }
  }

  lemma Halve(a: nat, h: nat, p: nat)
    ensures (a + h * (2 * p)) / 2 == a / 2 + h * p && (a + h * (2 * p)) % 2 == a % 2
    ensures h * (2 * p) == 2 * (h * p)
  {
    assert h * (2 * p) == 2 * (h * p);
  }

  lemma OrNothing(b: nat)
    ensures Or(0, b) == b && Or(b, 0) == b
  {
  }

  /** The bits of two nibbles. */
  function Or4(a: nibble, b: nibble): nibble {
    OrOfNibbles(a, b);
    Or(a, b)
  }

  lemma OrOfNibbles(a: nibble, b: nibble)
    ensures Or(a, b) < 16
  {
    assert Pow2(4) == 16;
    OrBelow(a, b, 4);
  }

  lemma OrParts(a: nat, a': nat, b: nat, b': nat, k: nat, p: nat)
    requires p == Pow2(k) && a < p && b < p
    ensures Or(a + a' * p, b + b' * p) == Or(a, b) + Or(a', b') * p
  {
    OrSplit(a, a', b, b', k);
  }

  lemma OrDigits(a: nat, a': nat, b: nat, b': nat, k: nat, p: nat)
    requires p == Pow2(k) && a < p && b < p
    ensures Or(a, b) < p
    ensures Or(a + a' * p, b + b' * p) % p == Or(a, b) && Or(a + a' * p, b + b' * p) / p == Or(a', b')
  {
    hide Or, Pow2;
    OrParts(a, a', b, b', k, p);
    OrBelow(a, b, k);
    DivModUnique(Or(a, b) + Or(a', b') * p, p, Or(a', b'), Or(a, b));
  }

  /** Or-ing bytes is or-ing their nibbles. */
  lemma OrBytes(a: byte, b: byte)
    ensures Or(a, b) < 0x100
    ensures Or(a, b) % 16 == Or4(a % 16, b % 16) && Or(a, b) / 16 == Or4(a / 16, b / 16)
  {
    PowerOfNibble();
    hide Or, Pow2;
    OrBelow(a, b, 8);
    OrDigits(a % 16, a / 16, b % 16, b / 16, 4, 16);
    Recompose(a, 16);
    Recompose(b, 16);
  }

  /** Every bit of `a` is a bit of `b`. */
  predicate Within(a: nat, b: nat)
    decreases a
  {
    a == 0 || (a % 2 <= b % 2 && Within(a / 2, b / 2))
  }

  /** Or-ing changes nothing exactly when the bits are there already. */
  lemma {:induction false} OrAbsorbs(a: nat, b: nat)
    ensures Or(a, b) == b <==> Within(a, b)
    decreases a
  {
    if a == 0 {
      OrNothing(b);
    } else {
      OrStep(a, b);
      OrAbsorbs(a / 2, b / 2);
    }
  }

  lemma ByteAbsorbs(a: byte, x: nibble, y: nibble)
    ensures Or4(a % 16, x) == x && Or4(a / 16, y) == y <==> Within(a, x + 16 * y)
  {
    hide Or, Or4, Within;
    var b: byte := x + 16 * y;
    OrBytes(a, b);
    OrAbsorbs(a, b);
    Recompose(Or(a, b), 16);
  }

  /** Or-ing 16-bit words is or-ing their bytes. */
  lemma OrWords(a: word, b: word)
    ensures Or(a, b) % 0x100 == Or(a % 0x100, b % 0x100) && Or(a, b) / 0x100 == Or(a / 0x100, b / 0x100)
  {
    PowerOfNibble();
    hide Or, Pow2;
    OrDigits(a % 0x100, a / 0x100, b % 0x100, b / 0x100, 8, 0x100);
    Recompose(a, 0x100);
    Recompose(b, 0x100);
  }

  lemma Recompose(a: nat, p: nat)
    requires p > 0
    ensures a % p + a / p * p == a
  {
  }

  lemma PowerOfNibble()
    ensures Pow2(4) == 16 && Pow2(8) == 0x100
  {
    Pow2Add(4, 4);
  }

  /** Or-ing disjoint bit ranges is adding. */
  lemma {:induction false} OrDisjoint(low: nat, high: nat, k: nat)
    requires low < Pow2(k)
    ensures Or(low, high * Pow2(k)) == low + high * Pow2(k)
    decreases k
  {
    var h := high * Pow2(k);
    if k == 0 || low == 0 || h == 0 {
    } else {
      var g := high * Pow2(k - 1);
      assert h == 2 * g;
      OrDisjoint(low / 2, high, k - 1);
    }
  }
}
