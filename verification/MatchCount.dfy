/** The branch-free count of matching words, four words at a time. */
module MatchCount {
  import opened Arith
  import opened Words
  import opened Tokens
  import opened LzMatch

  /** Bitwise exclusive or. */
  function Xor(a: nat, b: nat): nat
    decreases a + b
  {
    if a == 0 && b == 0 then 0
    else 2 * Xor(a / 2, b / 2) + (if a % 2 == b % 2 then 0 else 1)
  }

  lemma {:induction false} XorIsZero(a: nat, b: nat)
    ensures Xor(a, b) == 0 <==> a == b
    decreases a + b
  {
    if a == 0 && b == 0 {
    } else {
      XorIsZero(a / 2, b / 2);
    }
  }

  /** Exclusive or does not widen its operands. */
  lemma {:induction false} XorBelow(a: nat, b: nat, bits: nat)
    requires a < Pow2(bits) && b < Pow2(bits)
    ensures Xor(a, b) < Pow2(bits)
    decreases bits
  {
    if bits == 0 || (a == 0 && b == 0) {
    } else {
      XorBelow(a / 2, b / 2, bits - 1);
    }
  }

  function XorWord(a: word, b: word): (x: word)
    ensures x == 0 <==> a == b
  {
    XorIsZero(a, b);
    Pow2Values();
    XorBelow(a, b, 16);
    Xor(a, b)
  }

  /** `*pMatch ^ *pIn` for four words, first word lowest. */
  function XorFour(w: seq<word>, a: nat, b: nat): qword
    requires a + 4 <= |w| && b + 4 <= |w|
  {
    var x0: nat, x1: nat, x2: nat, x3: nat :=
      XorWord(w[a], w[b]), XorWord(w[a + 1], w[b + 1]), XorWord(w[a + 2], w[b + 2]), XorWord(w[a + 3], w[b + 3]);
    x0 + 0x1_0000 * (x1 + 0x1_0000 * (x2 + 0x1_0000 * x3))
  }

  /** Adding the largest remainder carries exactly when `m` is not zero. */
  function Carry(m: nat, b: nat): nat
    requires b > 0
  {
    (m + (b - 1)) / b
  }

  /** How many of the low three, two and one words of `d` are not all zero. */
  function Carries(d: qword): nat {
    Carry(d % 0x1_0000_0000_0000, 0x1_0000_0000_0000) + Carry(d % 0x1_0000_0000, 0x1_0000_0000) + Carry(d % 0x1_0000, 0x1_0000)
  }

  /** The three carries count the words behind the first difference. */
  lemma CarriesLocate(x0: word, x1: word, x2: word, x3: word)
    ensures var d := x0 + 0x1_0000 * (x1 as nat + 0x1_0000 * (x2 as nat + 0x1_0000 * x3 as nat));
            Carries(d) == if x0 != 0 then 3 else if x1 != 0 then 2 else if x2 != 0 then 1 else 0
  {
    hide Carry;
    var y0: nat, y1: nat, y2: nat, y3: nat := x0, x1, x2, x3;
    var low2 := y0 + 0x1_0000 * y1;
    var low3 := low2 + 0x1_0000_0000 * y2;
    TailOf(y0, y1 + 0x1_0000 * (y2 + 0x1_0000 * y3), 0x1_0000);
    TailOf(low2, y2 + 0x1_0000 * y3, 0x1_0000_0000);
    TailOf(low3, y3, 0x1_0000_0000_0000);
    CarryBit(y0, 0x1_0000);
    CarryBit(low2, 0x1_0000_0000);
    CarryBit(low3, 0x1_0000_0000_0000);
  }

  lemma TailOf(low: nat, high: nat, b: nat)
    requires low < b
    ensures (low + b * high) % b == low
  {
    DivModUnique(low + b * high, b, high, low);
  }

  lemma CarryBit(m: nat, b: nat)
    requires m < b
    ensures Carry(m, b) == if m == 0 then 0 else 1
  {
    if m == 0 {
      DivModUnique(b - 1, b, 0, b - 1);
    } else {
      DivModUnique(m + (b - 1), b, 1, m - 1);
    }
  }

  /** First position, below 4, at which the two groups differ. */
  function FirstDifference(w: seq<word>, a: nat, b: nat): (j: nat)
    requires a + 4 <= |w| && b + 4 <= |w|
    ensures j <= 4
  {
    if w[a] != w[b] then 0
    else if w[a + 1] != w[b + 1] then 1
    else if w[a + 2] != w[b + 2] then 2
    else if w[a + 3] != w[b + 3] then 3
    else 4
  }

  lemma GroupDifference(w: seq<word>, a: nat, b: nat)
    requires a + 4 <= |w| && b + 4 <= |w|
    ensures var j, d := FirstDifference(w, a, b), XorFour(w, a, b);
            && (d == 0 <==> j == 4)
            && Carries(d) == (if j < 4 then 3 - j else 0)
  {
    hide Carries, Xor;
    CarriesLocate(XorWord(w[a], w[b]), XorWord(w[a + 1], w[b + 1]), XorWord(w[a + 2], w[b + 2]), XorWord(w[a + 3], w[b + 3]));
  }

  /** A common run, followed by `j` more equal words and then a difference. */
  lemma CommonGrows(w: seq<word>, m: nat, p: nat, n: nat)
    requires m < p && p + n + 4 <= |w| && Common(w, m, p) >= n
    ensures var j := FirstDifference(w, m + n, p + n);
            if j < 4 then Common(w, m, p) == n + j else Common(w, m, p) >= n + 4
  {
    hide Common;
    var c := Common(w, m, p);
    assert forall k | p <= k < p + c :: w[k] == w[k - (p - m)];
  }

  /** Groups looked at: `k` of them stay within what is compared at most, and exhaust it
      when the next one would start at the end. */
  lemma GroupsCompared(p: nat, end: int, k: nat)
    requires p < end && k >= 1
    requires k == 1 || p + 2 + 4 * (k - 1) < end
    ensures 2 + 4 * k <= Compared(p, end)
    ensures p + 2 + 4 * k >= end ==> Compared(p, end) == 2 + 4 * k
  {
  }

  /** After `n` words compared, the last group differing first at `j`, or nowhere if 4. */
  ghost predicate Scanned(w: seq<word>, m: nat, p: nat, n: nat, j: nat)
    requires m <= p <= |w|
  {
    && j <= 4
    && Common(w, m, p) + 4 >= n + j
    && (j < 4 ==> Common(w, m, p) + 4 == n + j)
  }

  /** The next group of four. */
  lemma NextGroup(w: seq<word>, m: nat, p: nat, n: nat)
    requires m < p && p + n + 4 <= |w| && Scanned(w, m, p, n, 4)
    ensures var j, d := FirstDifference(w, m + n, p + n), XorFour(w, m + n, p + n);
            Scanned(w, m, p, n + 4, j) && Carries(d) == CarriesOf(j) && (d == 0 <==> j == 4)
  {
    hide Common, Carries, XorFour, FirstDifference;
    GroupDifference(w, m + n, p + n);
    CommonGrows(w, m, p, n);
  }

  /** The counter is right when the loop ends behind `k` groups. */
  lemma CountFound(w: seq<word>, m: nat, p: nat, end: int, k: nat, j: nat)
    requires m < p < end && p + 1 < |w| && PairEqual(w, m, p) && j <= 4
    requires k >= 1 && (k >= 2 ==> p + 4 * k - 2 < end) && Scanned(w, m, p, 2 + 4 * k, j)
    requires p + 2 + 4 * k >= end || j < 4
    ensures 2 + 4 * k - CarriesOf(j) - 3 == MatchExtra(w, m, p, end)
  {
    hide Common, Compared;
    GroupsCompared(p, end, k);
    CountIsExtra(w, m, p, end, 2 + 4 * k - CarriesOf(j) - 3);
  }

  /** CharEQcountmacro: group by group until a difference or the end of the search. It
      reads no word at or behind `end + 7`. */
  method CharEqCount(w: seq<word>, p: nat, pm: nat, end: int) returns (ml: nat)
    requires pm < p < end && end + LIMIT_LEN <= |w| && PairEqual(w, pm, p)
    ensures ml == MatchExtra(w, pm, p, end)
  {
    FirstPair(w, pm, p);
    hide Common, Carries, XorFour, FirstDifference, Compared, Repeats, Scanned, MatchExtra, CarriesOf, PairEqual;
    var pMatch, pIn, d := pm + 2, p + 2, 0;
    ghost var k: nat, j: nat := 0, 4;
    var more := true;
    while more
      invariant pIn == p + 2 + 4 * k && pMatch == pm + 2 + 4 * k
      invariant k >= 2 ==> pIn - 4 < end
      invariant j <= 4 && Scanned(w, pm, p, pIn - p, j)
      invariant k == 0 ==> more && j == 4
      invariant k >= 1 ==> Carries(d) == CarriesOf(j) && more == (pIn < end && j == 4)
      decreases more, end - pIn
    {
      d := XorFour(w, pMatch, pIn);
      NextGroup(w, pm, p, pIn - p);
      j := FirstDifference(w, pMatch, pIn);
      k := k + 1;
      pMatch, pIn := pMatch + 4, pIn + 4;
      more := pIn < end && d == 0;
    }
    CountFound(w, pm, p, end, k, j);
    var i := Carries(d);
    ml := pIn - p - i - 3;
  }

  lemma FirstPair(w: seq<word>, m: nat, p: nat)
    requires m < p && p + 1 < |w| && PairEqual(w, m, p)
    ensures Scanned(w, m, p, 2, 4)
  {
    assert Common(w, m, p) == 1 + Common(w, m + 1, p + 1) >= 2;
  }

  lemma CountIsExtra(w: seq<word>, m: nat, p: nat, end: int, ml: int)
    requires m < p < end && p + 1 < |w| && PairEqual(w, m, p)
    requires if Common(w, m, p) < Compared(p, end) then ml + 2 == Common(w, m, p) else ml + 3 == Compared(p, end)
    ensures ml == MatchExtra(w, m, p, end)
  {
  }

  function CarriesOf(j: nat): nat
    requires j <= 4
  {
    if j < 4 then 3 - j else 0
  }
}
