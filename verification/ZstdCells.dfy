/** zstd's decoding table cell by cell, in numbers: a table of `8 * m` cells is walked in steps
    of `5 * m + 3`, and every cell's symbol, bits and next state follow from the counts. */
module ZstdCells {
  import opened Arith
  import opened Words
  import opened FseTables
  import opened ZstdSpread
  import opened ZstdTable

  lemma VisitAt(tableLog: nat, m: nat, k: nat)
    requires Pow2(tableLog) == 8 * m
    ensures Visit(tableLog, k) == k * (5 * m + 3) % (8 * m)
  {
    DivModUnique(8 * m, 2, 4 * m, 0);
    DivModUnique(8 * m, 8, m, 0);
    assert TableStep(8 * m) == 5 * m + 3;
    hide TableStep, Pow2;
  }

  /** The cell of step `k`. */
  function CellAt(m: nat, k: nat): (c: nat)
    requires m > 0
    ensures c < 8 * m
  {
    k * (5 * m + 3) % (8 * m)
  }

  lemma VisitIsCell(tableLog: nat, m: nat, k: nat)
    requires Pow2(tableLog) == 8 * m
    ensures m > 0 && Visit(tableLog, k) == CellAt(m, k)
  {
    hide Pow2, Visit;
    VisitAt(tableLog, m, k);
  }

  lemma EightCells(tableLog: nat)
    requires tableLog >= 3
    ensures Pow2(tableLog) == 8 * Pow2(tableLog - 3)
  {
    Pow2Add(3, tableLog - 3);
    assert Pow2(3) == 8;
  }

  // --------------------------------------------------------- which symbol has its turn

  /** Cells the symbols below `s` get, without those of count minus one. */
  function Before(counts: seq<int>, s: nat): nat
    requires s <= |counts|
  {
    if s == 0 then 0 else Before(counts, s - 1) + (if counts[s - 1] > 0 then counts[s - 1] else 0)
  }

  /** Symbols below `s` of count minus one. */
  function LowBefore(counts: seq<int>, s: nat): nat
    requires s <= |counts|
  {
    if s == 0 then 0 else LowBefore(counts, s - 1) + (if counts[s - 1] == -1 then 1 else 0)
  }

  lemma {:induction false} BeforePrefix(counts: seq<int>, n: nat, s: nat)
    requires s <= n <= |counts|
    ensures Before(counts[..n], s) == Before(counts, s)
    ensures LowBefore(counts[..n], s) == LowBefore(counts, s)
    decreases s
  {
    if s > 0 {
      BeforePrefix(counts, n, s - 1);
    }
  }

  lemma {:induction false} BeforeSize(counts: seq<int>)
    requires |counts| <= 256
    ensures Before(counts, |counts|) == |Laid(counts)| && LowBefore(counts, |counts|) == |Lows(counts)|
    decreases counts
  {
    if counts == [] {
    } else {
      var last := |counts| - 1;
      BeforeSize(counts[..last]);
      BeforePrefix(counts, last, last);
    }
  }

  lemma {:induction false} BeforeGrows(counts: seq<int>, s: nat, n: nat)
    requires s <= n <= |counts|
    ensures Before(counts, s) <= Before(counts, n) && LowBefore(counts, s) <= LowBefore(counts, n)
    decreases n
  {
    if s < n {
      BeforeGrows(counts, s, n - 1);
    }
  }

  /** The symbol laid down in turn `k`. */
  lemma {:induction false} LaidAt(counts: seq<int>, s: nat, k: nat)
    requires |counts| <= 256 && s < |counts| && Before(counts, s) <= k < Before(counts, s) + counts[s]
    ensures k < |Laid(counts)| && Laid(counts)[k] == s
    decreases counts
  {
    hide Before;
    var last := |counts| - 1;
    BeforeSize(counts[..last]);
    BeforePrefix(counts, last, last);
    if s < last {
      BeforePrefix(counts, last, s);
      LaidAt(counts[..last], s, k);
    }
  }

  /** The low symbols in order. */
  lemma {:induction false} LowsAt(counts: seq<int>, s: nat)
    requires |counts| <= 256 && s < |counts| && counts[s] == -1
    ensures LowBefore(counts, s) < |Lows(counts)| && Lows(counts)[LowBefore(counts, s)] == s
    decreases counts
  {
    hide LowBefore;
    var last := |counts| - 1;
    BeforeSize(counts[..last]);
    BeforePrefix(counts, last, last);
    if s < last {
      BeforePrefix(counts, last, s);
      LowsAt(counts[..last], s);
    }
  }

  // ------------------------------------------------------------ which cell has its turn

  /** Steps before the `i`-th that lead to one of the first `free` cells. */
  function Rank(m: nat, free: nat, i: nat): nat
    requires m > 0
  {
    if i == 0 then 0 else Rank(m, free, i - 1) + (if CellAt(m, i - 1) < free then 1 else 0)
  }

  lemma {:induction false} OrderAt(tableLog: nat, m: nat, free: nat, i: nat, n: nat)
    requires Pow2(tableLog) == 8 * m && i < n && Visit(tableLog, i) < free
    ensures Rank(m, free, i) < |Order(tableLog, free - 1, n)|
    ensures Order(tableLog, free - 1, n)[Rank(m, free, i)] == Visit(tableLog, i)
    decreases n
  {
    hide Pow2, Visit, Rank;
    if i < n - 1 {
      OrderAt(tableLog, m, free, i, n - 1);
    } else {
      RankIsSize(tableLog, m, free, i);
    }
  }

  lemma {:induction false} RankIsSize(tableLog: nat, m: nat, free: nat, i: nat)
    requires Pow2(tableLog) == 8 * m
    ensures |Order(tableLog, free - 1, i)| == Rank(m, free, i)
    decreases i
  {
    hide Pow2, Visit, CellAt;
    if i > 0 {
      RankIsSize(tableLog, m, free, i - 1);
      VisitIsCell(tableLog, m, i - 1);
    }
  }

  /** With all cells free every step counts. */
  lemma {:induction false} RankOfAll(m: nat, i: nat)
    requires m > 0
    ensures Rank(m, 8 * m, i) == i
    decreases i
  {
    if i > 0 {
      RankOfAll(m, i - 1);
    }
  }

  // ------------------------------------------------------------------ the whole table

  /** Symbols of count minus one take the last cells, from the top down. The others take the
      rest in the order of the walk, each as many as it counts. */
  ghost predicate ByNumber(syms: seq<byte>, counts: seq<int>, m: nat)
    requires m > 0
  {
    var free := 8 * m - LowBefore(counts, |counts|);
    && |syms| == 8 * m && free >= 0
    && (forall s | 0 <= s < |counts| && counts[s] == -1 ::
          LowBefore(counts, s) < 8 * m && syms[8 * m - 1 - LowBefore(counts, s)] as nat == s)
    && forall i: nat, s: nat | i < 8 * m && s < |counts| :: InWalk(syms, counts, m, free, i, s)
  }

  /** If the `i`-th step leads to a free cell and it is the turn of `s`, the cell holds `s`. */
  ghost predicate InWalk(syms: seq<byte>, counts: seq<int>, m: nat, free: nat, i: nat, s: nat)
    requires m > 0 && |syms| == 8 * m && s < |counts|
  {
    var c := CellAt(m, i);
    c < free && Before(counts, s) <= Rank(m, free, i) < Before(counts, s) + counts[s] ==> syms[c] as nat == s
  }

  lemma SpreadByNumber(syms: seq<byte>, counts: seq<int>, tableLog: nat, m: nat)
    requires Normalised(counts, tableLog) && IsSpread(syms, counts, tableLog) && Pow2(tableLog) == 8 * m
    ensures m > 0 && ByNumber(syms, counts, m)
  {
    hide Pow2, Laid, Lows, Order, Before, LowBefore, InWalk, Distinct;
    BeforeSize(counts);
    var free := 8 * m - LowBefore(counts, |counts|);
    var o := FillOrder(tableLog, |Lows(counts)|);
    FillOrderIsPermutation(tableLog, |Lows(counts)|);
    RoundIsPermutation(tableLog, free - 1);
    forall s | 0 <= s < |counts| && counts[s] == -1
      ensures LowBefore(counts, s) < 8 * m && syms[8 * m - 1 - LowBefore(counts, s)] as nat == s
    {
      LowsAt(counts, s);
      var k := free + LowBefore(counts, s);
      assert o[k] == 8 * m - 1 - LowBefore(counts, s);
    }
    forall i: nat, s: nat | i < 8 * m && s < |counts|
      ensures InWalk(syms, counts, m, free, i, s)
    {
      StepByNumber(syms, counts, tableLog, m, free, i, s);
    }
  }

  lemma StepByNumber(syms: seq<byte>, counts: seq<int>, tableLog: nat, m: nat, free: nat, i: nat, s: nat)
    requires Normalised(counts, tableLog) && IsSpread(syms, counts, tableLog) && Pow2(tableLog) == 8 * m
    requires free == 8 * m - |Lows(counts)| && i < 8 * m && s < |counts|
    ensures InWalk(syms, counts, m, free, i, s)
  {
    hide Pow2, Laid, Lows, Order, Before, Rank, Distinct, Visit, CellAt;
    var k := Rank(m, free, i);
    VisitIsCell(tableLog, m, i);
    if Visit(tableLog, i) < free && Before(counts, s) <= k < Before(counts, s) + counts[s] {
      LaidAt(counts, s, k);
      OrderAt(tableLog, m, free, i, 8 * m);
      FillOrderIsPermutation(tableLog, |Lows(counts)|);
      assert FillOrder(tableLog, |Lows(counts)|)[k] == Visit(tableLog, i);
    }
  }

  /** Without symbols of count minus one the `k`-th step's cell holds the symbol whose turn is
      `k`, for all `k`. */
  lemma FullSpread(syms: seq<byte>, counts: seq<int>, tableLog: nat, m: nat, k: nat, s: nat)
    requires Normalised(counts, tableLog) && IsSpread(syms, counts, tableLog) && Pow2(tableLog) == 8 * m
    requires forall i | 0 <= i < |counts| :: counts[i] != -1
    requires k < 8 * m && s < |counts| && Before(counts, s) <= k < Before(counts, s) + counts[s]
    ensures 0 <= k * (5 * m + 3) % (8 * m) < |syms| && syms[k * (5 * m + 3) % (8 * m)] as nat == s
  {
    hide Pow2, Laid, Lows, Before, LowBefore, Rank, IsSpread, ByNumber, InWalk, Normalised;
    SpreadByNumber(syms, counts, tableLog, m);
    NoneLow(counts, |counts|);
    TurnOfFull(syms, counts, m, k, s);
  }

  lemma TurnOfFull(syms: seq<byte>, counts: seq<int>, m: nat, k: nat, s: nat)
    requires m > 0 && ByNumber(syms, counts, m) && LowBefore(counts, |counts|) == 0
    requires k < 8 * m && s < |counts| && Before(counts, s) <= k < Before(counts, s) + counts[s]
    ensures CellAt(m, k) < |syms| && syms[CellAt(m, k)] as nat == s
  {
    hide Before, LowBefore, Rank, CellAt;
    RankOfAll(m, k);
    assert InWalk(syms, counts, m, 8 * m - LowBefore(counts, |counts|), k, s);
  }

  lemma {:induction false} NoneLow(counts: seq<int>, s: nat)
    requires s <= |counts| && forall i | 0 <= i < |counts| :: counts[i] != -1
    ensures LowBefore(counts, s) == 0
    decreases s
  {
    if s > 0 {
      NoneLow(counts, s - 1);
    }
  }

  /** A cell's state number is its symbol's width plus the number of earlier cells of that
      symbol; shifted into the range of the states it gives the bits and the next state. */
  ghost predicate StateByNumber(t: seq<Cell>, u: nat, counts: seq<int>, size: nat)
    requires u < |t|
  {
    var s: nat := t[u].symbol;
    && s < |counts|
    && var x := (if counts[s] == -1 then 1 else counts[s]) + |set v: nat | v < u && t[v].symbol == t[u].symbol|;
       && size <= x * Pow2(t[u].nbBits) < 2 * size
       && t[u].newState == x * Pow2(t[u].nbBits) - size
  }

  lemma {:induction false} OccIsSize(t: seq<byte>, x: byte)
    ensures Occ(t, x) == |set v: nat | v < |t| && t[v] == x|
    decreases t
  {
    var all := set v: nat | v < |t| && t[v] == x;
    if t == [] {
      assert all == {};
    } else {
      var last := |t| - 1;
      OccIsSize(t[..last], x);
      var less := set v: nat | v < last && t[..last][v] == x;
      assert all == less + if t[last] == x then {last} else {};
    }
  }

  lemma TableByNumber(t: seq<Cell>, counts: seq<int>, tableLog: nat)
    requires Normalised(counts, tableLog) && IsTable(t, counts, tableLog)
    ensures |t| == Pow2(tableLog) && ByNumber(Symbols(t), counts, Pow2(tableLog - 3))
    ensures forall u | 0 <= u < |t| :: StateByNumber(t, u, counts, |t|)
  {
    hide Pow2, IsSpread, ByNumber, StateByNumber, Laid, Lows, IsCell;
    EightCells(tableLog);
    SpreadByNumber(Symbols(t), counts, tableLog, Pow2(tableLog - 3));
    SizeOfSpread(Symbols(t), counts, tableLog);
    forall u: nat | u < |t|
      ensures StateByNumber(t, u, counts, |t|)
    {
      CellByNumber(t, u, counts, tableLog);
    }
  }

  lemma SizeOfSpread(syms: seq<byte>, counts: seq<int>, tableLog: nat)
    requires Normalised(counts, tableLog) && IsSpread(syms, counts, tableLog)
    ensures |syms| == Pow2(tableLog)
  {
    hide Pow2, FillOrder;
  }

  lemma CellByNumber(t: seq<Cell>, u: nat, counts: seq<int>, tableLog: nat)
    requires u < |t| == Pow2(tableLog) && IsCell(t, u, counts, tableLog)
    requires forall i | 0 <= i < |counts| :: counts[i] >= -1
    ensures StateByNumber(t, u, counts, |t|)
  {
    hide Pow2, Occ, Log;
    var syms := Symbols(t);
    OccIsSize(syms[..u], syms[u]);
    assert (set v: nat | v < u && syms[..u][v] == syms[u]) == (set v: nat | v < u && t[v].symbol == t[u].symbol);
    StateNumber(tableLog, Width(counts[t[u].symbol]) + Turn(syms, u));
  }
}
