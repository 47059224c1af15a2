/** zstd's FSE_buildDTable_internal as it runs: the low-probability cells, the spread in one
    or in two stages, and the states. */
module ZstdBuilder {
  import opened Arith
  import opened Words
  import opened FseTables
  import opened ZstdSpread
  import opened ZstdTable
  import opened ZstdCells

  lemma {:induction false} PrefixSizes(counts: seq<int>, i: nat)
    requires i <= |counts| <= 256
    ensures |Laid(counts[..i])| <= |Laid(counts)| && |Lows(counts[..i])| <= |Lows(counts)|
    ensures Laid(counts[..i]) <= Laid(counts)
    decreases counts
  {
    if i == |counts| {
      assert counts[..i] == counts;
    } else {
      assert counts[..|counts| - 1][..i] == counts[..i];
      PrefixSizes(counts[..|counts| - 1], i);
    }
  }

  /** One more symbol, as the loops over the symbols add it. */
  lemma NextSymbol(counts: seq<int>, s: nat)
    requires s < |counts| <= 256
    ensures Laid(counts[..s + 1]) == Laid(counts[..s]) + Copies(s, counts[s])
    ensures Lows(counts[..s + 1]) == Lows(counts[..s]) + (if counts[s] == -1 then [s] else [])
  {
    assert counts[..s + 1][..s] == counts[..s];
  }

  /** The last cells hold the low-probability symbols, from the top down. */
  ghost predicate LowsLaid(t: seq<Cell>, lows: seq<byte>) {
    |lows| <= |t| && forall k | 0 <= k < |lows| :: t[|t| - 1 - k].symbol == lows[k]
  }

  lemma NothingLow(t: seq<Cell>)
    ensures LowsLaid(t, [])
  {
  }

  lemma LowStored(t: seq<Cell>, lows: seq<byte>, x: byte)
    requires LowsLaid(t, lows) && |lows| < |t|
    ensures var i := |t| - 1 - |lows|;
            LowsLaid(t[i := t[i].(symbol := x)], lows + [x])
  {
  }

  /** First loop: low-probability symbols from the top down, and the first state numbers. */
  method LayLow(counts: seq<int>, tableLog: nat, t: array<Cell>, next: array<nat>) returns (high: int, fast: bool)
    requires Normalised(counts, tableLog) && t.Length == Pow2(tableLog) && next.Length == |counts|
    modifies t, next
    ensures high == Pow2(tableLog) - 1 - |Lows(counts)|
    ensures LowsLaid(t[..], Lows(counts))
    ensures forall i | 0 <= i < |counts| :: next[i] == Width(counts[i])
    ensures fast <==> forall i | 0 <= i < |counts| :: counts[i] < Pow2(tableLog - 1)
  {
    hide Pow2, Laid, Lows, LowsLaid;
    var size := Pow2(tableLog);
    NothingLow(t[..]);
    high, fast := size - 1, true;
    assert counts[..0] == [] && counts[..|counts|] == counts;
    NoLows();
    for s := 0 to |counts|
      invariant high == size - 1 - |Lows(counts[..s])|
      invariant LowsLaid(t[..], Lows(counts[..s]))
      invariant forall i | 0 <= i < s :: next[i] == Width(counts[i])
      invariant fast <==> forall i | 0 <= i < s :: counts[i] < Pow2(tableLog - 1)
    {
      NextSymbol(counts, s);
      PrefixSizes(counts, s + 1);
      if counts[s] == -1 {
        LowStored(t[..], Lows(counts[..s]), s);
        ghost var before := t[..];
        t[high] := t[high].(symbol := s);
        assert t[..] == before[high := before[high].(symbol := s)];
        high := high - 1;
        next[s] := 1;
      } else {
        assert Lows(counts[..s]) + [] == Lows(counts[..s]);
        if counts[s] >= Pow2(tableLog - 1) { fast := false; }
        next[s] := counts[s];
      }
    }
  }

  lemma NoLows()
    ensures Lows([]) == [] && Laid([]) == []
  {
  }

  /** The cells up to `high` hold the symbols in the order of the walk. */
  ghost predicate Spread(t: seq<Cell>, counts: seq<int>, tableLog: nat, high: int)
    requires |counts| <= 256 && |t| == Pow2(tableLog)
  {
    var o := Order(tableLog, high, Pow2(tableLog));
    |o| == |Laid(counts)| && forall k | 0 <= k < |o| :: o[k] < |t| && t[o[k]].symbol == Laid(counts)[k]
  }

  // ------------------------------------------------------------------- two stages

  method WriteEight(buf: array<byte>, at: nat, x: byte)
    requires at + 8 <= buf.Length
    modifies buf
    ensures forall k | 0 <= k < buf.Length :: buf[k] == if at <= k < at + 8 then x else old(buf[k])
  {
    for i := 0 to 8
      invariant forall k | 0 <= k < buf.Length :: buf[k] == if at <= k < at + i then x else old(buf[k])
    {
      buf[at + i] := x;
    }
  }

  /** One symbol, eight bytes at a time; what spills over is overwritten by the next. */
  method LaySymbol(buf: array<byte>, pos: nat, x: byte, n: nat)
    requires pos + n + 8 <= buf.Length
    modifies buf
    ensures forall k | 0 <= k < pos :: buf[k] == old(buf[k])
    ensures forall k | pos <= k < pos + n :: buf[k] == x
  {
    WriteEight(buf, pos, x);
    var i := 8;
    while i < n
      invariant 8 <= i && (i <= n + 7 || i == 8)
      invariant forall k | 0 <= k < pos :: buf[k] == old(buf[k])
      invariant forall k | pos <= k < pos + i :: buf[k] == x
    {
      WriteEight(buf, pos + i, x);
      i := i + 8;
    }
  }

  /** First stage: the symbols in order. */
  method LayDown(counts: seq<int>, tableLog: nat, buf: array<byte>)
    requires Normalised(counts, tableLog) && Lows(counts) == [] && buf.Length == Pow2(tableLog) + 8
    modifies buf
    ensures buf[..Pow2(tableLog)] == Laid(counts)
  {
    hide Pow2, Laid, Lows;
    var pos := 0;
    assert counts[..0] == [] && counts[..|counts|] == counts;
    NoLows();
    for s := 0 to |counts|
      invariant pos == |Laid(counts[..s])| <= Pow2(tableLog) && buf[..pos] == Laid(counts[..s])
    {
      NextSymbol(counts, s);
      PrefixSizes(counts, s + 1);
      ghost var done := buf[..pos];
      var n := counts[s];
      assert n >= 0 by {
        assert |Lows(counts[..s + 1])| == 0;
      }
      LaySymbol(buf, pos, s, n);
      assert buf[..pos + n] == done + Copies(s, n);
      pos := pos + n;
    }
  }

  lemma TwoVisits(tableLog: nat, i: nat)
    ensures (Visit(tableLog, i) + 2 * TableStep(Pow2(tableLog))) % Pow2(tableLog) == Visit(tableLog, i + 2)
  {
    hide Pow2, TableStep, Visit;
    NextVisit(tableLog, i);
    NextVisit(tableLog, i + 1);
    TwoSteps(Visit(tableLog, i), Visit(tableLog, i + 1), Visit(tableLog, i + 2), TableStep(Pow2(tableLog)), Pow2(tableLog));
  }

  lemma TwoSteps(a: nat, b: nat, c: nat, s: nat, n: nat)
    requires n > 0 && b == (a + s) % n && c == (b + s) % n
    ensures (a + 2 * s) % n == c
  {
    var q, q' := (a + s) / n, (b + s) / n;
    assert (q + q') * n == q * n + q' * n;
    DivModUnique(a + 2 * s, n, q + q', c);
  }

  /** The cells visited so far hold the symbols in order. */
  ghost predicate Walked(t: seq<Cell>, laid: seq<byte>, tableLog: nat, s: nat)
    requires |t| == Pow2(tableLog) && s <= |laid|
  {
    forall k | 0 <= k < s :: t[Visit(tableLog, k)].symbol == laid[k]
  }

  lemma WalkedTwo(t: seq<Cell>, t': seq<Cell>, laid: seq<byte>, tableLog: nat, s: nat)
    requires tableLog >= 4 && |t| == |t'| == Pow2(tableLog) && s + 1 < |laid| && s + 1 < Pow2(tableLog)
    requires Walked(t, laid, tableLog, s)
    requires var p0, p1 := Visit(tableLog, s), Visit(tableLog, s + 1);
             && (p0 != p1 ==> t'[p0].symbol == laid[s]) && t'[p1].symbol == laid[s + 1]
             && forall i | 0 <= i < |t| && i != p0 && i != p1 :: t'[i] == t[i]
    ensures Walked(t', laid, tableLog, s + 2)
  {
    hide Pow2, Visit;
    WalkTwo(tableLog, s);
  }

  /** Second stage: the walk over all cells, two at a time. */
  method Walk(counts: seq<int>, tableLog: nat, buf: array<byte>, t: array<Cell>)
    requires Normalised(counts, tableLog) && Lows(counts) == [] && t.Length == Pow2(tableLog)
    requires buf.Length >= Pow2(tableLog) && buf[..Pow2(tableLog)] == Laid(counts)
    modifies t
    ensures Spread(t[..], counts, tableLog, Pow2(tableLog) - 1)
  {
    hide Pow2, TableStep, Laid, Lows, Visit, Spread, Walked, Around;
    var size, step := Pow2(tableLog), TableStep(Pow2(tableLog));
    ghost var laid := buf[..size];
    EvenSize(tableLog);
    VisitEnds(tableLog);
    NothingWalked(t[..], laid, tableLog);
    var position := 0;
    var s := 0;
    while s < size
      invariant s <= size && s % 2 == 0 && position == Visit(tableLog, s)
      invariant Walked(t[..], laid, tableLog, s)
    {
      WalkTwo(tableLog, s);
      ghost var before := t[..];
      var p0, p1 := Around(position, 0, size), Around(position, step, size);
      t[p0] := t[p0].(symbol := buf[s]);
      t[p1] := t[p1].(symbol := buf[s + 1]);
      WalkedTwo(before, t[..], laid, tableLog, s);
      position := Around(position, 2 * step, size);
      s := s + 2;
    }
    assert position == 0;
    WalkIsSpread(t[..], laid, counts, tableLog);
  }

  lemma NothingWalked(t: seq<Cell>, laid: seq<byte>, tableLog: nat)
    requires |t| == Pow2(tableLog)
    ensures Walked(t, laid, tableLog, 0)
  {
  }

  lemma WalkIsSpread(t: seq<Cell>, laid: seq<byte>, counts: seq<int>, tableLog: nat)
    requires |counts| <= 256 && |t| == Pow2(tableLog) && laid == Laid(counts) && |laid| == |t|
    requires Walked(t, laid, tableLog, |t|)
    ensures Spread(t, counts, tableLog, Pow2(tableLog) - 1)
  {
    hide Pow2, Laid, Visit;
    OrderIsWalk(tableLog, |t|);
  }

  /** So many cells further, around the table. */
  function Around(position: nat, cells: nat, size: nat): (r: nat)
    requires size > 0
    ensures r < size
  {
    (position + cells) % size
  }

  lemma WalkTwo(tableLog: nat, s: nat)
    requires tableLog >= 4 && s + 1 < Pow2(tableLog)
    ensures Around(Visit(tableLog, s), 0, Pow2(tableLog)) == Visit(tableLog, s)
    ensures Around(Visit(tableLog, s), TableStep(Pow2(tableLog)), Pow2(tableLog)) == Visit(tableLog, s + 1)
    ensures Around(Visit(tableLog, s), 2 * TableStep(Pow2(tableLog)), Pow2(tableLog)) == Visit(tableLog, s + 2)
    ensures Visit(tableLog, s) != Visit(tableLog, s + 1)
    ensures forall k | 0 <= k < s :: Visit(tableLog, k) != Visit(tableLog, s) && Visit(tableLog, k) != Visit(tableLog, s + 1)
  {
    hide Pow2, TableStep, Visit;
    NextVisit(tableLog, s);
    TwoVisits(tableLog, s);
    SmallModulo(Visit(tableLog, s), Pow2(tableLog));
    VisitsDiffer(tableLog, s, s + 1);
    forall k | 0 <= k < s
      ensures Visit(tableLog, k) != Visit(tableLog, s) && Visit(tableLog, k) != Visit(tableLog, s + 1)
    {
      VisitsDiffer(tableLog, k, s);
      VisitsDiffer(tableLog, k, s + 1);
    }
  }

  lemma SmallModulo(x: nat, n: nat)
    requires x < n
    ensures x % n == x
  {
  }

  lemma EvenSize(tableLog: nat)
    requires tableLog > 0
    ensures Pow2(tableLog) % 2 == 0
  {
    DivModUnique(Pow2(tableLog), 2, Pow2(tableLog - 1), 0);
  }

  // --------------------------------------------------------------- around the lows

  lemma {:induction false} OrderPrefix(tableLog: nat, high: int, i: nat, n: nat)
    requires i <= n
    ensures Order(tableLog, high, i) <= Order(tableLog, high, n)
    decreases n
  {
    hide Visit;
    if i < n {
      OrderPrefix(tableLog, high, i, n - 1);
    }
  }

  /** The walk passes over the low-probability cells to the next free one. */
  method Advance(tableLog: nat, high: int, position0: nat, ghost i0: nat) returns (position: nat, ghost i: nat)
    requires tableLog >= 4 && 0 <= high < Pow2(tableLog) && i0 < Pow2(tableLog)
    requires position0 == Visit(tableLog, i0)
    ensures i0 < i <= Pow2(tableLog) && position == Visit(tableLog, i) <= high
    ensures Order(tableLog, high, i) == Order(tableLog, high, i0 + 1)
  {
    hide Pow2, TableStep, Visit;
    var size, step := Pow2(tableLog), TableStep(Pow2(tableLog));
    VisitEnds(tableLog);
    NextVisit(tableLog, i0);
    position, i := (position0 + step) % size, i0 + 1;
    while position > high
      invariant i0 < i <= size && position == Visit(tableLog, i)
      invariant Order(tableLog, high, i) == Order(tableLog, high, i0 + 1)
      decreases size - i
    {
      NextVisit(tableLog, i);
      position, i := (position + step) % size, i + 1;
    }
  }

  /** What holds when the symbols `done` have been placed and the walk has taken `i` steps. */
  ghost predicate Placed(t: seq<Cell>, tableLog: nat, high: int, done: seq<byte>, i: nat)
    requires |t| == Pow2(tableLog)
  {
    var o := Order(tableLog, high, i);
    && i <= Pow2(tableLog)
    && |o| == |done| && forall k | 0 <= k < |o| :: o[k] < |t| && t[o[k]].symbol == done[k]
  }

  lemma PlaceOne(t: seq<Cell>, tableLog: nat, high: int, done: seq<byte>, i: nat, x: byte)
    requires tableLog >= 4 && |t| == Pow2(tableLog) && i < |t| && Visit(tableLog, i) <= high
    requires Placed(t, tableLog, high, done, i)
    ensures var p := Visit(tableLog, i);
            Placed(t[p := t[p].(symbol := x)], tableLog, high, done + [x], i + 1)
  {
    hide Pow2, Visit, Distinct;
    OrderDistinct(tableLog, high, i + 1);
    var o := Order(tableLog, high, i + 1);
    assert o == Order(tableLog, high, i) + [Visit(tableLog, i)];
    forall k | 0 <= k < |done|
      ensures o[k] != Visit(tableLog, i)
    {
      NotLast(o, k);
    }
  }

  lemma NotLast(o: seq<nat>, k: nat)
    requires Distinct(o) && k < |o| - 1
    ensures o[k] != o[|o| - 1]
  {
  }

  /** The single-stage spread: it places every symbol in turn, and the walk ends where it
      began. */
  method SpreadAround(counts: seq<int>, tableLog: nat, high: int, t: array<Cell>) returns (position: nat)
    requires Normalised(counts, tableLog) && t.Length == Pow2(tableLog)
    requires high == Pow2(tableLog) - 1 - |Lows(counts)|
    modifies t
    ensures position == 0 && Spread(t[..], counts, tableLog, high)
    ensures forall c | 0 <= c < t.Length && c > high :: t[c] == old(t[c])
  {
    hide Pow2, Laid, Lows, Visit, Order, Placed, Copies;
    ghost var i := 0;
    position := 0;
    VisitEnds(tableLog);
    assert counts[..0] == [] && counts[..|counts|] == counts;
    NoLows();
    PlacedNothing(t[..], tableLog, high);
    for s := 0 to |counts|
      invariant Placed(t[..], tableLog, high, Laid(counts[..s]), i)
      invariant high < 0 ==> i == 0
      invariant position == Visit(tableLog, i) && (position <= high || high < 0)
      invariant forall c | 0 <= c < t.Length && c > high :: t[c] == old(t[c])
    {
      NextSymbol(counts, s);
      PrefixSizes(counts, s + 1);
      CopiesSize(s, counts[s]);
      position, i := PlaceSymbol(t, tableLog, high, position, s, counts[s], i, Laid(counts[..s]), |Laid(counts)|);
    }
    RoundEnds(t[..], tableLog, high, Laid(counts), i);
  }

  lemma PlacedNothing(t: seq<Cell>, tableLog: nat, high: int)
    requires |t| == Pow2(tableLog)
    ensures Placed(t, tableLog, high, [], 0)
  {
  }

  /** All cells of one symbol. */
  method PlaceSymbol(t: array<Cell>, tableLog: nat, high: int, position0: nat, x: byte, n: int,
                     ghost i0: nat, ghost done: seq<byte>, ghost total: nat)
    returns (position: nat, ghost i: nat)
    requires tableLog >= 4 && -1 <= high < Pow2(tableLog) == t.Length && total == high + 1
    requires Placed(t[..], tableLog, high, done, i0) && |done + Copies(x, n)| <= total
    requires position0 == Visit(tableLog, i0) && (position0 <= high || high < 0)
    modifies t
    ensures Placed(t[..], tableLog, high, done + Copies(x, n), i)
    ensures n <= 0 ==> i == i0
    ensures position == Visit(tableLog, i) && (position <= high || high < 0)
    ensures forall c | 0 <= c < t.Length && c > high :: t[c] == old(t[c])
  {
    hide Pow2, Visit, Order, Placed, Copies;
    position, i := position0, i0;
    var a := 0;
    CopiesGrow(x, 0);
    assert done + Copies(x, 0) == done;
    while a < n
      invariant 0 <= a && (a <= n || a == 0)
      invariant Placed(t[..], tableLog, high, done + Copies(x, a), i)
      invariant a == 0 ==> i == i0
      invariant position == Visit(tableLog, i) && (position <= high || high < 0)
      invariant forall c | 0 <= c < t.Length && c > high :: t[c] == old(t[c])
    {
      CopiesGrow(x, a);
      CopiesSize(x, n);
      StillInside(t[..], tableLog, high, done + Copies(x, a), i);
      PlaceOne(t[..], tableLog, high, done + Copies(x, a), i, x);
      assert done + Copies(x, a) + [x] == done + Copies(x, a + 1);
      ghost var after := t[..][position := t[position].(symbol := x)];
      t[position] := t[position].(symbol := x);
      assert t[..] == after;
      ghost var j := i;
      position, i := Advance(tableLog, high, position, i);
      SamePlaces(t[..], tableLog, high, done + Copies(x, a + 1), j + 1, i);
      a := a + 1;
    }
    if n < 0 {
      CopiesOfNone(x, n);
    }
    CopiesSize(x, n);
    if n <= 0 { NoCopies(x, n); }
  }

  lemma NoCopies(x: byte, n: int)
    requires n <= 0
    ensures Copies(x, n) == []
  {
  }

  lemma CopiesGrow(x: byte, a: nat)
    ensures Copies(x, a + 1) == Copies(x, a) + [x] && |Copies(x, a)| == a
  {
  }

  lemma CopiesSize(x: byte, n: int)
    ensures |Copies(x, n)| == if n > 0 then n else 0
  {
  }

  lemma SamePlaces(t: seq<Cell>, tableLog: nat, high: int, done: seq<byte>, j: nat, i: nat)
    requires |t| == Pow2(tableLog) && Placed(t, tableLog, high, done, j)
    requires Order(tableLog, high, i) == Order(tableLog, high, j) && i <= |t|
    ensures Placed(t, tableLog, high, done, i)
  {
    hide Order;
  }

  /** While a symbol is left to place the walk has not come round. */
  lemma StillInside(t: seq<Cell>, tableLog: nat, high: int, done: seq<byte>, i: nat)
    requires tableLog >= 4 && |t| == Pow2(tableLog) && -1 <= high < |t|
    requires Placed(t, tableLog, high, done, i) && |done| <= high
    ensures i < Pow2(tableLog)
  {
    hide Order, Distinct, Pow2;
    RoundIsPermutation(tableLog, high);
  }

  /** With all symbols placed it has: no cell up to `high` is left, so the walk is at its
      start. */
  lemma RoundEnds(t: seq<Cell>, tableLog: nat, high: int, done: seq<byte>, i: nat)
    requires tableLog >= 4 && |t| == Pow2(tableLog) && -1 <= high < |t|
    requires Placed(t, tableLog, high, done, i) && |done| == high + 1
    requires Visit(tableLog, i) <= high || high < 0
    ensures var o := Order(tableLog, high, Pow2(tableLog));
            |o| == |done| && forall k | 0 <= k < |o| :: o[k] < |t| && t[o[k]].symbol == done[k]
    ensures Visit(tableLog, i) == 0 || high < 0
  {
    hide Distinct, Pow2, Visit;
    RoundIsPermutation(tableLog, high);
    OrderPrefix(tableLog, high, i, Pow2(tableLog));
    VisitEnds(tableLog);
    if high >= 0 && i < Pow2(tableLog) {
      OrderPrefix(tableLog, high, i + 1, Pow2(tableLog));
      assert |Order(tableLog, high, i + 1)| == high + 2;
      assert false;
    }
  }

  // -------------------------------------------------------------------- the states

  /** Last loop: every cell takes its symbol's next state number. */
  method FillStates(counts: seq<int>, tableLog: nat, t: array<Cell>, next: array<nat>)
    requires Normalised(counts, tableLog) && t.Length == Pow2(tableLog) && next.Length == |counts|
    requires IsSpread(Symbols(t[..]), counts, tableLog)
    requires forall i | 0 <= i < |counts| :: next[i] == Width(counts[i])
    modifies t, next
    ensures IsTable(t[..], counts, tableLog)
  {
    hide Pow2, Laid, Lows, Log, IsSpread, Occ, Symbols;
    ghost var syms := Symbols(t[..]);
    assert forall x: byte :: Occ(syms[..0], x) == 0 by { OccNothing(syms[..0]); }
    for u := 0 to t.Length
      invariant Symbols(t[..]) == syms
      invariant forall i | 0 <= i < |counts| :: next[i] == Width(counts[i]) + Occ(syms[..u], i)
      invariant forall v | 0 <= v < u :: IsCell(t[..], v, counts, tableLog)
    {
      ghost var before := t[..];
      var symbol := t[u].symbol;
      assert symbol == syms[u];
      SymbolsAreCounted(syms, counts, tableLog, u);
      StateInRange(syms, counts, tableLog, u);
      var nextState := next[symbol];
      next[symbol] := nextState + 1;
      StateNumber(tableLog, nextState);
      var nbBits := tableLog - Log(nextState);
      t[u] := t[u].(nbBits := nbBits, newState := nextState * Pow2(nbBits) - Pow2(tableLog));
      assert t[..] == before[u := CellOf(tableLog, symbol, nextState)];
      StateStored(before, u, nextState, counts, tableLog);
      NextOcc(syms, u);
    }
  }

  lemma OccNothing(s: seq<byte>)
    requires s == []
    ensures forall x: byte :: Occ(s, x) == 0
  {
  }

  lemma NextOcc(syms: seq<byte>, u: nat)
    requires u < |syms|
    ensures forall x: byte :: Occ(syms[..u + 1], x) == Occ(syms[..u], x) + if x == syms[u] then 1 else 0
  {
    assert syms[..u + 1][..u] == syms[..u];
  }

  /** Writing one cell's state makes it right and changes nothing about the others. */
  lemma StateStored(t: seq<Cell>, u: nat, x: nat, counts: seq<int>, tableLog: nat)
    requires u < |t| && t[u].symbol < |counts| && 0 < x < 2 * Pow2(tableLog)
    requires x == Width(counts[t[u].symbol]) + Turn(Symbols(t), u)
    ensures var t' := t[u := CellOf(tableLog, t[u].symbol, x)];
            && Symbols(t') == Symbols(t)
            && IsCell(t', u, counts, tableLog)
            && forall v: nat | v < |t| && v != u && IsCell(t, v, counts, tableLog) :: IsCell(t', v, counts, tableLog)
  {
    hide Pow2, Log, Occ;
    assert Symbols(t[u := CellOf(tableLog, t[u].symbol, x)]) == Symbols(t);
    hide Symbols;
  }

  lemma StateInRange(syms: seq<byte>, counts: seq<int>, tableLog: nat, u: nat)
    requires Normalised(counts, tableLog) && IsSpread(syms, counts, tableLog) && u < |syms| && syms[u] < |counts|
    ensures var w := Width(counts[syms[u]]);
            0 < w && w + Occ(syms[..u], syms[u]) < 2 * Pow2(tableLog)
  {
    hide Pow2, IsSpread, Occ;
    SpreadCounts(syms, counts, tableLog, syms[u]);
    OccPositive(syms, u);
    OccBelowSize(syms, syms[u]);
    SpreadSize(syms, counts, tableLog);
  }

  /** Both halves of the table filled: that is the spread. */
  lemma HalvesAreSpread(t: seq<Cell>, counts: seq<int>, tableLog: nat)
    requires Normalised(counts, tableLog) && |t| == Pow2(tableLog)
    requires Spread(t, counts, tableLog, Pow2(tableLog) - 1 - |Lows(counts)|)
    requires forall k | 0 <= k < |Lows(counts)| :: t[Pow2(tableLog) - 1 - k].symbol == Lows(counts)[k]
    ensures IsSpread(Symbols(t), counts, tableLog)
  {
    hide Pow2, Laid, Lows, Order, Distinct;
  }

  /** FSE_buildDTable_internal behind its sanity checks: whichever way the symbols are spread,
      the table is the one the format describes, cell by cell. */
  method BuildDTable(counts: seq<int>, tableLog: nat, t: array<Cell>) returns (fast: bool)
    requires Normalised(counts, tableLog) && t.Length == Pow2(tableLog)
    modifies t
    ensures IsTable(t[..], counts, tableLog)
    ensures ByNumber(Symbols(t[..]), counts, Pow2(tableLog - 3))
    ensures forall u | 0 <= u < t.Length :: StateByNumber(t[..], u, counts, t.Length)
    ensures fast <==> forall i | 0 <= i < |counts| :: counts[i] < Pow2(tableLog - 1)
  {
    hide Pow2, Laid, Lows, Log, IsSpread, Occ, Symbols, Order, IsTable, ByNumber, StateByNumber;
    var next := new nat[|counts|];
    var high;
    high, fast := LayLow(counts, tableLog, t, next);
    ghost var lows := t[..];
    if high == Pow2(tableLog) - 1 {
      var buf := new byte[Pow2(tableLog) + 8];
      LayDown(counts, tableLog, buf);
      Walk(counts, tableLog, buf, t);
    } else {
      var position := SpreadAround(counts, tableLog, high, t);
      assert position == 0;
    }
    HalvesAreSpread(t[..], counts, tableLog);
    FillStates(counts, tableLog, t, next);
    TableByNumber(t[..], counts, tableLog);
  }
}
