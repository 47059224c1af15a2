/** zstd's FSE decoding table: which symbol every cell holds, and why the intervals of one
    symbol's cells share out all states. */
module ZstdTable {
  import opened Arith
  import opened Words
  import opened FseTables
  import opened ZstdSpread

  datatype Cell = Cell(symbol: byte, nbBits: nat, newState: nat)

  // ------------------------------------------------------------ symbols in order

  function Copies(x: byte, n: int): seq<byte> {
    if n <= 0 then [] else seq(n, _ => x)
  }

  /** All symbols with a count, each as often as it counts. */
  function Laid(counts: seq<int>): seq<byte>
    requires |counts| <= 256
  {
    if counts == [] then []
    else Laid(counts[..|counts| - 1]) + Copies(|counts| - 1, counts[|counts| - 1])
  }

  /** The symbols of count minus one: less than one cell's worth. */
  function Lows(counts: seq<int>): seq<byte>
    requires |counts| <= 256
  {
    if counts == [] then []
    else Lows(counts[..|counts| - 1]) + (if counts[|counts| - 1] == -1 then [|counts| - 1] else [])
  }

  /** Cells a symbol gets. */
  function Width(count: int): nat {
    if count == -1 then 1 else if count > 0 then count else 0
  }

  /** What the format demands: the cells asked for are exactly the cells there are. */
  ghost predicate Normalised(counts: seq<int>, tableLog: nat) {
    && 5 <= tableLog <= 12 && 0 < |counts| <= 256
    && (forall i | 0 <= i < |counts| :: counts[i] >= -1)
    && |Laid(counts)| + |Lows(counts)| == Pow2(tableLog)
  }

  /** Occurrences of a symbol. */
  function Occ(t: seq<byte>, x: byte): nat {
    if t == [] then 0 else Occ(t[..|t| - 1], x) + (if t[|t| - 1] == x then 1 else 0)
  }

  lemma {:induction false} OccConcat(a: seq<byte>, b: seq<byte>, x: byte)
    ensures Occ(a + b, x) == Occ(a, x) + Occ(b, x)
    decreases b
  {
    if b == [] {
      assert a + b == a;
    } else {
      assert (a + b)[..|a + b| - 1] == a + b[..|b| - 1];
      OccConcat(a, b[..|b| - 1], x);
    }
  }

  lemma {:induction false} OccCopies(y: byte, n: nat, x: byte)
    ensures Occ(Copies(y, n), x) == if x == y then n else 0
    decreases n
  {
    if n == 0 {
    } else {
      assert Copies(y, n)[..n - 1] == Copies(y, n - 1);
      OccCopies(y, n - 1, x);
    }
  }

  /** Every symbol is laid down as often as its count says. */
  lemma {:induction false} OccLaid(counts: seq<int>, x: byte)
    requires |counts| <= 256 && forall i | 0 <= i < |counts| :: counts[i] >= -1
    ensures Occ(Laid(counts), x) + Occ(Lows(counts), x) == if x < |counts| then Width(counts[x]) else 0
    decreases counts
  {
    hide Copies;
    if counts == [] {
    } else {
      var last := |counts| - 1;
      OccLaid(counts[..last], x);
      var low: seq<byte> := if counts[last] == -1 then [last] else [];
      OccConcat(Laid(counts[..last]), Copies(last, counts[last]), x);
      OccConcat(Lows(counts[..last]), low, x);
      OccCopies(last, if counts[last] < 0 then 0 else counts[last], x);
      CopiesOfNone(last, counts[last]);
      assert Occ(low, x) == if x == last && counts[last] == -1 then 1 else 0;
    }
  }

  lemma CopiesOfNone(x: byte, n: int)
    ensures n < 0 ==> Copies(x, n) == Copies(x, 0)
  {
  }

  // ------------------------------------------------------------------- the spread

  /** The cells from the top down. */
  function Tops(size: nat, n: nat): seq<nat>
    requires n <= size
  {
    seq(n, k requires 0 <= k < n => size - 1 - k)
  }

  /** The cells in the order in which they get the symbols of `Laid + Lows`. */
  function FillOrder(tableLog: nat, lows: nat): seq<nat>
    requires lows <= Pow2(tableLog)
  {
    Order(tableLog, Pow2(tableLog) - 1 - lows, Pow2(tableLog)) + Tops(Pow2(tableLog), lows)
  }

  lemma FillOrderIsPermutation(tableLog: nat, lows: nat)
    requires tableLog >= 4 && lows <= Pow2(tableLog)
    ensures var o := FillOrder(tableLog, lows);
            && |o| == Pow2(tableLog) && Distinct(o)
            && (forall k | 0 <= k < |o| :: o[k] < Pow2(tableLog))
            && (forall c | 0 <= c < Pow2(tableLog) :: c in o)
  {
    hide Pow2, Order;
    RoundIsPermutation(tableLog, Pow2(tableLog) - 1 - lows);
    AllBelow(FillOrder(tableLog, lows), Pow2(tableLog));
  }

  /** What the table's symbols must be. */
  ghost predicate IsSpread(syms: seq<byte>, counts: seq<int>, tableLog: nat)
    requires Normalised(counts, tableLog)
  {
    var o, all := FillOrder(tableLog, |Lows(counts)|), Laid(counts) + Lows(counts);
    FillOrderIsPermutation(tableLog, |Lows(counts)|);
    && |syms| == Pow2(tableLog)
    && forall k | 0 <= k < |o| :: syms[o[k]] == all[k]
  }

  /** It leaves no choice. */
  lemma SpreadIsUnique(a: seq<byte>, b: seq<byte>, counts: seq<int>, tableLog: nat)
    requires Normalised(counts, tableLog) && IsSpread(a, counts, tableLog) && IsSpread(b, counts, tableLog)
    ensures a == b
  {
    hide Pow2, FillOrder, Laid, Lows, Distinct;
    FillOrderIsPermutation(tableLog, |Lows(counts)|);
    var o := FillOrder(tableLog, |Lows(counts)|);
    forall c: nat | 0 <= c < |a|
      ensures a[c] == b[c]
    {
      assert c in o;
      var k :| 0 <= k < |o| && o[k] == c;
    }
  }

  /** Cells that get symbol `x` when the cells `o` get the symbols `all` in turn. */
  ghost function Hits(all: seq<byte>, o: seq<nat>, x: byte): (r: set<nat>)
    requires |all| <= |o|
    ensures forall k | 0 <= k < |all| && all[k] == x :: o[k] in r
    ensures forall c | c in r :: exists k | 0 <= k < |all| :: all[k] == x && o[k] == c
  {
    if all == [] then {}
    else
      var last := |all| - 1;
      Hits(all[..last], o, x) + (if all[last] == x then {o[last]} else {})
  }

  lemma {:induction false} HitsSize(all: seq<byte>, o: seq<nat>, x: byte)
    requires |all| <= |o| && Distinct(o)
    ensures |Hits(all, o, x)| == Occ(all, x)
    decreases all
  {
    if all == [] {
    } else {
      HitsSize(all[..|all| - 1], o, x);
    }
  }

  /** Handing out symbols in any order of all the cells keeps their numbers. */
  lemma PermutedOcc(syms: seq<byte>, o: seq<nat>, all: seq<byte>, x: byte)
    requires |o| == |all| == |syms| && Distinct(o)
    requires forall k | 0 <= k < |o| :: o[k] < |syms| && syms[o[k]] == all[k]
    requires forall c | 0 <= c < |syms| :: c in o
    ensures Occ(syms, x) == Occ(all, x)
  {
    hide Hits, Distinct;
    var id := seq(|syms|, i requires 0 <= i < |syms| => i);
    HitsSize(all, o, x);
    IdentityIsDistinct(id);
    HitsSize(syms, id, x);
    forall c: nat
      ensures c in Hits(all, o, x) <==> c in Hits(syms, id, x)
    {
      SameHits(syms, o, all, id, x, c);
    }
    assert Hits(all, o, x) == Hits(syms, id, x);
  }

  lemma IdentityIsDistinct(id: seq<nat>)
    requires forall i | 0 <= i < |id| :: id[i] == i
    ensures Distinct(id)
  {
  }

  lemma SameHits(syms: seq<byte>, o: seq<nat>, all: seq<byte>, id: seq<nat>, x: byte, c: nat)
    requires |o| == |all| == |syms| == |id| && forall i | 0 <= i < |id| :: id[i] == i
    requires forall k | 0 <= k < |o| :: o[k] < |syms| && syms[o[k]] == all[k]
    requires forall c | 0 <= c < |syms| :: c in o
    ensures c in Hits(all, o, x) <==> c in Hits(syms, id, x)
  {
    hide Hits;
    if c in Hits(all, o, x) {
      var k :| 0 <= k < |all| && all[k] == x && o[k] == c;
      assert id[c] == c;
    }
    if c in Hits(syms, id, x) {
      var i :| 0 <= i < |syms| && syms[i] == x && id[i] == c;
      assert c in o;
      var k :| 0 <= k < |o| && o[k] == c;
    }
  }

  /** Every symbol gets exactly its number of cells. */
  lemma SpreadCounts(syms: seq<byte>, counts: seq<int>, tableLog: nat, x: byte)
    requires Normalised(counts, tableLog) && IsSpread(syms, counts, tableLog) && x < |counts|
    ensures Occ(syms, x) == Width(counts[x])
  {
    hide Pow2, FillOrder, Distinct, Occ;
    FillOrderIsPermutation(tableLog, |Lows(counts)|);
    PermutedOcc(syms, FillOrder(tableLog, |Lows(counts)|), Laid(counts) + Lows(counts), x);
    OccConcat(Laid(counts), Lows(counts), x);
    OccLaid(counts, x);
  }

  lemma SymbolsAreCounted(syms: seq<byte>, counts: seq<int>, tableLog: nat, u: nat)
    requires Normalised(counts, tableLog) && IsSpread(syms, counts, tableLog) && u < |syms|
    ensures syms[u] < |counts|
  {
    hide Pow2, FillOrder, Distinct, Occ;
    var x := syms[u];
    if x >= |counts| {
      FillOrderIsPermutation(tableLog, |Lows(counts)|);
      PermutedOcc(syms, FillOrder(tableLog, |Lows(counts)|), Laid(counts) + Lows(counts), x);
      OccConcat(Laid(counts), Lows(counts), x);
      OccLaid(counts, x);
      OccPositive(syms, u);
    }
  }

  lemma {:induction false} OccPositive(t: seq<byte>, u: nat)
    requires u < |t|
    ensures Occ(t[..u], t[u]) < Occ(t, t[u])
    decreases |t|
  {
    if u == |t| - 1 {
    } else {
      assert t[..|t| - 1][..u] == t[..u];
      OccPositive(t[..|t| - 1], u);
    }
  }

  // ----------------------------------------------------------------- the intervals

  /** The cell whose turn among its symbol's cells makes its state number `x`. */
  function CellOf(tableLog: nat, symbol: byte, x: nat): Cell
    requires 0 < x < 2 * Pow2(tableLog)
  {
    StateNumber(tableLog, x);
    Cell(symbol, tableLog - Log(x), x * Pow2(tableLog - Log(x)) - Pow2(tableLog))
  }

  lemma StateNumber(tableLog: nat, x: nat)
    requires 0 < x < 2 * Pow2(tableLog)
    ensures Log(x) <= tableLog
    ensures Pow2(tableLog) <= x * Pow2(tableLog - Log(x)) < 2 * Pow2(tableLog)
  {
    hide Log, Pow2;
    LogBounds(x);
    if Log(x) > tableLog {
      Pow2Half(tableLog + 1);
      Pow2Monotone(tableLog + 1, Log(x));
      assert false;
    }
    var p := Pow2(tableLog - Log(x));
    Pow2Add(Log(x), tableLog - Log(x));
    MulMonotone(Pow2(Log(x)), x, p);
    MulMonotone(x + 1, 2 * Pow2(Log(x)), p);
    assert (x + 1) * p == x * p + p;
    assert 2 * Pow2(Log(x)) * p == 2 * Pow2(tableLog);
  }

  lemma LogOfPow2(k: nat)
    ensures Log(Pow2(k)) == k && States(Pow2(k))
  {
    LogUnique(Pow2(k), k);
  }

  lemma LogUnique(x: nat, k: nat)
    requires Pow2(k) <= x < 2 * Pow2(k)
    ensures x > 0 && Log(x) == k
  {
    hide Log, Pow2;
    LogBounds(x);
    if Log(x) < k {
      Pow2Half(Log(x) + 1);
      Pow2Monotone(Log(x) + 1, k);
      assert false;
    }
    if Log(x) > k {
      Pow2Half(k + 1);
      Pow2Monotone(k + 1, Log(x));
      assert false;
    }
  }

  /** The two table builders agree: the zstd cell of turn `j` is the slot `j` of LZFSE. */
  lemma CellIsSlot(tableLog: nat, f: nat, j: nat, symbol: byte)
    requires 0 < f <= Pow2(tableLog) && j < f
    ensures var c, d := CellOf(tableLog, symbol, f + j), DecEntryOf(Pow2(tableLog), f, j, symbol);
            c.nbBits == d.k && c.newState == d.delta && c.symbol == d.symbol
  {
    hide Log, Pow2;
    var n := Pow2(tableLog);
    LogOfPow2(tableLog);
    LogBounds(f);
    LogMonotone(f, n);
    var k, q := Shift(n, f), Pow2(Log(f));
    Pow2Add(Log(f), k);
    SlotBoundary(n, q, Pow2(k));
    if j < 2 * q - f {
      LogUnique(f + j, Log(f));
    } else {
      assert k > 0 by {
        if k == 0 { Pow2Zero(); assert false; }
      }
      Pow2Half(Log(f) + 1);
      LogUnique(f + j, Log(f) + 1);
      Pow2Half(k);
      HalfSlot(n, f, q, j, Pow2(k - 1));
    }
  }

  lemma HalfSlot(n: nat, f: nat, q: nat, j: nat, h: nat)
    requires n == q * (2 * h)
    ensures (f + j) * h - n == (j - (2 * q - f)) * h
  {
    assert n == 2 * q * h;
    assert (f + j) * h - 2 * q * h == (f + j - 2 * q) * h;
  }

  ghost predicate InInterval(c: Cell, v: nat) {
    c.newState <= v < c.newState + Pow2(c.nbBits)
  }

  /** State `v` is in the interval of turn `j` of a symbol of `f` cells. */
  ghost predicate Owns(tableLog: nat, f: nat, j: nat, v: nat)
    requires 0 < f <= Pow2(tableLog) && j < f
  {
    InInterval(CellOf(tableLog, 0, f + j), v)
  }

  /** The intervals of turns 0 to `f - 1` share out the states: exactly one holds `v`. */
  lemma TurnOf(tableLog: nat, f: nat, v: nat) returns (j: nat)
    requires 0 < f <= Pow2(tableLog) && v < Pow2(tableLog)
    ensures j < f && Owns(tableLog, f, j, v)
    ensures forall i: nat | i < f && Owns(tableLog, f, i, v) :: i == j
  {
    hide Log, Pow2, DecEntryOf, CellOf, Encode;
    var n := Pow2(tableLog);
    LogOfPow2(tableLog);
    var e := Entry(n, f);
    EncodeThenDecode(e, n, f, 0, 0, v);
    j := Encode(e, v).state;
    CellIsSlot(tableLog, f, j, 0);
    forall i: nat | i < f && Owns(tableLog, f, i, v)
      ensures i == j
    {
      CellIsSlot(tableLog, f, i, 0);
      DecodeThenEncode(e, n, f, 0, 0, i, v - CellOf(tableLog, 0, f + i).newState);
    }
  }

  ghost function Entry(n: nat, f: nat): (e: EncEntry)
    requires 0 < f <= n
    ensures IsEncEntry(e, n, f, 0)
  {
    var k := Shift(n, f);
    EncEntry(f * Pow2(k) - n, k, n / Pow2(k) - f, if k > 0 then n / Pow2(k - 1) - f else 0)
  }

  // --------------------------------------------------------------- the whole table

  /** Number of the state of cell `u`: its symbol's count plus its turn. */
  function Turn(syms: seq<byte>, u: nat): nat
    requires u < |syms|
  {
    Occ(syms[..u], syms[u])
  }

  function Symbols(t: seq<Cell>): (syms: seq<byte>)
    ensures |syms| == |t|
    ensures forall u | 0 <= u < |t| :: syms[u] == t[u].symbol
  {
    seq(|t|, u requires 0 <= u < |t| => t[u].symbol)
  }

  /** The table as the format describes it: the spread, and in every cell the state whose
      number is the symbol's count plus the cell's turn. */
  ghost predicate IsTable(t: seq<Cell>, counts: seq<int>, tableLog: nat)
    requires Normalised(counts, tableLog)
  {
    IsSpread(Symbols(t), counts, tableLog) && forall u | 0 <= u < |t| :: IsCell(t, u, counts, tableLog)
  }

  ghost predicate IsCell(t: seq<Cell>, u: nat, counts: seq<int>, tableLog: nat)
    requires u < |t|
  {
    var s := t[u].symbol;
    && s < |counts|
    && var x := Width(counts[s]) + Turn(Symbols(t), u);
       0 < x < 2 * Pow2(tableLog) && t[u] == CellOf(tableLog, s, x)
  }

  /** The cell of a symbol whose turn is `j`. */
  lemma {:induction false} CellOfTurn(t: seq<byte>, x: byte, j: nat) returns (u: nat)
    requires j < Occ(t, x)
    ensures u < |t| && t[u] == x && Turn(t, u) == j
    decreases t
  {
    var last := |t| - 1;
    if t[last] == x && Occ(t[..last], x) == j {
      u := last;
    } else {
      u := CellOfTurn(t[..last], x, j);
      assert t[..last][..u] == t[..u];
    }
  }

  lemma TurnsDiffer(t: seq<byte>, u: nat, v: nat)
    requires u < v < |t| && t[u] == t[v]
    ensures Turn(t, u) < Turn(t, v)
  {
    assert t[..v][..u] == t[..u];
    OccPositive(t[..v], u);
  }

  /** The table decodes: for every symbol with a count, the intervals of its cells hold every
      state exactly once. */
  lemma IntervalsPartition(t: seq<Cell>, counts: seq<int>, tableLog: nat, s: byte, v: nat) returns (u: nat)
    requires Normalised(counts, tableLog) && IsTable(t, counts, tableLog)
    requires s < |counts| && counts[s] != 0 && v < Pow2(tableLog)
    ensures u < |t| && t[u].symbol == s && InInterval(t[u], v)
    ensures forall w: nat | w < |t| && t[w].symbol == s && InInterval(t[w], v) :: w == u
  {
    hide Pow2, CellOf, IsSpread, Occ, Turn, Symbols, Laid, Lows;
    var syms, f := Symbols(t), Width(counts[s]);
    SpreadCounts(syms, counts, tableLog, s);
    OccBelowSize(syms, s);
    assert |t| == Pow2(tableLog) by { assert IsSpread(syms, counts, tableLog); SpreadSize(syms, counts, tableLog); }
    var j := TurnOf(tableLog, f, v);
    u := CellOfTurn(syms, s, j);
    TurnOwns(t, counts, tableLog, u, v);
    forall w: nat | w < |t| && t[w].symbol == s && InInterval(t[w], v)
      ensures w == u
    {
      TurnOwns(t, counts, tableLog, w, v);
      if w < u {
        TurnsDiffer(syms, w, u);
      } else if u < w {
        TurnsDiffer(syms, u, w);
      }
    }
  }

  lemma SpreadSize(syms: seq<byte>, counts: seq<int>, tableLog: nat)
    requires Normalised(counts, tableLog) && IsSpread(syms, counts, tableLog)
    ensures |syms| == Pow2(tableLog)
  {
  }

  lemma {:induction false} OccBelowSize(t: seq<byte>, x: byte)
    ensures Occ(t, x) <= |t|
    decreases t
  {
    if t == [] {
    } else {
      OccBelowSize(t[..|t| - 1], x);
    }
  }

  /** A cell's interval is the one its turn owns. */
  lemma TurnOwns(t: seq<Cell>, counts: seq<int>, tableLog: nat, u: nat, v: nat)
    requires Normalised(counts, tableLog) && IsTable(t, counts, tableLog) && u < |t|
    ensures var s, j := t[u].symbol, Turn(Symbols(t), u);
            && s < |counts|
            && var f := Width(counts[s]);
               j < f <= Pow2(tableLog) && (InInterval(t[u], v) <==> Owns(tableLog, f, j, v))
  {
    hide Pow2, IsSpread, Occ, Laid, Lows, Log;
    var syms := Symbols(t);
    assert IsCell(t, u, counts, tableLog);
    SpreadCounts(syms, counts, tableLog, t[u].symbol);
    OccPositive(syms, u);
    OccBelowSize(syms, t[u].symbol);
    SpreadSize(syms, counts, tableLog);
  }

  /** When no count reaches half the table, every cell reads at least one bit. */
  lemma FastCellsReadBits(t: seq<Cell>, counts: seq<int>, tableLog: nat, u: nat)
    requires Normalised(counts, tableLog) && IsTable(t, counts, tableLog) && u < |t|
    requires forall i | 0 <= i < |counts| :: counts[i] < Pow2(tableLog - 1)
    ensures t[u].nbBits >= 1
  {
    hide Pow2, IsSpread, Occ, Laid, Lows, Log, Symbols;
    assert IsCell(t, u, counts, tableLog);
    TurnOwns(t, counts, tableLog, u, 0);
    var x := Width(counts[t[u].symbol]) + Turn(Symbols(t), u);
    Pow2Half(tableLog);
    Pow2Monotone(1, tableLog - 1);
    TwoIsPow2();
    if Log(x) >= tableLog {
      LogBounds(x);
      Pow2Monotone(tableLog, Log(x));
      assert false;
    }
  }

  lemma TwoIsPow2()
    ensures Pow2(1) == 2
  {
    Pow2Zero();
  }
}
