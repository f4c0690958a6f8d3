/** The encoding and decoding tables of FSE, built from the same norms, and the proof
    that one step of each undoes the other. */
module FseTable {
  import opened Bits
  import opened FseSpread

  datatype Error = Generic | TableLogTooLarge | MaxSymbolValueTooLarge

  /** `Unsound`: the closing test of the layout let norms through that do not share out the
      table. The code goes on with cells it laid out never or several times. */
  datatype Result<T> = Built(table: T) | Failed(error: Error) | Unsound

  datatype SymbolTransform = SymbolTransform(deltaFindState: int, deltaNbBits: int)

  datatype CTable = CTable(tableLog: nat, stateTable: seq<nat>, symbolTT: seq<SymbolTransform>)

  datatype DCell = DCell(newState: nat, symbol: byte, nbBits: nat)

  datatype DTable = DTable(tableLog: nat, fastMode: bool, cells: seq<DCell>)

  /** Norms of at most 256 symbols that share out a table of `1 << L` cells. */
  ghost predicate SharesOut(norm: seq<int>, L: nat) {
    IsNorm(norm) && MIN_TABLELOG <= L <= MAX_TABLELOG && PosSum(norm) + LowCount(norm) == Pow2(L)
  }

  /** What the layout needs of norms, right or wrong: the cells of single-cell symbols lie in
      the table, and leave a cell for the others. */
  ghost predicate Checkable(norm: seq<int>, L: nat) {
    && IsNorm(norm)
    && LowCount(norm) <= Pow2(L)
    && (LowCount(norm) == Pow2(L) ==> PosSum(norm) == 0)
  }

  /** The closing test does not tell the right total from no round at all or from two. */
  lemma {:induction false} WrongTotalsAccepted(L: nat)
    ensures Checkable([0], L) && WholeRounds([0], L) && PosSum([0]) + LowCount([0]) == 0 < Pow2(L)
    ensures Checkable([2 * Pow2(L)], L) && WholeRounds([2 * Pow2(L)], L)
    ensures PosSum([2 * Pow2(L)]) + LowCount([2 * Pow2(L)]) == 2 * Pow2(L) > Pow2(L)
  {
    hide Pow2;
    OneNorm(0);
    OneNorm(2 * Pow2(L));
    DivModUnique(0, Pow2(L), 0, 0);
    DivModUnique(2 * Pow2(L), Pow2(L), 2, 0);
  }

  lemma {:induction false} OneNorm(n: nat)
    ensures IsNorm([n]) && PosSum([n]) == n && LowCount([n]) == 0
  {
    assert [n][..0] == [];
  }

  /** Cells taken by the symbols before `s`. */
  ghost function Start(norm: seq<int>, s: nat): nat
    requires s <= |norm|
  {
    PosSum(norm[..s]) + LowCount(norm[..s])
  }

  /** The slot of cell `u` in the state table: cells sorted by symbol, then by position. */
  ghost function Slot(norm: seq<int>, spread: seq<byte>, u: nat): nat
    requires u < |spread| && spread[u] < |norm|
  {
    Start(norm, spread[u]) + Count(spread[..u], spread[u])
  }

  /** The number that the decoder shifts back up in cell `u`. */
  ghost function NextState(norm: seq<int>, spread: seq<byte>, u: nat): nat
    requires u < |spread| && spread[u] < |norm|
  {
    Weight(norm[spread[u]]) + Count(spread[..u], spread[u])
  }

  ghost predicate IsTransform(n: int, L: nat, start: nat, tt: SymbolTransform)
    requires n >= -1 && n != 0
  {
    if n == -1 || n == 1 then
      tt.deltaNbBits == 65536 * L - Pow2(L) && tt.deltaFindState == start - 1
    else
      && HighBit(n - 1) <= L
      && var maxBitsOut := L - HighBit(n - 1);
         tt.deltaNbBits == 65536 * maxBitsOut - Shl(n, maxBitsOut) && tt.deltaFindState == start - n
  }

  ghost predicate IsCTable(norm: seq<int>, L: nat, spread: seq<byte>, ct: CTable) {
    && SharesOut(norm, L) && IsSpread(norm, L, spread)
    && ct.tableLog == L && |ct.stateTable| == Pow2(L) && |ct.symbolTT| == |norm|
    && (forall u :: 0 <= u < |spread| ==>
          spread[u] < |norm| && Slot(norm, spread, u) < |ct.stateTable|
          && ct.stateTable[Slot(norm, spread, u)] == Pow2(L) + u)
    && (forall s :: 0 <= s < |norm| && norm[s] != 0 ==> IsTransform(norm[s], L, Start(norm, s), ct.symbolTT[s]))
  }

  ghost predicate IsCell(norm: seq<int>, L: nat, spread: seq<byte>, u: nat, cell: DCell)
    requires u < |spread| && spread[u] < |norm|
  {
    var x := NextState(norm, spread, u);
    && x > 0 && HighBit(x) <= L
    && cell.symbol == spread[u]
    && cell.nbBits == L - HighBit(x)
    && cell.newState == Shl(x, cell.nbBits) - Pow2(L)
  }

  ghost predicate IsDTable(norm: seq<int>, L: nat, spread: seq<byte>, dt: DTable) {
    && SharesOut(norm, L) && IsSpread(norm, L, spread)
    && dt.tableLog == L && |dt.cells| == Pow2(L)
    && (forall u :: 0 <= u < |spread| ==> spread[u] < |norm| && IsCell(norm, L, spread, u, dt.cells[u]))
    && (dt.fastMode <==> forall s :: 0 <= s < |norm| ==> norm[s] < Pow2(L - 1))
  }

  // ---------- shares of the table ----------

  lemma {:induction false} StartNext(norm: seq<int>, s: nat)
    requires IsNorm(norm) && s < |norm|
    ensures Start(norm, s + 1) == Start(norm, s) + Weight(norm[s])
  {
    PosSumNext(norm, s);
  }

  lemma {:induction false} StartMono(norm: seq<int>, s: nat, t: nat)
    requires IsNorm(norm) && s <= t <= |norm|
    ensures Start(norm, s) <= Start(norm, t)
  {
    if s < t {
      StartMono(norm, s, t - 1);
      StartNext(norm, t - 1);
    }
  }

  lemma {:induction false} ShareFits(norm: seq<int>, L: nat, s: nat)
    requires SharesOut(norm, L) && s < |norm|
    ensures Start(norm, s) + Weight(norm[s]) <= Pow2(L)
  {
    hide PosSum, LowCount, Pow2;
    StartNext(norm, s);
    StartMono(norm, s + 1, |norm|);
    assert norm[..|norm|] == norm;
  }

  lemma {:induction false} StartZero(norm: seq<int>)
    ensures Start(norm, 0) == 0
  {
    LowNone(norm[..0]);
  }

  /** A cell of a spread table, its rank among its symbol's cells and its slot. */
  lemma {:induction false} CellFacts(norm: seq<int>, L: nat, spread: seq<byte>, u: nat)
    requires SharesOut(norm, L) && IsSpread(norm, L, spread) && u < |spread|
    ensures spread[u] < |norm| && norm[spread[u]] != 0
    ensures Count(spread[..u], spread[u]) < Weight(norm[spread[u]])
    ensures Slot(norm, spread, u) < Pow2(L)
  {
    hide Count, PosSum, LowCount, Pow2, LowLaid, Filled;
    var s := spread[u];
    SpreadCounts(norm, L, spread, s);
    CountPrefixLe(spread, u, |spread|, s);
    assert spread[..|spread|] == spread;
    ShareFits(norm, L, s);
  }

  lemma {:induction false} SlotsDiffer(norm: seq<int>, L: nat, spread: seq<byte>, u: nat, v: nat)
    requires SharesOut(norm, L) && IsSpread(norm, L, spread) && u < v < |spread|
    ensures spread[u] < |norm| && spread[v] < |norm|
    ensures Slot(norm, spread, u) != Slot(norm, spread, v)
  {
    hide Count, PosSum, LowCount, Pow2, IsSpread, Start;
    CellFacts(norm, L, spread, u);
    CellFacts(norm, L, spread, v);
    var s, t := spread[u], spread[v];
    if s == t {
      CountPrefixLe(spread, u, v, s);
    } else if s < t {
      StartNext(norm, s);
      StartMono(norm, s + 1, t);
    } else {
      StartNext(norm, t);
      StartMono(norm, t + 1, s);
    }
  }

  /** The `r`-th cell that holds `s`. */
  lemma {:induction false} NthCell(spread: seq<byte>, s: byte, r: nat) returns (u: nat)
    requires r < Count(spread, s)
    ensures u < |spread| && spread[u] == s && Count(spread[..u], s) == r
  {
    var n := |spread| - 1;
    if r < Count(spread[..n], s) {
      u := NthCell(spread[..n], s, r);
      assert spread[..n][..u] == spread[..u];
    } else {
      u := n;
    }
  }

  // ---------- one encoding step ----------

  /** `FSE_encodeSymbol`: the number of bits sent to the stream. */
  function BitsOut(ct: CTable, x: nat, s: nat): nat
    requires s < |ct.symbolTT| && x + ct.symbolTT[s].deltaNbBits >= 0
  {
    Shr(x + ct.symbolTT[s].deltaNbBits, 16)
  }

  ghost predicate IsState(L: nat, x: nat) { Pow2(L) <= x < Pow2(L + 1) }

  /** The number of bits that brings `x` into `[n, 2n)`. */
  ghost predicate Brings(n: nat, x: nat, nb: nat) {
    n <= Shr(x, nb) < 2 * n
  }

  lemma {:induction false} ShiftSixteen(v: nat, k: nat)
    requires 65536 * k <= v < 65536 * (k + 1)
    ensures Shr(v, 16) == k
  {
    assert Pow2(8) == 256;
    Pow2Add(8, 8);
    hide Pow2, Shl, Shr;
    ShlMul(k, 16);
    ShrUnique(v - 65536 * k, k, 16);
  }

  lemma {:induction false} Pow2Twelve(L: nat)
    requires L <= 12
    ensures Pow2(L) <= 4096 && Pow2(L + 1) == 2 * Pow2(L)
  {
    Pow2Mono(L, 12);
    assert Pow2(12) == 4096;
  }

  /** A symbol of one cell always sends `L` bits. */
  lemma {:induction false} TransformOne(n: int, L: nat, start: nat, tt: SymbolTransform, x: nat)
    requires (n == -1 || n == 1) && 5 <= L <= 12 && IsTransform(n, L, start, tt) && IsState(L, x)
    ensures x + tt.deltaNbBits >= 0 && tt.deltaNbBits >= 0
    ensures Shr(x + tt.deltaNbBits, 16) == L
    ensures Brings(1, x, L)
  {
    Pow2Twelve(L);
    ShiftSixteen(x + tt.deltaNbBits, L);
    ShrBounds(x, L, L);
    assert Pow2(0) == 1 && Pow2(1) == 2;
  }

  /** A symbol of several cells sends one bit more from `n << maxBitsOut` on. */
  lemma {:induction false} TransformMany(n: nat, L: nat, start: nat, tt: SymbolTransform, x: nat)
    requires 2 <= n <= Pow2(L) && 5 <= L <= 12 && IsTransform(n, L, start, tt) && IsState(L, x)
    ensures x + tt.deltaNbBits >= 0 && tt.deltaNbBits >= 0
    ensures Shr(x + tt.deltaNbBits, 16) <= L
    ensures Brings(n, x, Shr(x + tt.deltaNbBits, 16))
  {
    hide Shr, Shl, HighBit, Pow2;
    var h := HighBit(n - 1);
    var m := L - h;
    ManyBounds(n, L, h);
    var plus := Shl(n, m);
    Pow2Twelve(L);
    if x >= plus {
      ShiftSixteen(x + tt.deltaNbBits, m);
      ShrCompare(x, n, m);
      ShrBounds(x, m, L);
    } else {
      ShiftSixteen(x + tt.deltaNbBits, m - 1);
      ShrCompare(x, 2 * n, m - 1);
      ShlOnce(n, m - 1);
      ShrBounds(x, m - 1, L);
    }
  }

  lemma {:induction false} ShlOnce(n: nat, m: nat)
    ensures Shl(2 * n, m) == Shl(n, m + 1)
  {
    ShlDouble(n, m);
  }

  lemma {:induction false} ManyBounds(n: nat, L: nat, h: nat)
    requires 2 <= n <= Pow2(L) && h == HighBit(n - 1)
    ensures h < L && Shl(n, L - h) <= Pow2(L + 1)
    ensures Pow2(h) <= n - 1 && n <= Pow2(h + 1) == 2 * Pow2(h)
  {
    if h >= L { Pow2Mono(L, h); }
    ShlMono(n, Pow2(h + 1), L - h);
    ShlMul(Pow2(h + 1), L - h);
    Pow2Add(h + 1, L - h);
  }

  /** What the transform of a symbol does to any state: it sends the bits that bring the
      state into the symbol's range, and the rest selects one of the symbol's cells. */
  lemma {:induction false} TransformWorks(norm: seq<int>, L: nat, spread: seq<byte>, ct: CTable, s: nat, x: nat)
    requires IsCTable(norm, L, spread, ct) && s < |norm| && norm[s] != 0 && IsState(L, x)
    ensures x + ct.symbolTT[s].deltaNbBits >= 0 && ct.symbolTT[s].deltaNbBits >= 0
    ensures BitsOut(ct, x, s) <= L
    ensures Brings(Weight(norm[s]), x, BitsOut(ct, x, s))
    ensures ct.symbolTT[s].deltaFindState == Start(norm, s) - Weight(norm[s])
    ensures Shr(x, BitsOut(ct, x, s)) + ct.symbolTT[s].deltaFindState >= 0
  {
    hide Shr, Shl, HighBit, Pow2, IsSpread, Start, PosSum, LowCount;
    var tt := ct.symbolTT[s];
    assert IsTransform(norm[s], L, Start(norm, s), tt);
    if norm[s] == -1 || norm[s] == 1 {
      TransformOne(norm[s], L, Start(norm, s), tt, x);
    } else {
      ShareFits(norm, L, s);
      TransformMany(norm[s], L, Start(norm, s), tt, x);
    }
  }

  /** `FSE_encodeSymbol`: the state after a symbol. */
  function EncodeStep(ct: CTable, x: nat, s: nat): nat
    requires s < |ct.symbolTT| && x + ct.symbolTT[s].deltaNbBits >= 0
    requires 0 <= Shr(x, BitsOut(ct, x, s)) + ct.symbolTT[s].deltaFindState < |ct.stateTable|
  {
    ct.stateTable[Shr(x, BitsOut(ct, x, s)) + ct.symbolTT[s].deltaFindState]
  }

  /** The cell that a symbol and a quotient in its range lead to. */
  lemma {:induction false} CellOf(norm: seq<int>, L: nat, spread: seq<byte>, ct: CTable, s: nat, y: nat) returns (u: nat)
    requires IsCTable(norm, L, spread, ct) && s < |norm| && norm[s] != 0
    requires Weight(norm[s]) <= y < 2 * Weight(norm[s])
    ensures u < |spread| && spread[u] == s && NextState(norm, spread, u) == y
    ensures 0 <= y + Start(norm, s) - Weight(norm[s]) < |ct.stateTable|
    ensures ct.stateTable[y + Start(norm, s) - Weight(norm[s])] == Pow2(L) + u
  {
    hide Count, Pow2, IsTransform, PosSum, LowCount, Start, LowLaid, Filled;
    SpreadCounts(norm, L, spread, s);
    u := NthCell(spread, s, y - Weight(norm[s]));
    assert Slot(norm, spread, u) == y + Start(norm, s) - Weight(norm[s]);
  }

  /** Encoding a symbol from any state stays in range, and the decoding cell of the new
      state gives back the symbol, the number of bits and the old state. */
  lemma {:induction false} StepInverse(norm: seq<int>, L: nat, spread: seq<byte>, ct: CTable, dt: DTable, s: nat, x: nat)
    requires IsCTable(norm, L, spread, ct) && IsDTable(norm, L, spread, dt)
    requires s < |norm| && norm[s] != 0 && IsState(L, x)
    ensures x + ct.symbolTT[s].deltaNbBits >= 0
    ensures 0 <= Shr(x, BitsOut(ct, x, s)) + ct.symbolTT[s].deltaFindState < |ct.stateTable|
    ensures BitsOut(ct, x, s) <= L
    ensures IsState(L, EncodeStep(ct, x, s))
    ensures var nb := BitsOut(ct, x, s);
            var cell := dt.cells[EncodeStep(ct, x, s) - Pow2(L)];
            cell.symbol == s && cell.nbBits == nb && Pow2(L) + cell.newState + Mask(x, nb) == x
  {
    hide Shr, Shl, HighBit, Pow2, LowLaid, Filled, Start, PosSum, LowCount, Count, IsTransform, Mask, BitsOut;
    TransformWorks(norm, L, spread, ct, s, x);
    var nb := BitsOut(ct, x, s);
    var y := Shr(x, nb);
    var u := CellOf(norm, L, spread, ct, s, y);
    assert EncodeStep(ct, x, s) == Pow2(L) + u;
    assert IsCell(norm, L, spread, u, dt.cells[u]);
    Pow2Twelve(L);
    QuotientHighBit(L, x, nb);
    MaskShr(x, nb);
  }

  lemma {:induction false} QuotientHighBit(L: nat, x: nat, nb: nat)
    requires nb <= L && IsState(L, x)
    ensures Shr(x, nb) > 0 && HighBit(Shr(x, nb)) == L - nb
  {
    ShrBounds(x, nb, L);
    HighBitUnique(Shr(x, nb), L - nb);
  }

  /** `FSE_initCState2`: the number of bits the first symbol would have sent, and the
      state that it starts a stream with. */
  function InitBits(tt: SymbolTransform): nat
    requires tt.deltaNbBits >= 0
  {
    Shr(tt.deltaNbBits + 32768, 16)
  }

  function InitQuotient(tt: SymbolTransform): nat
    requires tt.deltaNbBits >= 0 && 65536 * InitBits(tt) - tt.deltaNbBits >= 0
  {
    Shr(65536 * InitBits(tt) - tt.deltaNbBits, InitBits(tt))
  }

  predicate CanInit(ct: CTable, s: nat) {
    && s < |ct.symbolTT|
    && ct.symbolTT[s].deltaNbBits >= 0
    && 65536 * InitBits(ct.symbolTT[s]) - ct.symbolTT[s].deltaNbBits >= 0
    && 0 <= InitQuotient(ct.symbolTT[s]) + ct.symbolTT[s].deltaFindState < |ct.stateTable|
  }

  function InitState(ct: CTable, s: nat): nat
    requires CanInit(ct, s)
  {
    ct.stateTable[InitQuotient(ct.symbolTT[s]) + ct.symbolTT[s].deltaFindState]
  }

  lemma {:induction false} InitTransform(n: int, L: nat, start: nat, tt: SymbolTransform)
    requires n >= -1 && n != 0 && n <= Pow2(L) && 5 <= L <= 12 && IsTransform(n, L, start, tt)
    ensures tt.deltaNbBits >= 0 && 65536 * InitBits(tt) - tt.deltaNbBits >= 0
    ensures InitQuotient(tt) == Weight(n)
    ensures tt.deltaFindState == start - Weight(n)
  {
    hide Shr, Shl, HighBit, Pow2;
    Pow2Twelve(L);
    if n == -1 || n == 1 {
      ShiftSixteen(tt.deltaNbBits + 32768, L);
      PowerShifted(L);
    } else {
      var m := L - HighBit(n - 1);
      ManyBounds(n, L, HighBit(n - 1));
      ShiftSixteen(tt.deltaNbBits + 32768, m);
      ShiftedBack(n, m);
    }
  }

  lemma {:induction false} ShiftedBack(n: nat, m: nat)
    ensures Shr(Shl(n, m), m) == n
  {
    ShrUnique(0, n, m);
  }

  lemma {:induction false} PowerShifted(L: nat)
    ensures Shr(Pow2(L), L) == 1
  {
    ShlMul(1, L);
    ShiftedBack(1, L);
  }

  lemma {:induction false} CountedBefore(spread: seq<byte>, v: nat, u: nat)
    requires v < u <= |spread|
    ensures Count(spread[..u], spread[v]) >= 1
  {
    if v < u - 1 { CountedBefore(spread, v, u - 1); }
    assert spread[..u][..u - 1] == spread[..u - 1];
  }

  /** A stream starts in the first cell of its symbol, which asks for bits, unless that symbol has
      the whole table. */
  lemma {:induction false} InitWorks(norm: seq<int>, L: nat, spread: seq<byte>, ct: CTable, dt: DTable, s: nat)
    requires IsCTable(norm, L, spread, ct) && IsDTable(norm, L, spread, dt)
    requires s < |norm| && norm[s] != 0
    ensures CanInit(ct, s) && IsState(L, InitState(ct, s))
    ensures var cell := dt.cells[InitState(ct, s) - Pow2(L)];
            cell.symbol == s && (cell.nbBits >= 1 <==> Weight(norm[s]) < Pow2(L))
    ensures forall v: nat :: v < InitState(ct, s) - Pow2(L) ==> spread[v] != s
  {
    hide Shr, Shl, HighBit, Pow2, LowLaid, Filled, Start, PosSum, LowCount, Count, IsTransform, InitBits, InitQuotient;
    ShareFits(norm, L, s);
    InitTransform(norm[s], L, Start(norm, s), ct.symbolTT[s]);
    var u := CellOf(norm, L, spread, ct, s, Weight(norm[s]));
    assert IsCell(norm, L, spread, u, dt.cells[u]);
    forall v: nat | v < u ensures spread[v] != s { CountedBefore(spread, v, u); }
    Pow2Twelve(L);
    HighBitOfShare(Weight(norm[s]), L);
  }

  lemma {:induction false} HighBitOfShare(n: nat, L: nat)
    requires 0 < n <= Pow2(L)
    ensures HighBit(n) < L <==> n < Pow2(L)
  {
    if HighBit(n) < L { Pow2Mono(HighBit(n) + 1, L); }
    if HighBit(n) >= L { Pow2Mono(L, HighBit(n)); }
  }

  /** Every decoding cell asks for at most `L` bits and leads back into the table; in
      fast mode it asks for at least one. */
  lemma {:induction false} CellInRange(norm: seq<int>, L: nat, spread: seq<byte>, dt: DTable, u: nat)
    requires IsDTable(norm, L, spread, dt) && u < Pow2(L)
    ensures dt.cells[u].nbBits <= L
    ensures dt.cells[u].newState + Pow2(dt.cells[u].nbBits) <= Pow2(L)
    ensures dt.fastMode ==> dt.cells[u].nbBits >= 1
  {
    hide Shl, HighBit, Pow2, LowLaid, Filled, Start, PosSum, LowCount, Count;
    CellFacts(norm, L, spread, u);
    assert IsCell(norm, L, spread, u, dt.cells[u]);
    var x := NextState(norm, spread, u);
    var s := spread[u];
    ShareFits(norm, L, s);
    Pow2Twice(L);
    CellShift(x, L);
    if dt.fastMode {
      Pow2Twice(L - 1);
      FastShare(L);
      assert norm[s] < Pow2(L - 1);
      HighBitOfShare(x, L);
    }
  }

  lemma {:induction false} FastShare(L: nat)
    requires L >= 5
    ensures Pow2(L - 1) > 1
  {
  }

  lemma {:induction false} Pow2Twice(n: nat)
    ensures Pow2(n + 1) == 2 * Pow2(n)
  {
  }

  lemma {:induction false} CellShift(x: nat, L: nat)
    requires 0 < x < Pow2(L + 1) && HighBit(x) <= L
    ensures var nb := L - HighBit(x);
            Pow2(L) <= Shl(x, nb) && Shl(x, nb) + Pow2(nb) <= Pow2(L + 1)
  {
    hide Shl, Pow2, HighBit;
    var h := HighBit(x);
    ShlMono(Pow2(h), x, L - h);
    ShlMono(x, Pow2(h + 1), L - h);
    ShlMul(Pow2(h), L - h);
    ShlMul(Pow2(h + 1), L - h);
    Pow2Add(h, L - h);
    Pow2Add(h + 1, L - h);
  }

  // ---------- building the tables ----------

  method CumulativeStarts(norm: seq<int>, L: nat) returns (cumul: array<nat>)
    requires IsNorm(norm)
    ensures fresh(cumul) && cumul.Length == |norm| + 1
    ensures cumul[|norm|] == Pow2(L) + 1 && forall s :: 0 <= s < |norm| ==> cumul[s] == Start(norm, s)
  {
    hide Start, Pow2;
    cumul := new nat[|norm| + 1];
    cumul[0] := 0;
    StartZero(norm);
    for u := 1 to |norm| + 1
      invariant forall s :: 0 <= s < u ==> cumul[s] == Start(norm, s)
    {
      StartNext(norm, u - 1);
      if norm[u - 1] == -1 {
        cumul[u] := cumul[u - 1] + 1;
      } else {
        cumul[u] := cumul[u - 1] + norm[u - 1];
      }
    }
    cumul[|norm|] := Pow2(L) + 1;
  }

  /** The state table loop: cells sorted by symbol. */
  method SortStates(norm: seq<int>, L: nat, spread: seq<byte>, cumul: array<nat>) returns (tableU16: array<nat>)
    requires SharesOut(norm, L) && IsSpread(norm, L, spread)
    requires cumul.Length == |norm| + 1
    requires forall s :: 0 <= s < |norm| ==> cumul[s] == Start(norm, s)
    modifies cumul
    ensures fresh(tableU16) && tableU16.Length == Pow2(L)
    ensures forall u :: 0 <= u < |spread| ==>
              spread[u] < |norm| && Slot(norm, spread, u) < Pow2(L)
              && tableU16[Slot(norm, spread, u)] == Pow2(L) + u
  {
    hide Pow2, Start, Count, LowLaid, Filled, PosSum, LowCount;
    tableU16 := new nat[Pow2(L)];
    forall s: nat ensures Count(spread[..0], s) == 0 { CountEmpty(spread[..0], s); }
    for u := 0 to |spread|
      invariant forall s :: 0 <= s < |norm| ==> cumul[s] == Start(norm, s) + Count(spread[..u], s)
      invariant forall v :: 0 <= v < u ==>
                  spread[v] < |norm| && Slot(norm, spread, v) < Pow2(L)
                  && tableU16[Slot(norm, spread, v)] == Pow2(L) + v
    {
      var s := spread[u];
      CellFacts(norm, L, spread, u);
      forall v | 0 <= v < u ensures spread[v] < |norm| && Slot(norm, spread, v) != Slot(norm, spread, u) {
        SlotsDiffer(norm, L, spread, v, u);
      }
      tableU16[cumul[s]] := Pow2(L) + u;
      cumul[s] := cumul[s] + 1;
      forall t: nat ensures Count(spread[..u + 1], t) == Count(spread[..u], t) + if s == t then 1 else 0 {
        CountNext(spread, u, t);
      }
    }
  }

  method SymbolTransforms(norm: seq<int>, L: nat) returns (symbolTT: array<SymbolTransform>)
    requires SharesOut(norm, L)
    ensures fresh(symbolTT) && symbolTT.Length == |norm|
    ensures forall s :: 0 <= s < |norm| && norm[s] != 0 ==> IsTransform(norm[s], L, Start(norm, s), symbolTT[s])
  {
    hide Pow2, Start, HighBit, Shl, PosSum, LowCount;
    symbolTT := new SymbolTransform[|norm|](_ => SymbolTransform(0, 0));
    var total := 0;
    StartZero(norm);
    for s := 0 to |norm|
      invariant total == Start(norm, s)
      invariant forall t :: 0 <= t < s && norm[t] != 0 ==> IsTransform(norm[t], L, Start(norm, t), symbolTT[t])
    {
      StartNext(norm, s);
      if norm[s] == -1 || norm[s] == 1 {
        symbolTT[s] := SymbolTransform(total - 1, 65536 * L - Pow2(L));
        total := total + 1;
      } else if norm[s] != 0 {
        ShareFits(norm, L, s);
        ManyBounds(norm[s], L, HighBit(norm[s] - 1));
        var maxBitsOut := L - HighBit(norm[s] - 1);
        var minStatePlus := Shl(norm[s], maxBitsOut);
        symbolTT[s] := SymbolTransform(total - norm[s], 65536 * maxBitsOut - minStatePlus);
        total := total + norm[s];
      }
    }
  }

  /** `FSE_buildCTable_wksp`: an encoding table for norms of the right total. A wrong total is
      refused unless it is a whole number of rounds. */
  method BuildCTable(norm: seq<int>, L: nat, wkspSize: nat) returns (r: Result<CTable>, ghost spread: seq<byte>)
    requires MIN_TABLELOG <= L <= MAX_TABLELOG && Checkable(norm, L)
    ensures r == Failed(TableLogTooLarge) <==> wkspSize < Pow2(L)
    ensures r == Failed(Generic) <==> wkspSize >= Pow2(L) && !WholeRounds(norm, L)
    ensures r.Built? <==> wkspSize >= Pow2(L) && PosSum(norm) + LowCount(norm) == Pow2(L)
    ensures r.Built? ==> IsCTable(norm, L, spread, r.table)
    ensures r == Unsound <==> wkspSize >= Pow2(L) && WholeRounds(norm, L) && PosSum(norm) + LowCount(norm) != Pow2(L)
  {
    hide Pow2, PosSum, LowCount, IsSpread, Start, WholeRounds, IsTransform;
    spread := [];
    if Pow2(L) > wkspSize { return Failed(TableLogTooLarge), spread; }
    var tableSymbol := new byte[Pow2(L)];
    var ok := SpreadSymbols(norm, L, tableSymbol);
    if !ok { return Failed(Generic), spread; }
    if PosSum(norm) + LowCount(norm) != Pow2(L) { return Unsound, spread; }
    spread := tableSymbol[..];
    var cumul := CumulativeStarts(norm, L);
    var tableU16 := SortStates(norm, L, tableSymbol[..], cumul);
    var symbolTT := SymbolTransforms(norm, L);
    r := Built(CTable(L, tableU16[..], symbolTT[..]));
  }

  /** Symbol counters of the decoder, and whether every share stays below half. */
  method FirstStates(norm: seq<int>, L: nat) returns (symbolNext: array<nat>, fastMode: bool)
    requires IsNorm(norm) && L >= 1
    ensures fresh(symbolNext) && symbolNext.Length == |norm|
    ensures forall s :: 0 <= s < |norm| ==> symbolNext[s] == Weight(norm[s])
    ensures fastMode <==> forall s :: 0 <= s < |norm| ==> norm[s] < Pow2(L - 1)
  {
    hide Pow2;
    symbolNext := new nat[|norm|];
    fastMode := true;
    for s := 0 to |norm|
      invariant forall t :: 0 <= t < s ==> symbolNext[t] == Weight(norm[t])
      invariant fastMode <==> forall t :: 0 <= t < s ==> norm[t] < Pow2(L - 1)
    {
      if norm[s] == -1 {
        symbolNext[s] := 1;
      } else {
        if norm[s] >= Pow2(L - 1) { fastMode := false; }
        symbolNext[s] := norm[s];
      }
    }
  }

  /** The decoding table loop. */
  method FillCells(norm: seq<int>, L: nat, spread: seq<byte>, symbolNext: array<nat>) returns (cells: array<DCell>)
    requires SharesOut(norm, L) && IsSpread(norm, L, spread)
    requires symbolNext.Length == |norm|
    requires forall s :: 0 <= s < |norm| ==> symbolNext[s] == Weight(norm[s])
    modifies symbolNext
    ensures fresh(cells) && cells.Length == Pow2(L)
    ensures forall u :: 0 <= u < |spread| ==> spread[u] < |norm| && IsCell(norm, L, spread, u, cells[u])
  {
    hide Pow2, Start, Count, LowLaid, Filled, PosSum, LowCount, HighBit, Shl;
    cells := new DCell[Pow2(L)](_ => DCell(0, 0, 0));
    forall s: nat ensures Count(spread[..0], s) == 0 { CountEmpty(spread[..0], s); }
    for u := 0 to |spread|
      invariant forall s :: 0 <= s < |norm| ==> symbolNext[s] == Weight(norm[s]) + Count(spread[..u], s)
      invariant forall v :: 0 <= v < u ==> spread[v] < |norm| && IsCell(norm, L, spread, v, cells[v])
    {
      var symbol := spread[u];
      CellFacts(norm, L, spread, u);
      ShareFits(norm, L, symbol);
      var nextState := symbolNext[symbol];
      symbolNext[symbol] := nextState + 1;
      NextStateHighBit(nextState, L);
      CellShift(nextState, L);
      var nbBits := L - HighBit(nextState);
      cells[u] := DCell(Shl(nextState, nbBits) - Pow2(L), symbol, nbBits);
      forall t: nat ensures Count(spread[..u + 1], t) == Count(spread[..u], t) + if symbol == t then 1 else 0 {
        CountNext(spread, u, t);
      }
    }
  }

  lemma {:induction false} NextStateHighBit(x: nat, L: nat)
    requires 0 < x < 2 * Pow2(L)
    ensures x < Pow2(L + 1) && HighBit(x) <= L
  {
    if HighBit(x) > L { Pow2Mono(L + 1, HighBit(x)); }
  }

  /** `FSE_buildDTable`: a decoding table for norms of the right total, with the same closing
      test. */
  method BuildDTable(norm: seq<int>, maxSymbolValue: nat, L: nat) returns (r: Result<DTable>, ghost spread: seq<byte>)
    requires |norm| == maxSymbolValue + 1
    requires MIN_TABLELOG <= L
    requires maxSymbolValue <= MAX_SYMBOL_VALUE && L <= MAX_TABLELOG ==> Checkable(norm, L)
    ensures r == Failed(MaxSymbolValueTooLarge) <==> maxSymbolValue > MAX_SYMBOL_VALUE
    ensures r == Failed(TableLogTooLarge) <==> maxSymbolValue <= MAX_SYMBOL_VALUE && L > MAX_TABLELOG
    ensures r == Failed(Generic) <==> maxSymbolValue <= MAX_SYMBOL_VALUE && L <= MAX_TABLELOG && !WholeRounds(norm, L)
    ensures r.Built? <==>
              maxSymbolValue <= MAX_SYMBOL_VALUE && L <= MAX_TABLELOG && PosSum(norm) + LowCount(norm) == Pow2(L)
    ensures r.Built? ==> IsDTable(norm, L, spread, r.table)
    ensures r == Unsound <==>
              && maxSymbolValue <= MAX_SYMBOL_VALUE && L <= MAX_TABLELOG
              && WholeRounds(norm, L) && PosSum(norm) + LowCount(norm) != Pow2(L)
  {
    hide Pow2, PosSum, LowCount, IsSpread, Start, WholeRounds, IsCell;
    spread := [];
    if maxSymbolValue > MAX_SYMBOL_VALUE { return Failed(MaxSymbolValueTooLarge), spread; }
    if L > MAX_TABLELOG { return Failed(TableLogTooLarge), spread; }
    var symbolNext, fastMode := FirstStates(norm, L);
    var symbols := new byte[Pow2(L)];
    var ok := SpreadSymbols(norm, L, symbols);
    if !ok { return Failed(Generic), spread; }
    if PosSum(norm) + LowCount(norm) != Pow2(L) { return Unsound, spread; }
    spread := symbols[..];
    var cells := FillCells(norm, L, symbols[..], symbolNext);
    r := Built(DTable(L, fastMode, cells[..]));
  }
}
