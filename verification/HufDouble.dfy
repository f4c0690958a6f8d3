/** The double-symbol decoding table (`HUF_readDTableX4`): each cell holds the one or two
    symbols that stepping through the single-symbol table would give. */
module HufDouble {
  import opened Bits
  import opened HufTable

  // ---------- what the table should hold ----------

  /** One or two symbols, the first in the low byte. */
  datatype DoubleEntry = DoubleEntry(sequence: nat, nbBits: nat, length: nat)

  /** Up to two steps through a single-symbol table of depth `log`, within `target` bits. */
  function Greedy(x2: seq<Entry>, log: nat, target: nat, i: nat): (r: DoubleEntry)
    requires |x2| == Pow2(log) && log <= target && i < Pow2(target)
  {
    IndexFits(i, log, target);
    var first := x2[Shr(i, target - log)];
    var rest := Mask(Shl(i, first.nbBits), target);
    MaskShr(Shl(i, first.nbBits), target);
    IndexFits(rest, log, target);
    var second := x2[Shr(rest, target - log)];
    if first.nbBits + second.nbBits <= target
    then DoubleEntry(first.symbol + 256 * second.symbol, first.nbBits + second.nbBits, 2)
    else DoubleEntry(first.symbol, first.nbBits, 1)
  }

  lemma {:induction false} IndexFits(i: nat, log: nat, target: nat)
    requires log <= target && i < Pow2(target)
    ensures Shr(i, target - log) < Pow2(log)
  {
    hide Shr;
    var k := target - log;
    ShrCompare(i, Pow2(log), k);
    ShlMul(Pow2(log), k);
    Pow2Add(log, k);
  }

  // ---------- the order of the symbols ----------

  /** The symbols by weight and then by number; `rs[w]` is where weight `w` starts. */
  ghost predicate IsOrder(order: seq<nat>, ws: seq<nat>, rs: seq<nat>, maxW: nat) {
    && |rs| == maxW + 2 && rs[1] == 0 && |order| == rs[maxW + 1]
    && (forall w :: 1 <= w <= maxW ==> rs[w + 1] == rs[w] + Num(ws, w))
    && (forall w, p :: 1 <= w <= maxW && rs[w] <= p < rs[w + 1] ==> IsPlace(order, ws, p, w, rs[w]))
  }

  ghost predicate IsPlace(order: seq<nat>, ws: seq<nat>, p: nat, w: nat, from: nat) {
    from <= p < |order| && order[p] < |ws| && ws[order[p]] == w && Num(ws[..order[p]], w) == p - from
  }

  lemma {:induction false} StartsAscend(order: seq<nat>, ws: seq<nat>, rs: seq<nat>, maxW: nat, v: nat, w: nat)
    requires IsOrder(order, ws, rs, maxW) && 1 <= v <= w <= maxW + 1
    ensures rs[v] <= rs[w]
    ensures rs[v] == rs[w] ==> Below(ws, v) == Below(ws, w)
    decreases w
  {
    hide Num, IsPlace;
    if v < w {
      StartsAscend(order, ws, rs, maxW, v, w - 1);
      BelowStep(ws, w - 1);
      if rs[v] == rs[w] { ShlZero(w - 2); }
    }
  }

  /** The weight at a place. */
  lemma {:induction false} WeightAt(order: seq<nat>, ws: seq<nat>, rs: seq<nat>, maxW: nat, p: nat, top: nat) returns (w: nat)
    requires IsOrder(order, ws, rs, maxW) && 1 <= top <= maxW + 1 && p < rs[top]
    ensures 1 <= w < top && rs[w] <= p < rs[w + 1] && IsPlace(order, ws, p, w, rs[w])
    decreases top
  {
    hide Num, IsPlace;
    if p >= rs[top - 1] {
      w := top - 1;
    } else {
      w := WeightAt(order, ws, rs, maxW, p, top - 1);
    }
  }

  /** The cells before place `p`. */
  ghost function Position(order: seq<nat>, ws: seq<nat>, maxW: nat, p: nat): nat
    requires p <= |order|
  {
    if p < |order| && order[p] < |ws| && ws[order[p]] >= 1 then Start(ws, order[p]) else Below(ws, maxW + 1)
  }

  lemma {:induction false} PositionIs(order: seq<nat>, ws: seq<nat>, rs: seq<nat>, maxW: nat, w: nat, p: nat)
    requires IsOrder(order, ws, rs, maxW) && 1 <= w <= maxW && rs[w] <= p < rs[w + 1]
    ensures p < |order| && IsPlace(order, ws, p, w, rs[w])
    ensures Position(order, ws, maxW, p) == Start(ws, order[p]) == Below(ws, w) + Shl(p - rs[w], w - 1)
  {
    hide Num, Below, Shl;
    assert IsPlace(order, ws, p, w, rs[w]);
  }

  lemma {:induction false} PositionAtRank(order: seq<nat>, ws: seq<nat>, rs: seq<nat>, maxW: nat, w: nat)
    requires IsOrder(order, ws, rs, maxW) && 1 <= w <= maxW + 1
    ensures rs[w] <= |order| && Position(order, ws, maxW, rs[w]) == Below(ws, w)
  {
    hide Num, Below, Shl, Start, IsPlace, IsOrder;
    OrderRange(order, ws, rs, maxW);
    StartsAscend(order, ws, rs, maxW, w, maxW + 1);
    if rs[w] < |order| {
      var v := WeightAt(order, ws, rs, maxW, rs[w], maxW + 1);
      if v < w { StartsAscend(order, ws, rs, maxW, v + 1, w); }
      StartsAscend(order, ws, rs, maxW, w, v);
      PositionIs(order, ws, rs, maxW, v, rs[w]);
      ShlZero(v - 1);
    }
  }

  lemma {:induction false} OrderRange(order: seq<nat>, ws: seq<nat>, rs: seq<nat>, maxW: nat)
    requires IsOrder(order, ws, rs, maxW)
    ensures |rs| == maxW + 2 && |order| == rs[maxW + 1] && rs[1] == 0
  {
  }

  /** Places follow each other without a gap. */
  lemma {:induction false} PositionStep(order: seq<nat>, ws: seq<nat>, rs: seq<nat>, maxW: nat, w: nat, p: nat)
    requires IsOrder(order, ws, rs, maxW) && 1 <= w <= maxW && rs[w] <= p < rs[w + 1]
    ensures p < |order| && Position(order, ws, maxW, p + 1) == Position(order, ws, maxW, p) + Pow2(w - 1)
  {
    hide Num, Below, Shl, Start, Position, IsOrder;
    OrderRange(order, ws, rs, maxW);
    PositionIs(order, ws, rs, maxW, w, p);
    ShlPlus(p - rs[w], 1, w - 1);
    ShlOne(w - 1);
    if p + 1 < rs[w + 1] {
      PositionIs(order, ws, rs, maxW, w, p + 1);
    } else {
      PositionAtRank(order, ws, rs, maxW, w + 1);
      RankCells(order, ws, rs, maxW, w);
    }
  }

  lemma {:induction false} RankCells(order: seq<nat>, ws: seq<nat>, rs: seq<nat>, maxW: nat, w: nat)
    requires IsOrder(order, ws, rs, maxW) && 1 <= w <= maxW
    ensures rs[w] <= rs[w + 1] && Below(ws, w + 1) == Below(ws, w) + Shl(rs[w + 1] - rs[w], w - 1)
  {
    hide Num, Below, Shl, IsPlace;
    BelowStep(ws, w);
  }

  // ---------- what the cells of a symbol should hold ----------

  lemma {:induction false} ShlPow(a: nat, n: nat)
    ensures Shl(Pow2(a), n) == Pow2(a + n)
  {
    ShlMul(Pow2(a), n);
    Pow2Add(a, n);
  }

  /** Starts are multiples of the symbol's cells. */
  lemma {:induction false} StartMultiple(ws: seq<nat>, log: nat, s: nat) returns (c: nat)
    requires IsWeights(ws, log) && s < |ws| && ws[s] >= 1
    ensures Start(ws, s) == Shl(c, ws[s] - 1)
  {
    hide Shl, Num;
    var x := BelowMultiple(ws, log, ws[s]);
    c := x + Num(ws[..s], ws[s]);
    ShlPlus(x, Num(ws[..s], ws[s]), ws[s] - 1);
  }

  /** Indices of symbol `s` in the widened table: the first step finds `s`, and shifting its
      bits out leaves the index inside the range. */
  lemma {:induction false} FirstStep(x2: seq<Entry>, ws: seq<nat>, log: nat, target: nat, s: nat, j: nat)
    requires IsTable(x2, ws, log) && log <= target && s < |ws| && ws[s] >= 1
    requires j < Pow2(target - log + ws[s] - 1)
    ensures ws[s] <= log
    ensures var i := Shl(Start(ws, s), target - log) + j;
      && Shr(i, target - log) < Pow2(log) && x2[Shr(i, target - log)] == Entry(s, log + 1 - ws[s])
      && Mask(Shl(i, log + 1 - ws[s]), target) == Shl(j, log + 1 - ws[s]) && i < Pow2(target)
  {
    hide Shl, Shr, Mask, Start, Below, Pow2, Num;
    var k, w := target - log, ws[s];
    var b := log + 1 - w;
    var a := Shl(Start(ws, s), k);
    var i := a + j;
    ShrCompare(i, Start(ws, s), k);
    ShrCompare(i, Start(ws, s) + Cells(w), k);
    ShlPlus(Start(ws, s), Cells(w), k);
    ShlPow(w - 1, k);
    assert HoldsSymbol(x2, ws, log, s);
    RangeInTable(ws, log, s);
    ShlMono(Start(ws, s) + Cells(w), Pow2(log), k);
    ShlPow(log, k);
    ShiftOut(ws, log, target, s, j);
  }

  lemma {:induction false} ShiftOut(ws: seq<nat>, log: nat, target: nat, s: nat, j: nat)
    requires IsWeights(ws, log) && log <= target && s < |ws| && 1 <= ws[s] <= log
    requires j < Pow2(target - log + ws[s] - 1)
    ensures Mask(Shl(Shl(Start(ws, s), target - log) + j, log + 1 - ws[s]), target) == Shl(j, log + 1 - ws[s])
  {
    hide Shl, Mask, Start, Below, Pow2, Num;
    var k, w := target - log, ws[s];
    var b := log + 1 - w;
    var a := Shl(Start(ws, s), k);
    var c := StartMultiple(ws, log, s);
    ShlAdd(c, w - 1, k);
    ShlAdd(c, w - 1 + k, b);
    ShlPlus(a, j, b);
    ShlMono(j, Pow2(k + w - 1), b);
    ShlPow(k + w - 1, b);
    ShrUnique(Shl(j, b), c, target);
  }

  /** What one index of symbol `s` should hold, by what follows its bits. */
  lemma {:induction false} GreedyAt(x2: seq<Entry>, ws: seq<nat>, log: nat, target: nat, s: nat, j: nat)
    requires IsTable(x2, ws, log) && log <= target && s < |ws| && ws[s] >= 1
    requires j < Pow2(target - log + ws[s] - 1)
    ensures ws[s] <= log
    ensures var i := Shl(Start(ws, s), target - log) + j; var b := log + 1 - ws[s];
      && i < Pow2(target) && Shr(Shl(j, b), target - log) < Pow2(log)
      && var second := x2[Shr(Shl(j, b), target - log)];
         Greedy(x2, log, target, i)
         == if b + second.nbBits <= target then DoubleEntry(s + 256 * second.symbol, b + second.nbBits, 2)
            else DoubleEntry(s, b, 1)
  {
    hide Shl, Shr, Mask, Start, Below, Pow2, Num;
    FirstStep(x2, ws, log, target, s, j);
    var b := log + 1 - ws[s];
    MaskShr(Shl(Shl(Start(ws, s), target - log) + j, b), target);
    IndexFits(Shl(j, b), log, target);
  }

  /** After `b` bits, the indices from `q` on belong to a symbol that still fits. */
  lemma {:induction false} SecondFound(x2: seq<Entry>, ws: seq<nat>, log: nat, target: nat, b: nat, s: nat, q: nat, j: nat)
    requires IsTable(x2, ws, log) && log <= target && s < |ws| && ws[s] >= 1
    requires b <= target - log + ws[s] - 1 && Shl(q, b) == Shl(Start(ws, s), target - log)
    requires q <= j < q + Pow2(target - log + ws[s] - 1 - b)
    ensures ws[s] <= log && Shr(Shl(j, b), target - log) < Pow2(log)
    ensures x2[Shr(Shl(j, b), target - log)] == Entry(s, log + 1 - ws[s])
  {
    hide Shl, Shr, Start, Below, Pow2, Num;
    var k, w := target - log, ws[s];
    var v := Shl(j, b);
    ShlMono(q, j, b);
    ShlMono(j, q + Pow2(k + w - 1 - b), b);
    ShlPlus(q, Pow2(k + w - 1 - b), b);
    ShlPow(k + w - 1 - b, b);
    ShrCompare(v, Start(ws, s), k);
    ShrCompare(v, Start(ws, s) + Cells(w), k);
    ShlPlus(Start(ws, s), Cells(w), k);
    ShlPow(w - 1, k);
    assert HoldsSymbol(x2, ws, log, s);
    RangeInTable(ws, log, s);
  }

  /** After `b` bits, the indices before rank `w` belong to lighter symbols. */
  lemma {:induction false} SecondSkipped(x2: seq<Entry>, ws: seq<nat>, log: nat, target: nat, b: nat, w: nat, q: nat, j: nat)
    requires IsTable(x2, ws, log) && log <= target && 1 <= w <= log + 1
    requires Shl(q, b) == Shl(Below(ws, w), target - log) && j < q
    ensures Shr(Shl(j, b), target - log) < Pow2(log)
    ensures x2[Shr(Shl(j, b), target - log)].nbBits > log + 1 - w
  {
    hide Shl, Shr, Start, Below, Pow2, Num;
    var k := target - log;
    var v := Shl(j, b);
    ShlMono(j, q, b);
    ShrCompare(v, Below(ws, w), k);
    var u := Shr(v, k);
    BelowMono(ws, w, log + 1);
    var t := OwnerExists(ws, w, u);
    var t' := TableLookup(x2, ws, log, u);
    OwnerUnique(ws, t, t', u);
  }

  /** Shifting a rank start right is exact for the ranks that still fit. */
  lemma {:induction false} ShiftExact(ws: seq<nat>, log: nat, k: nat, b: nat, w: nat)
    requires IsWeights(ws, log) && 1 <= w <= log + 1 && b <= w - 1 + k
    ensures Shl(Shr(Shl(Below(ws, w), k), b), b) == Shl(Below(ws, w), k)
  {
    hide Shl, Shr, Below, Pow2, Num, IsWeights;
    var x := BelowMultiple(ws, log, w);
    ShlAdd(x, w - 1, k);
    var y := Shl(x, w - 1 + k - b);
    ShlAdd(x, w - 1 + k - b, b);
    ShrUnique(0, y, b);
  }

  // ---------- rank values while filling ----------

  /** How many symbols of weight `w` come before place `p`. */
  ghost function Done(rs: seq<nat>, p: nat, w: nat): nat
    requires 1 <= w && w + 1 < |rs|
  {
    if p < rs[w] || rs[w + 1] < rs[w] then 0 else if p < rs[w + 1] then p - rs[w] else rs[w + 1] - rs[w]
  }

  /** `rankVal[w]`, `b` bits into the index, is where the next symbol of weight `w` goes. */
  ghost predicate NextCells(rankVal: seq<nat>, ws: seq<nat>, rs: seq<nat>, p: nat, k: nat, b: nat, minW: nat, maxW: nat) {
    && |rs| == maxW + 2 && |rankVal| > maxW && minW >= 1
    && forall w :: minW <= w <= maxW ==> Shl(rankVal[w], b) == Shl(Below(ws, w) + Shl(Done(rs, p, w), w - 1), k)
  }

  lemma {:induction false} NextCellsStep(rankVal: seq<nat>, order: seq<nat>, ws: seq<nat>, rs: seq<nat>, p: nat, k: nat, b: nat, minW: nat, maxW: nat, w: nat)
    requires IsOrder(order, ws, rs, maxW) && NextCells(rankVal, ws, rs, p, k, b, minW, maxW)
    requires minW <= w <= maxW && rs[w] <= p < rs[w + 1] && b <= w - 1 + k
    ensures p < |order| && Shl(rankVal[w], b) == Shl(Position(order, ws, maxW, p), k)
    ensures NextCells(rankVal[w := rankVal[w] + Pow2(w - 1 + k - b)], ws, rs, p + 1, k, b, minW, maxW)
  {
    hide Shl, Below, Pow2, Num, Position, IsOrder;
    OrderRange(order, ws, rs, maxW);
    PositionIs(order, ws, rs, maxW, w, p);
    var next := rankVal[w := rankVal[w] + Pow2(w - 1 + k - b)];
    forall v | minW <= v <= maxW ensures Shl(next[v], b) == Shl(Below(ws, v) + Shl(Done(rs, p + 1, v), v - 1), k) {
      if v == w {
        ShlPlus(rankVal[w], Pow2(w - 1 + k - b), b);
        ShlPow(w - 1 + k - b, b);
        OneMoreCell(Below(ws, w), p - rs[w], w - 1, k);
      } else if v < w {
        StartsAscend(order, ws, rs, maxW, v + 1, w);
      } else {
        StartsAscend(order, ws, rs, maxW, w + 1, v);
        RankCells(order, ws, rs, maxW, v);
      }
    }
  }

  lemma {:induction false} OneMoreCell(x: nat, m: nat, a: nat, k: nat)
    ensures Shl(x + Shl(m + 1, a), k) == Shl(x + Shl(m, a), k) + Pow2(a + k)
  {
    hide Shl, Pow2;
    ShlPlus(m, 1, a);
    ShlOne(a);
    ShlPlus(x + Shl(m, a), Pow2(a), k);
    ShlPow(a, k);
  }

  // ---------- filling ----------

  method FillCells(dt: array<DoubleEntry>, from: nat, length: nat, e: DoubleEntry)
    requires from + length <= dt.Length
    modifies dt
    ensures dt[..from] == old(dt[..from])
    ensures forall u :: from <= u < from + length ==> dt[u] == e
  {
    var u := from;
    while u < from + length
      invariant from <= u <= from + length
      invariant dt[..from] == old(dt[..from])
      invariant forall v :: from <= v < u ==> dt[v] == e
    {
      dt[u] := e;
      u := u + 1;
    }
  }

  /** The cells from `from` up to `to` hold what two greedy steps give. */
  ghost predicate Right(dt: seq<DoubleEntry>, x2: seq<Entry>, log: nat, target: nat, from: nat, to: nat) {
    && |x2| == Pow2(log) && log <= target && to <= |dt| && |dt| == Pow2(target)
    && forall i :: from <= i < to ==> dt[i] == Greedy(x2, log, target, i)
  }

  lemma {:induction false} RightMore(before: seq<DoubleEntry>, dt: seq<DoubleEntry>, x2: seq<Entry>, log: nat, target: nat, from: nat, mid: nat, to: nat)
    requires Right(before, x2, log, target, from, mid) && from <= mid <= to <= |dt| && |dt| == |before|
    requires dt[..mid] == before[..mid] && Right(dt, x2, log, target, mid, to)
    ensures Right(dt, x2, log, target, from, to)
  {
    hide Greedy;
    forall i | from <= i < to ensures dt[i] == Greedy(x2, log, target, i) {
      if i < mid { assert dt[i] == dt[..mid][i] == before[..mid][i]; }
    }
  }

  /** The setting of a second level: symbol `s` takes `b` bits, and lighter symbols than
      `minW` do not fit behind it. */
  ghost predicate Level(ws: seq<nat>, log: nat, target: nat, s: nat, b: nat, minW: nat, maxW: nat) {
    && log <= target && s < |ws| && 1 <= ws[s] <= log && b == log + 1 - ws[s]
    && 1 <= minW <= maxW <= log && b <= target - log + minW - 1
    && (minW > 1 ==> b + log + 1 - minW == target)
  }

  /** The skipped cells hold one symbol. */
  lemma {:induction false} SkippedRight(dt: seq<DoubleEntry>, x2: seq<Entry>, ws: seq<nat>, log: nat, target: nat, s: nat, b: nat, minW: nat, maxW: nat, q: nat)
    requires IsTable(x2, ws, log) && Level(ws, log, target, s, b, minW, maxW) && |dt| == Pow2(target)
    requires Shl(q, b) == Shl(Below(ws, minW), target - log) && minW > 1 && q <= Pow2(target - b)
    requires var start := Shl(Start(ws, s), target - log);
      start + Pow2(target - b) <= |dt| && forall u :: start <= u < start + q ==> dt[u] == DoubleEntry(s, b, 1)
    ensures var start := Shl(Start(ws, s), target - log); Right(dt, x2, log, target, start, start + q)
  {
    hide Shl, Shr, Start, Below, Pow2, Num, Greedy;
    var start := Shl(Start(ws, s), target - log);
    forall i | start <= i < start + q ensures dt[i] == Greedy(x2, log, target, i) {
      var j := i - start;
      GreedyAt(x2, ws, log, target, s, j);
      SecondSkipped(x2, ws, log, target, b, minW, q, j);
    }
  }

  /** The cells of a second symbol hold both. */
  lemma {:induction false} PairRight(dt: seq<DoubleEntry>, x2: seq<Entry>, ws: seq<nat>, log: nat, target: nat, s: nat, b: nat, minW: nat, maxW: nat, t: nat, q: nat)
    requires IsTable(x2, ws, log) && Level(ws, log, target, s, b, minW, maxW) && |dt| == Pow2(target)
    requires t < |ws| && minW <= ws[t] <= maxW && Shl(q, b) == Shl(Start(ws, t), target - log)
    requires var start := Shl(Start(ws, s), target - log); var n := Pow2(target - log + ws[t] - 1 - b);
      && q + n <= Pow2(target - b) && start + Pow2(target - b) <= |dt|
      && forall u :: start + q <= u < start + q + n ==> dt[u] == DoubleEntry(s + 256 * t, b + log + 1 - ws[t], 2)
    ensures var start := Shl(Start(ws, s), target - log); var n := Pow2(target - log + ws[t] - 1 - b);
      Right(dt, x2, log, target, start + q, start + q + n)
  {
    hide Shl, Shr, Start, Below, Pow2, Num, Greedy;
    var start := Shl(Start(ws, s), target - log);
    var n := Pow2(target - log + ws[t] - 1 - b);
    forall i | start + q <= i < start + q + n ensures dt[i] == Greedy(x2, log, target, i) {
      var j := i - start;
      GreedyAt(x2, ws, log, target, s, j);
      SecondFound(x2, ws, log, target, b, t, q, j);
    }
  }

  /** The cells of a symbol lie in the table. */
  lemma {:induction false} CellsFit(ws: seq<nat>, log: nat, target: nat, s: nat)
    requires IsWeights(ws, log) && log <= target && s < |ws| && ws[s] >= 1
    ensures Shl(Start(ws, s), target - log) + Pow2(target - log + ws[s] - 1) <= Pow2(target)
  {
    hide Shl, Start, Below, Pow2, Num;
    RangeInTable(ws, log, s);
    ShlMono(Start(ws, s) + Cells(ws[s]), Pow2(log), target - log);
    ShlPlus(Start(ws, s), Cells(ws[s]), target - log);
    ShlPow(ws[s] - 1, target - log);
    ShlPow(log, target - log);
  }

  /** And those of a second symbol in the cells of the first. */
  lemma {:induction false} PairFits(ws: seq<nat>, log: nat, target: nat, b: nat, t: nat, q: nat)
    requires IsWeights(ws, log) && log <= target && t < |ws| && ws[t] >= 1
    requires b <= target - log + ws[t] - 1 && Shl(q, b) == Shl(Start(ws, t), target - log) && b <= target
    ensures q + Pow2(target - log + ws[t] - 1 - b) <= Pow2(target - b)
  {
    hide Shl, Start, Below, Pow2, Num;
    var n := Pow2(target - log + ws[t] - 1 - b);
    CellsFit(ws, log, target, t);
    ShlPlus(q, n, b);
    ShlPow(target - log + ws[t] - 1 - b, b);
    ShlPow(target - b, b);
    if q + n > Pow2(target - b) {
      ShlMono(Pow2(target - b), q + n, b);
      PowPositive(b);
      assert false;
    }
  }

  lemma {:induction false} PowPositive(n: nat)
    ensures Pow2(n) >= 1
  {
  }

  /** Where a filled prefix of a second level ends. */
  ghost predicate Reached(order: seq<nat>, ws: seq<nat>, maxW: nat, p: nat, k: nat, b: nat, q: nat) {
    p <= |order| && Shl(q, b) == Shl(Position(order, ws, maxW, p), k)
  }

  lemma {:induction false} ReachedEnd(order: seq<nat>, ws: seq<nat>, rs: seq<nat>, log: nat, target: nat, maxW: nat, b: nat, q: nat)
    requires IsOrder(order, ws, rs, maxW) && Below(ws, maxW + 1) == Pow2(log) && b <= target && log <= target
    requires Reached(order, ws, maxW, |order|, target - log, b, q)
    ensures q == Pow2(target - b)
  {
    hide Shl, Below, Pow2, Num;
    ShlPow(log, target - log);
    ShlPow(target - b, b);
    ShlSame(q, Pow2(target - b), b);
  }

  /** The cells of one second symbol. */
  method FillPair(dt: array<DoubleEntry>, start: nat, s: nat, b: nat, rankVal: seq<nat>, order: seq<nat>, p: nat, ws: seq<nat>,
                  log: nat, target: nat, ghost x2: seq<Entry>, ghost rs: seq<nat>, ghost minW: nat, ghost maxW: nat, ghost q: nat)
    returns (rankVal': seq<nat>, ghost q': nat)
    requires IsTable(x2, ws, log) && IsOrder(order, ws, rs, maxW) && Level(ws, log, target, s, b, minW, maxW)
    requires dt.Length == Pow2(target) && start == Shl(Start(ws, s), target - log) && rs[minW] <= p < |order|
    requires NextCells(rankVal, ws, rs, p, target - log, b, minW, maxW) && Reached(order, ws, maxW, p, target - log, b, q)
    requires start + q <= dt.Length && Right(dt[..], x2, log, target, start, start + q)
    modifies dt
    ensures dt[..start] == old(dt[..start])
    ensures NextCells(rankVal', ws, rs, p + 1, target - log, b, minW, maxW) && Reached(order, ws, maxW, p + 1, target - log, b, q')
    ensures start + q' <= dt.Length && Right(dt[..], x2, log, target, start, start + q')
  {
    hide Shl, Below, Pow2, Num, Position, IsOrder, Start, Right, IsTable, IsWeights, NextCells;
    OrderRange(order, ws, rs, maxW);
    TableWeights(x2, ws, log);
    ghost var wt := WeightAt(order, ws, rs, maxW, p, maxW + 1);
    HeavyEnough(order, ws, rs, maxW, minW, p, wt);
    PositionIs(order, ws, rs, maxW, wt, p);
    NextCellsStep(rankVal, order, ws, rs, p, target - log, b, minW, maxW, wt);
    PositionStep(order, ws, rs, maxW, wt, p);
    NextCellsSize(rankVal, ws, rs, p, target - log, b, minW, maxW);
    var symbol := order[p];
    var weight := ws[symbol];
    var nbBits := log + 1 - weight;
    var length := Pow2(target - b - nbBits);
    ShlSame(rankVal[weight], q, b);
    PairFits(ws, log, target, b, symbol, q);
    CellsFit(ws, log, target, s);
    ghost var before := dt[..];
    FillCells(dt, start + rankVal[weight], length, DoubleEntry(s + 256 * symbol, nbBits + b, 2));
    PairRight(dt[..], x2, ws, log, target, s, b, minW, maxW, symbol, q);
    assert dt[..][..start + q] == before[..start + q];
    RightMore(before, dt[..], x2, log, target, start, start + q, start + q + length);
    assert dt[..start] == before[..start + q][..start];
    rankVal' := rankVal[weight := rankVal[weight] + length];
    q' := q + length;
    ReachedStep(Position(order, ws, maxW, p), weight, target - log, b, q);
  }

  lemma {:induction false} ReachedStep(x: nat, w: nat, k: nat, b: nat, q: nat)
    requires w >= 1 && b <= w - 1 + k && Shl(q, b) == Shl(x, k)
    ensures Shl(q + Pow2(k + w - 1 - b), b) == Shl(x + Pow2(w - 1), k)
  {
    hide Shl, Pow2;
    ShlPlus(q, Pow2(k + w - 1 - b), b);
    ShlPow(k + w - 1 - b, b);
    ShlPlus(x, Pow2(w - 1), k);
    ShlPow(w - 1, k);
  }

  lemma {:induction false} TableWeights(x2: seq<Entry>, ws: seq<nat>, log: nat)
    requires IsTable(x2, ws, log)
    ensures IsWeights(ws, log)
  {
  }

  lemma {:induction false} NextCellsSize(rankVal: seq<nat>, ws: seq<nat>, rs: seq<nat>, p: nat, k: nat, b: nat, minW: nat, maxW: nat)
    requires NextCells(rankVal, ws, rs, p, k, b, minW, maxW)
    ensures |rankVal| > maxW
  {
  }

  /** Behind the start of rank `minW`, weights are at least that. */
  lemma {:induction false} HeavyEnough(order: seq<nat>, ws: seq<nat>, rs: seq<nat>, maxW: nat, minW: nat, p: nat, w: nat)
    requires IsOrder(order, ws, rs, maxW) && 1 <= minW <= maxW && 1 <= w <= maxW && rs[minW] <= p < rs[w + 1]
    ensures w >= minW
  {
    hide IsOrder;
    OrderRange(order, ws, rs, maxW);
    if w + 1 <= minW { StartsAscend(order, ws, rs, maxW, w + 1, minW); }
  }

  /** `HUF_fillDTableX4Level2`: all the cells of symbol `s`. */
  method FillLevel2(dt: array<DoubleEntry>, start: nat, s: nat, b: nat, row: seq<nat>, minW: nat, order: seq<nat>, sortedRank: nat,
                    ws: seq<nat>, log: nat, target: nat, ghost x2: seq<Entry>, ghost rs: seq<nat>, ghost maxW: nat)
    requires IsTable(x2, ws, log) && IsOrder(order, ws, rs, maxW) && Level(ws, log, target, s, b, minW, maxW)
    requires Below(ws, maxW + 1) == Pow2(log) && dt.Length == Pow2(target)
    requires start == Shl(Start(ws, s), target - log) && sortedRank == rs[minW] && |row| > maxW
    requires forall w :: minW <= w <= maxW ==> row[w] == Shr(Shl(Below(ws, w), target - log), b)
    modifies dt
    ensures start + Pow2(target - b) <= dt.Length && dt[..start] == old(dt[..start])
    ensures Right(dt[..], x2, log, target, start, start + Pow2(target - b))
  {
    hide Shl, Shr, Below, Pow2, Num, Position, IsOrder, Start, Right, IsTable, IsWeights, NextCells, Reached;
    TableWeights(x2, ws, log);
    var rankVal := row;
    ghost var q := RowStart(row, order, ws, rs, log, target, s, b, minW, maxW);
    CellsFit(ws, log, target, s);
    RightEmpty(dt[..], x2, ws, log, target, start);
    if minW > 1 {
      var skipSize := rankVal[minW];
      FillCells(dt, start, skipSize, DoubleEntry(s, b, 1));
      SkippedRight(dt[..], x2, ws, log, target, s, b, minW, maxW, q);
    }
    var p := sortedRank;
    while p < |order|
      invariant rs[minW] <= p <= |order| && dt[..start] == old(dt[..start])
      invariant NextCells(rankVal, ws, rs, p, target - log, b, minW, maxW) && Reached(order, ws, maxW, p, target - log, b, q)
      invariant start + q <= dt.Length && Right(dt[..], x2, log, target, start, start + q)
    {
      rankVal, q := FillPair(dt, start, s, b, rankVal, order, p, ws, log, target, x2, rs, minW, maxW, q);
      p := p + 1;
    }
    ReachedEnd(order, ws, rs, log, target, maxW, b, q);
  }

  lemma {:induction false} RightEmpty(dt: seq<DoubleEntry>, x2: seq<Entry>, ws: seq<nat>, log: nat, target: nat, from: nat)
    requires IsTable(x2, ws, log) && log <= target && |dt| == Pow2(target) && from <= |dt|
    ensures Right(dt, x2, log, target, from, from)
  {
  }

  /** Where a second level starts: at the first symbol that still fits. */
  lemma {:induction false} RowStart(row: seq<nat>, order: seq<nat>, ws: seq<nat>, rs: seq<nat>, log: nat, target: nat, s: nat, b: nat, minW: nat, maxW: nat)
    returns (q: nat)
    requires IsWeights(ws, log) && IsOrder(order, ws, rs, maxW) && Level(ws, log, target, s, b, minW, maxW) && |row| > maxW
    requires Below(ws, maxW + 1) == Pow2(log)
    requires forall w :: minW <= w <= maxW ==> row[w] == Shr(Shl(Below(ws, w), target - log), b)
    ensures q == row[minW] && (minW == 1 ==> q == 0) && q <= Pow2(target - b)
    ensures Shl(q, b) == Shl(Below(ws, minW), target - log)
    ensures |rs| == maxW + 2 && rs[minW] <= |order| && Reached(order, ws, maxW, rs[minW], target - log, b, q)
    ensures NextCells(row, ws, rs, rs[minW], target - log, b, minW, maxW)
  {
    hide Shl, Shr, Below, Pow2, Num, Position, IsOrder, IsWeights;
    OrderRange(order, ws, rs, maxW);
    var k := target - log;
    q := row[minW];
    ShiftExact(ws, log, k, b, minW);
    PositionAtRank(order, ws, rs, maxW, minW);
    forall w | minW <= w <= maxW ensures Shl(row[w], b) == Shl(Below(ws, w) + Shl(Done(rs, rs[minW], w), w - 1), k) {
      ShiftExact(ws, log, k, b, w);
      StartsAscend(order, ws, rs, maxW, minW, w);
      RankCells(order, ws, rs, maxW, w);
      ShlZero(w - 1);
    }
    if minW == 1 {
      BelowFirst(ws);
      ShlZero(k);
      ShlZero(b);
      ShlSame(q, 0, b);
    }
    BelowMono(ws, minW, maxW + 1);
    SkipFits(Below(ws, minW), log, target, b, q);
  }

  lemma {:induction false} SkipFits(x: nat, log: nat, target: nat, b: nat, q: nat)
    requires log <= target && b <= target && x <= Pow2(log) && Shl(q, b) == Shl(x, target - log)
    ensures q <= Pow2(target - b)
  {
    hide Shl, Pow2;
    ShlMono(x, Pow2(log), target - log);
    ShlPow(log, target - log);
    ShlPow(target - b, b);
    PowPositive(b);
    if q > Pow2(target - b) { ShlMono(Pow2(target - b), q, b); }
  }

  /** When even the heaviest symbol does not fit behind `s`, its cells hold it alone. */
  lemma {:induction false} SingleRight(dt: seq<DoubleEntry>, x2: seq<Entry>, ws: seq<nat>, log: nat, target: nat, s: nat, maxW: nat)
    requires IsTable(x2, ws, log) && log <= target && s < |ws| && 1 <= ws[s] <= log && maxW <= log
    requires Below(ws, maxW + 1) == Pow2(log) && |dt| == Pow2(target)
    requires target - (log + 1 - ws[s]) < log + 1 - maxW
    requires var start := Shl(Start(ws, s), target - log); var n := Pow2(target - log + ws[s] - 1);
      start + n <= |dt| && forall u :: start <= u < start + n ==> dt[u] == DoubleEntry(s, log + 1 - ws[s], 1)
    ensures var start := Shl(Start(ws, s), target - log); Right(dt, x2, log, target, start, start + Pow2(target - log + ws[s] - 1))
  {
    hide Shl, Shr, Start, Below, Pow2, Num, Greedy;
    var start := Shl(Start(ws, s), target - log);
    var b := log + 1 - ws[s];
    var n := Pow2(target - b);
    ShlPow(target - b, b);
    ShlPow(log, target - log);
    forall i | start <= i < start + n ensures dt[i] == Greedy(x2, log, target, i) {
      var j := i - start;
      GreedyAt(x2, ws, log, target, s, j);
      SecondSkipped(x2, ws, log, target, b, maxW + 1, n, j);
    }
  }

  /** The rank values of the first level, and those shifted by the bits of a first symbol. */
  ghost predicate IsOrigin(rows: seq<seq<nat>>, ws: seq<nat>, log: nat, target: nat, maxW: nat) {
    && log <= target && 1 <= maxW <= log && |rows| >= target - (log + 1 - maxW) + 1
    && IsRow(rows[0], ws, target - log, 0, maxW)
    && forall c :: log + 1 - maxW <= c <= target - (log + 1 - maxW) ==> IsRow(rows[c], ws, target - log, c, maxW)
  }

  ghost predicate IsRow(row: seq<nat>, ws: seq<nat>, k: nat, c: nat, maxW: nat) {
    |row| > maxW && forall w :: 1 <= w <= maxW ==> row[w] == Shr(Shl(Below(ws, w), k), c)
  }

  /** The cells of one first symbol. */
  method FillFirst(dt: array<DoubleEntry>, start: nat, symbol: nat, order: seq<nat>, ws: seq<nat>, log: nat, target: nat, maxW: nat,
                   rs: seq<nat>, rows: seq<seq<nat>>, ghost x2: seq<Entry>)
    requires IsTable(x2, ws, log) && IsOrder(order, ws, rs, maxW) && IsOrigin(rows, ws, log, target, maxW)
    requires Below(ws, maxW + 1) == Pow2(log) && dt.Length == Pow2(target)
    requires symbol < |ws| && 1 <= ws[symbol] <= maxW && start == Shl(Start(ws, symbol), target - log)
    modifies dt
    ensures start + Pow2(target - log + ws[symbol] - 1) <= dt.Length && dt[..start] == old(dt[..start])
    ensures Right(dt[..], x2, log, target, start, start + Pow2(target - log + ws[symbol] - 1))
  {
    hide Shl, Shr, Below, Pow2, Num, IsOrder, Start, Right, IsTable, IsWeights;
    OrderRange(order, ws, rs, maxW);
    TableWeights(x2, ws, log);
    CellsFit(ws, log, target, symbol);
    var nbBits := log + 1 - ws[symbol];
    var length := Pow2(target - nbBits);
    var scaleLog := log + 1 - target;
    var minBits := log + 1 - maxW;
    if target - nbBits >= minBits {
      var minWeight := nbBits + scaleLog;
      if minWeight < 1 { minWeight := 1; }
      assert IsRow(rows[nbBits], ws, target - log, nbBits, maxW);
      FillLevel2(dt, start, symbol, nbBits, rows[nbBits], minWeight, order, rs[minWeight], ws, log, target, x2, rs, maxW);
    } else {
      FillCells(dt, start, length, DoubleEntry(symbol, nbBits, 1));
      SingleRight(dt[..], x2, ws, log, target, symbol, maxW);
    }
  }

  /** `HUF_fillDTableX4`: every cell of the table. */
  method FillTableX4(dt: array<DoubleEntry>, order: seq<nat>, ws: seq<nat>, log: nat, target: nat, maxW: nat,
                     rs: seq<nat>, rows: seq<seq<nat>>, ghost x2: seq<Entry>)
    requires IsTable(x2, ws, log) && IsOrder(order, ws, rs, maxW) && IsOrigin(rows, ws, log, target, maxW)
    requires Below(ws, maxW + 1) == Pow2(log) && dt.Length == Pow2(target)
    modifies dt
    ensures Right(dt[..], x2, log, target, 0, Pow2(target))
  {
    hide Shl, Shr, Below, Pow2, Num, Position, IsOrder, Start, Right, IsTable, IsWeights, NextCells, Reached;
    OrderRange(order, ws, rs, maxW);
    var rankVal := rows[0];
    ghost var q: nat := FirstRow(rows[0], order, ws, rs, log, target, maxW);
    RightEmpty(dt[..], x2, ws, log, target, 0);
    var s: nat := 0;
    while s < |order|
      invariant 0 <= s <= |order| && |rankVal| > maxW
      invariant NextCells(rankVal, ws, rs, s, target - log, 0, 1, maxW) && Reached(order, ws, maxW, s, target - log, 0, q)
      invariant q <= dt.Length && Right(dt[..], x2, log, target, 0, q)
    {
      ghost var w := WeightAt(order, ws, rs, maxW, s, maxW + 1);
      PositionIs(order, ws, rs, maxW, w, s);
      NextCellsStep(rankVal, order, ws, rs, s, target - log, 0, 1, maxW, w);
      PositionStep(order, ws, rs, maxW, w, s);
      ReachedSame(order, ws, maxW, s, target - log, rankVal[w], q);
      var symbol := order[s];
      var weight := ws[symbol];
      var nbBits := log + 1 - weight;
      var start := rankVal[weight];
      var length := Pow2(target - nbBits);
      ghost var before := dt[..];
      FillFirst(dt, start, symbol, order, ws, log, target, maxW, rs, rows, x2);
      assert dt[..][..q] == before[..q];
      RightMore(before, dt[..], x2, log, target, 0, q, q + length);
      ReachedOn(order, ws, maxW, s, w, target - log, q);
      rankVal := rankVal[weight := rankVal[weight] + length];
      q := q + length;
      s := s + 1;
    }
    ReachedEnd(order, ws, rs, log, target, maxW, 0, q);
  }

  lemma {:induction false} ReachedSame(order: seq<nat>, ws: seq<nat>, maxW: nat, p: nat, k: nat, start: nat, q: nat)
    requires Reached(order, ws, maxW, p, k, 0, q) && Shl(start, 0) == Shl(Position(order, ws, maxW, p), k)
    ensures start == q == Shl(Position(order, ws, maxW, p), k)
  {
  }

  lemma {:induction false} ReachedOn(order: seq<nat>, ws: seq<nat>, maxW: nat, p: nat, w: nat, k: nat, q: nat)
    requires p < |order| && Reached(order, ws, maxW, p, k, 0, q) && w >= 1
    requires Position(order, ws, maxW, p + 1) == Position(order, ws, maxW, p) + Pow2(w - 1)
    ensures Reached(order, ws, maxW, p + 1, k, 0, q + Pow2(k + w - 1))
  {
    hide Position, Pow2;
    ReachedStep(Position(order, ws, maxW, p), w, k, 0, q);
  }

  lemma {:induction false} FirstRow(row: seq<nat>, order: seq<nat>, ws: seq<nat>, rs: seq<nat>, log: nat, target: nat, maxW: nat) returns (q: nat)
    requires IsOrder(order, ws, rs, maxW) && log <= target && maxW >= 1 && IsRow(row, ws, target - log, 0, maxW)
    ensures q == 0 && |rs| == maxW + 2 && Reached(order, ws, maxW, 0, target - log, 0, q)
    ensures NextCells(row, ws, rs, 0, target - log, 0, 1, maxW)
  {
    hide Shl, Below, Pow2, Num, Position, IsOrder;
    OrderRange(order, ws, rs, maxW);
    var k := target - log;
    q := 0;
    PositionAtRank(order, ws, rs, maxW, 1);
    BelowFirst(ws);
    ShlZero(k);
    ShlZero(0);
    forall w | 1 <= w <= maxW ensures Shl(row[w], 0) == Shl(Below(ws, w) + Shl(Done(rs, 0, w), w - 1), k) {
      RankCells(order, ws, rs, maxW, w);
      ShlZero(w - 1);
      ShlByNothing(row[w]);
    }
  }

  lemma {:induction false} ShlByNothing(v: nat)
    ensures Shl(v, 0) == v
  {
  }

  // ---------- the sorted list and the rank values ----------

  /** Where weight `w` starts in the sorted list. */
  ghost function RankBase(ws: seq<nat>, w: nat): nat {
    if w <= 1 then 0 else RankBase(ws, w - 1) + Num(ws, w - 1)
  }

  lemma {:induction false} RankBaseMore(ws: seq<nat>, x: nat, w: nat)
    ensures RankBase(ws + [x], w) == RankBase(ws, w) + if 1 <= x < w then 1 else 0
    decreases w
  {
    if w > 1 {
      RankBaseMore(ws, x, w - 1);
      assert (ws + [x])[..|ws|] == ws;
    }
  }

  /** The list holds all the symbols, those of weight zero last. */
  lemma {:induction false} RankBaseAll(ws: seq<nat>, maxW: nat)
    requires forall s :: 0 <= s < |ws| ==> ws[s] <= maxW
    ensures RankBase(ws, maxW + 1) + Num(ws, 0) == |ws|
  {
    if ws == [] {
      RankBaseNone(maxW + 1);
    } else {
      var front := ws[..|ws| - 1];
      RankBaseAll(front, maxW);
      assert front + [ws[|ws| - 1]] == ws;
      RankBaseMore(front, ws[|ws| - 1], maxW + 1);
    }
  }

  lemma {:induction false} RankBaseNone(w: nat)
    ensures RankBase([], w) == 0
    decreases w
  {
    if w > 1 { RankBaseNone(w - 1); }
  }

  lemma {:induction false} RankBaseMono(ws: seq<nat>, v: nat, w: nat)
    requires v <= w
    ensures RankBase(ws, v) <= RankBase(ws, w)
    decreases w
  {
    if v < w { RankBaseMono(ws, v, w - 1); }
  }

  /** The place of symbol `s` in the sorted list. */
  ghost function Place(ws: seq<nat>, maxW: nat, s: nat): nat
    requires s < |ws|
  {
    (if ws[s] == 0 then RankBase(ws, maxW + 1) else RankBase(ws, ws[s])) + Num(ws[..s], ws[s])
  }

  lemma {:induction false} PlaceRange(ws: seq<nat>, maxW: nat, s: nat)
    requires s < |ws| && ws[s] <= maxW && forall t :: 0 <= t < |ws| ==> ws[t] <= maxW
    ensures Place(ws, maxW, s) < |ws|
    ensures ws[s] >= 1 ==> RankBase(ws, ws[s]) <= Place(ws, maxW, s) < RankBase(ws, ws[s] + 1) <= RankBase(ws, maxW + 1)
    ensures ws[s] == 0 ==> RankBase(ws, maxW + 1) <= Place(ws, maxW, s)
  {
    hide Num;
    NumMore(ws, s, ws[s]);
    NumAll(ws, s + 1, ws[s]);
    RankBaseAll(ws, maxW);
    RankBaseMono(ws, ws[s] + 1, maxW + 1);
  }

  /** Different symbols have different places. */
  lemma {:induction false} PlacesApart(ws: seq<nat>, maxW: nat, s: nat, t: nat)
    requires s < t < |ws| && forall u :: 0 <= u < |ws| ==> ws[u] <= maxW
    ensures Place(ws, maxW, s) != Place(ws, maxW, t)
  {
    hide Num;
    if ws[s] == ws[t] {
      NumMore(ws, s, ws[s]);
      NumMono(ws, s + 1, t, ws[s]);
    } else {
      hide RankBase, Place;
      PlaceRange(ws, maxW, s);
      PlaceRange(ws, maxW, t);
      if ws[s] < ws[t] {
        RankBaseMono(ws, ws[s] + 1, ws[t]);
      } else {
        RankBaseMono(ws, ws[t] + 1, ws[s]);
      }
    }
  }

  /** The `m`-th symbol of weight `w`. */
  lemma {:induction false} Occurrence(ws: seq<nat>, w: nat, m: nat, n: nat) returns (s: nat)
    requires n <= |ws| && m < Num(ws[..n], w)
    ensures s < n && ws[s] == w && Num(ws[..s], w) == m
    decreases n
  {
    NumMore(ws, n - 1, w);
    if ws[n - 1] == w && Num(ws[..n - 1], w) == m {
      s := n - 1;
    } else {
      s := Occurrence(ws, w, m, n - 1);
    }
  }

  /** Where the next symbol of each weight goes; the entry for `w` is at `w + 1`. */
  ghost predicate NextPlaces(starts: seq<nat>, ws: seq<nat>, maxW: nat, s: nat)
    requires s <= |ws|
  {
    && |starts| == maxW + 2 && starts[1] == RankBase(ws, maxW + 1) + Num(ws[..s], 0)
    && forall w :: 1 <= w <= maxW ==> starts[w + 1] == RankBase(ws, w) + Num(ws[..s], w)
  }

  lemma {:induction false} NextPlacesStep(starts: seq<nat>, ws: seq<nat>, maxW: nat, s: nat)
    requires s < |ws| && ws[s] <= maxW && NextPlaces(starts, ws, maxW, s)
    ensures starts[ws[s] + 1] == Place(ws, maxW, s)
    ensures NextPlaces(starts[ws[s] + 1 := starts[ws[s] + 1] + 1], ws, maxW, s + 1)
  {
    hide Num, RankBase;
    NumMore(ws, s, 0);
    var next := starts[ws[s] + 1 := starts[ws[s] + 1] + 1];
    forall w | 1 <= w <= maxW ensures next[w + 1] == RankBase(ws, w) + Num(ws[..s + 1], w) { NumMore(ws, s, w); }
  }

  /** Start index of each weight. */
  method RankIndices(rankStats: seq<nat>, maxW: nat, ghost ws: seq<nat>) returns (rankStart: array<nat>, sizeOfSort: nat)
    requires |rankStats| > maxW && forall w :: 1 <= w <= maxW ==> rankStats[w] == Num(ws, w)
    ensures fresh(rankStart) && rankStart.Length == maxW + 2 && NextPlaces(rankStart[..], ws, maxW, 0) && sizeOfSort == RankBase(ws, maxW + 1)
  {
    hide Num, RankBase;
    rankStart := new nat[maxW + 2](_ => 0);
    var nextRankStart := 0;
    RankBaseStep(ws, 0);
    var w := 1;
    while w < maxW + 1
      invariant 1 <= w <= maxW + 1 && nextRankStart == RankBase(ws, w)
      invariant forall v :: 1 <= v < w ==> rankStart[v + 1] == RankBase(ws, v)
    {
      RankBaseStep(ws, w);
      var current := nextRankStart;
      nextRankStart := nextRankStart + rankStats[w];
      rankStart[w + 1] := current;
      w := w + 1;
    }
    rankStart[1] := nextRankStart;
    sizeOfSort := nextRankStart;
    NumNone(ws);
  }

  lemma {:induction false} NumNone(ws: seq<nat>)
    ensures forall w: nat :: Num(ws[..0], w) == 0
  {
  }

  lemma {:induction false} RankBaseStep(ws: seq<nat>, w: nat)
    ensures w >= 1 ==> RankBase(ws, w + 1) == RankBase(ws, w) + Num(ws, w)
    ensures RankBase(ws, 1) == 0
  {
  }

  /** The counting sort of `HUF_readDTableX4`. */
  method SortSymbols(ws: seq<nat>, rankStats: seq<nat>, maxW: nat) returns (order: seq<nat>, rs: seq<nat>)
    requires |rankStats| > maxW && forall w :: 1 <= w <= maxW ==> rankStats[w] == Num(ws, w)
    requires forall s :: 0 <= s < |ws| ==> ws[s] <= maxW
    ensures IsOrder(order, ws, rs, maxW)
  {
    hide Num, RankBase, NextPlaces, Place;
    var rankStart, sizeOfSort := RankIndices(rankStats, maxW, ws);
    var sorted := new nat[|ws|];
    for s := 0 to |ws|
      invariant rankStart.Length == maxW + 2 && NextPlaces(rankStart[..], ws, maxW, s)
      invariant forall t :: 0 <= t < s ==> Place(ws, maxW, t) < |ws| && sorted[Place(ws, maxW, t)] == t
    {
      var w := ws[s];
      ghost var starts := rankStart[..];
      NextPlacesStep(starts, ws, maxW, s);
      PlaceRange(ws, maxW, s);
      forall t | 0 <= t < s ensures Place(ws, maxW, t) != Place(ws, maxW, s) { PlacesApart(ws, maxW, t, s); }
      var r := rankStart[w + 1];
      rankStart[w + 1] := rankStart[w + 1] + 1;
      sorted[r] := s;
      assert rankStart[..] == starts[w + 1 := starts[w + 1] + 1];
    }
    ghost var starts := rankStart[..];
    rankStart[1] := 0;
    rs := rankStart[..];
    assert rs == starts[1 := 0];
    RankBaseSize(ws, maxW);
    order := sorted[..sizeOfSort];
    SortedIsOrder(sorted[..], order, ws, starts, rs, maxW);
  }

  lemma {:induction false} RankBaseSize(ws: seq<nat>, maxW: nat)
    requires forall s :: 0 <= s < |ws| ==> ws[s] <= maxW
    ensures RankBase(ws, maxW + 1) <= |ws|
  {
    RankBaseAll(ws, maxW);
  }

  lemma {:induction false} SortedIsOrder(sorted: seq<nat>, order: seq<nat>, ws: seq<nat>, starts: seq<nat>, rs: seq<nat>, maxW: nat)
    requires |sorted| == |ws| && NextPlaces(starts, ws, maxW, |ws|) && rs == starts[1 := 0]
    requires RankBase(ws, maxW + 1) <= |ws| && order == sorted[..RankBase(ws, maxW + 1)]
    requires forall t :: 0 <= t < |ws| ==> Place(ws, maxW, t) < |ws| && sorted[Place(ws, maxW, t)] == t
    ensures IsOrder(order, ws, rs, maxW)
  {
    hide Num, RankBase, IsPlace;
    assert ws[..|ws|] == ws;
    forall w | 1 <= w <= maxW + 1 ensures rs[w] == RankBase(ws, w) {
      RankBaseStep(ws, w - 1);
    }
    forall w | 1 <= w <= maxW ensures rs[w + 1] == rs[w] + Num(ws, w) { RankBaseStep(ws, w); }
    forall w, p | 1 <= w <= maxW && rs[w] <= p < rs[w + 1] ensures IsPlace(order, ws, p, w, rs[w]) {
      PlaceHeld(sorted, order, ws, rs, maxW, w, p);
    }
  }

  lemma {:induction false} PlaceHeld(sorted: seq<nat>, order: seq<nat>, ws: seq<nat>, rs: seq<nat>, maxW: nat, w: nat, p: nat)
    requires |sorted| == |ws| && |rs| == maxW + 2 && 1 <= w <= maxW && rs[w] <= p < rs[w + 1]
    requires rs[w] == RankBase(ws, w) && rs[w + 1] == rs[w] + Num(ws, w) == RankBase(ws, w + 1)
    requires RankBase(ws, maxW + 1) <= |ws| && order == sorted[..RankBase(ws, maxW + 1)]
    requires forall t :: 0 <= t < |ws| ==> Place(ws, maxW, t) < |ws| && sorted[Place(ws, maxW, t)] == t
    ensures IsPlace(order, ws, p, w, rs[w])
  {
    hide Num, RankBase;
    assert ws[..|ws|] == ws;
    var t := Occurrence(ws, w, p - rs[w], |ws|);
    assert Place(ws, maxW, t) == p;
    RankBaseMono(ws, w + 1, maxW + 1);
  }

  /** The rank values, and their shifted copies for every number of bits consumed. */
  method RankValues(rankStats: seq<nat>, log: nat, target: nat, maxW: nat, ghost ws: seq<nat>) returns (rows: seq<seq<nat>>)
    requires log <= target && 1 <= maxW <= log && |rankStats| > maxW
    requires forall w :: 1 <= w <= maxW ==> rankStats[w] == Num(ws, w)
    ensures IsOrigin(rows, ws, log, target, maxW)
  {
    hide Num, Shl, Below;
    var rankVal0: seq<nat> := seq(maxW + 1, _ => 0);
    var nextRankVal := 0;
    BelowFirst(ws);
    ShlZero(target - log);
    var w := 1;
    while w < maxW + 1
      invariant 1 <= w <= maxW + 1 && |rankVal0| == maxW + 1 && nextRankVal == Shl(Below(ws, w), target - log)
      invariant forall v :: 1 <= v < w ==> rankVal0[v] == Shl(Below(ws, v), target - log)
    {
      BelowStep(ws, w);
      ShlPlus(Below(ws, w), Shl(Num(ws, w), w - 1), target - log);
      ShlAdd(Num(ws, w), w - 1, target - log);
      var current := nextRankVal;
      nextRankVal := nextRankVal + Shl(rankStats[w], w + (target - log) - 1);
      rankVal0 := rankVal0[w := current];
      w := w + 1;
    }
    var minBits := log + 1 - maxW;
    rows := seq(target + 1, _ => rankVal0);
    var consumed := minBits;
    while consumed < target - minBits + 1
      invariant minBits <= consumed && |rows| == target + 1 && rows[0] == rankVal0
      invariant forall c :: minBits <= c < consumed && c <= target - minBits ==> IsRow(rows[c], ws, target - log, c, maxW)
    {
      var row: seq<nat> := seq(maxW + 1, v requires 0 <= v < |rankVal0| => Shr(rankVal0[v], consumed));
      rows := rows[consumed := row];
      consumed := consumed + 1;
    }
  }

  /** `HUF_readDTableX4`: for weights of a complete code, the double-symbol table with
      `2^target` cells refines the single-symbol table. */
  method ReadTableX4(ws: seq<nat>, rankStats: seq<nat>, log: nat, target: nat, dt: array<DoubleEntry>, ghost x2: seq<Entry>)
    requires IsTable(x2, ws, log) && 1 <= log <= target && dt.Length == Pow2(target)
    requires |rankStats| > log && forall w :: 1 <= w <= log ==> rankStats[w] == Num(ws, w)
    modifies dt
    ensures forall i :: 0 <= i < Pow2(target) ==> dt[i] == Greedy(x2, log, target, i)
  {
    hide Num, Below, Greedy, IsOrder, IsOrigin, Pow2;
    HeaviestStart(ws, log);
    var maxW := log;
    while rankStats[maxW] == 0
      invariant 1 <= maxW <= log && Below(ws, maxW + 1) == Pow2(log)
      invariant forall s :: 0 <= s < |ws| ==> ws[s] <= maxW
      decreases maxW
    {
      Lighter(ws, log, maxW);
      maxW := maxW - 1;
    }
    var order, rs := SortSymbols(ws, rankStats, maxW);
    var rows := RankValues(rankStats, log, target, maxW, ws);
    FillTableX4(dt, order, ws, log, target, maxW, rs, rows, x2);
  }

  lemma {:induction false} HeaviestStart(ws: seq<nat>, log: nat)
    requires IsWeights(ws, log)
    ensures Below(ws, log + 1) == Pow2(log) && forall s :: 0 <= s < |ws| ==> ws[s] <= log
  {
  }

  /** An empty rank can be left off, and is not the first. */
  lemma {:induction false} Lighter(ws: seq<nat>, log: nat, w: nat)
    requires w >= 1 && Num(ws, w) == 0 && Below(ws, w + 1) == Pow2(log) && forall s :: 0 <= s < |ws| ==> ws[s] <= w
    ensures w >= 2 && Below(ws, w) == Pow2(log) && forall s :: 0 <= s < |ws| ==> ws[s] <= w - 1
  {
    hide Num;
    BelowStep(ws, w);
    ShlZero(w - 1);
    PowPositive(log);
    forall s | 0 <= s < |ws| ensures ws[s] != w {
      NumMore(ws, s, w);
      NumAll(ws, s + 1, w);
    }
  }
}
