/** Canonical Huffman codes and the single-symbol decoding table: weights divide the table
    into ranges, ordered by weight and then by symbol. */
module HufTable {
  import opened Bits

  // ---------- the ranges ----------

  /** How often `w` occurs. */
  function Num(ws: seq<nat>, w: nat): nat {
    if ws == [] then 0 else Num(ws[..|ws| - 1], w) + (if ws[|ws| - 1] == w then 1 else 0)
  }

  /** The cells of a symbol of weight `w`: `(1 << w) >> 1`. */
  function Cells(w: nat): nat { if w == 0 then 0 else Pow2(w - 1) }

  /** The cells of all symbols of a weight below `w`. */
  function Below(ws: seq<nat>, w: nat): nat {
    if w <= 1 then 0 else Below(ws, w - 1) + Shl(Num(ws, w - 1), w - 2)
  }

  /** The first cell of symbol `s`. */
  function Start(ws: seq<nat>, s: nat): nat
    requires s < |ws| && ws[s] >= 1
  {
    Below(ws, ws[s]) + Shl(Num(ws[..s], ws[s]), ws[s] - 1)
  }

  /** Cell `u` belongs to symbol `s`. */
  predicate Owns(ws: seq<nat>, s: nat, u: nat) {
    s < |ws| && ws[s] >= 1 && Start(ws, s) <= u < Start(ws, s) + Cells(ws[s])
  }

  /** Weights of a complete code of depth `log`. */
  ghost predicate IsWeights(ws: seq<nat>, log: nat) {
    && (forall s :: 0 <= s < |ws| ==> ws[s] <= log)
    && Below(ws, log + 1) == Pow2(log)
  }

  lemma {:induction false} NumMore(ws: seq<nat>, s: nat, w: nat)
    requires s < |ws|
    ensures Num(ws[..s + 1], w) == Num(ws[..s], w) + (if ws[s] == w then 1 else 0)
  {
    assert ws[..s + 1][..s] == ws[..s];
  }

  lemma {:induction false} NumMono(ws: seq<nat>, s: nat, t: nat, w: nat)
    requires s <= t <= |ws|
    ensures Num(ws[..s], w) <= Num(ws[..t], w)
    decreases t - s
  {
    if s < t {
      NumMore(ws, s, w);
      NumMono(ws, s + 1, t, w);
    }
  }

  lemma {:induction false} NumAll(ws: seq<nat>, s: nat, w: nat)
    requires s <= |ws|
    ensures Num(ws[..s], w) <= Num(ws, w)
  {
    NumMono(ws, s, |ws|, w);
    assert ws[..|ws|] == ws;
  }

  lemma {:induction false} ShlPlus(a: nat, b: nat, n: nat)
    ensures Shl(a + b, n) == Shl(a, n) + Shl(b, n)
  {
    if n != 0 { ShlPlus(a, b, n - 1); }
  }

  lemma {:induction false} ShlOne(n: nat)
    ensures Shl(1, n) == Pow2(n)
  {
    if n != 0 { ShlOne(n - 1); }
  }

  lemma {:induction false} BelowMono(ws: seq<nat>, v: nat, w: nat)
    requires v <= w
    ensures Below(ws, v) <= Below(ws, w)
    decreases w
  {
    if v < w { BelowMono(ws, v, w - 1); }
  }

  /** A range ends inside its rank, and at the start of the next of the same weight. */
  lemma {:induction false} RangeEnd(ws: seq<nat>, s: nat)
    requires s < |ws| && ws[s] >= 1
    ensures Start(ws, s) + Cells(ws[s]) == Below(ws, ws[s]) + Shl(Num(ws[..s + 1], ws[s]), ws[s] - 1)
    ensures Start(ws, s) + Cells(ws[s]) <= Below(ws, ws[s] + 1)
  {
    hide Num;
    var w := ws[s];
    NumMore(ws, s, w);
    ShlPlus(Num(ws[..s], w), 1, w - 1);
    ShlOne(w - 1);
    NumAll(ws, s + 1, w);
    ShlMono(Num(ws[..s + 1], w), Num(ws, w), w - 1);
  }

  /** Ranges are disjoint. */
  lemma {:induction false} RangesApart(ws: seq<nat>, s: nat, t: nat)
    requires s < |ws| && t < |ws| && ws[s] >= 1 && ws[t] >= 1
    requires ws[s] < ws[t] || (ws[s] == ws[t] && s < t)
    ensures Start(ws, s) + Cells(ws[s]) <= Start(ws, t)
  {
    hide Num, Cells, Below;
    RangeEnd(ws, s);
    if ws[s] < ws[t] {
      BelowMono(ws, ws[s] + 1, ws[t]);
    } else {
      NumMono(ws, s + 1, t, ws[t]);
      ShlMono(Num(ws[..s + 1], ws[t]), Num(ws[..t], ws[t]), ws[t] - 1);
    }
  }

  lemma {:induction false} OwnerUnique(ws: seq<nat>, s: nat, t: nat, u: nat)
    requires Owns(ws, s, u) && Owns(ws, t, u)
    ensures s == t
  {
    hide Start;
    if s != t {
      if ws[s] < ws[t] || (ws[s] == ws[t] && s < t) { RangesApart(ws, s, t); } else { RangesApart(ws, t, s); }
    }
  }

  /** Every cell has an owner. */
  lemma {:induction false} OwnerExists(ws: seq<nat>, w: nat, u: nat) returns (s: nat)
    requires u < Below(ws, w)
    ensures Owns(ws, s, u) && ws[s] < w
    decreases w
  {
    hide Num, Cells;
    if u < Below(ws, w - 1) {
      s := OwnerExists(ws, w - 1, u);
    } else {
      assert ws[..|ws|] == ws;
      s := OwnerInRank(ws, w - 1, |ws|, u);
    }
  }

  lemma {:induction false} OwnerInRank(ws: seq<nat>, w: nat, n: nat, u: nat) returns (s: nat)
    requires w >= 1 && n <= |ws| && Below(ws, w) <= u < Below(ws, w) + Shl(Num(ws[..n], w), w - 1)
    ensures Owns(ws, s, u) && ws[s] == w
    decreases n
  {
    if n == 0 {
      ShlZero(w - 1);
      assert false;
    } else {
      NumMore(ws, n - 1, w);
      hide Num, Below, Cells, Shl;
      if ws[n - 1] == w && u >= Below(ws, w) + Shl(Num(ws[..n - 1], w), w - 1) {
        s := n - 1;
        RangeEnd(ws, s);
      } else {
        s := OwnerInRank(ws, w, n - 1, u);
      }
    }
  }

  lemma {:induction false} RangeInTable(ws: seq<nat>, log: nat, s: nat)
    requires IsWeights(ws, log) && s < |ws| && ws[s] >= 1
    ensures Start(ws, s) + Cells(ws[s]) <= Pow2(log)
  {
    hide Start, Cells, Below;
    RangeEnd(ws, s);
    BelowMono(ws, ws[s] + 1, log + 1);
  }

  /** In a complete code, ranks start at a multiple of their cells. */
  lemma {:induction false} BelowMultiple(ws: seq<nat>, log: nat, w: nat) returns (x: nat)
    requires IsWeights(ws, log) && 1 <= w <= log + 1
    ensures Below(ws, w) == Shl(x, w - 1)
    decreases log + 1 - w
  {
    hide Num;
    if w == log + 1 {
      ShlOne(log);
      x := 1;
    } else {
      var y := BelowMultiple(ws, log, w + 1);
      assert Below(ws, w + 1) == Below(ws, w) + Shl(Num(ws, w), w - 1);
      ShlDouble(y, w - 1);
      x := ShlMinus(2 * y, Num(ws, w), w - 1);
    }
  }

  lemma {:induction false} ShlMinus(a: nat, b: nat, n: nat) returns (c: nat)
    requires Shl(a, n) >= Shl(b, n)
    ensures a >= b && c == a - b && Shl(a, n) - Shl(b, n) == Shl(c, n)
  {
    hide Shl;
    if a < b { ShlMono(a, b, n); assert false; }
    c := a - b;
    ShlPlus(b, c, n);
  }

  // ---------- the decoding table ----------

  datatype Entry = Entry(symbol: nat, nbBits: nat)

  ghost predicate Holds(dt: seq<Entry>, from: nat, to: nat, e: Entry) {
    to <= |dt| && forall u :: from <= u < to ==> dt[u] == e
  }

  /** The cells of symbol `s` hold it and its code length. */
  ghost predicate HoldsSymbol(dt: seq<Entry>, ws: seq<nat>, log: nat, s: nat) {
    s < |ws| && 1 <= ws[s] <= log && Holds(dt, Start(ws, s), Start(ws, s) + Cells(ws[s]), Entry(s, log + 1 - ws[s]))
  }

  ghost predicate IsTable(dt: seq<Entry>, ws: seq<nat>, log: nat) {
    && IsWeights(ws, log) && |dt| == Pow2(log)
    && forall s :: 0 <= s < |ws| && ws[s] >= 1 ==> HoldsSymbol(dt, ws, log, s)
  }

  /** The table as a lookup: a cell holds exactly its owner. */
  lemma {:induction false} TableLookup(dt: seq<Entry>, ws: seq<nat>, log: nat, u: nat) returns (s: nat)
    requires IsTable(dt, ws, log) && u < Pow2(log)
    ensures Owns(ws, s, u) && ws[s] <= log && dt[u] == Entry(s, log + 1 - ws[s])
  {
    hide Start, Cells, Below;
    s := OwnerExists(ws, log + 1, u);
    assert HoldsSymbol(dt, ws, log, s);
  }

  /** Start value of each rank, from the number of symbols of each weight. */
  method RankStarts(rankVal: array<nat>, tableLog: nat, ghost ws: seq<nat>)
    requires rankVal.Length > tableLog
    requires forall w :: 1 <= w <= tableLog ==> rankVal[w] == Num(ws, w)
    modifies rankVal
    ensures forall w :: 1 <= w <= tableLog ==> rankVal[w] == Below(ws, w)
  {
    hide Num, Shl, Below;
    BelowFirst(ws);
    var nextRankStart := 0;
    var n := 1;
    while n < tableLog + 1
      invariant 1 <= n <= tableLog + 1 && nextRankStart == Below(ws, n)
      invariant forall w :: 1 <= w < n ==> rankVal[w] == Below(ws, w)
      invariant forall w :: n <= w <= tableLog ==> rankVal[w] == Num(ws, w)
    {
      var current := nextRankStart;
      BelowStep(ws, n);
      nextRankStart := nextRankStart + Shl(rankVal[n], n - 1);
      rankVal[n] := current;
      n := n + 1;
    }
  }

  method FillRange(dt: array<Entry>, from: nat, length: nat, e: Entry)
    requires from + length <= dt.Length
    modifies dt
    ensures forall u :: 0 <= u < dt.Length ==> dt[u] == if from <= u < from + length then e else old(dt[u])
  {
    var u := from;
    while u < from + length
      invariant from <= u <= from + length
      invariant forall v :: 0 <= v < dt.Length ==> dt[v] == if from <= v < u then e else old(dt[v])
    {
      dt[u] := e;
      u := u + 1;
    }
  }

  lemma {:induction false} HoldsKept(before: seq<Entry>, after: seq<Entry>, ws: seq<nat>, log: nat, s: nat, t: nat)
    requires HoldsSymbol(before, ws, log, t) && s != t && s < |ws| && ws[s] >= 1 && |after| == |before|
    requires forall u :: 0 <= u < |before| && !(Start(ws, s) <= u < Start(ws, s) + Cells(ws[s])) ==> after[u] == before[u]
    ensures HoldsSymbol(after, ws, log, t)
  {
    hide Start, Cells, Below, Num;
    if ws[s] < ws[t] || (ws[s] == ws[t] && s < t) { RangesApart(ws, s, t); } else { RangesApart(ws, t, s); }
  }

  lemma {:induction false} NoneYet(ws: seq<nat>, w: nat)
    requires w >= 1
    ensures Shl(Num(ws[..0], w), w - 1) == 0
  {
    ShlZero(w - 1);
  }

  ghost predicate Advanced(rankVal: seq<nat>, ws: seq<nat>, log: nat, n: nat)
    requires n <= |ws| && |rankVal| > log
  {
    forall w :: 1 <= w <= log ==> rankVal[w] == Below(ws, w) + Shl(Num(ws[..n], w), w - 1)
  }

  lemma {:induction false} AdvanceOne(rankVal: seq<nat>, ws: seq<nat>, log: nat, n: nat)
    requires n < |ws| && |rankVal| > log && Advanced(rankVal, ws, log, n) && ws[n] <= log
    ensures Advanced(rankVal[ws[n] := rankVal[ws[n]] + Cells(ws[n])], ws, log, n + 1)
  {
    hide Num, Below, Cells, Shl;
    var next := rankVal[ws[n] := rankVal[ws[n]] + Cells(ws[n])];
    forall w | 1 <= w <= log ensures next[w] == Below(ws, w) + Shl(Num(ws[..n + 1], w), w - 1) {
      NumMore(ws, n, w);
      if w == ws[n] { RangeEnd(ws, n); }
    }
  }

  /** The cells of one symbol. */
  method FillOne(dt: array<Entry>, ws: seq<nat>, log: nat, rankVal: array<nat>, n: nat)
    requires IsWeights(ws, log) && dt.Length == Pow2(log) && rankVal.Length > log && n < |ws|
    requires Advanced(rankVal[..], ws, log, n)
    requires forall t :: 0 <= t < n && ws[t] >= 1 ==> HoldsSymbol(dt[..], ws, log, t)
    modifies dt, rankVal
    ensures Advanced(rankVal[..], ws, log, n + 1)
    ensures forall t :: 0 <= t < n + 1 && ws[t] >= 1 ==> HoldsSymbol(dt[..], ws, log, t)
  {
    hide Num, Below, Shl, HoldsSymbol, Pow2;
    var w := ws[n];
    var length := Cells(w);
    AdvanceOne(rankVal[..], ws, log, n);
    ghost var before, ranks := dt[..], rankVal[..];
    if w >= 1 {
      RangeInTable(ws, log, n);
      FillRange(dt, rankVal[w], length, Entry(n, log + 1 - w));
      SymbolFilled(before, dt[..], ws, log, n);
    }
    rankVal[w] := rankVal[w] + length;
    assert rankVal[..] == ranks[w := ranks[w] + length];
  }

  lemma {:induction false} SymbolFilled(before: seq<Entry>, after: seq<Entry>, ws: seq<nat>, log: nat, n: nat)
    requires n < |ws| && 1 <= ws[n] <= log && |after| == |before| && Start(ws, n) + Cells(ws[n]) <= |after|
    requires forall t :: 0 <= t < n && ws[t] >= 1 ==> HoldsSymbol(before, ws, log, t)
    requires forall u :: 0 <= u < |before| ==>
      after[u] == if Start(ws, n) <= u < Start(ws, n) + Cells(ws[n]) then Entry(n, log + 1 - ws[n]) else before[u]
    ensures forall t :: 0 <= t < n + 1 && ws[t] >= 1 ==> HoldsSymbol(after, ws, log, t)
  {
    hide Start, Cells;
    forall t | 0 <= t < n + 1 && ws[t] >= 1 ensures HoldsSymbol(after, ws, log, t) {
      if t < n { HoldsKept(before, after, ws, log, n, t); }
    }
  }

  /** The fill of `HUF_readDTableX2`, in symbol order. */
  method FillTable(dt: array<Entry>, ws: seq<nat>, log: nat, rankVal: array<nat>)
    requires IsWeights(ws, log) && dt.Length == Pow2(log) && rankVal.Length > log
    requires forall w :: 1 <= w <= log ==> rankVal[w] == Below(ws, w)
    modifies dt, rankVal
    ensures IsTable(dt[..], ws, log)
  {
    hide Num, Below, Cells, Shl, HoldsSymbol, IsWeights;
    forall w | 1 <= w <= log ensures Shl(Num(ws[..0], w), w - 1) == 0 { NoneYet(ws, w); }
    for n := 0 to |ws|
      invariant Advanced(rankVal[..], ws, log, n)
      invariant forall t :: 0 <= t < n && ws[t] >= 1 ==> HoldsSymbol(dt[..], ws, log, t)
    {
      FillOne(dt, ws, log, rankVal, n);
    }
  }

  // ---------- canonical codes ----------

  /** Code lengths for weights: zero for an absent symbol. */
  ghost predicate IsLengths(nbBits: seq<nat>, ws: seq<nat>, log: nat) {
    && |nbBits| == |ws|
    && forall s :: 0 <= s < |ws| ==> ws[s] == if nbBits[s] == 0 then 0 else log + 1 - nbBits[s]
  }

  /** `val` is the code of symbol `s`: its range, seen from its first `nbBits` bits. */
  ghost predicate IsCode(ws: seq<nat>, log: nat, s: nat, val: nat) {
    s < |ws| && ws[s] >= 1 && Shl(val, ws[s] - 1) == Start(ws, s)
  }

  /** Starting value of each code length, from the longest to the shortest: the beginning of its
      range, if the code is complete. */
  method CodeStarts(nbPerRank: seq<nat>, log: nat, ghost ws: seq<nat>) returns (valPerRank: array<nat>)
    requires |nbPerRank| == log + 1 && forall n :: 1 <= n <= log ==> nbPerRank[n] == Num(ws, log + 1 - n)
    ensures fresh(valPerRank) && valPerRank.Length == log + 1
    ensures IsWeights(ws, log) ==> forall n :: 1 <= n <= log ==> Shl(valPerRank[n], log - n) == Below(ws, log + 1 - n)
  {
    hide Num, Below, IsWeights;
    valPerRank := new nat[log + 1](_ => 0);
    var min := 0;
    var n := log;
    ShlZero(0);
    BelowFirst(ws);
    while n > 0
      invariant 0 <= n <= log && min >= 0
      invariant IsWeights(ws, log) && n >= 1 ==> Shl(min, log - n) == Below(ws, log + 1 - n)
      invariant IsWeights(ws, log) ==> forall k :: n < k <= log ==> Shl(valPerRank[k], log - k) == Below(ws, log + 1 - k)
      decreases n
    {
      valPerRank[n] := min;
      if IsWeights(ws, log) && n >= 2 { HalvingExact(ws, log, n, min, nbPerRank[n]); }
      min := min + nbPerRank[n];
      min := min / 2;
      n := n - 1;
    }
  }

  lemma {:induction false} BelowStep(ws: seq<nat>, w: nat)
    requires w >= 1
    ensures Below(ws, w + 1) == Below(ws, w) + Shl(Num(ws, w), w - 1)
  {
  }

  lemma {:induction false} BelowFirst(ws: seq<nat>)
    ensures Below(ws, 1) == 0
  {
  }

  /** Each halving is exact, because ranks start at multiples of their cells. */
  lemma {:induction false} HalvingExact(ws: seq<nat>, log: nat, n: nat, min: nat, nb: nat)
    requires IsWeights(ws, log) && 2 <= n <= log && nb == Num(ws, log + 1 - n)
    requires Shl(min, log - n) == Below(ws, log + 1 - n)
    ensures (min + nb) % 2 == 0 && Shl((min + nb) / 2, log - n + 1) == Below(ws, log + 2 - n)
  {
    hide Num, IsWeights;
    var k := log - n;
    ShlPlus(min, nb, k);
    assert Below(ws, k + 2) == Below(ws, k + 1) + Shl(nb, k);
    var x := BelowMultiple(ws, log, k + 2);
    ShlDouble(x, k);
    ShlSame(min + nb, 2 * x, k);
  }

  lemma {:induction false} ShlSame(a: nat, b: nat, n: nat)
    requires Shl(a, n) == Shl(b, n)
    ensures a == b
  {
    if n != 0 { ShlSame(a, b, n - 1); }
  }

  /** Values within each length, in symbol order. */
  method AssignCodes(nbBits: seq<nat>, log: nat, valPerRank: array<nat>, ghost ws: seq<nat>) returns (val: array<nat>)
    requires IsLengths(nbBits, ws, log) && valPerRank.Length == log + 1
    requires forall s :: 0 <= s < |nbBits| ==> nbBits[s] <= log
    requires IsWeights(ws, log) ==> forall n :: 1 <= n <= log ==> Shl(valPerRank[n], log - n) == Below(ws, log + 1 - n)
    modifies valPerRank
    ensures fresh(val) && val.Length == |ws|
    ensures IsWeights(ws, log) ==> forall s :: 0 <= s < |ws| && ws[s] >= 1 ==> IsCode(ws, log, s, val[s])
  {
    hide Num, Below, Shl, IsCode, IsWeights;
    val := new nat[|nbBits|];
    if IsWeights(ws, log) { CodesAtStart(valPerRank[..], ws, log); }
    for s := 0 to |nbBits|
      invariant IsWeights(ws, log) ==> CodesAt(valPerRank[..], ws, log, s)
      invariant IsWeights(ws, log) ==> forall t :: 0 <= t < s && ws[t] >= 1 ==> IsCode(ws, log, t, val[t])
    {
      if IsWeights(ws, log) { CodeStep(valPerRank[..], ws, log, s, nbBits[s]); }
      ghost var before := valPerRank[..];
      val[s] := valPerRank[nbBits[s]];
      valPerRank[nbBits[s]] := valPerRank[nbBits[s]] + 1;
      assert valPerRank[..] == before[nbBits[s] := before[nbBits[s]] + 1];
    }
  }

  ghost predicate CodesAt(vals: seq<nat>, ws: seq<nat>, log: nat, s: nat)
    requires s <= |ws| && |vals| == log + 1
  {
    forall n :: 1 <= n <= log ==> Shl(vals[n], log - n) == Below(ws, log + 1 - n) + Shl(Num(ws[..s], log + 1 - n), log - n)
  }

  lemma {:induction false} CodesAtStart(vals: seq<nat>, ws: seq<nat>, log: nat)
    requires |vals| == log + 1 && forall n :: 1 <= n <= log ==> Shl(vals[n], log - n) == Below(ws, log + 1 - n)
    ensures CodesAt(vals, ws, log, 0)
  {
    hide Num, Below, Shl;
    forall n | 1 <= n <= log ensures Shl(vals[n], log - n) == Below(ws, log + 1 - n) + Shl(Num(ws[..0], log + 1 - n), log - n) {
      NoneYet(ws, log + 1 - n);
    }
  }

  lemma {:induction false} CodeStep(vals: seq<nat>, ws: seq<nat>, log: nat, s: nat, b: nat)
    requires s < |ws| && |vals| == log + 1 && CodesAt(vals, ws, log, s) && b <= log
    requires ws[s] == if b == 0 then 0 else log + 1 - b
    ensures b >= 1 ==> IsCode(ws, log, s, vals[b])
    ensures CodesAt(vals[b := vals[b] + 1], ws, log, s + 1)
  {
    hide Num, Below, Shl, Cells;
    var next := vals[b := vals[b] + 1];
    forall n | 1 <= n <= log
      ensures Shl(next[n], log - n) == Below(ws, log + 1 - n) + Shl(Num(ws[..s + 1], log + 1 - n), log - n)
    {
      var w := log + 1 - n;
      NumMore(ws, s, w);
      if n == b {
        ShlPlus(vals[b], 1, log - n);
        ShlPlus(Num(ws[..s], w), 1, log - n);
      }
    }
  }

  // ---------- code and table agree ----------

  /** A code followed by any bits finds its symbol and its length. */
  lemma {:induction false} CodeFindsSymbol(dt: seq<Entry>, ws: seq<nat>, log: nat, s: nat, val: nat, suffix: nat)
    requires IsTable(dt, ws, log) && IsCode(ws, log, s, val) && suffix < Cells(ws[s])
    ensures ws[s] <= log && Shl(val, ws[s] - 1) + suffix < |dt|
    ensures dt[Shl(val, ws[s] - 1) + suffix] == Entry(s, log + 1 - ws[s])
  {
    hide Start, Below, Shl, Cells;
    assert HoldsSymbol(dt, ws, log, s);
  }

  /** Codes fit their length. */
  lemma {:induction false} CodeFits(ws: seq<nat>, log: nat, s: nat, val: nat)
    requires IsWeights(ws, log) && IsCode(ws, log, s, val)
    ensures ws[s] <= log && val < Pow2(log + 1 - ws[s])
  {
    hide Start, Below, Cells, Shl;
    RangeInTable(ws, log, s);
    var k := ws[s] - 1;
    if val >= Pow2(log - k) {
      ShlMono(Pow2(log - k), val, k);
      ShlMul(Pow2(log - k), k);
      Pow2Add(log - k, k);
      CellsPositive(ws[s]);
      assert false;
    }
  }

  lemma {:induction false} CellsPositive(w: nat)
    requires w >= 1
    ensures Cells(w) >= 1
  {
  }

  /** No code is the beginning of another. */
  lemma {:induction false} PrefixFree(ws: seq<nat>, log: nat, s: nat, a: nat, t: nat, b: nat)
    requires IsWeights(ws, log) && IsCode(ws, log, s, a) && IsCode(ws, log, t, b) && s != t && ws[t] <= ws[s]
    ensures Shr(b, ws[s] - ws[t]) != a
  {
    hide Start, Below, Cells, Shl, Shr;
    if Shr(b, ws[s] - ws[t]) == a {
      PrefixInside(a, b, ws[s] - ws[t], ws[t] - 1);
      CellsAre(ws[s]);
      CellsPositive(ws[t]);
      OwnerUnique(ws, s, t, Start(ws, t));
      assert false;
    }
  }

  /** A number with prefix `a` lies in the range of `a`. */
  lemma {:induction false} PrefixInside(a: nat, b: nat, d: nat, k: nat)
    requires Shr(b, d) == a
    ensures Shl(a, d + k) <= Shl(b, k) < Shl(a, d + k) + Pow2(d + k)
  {
    hide Shl, Shr, Pow2;
    ShrCompare(b, a, d);
    ShrCompare(b, a + 1, d);
    ShlMono(Shl(a, d), b, k);
    ShlMono(b, Shl(a + 1, d), k);
    ShlAdd(a, d, k);
    ShlAdd(a + 1, d, k);
    ShlPlus(a, 1, d + k);
    ShlOne(d + k);
  }

  lemma {:induction false} CellsAre(w: nat)
    requires w >= 1
    ensures Cells(w) == Pow2(w - 1)
  {
  }

  lemma {:induction false} OwnerIs(ws: seq<nat>, s: nat, u: nat)
    requires Owns(ws, s, u)
    ensures s < |ws| && ws[s] >= 1
  {
  }
}
