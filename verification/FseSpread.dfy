/** How FSE lays symbols over the state table: low-probability symbols from the top
    down, the others along a walk of constant odd step that skips the top area. */
module FseSpread {
  import opened Bits

  const MIN_TABLELOG := 5
  const MAX_TABLELOG := 12
  const MAX_SYMBOL_VALUE := 255

  /** Normalised counters: -1 marks a symbol of low probability, which takes one cell. */
  predicate IsNorm(norm: seq<int>) {
    && 1 <= |norm| <= MAX_SYMBOL_VALUE + 1
    && forall s :: 0 <= s < |norm| ==> norm[s] >= -1
  }

  function Weight(n: int): nat { if n < 0 then -n else n }

  function LowCount(norm: seq<int>): nat {
    if norm == [] then 0
    else LowCount(norm[..|norm| - 1]) + (if norm[|norm| - 1] == -1 then 1 else 0)
  }

  function PosSum(norm: seq<int>): nat {
    if norm == [] then 0
    else PosSum(norm[..|norm| - 1]) + (if norm[|norm| - 1] > 0 then norm[|norm| - 1] else 0)
  }

  function TableStep(tableSize: nat): nat { tableSize / 2 + tableSize / 8 + 3 }

  function Repeat(v: nat, n: nat): (r: seq<nat>)
    ensures |r| == n && forall i :: 0 <= i < n ==> r[i] == v
  {
    if n == 0 then [] else Repeat(v, n - 1) + [v]
  }

  /** The symbols in walk order. */
  function Occurrences(norm: seq<int>): (occ: seq<nat>)
    ensures |occ| == PosSum(norm)
  {
    if norm == [] then []
    else
      var n := |norm| - 1;
      Occurrences(norm[..n]) + Repeat(n, if norm[n] > 0 then norm[n] else 0)
  }

  function LowSymbols(norm: seq<int>): (low: seq<nat>)
    ensures |low| == LowCount(norm)
  {
    if norm == [] then []
    else
      var n := |norm| - 1;
      LowSymbols(norm[..n]) + if norm[n] == -1 then [n] else []
  }

  /** `(position + step) & (tableSize - 1)` for a step below the table size. */
  function Step(position: nat, step: nat, size: nat): (p: int)
  {
    if position + step < size then position + step else position + step - size
  }

  lemma {:induction false} StepIsMask(position: nat, L: nat)
    requires L >= 5 && position < Pow2(L)
    ensures Step(position, TableStep(Pow2(L)), Pow2(L)) == Mask(position + TableStep(Pow2(L)), L)
    ensures 0 <= Step(position, TableStep(Pow2(L)), Pow2(L)) < Pow2(L)
  {
    StepBound(L);
    var v := position + TableStep(Pow2(L));
    if v < Pow2(L) {
      MaskSmall(v, L);
    } else {
      ShlMul(1, L);
      ShrUnique(v - Pow2(L), 1, L);
    }
  }

  lemma {:induction false} StepBound(L: nat)
    requires L >= 5
    ensures TableStep(Pow2(L)) < Pow2(L) && TableStep(Pow2(L)) % 2 == 1
  {
    Pow2Sixteen(L - 4);
    hide Pow2;
    var h := Pow2(L - 4);
    assert (16 * h) / 2 == 8 * h && (16 * h) / 8 == 2 * h;
  }

  lemma {:induction false} Pow2Sixteen(n: nat)
    ensures Pow2(n + 4) == 16 * Pow2(n)
  {
    assert Pow2(n + 4) == 2 * Pow2(n + 3) && Pow2(n + 3) == 2 * Pow2(n + 2);
    assert Pow2(n + 2) == 2 * Pow2(n + 1);
  }

  /** The cell reached after `k` steps of the unfiltered walk. */
  function Visit(L: nat, k: nat): (c: nat)
    requires L >= 5
    ensures c < Pow2(L)
  {
    StepBound(L);
    if k == 0 then 0 else Step(Visit(L, k - 1), TableStep(Pow2(L)), Pow2(L))
  }

  /** How many of the first `k` cells of the walk lie below `free`. */
  function Rank(L: nat, free: nat, k: nat): (r: nat)
    requires L >= 5
    ensures r <= k
  {
    if k == 0 then 0
    else Rank(L, free, k - 1) + if Visit(L, k - 1) < free then 1 else 0
  }

  ghost predicate Filled(L: nat, free: nat, k: nat, occ: seq<nat>, table: seq<byte>)
    requires L >= 5 && free <= Pow2(L) == |table|
  {
    forall i :: 0 <= i < k && Visit(L, i) < free ==>
      Rank(L, free, i) < |occ| && table[Visit(L, i)] == occ[Rank(L, free, i)]
  }

  ghost predicate LowLaid(low: seq<nat>, table: seq<byte>)
    requires |low| <= |table|
  {
    forall i :: 0 <= i < |low| ==> table[|table| - 1 - i] == low[i]
  }

  /** The layout: low symbols from the top down, then the r-th occurrence in the r-th
      cell of the walk that lies below them. */
  ghost predicate IsSpread(norm: seq<int>, L: nat, table: seq<byte>) {
    && L >= 5
    && LowCount(norm) <= Pow2(L) == |table|
    && LowLaid(LowSymbols(norm), table)
    && Filled(L, Pow2(L) - LowCount(norm), Pow2(L), Occurrences(norm), table)
  }

  /** Low symbols are laid out by rising symbol. */
  lemma {:induction false} LowInOrder(norm: seq<int>)
    ensures var low := LowSymbols(norm);
      (forall i :: 0 <= i < |low| ==> low[i] < |norm| && norm[low[i]] == -1) && forall i, j :: 0 <= i < j < |low| ==> low[i] < low[j]
  {
    if norm != [] {
      var n := |norm| - 1;
      LowInOrder(norm[..n]);
      assert forall i :: 0 <= i < |LowSymbols(norm[..n])| ==> LowSymbols(norm[..n])[i] < n;
      var front, low := LowSymbols(norm[..n]), LowSymbols(norm);
      forall i | 0 <= i < |low| ensures low[i] < |norm| && norm[low[i]] == -1 && (i < |front| ==> low[i] < n) {
        if i < |front| { assert norm[..n][front[i]] == norm[front[i]]; }
      }
    }
  }

  /** And so are the occurrences of the others. */
  lemma {:induction false} OccurrencesInOrder(norm: seq<int>)
    ensures var occ := Occurrences(norm);
      (forall i :: 0 <= i < |occ| ==> occ[i] < |norm| && norm[occ[i]] > 0) && forall i, j :: 0 <= i < j < |occ| ==> occ[i] <= occ[j]
  {
    if norm != [] {
      var n := |norm| - 1;
      OccurrencesInOrder(norm[..n]);
      assert forall i :: 0 <= i < |Occurrences(norm[..n])| ==> Occurrences(norm[..n])[i] < n;
      var front, occ := Occurrences(norm[..n]), Occurrences(norm);
      forall i | 0 <= i < |occ| ensures occ[i] < |norm| && norm[occ[i]] > 0 && (if i < |front| then occ[i] < n else occ[i] == n) {
        if i < |front| { assert norm[..n][front[i]] == norm[front[i]]; }
      }
    }
  }

  // ---------- the walk is one full cycle ----------

  lemma {:induction false} VisitClosed(L: nat, k: nat) returns (q: int)
    requires L >= 5
    ensures k * TableStep(Pow2(L)) == Visit(L, k) + Pow2(L) * q
  {
    if k == 0 {
      q := 0;
    } else {
      q := VisitClosed(L, k - 1);
      var step, size, c := TableStep(Pow2(L)), Pow2(L), Visit(L, k - 1);
      OneMoreStep(k, step, size, c, q);
      if c + step >= size { q := q + 1; }
    }
  }

  lemma {:induction false} OneMoreStep(k: int, step: int, size: int, c: int, q: int)
    requires (k - 1) * step == c + size * q
    ensures k * step == c + step + size * q
    ensures k * step == c + step - size + size * (q + 1)
  {
    assert k * step == (k - 1) * step + step;
    assert size * (q + 1) == size * q + size;
  }

  /** An odd factor cancels modulo a power of two. */
  lemma {:induction false} OddCancels(L: nat, a: int, m: int, q: int) returns (p: int)
    requires m % 2 == 1 && a * m == Pow2(L) * q
    ensures a == Pow2(L) * p
  {
    if L == 0 {
      p := a;
    } else {
      var h := Pow2(L - 1);
      MulAssoc(2, h, q);
      EvenFactor(a, m, h * q);
      var b := a / 2;
      MulAssoc(2, b, m);
      p := OddCancels(L - 1, b, m, q);
      MulAssoc(2, h, p);
    }
  }

  lemma {:induction false} EvenFactor(a: int, m: int, h: int)
    requires m % 2 == 1 && a * m == 2 * h
    ensures a % 2 == 0
  {
    var n := m / 2;
    assert a * (2 * n + 1) == 2 * (a * n) + a;
  }

  /** Cell number `k` of the walk is `k` steps of five eighths of the table and three. */
  lemma {:induction false} VisitIs(L: nat, k: nat)
    requires L >= 5
    ensures Visit(L, k) == k * (5 * Pow2(L - 3) + 3) % Pow2(L)
  {
    var q := VisitClosed(L, k);
    EighthOf(L);
    DivModUnique(k * TableStep(Pow2(L)), Pow2(L), q, Visit(L, k));
  }

  lemma {:induction false} EighthOf(L: nat)
    requires L >= 3
    ensures TableStep(Pow2(L)) == 5 * Pow2(L - 3) + 3
  {
    assert Pow2(L) == 2 * Pow2(L - 1) && Pow2(L - 1) == 2 * Pow2(L - 2) && Pow2(L - 2) == 2 * Pow2(L - 3);
  }

  lemma {:induction false} VisitInjective(L: nat, i: nat, j: nat)
    requires L >= 5 && i < j < Pow2(L)
    ensures Visit(L, i) != Visit(L, j)
  {
    if Visit(L, i) == Visit(L, j) {
      StepBound(L);
      var qi := VisitClosed(L, i);
      var qj := VisitClosed(L, j);
      Difference(i, j, TableStep(Pow2(L)), Pow2(L), Visit(L, i), qi, qj);
      var p := OddCancels(L, j - i, TableStep(Pow2(L)), qj - qi);
      SmallMultiple(j - i, Pow2(L), p);
    }
  }

  lemma {:induction false} Difference(i: int, j: int, step: int, size: int, c: int, qi: int, qj: int)
    requires i * step == c + size * qi && j * step == c + size * qj
    ensures (j - i) * step == size * (qj - qi)
  {
  }

  lemma {:induction false} SmallMultiple(x: int, size: int, p: int)
    requires 0 <= x < size && x == size * p
    ensures x == 0
  {
    if p >= 1 { MulMono(1, p, size); } else if p <= -1 { MulMono(p, -1, size); }
  }

  lemma {:induction false} VisitReturns(L: nat)
    requires L >= 5
    ensures Visit(L, Pow2(L)) == 0
  {
    var q := VisitClosed(L, Pow2(L));
    Remainder(Pow2(L), TableStep(Pow2(L)), Visit(L, Pow2(L)), q);
  }

  lemma {:induction false} Remainder(size: int, step: int, c: int, q: int)
    requires 0 <= c < size && size * step == c + size * q
    ensures c == 0
  {
    assert c == size * (step - q);
    SmallMultiple(c, size, step - q);
  }

  /** The cells reached by the first `k` steps that lie below `free`. */
  ghost function Reached(L: nat, free: nat, k: nat): (r: set<nat>)
    requires L >= 5
    ensures forall c :: c in r ==> c < free
  {
    if k == 0 then {}
    else Reached(L, free, k - 1) + if Visit(L, k - 1) < free then {Visit(L, k - 1)} else {}
  }

  ghost predicate PassesAt(L: nat, i: nat, c: nat)
    requires L >= 5
  {
    Visit(L, i) == c
  }

  lemma {:induction false} ReachedIs(L: nat, free: nat, k: nat, c: nat)
    requires L >= 5
    ensures c in Reached(L, free, k) <==> c < free && exists i: nat :: i < k && PassesAt(L, i, c)
  {
    hide Visit;
    if k != 0 {
      ReachedIs(L, free, k - 1, c);
      assert PassesAt(L, k - 1, c) <==> Visit(L, k - 1) == c;
    }
  }

  lemma {:induction false} ReachedSize(L: nat, free: nat, k: nat)
    requires L >= 5 && k <= Pow2(L)
    ensures |Reached(L, free, k)| == Rank(L, free, k)
  {
    hide Visit, Pow2;
    if k != 0 {
      ReachedSize(L, free, k - 1);
      var c := Visit(L, k - 1);
      ReachedIs(L, free, k - 1, c);
      forall i: nat | i < k - 1 ensures !PassesAt(L, i, c) { VisitInjective(L, i, k - 1); }
    }
  }

  ghost function Below(n: nat): (s: set<nat>)
    ensures forall c :: c in s <==> 0 <= c < n
    ensures |s| == n
  {
    if n == 0 then {} else Below(n - 1) + {n - 1}
  }

  lemma {:induction false} SubsetOfSameSize(a: set<nat>, b: set<nat>)
    requires a <= b && |a| == |b|
    ensures a == b
  {
    if a != b {
      var x :| x in b && x !in a;
      assert a <= b - {x};
      SubsetSize(a, b - {x});
    }
  }

  lemma {:induction false} SubsetSize(a: set<nat>, b: set<nat>)
    requires a <= b
    ensures |a| <= |b|
  {
    if a != {} {
      var x :| x in a;
      SubsetSize(a - {x}, b - {x});
    }
  }

  lemma {:induction false} RankAll(L: nat, k: nat)
    requires L >= 5 && k <= Pow2(L)
    ensures Rank(L, Pow2(L), k) == k
  {
    if k != 0 { RankAll(L, k - 1); }
  }

  /** The walk passes through every cell. */
  lemma {:induction false} VisitSurjective(L: nat, c: nat) returns (k: nat)
    requires L >= 5 && c < Pow2(L)
    ensures k < Pow2(L) && Visit(L, k) == c
  {
    var size := Pow2(L);
    ReachedSize(L, size, size);
    RankAll(L, size);
    SubsetOfSameSize(Reached(L, size, size), Below(size));
    ReachedIs(L, size, size, c);
    k :| k < size && PassesAt(L, k, c);
  }

  /** A full round meets each of the `free` low cells once. */
  lemma {:induction false} RankFull(L: nat, free: nat)
    requires L >= 5 && free <= Pow2(L)
    ensures Rank(L, free, Pow2(L)) == free
    ensures Reached(L, free, Pow2(L)) == Below(free)
  {
    var size := Pow2(L);
    ReachedSize(L, free, size);
    forall c | c in Below(free) ensures c in Reached(L, free, size) {
      var k := VisitSurjective(L, c);
      assert PassesAt(L, k, c);
      ReachedIs(L, free, size, c);
    }
    assert Reached(L, free, size) == Below(free);
  }

  // ---------- each symbol gets its share ----------

  function Count(s: seq<int>, x: int): (n: nat)
    ensures n <= |s|
  {
    if s == [] then 0
    else Count(s[..|s| - 1], x) + if s[|s| - 1] == x then 1 else 0
  }

  lemma {:induction false} CountConcat(a: seq<int>, b: seq<int>, x: int)
    ensures Count(a + b, x) == Count(a, x) + Count(b, x)
  {
    if b == [] {
      assert a + b == a;
    } else {
      CountConcat(a, b[..|b| - 1], x);
      assert (a + b)[..|a + b| - 1] == a + b[..|b| - 1];
    }
  }

  lemma {:induction false} CountRepeat(v: nat, n: nat, x: nat)
    ensures Count(Repeat(v, n), x) == if v == x then n else 0
  {
    if n != 0 {
      assert Repeat(v, n)[..n - 1] == Repeat(v, n - 1);
      CountRepeat(v, n - 1, x);
    }
  }

  lemma {:induction false} CountPrefixLe(s: seq<int>, i: nat, j: nat, x: int)
    requires i <= j <= |s|
    ensures Count(s[..i], x) <= Count(s[..j], x)
    ensures i < j && s[i] == x ==> Count(s[..i], x) < Count(s[..j], x)
  {
    if i < j {
      CountPrefixLe(s, i, j - 1, x);
      assert s[..j][..j - 1] == s[..j - 1];
    }
  }

  lemma {:induction false} CountOccurrences(norm: seq<int>, s: nat)
    ensures Count(Occurrences(norm), s) == if s < |norm| && norm[s] > 0 then norm[s] else 0
  {
    hide Count, Repeat, PosSum;
    if norm != [] {
      var n := |norm| - 1;
      var k := if norm[n] > 0 then norm[n] else 0;
      CountOccurrences(norm[..n], s);
      CountConcat(Occurrences(norm[..n]), Repeat(n, k), s);
      CountRepeat(n, k, s);
    }
  }

  lemma {:induction false} CountLow(norm: seq<int>, s: nat)
    ensures Count(LowSymbols(norm), s) == if s < |norm| && norm[s] == -1 then 1 else 0
  {
    if norm != [] {
      var n := |norm| - 1;
      CountLow(norm[..n], s);
      CountConcat(LowSymbols(norm[..n]), [n], s);
      assert Count([n], s) == if n == s then 1 else 0 by { assert [n] == Repeat(n, 1); CountRepeat(n, 1, s); }
      assert LowSymbols(norm[..n]) + [] == LowSymbols(norm[..n]);
    }
  }

  /** Cells of a set that hold a symbol. */
  ghost function Holding(cells: set<nat>, table: seq<byte>, s: nat): set<nat>
  {
    set c | c in cells && c < |table| && table[c] == s
  }

  lemma {:induction false} HoldingAdd(cells: set<nat>, c: nat, table: seq<byte>, s: nat)
    requires c !in cells && c < |table|
    ensures |Holding(cells + {c}, table, s)| == |Holding(cells, table, s)| + if table[c] == s then 1 else 0
  {
    var before := Holding(cells, table, s);
    assert Holding(cells + {c}, table, s) == before + if table[c] == s then {c} else {};
  }

  lemma {:induction false} HoldingNone(table: seq<byte>, s: nat)
    ensures Holding({}, table, s) == {}
  {
  }

  lemma {:induction false} CountEmpty(s: seq<int>, x: int)
    requires s == []
    ensures Count(s, x) == 0
  {
  }

  lemma {:induction false} CountNext(s: seq<int>, n: nat, x: int)
    requires n < |s|
    ensures Count(s[..n + 1], x) == Count(s[..n], x) + if s[n] == x then 1 else 0
  {
    assert s[..n + 1][..n] == s[..n];
  }

  lemma {:induction false} HoldingReached(L: nat, free: nat, k: nat, occ: seq<nat>, table: seq<byte>, s: nat)
    requires L >= 5 && k <= Pow2(L) == |table| && free <= Pow2(L)
    requires Filled(L, free, k, occ, table)
    ensures Rank(L, free, k) <= |occ|
    ensures |Holding(Reached(L, free, k), table, s)| == Count(occ[..Rank(L, free, k)], s)
  {
    hide Visit, Pow2, Count, Holding, Filled;
    if k == 0 {
      HoldingNone(table, s);
      CountEmpty(occ[..0], s);
    } else {
      FilledBefore(L, free, k, occ, table);
      HoldingReached(L, free, k - 1, occ, table, s);
      HoldingStep(L, free, k - 1, occ, table, s);
    }
  }

  lemma {:induction false} FilledBefore(L: nat, free: nat, k: nat, occ: seq<nat>, table: seq<byte>)
    requires L >= 5 && 0 < k && free <= Pow2(L) == |table| && Filled(L, free, k, occ, table)
    ensures Filled(L, free, k - 1, occ, table)
  {
  }

  lemma {:induction false} HoldingStep(L: nat, free: nat, k: nat, occ: seq<nat>, table: seq<byte>, s: nat)
    requires L >= 5 && k < Pow2(L) == |table| && free <= Pow2(L)
    requires Filled(L, free, k + 1, occ, table)
    requires Rank(L, free, k) <= |occ|
    requires |Holding(Reached(L, free, k), table, s)| == Count(occ[..Rank(L, free, k)], s)
    ensures Rank(L, free, k + 1) <= |occ|
    ensures |Holding(Reached(L, free, k + 1), table, s)| == Count(occ[..Rank(L, free, k + 1)], s)
  {
    hide Visit, Pow2, Count, Holding;
    if Visit(L, k) < free {
      NotYetReached(L, free, k);
      HoldingAdd(Reached(L, free, k), Visit(L, k), table, s);
      CountNext(occ, Rank(L, free, k), s);
    } else {
      assert Reached(L, free, k + 1) == Reached(L, free, k);
    }
  }

  lemma {:induction false} NotYetReached(L: nat, free: nat, k: nat)
    requires L >= 5 && k < Pow2(L)
    ensures Visit(L, k) !in Reached(L, free, k)
  {
    ReachedIs(L, free, k, Visit(L, k));
    forall i: nat | i < k ensures !PassesAt(L, i, Visit(L, k)) { VisitInjective(L, i, k); }
  }

  lemma {:induction false} HoldingBelow(n: nat, table: seq<byte>, s: byte)
    requires n <= |table|
    ensures |Holding(Below(n), table, s)| == Count(table[..n], s)
  {
    hide Count, Holding;
    if n == 0 {
      HoldingNone(table, s);
      CountEmpty(table[..0], s);
    } else {
      HoldingBelow(n - 1, table, s);
      HoldingAdd(Below(n - 1), n - 1, table, s);
      CountNext(table, n - 1, s);
    }
  }

  lemma {:induction false} CountLaid(low: seq<nat>, table: seq<byte>, s: byte)
    requires |low| <= |table| && LowLaid(low, table)
    ensures Count(table[|table| - |low|..], s) == Count(low, s)
  {
    if low != [] {
      var n := |low| - 1;
      CountLaid(low[..n], table, s);
      var cut := |table| - |low|;
      assert table[cut..] == [table[cut]] + table[cut + 1..];
      CountConcat([table[cut]], table[cut + 1..], s);
      assert table[cut] == low[n];
      assert [table[cut]][..0] == [];
    }
  }

  lemma {:induction false} CountFree(L: nat, free: nat, occ: seq<nat>, table: seq<byte>, s: byte)
    requires L >= 5 && free == |occ| <= Pow2(L) == |table|
    requires Filled(L, free, Pow2(L), occ, table)
    ensures Count(table[..free], s) == Count(occ, s)
  {
    RankFull(L, free);
    HoldingReached(L, free, Pow2(L), occ, table, s);
    HoldingBelow(free, table, s);
    assert occ[..free] == occ;
  }

  /** In a spread table every symbol holds exactly as many cells as its norm says. */
  lemma {:induction false} SpreadCounts(norm: seq<int>, L: nat, table: seq<byte>, s: byte)
    requires L >= 5 && IsNorm(norm) && IsSpread(norm, L, table)
    requires PosSum(norm) + LowCount(norm) == Pow2(L)
    ensures Count(table, s) == if s < |norm| then Weight(norm[s]) else 0
  {
    hide Count, Pow2, PosSum, LowCount, Filled, LowLaid, LowSymbols, Occurrences;
    var free := Pow2(L) - LowCount(norm);
    CountFree(L, free, Occurrences(norm), table, s);
    CountOccurrences(norm, s);
    CountLaid(LowSymbols(norm), table, s);
    CountLow(norm, s);
    assert table == table[..free] + table[free..];
    CountConcat(table[..free], table[free..], s);
  }

  /** The layout is unique: encoder and decoder cannot disagree on it. */
  lemma {:induction false} SpreadUnique(norm: seq<int>, L: nat, a: seq<byte>, b: seq<byte>)
    requires L >= 5 && IsSpread(norm, L, a) && IsSpread(norm, L, b)
    ensures a == b
  {
    var size := Pow2(L);
    var free := size - LowCount(norm);
    forall c | 0 <= c < size ensures a[c] == b[c] {
      if c < free {
        var k := VisitSurjective(L, c);
      } else {
        var i := size - 1 - c;
        assert a[size - 1 - i] == LowSymbols(norm)[i] && b[size - 1 - i] == LowSymbols(norm)[i];
      }
    }
  }

  // ---------- the loops ----------

  /** One step along the walk, then on until the cell is outside the low area. From the
      `k`-th cell of the round this is the next free cell, or cell 0 once the round is
      complete. */
  method NextPosition(L: nat, free: nat, position: nat, ghost k: nat) returns (p: nat, ghost k': nat)
    requires L >= 5 && 0 < free <= Pow2(L)
    requires k < Pow2(L) && position == Visit(L, k) < free
    ensures p < free && k' < Pow2(L) && p == Visit(L, k')
    ensures k' != 0 ==> k < k' && Rank(L, free, k') == Rank(L, free, k) + 1
    ensures k' != 0 ==> forall i :: k < i < k' ==> Visit(L, i) >= free
    ensures k' == 0 ==> Rank(L, free, k) + 1 == free
    ensures k' == 0 ==> forall i :: k < i < Pow2(L) ==> Visit(L, i) >= free
  {
    hide Visit, Rank, Mask, Pow2, TableStep;
    var size := Pow2(L);
    var step := TableStep(size);
    WalkNext(L, free, k);
    p, k' := Mask(position + step, L), k + 1;
    VisitReturns(L);
    while p >= free
      invariant k < k' <= size && p == Visit(L, k') < size
      invariant Rank(L, free, k') == Rank(L, free, k) + 1
      invariant forall i :: k < i < k' ==> Visit(L, i) >= free
      decreases size - k'
    {
      WalkNext(L, free, k');
      p, k' := Mask(p + step, L), k' + 1;
    }
    if k' == size {
      RankFull(L, free);
      k' := 0;
      VisitStarts(L);
    }
  }

  lemma {:induction false} WalkNext(L: nat, free: nat, k: nat)
    requires L >= 5
    ensures Visit(L, k + 1) == Mask(Visit(L, k) + TableStep(Pow2(L)), L)
    ensures Rank(L, free, k + 1) == Rank(L, free, k) + if Visit(L, k) < free then 1 else 0
  {
    StepIsMask(Visit(L, k), L);
  }

  lemma {:induction false} VisitStarts(L: nat)
    requires L >= 5
    ensures Visit(L, 0) == 0
  {
  }

  lemma {:induction false} OccurrenceOf(norm: seq<int>, s: nat, i: nat)
    requires s < |norm| && i < norm[s]
    ensures PosSum(norm[..s]) + i < PosSum(norm)
    ensures Occurrences(norm)[PosSum(norm[..s]) + i] == s
  {
    hide PosSum, Repeat;
    var n := |norm| - 1;
    assert norm[..n + 1] == norm;
    PosSumNext(norm, n);
    if s < n {
      assert norm[..n][..s] == norm[..s];
      OccurrenceOf(norm[..n], s, i);
    }
  }

  /** Writing the next occurrence in the next free cell extends the filled part. */
  lemma {:induction false} FilledNext(L: nat, free: nat, k: nat, to: nat, occ: seq<nat>, before: seq<byte>, after: seq<byte>)
    requires L >= 5 && free <= Pow2(L) == |before| && k < to <= Pow2(L)
    requires Filled(L, free, k, occ, before)
    requires Visit(L, k) < free && Rank(L, free, k) < |occ|
    requires 0 <= occ[Rank(L, free, k)] < 256 && after == before[Visit(L, k) := occ[Rank(L, free, k)]]
    requires forall i :: k < i < to ==> Visit(L, i) >= free
    ensures Filled(L, free, to, occ, after)
  {
    hide Visit, Rank, Pow2;
    forall i | 0 <= i < to && Visit(L, i) < free
      ensures Rank(L, free, i) < |occ| && after[Visit(L, i)] == occ[Rank(L, free, i)]
    {
      if i < k { VisitInjective(L, i, k); }
    }
  }

  lemma {:induction false} PosSumNext(norm: seq<int>, s: nat)
    requires s < |norm|
    ensures PosSum(norm[..s + 1]) == PosSum(norm[..s]) + if norm[s] > 0 then norm[s] else 0
    ensures LowCount(norm[..s + 1]) == LowCount(norm[..s]) + if norm[s] == -1 then 1 else 0
    ensures LowSymbols(norm[..s + 1]) == LowSymbols(norm[..s]) + if norm[s] == -1 then [s] else []
  {
    assert norm[..s + 1][..s] == norm[..s];
  }

  lemma {:induction false} LowCountPrefix(norm: seq<int>, s: nat)
    requires s <= |norm|
    ensures LowCount(norm[..s]) <= LowCount(norm) && PosSum(norm[..s]) <= PosSum(norm)
  {
    if s < |norm| {
      LowCountPrefix(norm[..|norm| - 1], s);
      assert norm[..|norm| - 1][..s] == norm[..s];
    } else {
      assert norm[..s] == norm;
    }
  }

  method LayLowSymbols(norm: seq<int>, table: array<byte>) returns (free: nat)
    requires IsNorm(norm) && LowCount(norm) <= table.Length
    modifies table
    ensures free == table.Length - LowCount(norm)
    ensures LowLaid(LowSymbols(norm), table[..])
  {
    hide LowCount, LowSymbols, PosSum;
    free := table.Length;
    LowNone(norm[..0]);
    for s := 0 to |norm|
      invariant free == table.Length - LowCount(norm[..s])
      invariant LowCount(norm[..s]) <= table.Length
      invariant LowLaid(LowSymbols(norm[..s]), table[..])
    {
      PosSumNext(norm, s);
      LowCountPrefix(norm, s + 1);
      if norm[s] == -1 {
        free := free - 1;
        table[free] := s;
      }
    }
    assert norm[..|norm|] == norm;
  }

  lemma {:induction false} LowNone(norm: seq<int>)
    requires norm == []
    ensures LowCount(norm) == 0 && PosSum(norm) == 0
  {
  }

  /** Where the walk stands after `total` placements: in the `k`-th cell of a round of
      `free` placements, the cells before it holding the first occurrences. */
  ghost predicate Walking(L: nat, free: nat, occ: seq<nat>, low: seq<nat>, k: nat, total: nat, position: nat, table: seq<byte>) {
    && L >= 5 && k < Pow2(L) == |table| && 0 < free <= |table| && |low| == |table| - free
    && position == Visit(L, k) < free
    && Rank(L, free, k) == total % free
    && (total < free ==> Filled(L, free, k, occ, table))
    && (total == free ==> Filled(L, free, Pow2(L), occ, table))
    && LowLaid(low, table)
  }

  lemma {:induction false} ModNext(total: nat, free: nat)
    requires free > 0
    ensures (total + 1) % free == if total % free + 1 == free then 0 else total % free + 1
    ensures total < free ==> total % free == total
  {
    var q, r := total / free, total % free;
    if total < free { DivModUnique(total, free, 0, total); }
    if r + 1 == free {
      assert free * (q + 1) == free * q + free;
      DivModUnique(total + 1, free, q + 1, 0);
    } else {
      DivModUnique(total + 1, free, q, r + 1);
    }
  }

  lemma {:induction false} RankGrows(L: nat, free: nat, i: nat, k: nat)
    requires L >= 5 && i <= k
    ensures Rank(L, free, i) <= Rank(L, free, k)
  {
    if i < k { RankGrows(L, free, i, k - 1); }
  }

  lemma {:induction false} PlacedStep(L: nat, free: nat, occ: seq<nat>, low: seq<nat>, k: nat, k': nat, total: nat,
                                      position: nat, p: nat, before: seq<byte>, after: seq<byte>)
    requires Walking(L, free, occ, low, k, total, position, before)
    requires total < |occ| && 0 <= occ[total] < 256 && after == before[position := occ[total]]
    requires p < free && k' < Pow2(L) && p == Visit(L, k')
    requires k' != 0 ==> k < k' && Rank(L, free, k') == Rank(L, free, k) + 1
    requires k' != 0 ==> forall i :: k < i < k' ==> Visit(L, i) >= free
    requires k' == 0 ==> Rank(L, free, k) + 1 == free
    requires k' == 0 ==> forall i :: k < i < Pow2(L) ==> Visit(L, i) >= free
    ensures Walking(L, free, occ, low, k', total + 1, p, after)
  {
    hide Visit, Rank, Pow2, Filled, LowLaid;
    RankStarts(L, free);
    ModNext(total, free);
    if k' != 0 { RankLast(L, free, k'); }
    if total < free {
      FilledNext(L, free, k, if k' == 0 then Pow2(L) else k', occ, before, after);
    }
    NothingFilled(L, free, occ, after);
    LowUntouched(low, before, position, occ[total]);
  }

  lemma {:induction false} LowUntouched(low: seq<nat>, table: seq<byte>, position: nat, s: byte)
    requires |low| <= |table| && LowLaid(low, table) && position < |table| - |low|
    ensures LowLaid(low, table[position := s])
  {
  }

  lemma {:induction false} NothingFilled(L: nat, free: nat, occ: seq<nat>, table: seq<byte>)
    requires L >= 5 && free <= Pow2(L) == |table|
    ensures Filled(L, free, 0, occ, table)
  {
  }

  lemma {:induction false} RankStarts(L: nat, free: nat)
    requires L >= 5
    ensures Rank(L, free, 0) == 0 && Visit(L, 0) == 0
  {
  }

  /** A free cell met within the round is not beyond the last one. */
  lemma {:induction false} RankLast(L: nat, free: nat, k: nat)
    requires L >= 5 && free <= Pow2(L) && k < Pow2(L) && Visit(L, k) < free
    ensures Rank(L, free, k) < free
  {
    RankFull(L, free);
    WalkNext(L, free, k);
    RankGrows(L, free, k + 1, Pow2(L));
  }

  method Place(L: nat, free: nat, table: array<byte>, position: nat, symbol: byte,
               ghost occ: seq<nat>, ghost low: seq<nat>, ghost k: nat, ghost total: nat)
    returns (p: nat, ghost k': nat)
    requires Walking(L, free, occ, low, k, total, position, table[..])
    requires total < |occ| && occ[total] == symbol
    modifies table
    ensures Walking(L, free, occ, low, k', total + 1, p, table[..])
  {
    hide Visit, Rank, Pow2, Filled, LowLaid;
    ghost var before := table[..];
    table[position] := symbol;
    p, k' := NextPosition(L, free, position, k);
    PlacedStep(L, free, occ, low, k, k', total, position, p, before, table[..]);
  }

  lemma {:induction false} RoundComplete(L: nat, free: nat, k: nat, total: nat)
    requires L >= 5 && 0 < free <= Pow2(L) && k < Pow2(L)
    requires Visit(L, k) < free && Rank(L, free, k) == total % free
    ensures Visit(L, k) == 0 <==> total % free == 0
  {
    RankStarts(L, free);
    if k != 0 {
      VisitInjective(L, 0, k);
      WalkNext(L, free, 0);
      RankGrows(L, free, 1, k);
    }
  }

  /** The invariant of the layout loop; a table without free cells is never walked. */
  ghost predicate WalkInv(norm: seq<int>, L: nat, free: nat, k: nat, total: nat, position: nat, table: seq<byte>) {
    if free == 0 then position == 0 && |table| == LowCount(norm) && LowLaid(LowSymbols(norm), table)
    else Walking(L, free, Occurrences(norm), LowSymbols(norm), k, total, position, table)
  }

  method PlaceSymbol(norm: seq<int>, L: nat, free: nat, table: array<byte>, start: nat, symbol: byte,
                     ghost k0: nat, ghost total0: nat)
    returns (position: nat, ghost k: nat, ghost total: nat)
    requires symbol < |norm| && total0 == PosSum(norm[..symbol])
    requires free == 0 ==> PosSum(norm) == 0
    requires WalkInv(norm, L, free, k0, total0, start, table[..])
    modifies table
    ensures total == PosSum(norm[..symbol + 1])
    ensures WalkInv(norm, L, free, k, total, position, table[..])
  {
    hide PosSum, LowCount, Occurrences, LowSymbols, Pow2, Walking, Filled, LowLaid;
    PosSumNext(norm, symbol);
    position, k, total := start, k0, total0;
    var nbOccurrences := 0;
    while nbOccurrences < norm[symbol]
      invariant 0 <= nbOccurrences && total == total0 + nbOccurrences
      invariant nbOccurrences == 0 || nbOccurrences <= norm[symbol]
      invariant WalkInv(norm, L, free, k, total, position, table[..])
    {
      OccurrenceOf(norm, symbol, nbOccurrences);
      position, k := Place(L, free, table, position, symbol, Occurrences(norm), LowSymbols(norm), k, total);
      nbOccurrences, total := nbOccurrences + 1, total + 1;
    }
  }

  /** The closing test of the layout: a whole number of rounds over the free cells. */
  ghost predicate WholeRounds(norm: seq<int>, L: nat) {
    LowCount(norm) < Pow2(L) ==> PosSum(norm) % (Pow2(L) - LowCount(norm)) == 0
  }

  /** The two layout loops of `FSE_buildCTable_wksp` and `FSE_buildDTable`. The closing
      test accepts exactly the norms whose positive part is a whole number of rounds;
      for the right total that is one round, and the table is the spread. */
  method SpreadSymbols(norm: seq<int>, L: nat, table: array<byte>) returns (ok: bool)
    requires IsNorm(norm) && L >= MIN_TABLELOG && table.Length == Pow2(L)
    requires LowCount(norm) <= Pow2(L)
    requires LowCount(norm) == Pow2(L) ==> PosSum(norm) == 0
    modifies table
    ensures ok <==> WholeRounds(norm, L)
    ensures PosSum(norm) + LowCount(norm) == Pow2(L) ==> ok && IsSpread(norm, L, table[..])
  {
    hide PosSum, LowCount, Occurrences, LowSymbols, Pow2, Walking, Filled, LowLaid, IsSpread, WholeRounds;
    var free := LayLowSymbols(norm, table);
    var position: nat := 0;
    ghost var k, total := 0, 0;
    if free > 0 { WalkStarts(L, free, Occurrences(norm), LowSymbols(norm), table[..]); }
    LowNone(norm[..0]);
    for symbol := 0 to |norm|
      invariant total == PosSum(norm[..symbol])
      invariant WalkInv(norm, L, free, k, total, position, table[..])
    {
      position, k, total := PlaceSymbol(norm, L, free, table, position, symbol, k, total);
    }
    assert norm[..|norm|] == norm;
    ok := position == 0;
    SpreadDone(norm, L, free, table[..], k, position);
  }

  lemma {:induction false} WalkStarts(L: nat, free: nat, occ: seq<nat>, low: seq<nat>, table: seq<byte>)
    requires L >= 5 && 0 < free <= Pow2(L) == |table| && |low| == |table| - free && LowLaid(low, table)
    ensures Walking(L, free, occ, low, 0, 0, 0, table)
  {
    RankStarts(L, free);
    ModNext(0, free);
  }

  lemma {:induction false} WalkEnds(L: nat, free: nat, occ: seq<nat>, low: seq<nat>, k: nat, total: nat, position: nat, table: seq<byte>)
    requires Walking(L, free, occ, low, k, total, position, table)
    ensures position == 0 <==> total % free == 0
    ensures total == free ==> position == 0
  {
    RoundComplete(L, free, k, total);
    if total == free { DivModUnique(total, free, 1, 0); }
  }

  lemma {:induction false} SpreadDone(norm: seq<int>, L: nat, free: nat, table: seq<byte>, k: nat, position: nat)
    requires L >= 5 && |table| == Pow2(L) == free + LowCount(norm)
    requires WalkInv(norm, L, free, k, PosSum(norm), position, table)
    ensures position == 0 <==> WholeRounds(norm, L)
    ensures PosSum(norm) + LowCount(norm) == Pow2(L) ==> position == 0 && IsSpread(norm, L, table)
  {
    hide Visit, Rank, PosSum, LowCount, LowLaid, Pow2, Occurrences, LowSymbols;
    if free > 0 {
      WalkEnds(L, free, Occurrences(norm), LowSymbols(norm), k, PosSum(norm), position, table);
    }
  }
}
