/** Scaling symbol counts to a power of two: `FSE_normalizeCount` and its fallback. Every
    way out that reports success gives out the table exactly. */
module FseNormalize {
  import opened Bits
  import opened Counts
  import opened FseSpread

  const DEFAULT_TABLELOG := 11
  const NOT_YET_ASSIGNED := -2

  /** `DividedByZero` stands for the trap of the processor. */
  datatype Outcome = Normalized(tableLog: nat) | SingleSymbol | GenericError | TableLogTooLarge | DividedByZero

  /** Cells given out by norms. */
  function Shares(norm: seq<int>): nat {
    if norm == [] then 0 else Shares(norm[..|norm| - 1]) + Weight(norm[|norm| - 1])
  }

  /** The smallest table log that is safe for a source and an alphabet. */
  function MinTableLog(total: nat, maxSymbolValue: nat): nat
    requires total > 1 && maxSymbolValue > 0
  {
    var minBitsSrc := HighBit(total - 1) + 1;
    var minBitsSymbols := HighBit(maxSymbolValue) + 2;
    if minBitsSrc < minBitsSymbols then minBitsSrc else minBitsSymbols
  }

  /** That is: a table is safe if it has a cell for each symbol of the source, or two for each
      symbol of the alphabet. */
  lemma {:induction false} MinIsLeast(total: nat, maxSymbolValue: nat, L: nat)
    requires total > 1 && maxSymbolValue > 0
    ensures L >= MinTableLog(total, maxSymbolValue) <==> total <= Pow2(L) || 2 * (maxSymbolValue + 1) <= Pow2(L)
  {
    hide Pow2, HighBit;
    HighBitBelow(total - 1, L);
    if L >= 1 {
      HighBitBelow(maxSymbolValue, L - 1);
      Pow2Double(L - 1);
    } else {
      PowZero();
    }
  }

  /** What success means: the whole table is given out, to the symbols that occur. */
  ghost predicate IsNormalized(norm: seq<int>, count: seq<nat>, L: nat) {
    && |norm| == |count|
    && Shares(norm) == Pow2(L)
    && forall s :: 0 <= s < |norm| ==> norm[s] >= -1 && (norm[s] == 0 <==> count[s] == 0)
  }

  // ---------- sums ----------

  lemma {:induction false} SharesNext(s: seq<int>, n: nat)
    requires n < |s|
    ensures Shares(s[..n + 1]) == Shares(s[..n]) + Weight(s[n])
  {
    assert s[..n + 1][..n] == s[..n];
  }

  lemma {:induction false} SharesUpdate(s: seq<int>, i: nat, v: int)
    requires i < |s|
    ensures Shares(s[i := v]) == Shares(s) - Weight(s[i]) + Weight(v)
  {
    var n := |s| - 1;
    if i == n {
      assert s[i := v][..n] == s[..n];
    } else {
      SharesUpdate(s[..n], i, v);
      assert s[i := v][..n] == s[..n][i := v];
    }
  }

  /** Symbols that occur at most `t` times each need many symbols to make up a sum. */
  lemma {:induction false} SmallCounts(count: seq<nat>, t: nat)
    requires forall s :: 0 <= s < |count| ==> count[s] <= t
    ensures Sum(count) <= Present(count) * t
  {
    if count != [] {
      var n := |count| - 1;
      SmallCounts(count[..n], t);
      var p := Present(count[..n]);
      assert (p + 1) * t == p * t + t;
    }
  }

  /** Fewer occurring symbols than cells: some symbol occurs more often than the low
      threshold. */
  lemma {:induction false} NotAllLow(count: seq<nat>, L: nat)
    requires Sum(count) > 0 && Present(count) < Pow2(L)
    ensures exists s :: 0 <= s < |count| && count[s] > Shr(Sum(count), L)
  {
    var t := Shr(Sum(count), L);
    assert (Present(count) + 1) * t == Present(count) * t + t;
    if forall s :: 0 <= s < |count| ==> count[s] <= t {
      SmallCounts(count, t);
      MaskShr(Sum(count), L);
      ShlMul(t, L);
      MulMono(Present(count) + 1, Pow2(L), t);
    }
  }

  lemma {:induction false} PresentAtMostSum(count: seq<nat>)
    ensures Present(count) <= Sum(count)
    ensures Present(count) == Sum(count) ==> forall s :: 0 <= s < |count| ==> count[s] <= 1
  {
    if count != [] { PresentAtMostSum(count[..|count| - 1]); }
  }

  lemma {:induction false} AllDistinct(count: seq<nat>)
    requires forall s :: 0 <= s < |count| ==> count[s] <= 1
    ensures Present(count) == Sum(count)
  {
    if count != [] { AllDistinct(count[..|count| - 1]); }
  }

  /** The table log check leaves fewer occurring symbols than cells, with one exception:
      a source of pairwise different symbols, exactly as many as the table has cells. */
  lemma {:induction false} RoomForAll(count: seq<nat>, L: nat)
    requires |count| >= 2 && Sum(count) >= 2 && L >= MinTableLog(Sum(count), |count| - 1)
    ensures Present(count) < Pow2(L) <==> (Sum(count) == Pow2(L) ==> exists s :: 0 <= s < |count| && count[s] >= 2)
    ensures Present(count) <= Pow2(L) && (Sum(count) <= Pow2(L) || 2 * |count| <= Pow2(L))
  {
    hide Sum, Present, HighBit;
    var total := Sum(count);
    PresentAtMostSum(count);
    if forall s :: 0 <= s < |count| ==> count[s] <= 1 { AllDistinct(count); }
    if L >= HighBit(total - 1) + 1 {
      Pow2Mono(HighBit(total - 1) + 1, L);
    } else {
      var h := HighBit(|count| - 1);
      Pow2Mono(h + 2, L);
    }
  }

  // ---------- the fallback ----------

  /** Symbols settled with one cell each. */
  function Settled(norm: seq<int>): nat {
    if norm == [] then 0
    else Settled(norm[..|norm| - 1]) + if norm[|norm| - 1] == 1 || norm[|norm| - 1] == -1 then 1 else 0
  }

  /** Occurrences of the symbols not settled yet. */
  function Unsettled(norm: seq<int>, count: seq<nat>): nat
    requires |norm| == |count|
  {
    if norm == [] then 0
    else Unsettled(norm[..|norm| - 1], count[..|norm| - 1])
         + if norm[|norm| - 1] == NOT_YET_ASSIGNED then count[|norm| - 1] else 0
  }

  lemma {:induction false} SettledNext(norm: seq<int>, count: seq<nat>, n: nat)
    requires n < |norm| == |count|
    ensures Settled(norm[..n + 1]) == Settled(norm[..n]) + if norm[n] == 1 || norm[n] == -1 then 1 else 0
    ensures Unsettled(norm[..n + 1], count[..n + 1])
            == Unsettled(norm[..n], count[..n]) + if norm[n] == NOT_YET_ASSIGNED then count[n] else 0
  {
    assert norm[..n + 1][..n] == norm[..n] && count[..n + 1][..n] == count[..n];
  }

  lemma {:induction false} SettleOne(norm: seq<int>, count: seq<nat>, i: nat)
    requires i < |norm| == |count| && norm[i] == NOT_YET_ASSIGNED
    ensures Settled(norm[i := 1]) == Settled(norm) + 1
    ensures Unsettled(norm[i := 1], count) == Unsettled(norm, count) - count[i]
  {
    var n := |norm| - 1;
    if i == n {
      assert norm[i := 1][..n] == norm[..n];
    } else {
      SettleOne(norm[..n], count[..n], i);
      assert norm[i := 1][..n] == norm[..n][i := 1];
    }
  }

  lemma {:induction false} SettledAtMostPresent(norm: seq<int>, count: seq<nat>)
    requires |norm| == |count| && forall s :: 0 <= s < |norm| ==> (norm[s] == 0 <==> count[s] == 0)
    ensures Settled(norm) <= Present(count)
    ensures Settled(norm) == |norm| ==> forall s :: 0 <= s < |norm| ==> norm[s] == 1 || norm[s] == -1
    ensures Settled(norm) <= |norm|
  {
    if norm != [] {
      var n := |norm| - 1;
      SettledAtMostPresent(norm[..n], count[..n]);
    }
  }

  lemma {:induction false} NoneUnsettled(norm: seq<int>, count: seq<nat>, s: nat)
    requires s < |norm| == |count| && Unsettled(norm, count) == 0
    requires forall t :: 0 <= t < |norm| ==> (norm[t] == 0 <==> count[t] == 0)
    ensures norm[s] != NOT_YET_ASSIGNED
  {
    var n := |norm| - 1;
    if s < n { NoneUnsettled(norm[..n], count[..n], s); }
  }

  /** In that exception the table log is accepted, the primary pass gives every cell away, and
      the fallback it then turns to settles every symbol in its first pass: no cell is left to
      divide by. */
  lemma {:induction false} ExceptionDivides(norm: seq<int>, count: seq<nat>, L: nat)
    requires |norm| == |count| >= 2 && L >= 1 && Sum(count) == Pow2(L) && forall s :: 0 <= s < |count| ==> count[s] <= 1
    requires forall s :: 0 <= s < |norm| ==> (norm[s] == 0 <==> count[s] == 0) && (0 < count[s] <= Shr(Sum(count), L) ==> norm[s] == -1)
    ensures L >= MinTableLog(Sum(count), |count| - 1)
    ensures Pow2(L) - Settled(norm) == 0 && Shares(norm) == Pow2(L) && forall s :: 0 <= s < |norm| ==> norm[s] <= 0
  {
    hide Shr, Sum, Pow2, HighBit, Shares, Settled, Present;
    AllDistinct(count);
    assert Shr(Pow2(L), L) == 1 by {
      ShlMul(1, L);
      ShrUnique(0, 1, L);
    }
    Pow2Double(L - 1);
    HighBitUnique(Pow2(L) - 1, L - 1);
    LowAreSettled(norm, count);
    SettledShares(norm);
  }

  lemma {:induction false} LowAreSettled(norm: seq<int>, count: seq<nat>)
    requires |norm| == |count| && forall s :: 0 <= s < |norm| ==> if count[s] == 0 then norm[s] == 0 else norm[s] == -1
    ensures Settled(norm) == Present(count)
  {
    if norm != [] { LowAreSettled(norm[..|norm| - 1], count[..|norm| - 1]); }
  }

  /** When every symbol is settled, the shares are their number. */
  lemma {:induction false} SettledShares(norm: seq<int>)
    requires forall s :: 0 <= s < |norm| ==> norm[s] == 0 || norm[s] == 1 || norm[s] == -1
    ensures Shares(norm) == Settled(norm)
  {
    if norm != [] { SettledShares(norm[..|norm| - 1]); }
  }

  // ---------- what the fallback gives ----------

  /** A symbol that deserves at most one cell gets a low one; one that occurs at most `num / den`
      times gets one, and the others wait. */
  ghost function Granted(c: nat, total: nat, L: nat, num: nat, den: nat): int {
    if c == 0 then 0 else if c * Pow2(L) <= total then -1 else if c * den <= num then 1 else NOT_YET_ASSIGNED
  }

  ghost function Stage(count: seq<nat>, L: nat, num: nat, den: nat): (n: seq<int>)
    ensures |n| == |count| && forall s :: 0 <= s < |n| ==> n[s] == Granted(count[s], Sum(count), L, num, den)
  {
    seq(|count|, s requires 0 <= s < |count| => Granted(count[s], Sum(count), L, num, den))
  }

  /** First those who deserve at most one and a half of the cells. */
  ghost function FirstStage(count: seq<nat>, L: nat): (n: seq<int>)
    ensures |n| == |count|
  {
    Stage(count, L, 3 * Sum(count), Pow2(L + 1))
  }

  /** If the rest deserves more than that bound for each cell left, the bound becomes one and a half
      of these. */
  ghost function LastStage(count: seq<nat>, L: nat): (n: seq<int>)
    requires Settled(FirstStage(count, L)) < Pow2(L)
    ensures |n| == |count|
  {
    var d, t := Pow2(L) - Settled(FirstStage(count, L)), Unsettled(FirstStage(count, L), count);
    if t / d > 3 * Sum(count) / Pow2(L + 1) then Stage(count, L, 3 * t, d * 2) else FirstStage(count, L)
  }

  /** The most frequent symbol, the first if there are several, takes the rest. */
  ghost predicate GivenToLargest(norm: seq<int>, stage: seq<int>, count: seq<nat>, rest: nat) {
    exists i: nat :: MostFrequent(count, i) && i < |stage| && norm == stage[i := stage[i] + rest]
  }

  ghost predicate MostFrequent(count: seq<nat>, i: nat) {
    i < |count| && forall t :: 0 <= t < |count| ==> count[t] <= count[i] && (t < i ==> count[t] < count[i])
  }

  /** The symbols with a cell take turns. */
  ghost predicate TurnsTaken(norm: seq<int>, stage: seq<int>) {
    && |norm| == |stage| && (forall s :: 0 <= s < |norm| ==> if stage[s] == 1 then norm[s] >= 1 else norm[s] == stage[s])
    && forall s, t :: 0 <= s < t < |norm| && stage[s] == 1 && stage[t] == 1 ==> norm[t] <= norm[s] <= norm[t] + 1
  }

  /** What the waiting symbols before `n` get together is less than a cell off what they deserve of
      the rest. */
  ghost predicate CloseAt(norm: seq<int>, stage: seq<int>, count: seq<nat>, rest: nat, total: nat, n: nat)
    requires n <= |norm| == |stage| == |count|
  {
    var got := Shares(norm[..n]) - Settled(stage[..n]);
    Apart(Product(got, total), Product(Unsettled(stage[..n], count[..n]), rest), total)
  }

  ghost function Product(a: int, b: int): int { a * b }

  /** `x` and `y` are less than `t` apart. */
  ghost predicate Apart(x: int, y: int, t: nat) { x < y + t && y < x + t }

  ghost predicate SharedOut(norm: seq<int>, stage: seq<int>, count: seq<nat>, rest: nat, total: nat) {
    && |norm| == |stage| == |count| && (forall s :: 0 <= s < |norm| && stage[s] != NOT_YET_ASSIGNED ==> norm[s] == stage[s])
    && forall n :: 0 <= n <= |norm| ==> CloseAt(norm, stage, count, rest, total, n)
  }

  ghost predicate IsFallback(norm: seq<int>, count: seq<nat>, L: nat) {
    && Settled(FirstStage(count, L)) < Pow2(L) && Settled(LastStage(count, L)) < Pow2(L)
    && var stage := LastStage(count, L);
    && var rest, total := Pow2(L) - Settled(stage), Unsettled(stage, count);
    if Settled(stage) == |count| then GivenToLargest(norm, stage, count, rest)
    else if total == 0 then TurnsTaken(norm, stage)
    else SharedOut(norm, stage, count, rest, total)
  }

  lemma {:induction false} ShrIsDiv(x: nat, n: nat)
    ensures Shr(x, n) == x / Pow2(n)
  {
    hide Pow2, Shr, Mask;
    MaskShr(x, n);
    ShlMul(Shr(x, n), n);
    DivModUnique(x, Pow2(n), Shr(x, n), Mask(x, n));
  }

  lemma {:induction false} AtMostQuotient(c: nat, x: nat, d: nat)
    requires d > 0
    ensures c <= x / d <==> c * d <= x
  {
    DivBounds(x, d);
    assert d * (x / d) == (x / d) * d;
    if c <= x / d { MulMono(c, x / d, d); } else { MulMono(x / d + 1, c, d); OneMoreTimes(x / d, d); }
  }

  lemma {:induction false} AtMostShifted(c: nat, x: nat, n: nat)
    ensures c <= Shr(x, n) <==> c * Pow2(n) <= x
  {
    ShrIsDiv(x, n);
    AtMostQuotient(c, x, Pow2(n));
  }

  /** The state of the fallback between its passes. */
  ghost predicate Sorted(norm: seq<int>, count: seq<nat>, L: nat) {
    && |norm| == |count|
    && (forall s :: 0 <= s < |norm| ==> norm[s] == 0 || norm[s] == 1 || norm[s] == -1 || norm[s] == NOT_YET_ASSIGNED)
    && (forall s :: 0 <= s < |norm| ==> (norm[s] == 0 <==> count[s] == 0))
    && (forall s :: 0 <= s < |norm| ==> (norm[s] == -1 <==> 0 < count[s] <= Shr(Sum(count), L)))
  }

  /** The symbols not settled yet occur more often than `low`. */
  ghost predicate Over(norm: seq<int>, count: seq<nat>, low: nat) {
    |norm| == |count| && forall s :: 0 <= s < |norm| && norm[s] == NOT_YET_ASSIGNED ==> count[s] > low
  }

  /** First pass: one cell for the symbols that deserve at most one and a half. */
  method SettleLow(norm: array<int>, L: nat, count: seq<nat>, total0: nat, lowOne: nat) returns (total: nat, distributed: nat)
    requires norm.Length == |count| && total0 == Sum(count) && lowOne == Shr(3 * total0, L + 1)
    modifies norm
    ensures norm[..] == FirstStage(count, L)
    ensures Sorted(norm[..], count, L) && Over(norm[..], count, lowOne)
    ensures distributed == Settled(norm[..]) && total == Unsettled(norm[..], count)
  {
    hide Sum, Settled, Unsettled, Shr, Pow2;
    var lowThreshold := Shr(total0, L);
    ghost var stage := FirstStage(count, L);
    total, distributed := total0, 0;
    SettledNone(norm[..][..0], count[..0]);
    for s := 0 to |count|
      invariant forall t :: 0 <= t < s ==> norm[t] == stage[t]
      invariant forall t :: 0 <= t < s ==> norm[t] == 0 || norm[t] == 1 || norm[t] == -1 || norm[t] == NOT_YET_ASSIGNED
      invariant forall t :: 0 <= t < s ==> (norm[t] == 0 <==> count[t] == 0)
      invariant forall t :: 0 <= t < s ==> (norm[t] == -1 <==> 0 < count[t] <= lowThreshold)
      invariant forall t :: 0 <= t < s && norm[t] == NOT_YET_ASSIGNED ==> count[t] > lowOne
      invariant distributed == Settled(norm[..][..s])
      invariant total == Unsettled(norm[..][..s], count[..s]) + (total0 - Sum(count[..s]))
      invariant Sum(count[..s]) <= total0
    {
      ghost var before := norm[..];
      SumNext(count, s);
      SumPrefix(count, s + 1);
      AtMostShifted(count[s], total0, L);
      AtMostShifted(count[s], 3 * total0, L + 1);
      if count[s] == 0 {
        norm[s] := 0;
      } else if count[s] <= lowThreshold {
        norm[s] := -1;
        distributed := distributed + 1;
        total := total - count[s];
      } else if count[s] <= lowOne {
        norm[s] := 1;
        distributed := distributed + 1;
        total := total - count[s];
      } else {
        norm[s] := NOT_YET_ASSIGNED;
      }
      assert norm[..][..s] == before[..s];
      SettledNext(norm[..], count, s);
    }
    assert norm[..][..|count|] == norm[..] && count[..|count|] == count;
  }

  lemma {:induction false} SettledNone(norm: seq<int>, count: seq<nat>)
    requires norm == [] && count == []
    ensures Settled(norm) == 0 && Unsettled(norm, count) == 0 && Sum(count) == 0 && Shares(norm) == 0
  {
  }

  /** Second pass: the threshold is raised when the rest is too large to share. */
  method SettleMore(norm: array<int>, ghost L: nat, count: seq<nat>, lowOne: nat, total0: nat, distributed0: nat, ghost low: nat, ghost d: nat)
    returns (total: nat, distributed: nat)
    requires norm.Length == |count| && Sorted(norm[..], count, L) && Over(norm[..], count, low)
    requires distributed0 == Settled(norm[..]) && total0 == Unsettled(norm[..], count)
    requires norm[..] == FirstStage(count, L) && d > 0 && lowOne == 3 * total0 / (d * 2) && lowOne >= low == Shr(3 * Sum(count), L + 1)
    modifies norm
    ensures norm[..] == Stage(count, L, 3 * total0, d * 2)
    ensures Sorted(norm[..], count, L) && Over(norm[..], count, lowOne)
    ensures distributed == Settled(norm[..]) && total == Unsettled(norm[..], count)
    ensures distributed >= distributed0 && total + (distributed - distributed0) * (low + 1) <= total0
  {
    hide Sum, Settled, Unsettled, Shr, Pow2;
    total, distributed := total0, distributed0;
    ghost var first, stage := FirstStage(count, L), Stage(count, L, 3 * total0, d * 2);
    for s := 0 to |count|
      invariant forall t :: 0 <= t < |count| ==> norm[t] == if t < s then stage[t] else first[t]
      invariant Sorted(norm[..], count, L) && Over(norm[..], count, low)
      invariant forall t :: 0 <= t < s && norm[t] == NOT_YET_ASSIGNED ==> count[t] > lowOne
      invariant distributed == Settled(norm[..]) && total == Unsettled(norm[..], count)
      invariant distributed >= distributed0 && total + (distributed - distributed0) * (low + 1) <= total0
    {
      AtMostQuotient(count[s], 3 * total0, d * 2);
      AtMostShifted(count[s], 3 * Sum(count), L + 1);
      if norm[s] == NOT_YET_ASSIGNED && count[s] <= lowOne {
        ghost var before := norm[..];
        SettleOne(before, count, s);
        OneMoreTimes(distributed - distributed0, low + 1);
        norm[s] := 1;
        assert norm[..] == before[s := 1];
        distributed := distributed + 1;
        total := total - count[s];
      }
    }
  }

  lemma {:induction false} AllSettled(norm: seq<int>, count: seq<nat>, L: nat)
    requires Sorted(norm, count, L) && Unsettled(norm, count) == 0
    ensures forall s :: 0 <= s < |norm| ==> norm[s] == 0 || norm[s] == 1 || norm[s] == -1
    ensures Shares(norm) == Settled(norm)
  {
    hide Settled, Unsettled, Shr, Sum, Shares;
    forall s | 0 <= s < |norm| ensures norm[s] != NOT_YET_ASSIGNED { NoneUnsettled(norm, count, s); }
    SettledShares(norm);
  }

  method FindMostFrequent(count: seq<nat>) returns (maxV: nat)
    requires |count| > 0
    ensures maxV < |count| && MostFrequent(count, maxV)
  {
    var maxC := 0;
    maxV := 0;
    for s := 0 to |count|
      invariant maxV < |count| && (maxV < s || maxV == 0)
      invariant forall t :: 0 <= t < s ==> count[t] <= maxC && (t < maxV ==> count[t] < maxC)
      invariant if maxC == 0 then maxV == 0 else maxC == count[maxV]
    {
      if count[s] > maxC { maxV, maxC := s, count[s]; }
    }
  }

  /** First way out: every symbol settled; the most frequent one takes what is left. It
      cannot be a low one, or there would be as many symbols as cells. */
  method GiveToLargest(norm: array<int>, L: nat, count: seq<nat>, toDistribute: nat)
    requires norm.Length == |count| > 0 && Sorted(norm[..], count, L) && Settled(norm[..]) == |count|
    requires Sum(count) > 0 && Present(count) < Pow2(L) && Settled(norm[..]) + toDistribute == Pow2(L)
    modifies norm
    ensures IsNormalized(norm[..], count, L)
    ensures GivenToLargest(norm[..], old(norm[..]), count, toDistribute)
  {
    hide Sum, Settled, Shr, Pow2, Present, Shares, Sorted, MostFrequent, IsNormalized, GivenToLargest;
    var maxV := FindMostFrequent(count);
    ghost var before := norm[..];
    IsGiven(before, L, count, maxV, toDistribute);
    norm[maxV] := norm[maxV] + toDistribute;
    assert norm[..] == before[maxV := before[maxV] + toDistribute];
  }

  lemma {:induction false} IsGiven(stage: seq<int>, L: nat, count: seq<nat>, maxV: nat, rest: nat)
    requires Sorted(stage, count, L) && Settled(stage) == |count| && MostFrequent(count, maxV)
    requires Sum(count) > 0 && Present(count) < Pow2(L) && Settled(stage) + rest == Pow2(L)
    ensures maxV < |stage|
    ensures var norm := stage[maxV := stage[maxV] + rest]; IsNormalized(norm, count, L) && GivenToLargest(norm, stage, count, rest)
  {
    hide Sum, Settled, Shr, Pow2, Present, Shares;
    NotAllLow(count, L);
    SettledAtMostPresent(stage, count);
    SettledShares(stage);
    SharesUpdate(stage, maxV, stage[maxV] + rest);
  }

  function NextSymbol(s: nat, n: nat): (r: nat)
    requires s < n
    ensures r == if s + 1 == n then 0 else s + 1
  {
    assert (s + 1) % n == if s + 1 == n then 0 else s + 1 by {
      if s + 1 == n { DivModUnique(s + 1, n, 1, 0); } else { DivModUnique(s + 1, n, 0, s + 1); }
    }
    (s + 1) % n
  }

  /** Second way out: only settled symbols and absent ones; the symbols with a full cell
      take turns. One exists, so the loop ends. */
  method TakeTurns(norm: array<int>, L: nat, count: seq<nat>, toDistribute0: nat)
    requires norm.Length == |count| > 0 && Sorted(norm[..], count, L) && Unsettled(norm[..], count) == 0
    requires Sum(count) > 0 && Present(count) < Pow2(L) && Settled(norm[..]) + toDistribute0 == Pow2(L)
    modifies norm
    ensures IsNormalized(norm[..], count, L) && TurnsTaken(norm[..], old(norm[..]))
  {
    hide Sum, Settled, Unsettled, Shr, Pow2, Present, Shares, NextSymbol;
    ghost var stage := norm[..];
    ghost var k: nat := 1;
    AllSettled(norm[..], count, L);
    NotAllLow(count, L);
    ghost var p: nat :| p < |count| && count[p] > Shr(Sum(count), L);
    assert norm[p] == 1;
    var toDistribute, s := toDistribute0, 0;
    while toDistribute > 0
      invariant 0 <= s < |count| && norm[p] > 0
      invariant Shares(norm[..]) + toDistribute == Pow2(L)
      invariant forall t :: 0 <= t < |count| ==> norm[t] >= -1 && (norm[t] == 0 <==> count[t] == 0)
      invariant k >= 1 && forall t :: 0 <= t < |count| ==> norm[t] == if stage[t] != 1 then stage[t] else if t < s then k + 1 else k
      decreases toDistribute, if s <= p then p - s else p - s + |count|
    {
      if norm[s] > 0 {
        ghost var before := norm[..];
        SharesUpdate(before, s, norm[s] + 1);
        toDistribute := toDistribute - 1;
        norm[s] := norm[s] + 1;
        assert norm[..] == before[s := before[s] + 1];
      }
      if s + 1 == |count| { k := k + 1; }
      s := NextSymbol(s, |count|);
    }
  }

  // ---------- the last way out ----------

  function Times(a: nat, b: nat): nat { a * b }

  /** The scale of the last pass: `toDistribute` cells over `total` occurrences. */
  function RStep(L: nat, toDistribute: nat, total: nat): nat
    requires L <= 61 && total > 0
  {
    (Shl(toDistribute, 62 - L) + Mid(L)) / total
  }

  function Mid(L: nat): nat
    requires L <= 61
  {
    Pow2(61 - L) - 1
  }

  /** Rounding errors cancel: scaling all occurrences reaches exactly `toDistribute`
      cells, because their number is far below the scale. */
  lemma {:induction false} ScaleExact(L: nat, toDistribute: nat, total: nat)
    requires L <= 12 && 0 < total < Pow2(32)
    ensures Shr(Mid(L), 62 - L) == 0
    ensures Shr(Mid(L) + Times(total, RStep(L, toDistribute, total)), 62 - L) == toDistribute
  {
    hide Shr, Shl, Pow2;
    var v := 62 - L;
    var mid, scaled := Mid(L), Shl(toDistribute, v);
    HugeScale(v);
    DivBounds(scaled + mid, total);
    var rest := mid + total * RStep(L, toDistribute, total) - scaled;
    ShrUnique(rest, toDistribute, v);
    ShrZero(mid, v);
  }

  lemma {:induction false} HugeScale(v: nat)
    requires 50 <= v <= 62
    ensures 2 * Pow2(32) <= Pow2(v - 1) && Pow2(v) == 2 * Pow2(v - 1)
  {
    Pow2Mono(33, v - 1);
    Pow2Double(32);
  }

  lemma {:induction false} Pow2Double(n: nat)
    ensures Pow2(n + 1) == 2 * Pow2(n)
  {
  }

  lemma {:induction false} ShrZero(x: nat, n: nat)
    requires x < Pow2(n)
    ensures Shr(x, n) == 0
  {
    ShlZ(n);
    ShrUnique(x, 0, n);
  }

  lemma {:induction false} ShlZ(n: nat)
    ensures Shl(0, n) == 0
  {
    if n != 0 { ShlZ(n - 1); }
  }

  lemma {:induction false} DivBounds(x: nat, d: nat)
    requires d > 0
    ensures x - d < d * (x / d) <= x
  {
  }

  lemma {:induction false} ShrMono(a: nat, b: nat, n: nat)
    requires a <= b
    ensures Shr(a, n) <= Shr(b, n)
  {
    if n != 0 { ShrMono(a / 2, b / 2, n - 1); }
  }

  /** A symbol that deserves a cell gets one: its interval is at least as long as a cell. */
  lemma {:induction false} CellDeserved(L: nat, toDistribute: nat, total: nat, c: nat)
    requires L <= 12 && 0 < total < Pow2(32) && total <= Times(c, toDistribute)
    ensures Pow2(62 - L) <= Times(c, RStep(L, toDistribute, total))
  {
    hide Shr, Shl, Pow2;
    var v, mid := 62 - L, Mid(L);
    HugeScale(v);
    ShlMul(toDistribute, v);
    DivBounds(toDistribute * Pow2(v) + mid, total);
    LongInterval(Pow2(v), toDistribute, total, c, mid, RStep(L, toDistribute, total));
  }

  lemma {:induction false} LongInterval(p: nat, d: nat, total: nat, c: nat, mid: nat, r: nat)
    requires 0 < total <= mid && total <= c * d && d * p + mid - total < total * r
    ensures p <= c * r
  {
    MulMono(total, c * d, p);
    MulMono(d * p, total * r, c);
    assert (d * p) * c == (c * d) * p by { Swapped(d, p, c); }
    assert (total * r) * c == (c * r) * total by { Swapped(total, r, c); MulAssoc(c, r, total); MulAssoc(c, total, r); }
    OneMoreTimes(c * r, total);
    if c * r < p { MulMono(c * r + 1, p, total); }
  }

  /** So it moves on by a cell at least. */
  lemma {:induction false} CellMore(x: nat, y: nat, v: nat)
    requires x + Pow2(v) <= y
    ensures Shr(x, v) + 1 <= Shr(y, v)
  {
    MaskShr(x, v);
    ShlMono(0, 1, v);
    ShlAddOne(Shr(x, v), v);
    ShrCompare(y, Shr(x, v) + 1, v);
  }

  lemma {:induction false} ShlAddOne(x: nat, v: nat)
    ensures Shl(x + 1, v) == Shl(x, v) + Pow2(v)
  {
    if v != 0 { ShlAddOne(x, v - 1); }
  }

  /** Third way out: the unsettled symbols share the rest in proportion. Each of them deserves
      a cell, so the error return is never taken. */
  method ShareOut(norm: array<int>, L: nat, count: seq<nat>, toDistribute: nat, total: nat)
    requires norm.Length == |count| && Sorted(norm[..], count, L) && total == Unsettled(norm[..], count)
    requires 5 <= L <= 12 && 0 < total < Pow2(32) && Settled(norm[..]) + toDistribute == Pow2(L)
    requires forall s :: 0 <= s < |count| && norm[s] == NOT_YET_ASSIGNED ==> total <= Times(count[s], toDistribute)
    modifies norm
    ensures IsNormalized(norm[..], count, L) && SharedOut(norm[..], old(norm[..]), count, toDistribute, total)
  {
    hide Sum, Settled, Unsettled, Shr, Pow2, Shares, RStep, Mid, Times, CloseAt;
    var vStepLog := 62 - L;
    var rStep := RStep(L, toDistribute, total);
    var tmpTotal := Mid(L);
    ScaleExact(L, toDistribute, total);
    ghost var n1 := norm[..];
    SettledNone(n1[..0], count[..0]);
    Distribute(0, 0, rStep);
    for s := 0 to |count|
      invariant forall t :: s <= t < |count| ==> norm[t] == n1[t]
      invariant forall t :: 0 <= t < s ==> norm[t] >= -1 && (norm[t] == 0 <==> count[t] == 0)
      invariant tmpTotal == Mid(L) + Times(Unsettled(n1[..s], count[..s]), rStep)
      invariant Shares(norm[..][..s]) == Settled(n1[..s]) + Shr(tmpTotal, vStepLog)
      invariant forall t :: 0 <= t < s && n1[t] != NOT_YET_ASSIGNED ==> norm[t] == n1[t]
      invariant forall n :: 0 <= n < s ==> CloseAt(norm[..], n1, count, toDistribute, total, n)
    {
      ghost var before := norm[..];
      SettledNext(n1, count, s);
      ghost var u := Unsettled(n1[..s], count[..s]);
      UnsettledPart(n1, count, s);
      IsClose(before, n1, count, L, toDistribute, total, s);
      if norm[s] == NOT_YET_ASSIGNED {
        var end := tmpTotal + Times(count[s], rStep);
        Distribute(u, count[s], rStep);
        CellDeserved(L, toDistribute, total, count[s]);
        CellMore(tmpTotal, end, vStepLog);
        var weight := Shr(end, vStepLog) - Shr(tmpTotal, vStepLog);
        if weight < 1 { assert false; }
        norm[s] := weight;
        tmpTotal := end;
      }
      assert norm[..][..s] == before[..s];
      StillClose(before, norm[..], n1, count, toDistribute, total, s);
      SharesNext(norm[..], s);
    }
    assert norm[..][..|count|] == norm[..] && n1[..|count|] == n1 && count[..|count|] == count;
    IsClose(norm[..], n1, count, L, toDistribute, total, |count|);
  }

  lemma {:induction false} StillClose(before: seq<int>, norm: seq<int>, stage: seq<int>, count: seq<nat>, rest: nat, total: nat, s: nat)
    requires s <= |before| == |norm| == |stage| == |count| && norm[..s] == before[..s]
    ensures forall n :: 0 <= n <= s ==> (CloseAt(norm, stage, count, rest, total, n) <==> CloseAt(before, stage, count, rest, total, n))
  {
    hide Shares, Settled, Unsettled;
    forall n | 0 <= n <= s ensures norm[..n] == before[..n] { assert norm[..n] == norm[..s][..n] && before[..n] == before[..s][..n]; }
  }

  lemma {:induction false} UnsettledPart(norm: seq<int>, count: seq<nat>, n: nat)
    requires n <= |norm| == |count|
    ensures Unsettled(norm[..n], count[..n]) <= Unsettled(norm, count)
    decreases |norm| - n
  {
    if n < |norm| {
      SettledNext(norm, count, n);
      UnsettledPart(norm, count, n + 1);
    } else {
      assert norm[..n] == norm && count[..n] == count;
    }
  }

  lemma {:induction false} IsClose(norm: seq<int>, stage: seq<int>, count: seq<nat>, L: nat, rest: nat, total: nat, n: nat)
    requires n <= |norm| == |stage| == |count| && L <= 12 && 0 < total < Pow2(32) && Unsettled(stage[..n], count[..n]) <= total
    requires Shares(norm[..n]) == Settled(stage[..n]) + Shr(Mid(L) + Times(Unsettled(stage[..n], count[..n]), RStep(L, rest, total)), 62 - L)
    ensures CloseAt(norm, stage, count, rest, total, n)
  {
    hide Shares, Settled, Unsettled, Shr, Pow2, RStep, Mid, Times, Product;
    CellsClose(L, rest, total, Unsettled(stage[..n], count[..n]));
  }

  /** The cells up to `u` occurrences. */
  lemma {:induction false} CellsClose(L: nat, rest: nat, total: nat, u: nat)
    requires L <= 12 && u <= total && 0 < total < Pow2(32)
    ensures var got := Shr(Mid(L) + Times(u, RStep(L, rest, total)), 62 - L);
      Apart(Product(got, total), Product(u, rest), total)
  {
    hide Shr, Shl, Pow2, Mask, RStep, Mid;
    var v, mid := 62 - L, Mid(L);
    var w, step := Pow2(v), RStep(L, rest, total);
    var x := mid + u * step;
    HugeScale(v);
    ScaleBounds(L, rest, total);
    MaskShr(x, v);
    ShlMul(Shr(x, v), v);
    FewerCells(w, mid, total, u, rest, step, Shr(x, v));
    MoreCells(w, mid, total, u, rest, step, Shr(x, v));
  }

  lemma {:induction false} ScaleBounds(L: nat, rest: nat, total: nat)
    requires L <= 12 && total > 0
    ensures var w, mid, step := Pow2(62 - L), Mid(L), RStep(L, rest, total);
      rest * w + mid - total < step * total <= rest * w + mid && w == 2 * mid + 2
  {
    hide Pow2;
    ShlMul(rest, 62 - L);
    HugeScale(62 - L);
    DivBounds(rest * Pow2(62 - L) + Mid(L), total);
    assert total * RStep(L, rest, total) == RStep(L, rest, total) * total;
  }

  lemma {:induction false} FewerCells(w: nat, mid: nat, total: nat, u: nat, rest: nat, step: nat, got: nat)
    requires 0 < total && u <= total && w == 2 * mid + 2 && step * total <= rest * w + mid && got * w <= mid + u * step
    ensures got * total < u * rest + total
  {
    MulMono(got * w, mid + u * step, total);
    Swapped(got, w, total);
    MulAssoc(u, step, total);
    assert (mid + u * step) * total == mid * total + (u * step) * total;
    MulMono(step * total, rest * w + mid, u);
    assert u * (step * total) == (step * total) * u && (rest * w + mid) * u == (rest * w) * u + mid * u;
    Swapped(rest, w, u);
    assert rest * u == u * rest;
    MulMono(u, total, mid);
    assert mid * u == u * mid && mid * total == total * mid;
    Below(got * total, u * rest, total, w, mid);
  }

  lemma {:induction false} Below(a: nat, b: nat, t: nat, w: nat, mid: nat)
    requires w == 2 * mid + 2 && t > 0 && a * w <= b * w + t * mid + t * mid
    ensures a < b + t
  {
    assert (b + t) * w == b * w + t * mid + t * mid + 2 * t;
    if a >= b + t { MulMono(b + t, a, w); }
  }

  lemma {:induction false} MoreCells(w: nat, mid: nat, total: nat, u: nat, rest: nat, step: nat, got: nat)
    requires 0 < total <= mid && w == 2 * mid + 2 && rest * w + mid - total < step * total && mid + u * step < got * w + w
    ensures u * rest < got * total + total
  {
    MulMono(mid + u * step + 1, (got + 1) * w, total);
    assert (got + 1) * w == got * w + w;
    Swapped(got + 1, w, total);
    assert (got + 1) * total == got * total + total;
    MulAssoc(u, step, total);
    assert (mid + u * step + 1) * total == mid * total + (u * step) * total + total;
    MulMono(rest * w, step * total, u);
    Swapped(rest, w, u);
    assert rest * u == u * rest && (step * total) * u == u * (step * total);
    if got * total + total <= u * rest { MulMono(got * total + total, u * rest, w); }
    assert mid * total >= 0;
  }

  lemma {:induction false} Distribute(u: nat, c: nat, r: nat)
    ensures Times(u + c, r) == Times(u, r) + Times(c, r) && Times(0, r) == 0
  {
  }

  /** Settled symbols occur at least once each. */
  lemma {:induction false} SettledOccur(norm: seq<int>, count: seq<nat>)
    requires |norm| == |count| && forall s :: 0 <= s < |norm| ==> (norm[s] == 0 <==> count[s] == 0)
    ensures Settled(norm) + Unsettled(norm, count) <= Sum(count)
  {
    if norm != [] { SettledOccur(norm[..|norm| - 1], count[..|norm| - 1]); }
  }

  /** A source smaller than the table never needs the second pass. */
  lemma {:induction false} SmallSource(sum: nat, L: nat, total: nat, toDistribute: nat)
    requires sum <= Pow2(L) && total + (Pow2(L) - toDistribute) <= sum && 0 < toDistribute <= Pow2(L)
    ensures total / toDistribute <= Shr(3 * sum, L + 1)
  {
    hide Shr, Pow2;
    DivBounds(total, toDistribute);
    if total < toDistribute {
      DivModUnique(total, toDistribute, 0, total);
    } else {
      DivModUnique(total, toDistribute, 1, 0);
      ShlMul(1, L + 1);
      Pow2Double(L);
      ShrCompare(3 * sum, 1, L + 1);
    }
  }

  /** Without the second pass, a count above the threshold deserves a cell. */
  lemma {:induction false} DeservedAtOnce(c: nat, low: nat, total: nat, toDistribute: nat)
    requires toDistribute > 0 && total / toDistribute <= low < c
    ensures total <= Times(c, toDistribute)
  {
    DivBounds(total, toDistribute);
    MulMono(total / toDistribute + 1, c, toDistribute);
    OneMoreTimes(total / toDistribute, toDistribute);
    assert toDistribute * (total / toDistribute) == (total / toDistribute) * toDistribute;
  }

  /** After the second pass it does so, too: `t` occurrences over `d` cells before it, `k` symbols
      of at least `a` occurrences settled by it, at most half of the `n` cells settled in all. */
  lemma {:induction false} DeservedLater(n: nat, sum: nat, a: nat, d: nat, t: nat, k: nat, total: nat, c: nat)
    requires t <= sum && 3 * sum < 2 * n * a && n + 2 * k <= 2 * d && 2 * k <= n && k < d
    requires 3 * t < c * (d * 2) && total + k * a <= t
    ensures total <= Times(c, d - k)
  {
    var x := c * (d - k);
    Spent(n, a, d, t, k);
    Deserved(t, c, d, k);
    Owed(t, total, k * a, 2 * d);
    assert t * (2 * d) == 2 * (t * d) by { Swapped(2, d, t); }
    Cancel(x, total, 2 * d);
  }

  lemma {:induction false} Cancel(x: int, y: int, m: nat)
    requires m > 0 && y * m <= x * m
    ensures y <= x
  {
    OneMoreTimes(x, m);
    if x < y { MulMono(x + 1, y, m); }
  }

  lemma {:induction false} Deserved(t: nat, c: nat, d: nat, k: nat)
    requires 3 * t < c * (d * 2) && k < d
    ensures 3 * (t * d) - 3 * (t * k) <= (c * (d - k)) * (2 * d)
  {
    MulMono(3 * t, c * (d * 2), d - k);
    Swapped(c, 2 * d, d - k);
    assert 3 * t * (d - k) == 3 * (t * d) - 3 * (t * k);
  }

  lemma {:induction false} Swapped(x: int, y: int, z: int)
    ensures (x * y) * z == (x * z) * y
  {
    MulAssoc(x, y, z);
    MulAssoc(x, z, y);
  }

  lemma {:induction false} Owed(t: nat, total: nat, paid: nat, m: nat)
    requires total + paid <= t
    ensures total * m + paid * m <= t * m
  {
    MulMono(total + paid, t, m);
  }

  lemma {:induction false} Spent(n: nat, a: nat, d: nat, t: nat, k: nat)
    requires 3 * t < 2 * n * a && n + 2 * k <= 2 * d && 2 * k <= n
    ensures 3 * (t * k) <= t * d + (k * a) * (2 * d)
  {
    MulMono(n, 2 * d, 2 * a);
    assert n * (2 * a) == 2 * n * a && (2 * d) * (2 * a) == 2 * (a * (2 * d));
    MulMono(3 * t, 2 * (a * (2 * d)), k);
    assert (a * (2 * d)) * k == (k * a) * (2 * d) by { Swapped(a, 2 * d, k); }
    MulMono(3 * k, 2 * d, t);
    assert (3 * k) * t == 3 * (t * k) && (2 * d) * t == 2 * (t * d);
  }

  /** The thresholds as inequalities. */
  lemma {:induction false} FirstThreshold(sum: nat, L: nat)
    ensures 3 * sum < 2 * Pow2(L) * (Shr(3 * sum, L + 1) + 1)
  {
    hide Shr, Pow2, Mask;
    MaskShr(3 * sum, L + 1);
    ShlMul(Shr(3 * sum, L + 1), L + 1);
    Pow2Double(L);
    OneMoreTimes(Shr(3 * sum, L + 1), Pow2(L + 1));
    assert (Shr(3 * sum, L + 1) + 1) * Pow2(L + 1) == 2 * Pow2(L) * (Shr(3 * sum, L + 1) + 1);
  }

  lemma {:induction false} SecondThreshold(t: nat, d: nat, c: nat)
    requires d > 0 && c > 3 * t / (d * 2)
    ensures 3 * t < c * (d * 2)
  {
    DivBounds(3 * t, d * 2);
    MulMono(3 * t / (d * 2) + 1, c, d * 2);
    OneMoreTimes(3 * t / (d * 2), d * 2);
    assert (d * 2) * (3 * t / (d * 2)) == (3 * t / (d * 2)) * (d * 2);
  }

  lemma {:induction false} HalfAgain(t: nat, d: nat)
    requires d > 0
    ensures 3 * t / (d * 2) >= t / d
  {
    AtMostQuotient(t / d, t, d);
    AtMostQuotient(t / d, 3 * t, d * 2);
    assert (t / d) * (d * 2) == 2 * ((t / d) * d);
  }

  /** The first two passes of the fallback: what is left is deserved by everyone it is left to. */
  method Settle(norm: array<int>, L: nat, count: seq<nat>) returns (trap: bool, total: nat, distributed: nat)
    requires norm.Length == |count| >= 2 && 5 <= L <= 12 && 2 <= Sum(count) && L >= MinTableLog(Sum(count), |count| - 1)
    modifies norm
    ensures trap <==> Present(count) == Pow2(L)
    ensures distributed <= Pow2(L)
    ensures !trap ==> Settled(FirstStage(count, L)) < Pow2(L) && norm[..] == LastStage(count, L)
    ensures !trap ==> Sorted(norm[..], count, L) && distributed == Settled(norm[..]) < Pow2(L) && total == Unsettled(norm[..], count)
    ensures !trap ==> forall s :: 0 <= s < |count| && norm[s] == NOT_YET_ASSIGNED ==> total <= Times(count[s], Pow2(L) - distributed)
  {
    hide Sum, Settled, Unsettled, Shr, Pow2, Present, Shares, MinTableLog;
    RoomForAll(count, L);
    ghost var sum := Sum(count);
    total := Sum(count);
    var lowOne := Shr(3 * total, L + 1);
    total, distributed := SettleLow(norm, L, count, total, lowOne);
    SettledAtMostPresent(norm[..], count);
    SettledOccur(norm[..], count);
    var toDistribute := Pow2(L) - distributed;
    if Present(count) == Pow2(L) { OnlyException(norm[..], count, L); }
    if toDistribute == 0 { return true, total, distributed; }
    ShrIsDiv(3 * sum, L + 1);
    if total / toDistribute > lowOne {
      HalfAgain(total, toDistribute);
      ghost var low, t, d := lowOne, total, toDistribute;
      lowOne := 3 * total / (toDistribute * 2);
      total, distributed := SettleMore(norm, L, count, lowOne, total, distributed, low, d);
      SettledAtMostPresent(norm[..], count);
      ghost var k: nat := d - (Pow2(L) - distributed);
      FirstThreshold(sum, L);
      if sum <= Pow2(L) { SmallSource(sum, L, t, d); }
      forall s | 0 <= s < |count| && norm[s] == NOT_YET_ASSIGNED ensures total <= Times(count[s], Pow2(L) - distributed) {
        SecondThreshold(t, d, count[s]);
        DeservedLater(Pow2(L), sum, low + 1, d, t, k, total, count[s]);
      }
    } else {
      forall s | 0 <= s < |count| && norm[s] == NOT_YET_ASSIGNED ensures total <= Times(count[s], Pow2(L) - distributed) {
        DeservedAtOnce(count[s], lowOne, total, toDistribute);
      }
    }
    return false, total, distributed;
  }

  /** As many symbols as cells: that is the exception. */
  lemma {:induction false} OnlyException(norm: seq<int>, count: seq<nat>, L: nat)
    requires |count| >= 2 && L >= 1 && 2 <= Sum(count) && L >= MinTableLog(Sum(count), |count| - 1) && Present(count) == Pow2(L)
    requires |norm| == |count| && forall s :: 0 <= s < |norm| ==> (norm[s] == 0 <==> count[s] == 0) && (0 < count[s] <= Shr(Sum(count), L) ==> norm[s] == -1)
    ensures Sum(count) == Pow2(L) && (forall s :: 0 <= s < |count| ==> count[s] <= 1)
    ensures Settled(norm) == Pow2(L) && Shares(norm) == Pow2(L) && forall s :: 0 <= s < |norm| ==> norm[s] <= 0
  {
    hide Sum, Present, Shr, Pow2, Settled, Shares, MinTableLog;
    RoomForAll(count, L);
    ExceptionDivides(norm, count, L);
  }

  /** `FSE_normalizeM2`. It fails only by dividing by zero, for as many symbols as cells. */
  method NormalizeM2(norm: array<int>, L: nat, count: seq<nat>) returns (trap: bool)
    requires norm.Length == |count| >= 2 && 5 <= L <= 12
    requires 2 <= Sum(count) < Pow2(32) && L >= MinTableLog(Sum(count), |count| - 1)
    modifies norm
    ensures trap <==> Present(count) == Pow2(L)
    ensures !trap ==> IsNormalized(norm[..], count, L) && IsFallback(norm[..], count, L)
  {
    hide Sum, Settled, Unsettled, Shr, Pow2, Present, Shares, MinTableLog, LastStage, FirstStage, SharedOut;
    RoomForAll(count, L);
    var total, distributed;
    trap, total, distributed := Settle(norm, L, count);
    if trap { return; }
    var toDistribute := Pow2(L) - distributed;
    if distributed == |count| {
      GiveToLargest(norm, L, count, toDistribute);
      return;
    }
    if total == 0 {
      TakeTurns(norm, L, count, toDistribute);
      return;
    }
    UnsettledBound(norm[..], count);
    ShareOut(norm, L, count, toDistribute, total);
  }

  lemma {:induction false} UnsettledBound(norm: seq<int>, count: seq<nat>)
    requires |norm| == |count|
    ensures Unsettled(norm, count) <= Sum(count)
  {
    if norm != [] { UnsettledBound(norm[..|norm| - 1], count[..|norm| - 1]); }
  }

  // ---------- the primary path ----------

  /** The fraction, in 20-bit units, that a small value must beat to be rounded up. */
  function RestToBeat(proba: nat): nat
    requires proba < 8
  {
    match proba
    case 0 => 0
    case 1 => 473195
    case 2 => 504333
    case 3 => 520860
    case 4 => 550000
    case 5 => 700000
    case 6 => 750000
    case _ => 830000
  }

  /** A count in 62-bit fixed point. */
  function Scaled(count: nat, total: nat): nat
    requires total > 0
  {
    Times(count, Pow2(62) / total)
  }

  /** A count scaled to the table, rounded up when its fraction beats a bound that grows
      with small values. */
  function Proba(count: nat, total: nat, L: nat): nat
    requires total > 0 && L <= 42
  {
    var proba := Shr(Scaled(count, total), 62 - L);
    if proba < 8 && Scaled(count, total) - Shl(proba, 62 - L) > Shl(RestToBeat(proba), 42 - L) then proba + 1 else proba
  }

  /** A present symbol gets at least one cell and at most the table; nothing overflows. */
  lemma {:induction false} ProbaRange(count: nat, total: nat, L: nat)
    requires 0 < count <= total < Pow2(32) && 5 <= L <= 12
    ensures 1 <= Proba(count, total, L) <= Pow2(L)
  {
    hide Shr, Shl, Pow2, Scaled;
    var scaled := Scaled(count, total);
    ScaledRange(count, total);
    var proba := Shr(scaled, 62 - L);
    WholeScale(L);
    ShrMono(scaled, Pow2(62), 62 - L);
    if proba == 0 {
      ShlZ(62 - L);
      ShlZ(42 - L);
    }
  }

  lemma {:induction false} WholeScale(L: nat)
    requires 5 <= L <= 12
    ensures Shr(Pow2(62), 62 - L) == Pow2(L) && Pow2(L) >= 8
  {
    Pow2Mono(3, L);
    assert Pow2(3) == 8;
    hide Shr, Shl, Pow2;
    Pow2Add(L, 62 - L);
    ShlMul(Pow2(L), 62 - L);
    ShrUnique(0, Pow2(L), 62 - L);
  }

  lemma {:induction false} ScaledRange(count: nat, total: nat)
    requires 0 < count <= total < Pow2(32)
    ensures 0 < Scaled(count, total) <= Pow2(62)
  {
    hide Pow2;
    Pow2Mono(32, 62);
    ScaledBounds(count, total, Pow2(62));
  }

  lemma {:induction false} ScaledBounds(count: nat, total: nat, whole: nat)
    requires 0 < count <= total <= whole
    ensures 0 < Times(count, whole / total) <= whole
  {
    var step := whole / total;
    DivBounds(whole, total);
    MulMono(count, total, step);
    assert step >= 1 by { if step <= 0 { MulMono(step, 0, total); } }
    MulMono(1, count, step);
  }

  /** What the primary pass gives each symbol. */
  function Primary(count: seq<nat>, L: nat): (p: seq<int>)
    requires Sum(count) > 0 && L <= 42
    ensures |p| == |count|
  {
    seq(|count|, s requires 0 <= s < |count| => PrimaryShare(count[s], Sum(count), L))
  }

  function PrimaryShare(count: nat, total: nat, L: nat): int
    requires total > 0 && L <= 42
  {
    if count == 0 then 0 else if count <= Shr(total, L) then -1 else Proba(count, total, L)
  }

  /** The first of the largest shares. */
  ghost predicate IsPeak(norm: seq<int>, i: nat) {
    i < |norm| && norm[i] > 0 && forall t :: 0 <= t < |norm| ==> norm[t] <= norm[i] && (t < i ==> norm[t] < norm[i])
  }

  /** The first of the largest takes what is left or bears what the primary pass gave too much, if
      that is less than half of it; otherwise the fallback starts anew. */
  ghost predicate Corrected(norm: seq<int>, count: seq<nat>, L: nat)
    requires Sum(count) > 0 && L <= 42
  {
    var p := Primary(count, L);
    var still := Pow2(L) - Shares(p);
    exists i: nat :: IsPeak(p, i) && if -still < p[i] / 2 then norm == p[i := p[i] + still] else IsFallback(norm, count, L)
  }

  /** The primary pass, symbol by symbol; stops at a symbol that is the whole source. */
  method ScaleCounts(norm: array<int>, L: nat, count: seq<nat>) returns (single: bool, still: int, largest: nat)
    requires norm.Length == |count| > 0 && 5 <= L <= 12 && 0 < Sum(count) < Pow2(32)
    modifies norm
    ensures single <==> exists s :: 0 <= s < |count| && count[s] == Sum(count)
    ensures largest < |count|
    ensures !single ==> Shares(norm[..]) + still == Pow2(L)
    ensures !single ==> forall t :: 0 <= t < |count| ==> norm[t] >= -1 && (norm[t] == 0 <==> count[t] == 0)
    ensures !single && norm[largest] <= 0 ==> forall t :: 0 <= t < |count| ==> count[t] <= Shr(Sum(count), L)
    ensures !single ==> forall t :: 0 <= t < |count| && 0 < count[t] <= Shr(Sum(count), L) ==> norm[t] == -1
    ensures !single ==> norm[..] == Primary(count, L) && (norm[largest] > 0 ==> IsPeak(norm[..], largest))
  {
    hide Sum, Shr, Pow2, Shares, Proba;
    ghost var p := Primary(count, L);
    var total := Sum(count);
    var lowThreshold := Shr(total, L);
    still, largest, single := Pow2(L), 0, false;
    var largestP: int := 0;
    SettledNone(norm[..][..0], count[..0]);
    for s := 0 to |count|
      invariant largest < |count| && !single
      invariant forall t :: 0 <= t < s ==> count[t] != total
      invariant Shares(norm[..][..s]) + still == Pow2(L)
      invariant forall t :: 0 <= t < s ==> norm[t] >= -1 && (norm[t] == 0 <==> count[t] == 0)
      invariant forall t :: 0 <= t < s && 0 < count[t] <= lowThreshold ==> norm[t] == -1
      invariant largestP >= 0 && (largestP > 0 ==> largest < s && norm[largest] == largestP)
      invariant largestP == 0 ==> forall t :: 0 <= t < s ==> count[t] <= lowThreshold
      invariant forall t :: 0 <= t < s ==> norm[t] == p[t]
      invariant forall t :: 0 <= t < s ==> norm[t] <= largestP && (t < largest ==> norm[t] < largestP)
      invariant largestP == 0 ==> largest == 0
    {
      ghost var before := norm[..];
      SumPrefix(count, s);
      if count[s] == total { return true, still, largest; }
      if count[s] == 0 {
        norm[s] := 0;
      } else if count[s] <= lowThreshold {
        norm[s] := -1;
        still := still - 1;
      } else {
        ProbaRange(count[s], total, L);
        var proba := Proba(count[s], total, L);
        if proba > largestP { largestP, largest := proba, s; }
        norm[s] := proba;
        still := still - proba;
      }
      assert norm[..][..s] == before[..s];
      SharesNext(norm[..], s);
    }
    assert norm[..][..|count|] == norm[..];
  }

  function EffectiveLog(tableLog: nat): nat { if tableLog == 0 then DEFAULT_TABLELOG else tableLog }

  /** The table log is one that `FSE_normalizeCount` works with. */
  predicate Supported(L: nat, count: seq<nat>)
    requires |count| >= 2 && Sum(count) >= 2
  {
    MIN_TABLELOG <= L <= MAX_TABLELOG && L >= MinTableLog(Sum(count), |count| - 1)
  }

  /** `FSE_normalizeCount`: every outcome, with its exact condition. A source of distinct symbols
      as many as the table has cells must not be passed: the fallback divides by zero. On every
      other one the fallback succeeds. */
  method NormalizeCount(norm: array<int>, tableLog: nat, count: seq<nat>) returns (r: Outcome)
    requires norm.Length == |count| >= 2
    requires 2 <= Sum(count) < Pow2(32)
    modifies norm
    ensures var L := EffectiveLog(tableLog);
            && (r == TableLogTooLarge <==> L > MAX_TABLELOG)
            && (r == GenericError <==> L <= MAX_TABLELOG && !Supported(L, count))
            && (r == SingleSymbol <==> Supported(L, count) && exists s :: 0 <= s < |count| && count[s] == Sum(count))
            && (r == DividedByZero <==> Supported(L, count) && Sum(count) == Pow2(L) && forall s :: 0 <= s < |count| ==> count[s] <= 1)
            && (r.Normalized? ==> r.tableLog == L && IsNormalized(norm[..], count, L) && L <= MAX_TABLELOG && Corrected(norm[..], count, L))
  {
    hide Sum, Shr, Pow2, Shares, Present, MinTableLog, Settled, Primary, IsFallback;
    var L := EffectiveLog(tableLog);
    if L < MIN_TABLELOG { return GenericError; }
    if L > MAX_TABLELOG { return TableLogTooLarge; }
    if L < MinTableLog(Sum(count), |count| - 1) { return GenericError; }
    RoomForAll(count, L);
    var single, still, largest := ScaleCounts(norm, L, count);
    if single {
      SingleIsMany(count);
      return SingleSymbol;
    }
    if Present(count) == Pow2(L) { OnlyException(norm[..], count, L); } else { NotAllLow(count, L); }
    ghost var p := norm[..];
    assert norm[largest] > 0 ==> IsPeak(p, largest);
    if -still >= norm[largest] / 2 {
      var trap := NormalizeM2(norm, L, count);
      if trap { return DividedByZero; }
    } else {
      ghost var before := norm[..];
      SharesUpdate(before, largest, norm[largest] + still);
      norm[largest] := norm[largest] + still;
      assert norm[..] == before[largest := before[largest] + still];
    }
    return Normalized(L);
  }

  lemma {:induction false} SingleIsMany(count: seq<nat>)
    requires Sum(count) >= 2 && exists s :: 0 <= s < |count| && count[s] == Sum(count)
    ensures exists s :: 0 <= s < |count| && count[s] >= 2
  {
    var s :| 0 <= s < |count| && count[s] == Sum(count);
    assert count[s] >= 2;
  }

  /** Normalised counts are norms that share out the table. */
  lemma {:induction false} SharesAreNorms(norm: seq<int>, n: nat)
    requires n <= |norm| && forall s :: 0 <= s < |norm| ==> norm[s] >= -1
    ensures Shares(norm[..n]) == PosSum(norm[..n]) + LowCount(norm[..n])
  {
    if n > 0 {
      SharesAreNorms(norm, n - 1);
      SharesNext(norm, n - 1);
      PosSumNext(norm, n - 1);
    } else {
      LowNone(norm[..0]);
    }
  }
}
