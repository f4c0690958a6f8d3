/** The weights of a Huffman header (`HUF_readStats`): the last one is not written but implied,
    because all of them fill the table. Then the tables, and the whole way of one stream. */
module HufStats {
  import opened Bits
  import opened BitStream
  import opened Counts
  import T = HufTable
  import D = HufDepth
  import B = HufBuild
  import opened HufStream

  /** What the reader makes of the weights that were written. */
  datatype Stats = Corrupted | Stats(weights: seq<nat>, tableLog: nat, rankStats: seq<nat>)

  // ---------- when a last weight is implied ----------

  /** The written weights leave room for exactly one more. */
  ghost predicate Implies(written: seq<nat>, ws: seq<nat>, log: nat) {
    && |ws| == |written| + 1 && ws[..|written|] == written && ws[|written|] >= 1
    && T.IsWeights(ws, log) && 1 <= log <= TABLELOG_MAX && T.Num(ws, 1) >= 2
    && forall i :: 0 <= i < |written| ==> written[i] < TABLELOG_MAX
  }

  lemma {:induction false} SumOfWhole(written: seq<nat>, last: nat, log: nat)
    requires (forall i :: 0 <= i < |written| ==> written[i] <= log) && last <= log
    ensures T.Below(written + [last], log + 1) == B.CellSum(written) + T.Cells(last)
  {
    hide T.Below, T.Cells;
    B.BelowIsSum(written + [last], log);
    assert (written + [last])[..|written|] == written;
  }

  /** A weight that occurs is at most the depth. */
  lemma {:induction false} CellsWithin(ws: seq<nat>, i: nat)
    requires i < |ws|
    ensures T.Cells(ws[i]) <= B.CellSum(ws)
  {
    if i < |ws| - 1 { CellsWithin(ws[..|ws| - 1], i); }
  }

  /** From the sum of the written cells: the depth, and the weight that is missing. */
  lemma {:induction false} Missing(written: seq<nat>, sum: nat, log: nat, rest: nat, last: nat)
    requires sum == B.CellSum(written) && sum > 0 && log == HighBit(sum) + 1 && rest == Pow2(log) - sum
    requires last >= 1 && rest == Pow2(last - 1)
    ensures last <= log && (forall i :: 0 <= i < |written| ==> written[i] <= log) && T.IsWeights(written + [last], log)
  {
    hide HighBit, T.Below, Pow2;
    PowDouble(log);
    if last > log {
      Pow2Mono(log, last - 1);
      assert false;
    }
    forall i | 0 <= i < |written| ensures written[i] <= log {
      CellsWithin(written, i);
      if written[i] > log { Pow2Mono(log, written[i] - 1); }
    }
    SumOfWhole(written, last, log);
    T.CellsAre(last);
  }

  lemma {:induction false} PowDouble(n: nat)
    requires n >= 1
    ensures Pow2(n) == 2 * Pow2(n - 1)
  {
  }

  /** If the weights are implied, the depth and the missing weight come out right. */
  lemma {:induction false} Recovered(written: seq<nat>, ws: seq<nat>, log: nat)
    requires Implies(written, ws, log)
    ensures var sum := B.CellSum(written); var last := ws[|written|];
      && sum > 0 && HighBit(sum) + 1 == log && Pow2(log) - sum == Pow2(last - 1) && HighBit(Pow2(last - 1)) == last - 1
      && Pow2(log) - sum > 0
  {
    hide HighBit, T.Below, Pow2, T.Num;
    var last := ws[|written|];
    assert ws == written + [last];
    assert forall i :: 0 <= i < |written| ==> written[i] == ws[i];
    SumOfWhole(written, last, log);
    T.CellsAre(last);
    Pow2Mono(last - 1, log - 1);
    PowDouble(log);
    PowDouble(last);
    PowPositive(last - 1);
    PowPositive(log - 1);
    HighBitUnique(B.CellSum(written), log - 1);
    HighBitUnique(Pow2(last - 1), last - 1);
  }

  lemma {:induction false} PowPositive(n: nat)
    ensures Pow2(n) >= 1
  {
  }

  /** In a complete code the longest codes come in pairs. */
  lemma {:induction false} RankOneEven(ws: seq<nat>, log: nat)
    requires T.IsWeights(ws, log) && log >= 1
    ensures T.Num(ws, 1) % 2 == 0
  {
    hide T.IsWeights, T.Num;
    var x := T.BelowMultiple(ws, log, 2);
    T.BelowStep(ws, 1);
    T.BelowFirst(ws);
    ShlSmall(T.Num(ws, 1), x);
  }

  lemma {:induction false} ShlSmall(a: nat, x: nat)
    ensures Shl(a, 0) == a && Shl(x, 1) == 2 * x
  {
  }

  /** The weights part of `HUF_readStats`: it accepts exactly the weights that a complete code
      with at least two longest codes leaves when its last weight is dropped, and then gives
      that code back. */
  method ReadWeights(written: seq<nat>) returns (r: Stats)
    ensures r.Stats? ==> Implies(written, r.weights, r.tableLog)
    ensures r.Stats? ==> |r.rankStats| == TABLELOG_MAX + 1 && forall w :: 1 <= w <= TABLELOG_MAX ==> r.rankStats[w] == T.Num(r.weights, w)
    ensures forall ws, log :: Implies(written, ws, log) ==> r.Stats? && r.weights == ws && r.tableLog == log
  {
    hide T.Num, Pow2, HighBit, T.IsWeights, T.Cells, Implies;
    var rankStats: seq<nat> := seq(TABLELOG_MAX + 1, _ => 0);
    var weightTotal := 0;
    forall w | 0 <= w <= TABLELOG_MAX ensures T.Num(written[..0], w) == 0 { B.NumNone(w); }
    for n := 0 to |written|
      invariant |rankStats| == TABLELOG_MAX + 1 && weightTotal == B.CellSum(written[..n])
      invariant forall w :: 0 <= w <= TABLELOG_MAX ==> rankStats[w] == T.Num(written[..n], w)
      invariant forall i :: 0 <= i < n ==> written[i] < TABLELOG_MAX
    {
      if written[n] >= TABLELOG_MAX {
        TooHeavy(written, n);
        return Corrupted;
      }
      forall w | 0 <= w <= TABLELOG_MAX ensures T.Num(written[..n + 1], w) == T.Num(written[..n], w) + if written[n] == w then 1 else 0 {
        T.NumMore(written, n, w);
      }
      assert written[..n + 1][..n] == written[..n];
      rankStats := rankStats[written[n] := rankStats[written[n]] + 1];
      weightTotal := weightTotal + T.Cells(written[n]);
    }
    assert written[..|written|] == written;
    r := ImpliedWeight(written, weightTotal, rankStats);
  }

  lemma {:induction false} TooHeavy(written: seq<nat>, n: nat)
    requires n < |written| && written[n] >= TABLELOG_MAX
    ensures forall ws, log :: !Implies(written, ws, log)
  {
  }

  /** The last weight, and the test that the longest codes come in pairs. */
  method ImpliedWeight(written: seq<nat>, weightTotal: nat, rankStats0: seq<nat>) returns (r: Stats)
    requires weightTotal == B.CellSum(written) && |rankStats0| == TABLELOG_MAX + 1
    requires forall w :: 0 <= w <= TABLELOG_MAX ==> rankStats0[w] == T.Num(written, w)
    requires forall i :: 0 <= i < |written| ==> written[i] < TABLELOG_MAX
    ensures r.Stats? ==> Implies(written, r.weights, r.tableLog)
    ensures r.Stats? ==> |r.rankStats| == TABLELOG_MAX + 1 && forall w :: 1 <= w <= TABLELOG_MAX ==> r.rankStats[w] == T.Num(r.weights, w)
    ensures forall ws, log :: Implies(written, ws, log) ==> r.Stats? && r.weights == ws && r.tableLog == log
  {
    hide T.Num, Pow2, HighBit, T.IsWeights, T.Cells, Implies, B.CellSum;
    forall ws, log | Implies(written, ws, log)
      ensures IsAnswer(written, weightTotal, ws, log) { AnswerIs(written, weightTotal, ws, log); }
    if weightTotal == 0 { return Corrupted; }
    var tableLog := HighBit(weightTotal) + 1;
    if tableLog > TABLELOG_MAX { return Corrupted; }
    var total := Pow2(tableLog);
    var rest := total - weightTotal;
    var verif := Pow2(HighBit(rest));
    var lastWeight := HighBit(rest) + 1;
    if verif != rest { return Corrupted; }
    Missing(written, weightTotal, tableLog, rest, lastWeight);
    var weights := written + [lastWeight];
    forall w | 0 <= w <= TABLELOG_MAX ensures T.Num(weights, w) == T.Num(written, w) + if lastWeight == w then 1 else 0 { B.NumAppend(written, lastWeight, w); }
    var rankStats := rankStats0[lastWeight := rankStats0[lastWeight] + 1];
    RankOneEven(weights, tableLog);
    if rankStats[1] < 2 || rankStats[1] % 2 == 1 { return Corrupted; }
    MakesImplied(written, weights, tableLog);
    r := Stats(weights, tableLog, rankStats);
  }

  /** What the reader computes when the weights are implied by `ws`. */
  ghost predicate IsAnswer(written: seq<nat>, sum: nat, ws: seq<nat>, log: nat) {
    && |ws| == |written| + 1 && ws == written + [ws[|written|]] && ws[|written|] >= 1 && sum > 0 && HighBit(sum) + 1 == log <= TABLELOG_MAX
    && Pow2(log) - sum == Pow2(ws[|written|] - 1) && HighBit(Pow2(ws[|written|] - 1)) == ws[|written|] - 1 && T.Num(ws, 1) >= 2
  }

  lemma {:induction false} AnswerIs(written: seq<nat>, sum: nat, ws: seq<nat>, log: nat)
    requires Implies(written, ws, log) && sum == B.CellSum(written)
    ensures IsAnswer(written, sum, ws, log)
  {
    hide T.Num, Pow2, HighBit, T.IsWeights, B.CellSum;
    Recovered(written, ws, log);
    assert ws == written + [ws[|written|]];
  }

  lemma {:induction false} MakesImplied(written: seq<nat>, ws: seq<nat>, log: nat)
    requires |ws| == |written| + 1 && ws[..|written|] == written && ws[|written|] >= 1
    requires T.IsWeights(ws, log) && 1 <= log <= TABLELOG_MAX && T.Num(ws, 1) >= 2
    requires forall i :: 0 <= i < |written| ==> written[i] < TABLELOG_MAX
    ensures Implies(written, ws, log)
  {
  }

  // ---------- tables and the whole way ----------

  /** `HUF_readDTableX2`, from the weights on. */
  method ReadTableX2(ws: seq<nat>, rankStats: seq<nat>, tableLog: nat) returns (dt: array<T.Entry>)
    requires T.IsWeights(ws, tableLog) && |rankStats| > tableLog && forall w :: 1 <= w <= tableLog ==> rankStats[w] == T.Num(ws, w)
    ensures fresh(dt) && T.IsTable(dt[..], ws, tableLog)
  {
    hide T.Num, T.IsWeights, T.IsTable, T.Below;
    var rankVal := new nat[|rankStats|](i requires 0 <= i < |rankStats| => rankStats[i]);
    dt := new T.Entry[Pow2(tableLog)](_ => T.Entry(0, 0));
    T.RankStarts(rankVal, tableLog, ws);
    T.FillTable(dt, ws, tableLog, rankVal);
  }

  /** The header cannot carry a weight of `HUF_TABLELOG_MAX`: a code of one bit next to one of
      twelve, unless it belongs to the last symbol. */
  ghost predicate Writable(lens: seq<nat>, log: nat) {
    forall s :: 0 <= s < |lens| - 1 ==> !(lens[s] == 1 && log == TABLELOG_MAX)
  }

  /** A header of such weights implies the last one. */
  lemma {:induction false} HeaderImplies(vals: seq<nat>, lens: seq<nat>, ws: seq<nat>, log: nat, written: seq<nat>)
    requires IsCodes(vals, lens, ws, log) && log in lens && lens != [] && lens[|lens| - 1] >= 1 && |written| == |lens| - 1
    requires forall s :: 0 <= s < |written| ==> written[s] == if lens[s] == 0 || lens[s] > log then 0 else log + 1 - lens[s]
    ensures ws[..|written|] == written
    ensures Writable(lens, log) ==> Implies(written, ws, log)
    ensures !Writable(lens, log) ==> exists s :: 0 <= s < |written| && written[s] >= TABLELOG_MAX
  {
    hide T.Num, T.Below, T.IsCode, Pow2;
    if Writable(lens, log) {
      var s :| 0 <= s < |lens| && lens[s] == log;
      RankOneEven(ws, log);
      SomeNum(ws, s);
    } else {
      var s :| 0 <= s < |lens| - 1 && lens[s] == 1 && log == TABLELOG_MAX;
      assert written[s] >= TABLELOG_MAX;
    }
  }

  lemma {:induction false} SomeNum(ws: seq<nat>, s: nat)
    requires s < |ws|
    ensures T.Num(ws, ws[s]) >= 1
  {
    T.NumMore(ws, s, ws[s]);
    T.NumMono(ws, s + 1, |ws|, ws[s]);
    assert ws[..|ws|] == ws;
  }

  /** From counts to a code, from a text to a stream and back through the written weights, for
      every text over symbols that were counted. The header is refused exactly when it would
      have to carry a weight of twelve, so never below a limit of twelve bits. */
  method RoundTrip(text: seq<byte>, counts: seq<nat>, maxNbBits: nat, dst: array<byte>, out: array<byte>)
    returns (size: nat, ok: bool, lens: seq<nat>, log: nat)
    requires 1 <= |counts| <= 256 && Sum(counts) < D.SAFE_TOTAL && maxNbBits <= TABLELOG_MAX && out.Length == |text| && dst != out
    requires 2 <= Present(counts) <= Pow2(if maxNbBits == 0 then B.TABLELOG_DEFAULT else maxNbBits) && counts[|counts| - 1] > 0
    requires forall i :: 0 <= i < |text| ==> text[i] < |counts| && counts[text[i]] > 0
    modifies dst, out
    ensures log <= if maxNbBits == 0 then B.TABLELOG_DEFAULT else maxNbBits
    ensures size != 0 ==> (ok <==> Writable(lens, log)) && (ok ==> out[..] == text)
  {
    hide T.Num, T.IsTable, T.Below, T.IsCode, T.IsLengths, T.IsWeights, Pow2, Sum, Present, CodeBits, IsStream, IsCodes, Codable, Writable, Implies, D.Fib, B.TreeOf;
    var vals;
    ghost var ws, node, g, depths;
    B.TotalInRange(Sum(counts), if maxNbBits == 0 then B.TABLELOG_DEFAULT else maxNbBits);
    vals, lens, log, ws, node, g, depths := B.BuildCTable(counts, maxNbBits);
    CodesFacts(vals, lens, ws, log);
    TextCodable(text, counts, vals, lens, ws, log);
    size := Compress1X(dst, text, vals, lens, ws, log);
    ok := false;
    if size != 0 {
      var written := seq(|lens| - 1, s requires 0 <= s < |lens| - 1 => if lens[s] == 0 || lens[s] > log then 0 else log + 1 - lens[s]);
      HeaderImplies(vals, lens, ws, log, written);
      var stats := ReadWeights(written);
      if stats.Stats? {
        ImpliedFacts(written, stats.weights, stats.tableLog);
        var dt := ReadTableX2(stats.weights, stats.rankStats, stats.tableLog);
        ok := Decompress1X(out, dst[..size], dt[..], log, vals, lens, ws, text);
      }
    }
  }

  lemma {:induction false} ImpliedFacts(written: seq<nat>, ws: seq<nat>, log: nat)
    requires Implies(written, ws, log)
    ensures T.IsWeights(ws, log) && 1 <= log <= TABLELOG_MAX && forall s :: 0 <= s < |written| ==> written[s] < TABLELOG_MAX
  {
  }

  lemma {:induction false} CodesFacts(vals: seq<nat>, lens: seq<nat>, ws: seq<nat>, log: nat)
    requires IsCodes(vals, lens, ws, log)
    ensures T.IsWeights(ws, log) && |lens| == |ws| && forall s :: 0 <= s < |ws| ==> ws[s] == if lens[s] == 0 then 0 else log + 1 - lens[s]
    ensures forall s :: 0 <= s < |ws| ==> ws[s] <= log
  {
  }

  lemma {:induction false} TextCodable(text: seq<byte>, counts: seq<nat>, vals: seq<nat>, lens: seq<nat>, ws: seq<nat>, log: nat)
    requires IsCodes(vals, lens, ws, log) && |lens| == |counts|
    requires forall s :: 0 <= s < |counts| ==> (lens[s] >= 1 <==> counts[s] > 0)
    requires forall i :: 0 <= i < |text| ==> text[i] < |counts| && counts[text[i]] > 0
    requires forall s :: 0 <= s < |ws| ==> ws[s] == if lens[s] == 0 then 0 else log + 1 - lens[s]
    ensures Codable(text, ws)
  {
    forall i | 0 <= i < |text| ensures text[i] < |ws| && ws[text[i]] >= 1 {
      var s: nat := text[i];
      assert lens[s] >= 1;
      assert lens[s] <= log by { LengthWithin(vals, lens, ws, log, s); }
    }
  }

  lemma {:induction false} LengthWithin(vals: seq<nat>, lens: seq<nat>, ws: seq<nat>, log: nat, s: nat)
    requires IsCodes(vals, lens, ws, log) && s < |lens| && lens[s] >= 1
    ensures lens[s] <= log
  {
  }
}
