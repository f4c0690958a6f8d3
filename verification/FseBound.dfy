/** Whether `FSE_compressBound` is enough for `FSE_compress2`: it is not. Counts just below the
    rounding bounds lose almost half a cell each, and the stream grows beyond the block bound. */
module FseBound {
  import opened Bits
  import opened Counts
  import opened BitStream
  import opened FseSpread
  import opened FseTable
  import N = FseNormalize
  import H = FseHeader
  import S = FseStream
  import F = Fse

  /** `FSE_COMPRESSBOUND` */
  function CompressBound(size: nat): nat { H.NCOUNT_BOUND + S.BlockBound(size) }

  // ---------- what a source costs ----------

  /** The prices of all symbols of a source. */
  ghost function Cost(prices: seq<nat>, src: seq<byte>): nat {
    if src == [] then 0 else Cost(prices, src[..|src| - 1]) + S.PriceOf(prices, src[|src| - 1])
  }

  /** Prices times counts. */
  ghost function Dot(prices: seq<nat>, count: seq<nat>, n: nat): nat
    requires n <= |prices| && n <= |count|
  {
    if n == 0 then 0 else Dot(prices, count, n - 1) + prices[n - 1] * count[n - 1]
  }

  ghost function CountsOf(src: seq<byte>, n: nat): (r: seq<nat>)
    ensures |r| == n && forall s :: 0 <= s < n ==> r[s] == Count(src, s)
  {
    seq(n, s requires 0 <= s < n => Count(src, s))
  }

  lemma {:induction false} DotBump(prices: seq<nat>, count: seq<nat>, x: nat, n: nat)
    requires n <= |prices| == |count| && x < |count|
    ensures Dot(prices, count[x := count[x] + 1], n) == Dot(prices, count, n) + if x < n then prices[x] else 0
  {
    if n > 0 {
      DotBump(prices, count, x, n - 1);
      assert prices[n - 1] * (count[n - 1] + 1) == prices[n - 1] * count[n - 1] + prices[n - 1];
    }
  }

  lemma {:induction false} DotNothing(prices: seq<nat>, count: seq<nat>, n: nat)
    requires n <= |prices| && n <= |count| && forall s :: 0 <= s < |count| ==> count[s] == 0
    ensures Dot(prices, count, n) == 0
  {
    if n > 0 { DotNothing(prices, count, n - 1); }
  }

  /** The cost of a source is that of its histogram. */
  lemma {:induction false} CostIsDot(prices: seq<nat>, src: seq<byte>)
    requires forall i :: 0 <= i < |src| ==> src[i] < |prices|
    ensures Cost(prices, src) == Dot(prices, CountsOf(src, |prices|), |prices|)
  {
    var n := |prices|;
    if src == [] {
      DotNothing(prices, CountsOf(src, n), n);
    } else {
      hide Dot;
      var front, x := src[..|src| - 1], src[|src| - 1];
      CostIsDot(prices, front);
      DotBump(prices, CountsOf(front, n), x, n);
      assert CountsOf(src, n) == CountsOf(front, n)[x := CountsOf(front, n)[x] + 1];
    }
  }

  /** All but two symbols are on the bill. */
  lemma {:induction false} BillIsCost(prices: seq<nat>, src: seq<byte>, i: nat, top: nat)
    requires |src| >= 2 && i <= |src| - 2 && forall s :: 0 <= s < |prices| ==> prices[s] <= top
    ensures S.Bill(prices, src, i) + Cost(prices, src[..i]) + 2 * top >= Cost(prices, src)
    decreases |src| - i
  {
    if i == |src| - 2 {
      assert src[..|src| - 1][..i] == src[..i];
    } else {
      BillIsCost(prices, src, i + 1, top);
      assert src[..i + 1][..i] == src[..i];
    }
  }

  // ---------- an uneven source ----------

  /** 121 symbols of 1.45 cells each, 134 of 2.48, and one of 4.23, in a table of 512. */
  function Uneven(): (r: seq<nat>)
    ensures |r| == 256 && forall s :: 0 <= s < 256 ==> r[s] == if s < 121 then 145 else if s < 255 then 248 else 423
  {
    seq(256, s => if s < 121 then 145 else if s < 255 then 248 else 423)
  }

  /** What they get. */
  ghost function UnevenShares(): (r: seq<int>)
    ensures |r| == 256 && forall s :: 0 <= s < 256 ==> r[s] == if s < 121 then 1 else if s < 255 then 2 else 4
  {
    seq(256, s => if s < 121 then 1 else if s < 255 then 2 else 4)
  }

  /** What they cost. */
  ghost function UnevenPrices(): (r: seq<nat>)
    ensures |r| == 256 && forall s :: 0 <= s < 256 ==> r[s] == if s < 121 then 9 else if s < 255 then 8 else 0
  {
    seq(256, s => if s < 121 then 9 else if s < 255 then 8 else 0)
  }

  lemma {:induction false} UnevenSum(n: nat)
    requires n <= 256
    ensures Sum(Uneven()[..n]) == if n <= 121 then 145 * n else if n <= 255 then 17545 + 248 * (n - 121) else 51200
  {
    hide Uneven;
    if n > 0 {
      UnevenSum(n - 1);
      SumNext(Uneven(), n - 1);
    }
  }

  lemma {:induction false} UnevenTotal()
    ensures Sum(Uneven()) == 51200
  {
    hide Sum, Uneven;
    UnevenSum(256);
    assert Uneven()[..256] == Uneven();
  }

  lemma {:induction false} UnevenGiven(n: nat)
    requires n <= 256
    ensures N.Shares(UnevenShares()[..n]) == if n <= 121 then n else if n <= 255 then 121 + 2 * (n - 121) else 393
  {
    hide UnevenShares;
    if n > 0 {
      UnevenGiven(n - 1);
      N.SharesNext(UnevenShares(), n - 1);
    }
  }

  lemma {:induction false} UnevenCost(n: nat)
    requires n <= 256
    ensures Dot(UnevenPrices(), Uneven(), n) == if n <= 121 then 1305 * n else if n <= 255 then 157905 + 1984 * (n - 121) else 423761
  {
    hide Uneven, UnevenPrices;
    if n > 0 { UnevenCost(n - 1); }
  }

  /** A share below eight that does not beat its bound. */
  lemma {:induction false} RoundedDown(count: nat, total: nat, L: nat, step: nat, p: nat, rest: nat)
    requires total > 0 && L <= 42 && p < 8 && step == Pow2(62) / total && count * step == p * Pow2(62 - L) + rest
    requires rest < Pow2(62 - L) && rest <= N.RestToBeat(p) * Pow2(42 - L)
    ensures N.Proba(count, total, L) == p
  {
    hide Pow2, Shr, Shl, N.RestToBeat;
    ShlMul(p, 62 - L);
    ShlMul(N.RestToBeat(p), 42 - L);
    ShrUnique(rest, p, 62 - L);
  }

  lemma {:induction false} Powers()
    ensures Pow2(62) == 4611686018427387904 && Pow2(53) == 9007199254740992 && Pow2(33) == 8589934592 && Pow2(9) == 512
  {
    assert Pow2(9) == 512 && Pow2(11) == 2048;
    Pow2Add(11, 11);
    Pow2Add(22, 11);
    Pow2Add(33, 11);
    Pow2Add(44, 9);
    Pow2Add(53, 9);
  }

  /** The primary pass on the uneven counts. */
  lemma {:induction false} UnevenPrimary()
    ensures Sum(Uneven()) > 0 && N.Primary(Uneven(), 9) == UnevenShares()
  {
    hide Sum, Pow2, Shr, N.Proba, Uneven, UnevenShares;
    UnevenTotal();
    Powers();
    var step := 90071992547409;
    assert Pow2(62) / 51200 == step;
    RoundedDown(145, 51200, 9, step, 1, 4053239664633313);
    RoundedDown(248, 51200, 9, step, 2, 4323455642275448);
    RoundedDown(423, 51200, 9, step, 4, 2071655828590039);
    assert Shr(51200, 9) == 100 by {
      ShlMul(100, 9);
      ShrUnique(0, 100, 9);
    }
    var p, q := N.Primary(Uneven(), 9), UnevenShares();
    forall s | 0 <= s < 256 ensures p[s] == q[s] { assert p[s] == N.PrimaryShare(Uneven()[s], 51200, 9); }
  }

  /** The last symbol takes the cells that are left, and the others keep theirs. */
  lemma {:induction false} UnevenNorms(norm: seq<int>)
    requires Sum(Uneven()) > 0 && N.Corrected(norm, Uneven(), 9)
    ensures norm == UnevenShares()[255 := 123]
  {
    hide Sum, Pow2, N.Shares, N.Primary, N.IsFallback, Uneven, UnevenShares;
    UnevenPrimary();
    UnevenGiven(256);
    Powers();
    var p := UnevenShares();
    assert p[..256] == p;
    assert N.IsPeak(p, 255);
  }

  lemma {:induction false} UnevenPriced(norm: seq<int>)
    requires norm == UnevenShares()[255 := 123]
    ensures S.ArePrices(norm, 9, UnevenPrices())
  {
    assert Pow2(0) == 1 && Pow2(1) == 2;
    hide Pow2;
    forall s | 0 <= s < 256 ensures S.IsPrice(norm[s], 9, UnevenPrices()[s]) {}
  }

  lemma {:induction false} UnevenLog()
    ensures F.OptimalTableLog(9, 51200, 255) == 9
  {
    HighBitIs(51199, 15);
    HighBitIs(255, 7);
  }

  lemma {:induction false} HighBitIs(v: nat, h: nat)
    requires v > 0 && Pow2(h) <= v < Pow2(h + 1)
    ensures HighBit(v) == h
  {
    HighBitUnique(v, h);
  }

  /** The stream of an uneven source is longer than the bound. */
  lemma {:induction false} UnevenLong(norm: seq<int>, spread: seq<byte>, ct: CTable, src: seq<byte>)
    requires F.IsHistogram(Uneven(), src) && norm == UnevenShares()[255 := 123] && IsCTable(norm, 9, spread, ct) && S.Codable(norm, src)
    ensures |src| == 51200 && |S.Encode(norm, 9, spread, ct, src, 0).bits| >= 423743
  {
    hide Sum, Pow2, IsCTable, S.Codable, S.Encode, Dot, Uneven, UnevenPrices, UnevenShares, S.Bill, Cost, Count;
    UnevenTotal();
    var prices := UnevenPrices();
    UnevenPriced(norm);
    S.Billed(norm, 9, spread, ct, src, prices, 0);
    BillIsCost(prices, src, 0, 9);
    assert src[..0] == [];
    CostNothing(prices);
    CostIsDot(prices, src);
    assert CountsOf(src, 256) == Uneven();
    UnevenCost(256);
  }

  lemma {:induction false} CostNothing(prices: seq<nat>)
    ensures Cost(prices, []) == 0
  {
  }

  /** So `FSE_compress2` leaves a destination of the size that `FSE_compressBound` gives. */
  method BoundTooSmall(src: seq<byte>) returns (r: F.Compressed)
    requires F.IsHistogram(Uneven(), src)
    ensures |src| == 51200 && CompressBound(|src|) == 52112 && r == F.Overrun
  {
    hide Sum, Pow2, F.Chosen, F.Prepared, F.Follows, Uneven, Count, H.HeaderBits, F.Promising, F.AllSame;
    UnevenSource(src);
    ghost var count, norm, L, spread, ct;
    r, count, norm, L, spread, ct := F.Compress(CompressBound(|src|), src, 9);
    UnevenOverruns(r, count, norm, L, spread, ct, src);
  }

  lemma {:induction false} UnevenSource(src: seq<byte>)
    requires F.IsHistogram(Uneven(), src)
    ensures 1 < |src| == 51200 < Pow2(32) && !F.AllSame(src) && F.Promising(src)
  {
    hide Count, Pow2, Sum, Uneven;
    UnevenTotal();
    Pow2Mono(16, 32);
    assert Pow2(16) == 65536 by { PowSixteen(); }
    assert Count(src, 255) == 423;
    assert Count(src, 0) == 145;
    if F.AllSame(src) { F.CountSame(src, src[0]); }
  }

  lemma {:induction false} PowSixteen()
    ensures Pow2(16) == 65536
  {
    ByteBound();
    Pow2Add(8, 8);
  }

  lemma {:induction false} SameHistogram(a: seq<nat>, b: seq<nat>, src: seq<byte>)
    requires F.IsHistogram(a, src) && F.IsHistogram(b, src)
    ensures a == b
  {
    hide Count, Sum;
    if |a| < |b| { F.CountNone(src, |b| - 1); }
    if |b| < |a| { F.CountNone(src, |a| - 1); }
  }

  lemma {:induction false} UnevenOverruns(r: F.Compressed, count: seq<nat>, norm: seq<int>, L: nat, spread: seq<byte>, ct: CTable, src: seq<byte>)
    requires F.IsHistogram(Uneven(), src) && F.Chosen(norm, L, count, src, 9) && F.Prepared(norm, L, spread, ct, src)
    requires |H.HeaderBits(norm, L)| > 0 && F.Follows(r, CompressBound(|src|), norm, L, spread, ct, src)
    ensures r == F.Overrun
  {
    hide Sum, Pow2, Uneven, UnevenShares, Count, H.HeaderBits, H.Describable, N.Corrected, N.IsNormalized, F.OptimalTableLog, IsCTable, S.Codable, S.Encode, S.BlockBits, S.Refuses;
    SameHistogram(count, Uneven(), src);
    UnevenTotal();
    UnevenLog();
    UnevenNorms(norm);
    UnevenLong(norm, spread, ct, src);
    H.HeaderFits(norm, 9);
    F.HeaderRoom(norm, 9);
  }

  // ---------- there is such a source ----------

  /** The symbols before `n`, each as often as it counts. */
  function Spelled(count: seq<nat>, n: nat): (src: seq<byte>)
    requires n <= |count| <= 256
  {
    if n == 0 then [] else Spelled(count, n - 1) + seq(count[n - 1], _ => (n - 1) as byte)
  }

  lemma {:induction false} SpelledCounts(count: seq<nat>, n: nat, s: nat)
    requires n <= |count| <= 256
    ensures Count(Spelled(count, n), s) == if s < n then count[s] else 0
  {
    if n > 0 {
      SpelledCounts(count, n - 1, s);
      var last: seq<byte> := seq(count[n - 1], _ => (n - 1) as byte);
      CountConcat(Spelled(count, n - 1), last, s);
      if s == n - 1 { F.CountSame(last, s); } else { F.CountNone(last, s); }
    }
  }

  lemma {:induction false} SpelledSize(count: seq<nat>, n: nat)
    requires n <= |count| <= 256
    ensures |Spelled(count, n)| == Sum(count[..n]) && forall i :: 0 <= i < |Spelled(count, n)| ==> Spelled(count, n)[i] < n
  {
    if n > 0 {
      SpelledSize(count, n - 1);
      SumNext(count, n - 1);
    }
  }

  /** Counts that end with a symbol that occurs are a histogram. */
  lemma {:induction false} SpelledHistogram(count: seq<nat>)
    requires 1 <= |count| <= 256 && count[|count| - 1] > 0
    ensures F.IsHistogram(count, Spelled(count, |count|))
  {
    hide Spelled, Count, Sum;
    SpelledSize(count, |count|);
    assert count[..|count|] == count;
    forall s | 0 <= s < |count| ensures count[s] == Count(Spelled(count, |count|), s) { SpelledCounts(count, |count|, s); }
  }

  /** A source of 51200 bytes on which the bound fails. */
  lemma {:induction false} UnevenExists()
    ensures F.IsHistogram(Uneven(), Spelled(Uneven(), 256)) && |Spelled(Uneven(), 256)| == 51200
  {
    hide Spelled, Count, Sum, Uneven;
    SpelledHistogram(Uneven());
    UnevenTotal();
  }
}
