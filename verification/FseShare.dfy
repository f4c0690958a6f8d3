/** What `FseNormalize` gives a symbol, in terms of its exact share of the table: the quotient of
    count and total, and what the fixed-point step loses of it. */
module FseShare {
  import opened Bits
  import opened Counts
  import opened FseSpread
  import N = FseNormalize

  /** By how much a share of that many whole cells must be exceeded to be rounded up, in units of
      `2^-20` of a cell. */
  const BOUNDS: seq<nat> := [0, 473195, 504333, 520860, 550000, 700000, 750000, 830000]

  /** Absent symbols get nothing, those that deserve at most one cell a low one. A share above
      eight cells is cut to whole cells; one of fewer is rounded up if the rest beats the bound.
      The fixed-point step is too small by at most `2^-62`, so that `lost` is missing in the rest. */
  ghost predicate IsShare(norm: int, count: nat, total: nat, L: nat)
    requires total > 0 && L <= 42
  {
    if count == 0 then norm == 0
    else if count * Pow2(L) <= total then norm == -1
    else
      var whole, rest := count * Pow2(L) / total, count * Pow2(L) % total;
      var lost := count * (Pow2(62) % total);
      if whole > 8 then norm == if rest * Pow2(62 - L) < lost then whole - 1 else whole
      else if whole == 8 then norm == 8
      else norm == if rest * Pow2(62 - L) > lost + BOUNDS[whole] * (Pow2(42 - L) * total) then whole + 1 else whole
  }

  // ---------- the fixed-point step ----------

  lemma {:induction false} Regrouped(count: nat, total: nat, all: nat, whole: nat, w: nat, step: nat, e: nat, q: nat, r: nat)
    requires all == whole * w && all == step * total + e && count * whole == q * total + r
    ensures (count * step) * total == q * (w * total) + r * w - count * e
  {
    MulAssoc(count, step, total);
    Spread(count, step * total, e);
    MulAssoc(count, whole, w);
    Spread(w, q * total, r);
    MulAssoc(q, total, w);
    assert total * w == w * total && w * r == r * w && w * (q * total) == (q * total) * w && w * (q * total + r) == (q * total + r) * w;
  }

  lemma {:induction false} Spread(k: int, x: int, y: int)
    ensures k * (x + y) == k * x + k * y
  {
  }

  lemma {:induction false} DivIs(x: nat, d: nat)
    requires d > 0
    ensures x == (x / d) * d + x % d && 0 <= x % d < d
  {
  }

  /** The scaled count, times the total. */
  lemma {:induction false} ScaledExact(count: nat, total: nat, L: nat)
    requires total > 0 && L <= 62
    ensures N.Scaled(count, total) * total
      == (count * Pow2(L) / total) * (Pow2(62 - L) * total) + (count * Pow2(L) % total) * Pow2(62 - L) - count * (Pow2(62) % total)
  {
    hide Pow2;
    Pow2Add(L, 62 - L);
    DivIs(Pow2(62), total);
    DivIs(count * Pow2(L), total);
    Regrouped(count, total, Pow2(62), Pow2(L), Pow2(62 - L), Pow2(62) / total, Pow2(62) % total, count * Pow2(L) / total, count * Pow2(L) % total);
  }

  /** A quotient, and what is left of it. */
  lemma {:induction false} Quotient(s: int, total: nat, w: nat, q: int, x: int)
    requires total > 0 && s * total == q * (w * total) + x && 0 <= x < w * total
    ensures q * w <= s < q * w + w && (s - q * w) * total == x
  {
    MulAssoc(q, w, total);
    assert (s - q * w) * total == x;
    if s - q * w < 0 { MulMono(s - q * w, -1, total); }
    if s - q * w >= w { MulMono(w, s - q * w, total); }
  }

  /** What is lost is far less than a cell. */
  lemma {:induction false} LittleLost(count: nat, total: nat, e: nat, L: nat)
    requires count <= total < Pow2(32) && e < total && L <= 12
    ensures 16 * (count * e) <= Pow2(62 - L) * total
  {
    hide Pow2;
    MulMono(count, total, e);
    MulMono(e, Pow2(32), total);
    Pow2Mono(36, 62 - L);
    Pow2Add(4, 32);
    assert Pow2(4) == 16 by { Sixteen(); }
    MulMono(16 * Pow2(32), Pow2(62 - L), total);
  }

  lemma {:induction false} Sixteen()
    ensures Pow2(4) == 16
  {
  }

  lemma {:induction false} Million()
    ensures Pow2(20) == 1048576
  {
    assert Pow2(10) == 1024;
    hide Pow2;
    Pow2Add(10, 10);
  }

  lemma {:induction false} ShrIs(s: nat, q: nat, n: nat)
    requires q * Pow2(n) <= s < q * Pow2(n) + Pow2(n)
    ensures Shr(s, n) == q
  {
    hide Pow2, Shl, Shr;
    ShlMul(q, n);
    ShrUnique(s - q * Pow2(n), q, n);
  }

  lemma {:induction false} Beats(rest: int, x: int, b: nat, u: nat, total: nat)
    requires total > 0 && rest * total == x
    ensures rest > b * u <==> x > b * (u * total)
  {
    MulAssoc(b, u, total);
    if rest > b * u { MulMono(b * u + 1, rest, total); OneMoreTimes(b * u, total); } else { MulMono(rest, b * u, total); }
  }

  lemma {:induction false} CellsOf(s: nat, total: nat, w: nat, whole: nat, rest: nat, lost: nat) returns (p: nat, x: nat)
    requires total > 0 && w > 0 && rest < total && 16 * lost <= w * total && s * total == whole * (w * total) + rest * w - lost
    ensures p * w <= s < p * w + w && (s - p * w) * total == x
    ensures if rest * w < lost then p == whole - 1 && 16 * x >= 15 * (w * total) else p == whole && x == rest * w - lost
  {
    MulMono(rest + 1, total, w);
    OneMoreTimes(rest, w);
    assert total * w == w * total;
    NotNegative(s, total);
    NotNegative(rest, w);
    if rest * w < lost {
      if whole == 0 { assert false; }
      p, x := whole - 1, w * total + rest * w - lost;
      OneMoreTimes(whole - 1, w * total);
    } else {
      p, x := whole, rest * w - lost;
    }
    Quotient(s, total, w, p, x);
  }

  /** The scaled count has the whole cells of the exact share, or one fewer when the rest is eaten
      up. */
  lemma {:induction false} WholeCells(count: nat, total: nat, L: nat) returns (p: nat, x: nat)
    requires 0 < count <= total < Pow2(32) && 5 <= L <= 12
    ensures p == Shr(N.Scaled(count, total), 62 - L) && p * Pow2(62 - L) <= N.Scaled(count, total)
    ensures (N.Scaled(count, total) - p * Pow2(62 - L)) * total == x
    ensures var whole, rest := count * Pow2(L) / total, count * Pow2(L) % total; var lost := count * (Pow2(62) % total);
      if rest * Pow2(62 - L) < lost then p == whole - 1 && 16 * x >= 15 * (Pow2(62 - L) * total)
      else p == whole && x == rest * Pow2(62 - L) - lost
  {
    hide Pow2, Shr, N.Scaled;
    var w, s := Pow2(62 - L), N.Scaled(count, total);
    var whole, rest, lost := count * Pow2(L) / total, count * Pow2(L) % total, count * (Pow2(62) % total);
    DivIs(Pow2(62), total);
    DivIs(count * Pow2(L), total);
    ScaledExact(count, total, L);
    LittleLost(count, total, Pow2(62) % total, L);
    PowPositive(62 - L);
    p, x := CellsOf(s, total, w, whole, rest, lost);
    ShrIs(s, p, 62 - L);
  }

  lemma {:induction false} PowPositive(n: nat)
    ensures Pow2(n) > 0
  {
  }

  lemma {:induction false} NotNegative(s: nat, total: nat)
    ensures s * total >= 0
  {
  }

  /** The scaled count, rounded, is the share. */
  lemma {:induction false} ProbaIsShare(count: nat, total: nat, L: nat)
    requires 0 < count <= total < Pow2(32) && 5 <= L <= 12 && count * Pow2(L) > total
    ensures IsShare(N.Proba(count, total, L), count, total, L)
  {
    hide Pow2, Shr, Shl, N.Scaled;
    var w, u, s := Pow2(62 - L), Pow2(42 - L), N.Scaled(count, total);
    var p, x := WholeCells(count, total, L);
    ShlMul(p, 62 - L);
    if p < 8 {
      var b := N.RestToBeat(p);
      ShlMul(b, 42 - L);
      assert b == BOUNDS[p];
      Beats(s - p * w, x, b, u, total);
      Million();
      Pow2Add(20, 42 - L);
      MulAssoc(1048576, u, total);
      assert u * total >= 0;
      Beaten(b, u * total, x);
    }
  }

  lemma {:induction false} Beaten(b: nat, t: nat, x: nat)
    requires b <= 830000
    ensures 16 * x >= 15 * (1048576 * t) && t > 0 ==> x > b * t
  {
    MulMono(b, 830000, t);
  }

  /** And there is only one share. */
  lemma {:induction false} ShareIsProba(norm: int, count: nat, total: nat, L: nat)
    requires 0 < count <= total < Pow2(32) && 5 <= L <= 12 && count * Pow2(L) > total && IsShare(norm, count, total, L)
    ensures norm == N.Proba(count, total, L)
  {
    hide Pow2, N.Proba;
    ProbaIsShare(count, total, L);
  }

  // ---------- what that means ----------

  /** More is given than deserved only by rounding up a share below eight cells, and then by less
      than a cell. What a symbol lacks is at most a cell, too, unless the loss of the step takes a
      whole cell from a share that exceeds it by very little. */
  lemma {:induction false} WithinOneCell(norm: int, count: nat, total: nat, L: nat)
    requires total > 0 && L <= 42 && count * Pow2(L) > total && IsShare(norm, count, total, L)
    ensures norm >= 1 && norm * total < count * Pow2(L) + total && (norm * total > count * Pow2(L) ==> norm <= 8)
    ensures var whole, rest := count * Pow2(L) / total, count * Pow2(L) % total;
      norm * total + total >= count * Pow2(L) <==> !(whole > 8 && 0 < rest && rest * Pow2(62 - L) < count * (Pow2(62) % total))
  {
    hide Pow2;
    var whole, rest, lost := count * Pow2(L) / total, count * Pow2(L) % total, count * (Pow2(62) % total);
    DivIs(count * Pow2(L), total);
    NotNegative(Pow2(42 - L), total);
    DivIs(Pow2(62), total);
    NotNegative(count, Pow2(62) % total);
    if whole == 0 { assert false; }
    if whole <= 8 { NotNegative(BOUNDS[if whole < 8 then whole else 0], Pow2(42 - L) * total); }
    OneMoreTimes(whole, total);
    OneMoreTimes(whole - 1, total);
    if norm == whole + 1 && rest == 0 { assert rest * Pow2(62 - L) == 0; }
  }

  /** Totals up to 2^25 leave nobody more than a cell short. */
  lemma {:induction false} NobodyShort(norm: int, count: nat, total: nat, L: nat)
    requires 0 < count <= total <= 0x200_0000 && 5 <= L <= 12 && count * Pow2(L) > total && IsShare(norm, count, total, L)
    ensures norm * total + total >= count * Pow2(L)
  {
    hide Pow2;
    var rest, e := count * Pow2(L) % total, Pow2(62) % total;
    DivIs(Pow2(62), total);
    WithinOneCell(norm, count, total, L);
    MulMono(count, 0x200_0000, e);
    Million();
    Pow2Add(20, 30);
    Pow2Add(20, 10);
    assert Pow2(10) == 1024 by { Thousand(); }
    Pow2Mono(50, 62 - L);
    if rest > 0 { MulMono(1, rest, Pow2(62 - L)); }
  }

  lemma {:induction false} Thousand()
    ensures Pow2(10) == 1024
  {
  }

  /** Above that somebody may be: here one symbol is just above 2047 cells and gets 2046. */
  lemma {:induction false} SomebodyShort(norm: int)
    requires IsShare(norm, 23969347, 47962113, 12)
    ensures norm == 2046 && norm * 47962113 + 47962113 < 23969347 * Pow2(12)
  {
    Thousand();
    Million();
    hide Pow2;
    Pow2Add(10, 2);
    assert Pow2(2) == 4 by { Four(); }
    Pow2Add(20, 20);
    Pow2Add(40, 10);
    Pow2Add(50, 12);
  }

  lemma {:induction false} Four()
    ensures Pow2(2) == 4
  {
  }

  /** Whoever occurs more often gets no less. */
  lemma {:induction false} SharesRise(n1: int, c1: nat, n2: int, c2: nat, total: nat, L: nat)
    requires 0 < c1 <= c2 <= total < Pow2(32) && 5 <= L <= 12
    requires IsShare(n1, c1, total, L) && IsShare(n2, c2, total, L)
    ensures Weight(n1) <= Weight(n2)
  {
    hide Pow2, Shr, N.Scaled;
    MulMono(c1, c2, Pow2(L));
    if c1 * Pow2(L) > total {
      ShareIsProba(n1, c1, total, L);
      ShareIsProba(n2, c2, total, L);
      ScaledRises(c1, c2, total);
      N.ShrMono(N.Scaled(c1, total), N.Scaled(c2, total), 62 - L);
      N.ProbaRange(c1, total, L);
      N.ProbaRange(c2, total, L);
    } else if c2 * Pow2(L) > total {
      ShareIsProba(n2, c2, total, L);
      N.ProbaRange(c2, total, L);
    }
  }

  lemma {:induction false} ScaledRises(c1: nat, c2: nat, total: nat)
    requires c1 <= c2 && total > 0
    ensures N.Scaled(c1, total) <= N.Scaled(c2, total)
  {
    hide Pow2;
    MulMono(c1, c2, Pow2(62) / total);
  }

  // ---------- the primary path ----------

  ghost predicate AreShares(p: seq<int>, count: seq<nat>, L: nat)
    requires Sum(count) > 0 && L <= 42
  {
    |p| == |count| && forall s :: 0 <= s < |p| ==> IsShare(p[s], count[s], Sum(count), L)
  }

  /** The threshold of the code, as a share. */
  lemma {:induction false} LowIsOneCell(count: nat, total: nat, L: nat)
    ensures count <= Shr(total, L) <==> count * Pow2(L) <= total
  {
    hide Pow2, Shr, Mask;
    MaskShr(total, L);
    ShlMul(Shr(total, L), L);
    if count <= Shr(total, L) {
      MulMono(count, Shr(total, L), Pow2(L));
    } else {
      MulMono(Shr(total, L) + 1, count, Pow2(L));
      OneMoreTimes(Shr(total, L), Pow2(L));
    }
  }

  lemma {:induction false} PrimaryAreShares(p: seq<int>, count: seq<nat>, L: nat)
    requires 0 < Sum(count) < Pow2(32) && 5 <= L <= 12
    ensures p == N.Primary(count, L) <==> AreShares(p, count, L)
  {
    hide Pow2, Shr, N.Proba, Sum;
    var total := Sum(count);
    forall s | 0 <= s < |count|
      ensures IsShare(N.Primary(count, L)[s], count[s], total, L)
      ensures forall n :: IsShare(n, count[s], total, L) ==> n == N.Primary(count, L)[s]
    {
      SumPrefix(count, s);
      LowIsOneCell(count[s], total, L);
      if count[s] * Pow2(L) > total {
        ProbaIsShare(count[s], total, L);
        forall n | IsShare(n, count[s], total, L) ensures n == N.Primary(count, L)[s] { ShareIsProba(n, count[s], total, L); }
      }
    }
  }

  /** Every symbol has its share, but for the first of the largest: it takes what is left, or
      bears what was given too much. If that is half of what it has or more, the fallback is used. */
  ghost predicate InShares(norm: seq<int>, count: seq<nat>, L: nat)
    requires Sum(count) > 0 && L <= 42
  {
    exists p: seq<int>, i: nat :: AreShares(p, count, L) && N.IsPeak(p, i)
      && if N.Shares(p) - Pow2(L) < p[i] / 2 then norm == p[i := p[i] + Pow2(L) - N.Shares(p)] else N.IsFallback(norm, count, L)
  }

  lemma {:induction false} CorrectedInShares(norm: seq<int>, count: seq<nat>, L: nat)
    requires 0 < Sum(count) < Pow2(32) && 5 <= L <= 12
    ensures N.Corrected(norm, count, L) <==> InShares(norm, count, L)
  {
    hide Pow2, Sum, N.Shares, N.Primary, AreShares, N.IsPeak, N.IsFallback;
    var q := N.Primary(count, L);
    PrimaryAreShares(q, count, L);
    forall p | AreShares(p, count, L) ensures p == q { PrimaryAreShares(p, count, L); }
  }
}
