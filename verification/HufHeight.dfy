/** The depth limit of the Huffman coder (`HUF_setMaxHeight`): codes that are too long are
    cut, and the debt is repaid by lengthening others until the code is complete again. The
    debt is kept in 32 bits, so it is lost in part when the codes are very long. */
module HufHeight {
  import opened Bits

  const TABLELOG_MAX := 12
  const NO_SYMBOL := 0xF0F0F0F0

  // ---------- the Kraft sum ----------

  ghost predicate AtMost(b: seq<nat>, top: nat) { forall i :: 0 <= i < |b| ==> b[i] <= top }

  /** The Kraft sum of code lengths, in units of `2^-top`. */
  ghost function Kraft(b: seq<nat>, top: nat): nat
    requires AtMost(b, top)
  {
    if b == [] then 0 else Kraft(b[..|b| - 1], top) + Pow2(top - b[|b| - 1])
  }

  ghost predicate Complete(b: seq<nat>, top: nat) { AtMost(b, top) && Kraft(b, top) == Pow2(top) }

  lemma {:induction false} KraftUpdate(b: seq<nat>, top: nat, i: nat, v: nat)
    requires AtMost(b, top) && i < |b| && v <= top
    ensures AtMost(b[i := v], top) && Kraft(b[i := v], top) == Kraft(b, top) - Pow2(top - b[i]) + Pow2(top - v)
  {
    hide Pow2;
    var n := |b| - 1;
    if i < n {
      KraftUpdate(b[..n], top, i, v);
      assert b[i := v][..n] == b[..n][i := v];
    } else {
      assert b[i := v][..n] == b[..n];
    }
  }

  lemma {:induction false} KraftScale(b: seq<nat>, top: nat, k: nat)
    requires AtMost(b, top)
    ensures AtMost(b, top + k) && Kraft(b, top + k) == Pow2(k) * Kraft(b, top)
  {
    hide Pow2;
    if b != [] {
      var n := |b| - 1;
      KraftScale(b[..n], top, k);
      Pow2Add(k, top - b[n]);
      Distribute(Pow2(k), Kraft(b[..n], top), Pow2(top - b[n]));
    }
  }

  lemma {:induction false} Distribute(k: int, x: int, y: int)
    ensures k * (x + y) == k * x + k * y
  {
  }

  /** When every symbol before `m` has at least `r` bits to spare and the rest have none,
      the sum is the number of the rest plus a multiple of `2^r`. */
  lemma {:induction false} KraftSplit(b: seq<nat>, top: nat, m: nat, r: nat) returns (x: nat)
    requires AtMost(b, top) && m <= |b|
    requires forall i :: 0 <= i < m ==> b[i] + r <= top
    requires forall i :: m <= i < |b| ==> b[i] == top
    ensures Kraft(b, top) == (|b| - m) + Pow2(r) * x
  {
    x := 0;
    if b != [] {
      var n := |b| - 1;
      if m == |b| {
        x := KraftSplit(b[..n], top, n, r);
        var y := top - b[n] - r;
        Pow2Add(r, y);
        Distribute(Pow2(r), x, Pow2(y));
        x := x + Pow2(y);
      } else {
        x := KraftSplit(b[..n], top, m, r);
        assert Pow2(0) == 1;
      }
    }
  }

  // ---------- cutting the long codes ----------

  ghost predicate Sorted(b: seq<nat>) { forall i, j :: 0 <= i < j < |b| ==> b[i] <= b[j] }

  /** The code has lengths up to `max`, exactly the symbols from `m` on have that length,
      and the Kraft sum exceeds one by `cost` units. */
  ghost predicate InDebt(b: seq<nat>, max: nat, m: nat, cost: int) {
    && Sorted(b) && AtMost(b, max) && m <= |b|
    && (forall i :: 0 <= i < m ==> 1 <= b[i] < max) && (forall i :: m <= i < |b| ==> b[i] == max)
    && Kraft(b, max) == Pow2(max) + cost
  }

  /** The first loop. `b0` are the lengths before it. */
  ghost predicate Cutting(b0: seq<nat>, b: seq<nat>, max: nat, largest: nat, n: int, cost: int) {
    && max <= largest && |b| == |b0| && -1 <= n < |b| && AtMost(b, largest)
    && (forall i :: 0 <= i <= n ==> b[i] == b0[i])
    && (forall i :: n < i < |b| ==> b0[i] > max && b[i] == max)
    && Kraft(b, largest) == Pow2(largest) + cost
    && 0 <= cost && (n < |b| - 1 ==> 1 <= cost) && cost <= (|b| - 1 - n) * (Pow2(largest - max) - 1)
  }

  lemma {:induction false} CutOne(b0: seq<nat>, b: seq<nat>, max: nat, largest: nat, n: nat, cost: int)
    requires max < largest && Cutting(b0, b, max, largest, n, cost) && b[n] > max
    ensures Cutting(b0, b[n := max], max, largest, n - 1, cost + Pow2(largest - max) - Pow2(largest - b[n]))
  {
    KraftUpdate(b, largest, n, max);
    Pow2Mono(largest - b[n], largest - max - 1);
    assert Pow2(largest - max) == 2 * Pow2(largest - max - 1);
    var base := Pow2(largest - max);
    OneMoreTimes(|b| - 1 - n, base - 1);
  }

  /** Not every symbol is too long: there are too few of them for that. */
  lemma {:induction false} SomeShort(b: seq<nat>, max: nat, largest: nat)
    requires max <= largest && Complete(b, largest) && 1 <= |b| <= Pow2(max)
    ensures exists i :: 0 <= i < |b| && b[i] <= max
  {
    hide Pow2, Kraft;
    if forall i :: 0 <= i < |b| ==> b[i] > max {
      AllLong(b, max, largest);
      Pow2Add(max, largest - max);
      MulMono(|b|, Pow2(max), Pow2(largest - max));
      assert false;
    }
  }

  lemma {:induction false} AllLong(b: seq<nat>, max: nat, largest: nat)
    requires max <= largest && AtMost(b, largest) && forall i :: 0 <= i < |b| ==> b[i] > max
    ensures Kraft(b, largest) <= |b| * Pow2(largest - max)
    ensures |b| >= 1 ==> Kraft(b, largest) < |b| * Pow2(largest - max)
  {
    if b != [] {
      var n := |b| - 1;
      AllLong(b[..n], max, largest);
      Pow2Mono(largest - b[n], largest - max - 1);
      assert Pow2(largest - max) == 2 * Pow2(largest - max - 1);
      OneMoreTimes(n, Pow2(largest - max));
    }
  }

  /** Once every length is at most `max`, the cost is a whole number of units of `2^-max`,
      and smaller than the number of symbols that were cut. */
  lemma {:induction false} Renormalize(b0: seq<nat>, b: seq<nat>, max: nat, largest: nat, n: int, cost: int)
    requires max < largest && Cutting(b0, b, max, largest, n, cost) && AtMost(b, max) && n < |b| - 1
    ensures var c := Kraft(b, max) - Pow2(max); cost == Pow2(largest - max) * c && 1 <= c < |b| - 1 - n
  {
    hide Pow2, Kraft;
    var c := Kraft(b, max) - Pow2(max);
    var base := Pow2(largest - max);
    KraftScale(b, max, largest - max);
    Pow2Add(largest - max, max);
    Distribute(base, Pow2(max), c);
    Quotient(base, c, |b| - 1 - n, cost);
  }

  lemma {:induction false} Quotient(base: nat, c: int, k: nat, cost: int)
    requires base >= 1 && cost == base * c && 1 <= cost <= k * (base - 1)
    ensures 1 <= c < k
  {
    assert k * (base - 1) == k * base - k;
    if c <= 0 { MulMono(c, 0, base); }
    if c >= k { MulMono(k, c, base); }
  }

  lemma {:induction false} ShrExact(x: nat, k: nat)
    ensures Shr(Pow2(k) * x, k) == x
  {
    ShlMul(x, k);
    assert Pow2(k) * x == x * Pow2(k);
    ShrUnique(0, x, k);
  }

  // ---------- the debt in 32 bits ----------

  /** What an `int` holds of a sum: two's complement of 32 bits. */
  function Wrap32(x: int): (r: int)
    ensures -0x8000_0000 <= r < 0x8000_0000
  {
    var m := x % 0x1_0000_0000;
    if m < 0x8000_0000 then m else m - 0x1_0000_0000
  }

  /** `>>` of an `int`. */
  function ShrSigned(x: int, k: nat): int {
    if x >= 0 then Shr(x, k) else -1 - Shr(-1 - x, k)
  }

  lemma {:induction false} WrapSum(x: int, y: int)
    ensures Wrap32(Wrap32(x) + y) == Wrap32(x + y)
  {
  }

  lemma {:induction false} ShrSignedExact(w: int, k: nat)
    ensures ShrSigned(Pow2(k) * w, k) == w
  {
    hide Shr, Pow2;
    if w >= 0 {
      MulMono(0, w, Pow2(k));
      ShrExact(w, k);
    } else {
      ShlMul(-w - 1, k);
      assert -1 - Pow2(k) * w == (Pow2(k) - 1) + (-w - 1) * Pow2(k) by { OneMoreTimes(-w - 1, Pow2(k)); }
      MulMono(1, -w, Pow2(k));
      ShrUnique(Pow2(k) - 1, -w - 1, k);
    }
  }

  lemma {:induction false} PowSplit32(k: nat)
    requires k <= 31
    ensures Pow2(k) * Pow2(32 - k) == 0x1_0000_0000 && Pow2(k) <= 0x8000_0000
  {
    hide Pow2;
    Pow2Add(k, 32 - k);
    assert Pow2(32) == 0x1_0000_0000 by { PowWord(); }
    Pow2Mono(k, 31);
    assert Pow2(31) == 0x8000_0000 by { PowWord(); }
  }

  lemma {:induction false} PowWord()
    ensures Pow2(31) == 0x8000_0000 && Pow2(32) == 0x1_0000_0000
  {
    assert Pow2(8) == 256;
    Pow2Add(8, 8);
    Pow2Add(16, 8);
    Pow2Add(24, 7);
    assert Pow2(7) == 128;
    assert Pow2(32) == 2 * Pow2(31);
  }

  /** What is left of a debt of `c` units: all of it when it fits, and otherwise less, by whole
      turns of the register. */
  lemma {:induction false} DebtLeft(c: nat, k: nat) returns (w: int)
    requires k <= 31
    ensures Wrap32(Pow2(k) * c) == Pow2(k) * w && w <= c && -w <= c
    ensures w == c <==> Pow2(k) * c < 0x8000_0000
  {
    hide Pow2, Wrap32;
    var x := Pow2(k) * c;
    PowSplit32(k);
    var turns := WrapTurns(x);
    w := c - turns * Pow2(32 - k);
    TurnsOf(Pow2(k), Pow2(32 - k), c, turns);
    if turns == 0 {
      assert w == c;
    } else {
      MulMono(1, turns, Pow2(32 - k));
      FarBelow(Pow2(k), w, c);
    }
  }

  lemma {:induction false} WrapTurns(x: nat) returns (turns: nat)
    ensures Wrap32(x) == x - turns * 0x1_0000_0000 && (turns == 0 <==> x < 0x8000_0000)
  {
    turns := x / 0x1_0000_0000;
    if x % 0x1_0000_0000 >= 0x8000_0000 { turns := turns + 1; }
  }

  lemma {:induction false} FarBelow(p: nat, w: int, c: int)
    requires p >= 1 && -0x8000_0000 <= p * w && 0x8000_0000 <= p * c
    ensures -w <= c
  {
    assert p * w == -(-w * p);
    OneMoreTimes(c, p);
    if -w > c { MulMono(c + 1, -w, p); }
  }

  lemma {:induction false} TurnsOf(p: int, q: int, c: int, turns: int)
    requires p * q == 0x1_0000_0000
    ensures p * (c - turns * q) == p * c - turns * 0x1_0000_0000
  {
    assert p * (turns * q) == turns * (p * q);
    assert p * (c - turns * q) == p * c - p * (turns * q);
  }

  /** What cutting every code to `max` adds to the Kraft sum, in units of `2^-top`. */
  ghost function Excess(b: seq<nat>, max: nat, top: nat): int
    requires AtMost(b, top) && max <= top
  {
    if b == [] then 0
    else Excess(b[..|b| - 1], max, top) + if b[|b| - 1] > max then Pow2(top - max) - Pow2(top - b[|b| - 1]) else 0
  }

  /** The debt of the cut code, in units of the longest code, is a 32-bit number. */
  ghost predicate Fits(b: seq<nat>, max: nat)
    requires b != [] && AtMost(b, b[|b| - 1])
  {
    b[|b| - 1] <= max || Excess(b, max, b[|b| - 1]) < 0x8000_0000
  }

  /** As much of the debt as a 32-bit number remembers, in units of `2^-max`. */
  ghost function Remembered(b: seq<nat>, max: nat): int
    requires b != [] && AtMost(b, b[|b| - 1]) && b[|b| - 1] > max
  {
    ShrSigned(Wrap32(Excess(b, max, b[|b| - 1])), b[|b| - 1] - max)
  }

  ghost function Clipped(b: seq<nat>, max: nat): (r: seq<nat>)
    ensures |r| == |b| && forall i :: 0 <= i < |b| ==> r[i] == if b[i] > max then max else b[i]
  {
    seq(|b|, i requires 0 <= i < |b| => if b[i] > max then max else b[i])
  }

  lemma {:induction false} CutSum(b0: seq<nat>, b: seq<nat>, max: nat, top: nat)
    requires AtMost(b0, top) && max <= top && |b| == |b0|
    requires forall i :: 0 <= i < |b| ==> b[i] == if b0[i] > max then max else b0[i]
    ensures AtMost(b, top) && Kraft(b, top) == Kraft(b0, top) + Excess(b0, max, top)
  {
    hide Pow2;
    if b != [] { CutSum(b0[..|b| - 1], b[..|b| - 1], max, top); }
  }

  lemma {:induction false} ExcessBound(b: seq<nat>, max: nat, top: nat)
    requires AtMost(b, top) && max <= top
    ensures Excess(b, max, top) <= |b| * (Pow2(top - max) - 1)
  {
    if b != [] {
      ExcessBound(b[..|b| - 1], max, top);
      OneMoreTimes(|b| - 1, Pow2(top - max) - 1);
    }
  }

  /** A code of at most 31 bits never owes more than the register holds. */
  lemma {:induction false} ShallowFits(b: seq<nat>, max: nat)
    requires 1 <= |b| <= Pow2(max) && AtMost(b, b[|b| - 1]) && b[|b| - 1] <= 31
    ensures Fits(b, max)
  {
    hide Pow2, Excess;
    var top := b[|b| - 1];
    if max < top {
      ExcessBound(b, max, top);
      Pow2Add(max, top - max);
      MulMono(|b|, Pow2(max), Pow2(top - max));
      assert |b| * (Pow2(top - max) - 1) == |b| * Pow2(top - max) - |b|;
      Pow2Mono(top, 31);
      PowWord();
    }
  }

  /** The debt after cutting, and what the register makes of it. */
  lemma {:induction false} DebtOfCut(b0: seq<nat>, b: seq<nat>, max: nat, largest: nat, n: int, cost: nat, kept: int) returns (w: int)
    requires max < largest <= max + 31 && Cutting(b0, b, max, largest, n, cost) && Sorted(b0) && Complete(b0, largest) && b0[|b0| - 1] == largest
    requires 0 <= n < |b| - 1 && b[n] <= max && kept == Wrap32(cost)
    ensures AtMost(b, max) && b == Clipped(b0, max) && AtMost(b0, largest) && w == Remembered(b0, max)
    ensures var c := Kraft(b, max) - Pow2(max); 1 <= c < |b| - 1 - n && w <= c && -w <= c && (w == c <==> Fits(b0, max))
    ensures ShrSigned(kept, largest - max) == w
  {
    hide Kraft, Pow2, Sorted, Excess, ShrSigned, Wrap32, Cutting;
    CutFacts(b0, b, max, largest, n, cost);
    CutShape(b0, b, max, largest, n, cost);
    Renormalize(b0, b, max, largest, n, cost);
    var c := Kraft(b, max) - Pow2(max);
    w := DebtLeft(c, largest - max);
    ShrSignedExact(w, largest - max);
    CutSum(b0, b, max, largest);
  }

  lemma {:induction false} CutShape(b0: seq<nat>, b: seq<nat>, max: nat, largest: nat, n: int, cost: int)
    requires Cutting(b0, b, max, largest, n, cost) && Sorted(b0) && 0 <= n && b[n] <= max
    ensures |b| == |b0| && forall i :: 0 <= i < |b| ==> b[i] == if b0[i] > max then max else b0[i]
    ensures Kraft(b, largest) == Pow2(largest) + cost
  {
    hide Kraft, Pow2;
    forall i | 0 <= i < n ensures b0[i] <= max { assert b0[i] <= b0[n]; }
  }

  /** Cuts the codes longer than `max`. `totalCost` is the debt as far as it is remembered,
      `cost` what it really is. */
  method CutLong(bits: array<nat>, last: nat, max: nat) returns (k: nat, totalCost: int, ghost cost: nat)
    requires last + 1 == bits.Length <= Pow2(max) && Sorted(bits[..]) && Complete(bits[..], bits[last])
    requires max < bits[last] <= max + 31
    modifies bits
    ensures k < last && 1 <= cost < last - k && totalCost <= cost && -totalCost <= cost
    ensures totalCost == cost <==> Fits(old(bits[..]), max)
    ensures totalCost == Remembered(old(bits[..]), max) && bits[..] == Clipped(old(bits[..]), max)
    ensures Sorted(bits[..]) && AtMost(bits[..], max) && Kraft(bits[..], max) == Pow2(max) + cost
    ensures forall i :: 0 <= i <= k ==> bits[i] == old(bits[i])
    ensures forall i :: k < i <= last ==> bits[i] == max
  {
    hide Kraft, Pow2, Cutting, Sorted, AtMost, Shr, Wrap32, ShrSigned, Excess, Fits;
    ghost var b0 := bits[..];
    var largest := bits[last];
    totalCost := 0;
    var baseCost := Pow2(largest - max);
    var n: nat := last;
    cost := 0;
    CutStart(b0, max, largest);
    SomeShort(b0, max, largest);
    assert totalCost == Wrap32(0) by { WrapZero(); }
    while bits[n] > max
      invariant n <= last && Cutting(b0, bits[..], max, largest, n, cost) && totalCost == Wrap32(cost)
      decreases n
    {
      ghost var b := bits[..];
      CutCost(b0, b, max, largest, n, cost);
      CutOne(b0, b, max, largest, n, cost);
      ghost var added := baseCost - Pow2(largest - bits[n]);
      WrapSum(cost, added);
      totalCost := Wrap32(totalCost + (baseCost - Pow2(largest - bits[n])));
      bits[n] := max;
      assert bits[..] == b[n := max];
      CutStays(b0, bits[..], max, largest, n - 1, cost + added);
      cost := cost + added;
      n := n - 1;
    }
    CutFacts(b0, bits[..], max, largest, n, cost);
    CutBelow(b0, bits[..], max, largest, n, cost);
    ghost var w := DebtOfCut(b0, bits[..], max, largest, n, cost, totalCost);
    cost := Kraft(bits[..], max) - Pow2(max);
    k, totalCost := n, ShrSigned(totalCost, largest - max);
  }

  lemma {:induction false} WrapZero()
    ensures Wrap32(0) == 0
  {
  }

  /** The longest code was cut. */
  lemma {:induction false} CutBelow(b0: seq<nat>, b: seq<nat>, max: nat, largest: nat, n: int, cost: int)
    requires Cutting(b0, b, max, largest, n, cost) && b0 != [] && b0[|b0| - 1] == largest > max && 0 <= n && b[n] <= max
    ensures n < |b| - 1
  {
  }

  lemma {:induction false} CutCost(b0: seq<nat>, b: seq<nat>, max: nat, largest: nat, n: int, cost: int)
    requires Cutting(b0, b, max, largest, n, cost)
    ensures cost >= 0 && (0 <= n < |b| ==> b[n] <= largest)
  {
  }

  /** The loop stops before the first symbol. */
  lemma {:induction false} CutStays(b0: seq<nat>, b: seq<nat>, max: nat, largest: nat, n: int, cost: int)
    requires Cutting(b0, b, max, largest, n, cost) && exists i :: 0 <= i < |b0| && b0[i] <= max
    ensures n >= 0 && cost >= 0
  {
  }

  /** Goes down to the last symbol with a shorter code. */
  method SkipMax(bits: array<nat>, start: nat, max: nat, ghost cost: int) returns (n: nat)
    requires start < bits.Length <= Pow2(max) && Sorted(bits[..]) && AtMost(bits[..], max)
    requires Kraft(bits[..], max) == Pow2(max) + cost && cost >= 1
    requires forall i :: start < i < bits.Length ==> bits[i] == max
    ensures n <= start && bits[n] < max && forall i :: n < i < bits.Length ==> bits[i] == max
  {
    hide Kraft, Pow2;
    n := start;
    NotAllAtMax(bits[..], max, cost);
    ghost var w :| 0 <= w < bits.Length && bits[w] != max;
    while bits[n] == max
      invariant w <= n <= start && forall i :: n < i < bits.Length ==> bits[i] == max
      decreases n
    {
      n := n - 1;
    }
  }

  lemma {:induction false} CutStart(b: seq<nat>, max: nat, largest: nat)
    requires Complete(b, largest) && max < largest && |b| >= 1
    ensures Cutting(b, b, max, largest, |b| - 1, 0)
  {
  }

  /** What the first loop leaves behind. */
  lemma {:induction false} CutFacts(b0: seq<nat>, b: seq<nat>, max: nat, largest: nat, n: int, cost: int)
    requires Cutting(b0, b, max, largest, n, cost) && Sorted(b0) && (n >= 0 ==> b[n] <= max)
    ensures Sorted(b) && AtMost(b, max) && |b| == |b0|
    ensures forall i :: 0 <= i <= n ==> b[i] == b0[i]
    ensures forall i :: n < i < |b| ==> b0[i] > max && b[i] == max
  {
    hide Kraft;
    forall i | 0 <= i < |b| ensures b[i] <= max {
      if i < n { assert b0[i] <= b0[n]; }
    }
    forall i, j | 0 <= i < j < |b| ensures b[i] <= b[j] {
      if j <= n { assert b0[i] <= b0[j]; }
    }
  }

  /** A code with a positive debt has a symbol shorter than `max`. */
  lemma {:induction false} NotAllAtMax(b: seq<nat>, max: nat, c: int)
    requires AtMost(b, max) && |b| <= Pow2(max) && Kraft(b, max) == Pow2(max) + c && c >= 1
    ensures exists i :: 0 <= i < |b| && b[i] != max
  {
    if forall i :: 0 <= i < |b| ==> b[i] == max {
      AllAtMaxSum(b, max);
      assert false;
    }
  }

  lemma {:induction false} AllAtMaxSum(b: seq<nat>, max: nat)
    requires AtMost(b, max) && forall i :: 0 <= i < |b| ==> b[i] == max
    ensures Kraft(b, max) == |b|
  {
    if b != [] { AllAtMaxSum(b[..|b| - 1], max); }
  }

  // ---------- repaying ----------

  ghost predicate InRange(rl: seq<int>, n: nat) {
    |rl| == TABLELOG_MAX + 2 && forall r :: 1 <= r < |rl| ==> rl[r] == NO_SYMBOL || 0 <= rl[r] < n
  }

  /** A symbol of rank `r` is not dearer than two of the next rank, which would pay as much. */
  ghost predicate Affordable(count: seq<nat>, rl: seq<int>, r: nat)
    requires InRange(rl, |count|) && 1 <= r < |rl|
  {
    rl[r] != NO_SYMBOL && (r == 1 || rl[r - 1] == NO_SYMBOL || count[rl[r]] <= 2 * count[rl[r - 1]])
  }

  /** A symbol of rank `r` pays for no more than is owed. */
  ghost predicate Within(r: nat, cost: nat) { r >= 1 && Pow2(r - 1) <= cost }

  /** The rank taken: the highest that is worth no more than the debt and not too dear; if all of
      them are empty, the lowest that is not. */
  ghost predicate IsPick(count: seq<nat>, rl: seq<int>, cost: nat, nb: nat) {
    && InRange(rl, |count|) && 1 <= nb <= TABLELOG_MAX && rl[nb] != NO_SYMBOL && 1 <= cost < Pow2(TABLELOG_MAX)
    && if Within(nb, cost) then
         Affordable(count, rl, nb) && forall r :: nb < r <= TABLELOG_MAX && Within(r, cost) ==> !Affordable(count, rl, r)
       else forall r :: 1 <= r < nb ==> rl[r] == NO_SYMBOL
  }

  /** Lengths, and what is still owed. */
  datatype Debt = Debt(bits: seq<nat>, cost: int)

  /** One repayment: the last symbol of the rank that is taken gets one bit more. */
  ghost predicate Repaid(a: Debt, b: Debt, count: seq<nat>, max: nat) {
    && a.cost >= 1
    && exists rl: seq<int>, nb: nat ::
      && IsPick(count, rl, a.cost, nb) && Ranked(a.bits, max, rl) && 0 <= rl[nb] < |a.bits|
      && b == Debt(a.bits[rl[nb] := a.bits[rl[nb]] + 1], a.cost - Pow2(nb - 1))
  }

  ghost predicate Repayments(run: seq<Debt>, count: seq<nat>, max: nat) {
    run != [] && forall i :: 0 < i < |run| ==> Repaid(run[i - 1], run[i], count, max)
  }

  /** An overshoot is given back by the first of the longest codes. */
  ghost predicate GivenBack(a: Debt, b: seq<nat>, max: nat) {
    && a.cost <= 0 && |b| == |a.bits|
    && exists m: nat :: LongFrom(a.bits, max, m) && m - a.cost <= |b|
                        && forall i :: 0 <= i < |b| ==> b[i] == if m <= i < m - a.cost then max - 1 else a.bits[i]
  }

  /** The codes of full length are those from `m` on. */
  ghost predicate LongFrom(b: seq<nat>, max: nat, m: nat) {
    m <= |b| && (forall i :: 0 <= i < m ==> b[i] < max) && forall i :: m <= i < |b| ==> b[i] == max
  }

  /** How the limit is met. */
  ghost predicate Limiting(run: seq<Debt>, b0: seq<nat>, b: seq<nat>, count: seq<nat>, max: nat)
    requires b0 != [] && AtMost(b0, b0[|b0| - 1]) && b0[|b0| - 1] > max
  {
    && Repayments(run, count, max) && run[0] == Debt(Clipped(b0, max), Remembered(b0, max))
    && GivenBack(run[|run| - 1], b, max)
  }

  /** Codes within the limit stay as they are; others are cut, and paid for in the cheapest steps. */
  ghost predicate Limited(b0: seq<nat>, b: seq<nat>, count: seq<nat>, max: nat)
    requires b0 != [] && AtMost(b0, b0[|b0| - 1])
  {
    if b0[|b0| - 1] <= max then b == b0 else exists run :: Limiting(run, b0, b, count, max)
  }

  /** `pos` is the last symbol whose length is `v`, or there is none. */
  ghost predicate IsLastOf(b: seq<nat>, v: int, pos: int) {
    if pos == NO_SYMBOL then forall i :: 0 <= i < |b| ==> b[i] != v
    else 0 <= pos < |b| && b[pos] == v && forall i :: pos < i < |b| ==> b[i] > v
  }

  /** `rankLast[r]` is the last symbol with `r` bits to spare. */
  ghost predicate Ranked(b: seq<nat>, max: nat, rankLast: seq<int>) {
    && |rankLast| == TABLELOG_MAX + 2
    && forall r :: 1 <= r < |rankLast| ==> IsLastOf(b, max - r, rankLast[r])
  }

  /** Finds the last symbol of each rank, going backwards over the shorter codes. */
  method RankSymbols(bits: array<nat>, n: nat, max: nat) returns (rankLast: array<int>)
    requires n < bits.Length < NO_SYMBOL && Sorted(bits[..]) && 1 <= max <= TABLELOG_MAX
    requires forall i :: 0 <= i < bits.Length ==> 1 <= bits[i]
    requires bits[n] < max && forall i :: n < i < bits.Length ==> bits[i] == max
    ensures fresh(rankLast) && Ranked(bits[..], max, rankLast[..])
  {
    hide IsLastOf;
    rankLast := new int[TABLELOG_MAX + 2](_ => NO_SYMBOL);
    ghost var b := bits[..];
    var currentNbBits := max;
    var pos: int := n;
    while pos >= 0
      invariant -1 <= pos <= n && 1 <= currentNbBits <= max
      invariant forall i :: pos < i < |b| ==> b[i] >= currentNbBits
      invariant forall r :: 1 <= r <= max - currentNbBits ==> IsLastOf(b, max - r, rankLast[r])
      invariant forall r :: 1 <= r < rankLast.Length && r > max - currentNbBits ==> rankLast[r] == NO_SYMBOL
    {
      if bits[pos] < currentNbBits {
        LastHere(b, pos, currentNbBits);
        currentNbBits := bits[pos];
        rankLast[max - currentNbBits] := pos;
      }
      pos := pos - 1;
    }
    BelowFirst(b, currentNbBits);
  }

  /** A symbol shorter than all after it is the last of its rank, and the ranks between are
      empty. */
  lemma {:induction false} LastHere(b: seq<nat>, pos: nat, c: nat)
    requires pos < |b| < NO_SYMBOL && Sorted(b) && b[pos] < c && forall i :: pos < i < |b| ==> b[i] >= c
    ensures IsLastOf(b, b[pos], pos)
    ensures forall v :: b[pos] < v < c ==> IsLastOf(b, v, NO_SYMBOL)
  {
    forall v | b[pos] < v < c ensures IsLastOf(b, v, NO_SYMBOL) {
      forall i | 0 <= i < |b| ensures b[i] != v {
        if i < pos { assert b[i] <= b[pos]; }
      }
    }
  }

  lemma {:induction false} BelowFirst(b: seq<nat>, c: nat)
    requires forall i :: 0 <= i < |b| ==> b[i] >= c
    ensures forall v :: v < c ==> IsLastOf(b, v, NO_SYMBOL)
  {
  }

  /** Which rank to take a symbol from. */
  method PickRank(rankLast: array<int>, count: array<nat>, totalCost: nat, ghost top: nat) returns (nb: nat)
    requires rankLast.Length == TABLELOG_MAX + 2 && 1 <= totalCost < Pow2(TABLELOG_MAX)
    requires forall r :: 1 <= r < rankLast.Length ==> rankLast[r] == NO_SYMBOL || 0 <= rankLast[r] < count.Length
    requires 1 <= top <= TABLELOG_MAX && rankLast[top] != NO_SYMBOL
    ensures 1 <= nb <= TABLELOG_MAX && rankLast[nb] != NO_SYMBOL
    ensures Pow2(nb - 1) <= totalCost || forall r :: 1 <= r < nb ==> rankLast[r] == NO_SYMBOL
    ensures IsPick(count[..], rankLast[..], totalCost, nb)
  {
    hide Pow2, Affordable;
    ghost var c, rl := count[..], rankLast[..];
    var h := HighBit(totalCost);
    if h >= TABLELOG_MAX { Pow2Mono(TABLELOG_MAX, h); }
    nb := h + 1;
    forall r | h + 1 < r <= TABLELOG_MAX ensures !Within(r, totalCost) { Pow2Mono(h + 1, r - 1); }
    while nb > 1
      invariant 1 <= nb <= TABLELOG_MAX && Pow2(nb - 1) <= totalCost
      invariant forall r :: nb < r <= TABLELOG_MAX && Within(r, totalCost) ==> !Affordable(c, rl, r)
    {
      var highPos, lowPos := rankLast[nb], rankLast[nb - 1];
      AffordableIs(c, rl, nb);
      if highPos != NO_SYMBOL {
        if lowPos == NO_SYMBOL { break; }
        var highTotal, lowTotal := count[highPos], 2 * count[lowPos];
        if highTotal <= lowTotal { break; }
      }
      Pow2Mono(nb - 2, nb - 1);
      nb := nb - 1;
    }
    if rankLast[nb] == NO_SYMBOL {
      EmptyBelow(c, rl, totalCost, TABLELOG_MAX);
    } else {
      AffordableIs(c, rl, nb);
    }
    ghost var first := nb;
    while nb <= TABLELOG_MAX && rankLast[nb] == NO_SYMBOL
      invariant 1 <= nb <= TABLELOG_MAX && first <= nb
      invariant first < nb ==> forall r :: 1 <= r <= TABLELOG_MAX && Within(r, totalCost) ==> rankLast[r] == NO_SYMBOL
      invariant Pow2(nb - 1) <= totalCost || forall r :: 1 <= r < nb ==> rankLast[r] == NO_SYMBOL
      invariant rankLast[nb] != NO_SYMBOL || forall r :: 1 <= r < nb ==> rankLast[r] == NO_SYMBOL
      decreases TABLELOG_MAX - nb
    {
      nb := nb + 1;
    }
  }

  lemma {:induction false} AffordableIs(count: seq<nat>, rl: seq<int>, r: nat)
    requires InRange(rl, |count|) && 1 <= r < |rl|
    ensures Affordable(count, rl, r) <==> rl[r] != NO_SYMBOL && (r == 1 || rl[r - 1] == NO_SYMBOL || count[rl[r]] <= 2 * count[rl[r - 1]])
  {
  }

  /** If no rank up to `top` will do and the first is empty, all of them are. */
  lemma {:induction false} EmptyBelow(count: seq<nat>, rl: seq<int>, cost: nat, top: nat)
    requires InRange(rl, |count|) && 1 <= top <= TABLELOG_MAX && rl[1] == NO_SYMBOL
    requires forall r :: 1 < r <= TABLELOG_MAX && Within(r, cost) ==> !Affordable(count, rl, r)
    ensures forall r :: 1 <= r <= top && Within(r, cost) ==> rl[r] == NO_SYMBOL
  {
    hide Pow2;
    if top > 1 {
      EmptyBelow(count, rl, cost, top - 1);
      AffordableIs(count, rl, top);
      Pow2Mono(top - 2, top - 1);
      assert Within(top, cost) ==> Within(top - 1, cost);
    }
  }

  /** What repaying keeps: while there is debt, more symbols have the full length than units
      are owed; after an overshoot, more than units are missing. `lost` units of the
      debt are forgotten and never repaid. */
  ghost predicate Solvent(b: seq<nat>, max: nat, m: nat, cost: int, lost: nat) {
    && InDebt(b, max, m, cost + lost) && |b| <= Pow2(max)
    && (cost > 0 ==> |b| - m > cost + lost)
    && (cost <= 0 ==> |b| - m > -cost) && (cost < 0 ==> m >= 1)
  }

  lemma {:induction false} LengthenSorted(b: seq<nat>, p: nat, v: nat)
    requires Sorted(b) && p < |b| && IsLastOf(b, v, p) && p != NO_SYMBOL
    ensures Sorted(b[p := v + 1])
  {
  }

  /** Lengthening the last symbol `p` of a rank: what becomes of that rank, of the next, and
      of the others. */
  lemma {:induction false} LengthenOwn(b: seq<nat>, p: nat, v: nat)
    requires Sorted(b) && p < |b| < NO_SYMBOL && IsLastOf(b, v, p)
    ensures IsLastOf(b[p := v + 1], v, if p == 0 || b[p - 1] != v then NO_SYMBOL else p - 1)
  {
    var c := b[p := v + 1];
    if p == 0 || b[p - 1] != v {
      forall i | 0 <= i < |c| ensures c[i] != v {
        if i < p { assert b[i] <= b[p - 1] <= b[p]; }
      }
    }
  }

  lemma {:induction false} LengthenNext(b: seq<nat>, p: nat, v: nat, q: int)
    requires Sorted(b) && p < |b| < NO_SYMBOL && IsLastOf(b, v, p) && IsLastOf(b, v + 1, q)
    ensures IsLastOf(b[p := v + 1], v + 1, if q == NO_SYMBOL then p else q)
  {
  }

  lemma {:induction false} LengthenOther(b: seq<nat>, p: nat, v: nat, w: int, q: int)
    requires p < |b| < NO_SYMBOL && IsLastOf(b, v, p) && IsLastOf(b, w, q) && w != v && w != v + 1
    ensures IsLastOf(b[p := v + 1], w, q)
  {
  }

  /** The table after a symbol of rank `nb` was lengthened. */
  ghost function NextRanks(rl: seq<int>, nb: nat, empty: bool): seq<int>
    requires 1 <= nb < |rl|
  {
    var lower := if rl[nb - 1] == NO_SYMBOL then rl[nb - 1 := rl[nb]] else rl;
    lower[nb := if empty then NO_SYMBOL else rl[nb] - 1]
  }

  lemma {:induction false} RanksKept(b: seq<nat>, max: nat, rl: seq<int>, nb: nat)
    requires Sorted(b) && |b| < NO_SYMBOL && Ranked(b, max, rl) && 1 <= nb <= TABLELOG_MAX && rl[nb] != NO_SYMBOL
    ensures 0 <= rl[nb] < |b| && b[rl[nb]] == max - nb
    ensures var p := rl[nb]; Ranked(b[p := b[p] + 1], max, NextRanks(rl, nb, p == 0 || b[p - 1] != max - nb))
  {
    assert IsLastOf(b, max - nb, rl[nb]);
    var p := rl[nb];
    var next := NextRanks(rl, nb, p == 0 || b[p - 1] != max - nb);
    forall r | 1 <= r < |next| ensures IsLastOf(b[p := b[p] + 1], max - r, next[r]) {
      RankKept(b, max, rl, nb, p, r);
    }
  }

  lemma {:induction false} RankKept(b: seq<nat>, max: nat, rl: seq<int>, nb: nat, p: nat, r: nat)
    requires Sorted(b) && |b| < NO_SYMBOL && Ranked(b, max, rl) && 1 <= nb <= TABLELOG_MAX && rl[nb] == p
    requires p < |b| && b[p] == max - nb && 1 <= r < |rl|
    ensures IsLastOf(b[p := b[p] + 1], max - r, NextRanks(rl, nb, p == 0 || b[p - 1] != max - nb)[r])
  {
    hide IsLastOf, Sorted;
    assert IsLastOf(b, max - nb, rl[nb]);
    assert IsLastOf(b, max - r, rl[r]);
    if r == nb {
      LengthenOwn(b, p, b[p]);
    } else if r == nb - 1 {
      LengthenNext(b, p, b[p], rl[r]);
    } else {
      LengthenOther(b, p, b[p], max - r, rl[r]);
    }
  }

  /** The debt after lengthening one symbol. */
  lemma {:induction false} DebtStep(b: seq<nat>, max: nat, m: nat, cost: int, nb: nat, p: nat)
    requires InDebt(b, max, m, cost) && 1 <= nb && p < |b| < NO_SYMBOL && IsLastOf(b, max - nb, p)
    ensures InDebt(b[p := b[p] + 1], max, if nb == 1 then p else m, cost - Pow2(nb - 1))
    ensures p < m && (nb == 1 ==> p == m - 1)
  {
    hide Kraft;
    var v := b[p];
    LengthenSorted(b, p, v);
    KraftUpdate(b, max, p, v + 1);
    assert Pow2(nb) == 2 * Pow2(nb - 1);
    assert p + 1 < |b| ==> b[p + 1] > b[p];
  }

  lemma {:induction false} RankTaken(b: seq<nat>, max: nat, rl: seq<int>, i: nat)
    requires Ranked(b, max, rl) && i < |b| && b[i] < max <= TABLELOG_MAX
    ensures rl[max - b[i]] != NO_SYMBOL
  {
    var r := max - b[i];
    assert IsLastOf(b, max - r, rl[r]);
  }

  /** If all lower ranks are empty, an overshoot leaves enough full-length symbols. */
  lemma {:induction false} OvershootCovered(b: seq<nat>, max: nat, m: nat, cost: nat, rl: seq<int>, nb: nat)
    requires InDebt(b, max, m, cost) && |b| - m > cost && Ranked(b, max, rl) && 1 <= nb < max <= TABLELOG_MAX
    requires forall r :: 1 <= r < nb ==> rl[r] == NO_SYMBOL
    ensures |b| - m >= cost + Pow2(nb)
  {
    hide Kraft;
    forall i | 0 <= i < m ensures b[i] + nb <= max { RankTaken(b, max, rl, i); }
    var x := KraftSplit(b, max, m, nb);
    Pow2Add(nb, max - nb);
    Multiple(Pow2(nb), x, Pow2(max - nb), |b| - m, cost);
  }

  lemma {:induction false} Multiple(q: nat, x: int, y: int, k: int, cost: int)
    requires q >= 1 && k + q * x == q * y + cost && k > cost
    ensures k >= cost + q
  {
    Distribute(q, x, y - x);
    if y - x <= 0 { MulMono(y - x, 0, q); } else { MulMono(1, y - x, q); }
    assert q * (y - x) == (y - x) * q;
  }

  /** There is a symbol to lengthen: "necessarily at least one". */
  lemma {:induction false} SomeRank(b: seq<nat>, max: nat, m: nat, cost: nat, lost: nat, rl: seq<int>) returns (top: nat)
    requires Solvent(b, max, m, cost, lost) && cost >= 1 && Ranked(b, max, rl) && max <= TABLELOG_MAX
    ensures 1 <= top <= TABLELOG_MAX && rl[top] != NO_SYMBOL
    ensures cost < Pow2(TABLELOG_MAX)
    ensures forall r :: 1 <= r < |rl| ==> rl[r] == NO_SYMBOL || 0 <= rl[r] < |b|
  {
    hide Kraft, Pow2;
    NotAllAtMax(b, max, cost + lost);
    Pow2Mono(max, TABLELOG_MAX);
    top := max - b[0];
    assert IsLastOf(b, max - top, rl[top]);
    assert forall r :: 1 <= r < |rl| ==> IsLastOf(b, max - r, rl[r]);
  }

  /** One repayment keeps the code solvent and the table right. */
  lemma {:induction false} Repayment(b: seq<nat>, max: nat, m: nat, cost: nat, lost: nat, rl: seq<int>, nb: nat)
    requires Solvent(b, max, m, cost, lost) && cost >= 1 && Ranked(b, max, rl) && |b| < NO_SYMBOL && max <= TABLELOG_MAX
    requires 1 <= nb <= TABLELOG_MAX && rl[nb] != NO_SYMBOL
    requires Pow2(nb - 1) <= cost || forall r :: 1 <= r < nb ==> rl[r] == NO_SYMBOL
    ensures var p := rl[nb];
      && 0 <= p < |b| && (nb == 1 ==> p <= m)
      && Ranked(b[p := b[p] + 1], max, NextRanks(rl, nb, p == 0 || b[p - 1] != max - nb))
      && Solvent(b[p := b[p] + 1], max, if nb == 1 then p else m, cost - Pow2(nb - 1), lost)
  {
    hide Kraft, Sorted, AtMost, NextRanks, Pow2;
    assert Sorted(b);
    RanksKept(b, max, rl, nb);
    var p := rl[nb];
    assert IsLastOf(b, max - nb, p);
    DebtStep(b, max, m, cost + lost, nb, p);
    assert Pow2(0) == 1 by { PowZero(); }
    if Pow2(nb - 1) > cost {
      OvershootCovered(b, max, m, cost + lost, rl, nb);
      Pow2Mono(nb - 1, nb);
    }
  }

  /** One repayment. */
  method RepayOne(bits: array<nat>, count: array<nat>, rankLast: array<int>, max: nat, cost: nat, ghost m: nat, ghost lost: nat)
    returns (cost': int, ghost m': nat)
    requires bits != count && bits.Length == count.Length < NO_SYMBOL && 1 <= max <= TABLELOG_MAX
    requires Solvent(bits[..], max, m, cost, lost) && cost >= 1 && Ranked(bits[..], max, rankLast[..])
    modifies bits, rankLast
    ensures Solvent(bits[..], max, m', cost', lost) && Ranked(bits[..], max, rankLast[..]) && cost' < cost && m' <= m
    ensures Repaid(Debt(old(bits[..]), cost), Debt(bits[..], cost'), count[..], max)
  {
    hide Solvent, IsLastOf, IsPick, Repaid;
    ghost var b, rl := bits[..], rankLast[..];
    ghost var top := SomeRank(b, max, m, cost, lost, rl);
    var nb := PickRank(rankLast, count, cost, top);
    Repayment(b, max, m, cost, lost, rl, nb);
    cost' := cost - Pow2(nb - 1);
    m' := if nb == 1 then rl[nb] else m;
    if rankLast[nb - 1] == NO_SYMBOL {
      rankLast[nb - 1] := rankLast[nb];
    }
    var p := rankLast[nb];
    bits[p] := bits[p] + 1;
    if p == 0 {
      rankLast[nb] := NO_SYMBOL;
    } else {
      rankLast[nb] := p - 1;
      if bits[p - 1] != max - nb {
        rankLast[nb] := NO_SYMBOL;
      }
    }
    assert bits[..] == b[p := b[p] + 1];
    assert rankLast[..] == NextRanks(rl, nb, p == 0 || b[p - 1] != max - nb);
    IsRepaid(b, rl, count[..], max, cost, nb);
  }

  lemma {:induction false} IsRepaid(b: seq<nat>, rl: seq<int>, count: seq<nat>, max: nat, cost: nat, nb: nat)
    requires cost >= 1 && IsPick(count, rl, cost, nb) && Ranked(b, max, rl) && |count| == |b|
    ensures 0 <= rl[nb] < |b|
    ensures Repaid(Debt(b, cost), Debt(b[rl[nb] := b[rl[nb]] + 1], cost - Pow2(nb - 1)), count, max)
  {
    hide Ranked, Pow2;
  }

  lemma {:induction false} OneMoreRepaid(run: seq<Debt>, d: Debt, count: seq<nat>, max: nat)
    requires Repayments(run, count, max) && Repaid(run[|run| - 1], d, count, max)
    ensures Repayments(run + [d], count, max)
  {
    hide Repaid;
  }

  // ---------- giving back an overshoot ----------

  /** Shortening the first full-length symbol. */
  lemma {:induction false} GiveBack(b: seq<nat>, max: nat, m: nat, cost: int, lost: nat)
    requires Solvent(b, max, m, cost, lost) && cost < 0 && |b| < NO_SYMBOL
    ensures m < |b| && max >= 2 && Solvent(b[m := max - 1], max, m + 1, cost + 1, lost)
    ensures IsLastOf(b[m := max - 1], max - 1, m)
  {
    hide Kraft;
    assert 1 <= b[0] < max;
    KraftUpdate(b, max, m, max - 1);
    assert Pow2(0) == 1 && Pow2(1) == 2;
  }

  /** The last symbol of rank one, if there is one, is the last before the full-length ones. */
  lemma {:induction false} RankOneEnds(b: seq<nat>, max: nat, m: nat, cost: int, lost: nat, pos: int)
    requires Solvent(b, max, m, cost, lost) && IsLastOf(b, max - 1, pos) && pos != NO_SYMBOL && |b| < NO_SYMBOL
    ensures pos == m - 1
  {
    assert pos < m;
    assert b[m - 1] < max;
  }

  method GiveBackAll(bits: array<nat>, rankLast: array<int>, n0: nat, max: nat, cost: int, ghost m0: nat, ghost lost: nat)
    requires bits.Length < NO_SYMBOL && rankLast.Length == TABLELOG_MAX + 2 && n0 < bits.Length && m0 <= n0 + 1
    requires Solvent(bits[..], max, m0, cost, lost) && cost <= 0 && IsLastOf(bits[..], max - 1, rankLast[1])
    modifies bits, rankLast
    ensures Sorted(bits[..]) && AtMost(bits[..], max) && Kraft(bits[..], max) == Pow2(max) + lost
    ensures bits[bits.Length - 1] == max && forall i :: 0 <= i < bits.Length ==> bits[i] >= 1 || bits[i] == max
    ensures GivenBack(Debt(old(bits[..]), cost), bits[..], max)
  {
    hide Kraft, IsLastOf, Solvent, Pow2, GivenBack;
    ghost var start := bits[..];
    LongStart(start, max, m0, cost, lost);
    var n: nat, totalCost := n0, cost;
    ghost var m: nat := m0;
    while totalCost < 0
      invariant totalCost <= 0 && m <= bits.Length && n < bits.Length
      invariant Solvent(bits[..], max, m, totalCost, lost) && IsLastOf(bits[..], max - 1, rankLast[1])
      invariant rankLast[1] == NO_SYMBOL ==> m <= n + 1
      invariant m == m0 + totalCost - cost && forall i :: 0 <= i < bits.Length ==> bits[i] == if m0 <= i < m then max - 1 else start[i]
      decreases -totalCost
    {
      ghost var b := bits[..];
      GiveBack(b, max, m, totalCost, lost);
      LongStart(b, max, m, totalCost, lost);
      if rankLast[1] == NO_SYMBOL {
        while bits[n] == max
          invariant m - 1 <= n < bits.Length
          decreases n
        {
          n := n - 1;
        }
        bits[n + 1] := bits[n + 1] - 1;
        rankLast[1] := n + 1;
      } else {
        RankOneEnds(b, max, m, totalCost, lost, rankLast[1]);
        bits[rankLast[1] + 1] := bits[rankLast[1] + 1] - 1;
        rankLast[1] := rankLast[1] + 1;
      }
      ghost var v: nat := max - 1;
      assert bits[..] == b[m := v];
      totalCost := totalCost + 1;
      m := m + 1;
    }
    RepaidAll(start, bits[..], max, m0, m, cost, lost);
  }

  lemma {:induction false} LongStart(b: seq<nat>, max: nat, m: nat, cost: int, lost: nat)
    requires Solvent(b, max, m, cost, lost)
    ensures LongFrom(b, max, m) && (cost < 0 ==> m >= 1)
  {
  }

  /** Nothing is owed either way. */
  lemma {:induction false} RepaidAll(start: seq<nat>, b: seq<nat>, max: nat, m0: nat, m: nat, cost: int, lost: nat)
    requires Solvent(b, max, m, 0, lost) && cost <= 0 && LongFrom(start, max, m0) && |start| == |b| && m == m0 - cost && b != []
    requires forall i :: 0 <= i < |b| ==> b[i] == if m0 <= i < m then max - 1 else start[i]
    ensures Sorted(b) && AtMost(b, max) && Kraft(b, max) == Pow2(max) + lost
    ensures b[|b| - 1] == max && forall i :: 0 <= i < |b| ==> b[i] >= 1 || b[i] == max
    ensures GivenBack(Debt(start, cost), b, max)
  {
    hide Kraft, Pow2;
  }

  /** `HUF_setMaxHeight`: from a complete code with lengths in ascending order, for at most
      `2^max` symbols, to lengths of at most `max`, still in order. The result is complete if and
      only if the debt fits into 32 bits; otherwise the codes claim more than there is. */
  method SetMaxHeight(bits: array<nat>, count: array<nat>, max: nat) returns (height: nat)
    requires bits != count && 1 <= bits.Length == count.Length < NO_SYMBOL && bits.Length <= Pow2(max) && 1 <= max <= TABLELOG_MAX
    requires Sorted(bits[..]) && Complete(bits[..], bits[bits.Length - 1]) && bits[bits.Length - 1] <= max + 31
    requires forall i :: 0 <= i < bits.Length ==> bits[i] >= 1
    modifies bits
    ensures height <= max && AtMost(bits[..], height) && Sorted(bits[..]) && Kraft(bits[..], height) >= Pow2(height)
    ensures Complete(bits[..], height) <==> Fits(old(bits[..]), max)
    ensures bits[bits.Length - 1] == height && forall i :: 0 <= i < bits.Length ==> 1 <= bits[i] <= height
    ensures Limited(old(bits[..]), bits[..], count[..], max)
  {
    hide Kraft, Pow2, Excess, Repaid, Remembered;
    var last := bits.Length - 1;
    if bits[last] <= max { return bits[last]; }
    ghost var b0 := bits[..];
    var n, totalCost;
    ghost var owed;
    n, totalCost, owed := CutLong(bits, last, max);
    n := SkipMax(bits, n, max, owed);
    var rankLast := RankSymbols(bits, n, max);
    ghost var m, lost: nat := n + 1, owed - totalCost;
    var cost: int := totalCost;
    assert Solvent(bits[..], max, m, cost, lost);
    ghost var run := [Debt(bits[..], cost)];
    while cost > 0
      invariant Solvent(bits[..], max, m, cost, lost) && Ranked(bits[..], max, rankLast[..]) && m <= n + 1
      invariant Repayments(run, count[..], max) && run[|run| - 1] == Debt(bits[..], cost)
      invariant run[0] == Debt(Clipped(b0, max), Remembered(b0, max))
      decreases cost
    {
      cost, m := RepayOne(bits, count, rankLast, max, cost, m, lost);
      OneMoreRepaid(run, Debt(bits[..], cost), count[..], max);
      run := run + [Debt(bits[..], cost)];
    }
    GiveBackAll(bits, rankLast, n, max, cost, m, lost);
    assert Limiting(run, b0, bits[..], count[..], max);
    return max;
  }
}
