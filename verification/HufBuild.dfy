/** `HUF_buildCTable` as a whole: from symbol counts to a complete canonical code of limited
    depth. */
module HufBuild {
  import opened Bits
  import opened Counts
  import T = HufTable
  import S = HufSort
  import H = HufHeight
  import R = HufTree
  import D = HufDepth
  import opened HufStream

  const TABLELOG_DEFAULT := 11

  // ---------- cells of weights ----------

  ghost function CellSum(ws: seq<nat>): nat {
    if ws == [] then 0 else CellSum(ws[..|ws| - 1]) + T.Cells(ws[|ws| - 1])
  }

  lemma {:induction false} BelowAppend(ws: seq<nat>, x: nat, w: nat)
    ensures T.Below(ws + [x], w) == T.Below(ws, w) + if 1 <= x < w then T.Cells(x) else 0
    decreases w
  {
    if w > 1 {
      BelowAppend(ws, x, w - 1);
      assert (ws + [x])[..|ws|] == ws;
      T.ShlPlus(T.Num(ws, w - 1), 1, w - 2);
      T.ShlOne(w - 2);
    }
  }

  lemma {:induction false} BelowIsSum(ws: seq<nat>, top: nat)
    requires forall i :: 0 <= i < |ws| ==> ws[i] <= top
    ensures T.Below(ws, top + 1) == CellSum(ws)
  {
    if ws == [] {
      BelowNothing(top + 1);
    } else {
      var n := |ws| - 1;
      BelowIsSum(ws[..n], top);
      assert ws == ws[..n] + [ws[n]];
      BelowAppend(ws[..n], ws[n], top + 1);
    }
  }

  lemma {:induction false} BelowNothing(w: nat)
    ensures T.Below([], w) == 0
    decreases w
  {
    if w > 1 {
      BelowNothing(w - 1);
      ShlZero(w - 2);
    }
  }

  lemma {:induction false} CellSumUpdate(ws: seq<nat>, i: nat, v: nat)
    requires i < |ws|
    ensures CellSum(ws[i := v]) == CellSum(ws) - T.Cells(ws[i]) + T.Cells(v)
  {
    hide T.Cells;
    var n := |ws| - 1;
    if i < n {
      CellSumUpdate(ws[..n], i, v);
      assert ws[i := v][..n] == ws[..n][i := v];
    } else {
      assert ws[i := v][..n] == ws[..n];
    }
  }

  lemma {:induction false} NumUpdate(ws: seq<nat>, i: nat, v: nat, w: nat)
    requires i < |ws|
    ensures T.Num(ws[i := v], w) == T.Num(ws, w) - (if ws[i] == w then 1 else 0) + (if v == w then 1 else 0)
  {
    var n := |ws| - 1;
    if i < n {
      NumUpdate(ws[..n], i, v, w);
      assert ws[i := v][..n] == ws[..n][i := v];
    } else {
      assert ws[i := v][..n] == ws[..n];
    }
  }

  // ---------- rearranged symbols ----------

  ghost function Total(l: seq<S.Elt>): nat { if l == [] then 0 else Total(l[..|l| - 1]) + l[|l| - 1].count }

  ghost function Positive(l: seq<S.Elt>): nat { if l == [] then 0 else Positive(l[..|l| - 1]) + if l[|l| - 1].count > 0 then 1 else 0 }

  /** Symbols that count at least `v`. */
  ghost function AtLeast(l: seq<S.Elt>, v: nat): (n: nat)
    ensures n <= |l|
  {
    if l == [] then 0 else AtLeast(l[..|l| - 1], v) + if l[|l| - 1].count >= v then 1 else 0
  }

  lemma {:induction false} Concat(a: seq<S.Elt>, b: seq<S.Elt>, v: nat)
    ensures Total(a + b) == Total(a) + Total(b) && Positive(a + b) == Positive(a) + Positive(b)
    ensures AtLeast(a + b, v) == AtLeast(a, v) + AtLeast(b, v)
  {
    if b == [] {
      assert a + b == a;
    } else {
      var n := |b| - 1;
      assert (a + b)[..|a| + n] == a + b[..n];
      Concat(a, b[..n], v);
    }
  }

  /** A list without one of its elements. */
  ghost function Without(b: seq<S.Elt>, j: nat): seq<S.Elt>
    requires j < |b|
  {
    b[..j] + b[j + 1..]
  }

  lemma {:induction false} TakeOut(b: seq<S.Elt>, j: nat, v: nat)
    requires j < |b|
    ensures multiset(Without(b, j)) == multiset(b) - multiset{b[j]}
    ensures AtLeast(b, v) == AtLeast(Without(b, j), v) + if b[j].count >= v then 1 else 0
    ensures Total(b) == Total(Without(b, j)) + b[j].count && Positive(b) == Positive(Without(b, j)) + if b[j].count > 0 then 1 else 0
  {
    hide Total, Positive, AtLeast;
    assert b == b[..j] + [b[j]] + b[j + 1..];
    Concat(b[..j] + [b[j]], b[j + 1..], v);
    Concat(b[..j], [b[j]], v);
    Concat(b[..j], b[j + 1..], v);
    One(b[j], v);
  }

  lemma {:induction false} One(e: S.Elt, v: nat)
    ensures AtLeast([e], v) == if e.count >= v then 1 else 0
    ensures Total([e]) == e.count && Positive([e]) == if e.count > 0 then 1 else 0
  {
    assert [e][..0] == [];
  }

  /** Rearranging changes none of them. */
  lemma {:induction false} Rearranged(a: seq<S.Elt>, b: seq<S.Elt>, v: nat)
    requires multiset(a) == multiset(b)
    ensures Total(a) == Total(b) && Positive(a) == Positive(b) && AtLeast(a, v) == AtLeast(b, v)
    decreases |a|
  {
    hide Total, Positive, Without, AtLeast;
    S.SameSize(a, b);
    if a == [] {
      assert b == [];
    } else {
      var n := |a| - 1;
      assert a[n] in multiset(b);
      var j :| 0 <= j < |b| && b[j] == a[n];
      TakeOut(a, n, v);
      TakeOut(b, j, v);
      WithoutLast(a);
      Rearranged(Without(a, n), Without(b, j), v);
    }
  }

  lemma {:induction false} WithoutLast(a: seq<S.Elt>)
    requires a != []
    ensures |Without(a, |a| - 1)| < |a|
  {
  }

  lemma {:induction false} GivenTotals(counts: seq<nat>, n: nat)
    requires n <= |counts|
    ensures Total(S.Given(counts, n)) == Sum(counts[..n]) && Positive(S.Given(counts, n)) == Present(counts[..n])
  {
    if n > 0 {
      GivenTotals(counts, n - 1);
      assert S.Given(counts, n)[..n - 1] == S.Given(counts, n - 1);
      assert counts[..n][..n - 1] == counts[..n - 1];
    } else {
      assert S.Given(counts, 0) == [] && counts[..0] == [];
    }
  }

  /** A sorted list of all symbols. */
  ghost predicate IsSorted(l: seq<S.Elt>, counts: seq<nat>) {
    S.Falling(l) && S.Stable(l) && multiset(l) == multiset(S.Given(counts, |counts|))
  }

  ghost predicate Lists(l: seq<S.Elt>, s: nat) { exists i :: 0 <= i < |l| && l[i].symbol == s }

  lemma {:induction false} SortedFacts(l: seq<S.Elt>, counts: seq<nat>)
    requires IsSorted(l, counts)
    ensures |l| == |counts| && Total(l) == Sum(counts) && Positive(l) == Present(counts)
    ensures forall i :: 0 <= i < |l| ==> l[i].symbol < |counts| && l[i].count == counts[l[i].symbol]
    ensures forall i, j :: 0 <= i < j < |l| ==> l[i].symbol != l[j].symbol
    ensures forall s :: 0 <= s < |counts| ==> Lists(l, s)
  {
    hide Total, Positive, Sum, Present;
    var g := S.Given(counts, |counts|);
    S.SameSize(l, g);
    Rearranged(l, g, 0);
    GivenTotals(counts, |counts|);
    assert counts[..|counts|] == counts;
    forall i | 0 <= i < |l| ensures l[i].symbol < |counts| && l[i].count == counts[l[i].symbol] {
      assert l[i] in multiset(g);
    }
    forall s | 0 <= s < |counts| ensures Lists(l, s) {
      assert g[s] in multiset(g);
      assert g[s] in multiset(l);
      var i :| 0 <= i < |l| && l[i] == g[s];
    }
  }

  /** In a falling list, those that count at least `v` come first. */
  lemma {:induction false} FallingRank(l: seq<S.Elt>, v: nat, i: nat)
    requires S.Falling(l) && i < |l|
    ensures i < AtLeast(l, v) <==> l[i].count >= v
    decreases |l|
  {
    var n := |l| - 1;
    if i < n {
      FallingRank(l[..n], v, i);
    } else if l[n].count >= v {
      AllAtLeast(l, v);
    }
  }

  lemma {:induction false} AllAtLeast(l: seq<S.Elt>, v: nat)
    requires forall i :: 0 <= i < |l| ==> l[i].count >= v
    ensures AtLeast(l, v) == |l|
  {
    if l != [] { AllAtLeast(l[..|l| - 1], v); }
  }

  /** Counts that fall already stay as they are. */
  lemma {:induction false} SortedAlready(l: seq<S.Elt>, counts: seq<nat>)
    requires IsSorted(l, counts) && D.Falls(counts)
    ensures |l| == |counts| && forall i :: 0 <= i < |l| ==> l[i].count == counts[i]
  {
    hide AtLeast;
    var g := S.Given(counts, |counts|);
    S.SameSize(l, g);
    forall i | 0 <= i < |l| ensures l[i].count == counts[i] {
      Rearranged(l, g, l[i].count);
      FallingRank(l, l[i].count, i);
      FallingRank(g, l[i].count, i);
      Rearranged(l, g, g[i].count);
      FallingRank(l, g[i].count, i);
      FallingRank(g, g[i].count, i);
    }
  }

  // ---------- lengths by symbol ----------

  ghost function WeightOf(b: nat, log: nat): nat { if b == 0 || b > log then 0 else log + 1 - b }

  ghost function WeightsOf(lens: seq<nat>, log: nat): (r: seq<nat>)
    ensures |r| == |lens| && forall i :: 0 <= i < |lens| ==> r[i] == WeightOf(lens[i], log)
  {
    seq(|lens|, i requires 0 <= i < |lens| => WeightOf(lens[i], log))
  }

  lemma {:induction false} NoWeights(lens: seq<nat>, log: nat)
    requires forall i :: 0 <= i < |lens| ==> lens[i] == 0
    ensures CellSum(WeightsOf(lens, log)) == 0 && forall w :: 1 <= w ==> T.Num(WeightsOf(lens, log), w) == 0
  {
    if lens != [] {
      var n := |lens| - 1;
      NoWeights(lens[..n], log);
      assert WeightsOf(lens, log)[..n] == WeightsOf(lens[..n], log);
    }
  }

  /** The lengths given out so far, counted by symbol and in the order of the tree. */
  ghost predicate Matched(lens: seq<nat>, bits: seq<nat>, log: nat)
    requires H.AtMost(bits, log)
  {
    && CellSum(WeightsOf(lens, log)) == H.Kraft(bits, log)
    && forall b :: 1 <= b <= log ==> T.Num(WeightsOf(lens, log), log + 1 - b) == T.Num(bits, b)
  }

  lemma {:induction false} MatchedMore(lens: seq<nat>, bits: seq<nat>, log: nat, s: nat, b: nat)
    requires H.AtMost(bits, log) && Matched(lens, bits, log) && s < |lens| && lens[s] == 0 && 1 <= b <= log
    ensures H.AtMost(bits + [b], log) && Matched(lens[s := b], bits + [b], log)
  {
    hide H.Kraft, T.Num, CellSum, Pow2;
    var before, after := WeightsOf(lens, log), WeightsOf(lens[s := b], log);
    assert after == before[s := log + 1 - b];
    CellSumUpdate(before, s, log + 1 - b);
    T.CellsAre(log + 1 - b);
    KraftAppend(bits, b, log);
    forall c | 1 <= c <= log ensures T.Num(after, log + 1 - c) == T.Num(bits + [b], c) {
      NumUpdate(before, s, log + 1 - b, log + 1 - c);
      NumAppend(bits, b, c);
    }
  }

  lemma {:induction false} KraftAppend(bits: seq<nat>, b: nat, log: nat)
    requires H.AtMost(bits, log) && b <= log
    ensures H.AtMost(bits + [b], log) && H.Kraft(bits + [b], log) == H.Kraft(bits, log) + Pow2(log - b)
  {
    assert (bits + [b])[..|bits|] == bits;
  }

  lemma {:induction false} NumAppend(s: seq<nat>, x: nat, w: nat)
    ensures T.Num(s + [x], w) == T.Num(s, w) + if x == w then 1 else 0
  {
    assert (s + [x])[..|s|] == s;
  }

  /** Pushes the lengths to the symbols. */
  method LengthsBySymbol(node: seq<S.Elt>, bits: seq<nat>, log: nat, size: nat) returns (lens: array<nat>)
    requires |bits| <= |node| == size && H.AtMost(bits, log) && (forall i :: 0 <= i < |bits| ==> bits[i] >= 1)
    requires forall i :: 0 <= i < |node| ==> node[i].symbol < size
    requires forall i, j :: 0 <= i < j < |node| ==> node[i].symbol != node[j].symbol
    ensures fresh(lens) && lens.Length == size && Matched(lens[..], bits, log)
    ensures forall i :: 0 <= i < |node| ==> lens[node[i].symbol] == if i < |bits| then bits[i] else 0
  {
    hide H.Kraft, T.Num, CellSum, Matched;
    lens := new nat[size](_ => 0);
    NothingMatched(lens[..], log);
    assert bits[..0] == [];
    for i := 0 to |node|
      invariant forall j :: 0 <= j < i ==> lens[node[j].symbol] == if j < |bits| then bits[j] else 0
      invariant forall j :: i <= j < |node| ==> lens[node[j].symbol] == 0
      invariant H.AtMost(bits[..if i < |bits| then i else |bits|], log) && Matched(lens[..], bits[..if i < |bits| then i else |bits|], log)
    {
      ghost var before := lens[..];
      var s := node[i].symbol;
      var b := if i < |bits| then bits[i] else 0;
      if i < |bits| {
        MatchedMore(before, bits[..i], log, s, b);
        assert bits[..i] + [b] == bits[..i + 1];
      }
      lens[s] := b;
      assert lens[..] == before[s := b];
      assert b == 0 ==> lens[..] == before;
    }
    assert bits[..|bits|] == bits;
  }

  lemma {:induction false} NothingMatched(lens: seq<nat>, log: nat)
    requires forall i :: 0 <= i < |lens| ==> lens[i] == 0
    ensures H.AtMost([], log) && Matched(lens, [], log)
  {
    NoWeights(lens, log);
  }

  // ---------- the whole construction ----------

  /** The last symbol that occurs at all. */
  method NonNull(node: array<S.Elt>, ghost counts: seq<nat>) returns (n: nat)
    requires IsSorted(node[..], counts) && Present(counts) >= 1
    ensures 1 <= n <= node.Length && n == Present(counts)
    ensures forall i :: 0 <= i < node.Length ==> (node[i].count > 0 <==> i < n)
  {
    hide Present, Positive, Total;
    ghost var l := node[..];
    SortedFacts(l, counts);
    SomePositive(l);
    n := node.Length;
    while node[n - 1].count == 0
      invariant 1 <= n <= node.Length
      invariant forall i :: n <= i < node.Length ==> node[i].count == 0
      invariant exists i :: 0 <= i < n && l[i].count > 0
      decreases n
    {
      n := n - 1;
    }
    PositivePrefix(l, n);
  }

  lemma {:induction false} SomePositive(l: seq<S.Elt>)
    requires Positive(l) >= 1
    ensures exists i :: 0 <= i < |l| && l[i].count > 0
  {
    if l[|l| - 1].count == 0 {
      SomePositive(l[..|l| - 1]);
      var i :| 0 <= i < |l[..|l| - 1]| && l[..|l| - 1][i].count > 0;
      assert l[i].count > 0;
    }
  }

  lemma {:induction false} PositivePrefix(l: seq<S.Elt>, n: nat)
    requires S.Falling(l) && 1 <= n <= |l| && l[n - 1].count > 0 && forall i :: n <= i < |l| ==> l[i].count == 0
    ensures Positive(l) == n && forall i :: 0 <= i < n ==> l[i].count > 0
    decreases |l|
  {
    assert forall i :: 0 <= i < n - 1 ==> l[i].count >= l[n - 1].count;
    if n == |l| {
      AllPositive(l);
    } else {
      PositivePrefix(l[..|l| - 1], n);
    }
  }

  lemma {:induction false} AllPositive(l: seq<S.Elt>)
    requires forall i :: 0 <= i < |l| ==> l[i].count > 0
    ensures Positive(l) == |l|
  {
    if l != [] { AllPositive(l[..|l| - 1]); }
  }

  /** Counts of fewer than `2^30` symbols fall into the buckets. */
  lemma {:induction false} CountsSmall(counts: seq<nat>)
    requires Sum(counts) < R.BARRIER
    ensures S.Small(counts)
  {
    forall i | 0 <= i < |counts| ensures S.Height(counts[i]) < S.TOP {
      SumPrefix(counts, i);
      HeightSmall(counts[i]);
    }
  }

  lemma {:induction false} HeightSmall(c: nat)
    requires c < R.BARRIER
    ensures S.Height(c) < S.TOP
  {
    hide HighBit;
    var h := HighBit(c + 1);
    if h >= S.TOP {
      hide Pow2;
      Pow2Mono(S.TOP, h);
      H.PowWord();
    }
  }

  lemma {:induction false} PrefixTotal(l: seq<S.Elt>, n: nat, counts: seq<nat>)
    requires n <= |l| && |counts| == n && forall i :: 0 <= i < n ==> counts[i] == l[i].count
    ensures Sum(counts) <= Total(l)
    decreases |l|
  {
    if n == |l| {
      if n > 0 { PrefixTotal(l[..n - 1], n - 1, counts[..n - 1]); }
    } else {
      PrefixTotal(l[..|l| - 1], n, counts);
    }
  }

  /** Tree, depths and depth limit for symbols by falling count. The total keeps the depth, and
      with it the shift of the depth limit, in range. */
  method LimitedDepths(leafCount: seq<nat>, maxNbBits: nat) returns (bits: array<nat>, height: nat, ghost g: D.Growth)
    requires 2 <= |leafCount| <= Pow2(maxNbBits) && |leafCount| <= 256 && 1 <= maxNbBits <= TABLELOG_MAX
    requires D.Falls(leafCount) && forall i :: 0 <= i < |leafCount| ==> leafCount[i] >= 1
    requires Sum(leafCount) < R.BARRIER && Sum(leafCount) < D.Fib(maxNbBits + 34)
    ensures D.Grown(g) && g.leafCount == leafCount && Unlimited(g)
    ensures fresh(bits) && bits.Length == |leafCount| && 1 <= height <= maxNbBits && bits[bits.Length - 1] == height
    ensures H.AtMost(bits[..], height) && H.Kraft(bits[..], height) >= Pow2(height)
    ensures H.Complete(bits[..], height) <==> H.Fits(g.depths, maxNbBits)
    ensures forall i :: 0 <= i < bits.Length ==> 1 <= bits[i] <= height
    ensures H.Limited(g.depths, bits[..], leafCount, maxNbBits)
  {
    hide Sum, R.Built, R.Depths, R.AllGreedy, H.Kraft, Pow2, D.Fib, D.Falls, H.Fits, H.Limited;
    var n := |leafCount|;
    bits := new nat[n];
    var leafParent, nodeParent := new nat[n], new nat[n];
    var counts := new nat[n](i requires 0 <= i < n => leafCount[i]);
    ghost var ls, ln, counted;
    ls, ln, counted := R.CreateParents(leafCount, leafParent, nodeParent);
    var nodeBits := R.Distribute(leafParent, nodeParent, bits, ls, ln, n);
    g := D.Growth(leafCount, bits[..], counted, nodeBits[..], leafParent[..], nodeParent[..], ls, ln);
    GrownFacts(g);
    ShiftInRange(g.depths[n - 1], Sum(leafCount), maxNbBits);
    assert counts[..] == leafCount;
    height := H.SetMaxHeight(bits, counts, maxNbBits);
  }

  /** The depths before the limit: a complete code in order, and no deeper than the total allows. */
  ghost predicate Unlimited(g: D.Growth) {
    var n := |g.leafCount|;
    && n >= 2 && |g.depths| == n && H.Sorted(g.depths) && H.Complete(g.depths, g.depths[n - 1])
    && (forall i :: 0 <= i < n ==> g.depths[i] >= 1) && D.Fib(g.depths[n - 1] + 2) <= Sum(g.leafCount)
  }

  lemma {:induction false} GrownFacts(g: D.Growth)
    requires D.Grown(g)
    ensures Unlimited(g)
  {
    hide Sum, R.Built, R.AllGreedy, H.Kraft, Pow2, D.Fib, D.Falls;
    var n := |g.leafCount|;
    R.TreeComplete(g.leafParent, g.nodeParent, g.leafQueue, g.nodeQueue, g.depths, g.nodeBits, n);
    R.LeavesFall(g.leafParent, g.nodeParent, g.leafQueue, g.nodeQueue, g.depths, g.nodeBits, n);
    D.DepthNeeds(g.leafCount, g.nodeCount, g.leafParent, g.nodeParent, g.leafQueue, g.nodeQueue, g.depths, g.nodeBits, n);
  }

  lemma {:induction false} ShiftInRange(depth: nat, total: nat, max: nat)
    requires D.Fib(depth + 2) <= total < D.Fib(max + 34)
    ensures depth <= max + 31
  {
    if depth > max + 31 { D.FibMono(max + 34, depth + 2); }
  }

  lemma {:induction false} NodeSorted(counts: seq<nat>)
    requires S.Small(counts)
    ensures IsSorted(S.All(counts, |counts|, 0), counts)
  {
    hide S.All, S.Small;
    S.AllGiven(counts, |counts|);
    S.AllFalling(counts, |counts|, 0);
    S.AllStable(counts, |counts|, 0);
  }

  /** A length for exactly the symbols that occur. */
  lemma {:induction false} LensAre(node: seq<S.Elt>, counts: seq<nat>, bits: seq<nat>, lens: seq<nat>, n: nat)
    requires |lens| == |counts| == |node| && n == |bits| <= |node|
    requires forall i :: 0 <= i < |node| ==> node[i].symbol < |counts| && node[i].count == counts[node[i].symbol]
    requires forall s :: 0 <= s < |counts| ==> Lists(node, s)
    requires forall i :: 0 <= i < |node| ==> (node[i].count > 0 <==> i < n)
    requires forall i :: 0 <= i < |node| ==> lens[node[i].symbol] == if i < |bits| then bits[i] else 0
    requires forall i :: 0 <= i < |bits| ==> bits[i] >= 1
    ensures forall s :: 0 <= s < |counts| ==> (lens[s] >= 1 <==> counts[s] > 0)
    ensures forall s :: 0 <= s < |counts| ==> lens[s] == 0 || lens[s] in bits
    ensures n >= 1 ==> bits[n - 1] in lens
  {
    if n >= 1 { assert lens[node[n - 1].symbol] == bits[n - 1]; }
    forall s | 0 <= s < |counts| ensures (lens[s] >= 1 <==> counts[s] > 0) && (lens[s] == 0 || lens[s] in bits) {
      assert Lists(node, s);
      var i :| 0 <= i < |node| && node[i].symbol == s;
    }
  }

  /** The weights of a code fill the table exactly if it is complete. */
  lemma {:induction false} WeightsComplete(lens: seq<nat>, bits: seq<nat>, log: nat)
    requires H.AtMost(bits, log) && Matched(lens, bits, log) && forall s :: 0 <= s < |lens| ==> lens[s] <= log
    ensures T.IsWeights(WeightsOf(lens, log), log) <==> H.Complete(bits, log)
    ensures T.IsLengths(lens, WeightsOf(lens, log), log) && T.Below(WeightsOf(lens, log), log + 1) == H.Kraft(bits, log)
  {
    hide H.Kraft, T.Below, T.Num, CellSum, Pow2;
    BelowIsSum(WeightsOf(lens, log), log);
  }

  /** How many codes have each length, over the symbols in the order of the tree. */
  method CountLengths(bits: array<nat>, log: nat, ghost lens: seq<nat>) returns (nbPerRank: seq<nat>)
    requires (forall i :: 0 <= i < bits.Length ==> 1 <= bits[i] <= log) && H.AtMost(bits[..], log) && Matched(lens, bits[..], log)
    ensures |nbPerRank| == log + 1 && forall n :: 1 <= n <= log ==> nbPerRank[n] == T.Num(WeightsOf(lens, log), log + 1 - n)
  {
    hide H.Kraft, T.Num, CellSum;
    nbPerRank := seq(log + 1, _ => 0);
    ghost var b := bits[..];
    assert b[..0] == [];
    forall n | 1 <= n <= log ensures T.Num(b[..0], n) == 0 { NumNone(n); }
    for i := 0 to bits.Length
      invariant |nbPerRank| == log + 1 && forall n :: 1 <= n <= log ==> nbPerRank[n] == T.Num(b[..i], n)
    {
      forall n | 1 <= n <= log ensures T.Num(b[..i + 1], n) == T.Num(b[..i], n) + if b[i] == n then 1 else 0 { T.NumMore(b, i, n); }
      nbPerRank := nbPerRank[bits[i] := nbPerRank[bits[i]] + 1];
    }
    assert b[..|b|] == b;
  }

  lemma {:induction false} NumNone(w: nat)
    ensures T.Num([], w) == 0
  {
  }

  lemma {:induction false} CodesMade(vals: seq<nat>, lens: seq<nat>, ws: seq<nat>, log: nat)
    requires 1 <= log <= TABLELOG_MAX && |vals| == |ws| <= 256 && T.IsLengths(lens, ws, log)
    requires forall s :: 0 <= s < |lens| ==> lens[s] <= log
    requires T.IsWeights(ws, log) ==> forall s :: 0 <= s < |ws| && ws[s] >= 1 ==> T.IsCode(ws, log, s, vals[s])
    ensures IsCodes(vals, lens, ws, log) <==> T.IsWeights(ws, log)
  {
  }

  /** A total that keeps the tree shallow enough. */
  lemma {:induction false} TotalFits(g: D.Growth, max: nat)
    requires Unlimited(g) && |g.leafCount| <= Pow2(max) && Sum(g.leafCount) < D.SAFE_TOTAL
    ensures H.Fits(g.depths, max)
  {
    D.SafeTotal(g.depths[|g.depths| - 1], Sum(g.leafCount));
    H.ShallowFits(g.depths, max);
  }

  lemma {:induction false} TotalInRange(total: nat, max: nat)
    requires total < D.SAFE_TOTAL
    ensures total < D.Fib(max + 34) && total < R.BARRIER
  {
    D.FibValues();
    D.FibMono(34, max + 34);
  }

  /** The counts of the symbols that occur, in the order of the sorted list. */
  lemma {:induction false} LeavesAre(l: seq<S.Elt>, n: nat, leafCount: seq<nat>)
    requires S.Falling(l) && |leafCount| == n <= |l| && (forall i :: 0 <= i < n ==> leafCount[i] == l[i].count && l[i].count > 0)
    ensures D.Falls(leafCount) && forall i :: 0 <= i < n ==> leafCount[i] >= 1
  {
  }

  /** The tree is that of the symbols that occur, by falling count. */
  ghost predicate TreeOf(g: D.Growth, node: seq<S.Elt>, counts: seq<nat>) {
    && IsSorted(node, counts) && D.Grown(g) && Unlimited(g) && |g.leafCount| == Present(counts) <= |node|
    && forall i :: 0 <= i < |g.leafCount| ==> g.leafCount[i] == node[i].count
  }

  /** Totals that the code can deal with: below the barriers of the tree, and with a depth that
      keeps the shift of the depth limit in range. */
  ghost predicate Workable(counts: seq<nat>, max: nat) {
    && |counts| <= 256 && 1 <= max <= TABLELOG_MAX && 2 <= Present(counts) <= Pow2(max)
    && Sum(counts) < R.BARRIER && Sum(counts) < D.Fib(max + 34)
  }

  /** Sorting, tree and depth limit: a depth for each of the symbols that occur. */
  method SortedDepths(counts: seq<nat>, maxNbBits: nat) returns (node: seq<S.Elt>, bits: array<nat>, height: nat, ghost g: D.Growth)
    requires Workable(counts, maxNbBits)
    ensures TreeOf(g, node, counts) && fresh(bits) && 1 <= bits.Length == Present(counts) <= |node|
    ensures forall i :: 0 <= i < |node| ==> (node[i].count > 0 <==> i < bits.Length)
    ensures 1 <= height <= maxNbBits && bits[bits.Length - 1] == height && H.AtMost(bits[..], height) && H.Kraft(bits[..], height) >= Pow2(height)
    ensures H.Complete(bits[..], height) <==> H.Fits(g.depths, maxNbBits)
    ensures Sum(counts) < D.SAFE_TOTAL ==> H.Fits(g.depths, maxNbBits)
    ensures H.Limited(g.depths, bits[..], g.leafCount, maxNbBits)
    ensures forall i :: 0 <= i < bits.Length ==> 1 <= bits[i] <= height
  {
    hide Sum, Present, Total, Positive, H.Kraft, H.Complete, Pow2, S.Small, S.All, S.Given, IsSorted, S.Falling, D.Fib, D.Falls, H.Fits, H.Limited, D.Grown, Unlimited;
    CountsSmall(counts);
    var sorted := S.Sort(counts);
    node := sorted[..];
    NodeSorted(counts);
    SortedFacts(node, counts);
    var n := NonNull(sorted, counts);
    var leafCount := seq(n, i requires 0 <= i < n => node[i].count);
    PrefixTotal(node, n, leafCount);
    SortedFalling(node, counts);
    LeavesAre(node, n, leafCount);
    bits, height, g := LimitedDepths(leafCount, maxNbBits);
    if Sum(counts) < D.SAFE_TOTAL { TotalFits(g, maxNbBits); }
  }

  lemma {:induction false} SortedFalling(l: seq<S.Elt>, counts: seq<nat>)
    requires IsSorted(l, counts)
    ensures S.Falling(l)
  {
  }

  /** The lengths, handed out in the order of the sorted list. */
  ghost predicate DepthsBySymbol(lens: seq<nat>, node: seq<S.Elt>, depths: seq<nat>) {
    forall i :: 0 <= i < |node| ==> node[i].symbol < |lens| && lens[node[i].symbol] == if i < |depths| then depths[i] else 0
  }

  /** `HUF_buildCTable`: lengths of at most `maxNbBits` for exactly the symbols that occur, one of
      them of the full length. They are a complete canonical code if and only if the debt of the
      depth limit fits into 32 bits, as it does for every total below the Fibonacci number of 34,
      and overfull otherwise. */
  method BuildCTable(counts: seq<nat>, maxNbBits0: nat)
    returns (vals: seq<nat>, lens: seq<nat>, log: nat, ghost ws: seq<nat>, ghost node: seq<S.Elt>, ghost g: D.Growth, ghost depths: seq<nat>)
    requires Workable(counts, if maxNbBits0 == 0 then TABLELOG_DEFAULT else maxNbBits0)
    ensures TreeOf(g, node, counts) && |g.depths| >= 1 && H.AtMost(g.depths, g.depths[|g.depths| - 1])
    ensures H.Limited(g.depths, depths, g.leafCount, if maxNbBits0 == 0 then TABLELOG_DEFAULT else maxNbBits0) && DepthsBySymbol(lens, node, depths)
    ensures IsCodes(vals, lens, ws, log) <==> H.Fits(g.depths, if maxNbBits0 == 0 then TABLELOG_DEFAULT else maxNbBits0)
    ensures Sum(counts) < D.SAFE_TOTAL ==> IsCodes(vals, lens, ws, log)
    ensures T.IsLengths(lens, ws, log) && T.Below(ws, log + 1) >= Pow2(log)
    ensures T.Below(ws, log + 1) == Pow2(log) <==> IsCodes(vals, lens, ws, log)
    ensures log <= (if maxNbBits0 == 0 then TABLELOG_DEFAULT else maxNbBits0) && |lens| == |counts|
    ensures log in lens && forall s :: 0 <= s < |counts| ==> (lens[s] >= 1 <==> counts[s] > 0)
  {
    hide Sum, Present, Total, Positive, H.Kraft, Pow2, S.Given, T.Num, Matched, CellSum, IsCodes, IsSorted, S.Falling, D.Grown, D.Fib, H.Fits, H.Limited, T.Below, T.IsLengths, T.IsWeights;
    var sorted, bits, height;
    sorted, bits, height, g := SortedDepths(counts, if maxNbBits0 == 0 then TABLELOG_DEFAULT else maxNbBits0);
    node := sorted;
    SortedFacts(node, counts);
    log := height;
    ghost var b := bits[..];
    depths := b;
    var lensA := LengthsBySymbol(sorted, bits[..], log, |counts|);
    lens := lensA[..];
    ws := WeightsOf(lens, log);
    LensAre(node, counts, b, lens, bits.Length);
    WeightsComplete(lens, b, log);
    var nbPerRank := CountLengths(bits, log, lens);
    var valPerRank := T.CodeStarts(nbPerRank, log, ws);
    var valsA := T.AssignCodes(lens, log, valPerRank, ws);
    vals := valsA[..];
    CodesMade(vals, lens, ws, log);
  }

  /** Run on 39 symbols that count the Fibonacci numbers, with the default limit, it returns an
      overfull code. */
  method FibonacciCode() returns (vals: seq<nat>, lens: seq<nat>, log: nat, ghost ws: seq<nat>)
    ensures !IsCodes(vals, lens, ws, log) && T.IsLengths(lens, ws, log) && T.Below(ws, log + 1) > Pow2(log)
  {
    hide Sum, Present, Pow2, IsCodes, IsSorted, D.Grown, D.Fib, D.FibCounts, D.Falls, H.Fits, T.Below, Unlimited;
    var counts := D.FibCounts(39);
    ghost var node, g, depths;
    FibonacciWorkable();
    D.FibFalls(39);
    vals, lens, log, ws, node, g, depths := BuildCTable(counts, 0);
    SortedAlready(node, counts);
    assert g.leafCount == counts;
    D.FibonacciWraps(g);
  }

  lemma {:induction false} FibonacciWorkable()
    ensures Workable(D.FibCounts(39), TABLELOG_DEFAULT) && Present(D.FibCounts(39)) == 39
  {
    assert Pow2(TABLELOG_DEFAULT) == 2048;
    hide Sum, D.Fib, Pow2;
    D.FibSum(39);
    D.FibValues();
    D.FibMono(41, 45);
    D.FibGrows(39);
    D.FibGrows(41);
    FibPresent(39, 39);
    assert D.FibCounts(39)[..39] == D.FibCounts(39);
  }

  lemma {:induction false} FibPresent(n: nat, k: nat)
    requires k <= n
    ensures Present(D.FibCounts(n)[..k]) == k
  {
    if k > 0 {
      FibPresent(n, k - 1);
      assert D.FibCounts(n)[..k][..k - 1] == D.FibCounts(n)[..k - 1];
      D.FibGrows(n - k + 1);
    }
  }
}
