/** How deep the tree of `HUF_buildCTable` can be. A depth of `d` needs a total of at least the
    Fibonacci number of `d + 2`, and the Fibonacci numbers themselves reach it: then the debt of
    the depth limit can leave its 32 bits. */
module HufDepth {
  import opened Bits
  import opened Counts
  import opened HufHeight
  import opened HufTree

  function Fib(n: nat): nat { if n < 2 then n else Fib(n - 1) + Fib(n - 2) }

  lemma {:induction false} FibMono(a: nat, b: nat)
    requires a <= b
    ensures Fib(a) <= Fib(b)
  {
    if a < b { FibMono(a, b - 1); }
  }

  lemma {:induction false} FibGrows(n: nat)
    ensures Fib(n + 2) == Fib(n + 1) + Fib(n) && (n >= 1 ==> Fib(n) >= 1) && (n >= 3 ==> Fib(n) >= 2)
  {
    if n >= 2 { FibGrows(n - 1); FibGrows(n - 2); }
  }

  lemma {:induction false} FibSkip(n: nat)
    ensures Fib(n + 11) == 55 * Fib(n) + 89 * Fib(n + 1) && Fib(n + 12) == 89 * Fib(n) + 144 * Fib(n + 1)
  {
    hide Fib;
    FibGrows(n); FibGrows(n + 1); FibGrows(n + 2); FibGrows(n + 3); FibGrows(n + 4); FibGrows(n + 5);
    FibGrows(n + 6); FibGrows(n + 7); FibGrows(n + 8); FibGrows(n + 9); FibGrows(n + 10);
  }

  lemma {:induction false} FibValues()
    ensures Fib(34) == 5_702_887 && Fib(41) == 165_580_141
  {
    assert Fib(0) == 0 && Fib(1) == 1;
    hide Fib;
    FibSkip(0);
    FibSkip(11);
    FibSkip(22);
    FibSkip(29);
    FibSkip(18);
    FibSkip(7);
    FibGrows(0); FibGrows(1); FibGrows(2); FibGrows(3); FibGrows(4); FibGrows(5); FibGrows(6);
  }

  // ---------- the smallest come first ----------

  ghost predicate Falls(leafCount: seq<nat>) { forall i, j :: 0 <= i < j < |leafCount| ==> leafCount[i] >= leafCount[j] }

  ghost predicate Rises(nodeCount: seq<nat>, k: nat)
    requires k <= |nodeCount|
  {
    forall u, v :: 0 <= u < v < k ==> nodeCount[u] <= nodeCount[v]
  }

  /** Everything waiting counts at least `x`. */
  ghost predicate Above(leafCount: seq<nat>, nodeCount: seq<nat>, s: int, v: nat, k: nat, x: nat)
    requires -1 <= s < |leafCount| && v <= k <= |nodeCount|
  {
    (forall i :: 0 <= i <= s ==> leafCount[i] >= x) && (forall u :: v <= u < k ==> nodeCount[u] >= x)
  }

  /** The one that comes first is the smallest, and those left are not smaller. */
  lemma {:induction false} LowLeast(leafCount: seq<nat>, nodeCount: seq<nat>, s: int, v: nat, k: nat, x: nat)
    requires -1 <= s < |leafCount| && v <= k <= |nodeCount| && Waits(s, v, k) && Falls(leafCount) && Rises(nodeCount, k)
    requires Above(leafCount, nodeCount, s, v, k, x)
    ensures var low := Low(leafCount, nodeCount, s, v, k); var q := After(leafCount, nodeCount, s, v, k);
      x <= low && Above(leafCount, nodeCount, q.0, q.1, k, low)
  {
    var low := Low(leafCount, nodeCount, s, v, k);
    assert forall i :: 0 <= i < s ==> leafCount[i] >= leafCount[s];
    assert forall u :: v < u < k ==> nodeCount[u] >= nodeCount[v];
  }

  /** The two counts that node `j` took. */
  ghost function First(leafCount: seq<nat>, nodeCount: seq<nat>, ls: seq<int>, ln: seq<nat>, j: nat): nat
    requires j + 1 < |ls| && j + 1 < |ln| && Greedy(leafCount, nodeCount, ls, ln, j)
  {
    Low(leafCount, nodeCount, ls[j], ln[j], j)
  }

  ghost function Second(leafCount: seq<nat>, nodeCount: seq<nat>, ls: seq<int>, ln: seq<nat>, j: nat): nat
    requires j + 1 < |ls| && j + 1 < |ln| && Greedy(leafCount, nodeCount, ls, ln, j)
  {
    var q := After(leafCount, nodeCount, ls[j], ln[j], j);
    Low(leafCount, nodeCount, q.0, q.1, j)
  }

  /** A node that took two counts of at least `x`. */
  lemma {:induction false} OneNode(leafCount: seq<nat>, nodeCount: seq<nat>, ls: seq<int>, ln: seq<nat>, j: nat, x: nat)
    requires j + 1 < |ls| && j + 1 < |ln| && Greedy(leafCount, nodeCount, ls, ln, j) && Falls(leafCount) && Rises(nodeCount, j)
    requires Above(leafCount, nodeCount, ls[j], ln[j], j, x)
    ensures var a, b := First(leafCount, nodeCount, ls, ln, j), Second(leafCount, nodeCount, ls, ln, j);
      x <= a <= b && nodeCount[j] == a + b && Above(leafCount, nodeCount, ls[j + 1], ln[j + 1], j + 1, b)
  {
    hide Low, After, Rises, Falls;
    LowLeast(leafCount, nodeCount, ls[j], ln[j], j, x);
    var q := After(leafCount, nodeCount, ls[j], ln[j], j);
    LowLeast(leafCount, nodeCount, q.0, q.1, j, First(leafCount, nodeCount, ls, ln, j));
  }

  /** What is taken never gets smaller, so the nodes count more and more. */
  lemma {:induction false} Climb(leafCount: seq<nat>, nodeCount: seq<nat>, ls: seq<int>, ln: seq<nat>, n: nat, j: nat)
    requires AllGreedy(leafCount, nodeCount, ls, ln, n) && j <= n && Falls(leafCount) && |nodeCount| >= n
    ensures Rises(nodeCount, j)
    ensures j >= 1 ==> var a, b := First(leafCount, nodeCount, ls, ln, j - 1), Second(leafCount, nodeCount, ls, ln, j - 1);
      && a <= b && nodeCount[j - 1] == a + b && -1 <= ls[j] < |leafCount| && ln[j] <= j <= |nodeCount|
      && Above(leafCount, nodeCount, ls[j], ln[j], j, b)
    decreases j
  {
    hide Above, First, Second, Falls;
    if j >= 1 {
      Climb(leafCount, nodeCount, ls, ln, n, j - 1);
      var k := j - 1;
      assert Greedy(leafCount, nodeCount, ls, ln, k);
      if k == 0 {
        AboveNothing(leafCount, nodeCount, ls[0], ln[0], 0);
        OneNode(leafCount, nodeCount, ls, ln, 0, 0);
      } else {
        OneNode(leafCount, nodeCount, ls, ln, k, Second(leafCount, nodeCount, ls, ln, k - 1));
      }
    }
  }

  lemma {:induction false} AboveNothing(leafCount: seq<nat>, nodeCount: seq<nat>, s: int, v: nat, k: nat)
    requires -1 <= s < |leafCount| && v <= k <= |nodeCount|
    ensures Above(leafCount, nodeCount, s, v, k, 0)
  {
  }

  /** Later nodes take larger counts. */
  lemma {:induction false} PicksRise(leafCount: seq<nat>, nodeCount: seq<nat>, ls: seq<int>, ln: seq<nat>, n: nat, j: nat, k: nat)
    requires AllGreedy(leafCount, nodeCount, ls, ln, n) && j < k < n && Falls(leafCount) && |nodeCount| >= n
    ensures Greedy(leafCount, nodeCount, ls, ln, j) && Greedy(leafCount, nodeCount, ls, ln, k)
    ensures Second(leafCount, nodeCount, ls, ln, j) <= First(leafCount, nodeCount, ls, ln, k)
    decreases k
  {
    hide Above, First, Second, Greedy, Falls, Rises;
    assert Greedy(leafCount, nodeCount, ls, ln, j) && Greedy(leafCount, nodeCount, ls, ln, k - 1) && Greedy(leafCount, nodeCount, ls, ln, k);
    Climb(leafCount, nodeCount, ls, ln, n, k);
    OneNode(leafCount, nodeCount, ls, ln, k, Second(leafCount, nodeCount, ls, ln, k - 1));
    if j < k - 1 { PicksRise(leafCount, nodeCount, ls, ln, n, j, k - 1); }
  }

  /** A node taken by node `k` is at most the second of its two, and `k` counts the other one,
      too. */
  lemma {:induction false} ChildCount(leafCount: seq<nat>, nodeCount: seq<nat>, ls: seq<int>, ln: seq<nat>, n: nat, v: nat, k: nat)
    requires AllGreedy(leafCount, nodeCount, ls, ln, n) && k < n && ln[k] <= v < ln[k + 1] && Falls(leafCount) && |nodeCount| >= n
    ensures Greedy(leafCount, nodeCount, ls, ln, k) && v < k
    ensures nodeCount[v] <= Second(leafCount, nodeCount, ls, ln, k)
    ensures nodeCount[v] + First(leafCount, nodeCount, ls, ln, k) <= nodeCount[k]
  {
    hide Above, Rises, Falls;
    Climb(leafCount, nodeCount, ls, ln, n, k + 1);
    assert Greedy(leafCount, nodeCount, ls, ln, k);
  }

  // ---------- a deep tree counts much ----------

  /** The nodes above the rarest symbol, from below. */
  ghost function Up(np: seq<nat>, j: nat): nat {
    if j == 0 then 0 else var v := Up(np, j - 1); if v < |np| then np[v] else 0
  }

  /** The `j`-th node above the rarest symbol counts at least the Fibonacci number of `j + 3`. */
  lemma {:induction false} ChainCount(leafCount: seq<nat>, nodeCount: seq<nat>, lp: seq<nat>, np: seq<nat>, ls: seq<int>, ln: seq<nat>, lb: seq<nat>, nb: seq<nat>, n: nat, j: nat)
    requires n >= 2 && |leafCount| == |nodeCount| == n && Built(lp, np, ls, ln, n, n - 1) && Depths(lp, np, lb, nb, n)
    requires AllGreedy(leafCount, nodeCount, ls, ln, n - 1) && Falls(leafCount) && forall i :: 0 <= i < n ==> leafCount[i] >= 1
    requires j < lb[n - 1]
    ensures Up(np, j) <= n - 2 && nb[Up(np, j)] == lb[n - 1] - 1 - j && Greedy(leafCount, nodeCount, ls, ln, Up(np, j))
    ensures nodeCount[Up(np, j)] >= Fib(j + 3) && Second(leafCount, nodeCount, ls, ln, Up(np, j)) >= Fib(j + 2)
    decreases j
  {
    hide Above, Rises, First, Second, Greedy, Built, Depths;
    if j == 0 {
      RarestTaken(leafCount, nodeCount, lp, np, ls, ln, lb, nb, n);
      assert Fib(2) == 1 && Fib(3) == 2;
    } else {
      ChainCount(leafCount, nodeCount, lp, np, ls, ln, lb, nb, n, j - 1);
      var v := Up(np, j - 1);
      DepthAbove(lp, np, ls, ln, lb, nb, n, v);
      var k := np[v];
      ChildCount(leafCount, nodeCount, ls, ln, n - 1, v, k);
      PicksRise(leafCount, nodeCount, ls, ln, n - 1, v, k);
      assert Fib(j + 3) == Fib(j + 2) + Fib(j + 1);
    }
  }

  lemma {:induction false} DepthAbove(lp: seq<nat>, np: seq<nat>, ls: seq<int>, ln: seq<nat>, lb: seq<nat>, nb: seq<nat>, n: nat, v: nat)
    requires n >= 2 && Built(lp, np, ls, ln, n, n - 1) && Depths(lp, np, lb, nb, n) && v <= n - 2 && nb[v] > 0
    ensures |np| == n && v < np[v] <= n - 2 && nb[v] == nb[np[v]] + 1 && ln[np[v]] <= v < ln[np[v] + 1]
  {
    FirstQueue(lp, np, ls, ln, n);
    NodeParentOf(lp, np, ls, ln, n, 0, v);
  }

  /** The first node takes the rarest symbol. */
  lemma {:induction false} RarestTaken(leafCount: seq<nat>, nodeCount: seq<nat>, lp: seq<nat>, np: seq<nat>, ls: seq<int>, ln: seq<nat>, lb: seq<nat>, nb: seq<nat>, n: nat)
    requires n >= 2 && |leafCount| == |nodeCount| == n && Built(lp, np, ls, ln, n, n - 1) && Depths(lp, np, lb, nb, n)
    requires AllGreedy(leafCount, nodeCount, ls, ln, n - 1) && forall i :: 0 <= i < n ==> leafCount[i] >= 1
    ensures nb[0] == lb[n - 1] - 1 && Greedy(leafCount, nodeCount, ls, ln, 0)
    ensures nodeCount[0] >= 2 && Second(leafCount, nodeCount, ls, ln, 0) >= 1
  {
    FirstQueue(lp, np, ls, ln, n);
    assert Took(lp, np, ls, ln, 0);
    assert Greedy(leafCount, nodeCount, ls, ln, 0);
    assert lp[n - 1] == 0;
  }

  lemma {:induction false} RootOnly(lp: seq<nat>, np: seq<nat>, lb: seq<nat>, nb: seq<nat>, n: nat, v: nat)
    requires Depths(lp, np, lb, nb, n) && v <= n - 2
    ensures v < n - 2 ==> nb[v] > 0
  {
    assert v < n - 2 ==> np[v] < n - 1;
  }

  /** A depth of `d` needs a total of at least the Fibonacci number of `d + 2`. */
  lemma {:induction false} DepthNeeds(leafCount: seq<nat>, nodeCount: seq<nat>, lp: seq<nat>, np: seq<nat>, ls: seq<int>, ln: seq<nat>, lb: seq<nat>, nb: seq<nat>, n: nat)
    requires n >= 2 && |leafCount| == |nodeCount| == n && Built(lp, np, ls, ln, n, n - 1) && Depths(lp, np, lb, nb, n)
    requires AllGreedy(leafCount, nodeCount, ls, ln, n - 1) && Falls(leafCount) && forall i :: 0 <= i < n ==> leafCount[i] >= 1
    requires nodeCount[n - 2] == Sum(leafCount)
    ensures Fib(lb[n - 1] + 2) <= Sum(leafCount)
  {
    hide Above, Rises, First, Second, Greedy, Built, Sum, Fib, Up;
    assert lp[n - 1] < n - 1;
    var j := lb[n - 1] - 1;
    ChainCount(leafCount, nodeCount, lp, np, ls, ln, lb, nb, n, j);
    var v := Up(np, j);
    RootOnly(lp, np, lb, nb, n, v);
  }

  /** A tree with everything that made it: counts and depths of its symbols, counts and depths of
      its nodes, parents, and the queues before each node. */
  datatype Growth = Growth(leafCount: seq<nat>, depths: seq<nat>, nodeCount: seq<nat>, nodeBits: seq<nat>,
                           leafParent: seq<nat>, nodeParent: seq<nat>, leafQueue: seq<int>, nodeQueue: seq<nat>)

  /** The tree is the one that the counts give. */
  ghost predicate Grown(g: Growth) {
    var n := |g.leafCount|;
    && n >= 2 && |g.nodeCount| == n && Falls(g.leafCount) && (forall i :: 0 <= i < n ==> g.leafCount[i] >= 1)
    && Built(g.leafParent, g.nodeParent, g.leafQueue, g.nodeQueue, n, n - 1)
    && Depths(g.leafParent, g.nodeParent, g.depths, g.nodeBits, n)
    && AllGreedy(g.leafCount, g.nodeCount, g.leafQueue, g.nodeQueue, n - 1) && g.nodeCount[n - 2] == Sum(g.leafCount)
  }

  /** Below this total, no tree is deeper than 31. */
  const SAFE_TOTAL := 5_702_887

  lemma {:induction false} SafeTotal(depth: nat, total: nat)
    requires Fib(depth + 2) <= total < SAFE_TOTAL
    ensures depth <= 31
  {
    hide Fib;
    FibValues();
    if depth > 31 { FibMono(34, depth + 2); }
  }

  // ---------- the Fibonacci numbers as counts ----------

  /** The rarest two symbols count one, and every other as much as the two after it. */
  function FibCounts(n: nat): (r: seq<nat>)
    ensures |r| == n && forall i :: 0 <= i < n ==> r[i] == Fib(n - i)
  {
    seq(n, i requires 0 <= i < n => Fib(n - i))
  }

  /** One code of each length, and two of the longest. */
  ghost function FibLengths(n: nat): (r: seq<nat>)
    requires n >= 1
    ensures |r| == n && forall i :: 0 <= i < n ==> r[i] == if i < n - 1 then i + 1 else n - 1
  {
    seq(n, i requires 0 <= i < n => if i < n - 1 then i + 1 else n - 1)
  }

  /** One node waits: it is taken together with one symbol, unless the next two symbols are rarer. */
  lemma {:induction false} TakesBoth(leafCount: seq<nat>, nodeCount: seq<nat>, ls: seq<int>, ln: seq<nat>, j: nat)
    requires 1 <= j && j + 1 < |ls| && j + 1 < |ln| && Greedy(leafCount, nodeCount, ls, ln, j)
    requires ls[j] >= 0 && ln[j] == j - 1 && (ls[j] == 0 || leafCount[ls[j] - 1] >= nodeCount[j - 1])
    ensures ls[j + 1] == ls[j] - 1 && ln[j + 1] == j && nodeCount[j] == leafCount[ls[j]] + nodeCount[j - 1]
  {
  }

  /** Every node but the first takes one symbol and the node before it. */
  lemma {:induction false} FibQueues(nodeCount: seq<nat>, ls: seq<int>, ln: seq<nat>, n: nat, j: nat)
    requires n >= 2 && |nodeCount| == n && AllGreedy(FibCounts(n), nodeCount, ls, ln, n - 1) && ls[0] == n - 1 && ln[0] == 0 && 1 <= j <= n - 1
    ensures ls[j] == n - 2 - j && ln[j] == j - 1 && nodeCount[j - 1] == Fib(j + 3) - 1
    decreases j
  {
    hide Fib;
    assert Greedy(FibCounts(n), nodeCount, ls, ln, j - 1);
    FibSmall();
    if j > 1 {
      FibQueues(nodeCount, ls, ln, n, j - 1);
      hide Greedy;
      FibGrows(j + 1);
      TakesBoth(FibCounts(n), nodeCount, ls, ln, j - 1);
    }
  }

  lemma {:induction false} FibSmall()
    ensures Fib(1) == 1 && Fib(2) == 1 && Fib(3) == 2 && Fib(4) == 3
  {
  }

  /** Their tree is a chain. */
  lemma {:induction false} FibDepths(nodeCount: seq<nat>, lp: seq<nat>, np: seq<nat>, ls: seq<int>, ln: seq<nat>, lb: seq<nat>, nb: seq<nat>, n: nat)
    requires n >= 2 && |nodeCount| == n && Built(lp, np, ls, ln, n, n - 1) && Depths(lp, np, lb, nb, n)
    requires AllGreedy(FibCounts(n), nodeCount, ls, ln, n - 1)
    ensures lb == FibLengths(n)
  {
    hide AllGreedy, Greedy, Took, Built, FibCounts;
    FirstQueue(lp, np, ls, ln, n);
    forall j | 1 <= j <= n - 1 ensures ls[j] == n - 2 - j && ln[j] == j - 1 { FibQueues(nodeCount, ls, ln, n, j); }
    forall v | 0 <= v < n - 2 ensures np[v] == v + 1 { ChainParent(lp, np, ls, ln, n, v); }
    forall v | 0 <= v < n - 1 ensures nb[v] == n - 2 - v { ChainDepth(np, nb, n, v); }
    forall i | 0 <= i < n ensures lb[i] == if i < n - 1 then i + 1 else n - 1 {
      ParentOf(lp, np, ls, ln, n, 0, i);
      assert i <= n - 2 ==> lp[i] == n - 2 - i;
    }
  }

  lemma {:induction false} ChainParent(lp: seq<nat>, np: seq<nat>, ls: seq<int>, ln: seq<nat>, n: nat, v: nat)
    requires n >= 2 && Built(lp, np, ls, ln, n, n - 1) && v < n - 2 && |ln| == n && (forall j :: 1 <= j <= n - 1 ==> ln[j] == j - 1)
    ensures np[v] == v + 1
  {
    assert Took(lp, np, ls, ln, v + 1);
  }

  lemma {:induction false} ChainDepth(np: seq<nat>, nb: seq<nat>, n: nat, v: nat)
    requires n >= 2 && |np| == |nb| == n && nb[n - 2] == 0 && v <= n - 2
    requires forall u :: 0 <= u < n - 2 ==> np[u] == u + 1 && nb[u] == nb[np[u]] + 1
    ensures nb[v] == n - 2 - v
    decreases n - v
  {
    if v < n - 2 {
      assert np[v] == v + 1;
      ChainDepth(np, nb, n, v + 1);
    }
  }

  /** What cutting the first `j` codes of the chain costs. */
  lemma {:induction false} FibExcessPart(n: nat, max: nat, j: nat)
    requires n >= 1 && max <= n - 1 && j <= n - 1 && AtMost(FibLengths(n)[..j], n - 1)
    ensures Excess(FibLengths(n)[..j], max, n - 1) ==
      if j <= max then 0 else (j - max - 1) * Pow2(n - 1 - max) + Pow2(n - 1 - j)
  {
    hide Pow2;
    if j > 0 {
      var b := FibLengths(n)[..j];
      assert b[..j - 1] == FibLengths(n)[..j - 1];
      FibExcessPart(n, max, j - 1);
      HalfUnits(n - 1, j - 1);
      if j > max + 1 { OneMoreTimes(j - max - 2, Pow2(n - 1 - max)); }
    }
  }

  /** The chain owes as many units as it is too deep. */
  lemma {:induction false} FibExcess(n: nat, max: nat)
    requires n >= 2 && 1 <= max < n - 1
    ensures AtMost(FibLengths(n), n - 1) && Excess(FibLengths(n), max, n - 1) == (n - 1 - max) * Pow2(n - 1 - max)
  {
    hide Pow2;
    var b, k := FibLengths(n), n - 1 - max;
    assert b[..|b| - 1] == FibLengths(n)[..n - 1];
    FibExcessPart(n, max, n - 1);
    assert Pow2(0) == 1 by { PowZero(); }
    assert n - 1 - max - 1 == k - 1;
    OneMoreTimes(k - 1, Pow2(k));
    assert Excess(b, max, n - 1) == Excess(b[..|b| - 1], max, n - 1) + (Pow2(k) - Pow2(0));
  }

  /** So its debt leaves 32 bits exactly from 27 bits too many on. */
  lemma {:induction false} FibFits(n: nat, max: nat)
    requires n >= 2 && 1 <= max < n - 1
    ensures AtMost(FibLengths(n), n - 1) && (Fits(FibLengths(n), max) <==> n - 1 - max < 27)
  {
    hide Pow2, Excess;
    FibExcess(n, max);
    var b, k := FibLengths(n), n - 1 - max;
    assert b[|b| - 1] == n - 1 && Excess(b, max, b[|b| - 1]) == k * Pow2(k);
    assert Pow2(26) == 0x400_0000 && Pow2(27) == 0x800_0000 by { PowNear(); }
    if k < 27 {
      Pow2Mono(k, 26);
      MulMono(k, 26, Pow2(k));
    } else {
      Pow2Mono(27, k);
      MulMono(27, k, Pow2(k));
    }
  }

  lemma {:induction false} PowNear()
    ensures Pow2(26) == 0x400_0000 && Pow2(27) == 0x800_0000
  {
    assert Pow2(8) == 256 && Pow2(2) == 4;
    Pow2Add(8, 8);
    Pow2Add(16, 8);
    Pow2Add(24, 2);
    assert Pow2(27) == 2 * Pow2(26);
  }

  lemma {:induction false} FibSum(n: nat)
    ensures Sum(FibCounts(n)) + 1 == Fib(n + 2)
  {
    if n > 0 {
      FibSum(n - 1);
      var c := FibCounts(n);
      SumFirst(c);
      assert c[1..] == FibCounts(n - 1);
      FibGrows(n);
    } else {
      assert FibCounts(0) == [];
    }
  }

  lemma {:induction false} FibFalls(n: nat)
    ensures Falls(FibCounts(n))
  {
    hide Fib;
    var c := FibCounts(n);
    forall i, j | 0 <= i < j < n ensures c[i] >= c[j] { FibMono(n - j, n - i); }
  }

  /** 39 symbols counting the Fibonacci numbers pass every test on the counts, and their tree
      owes more than the register holds at the default limit. */
  lemma {:induction false} FibonacciWraps(g: Growth)
    requires Grown(g) && g.leafCount == FibCounts(39)
    ensures Sum(FibCounts(39)) == 165_580_140 < BARRIER
    ensures g.depths == FibLengths(39) && AtMost(g.depths, g.depths[38]) && !Fits(g.depths, 11)
  {
    hide Built, Depths, AllGreedy, Sum, Fits, Fib;
    FibDepths(g.nodeCount, g.leafParent, g.nodeParent, g.leafQueue, g.nodeQueue, g.depths, g.nodeBits, 39);
    FibFits(39, 11);
    FibSum(39);
    FibValues();
  }
}
