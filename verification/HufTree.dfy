/** The Huffman tree of `HUF_buildCTable`: two queues, one of symbols by falling count and one
    of the nodes made so far, give every node its parent; depths follow from the root. */
module HufTree {
  import opened Bits
  import opened Counts
  import opened HufHeight

  const BARRIER := 0x4000_0000
  const STRONG_BARRIER := 0x8000_0000

  // ---------- the two queues ----------

  /** What the queues looked like before node `j` was made: symbols up to `ls[j]` and nodes
      from `ln[j]` on were waiting. Node `j` took two of them. */
  ghost predicate Took(leafParent: seq<nat>, nodeParent: seq<nat>, ls: seq<int>, ln: seq<nat>, j: nat)
    requires j + 1 < |ls| && j + 1 < |ln|
  {
    && -1 <= ls[j + 1] <= ls[j] < |leafParent| && ln[j] <= ln[j + 1] <= j && j <= |nodeParent|
    && (ls[j] - ls[j + 1]) + (ln[j + 1] - ln[j]) == 2
    && (forall i :: ls[j + 1] < i <= ls[j] ==> leafParent[i] == j)
    && (forall v :: ln[j] <= v < ln[j + 1] ==> nodeParent[v] == j)
  }

  /** The first `k` nodes are made. */
  ghost predicate Built(leafParent: seq<nat>, nodeParent: seq<nat>, ls: seq<int>, ln: seq<nat>, n: nat, k: nat) {
    && |leafParent| == n && |nodeParent| == n && |ls| == k + 1 && |ln| == k + 1 && k < n
    && ls[0] == n - 1 && ln[0] == 0
    && forall j :: 0 <= j < k ==> Took(leafParent, nodeParent, ls, ln, j)
  }

  /** How many are waiting. */
  lemma {:induction false} Waiting(leafParent: seq<nat>, nodeParent: seq<nat>, ls: seq<int>, ln: seq<nat>, n: nat, k: nat, j: nat)
    requires Built(leafParent, nodeParent, ls, ln, n, k) && j <= k
    ensures (ls[j] + 1) + (j - ln[j]) == n - j && -1 <= ls[j] < n && ln[j] <= j
    decreases j
  {
    if j > 0 {
      Waiting(leafParent, nodeParent, ls, ln, n, k, j - 1);
      assert Took(leafParent, nodeParent, ls, ln, j - 1);
    }
  }

  /** Nothing that was taken before is among those waiting now. */
  lemma {:induction false} QueuesMove(leafParent: seq<nat>, nodeParent: seq<nat>, ls: seq<int>, ln: seq<nat>, n: nat, k: nat, a: nat, b: nat)
    requires Built(leafParent, nodeParent, ls, ln, n, k) && a <= b <= k
    ensures ls[b] <= ls[a] && ln[a] <= ln[b]
    decreases b - a
  {
    if a < b {
      assert Took(leafParent, nodeParent, ls, ln, b - 1);
      QueuesMove(leafParent, nodeParent, ls, ln, n, k, a, b - 1);
    }
  }

  ghost predicate Waits(s: int, v: nat, k: nat) { s >= 0 || v < k }

  /** Symbols up to `s` and nodes from `v` to `k` wait. A symbol comes first if it is rarer than
      the first node, or if no node waits. */
  ghost predicate LeafFirst(leafCount: seq<nat>, nodeCount: seq<nat>, s: int, v: nat, k: nat)
    requires -1 <= s < |leafCount| && v <= k <= |nodeCount|
  {
    s >= 0 && (v == k || leafCount[s] < nodeCount[v])
  }

  /** The count of the one that comes first. */
  ghost function Low(leafCount: seq<nat>, nodeCount: seq<nat>, s: int, v: nat, k: nat): nat
    requires -1 <= s < |leafCount| && v <= k <= |nodeCount| && Waits(s, v, k)
  {
    if LeafFirst(leafCount, nodeCount, s, v, k) then leafCount[s] else nodeCount[v]
  }

  /** What waits after it was taken. */
  ghost function After(leafCount: seq<nat>, nodeCount: seq<nat>, s: int, v: nat, k: nat): (r: (int, nat))
    requires -1 <= s < |leafCount| && v <= k <= |nodeCount| && Waits(s, v, k)
    ensures -1 <= r.0 <= s && v <= r.1 <= k && (s - r.0) + (r.1 - v) == 1
  {
    if LeafFirst(leafCount, nodeCount, s, v, k) then (s - 1, v) else (s, v + 1)
  }

  /** Node `j` took the one that came first, twice, and counts what both count. */
  ghost predicate Greedy(leafCount: seq<nat>, nodeCount: seq<nat>, ls: seq<int>, ln: seq<nat>, j: nat)
    requires j + 1 < |ls| && j + 1 < |ln|
  {
    && -1 <= ls[j] < |leafCount| && ln[j] <= j < |nodeCount| && Waits(ls[j], ln[j], j)
    && var q := After(leafCount, nodeCount, ls[j], ln[j], j);
    && Waits(q.0, q.1, j) && (ls[j + 1], ln[j + 1]) == After(leafCount, nodeCount, q.0, q.1, j)
    && nodeCount[j] == Low(leafCount, nodeCount, ls[j], ln[j], j) + Low(leafCount, nodeCount, q.0, q.1, j)
  }

  ghost predicate AllGreedy(leafCount: seq<nat>, nodeCount: seq<nat>, ls: seq<int>, ln: seq<nat>, k: nat) {
    k < |ls| && k < |ln| && forall j :: 0 <= j < k ==> Greedy(leafCount, nodeCount, ls, ln, j)
  }

  /** The counts of all that wait. */
  ghost function Queued(leafCount: seq<nat>, nodeCount: seq<nat>, lowS: int, lowN: nat, k: nat): nat
    requires -1 <= lowS < |leafCount| && lowN <= k <= |nodeCount|
  {
    Sum(leafCount[..lowS + 1]) + Sum(nodeCount[lowN..k])
  }

  lemma {:induction false} QueuedParts(leafCount: seq<nat>, nodeCount: seq<nat>, lowS: int, lowN: nat, k: nat)
    requires -1 <= lowS < |leafCount| && lowN <= k <= |nodeCount|
    ensures lowS >= 0 ==> Queued(leafCount, nodeCount, lowS, lowN, k) == leafCount[lowS] + Queued(leafCount, nodeCount, lowS - 1, lowN, k)
    ensures lowN < k ==> Queued(leafCount, nodeCount, lowS, lowN, k) == nodeCount[lowN] + Queued(leafCount, nodeCount, lowS, lowN + 1, k)
  {
    if lowS >= 0 { assert leafCount[..lowS + 1][..lowS] == leafCount[..lowS]; }
    if lowN < k {
      SumFirst(nodeCount[lowN..k]);
      assert nodeCount[lowN..k][1..] == nodeCount[lowN + 1..k];
    }
  }

  /** `huffNode[lowS].count < huffNode[lowN].count ? lowS-- : lowN++` */
  method Pick(leafCount: seq<nat>, nodeCount: seq<nat>, lowS0: int, lowN0: nat, k: nat) returns (fromLeaves: bool, lowS: int, lowN: nat, count: nat)
    requires -1 <= lowS0 < |leafCount| && lowN0 <= k < |nodeCount| && nodeCount[k] == BARRIER
    requires Queued(leafCount, nodeCount, lowS0, lowN0, k) < BARRIER && (lowS0 >= 0 || lowN0 < k)
    ensures fromLeaves ==> lowS0 >= 0 && lowS == lowS0 - 1 && lowN == lowN0
    ensures !fromLeaves ==> lowN0 < k && lowN == lowN0 + 1 && lowS == lowS0
    ensures count == Low(leafCount, nodeCount, lowS0, lowN0, k) && (lowS, lowN) == After(leafCount, nodeCount, lowS0, lowN0, k)
    ensures Queued(leafCount, nodeCount, lowS, lowN, k) + count == Queued(leafCount, nodeCount, lowS0, lowN0, k)
  {
    QueuedParts(leafCount, nodeCount, lowS0, lowN0, k);
    var s := if lowS0 == -1 then STRONG_BARRIER else leafCount[lowS0];
    if s < nodeCount[lowN0] {
      return true, lowS0 - 1, lowN0, s;
    }
    return false, lowS0, lowN0 + 1, nodeCount[lowN0];
  }

  /** Node `k` takes one from a queue. */
  method TakeOne(leafParent: array<nat>, nodeParent: array<nat>, leafCount: seq<nat>, nodeCount: seq<nat>, lowS0: int, lowN0: nat, k: nat)
    returns (lowS: int, lowN: nat, count: nat)
    requires leafParent.Length == |leafCount| && nodeParent.Length == |nodeCount| && leafParent != nodeParent
    requires -1 <= lowS0 < |leafCount| && lowN0 <= k < |nodeCount| && nodeCount[k] == BARRIER
    requires Queued(leafCount, nodeCount, lowS0, lowN0, k) < BARRIER && (lowS0 >= 0 || lowN0 < k)
    modifies leafParent, nodeParent
    ensures -1 <= lowS <= lowS0 && lowN0 <= lowN <= k && (lowS0 - lowS) + (lowN - lowN0) == 1
    ensures count == Low(leafCount, nodeCount, lowS0, lowN0, k) && (lowS, lowN) == After(leafCount, nodeCount, lowS0, lowN0, k)
    ensures Queued(leafCount, nodeCount, lowS, lowN, k) + count == Queued(leafCount, nodeCount, lowS0, lowN0, k)
    ensures forall i :: 0 <= i < leafParent.Length ==> leafParent[i] == if lowS < i <= lowS0 then k else old(leafParent[i])
    ensures forall v :: 0 <= v < nodeParent.Length ==> nodeParent[v] == if lowN0 <= v < lowN then k else old(nodeParent[v])
  {
    var fromLeaves;
    fromLeaves, lowS, lowN, count := Pick(leafCount, nodeCount, lowS0, lowN0, k);
    if fromLeaves { leafParent[lowS0] := k; } else { nodeParent[lowN0] := k; }
  }

  /** Node `k` takes two; the queues move on. */
  lemma {:induction false} BuiltMore(lp0: seq<nat>, np0: seq<nat>, lp: seq<nat>, np: seq<nat>, ls: seq<int>, ln: seq<nat>, n: nat, k: nat, lowS: int, lowN: nat)
    requires Built(lp0, np0, ls, ln, n, k) && |lp| == n && |np| == n && k + 1 < n
    requires -1 <= lowS <= ls[k] && ln[k] <= lowN <= k && (ls[k] - lowS) + (lowN - ln[k]) == 2
    requires forall i :: 0 <= i < n ==> lp[i] == if lowS < i <= ls[k] then k else lp0[i]
    requires forall v :: 0 <= v < n ==> np[v] == if ln[k] <= v < lowN then k else np0[v]
    ensures Built(lp, np, ls + [lowS], ln + [lowN], n, k + 1)
  {
    var ls', ln' := ls + [lowS], ln + [lowN];
    forall j | 0 <= j < k + 1 ensures Took(lp, np, ls', ln', j) {
      Waiting(lp0, np0, ls, ln, n, k, k);
      if j < k {
        assert Took(lp0, np0, ls, ln, j);
        QueuesMove(lp0, np0, ls, ln, n, k, j + 1, k);
      }
    }
  }

  /** `create parents`: every node takes the two smallest counts waiting, a node before a symbol
      of the same count. After it node `n - 2` is the root and counts everything, and every other
      node and every symbol has its parent. */
  method CreateParents(leafCount: seq<nat>, leafParent: array<nat>, nodeParent: array<nat>)
    returns (ghost ls: seq<int>, ghost ln: seq<nat>, ghost counted: seq<nat>)
    requires |leafCount| >= 2 && leafParent.Length == nodeParent.Length == |leafCount| && leafParent != nodeParent
    requires Sum(leafCount) < BARRIER
    modifies leafParent, nodeParent
    ensures Built(leafParent[..], nodeParent[..], ls, ln, |leafCount|, |leafCount| - 1)
    ensures |counted| == |leafCount| && AllGreedy(leafCount, counted, ls, ln, |leafCount| - 1)
    ensures counted[|leafCount| - 2] == Sum(leafCount)
  {
    hide Sum, Built, Greedy, Low, After, Queued;
    var n := |leafCount|;
    var nodeCount: seq<nat> := seq(n, _ => BARRIER);
    var lowS: int, lowN: nat, k: nat := n - 1, 0, 0;
    ls, ln := [n - 1], [0];
    QueuedAtFirst(leafCount, nodeCount);
    BuiltNone(leafParent[..], nodeParent[..], n);
    while k <= n - 2
      invariant k <= n - 1 && |nodeCount| == n && (forall j :: k <= j < n ==> nodeCount[j] == BARRIER)
      invariant -1 <= lowS < n && lowN <= k && lowS + 1 + (k - lowN) == n - k
      invariant Queued(leafCount, nodeCount, lowS, lowN, k) == Sum(leafCount)
      invariant |ls| == k + 1 && |ln| == k + 1 && lowS == ls[k] && lowN == ln[k] && Built(leafParent[..], nodeParent[..], ls, ln, n, k)
      invariant AllGreedy(leafCount, nodeCount, ls, ln, k)
    {
      ghost var lp0, np0 := leafParent[..], nodeParent[..];
      ghost var nc0 := nodeCount;
      var first, second;
      ghost var lowS0, lowN0 := lowS, lowN;
      lowS, lowN, first := TakeOne(leafParent, nodeParent, leafCount, nodeCount, lowS, lowN, k);
      ghost var lowS1, lowN1 := lowS, lowN;
      lowS, lowN, second := TakeOne(leafParent, nodeParent, leafCount, nodeCount, lowS, lowN, k);
      BuiltMore(lp0, np0, leafParent[..], nodeParent[..], ls, ln, n, k, lowS, lowN);
      QueuedMore(leafCount, nodeCount, lowS, lowN, k, first + second);
      nodeCount := nodeCount[k := first + second];
      GreedyMore(leafCount, nc0, ls, ln, k, lowS1, lowN1, lowS, lowN, first, second);
      ls, ln := ls + [lowS], ln + [lowN];
      k := k + 1;
    }
    counted := nodeCount;
    LastQueue(leafParent[..], nodeParent[..], ls, ln, n);
    QueuedLast(leafCount, counted);
  }

  /** One node more, and the earlier ones were made as before. */
  lemma {:induction false} GreedyMore(leafCount: seq<nat>, nodeCount: seq<nat>, ls: seq<int>, ln: seq<nat>, k: nat, s1: int, v1: nat, s2: int, v2: nat, first: nat, second: nat)
    requires |ls| == k + 1 && |ln| == k + 1 && -1 <= ls[k] < |leafCount| && ln[k] <= k < |nodeCount| && Waits(ls[k], ln[k], k)
    requires (s1, v1) == After(leafCount, nodeCount, ls[k], ln[k], k) && Waits(s1, v1, k) && (s2, v2) == After(leafCount, nodeCount, s1, v1, k)
    requires first == Low(leafCount, nodeCount, ls[k], ln[k], k) && second == Low(leafCount, nodeCount, s1, v1, k)
    requires AllGreedy(leafCount, nodeCount, ls, ln, k)
    ensures AllGreedy(leafCount, nodeCount[k := first + second], ls + [s2], ln + [v2], k + 1)
  {
    var nc, ls', ln' := nodeCount[k := first + second], ls + [s2], ln + [v2];
    forall j | 0 <= j < k + 1 ensures Greedy(leafCount, nc, ls', ln', j) {
      if j < k { assert Greedy(leafCount, nodeCount, ls, ln, j); }
    }
  }

  lemma {:induction false} QueuedLast(leafCount: seq<nat>, nodeCount: seq<nat>)
    requires |leafCount| == |nodeCount| >= 2
    ensures Queued(leafCount, nodeCount, -1, |nodeCount| - 2, |nodeCount| - 1) == nodeCount[|nodeCount| - 2]
  {
    var n := |nodeCount|;
    assert nodeCount[n - 2..n - 1] == [nodeCount[n - 2]] && leafCount[..0] == [];
    assert [nodeCount[n - 2]][..0] == [];
  }

  lemma {:induction false} BuiltNone(lp: seq<nat>, np: seq<nat>, n: nat)
    requires |lp| == |np| == n >= 1
    ensures Built(lp, np, [n - 1], [0], n, 0)
  {
  }

  lemma {:induction false} QueuedAtFirst(leafCount: seq<nat>, nodeCount: seq<nat>)
    ensures |leafCount| >= 1 ==> Queued(leafCount, nodeCount, |leafCount| - 1, 0, 0) == Sum(leafCount)
  {
    assert leafCount[..|leafCount|] == leafCount;
  }

  lemma {:induction false} QueuedMore(leafCount: seq<nat>, nodeCount: seq<nat>, lowS: int, lowN: nat, k: nat, c: nat)
    requires -1 <= lowS < |leafCount| && lowN <= k < |nodeCount|
    ensures Queued(leafCount, nodeCount[k := c], lowS, lowN, k + 1) == Queued(leafCount, nodeCount, lowS, lowN, k) + c
  {
    var after := nodeCount[k := c][lowN..k + 1];
    assert after[..|after| - 1] == nodeCount[lowN..k];
  }

  // ---------- depths ----------

  /** Depths of nodes and symbols: the root has none, everything else one more than its parent. */
  ghost predicate Depths(leafParent: seq<nat>, nodeParent: seq<nat>, leafBits: seq<nat>, nodeBits: seq<nat>, n: nat) {
    && n >= 2 && |leafParent| == |nodeParent| == |leafBits| == |nodeBits| == n && nodeBits[n - 2] == 0
    && (forall v :: 0 <= v < n - 2 ==> nodeParent[v] < n - 1 && nodeBits[v] == nodeBits[nodeParent[v]] + 1)
    && (forall i :: 0 <= i < n ==> leafParent[i] < n - 1 && leafBits[i] == nodeBits[leafParent[i]] + 1)
  }

  /** In the end only the root waits. */
  lemma {:induction false} LastQueue(leafParent: seq<nat>, nodeParent: seq<nat>, ls: seq<int>, ln: seq<nat>, n: nat)
    requires n >= 2 && Built(leafParent, nodeParent, ls, ln, n, n - 1)
    ensures |ls| == |ln| == n && ls[n - 1] == -1 && ln[n - 1] == n - 2
  {
    Waiting(leafParent, nodeParent, ls, ln, n, n - 1, n - 1);
    assert Took(leafParent, nodeParent, ls, ln, n - 2);
  }

  /** Everything waiting before node `k` was made has a parent from `k` on. */
  lemma {:induction false} ParentOf(leafParent: seq<nat>, nodeParent: seq<nat>, ls: seq<int>, ln: seq<nat>, n: nat, k: nat, i: nat)
    requires n >= 2 && Built(leafParent, nodeParent, ls, ln, n, n - 1) && k <= n - 1 && i < n && i <= ls[k]
    ensures k < n - 1 && k <= leafParent[i] < n - 1 && ls[leafParent[i] + 1] < i <= ls[leafParent[i]]
    decreases n - 1 - k
  {
    LastQueue(leafParent, nodeParent, ls, ln, n);
    if k < n - 1 {
      assert Took(leafParent, nodeParent, ls, ln, k);
      if i <= ls[k + 1] { ParentOf(leafParent, nodeParent, ls, ln, n, k + 1, i); }
    }
  }

  lemma {:induction false} NodeParentOf(leafParent: seq<nat>, nodeParent: seq<nat>, ls: seq<int>, ln: seq<nat>, n: nat, k: nat, v: nat)
    requires n >= 2 && Built(leafParent, nodeParent, ls, ln, n, n - 1) && k <= n - 1 && ln[k] <= v < n - 2
    ensures k < n - 1 && k <= nodeParent[v] < n - 1 && v < nodeParent[v] && ln[nodeParent[v]] <= v < ln[nodeParent[v] + 1]
    decreases n - 1 - k
  {
    LastQueue(leafParent, nodeParent, ls, ln, n);
    if k < n - 1 {
      assert Took(leafParent, nodeParent, ls, ln, k);
      if v >= ln[k + 1] { NodeParentOf(leafParent, nodeParent, ls, ln, n, k + 1, v); }
    }
  }

  /** `distribute weights`: from the root down, then to the symbols. */
  method Distribute(leafParent: array<nat>, nodeParent: array<nat>, leafBits: array<nat>, ghost ls: seq<int>, ghost ln: seq<nat>, n: nat)
    returns (nodeBits: array<nat>)
    requires n >= 2 && leafParent.Length == nodeParent.Length == leafBits.Length == n && leafBits != leafParent && leafBits != nodeParent
    requires Built(leafParent[..], nodeParent[..], ls, ln, n, n - 1)
    modifies leafBits
    ensures Depths(leafParent[..], nodeParent[..], leafBits[..], nodeBits[..], n)
  {
    hide Built;
    nodeBits := new nat[n](_ => 0);
    ghost var lp, np := leafParent[..], nodeParent[..];
    FirstQueue(lp, np, ls, ln, n);
    var v: int := n - 3;
    while v >= 0
      invariant -1 <= v <= n - 3 && nodeBits[n - 2] == 0
      invariant forall u :: v < u < n - 2 ==> u < np[u] < n - 1 && nodeBits[u] == nodeBits[np[u]] + 1
    {
      NodeParentOf(lp, np, ls, ln, n, 0, v);
      nodeBits[v] := nodeBits[nodeParent[v]] + 1;
      v := v - 1;
    }
    ghost var nb := nodeBits[..];
    for i := 0 to n
      invariant forall u :: 0 <= u < i ==> lp[u] < n - 1 && leafBits[u] == nb[lp[u]] + 1
      invariant leafParent[..] == lp && nodeParent[..] == np && nodeBits[..] == nb
    {
      ParentOf(lp, np, ls, ln, n, 0, i);
      leafBits[i] := nodeBits[leafParent[i]] + 1;
    }
  }

  lemma {:induction false} FirstQueue(lp: seq<nat>, np: seq<nat>, ls: seq<int>, ln: seq<nat>, n: nat)
    requires n >= 2 && Built(lp, np, ls, ln, n, n - 1)
    ensures |ls| == n && |ln| == n && ls[0] == n - 1 && ln[0] == 0
  {
  }

  // ---------- the code is complete and in order ----------

  /** Later nodes are not deeper. */
  lemma {:induction false} NodesRise(lp: seq<nat>, np: seq<nat>, ls: seq<int>, ln: seq<nat>, lb: seq<nat>, nb: seq<nat>, n: nat, u: nat, v: nat)
    requires n >= 2 && Built(lp, np, ls, ln, n, n - 1) && Depths(lp, np, lb, nb, n) && u <= v <= n - 2
    ensures nb[u] >= nb[v]
    decreases n - u
  {
    if u < v {
      FirstQueue(lp, np, ls, ln, n);
      NodeParentOf(lp, np, ls, ln, n, 0, u);
      if v < n - 2 {
        NodeParentOf(lp, np, ls, ln, n, 0, v);
        if np[u] > np[v] { QueuesMove(lp, np, ls, ln, n, n - 1, np[v] + 1, np[u]); }
        NodesRise(lp, np, ls, ln, lb, nb, n, np[u], np[v]);
      }
    }
  }

  /** Rarer symbols are not shallower. */
  lemma {:induction false} LeavesFall(lp: seq<nat>, np: seq<nat>, ls: seq<int>, ln: seq<nat>, lb: seq<nat>, nb: seq<nat>, n: nat)
    requires n >= 2 && Built(lp, np, ls, ln, n, n - 1) && Depths(lp, np, lb, nb, n)
    ensures Sorted(lb) && forall i :: 0 <= i < n ==> lb[i] >= 1
  {
    FirstQueue(lp, np, ls, ln, n);
    forall i, j | 0 <= i < j < n ensures lb[i] <= lb[j] {
      ParentOf(lp, np, ls, ln, n, 0, i);
      ParentOf(lp, np, ls, ln, n, 0, j);
      if lp[i] < lp[j] { QueuesMove(lp, np, ls, ln, n, n - 1, lp[i] + 1, lp[j]); }
      NodesRise(lp, np, ls, ln, lb, nb, n, lp[j], lp[i]);
    }
  }

  lemma {:induction false} KraftConcat(a: seq<nat>, b: seq<nat>, top: nat)
    requires AtMost(a, top) && AtMost(b, top)
    ensures AtMost(a + b, top) && Kraft(a + b, top) == Kraft(a, top) + Kraft(b, top)
  {
    hide Pow2;
    if b == [] {
      assert a + b == a;
    } else {
      var n := |b| - 1;
      assert (a + b)[..|a| + n] == a + b[..n];
      KraftConcat(a, b[..n], top);
    }
  }

  lemma {:induction false} KraftPart(s: seq<nat>, i: nat, j: nat, k: nat, top: nat)
    requires AtMost(s, top) && i <= j <= k <= |s|
    ensures AtMost(s[i..j], top) && AtMost(s[j..k], top) && AtMost(s[i..k], top)
    ensures Kraft(s[i..k], top) == Kraft(s[i..j], top) + Kraft(s[j..k], top)
  {
    hide Pow2, Kraft;
    assert s[i..k] == s[i..j] + s[j..k];
    KraftConcat(s[i..j], s[j..k], top);
  }

  /** Some equal depths. */
  lemma {:induction false} KraftEqual(s: seq<nat>, d: nat, top: nat)
    requires d <= top && forall i :: 0 <= i < |s| ==> s[i] == d
    ensures AtMost(s, top) && Kraft(s, top) == |s| * Pow2(top - d)
  {
    hide Pow2;
    if s != [] {
      KraftEqual(s[..|s| - 1], d, top);
      OneMoreTimes(|s| - 1, Pow2(top - d));
    }
  }

  /** What waited before node `k` was made fills the whole: symbols and nodes together have
      a Kraft sum of one. */
  lemma {:induction false} QueuesFill(lp: seq<nat>, np: seq<nat>, ls: seq<int>, ln: seq<nat>, lb: seq<nat>, nb: seq<nat>, n: nat, k: nat, top: nat)
    requires n >= 2 && Built(lp, np, ls, ln, n, n - 1) && Depths(lp, np, lb, nb, n) && k <= n - 1
    requires AtMost(lb, top) && AtMost(nb[..n - 1], top)
    ensures -1 <= ls[k] < n && ln[k] <= k <= |nb| && AtMost(lb[..ls[k] + 1], top) && AtMost(nb[ln[k]..k], top)
    ensures Kraft(lb[..ls[k] + 1], top) + Kraft(nb[ln[k]..k], top) == Pow2(top)
    decreases n - 1 - k
  {
    hide Pow2, Kraft;
    LastQueue(lp, np, ls, ln, n);
    Waiting(lp, np, ls, ln, n, n - 1, k);
    assert AtMost(nb[ln[k]..k], top) by { forall v | ln[k] <= v < k ensures nb[v] <= top { assert nb[..n - 1][v] == nb[v]; } }
    if k == n - 1 {
      assert lb[..0] == [] && nb[n - 2..n - 1] == [0];
      RootFills(top);
    } else {
      QueuesFill(lp, np, ls, ln, lb, nb, n, k + 1, top);
      assert Took(lp, np, ls, ln, k);
      ChildDepths(lp, np, ls, ln, lb, nb, n, k, top);
      assert AtMost(nb[..k + 1], top) by { assert nb[..k + 1] == nb[..n - 1][..k + 1]; }
      NodeStep(lb, nb, k, top, ls[k + 1] + 1, ls[k] + 1, ln[k], ln[k + 1]);
    }
  }

  lemma {:induction false} RootFills(top: nat)
    ensures AtMost([], top) && Kraft([], top) == 0 && AtMost([0], top) && Kraft([0], top) == Pow2(top)
  {
    assert [0][..0] == [];
  }

  /** What node `k` took is one deeper. */
  lemma {:induction false} ChildDepths(lp: seq<nat>, np: seq<nat>, ls: seq<int>, ln: seq<nat>, lb: seq<nat>, nb: seq<nat>, n: nat, k: nat, top: nat)
    requires n >= 2 && Built(lp, np, ls, ln, n, n - 1) && Depths(lp, np, lb, nb, n) && k < n - 1 && Took(lp, np, ls, ln, k)
    requires AtMost(lb, top) && AtMost(nb[..n - 1], top)
    ensures |lb| == |nb| == n && -1 <= ls[k + 1] <= ls[k] < n && ln[k] <= ln[k + 1] <= k
    ensures forall i :: ls[k + 1] < i <= ls[k] ==> lb[i] == nb[k] + 1
    ensures forall v :: ln[k] <= v < ln[k + 1] ==> nb[v] == nb[k] + 1
    ensures nb[k] + 1 <= top && (ls[k] - ls[k + 1]) + (ln[k + 1] - ln[k]) == 2
  {
    LastQueue(lp, np, ls, ln, n);
    QueuesMove(lp, np, ls, ln, n, n - 1, k + 1, n - 1);
    forall i | ls[k + 1] < i <= ls[k] ensures lb[i] == nb[k] + 1 { assert lp[i] == k; }
    forall v | ln[k] <= v < ln[k + 1] ensures nb[v] == nb[k] + 1 { assert np[v] == k; }
    if ls[k + 1] < ls[k] { assert lb[ls[k]] <= top; } else { assert nb[ln[k]] == nb[..n - 1][ln[k]] <= top; }
  }

  /** Replacing node `k` by the two it took changes nothing. */
  lemma {:induction false} NodeStep(lb: seq<nat>, nb: seq<nat>, k: nat, top: nat, a: nat, b: nat, c: nat, d: nat)
    requires AtMost(lb, top) && a <= b <= |lb| && c <= d <= k < |nb| && (b - a) + (d - c) == 2 && AtMost(nb[..k + 1], top) && nb[k] + 1 <= top
    requires (forall i :: a <= i < b ==> lb[i] == nb[k] + 1) && (forall v :: c <= v < d ==> nb[v] == nb[k] + 1)
    ensures AtMost(lb[..b], top) && AtMost(lb[..a], top) && AtMost(nb[c..k], top) && AtMost(nb[d..k + 1], top)
    ensures Kraft(lb[..b], top) + Kraft(nb[c..k], top) == Kraft(lb[..a], top) + Kraft(nb[d..k + 1], top)
  {
    hide Pow2, Kraft;
    var nodes := nb[..k + 1];
    KraftPart(lb, 0, a, b, top);
    assert lb[0..a] == lb[..a] && lb[0..b] == lb[..b];
    KraftPart(nodes, c, d, k, top);
    KraftPart(nodes, d, k, k + 1, top);
    assert nodes[c..d] == nb[c..d] && nodes[d..k] == nb[d..k] && nodes[c..k] == nb[c..k] && nodes[d..k + 1] == nb[d..k + 1];
    assert nodes[k..k + 1] == [nb[k]];
    KraftEqual(lb[a..b], nb[k] + 1, top);
    KraftEqual(nb[c..d], nb[k] + 1, top);
    KraftEqual([nb[k]], nb[k], top);
    HalfUnits(top, nb[k]);
    TwoHalves(|lb[a..b]|, |nb[c..d]|, Pow2(top - nb[k] - 1));
  }

  lemma {:induction false} HalfUnits(top: nat, d: nat)
    requires d + 1 <= top
    ensures Pow2(top - d) == 2 * Pow2(top - d - 1)
  {
  }

  lemma {:induction false} TwoHalves(x: int, y: int, h: int)
    requires x + y == 2
    ensures x * h + y * h == 2 * h && 1 * (2 * h) == 2 * h
  {
  }

  /** The depths of the symbols are those of a complete code. */
  lemma {:induction false} TreeComplete(lp: seq<nat>, np: seq<nat>, ls: seq<int>, ln: seq<nat>, lb: seq<nat>, nb: seq<nat>, n: nat)
    requires n >= 2 && Built(lp, np, ls, ln, n, n - 1) && Depths(lp, np, lb, nb, n)
    ensures Complete(lb, lb[n - 1])
  {
    hide Kraft, Pow2;
    var top := lb[n - 1];
    LeavesFall(lp, np, ls, ln, lb, nb, n);
    NodesAbove(lp, np, ls, ln, lb, nb, n);
    FirstQueue(lp, np, ls, ln, n);
    QueuesFill(lp, np, ls, ln, lb, nb, n, 0, top);
    assert lb[..n] == lb && nb[0..0] == [];
    RootFills(top);
  }

  /** Every node lies above the deepest symbol. */
  lemma {:induction false} NodesAbove(lp: seq<nat>, np: seq<nat>, ls: seq<int>, ln: seq<nat>, lb: seq<nat>, nb: seq<nat>, n: nat)
    requires n >= 2 && Built(lp, np, ls, ln, n, n - 1) && Depths(lp, np, lb, nb, n)
    ensures AtMost(nb[..n - 1], lb[n - 1])
  {
    FirstQueue(lp, np, ls, ln, n);
    assert Took(lp, np, ls, ln, 0);
    assert lp[n - 1] == 0;
    forall v | 0 <= v < n - 1 ensures nb[v] <= lb[n - 1] { NodesRise(lp, np, ls, ln, lb, nb, n, 0, v); }
  }
}
