/** What an insertion does to the pages of a B+ tree: which addresses it takes, which pages
    it leaves alone, and that the pages still hold the tree. */
module BtreeInsertPages {
  import opened BtreeItems
  import opened BtreeTree
  import opened BtreeHeap
  import opened BtreeInsert

  // ---------- addresses and leaves of an insertion ----------

  /** The addresses given out between two states of the supply. */
  ghost function Taken(a: nat, b: nat): multiset<nat>
    decreases b
  {
    if a >= b then multiset{} else Taken(a, b - 1) + multiset{b - 1}
  }

  lemma {:induction false} TakenRange(a: nat, b: nat, x: nat)
    ensures Taken(a, b)[x] == if a <= x < b then 1 else 0
    decreases b
  {
    if a < b { TakenRange(a, b - 1, x); assert multiset{b - 1}[x] == if x == b - 1 then 1 else 0; }
  }

  ghost function AfterIds(r: Insertion): multiset<nat> {
    Ids(r.tree) + if r.split.Split? then Ids(r.split.right) else multiset{}
  }

  ghost function AfterLeaves(r: Insertion): seq<nat> {
    Leaves(r.tree) + if r.split.Split? then Leaves(r.split.right) else []
  }

  lemma {:induction false} ChildIds(t: Tree, m: nat, at: nat, child: Tree, key: int, right: Tree, supply: nat)
    requires t.Node? && m >= 4 && at <= |t.keys| <= m && |t.kids| == |t.keys| + 1
    ensures var r := InsertChild(t, m, at, child, key, right, supply);
      && r.tree.id == t.id && r.supply == (if |t.keys| < m then supply else supply + 1)
      && AfterIds(r) == multiset{t.id} + IdsOf(t.kids[..at]) + (Ids(child) + Ids(right)) + IdsOf(t.kids[at + 1..])
                        + (if |t.keys| < m then multiset{} else multiset{supply})
      && AfterLeaves(r) == LeavesOf(t.kids[..at]) + (Leaves(child) + Leaves(right)) + LeavesOf(t.kids[at + 1..])
  {
    hide Ids, IdsOf, Leaves, LeavesOf, CutPoint;
    var r := InsertChild(t, m, at, child, key, right, supply);
    var kids := t.kids[..at] + [child, right] + t.kids[at + 1..];
    IdsParts(t.kids[..at], [child, right], t.kids[at + 1..]);
    IdsTwo(child, right);
    LeavesParts(t.kids[..at], [child, right], t.kids[at + 1..]);
    LeavesTwo(child, right);
    IdsOfNode(r.tree);
    LeavesOfNode(r.tree);
    if |t.keys| == m {
      var x := CutPoint(m, at);
      assert kids == kids[..x + 1] + kids[x + 1..];
      IdsConcat(kids[..x + 1], kids[x + 1..]);
      LeavesConcat(kids[..x + 1], kids[x + 1..]);
      IdsOfNode(r.split.right);
      LeavesOfNode(r.split.right);
      assert IdsOf(kids[..x + 1]) + IdsOf(kids[x + 1..]) == IdsOf(t.kids[..at]) + (Ids(child) + Ids(right)) + IdsOf(t.kids[at + 1..]);
      assert AfterIds(r) == multiset{t.id} + (IdsOf(kids[..x + 1]) + IdsOf(kids[x + 1..])) + multiset{supply};
    }
  }

  lemma {:induction false} LeavesOfNode(t: Tree)
    requires t.Node?
    ensures Leaves(t) == LeavesOf(t.kids)
  {
  }

  lemma {:induction false} TakenMore(a: nat, b: nat)
    requires a <= b
    ensures Taken(a, a) == multiset{} && Taken(a, b + 1) == Taken(a, b) + multiset{b}
  {
  }

  lemma {:induction false} LeafIds(t: Tree, m: nat, k: int, v: int, supply: nat)
    requires m >= 4 && t.Leaf?
    ensures var r := InsertLeaf(t, m, k, v, supply);
      r.tree.id == t.id && r.supply >= supply && AfterIds(r) == Ids(t) + Taken(supply, r.supply)
  {
    hide PutAt, Has, Slot, LastKey, Ids, Taken;
    TakenMore(supply, supply);
    var r := InsertLeaf(t, m, k, v, supply);
    IdsOfLeaf(t);
    IdsOfLeaf(r.tree);
    if r.split.Split? { IdsOfLeaf(r.split.right); }
  }

  lemma {:induction false} IdsOfLeaf(t: Tree)
    requires t.Leaf?
    ensures Ids(t) == multiset{t.id} && Leaves(t) == [t.id]
  {
  }

  /** The node above an insertion that did not split. */
  lemma {:induction false} SameIds(t: Tree, at: nat, child: Tree, extra: multiset<nat>)
    requires t.Node? && at < |t.kids| && Ids(child) == Ids(t.kids[at]) + extra
    ensures Ids(Node(t.id, t.keys, t.kids[at := child])) == Ids(t) + extra
  {
    hide Ids, IdsOf;
    var next := Node(t.id, t.keys, t.kids[at := child]);
    IdsAt(t.kids, at);
    IdsOfNode(t);
    IdsOfNode(next);
    IdsAt(next.kids, at);
    assert next.kids[..at] == t.kids[..at] && next.kids[at + 1..] == t.kids[at + 1..];
  }

  /** The node above one that did. */
  lemma {:induction false} SplitIds(t: Tree, m: nat, at: nat, child: Tree, key: int, right: Tree, supply0: nat, supply: nat)
    requires t.Node? && m >= 4 && at <= |t.keys| <= m && |t.kids| == |t.keys| + 1 && supply0 <= supply
    requires Ids(child) + Ids(right) == Ids(t.kids[at]) + Taken(supply0, supply)
    ensures var r := InsertChild(t, m, at, child, key, right, supply); AfterIds(r) == Ids(t) + Taken(supply0, r.supply)
  {
    hide Ids, IdsOf, Taken, InsertChild, AfterIds, Leaves, LeavesOf;
    ChildIds(t, m, at, child, key, right, supply);
    IdsAt(t.kids, at);
    IdsOfNode(t);
    TakenMore(supply0, supply);
  }

  /** An insertion keeps the address of the node, and adds exactly the addresses it takes. */
  lemma {:induction false} InsertIds(t: Tree, m: nat, level: nat, least: nat, k: int, v: int, supply: nat)
    requires m >= 4 && Shaped(t, m, level, least)
    ensures var r := InsertDescend(t, m, level, least, k, v, supply);
      r.tree.id == t.id && r.supply >= supply && AfterIds(r) == Ids(t) + Taken(supply, r.supply)
    decreases t
  {
    hide Ids, IdsOf, LowerBound, InsertLeaf, InsertChild, Taken;
    if t.Leaf? {
      LeafIds(t, m, k, v, supply);
    } else {
      var at := LowerBound(t.keys, k);
      InsertIds(t.kids[at], m, level - 1, m / 2, k, v, supply);
      var r := InsertDescend(t.kids[at], m, level - 1, m / 2, k, v, supply);
      match r.split
      case NoSplit => SameIds(t, at, r.tree, Taken(supply, r.supply));
      case Split(key, right) =>
        SplitIds(t, m, at, r.tree, key, right, supply, r.supply);
        ChildIds(t, m, at, r.tree, key, right, r.supply);
    }
  }

  // ---------- the pages ----------

  ghost predicate ChainBelow(c: seq<nat>, supply: nat) { forall i :: 0 <= i < |c| ==> c[i] < supply }

  /** A subtree held by the pages, whose leaves stand between `p` and `q` in the chain. */
  ghost predicate Held(cells: Cells, next: Links, prev: Links, head: nat, last: nat, supply: nat, t: Tree, p: seq<nat>, q: seq<nat>) {
    && Rep(cells, t) && Simple(Ids(t)) && BtreeHeap.Below(Ids(t), supply)
    && Linked(next, prev, head, last, supply, p + Leaves(t) + q)
  }

  /** The pages after an insertion below `t`: those of the result, and nothing else changed. */
  ghost predicate Inserted(before: Cells, supply0: nat, cells: Cells, supply: nat, t: Tree, r: Insertion, inserted: bool, key: int, right: nat) {
    && inserted == r.inserted && supply == r.supply && Rep(cells, r.tree)
    && (r.split.NoSplit? ==> right == 0)
    && (r.split.Split? ==> right == r.split.right.id && right != 0 && key == r.split.key && Rep(cells, r.split.right))
    && Outside(before, cells, Ids(t), supply0)
  }

  ghost predicate Linked(next: Links, prev: Links, head: nat, last: nat, supply: nat, c: seq<nat>) {
    Chain(next, prev, head, last, c) && ChainBelow(c, supply)
  }

  /** A position in a leaf page that holds the key. */
  ghost predicate Points(cells: Cells, supply: nat, leaf: nat, at: nat, k: int) {
    leaf < supply && leaf in cells && cells[leaf].LeafCell? && at < |cells[leaf].items| && cells[leaf].items[at].key == k
  }

  lemma {:induction false} OneLeafHeld(cells: Cells, next: Links, prev: Links, n: nat)
    requires n > 0 && n in cells && cells[n] == LeafCell([]) && n in next && next[n] == 0 && n in prev && prev[n] == 0
    ensures Held(cells, next, prev, n, n, n + 1, Leaf(n, []), [], [])
  {
    IdsOfLeaf(Leaf(n, []));
    assert [] + [n] + [] == [n];
    assert NextIs(next, [n], 0) && PrevIs(prev, [n], 0);
  }

  lemma {:induction false} RootNotNull(cells: Cells, next: Links, prev: Links, head: nat, last: nat, supply: nat, t: Tree)
    requires Held(cells, next, prev, head, last, supply, t, [], [])
    ensures t.id != 0
  {
    IdsSelf(t);
  }

  lemma {:induction false} EmptyLeaf(t: Tree, m: nat)
    requires t.Leaf? && t.items == []
    ensures Valid(t, m, 0, 0) && Items(t) == []
  {
  }

  lemma {:induction false} RootLeast(t: Tree, m: nat, lv: nat)
    requires Valid(t, m, lv, 1)
    ensures Valid(t, m, lv, if lv == 0 then 0 else 1)
  {
    ShapedLess(t, m, lv, 1, 0);
  }

  lemma {:induction false} InsertedCount(s: seq<Item>, k: int, v: int)
    ensures |BtreeItems.Insert(s, k, v)| == |s| + if Has(s, k) then 0 else 1
  {
  }

  lemma {:induction false} StillPointsAbove(cells: Cells, cells': Cells, supply: nat, leaf: nat, at: nat, k: int)
    requires Points(cells, supply, leaf, at, k)
    requires forall a :: a in cells && a != supply ==> a in cells' && cells'[a] == cells[a]
    ensures Points(cells', supply + 1, leaf, at, k)
  {
  }

  /** The pages of a new root. */
  lemma {:induction false} NewRoot(before: Cells, after: Cells, supply: nat, key: int, t: Tree, right: Tree)
    requires Rep(before, t) && Rep(before, right) && Simple(Ids(t) + Ids(right)) && BtreeHeap.Below(Ids(t) + Ids(right), supply) && supply >= 1
    requires after == before[supply := NodeCell([key], [t.id, right.id])]
    ensures var n := Node(supply, [key], [t, right]);
      Rep(after, n) && Simple(Ids(n)) && BtreeHeap.Below(Ids(n), supply + 1) && Leaves(n) == Leaves(t) + Leaves(right)
  {
    hide Rep, Ids, IdsOf, Leaves, LeavesOf;
    var n := Node(supply, [key], [t, right]);
    IdsOfNode(n);
    IdsTwo(t, right);
    LeavesOfNode(n);
    LeavesTwo(t, right);
    var ids := Ids(t) + Ids(right);
    assert supply !in ids;
    RepKept(before, after, t);
    RepKept(before, after, right);
    RepNode(after, n);
    forall a ensures Ids(n)[a] <= 1 { assert ids[a] <= 1; }
  }

  /** The pages after an insertion at the root. */
  lemma {:induction false} InsertedRoot(cells0: Cells, next0: Links, prev0: Links, head0: nat, last0: nat, supply0: nat,
                                        cells: Cells, next: Links, prev: Links, head: nat, last: nat, supply: nat,
                                        t: Tree, m: nat, lv: nat, least: nat, k: int, v: int, r: Insertion, inserted: bool, key: int, right: nat)
    requires m >= 4 && Shaped(t, m, lv, least) && r == InsertDescend(t, m, lv, least, k, v, supply0)
    requires Held(cells0, next0, prev0, head0, last0, supply0, t, [], [])
    requires Inserted(cells0, supply0, cells, supply, t, r, inserted, key, right)
    requires Linked(next, prev, head, last, supply, [] + AfterLeaves(r) + [])
    ensures inserted == r.inserted && r.tree.id == t.id && supply == r.supply >= supply0 > 0
    ensures r.split.NoSplit? ==> right == 0 && Held(cells, next, prev, head, last, supply, r.tree, [], [])
    ensures r.split.Split? ==>
      && right == r.split.right.id && right != 0 && key == r.split.key && Rep(cells, r.tree) && Rep(cells, r.split.right)
      && Simple(Ids(r.tree) + Ids(r.split.right)) && BtreeHeap.Below(Ids(r.tree) + Ids(r.split.right), supply)
      && Linked(next, prev, head, last, supply, Leaves(r.tree) + Leaves(r.split.right))
  {
    hide Rep, Ids, Leaves, Linked, InsertDescend, Taken, Simple, BtreeHeap.Below;
    InsertIds(t, m, lv, least, k, v, supply0);
    IdsSelf(t);
    assert supply0 > 0 by { SupplyPositive(t, supply0); }
    SimpleTaken(Ids(t), supply0, supply);
    assert [] + AfterLeaves(r) + [] == AfterLeaves(r);
    if r.split.NoSplit? {
      assert AfterIds(r) == Ids(r.tree);
      assert [] + Leaves(r.tree) + [] == AfterLeaves(r);
    }
  }

  lemma {:induction false} SupplyPositive(t: Tree, supply: nat)
    requires BtreeHeap.Below(Ids(t), supply)
    ensures supply > 0
  {
    IdsSelf(t);
  }

  /** The tree after an insertion at the root. */
  lemma {:induction false} ValidRoot(r: Insertion, s: seq<Item>, m: nat, lv: nat, least: nat, k: int, v: int, id: nat)
    requires m >= 4 && IsInsertion(r, s, m, lv, least, k, v) && least == (if lv == 0 then 0 else 1) && Sorted(s)
    ensures r.inserted == !Has(s, k)
    ensures r.split.NoSplit? ==> Valid(r.tree, m, lv, 1) && Items(r.tree) == BtreeItems.Insert(s, k, v)
    ensures r.split.Split? ==>
      var n := Node(id, [r.split.key], [r.tree, r.split.right]); Valid(n, m, lv + 1, 1) && Items(n) == BtreeItems.Insert(s, k, v)
  {
    hide Items, ItemsOf, Has, BtreeItems.Insert, Fenced, LastKey;
    InsertSorted(s, k, v);
    if r.split.NoSplit? {
      if lv == 0 { FilledLeaf(r.tree, m, s, k, v); }
    } else {
      var n := Node(id, [r.split.key], [r.tree, r.split.right]);
      ItemsOfNode(n);
      ItemsTwo(r.tree, r.split.right);
      assert Kid(r.tree, m, lv) && Kid(r.split.right, m, lv);
      NodeOf(n, m, lv + 1, 1);
    }
  }

  lemma {:induction false} FilledLeaf(t: Tree, m: nat, s: seq<Item>, k: int, v: int)
    requires Valid(t, m, 0, 0) && Items(t) == BtreeItems.Insert(s, k, v) && Sorted(s)
    ensures Valid(t, m, 0, 1)
  {
    InsertSorted(s, k, v);
  }

  lemma {:induction false} ValidSorted(t: Tree, m: nat, lv: nat, least: nat)
    requires Valid(t, m, lv, least)
    ensures Sorted(Items(t))
  {
  }

  ghost predicate IsNodeCell(c: Cell, m: nat) { c.NodeCell? && |c.keys| == m && |c.kids| == m + 1 }

  /** A node page with a child more, and the two parts it is cut into. */
  ghost function Wide(c: Cell, at: nat, key: int, child: nat): (r: Cell)
    requires c.NodeCell? && at <= |c.keys| && |c.kids| == |c.keys| + 1
    ensures IsNodeCell(r, |c.keys| + 1)
  {
    NodeCell(c.keys[..at] + [key] + c.keys[at..], c.kids[..at + 1] + [child] + c.kids[at + 1..])
  }

  ghost function Lower(c: Cell, x: nat): (r: Cell)
    requires c.NodeCell? && x < |c.keys| && |c.kids| == |c.keys| + 1
    ensures IsNodeCell(r, x)
  {
    NodeCell(c.keys[..x], c.kids[..x + 1])
  }

  ghost function Upper(c: Cell, x: nat): (r: Cell)
    requires c.NodeCell? && x < |c.keys| && |c.kids| == |c.keys| + 1
    ensures IsNodeCell(r, |c.keys| - x - 1)
  {
    NodeCell(c.keys[x + 1..], c.kids[x + 1..])
  }

  lemma {:induction false} HalfSizes(c: Cell, m: nat, mid: nat)
    requires IsNodeCell(c, m) && mid < m
    ensures |Lower(c, mid).keys| == mid && |Upper(c, mid).keys| == m - (mid + 1)
  {
  }

  /** Each of the three branches gives the cut of the widened page. */
  lemma {:induction false} CutBranches(c: Cell, m: nat, at: nat, key: int, id: nat)
    requires m >= 4 && IsNodeCell(c, m) && at <= m
    ensures var x, mid, wide := CutPoint(m, at), SplitMid(m, at), Wide(c, at, key, id);
      var l, r := Lower(c, mid), Upper(c, mid);
      if at == mid + 1 && mid < m - (mid + 1) then
        && Lower(wide, x) == NodeCell(l.keys + [c.keys[mid]], l.kids + [r.kids[0]])
        && Upper(wide, x) == NodeCell(r.keys, [id] + r.kids[1..]) && wide.keys[x] == key
      else if at >= mid + 1 then
        Lower(wide, x) == l && Upper(wide, x) == Wide(r, at - (mid + 1), key, id) && wide.keys[x] == c.keys[mid]
      else
        Lower(wide, x) == Wide(l, at, key, id) && Upper(wide, x) == r && wide.keys[x] == c.keys[mid]
  {
    var mid := SplitMid(m, at);
    if at == mid + 1 && mid < m - (mid + 1) {
      SplitThenBetween(c.keys, c.kids, m, at, key, id);
    } else if at >= mid + 1 {
      SplitThenRight(c.keys, c.kids, m, at, key, id);
    } else {
      SplitThenLeft(c.keys, c.kids, m, at, key, id);
    }
  }

  lemma {:induction false} MidRange(m: nat, at: nat)
    requires m >= 4
    ensures m / 2 - 1 <= SplitMid(m, at) <= m / 2
  {
  }

  /** The leaves after an insertion into one leaf. */
  lemma {:induction false} LeafLeaves(r: Insertion, id: nat)
    ensures r.tree.Leaf? && r.tree.id == id && r.split.NoSplit? ==> AfterLeaves(r) == [id]
    ensures r.tree.Leaf? && r.tree.id == id && r.split.Split? && r.split.right.Leaf? ==> AfterLeaves(r) == [id, r.split.right.id]
  {
  }

  /** An insertion before the end leaves the last key alone; the fix of the separator for an
      insertion at the end is never needed. */
  lemma {:induction false} LastPut(s: seq<Item>, p: nat, e: Item)
    requires p < |s|
    ensures LastKey(PutAt(s, p, e)) == LastKey(s) && p != |PutAt(s, p, e)| - 1
  {
  }

  // ---------- from a child to its node ----------

  lemma {:induction false} PageOf(cells: Cells, t: Tree)
    requires Rep(cells, t)
    ensures t.id in cells && (t.Leaf? <==> cells[t.id].LeafCell?)
    ensures t.Leaf? ==> cells[t.id] == LeafCell(t.items)
    ensures t.Node? ==> cells[t.id] == NodeCell(t.keys, IdList(t.kids))
  {
  }

  lemma {:induction false} LeafLevel(t: Tree, m: nat, lv: nat, least: nat)
    requires Valid(t, m, lv, least)
    ensures t.Leaf? ==> lv == 0
    ensures t.Node? ==> lv >= 1 && |t.kids| == |t.keys| + 1 && |t.keys| <= m
  {
  }

  lemma {:induction false} ValidShaped(t: Tree, m: nat, lv: nat, least: nat)
    requires Valid(t, m, lv, least)
    ensures Shaped(t, m, lv, least)
  {
  }

  /** Child `s` became `child`, and its new right sibling is not yet in the node. */
  ghost predicate WithSibling(cells0: Cells, supply0: nat, cells: Cells, supply: nat, t: Tree, s: nat, child: Tree, right: Tree) {
    && t.Node? && s < |t.kids| && t.id in cells && cells[t.id] == NodeCell(t.keys, IdList(t.kids)) && 0 < t.id < supply0 <= supply
    && child.id == t.kids[s].id && RepAll(cells, t.kids[s := child]) && Rep(cells, right)
    && Outside(cells0, cells, Ids(t), supply0)
    && Simple(Ids(t)) && BtreeHeap.Below(Ids(t), supply0)
    && Ids(child) + Ids(right) == Ids(t.kids[s]) + Taken(supply0, supply)
  }

  lemma {:induction false} SiblingPage(cells0: Cells, supply0: nat, cells: Cells, supply: nat, t: Tree, s: nat, child: Tree, right: Tree)
    requires WithSibling(cells0, supply0, cells, supply, t, s, child, right)
    ensures t.id in cells && cells[t.id] == NodeCell(t.keys, IdList(t.kids)) && t.id < supply && t.Node?
  {
  }

  lemma {:induction false} RepKid(cells: Cells, t: Tree, i: nat)
    requires Rep(cells, t) && t.Node? && i < |t.kids|
    ensures Rep(cells, t.kids[i])
  {
  }

  lemma {:induction false} BelowPart(ids: multiset<nat>, part: multiset<nat>, supply: nat)
    requires BtreeHeap.Below(ids, supply) && forall a :: a in part ==> a in ids
    ensures BtreeHeap.Below(part, supply)
  {
  }

  /** What holds for a subtree holds for the child the search goes to. */
  lemma {:induction false} DescendFacts(cells: Cells, next: Links, prev: Links, head: nat, last: nat, supply: nat, t: Tree, m: nat, lv: nat, least: nat,
                                        p: seq<nat>, q: seq<nat>, k: int)
    requires Valid(t, m, lv, least) && t.Node? && m >= 4 && Held(cells, next, prev, head, last, supply, t, p, q)
    ensures lv >= 1 && Ascending(t.keys) && |t.kids| == |t.keys| + 1 && |t.keys| <= m
    ensures var s := LowerBound(t.keys, k);
      && Located(t, k, s) && Valid(t.kids[s], m, lv - 1, m / 2) && Shaped(t.kids[s], m, lv - 1, m / 2)
      && Held(cells, next, prev, head, last, supply, t.kids[s], p + LeavesOf(t.kids[..s]), LeavesOf(t.kids[s + 1..]) + q)
  {
    hide Linked, Leaves, LeavesOf, Ids, IdsOf, Rep, Valid, LowerBound, Items, ItemsOf, Simple, BtreeHeap.Below, Located;
    LeafLevel(t, m, lv, least);
    KeysAscend(t, m, lv, least);
    Locate(t, m, lv, least, k);
    var s := LowerBound(t.keys, k);
    KidValid(t, m, lv, least, s);
    ValidShaped(t.kids[s], m, lv - 1, m / 2);
    RepKid(cells, t, s);
    KidIds(t, s);
    BelowPart(Ids(t), Ids(t.kids[s]), supply);
    LeavesOfNode(t);
    LeavesAt(t.kids, s);
    assert p + Leaves(t) + q == p + LeavesOf(t.kids[..s]) + Leaves(t.kids[s]) + (LeavesOf(t.kids[s + 1..]) + q);
  }

  /** An inner node from its page and its children. */
  lemma {:induction false} RepNode(cells: Cells, t: Tree)
    requires t.Node? && t.id in cells && cells[t.id] == NodeCell(t.keys, IdList(t.kids)) && RepAll(cells, t.kids)
    ensures Rep(cells, t)
  {
  }

  lemma {:induction false} IdListUpdate(kids: seq<Tree>, i: nat, t: Tree)
    requires i < |kids| && t.id == kids[i].id
    ensures IdList(kids[i := t]) == IdList(kids)
  {
  }

  /** The pages after the insertion into child `s`, before the node itself changes. */
  lemma {:induction false} AfterChild(cells0: Cells, supply0: nat, cells: Cells, supply: nat, t: Tree, m: nat, lv: nat, least: nat, s: nat, r: Insertion,
                                      k: int, v: int, inserted: bool, key: int, right: nat)
    requires m >= 4 && Valid(t, m, lv, least) && t.Node? && lv >= 1 && s < |t.kids|
    requires Rep(cells0, t) && Simple(Ids(t)) && BtreeHeap.Below(Ids(t), supply0)
    requires Shaped(t.kids[s], m, lv - 1, m / 2) && Valid(t.kids[s], m, lv - 1, m / 2) && r == InsertDescend(t.kids[s], m, lv - 1, m / 2, k, v, supply0)
    requires Inserted(cells0, supply0, cells, supply, t.kids[s], r, inserted, key, right)
    ensures t.id in cells && cells[t.id] == NodeCell(t.keys, IdList(t.kids)) && t.id < supply0 <= supply
    ensures r.tree.id == t.kids[s].id && RepAll(cells, t.kids[s := r.tree])
    ensures Outside(cells0, cells, Ids(t), supply0)
    ensures r.split.NoSplit? ==>
      right == 0 && Inserted(cells0, supply0, cells, supply, t, Insertion(Node(t.id, t.keys, t.kids[s := r.tree]), NoSplit, r.inserted, r.supply), inserted, key, 0)
    ensures r.split.Split? ==> inserted && right != 0 && right == r.split.right.id && key == r.split.key && supply == r.supply
    ensures r.split.Split? ==> WithSibling(cells0, supply0, cells, supply, t, s, r.tree, r.split.right)
  {
    hide Ids, IdsOf, Rep, Valid, InsertDescend, Simple, Shaped, Taken;
    if r.split.Split? { InsertCorrect(t.kids[s], m, lv - 1, m / 2, k, v, supply0); }
    IdsSelf(t);
    SiblingsKept(cells0, cells, t, s, supply0);
    InsertIds(t.kids[s], m, lv - 1, m / 2, k, v, supply0);
    KidIds(t, s);
    IdListUpdate(t.kids, s, r.tree);
    var next := Node(t.id, t.keys, t.kids[s := r.tree]);
    RepNode(cells, next);
  }

  /** The leaves after the insertion into child `s`. */
  lemma {:induction false} AfterChildLeaves(t: Tree, m: nat, s: nat, r: Insertion, p: seq<nat>, q: seq<nat>)
    requires t.Node? && m >= 4 && s < |t.kids| == |t.keys| + 1 && |t.keys| <= m
    ensures var all := p + LeavesOf(t.kids[..s]) + AfterLeaves(r) + (LeavesOf(t.kids[s + 1..]) + q);
      && (r.split.NoSplit? ==> p + AfterLeaves(Insertion(Node(t.id, t.keys, t.kids[s := r.tree]), NoSplit, r.inserted, r.supply)) + q == all)
      && (r.split.Split? ==> p + AfterLeaves(InsertChild(t, m, s, r.tree, r.split.key, r.split.right, r.supply)) + q == all)
  {
    hide Leaves, LeavesOf, InsertChild, Ids, IdsOf;
    if r.split.Split? {
      hide AfterLeaves;
      ChildIds(t, m, s, r.tree, r.split.key, r.split.right, r.supply);
      assert AfterLeaves(r) == Leaves(r.tree) + Leaves(r.split.right) by { SplitLeaves(r); }
    } else {
      var next := Node(t.id, t.keys, t.kids[s := r.tree]);
      LeavesOfNode(next);
      LeavesAt(next.kids, s);
      assert next.kids[..s] == t.kids[..s] && next.kids[s + 1..] == t.kids[s + 1..];
    }
  }

  lemma {:induction false} SplitLeaves(r: Insertion)
    ensures r.split.Split? ==> AfterLeaves(r) == Leaves(r.tree) + Leaves(r.split.right)
    ensures r.split.NoSplit? ==> AfterLeaves(r) == Leaves(r.tree)
  {
  }

  lemma {:induction false} StillAmong(t: Tree, m: nat, s: nat, r: Insertion, leaf: nat)
    requires t.Node? && m >= 4 && s < |t.kids| == |t.keys| + 1 && |t.keys| <= m && leaf in AfterLeaves(r)
    ensures r.split.NoSplit? ==> leaf in AfterLeaves(Insertion(Node(t.id, t.keys, t.kids[s := r.tree]), NoSplit, r.inserted, r.supply))
    ensures r.split.Split? ==> leaf in AfterLeaves(InsertChild(t, m, s, r.tree, r.split.key, r.split.right, r.supply))
  {
    hide Leaves, LeavesOf, AfterLeaves, InsertChild;
    AfterChildLeaves(t, m, s, r, [], []);
    var a, b := LeavesOf(t.kids[..s]), LeavesOf(t.kids[s + 1..]);
    assert leaf in [] + a + AfterLeaves(r) + (b + []);
  }

  lemma {:induction false} StillLinked(next: Links, prev: Links, head: nat, last: nat, supply: nat, supply': nat, c: seq<nat>)
    requires Linked(next, prev, head, last, supply, c) && supply <= supply'
    ensures Linked(next, prev, head, last, supply', c)
  {
  }

  lemma {:induction false} StillPoints(cells: Cells, cells': Cells, n: nat, supply: nat, supply': nat, leaf: nat, at: nat, k: int)
    requires Points(cells, supply, leaf, at, k) && n in cells && cells[n].NodeCell? && supply <= supply'
    requires forall a :: a in cells && a != n && a != supply ==> a in cells' && cells'[a] == cells[a]
    ensures Points(cells', supply', leaf, at, k)
  {
  }

  // ---------- taking in a new child ----------

  lemma {:induction false} SimpleTaken(ids: multiset<nat>, a: nat, b: nat)
    requires Simple(ids) && BtreeHeap.Below(ids, a) && 0 < a <= b
    ensures Simple(ids + Taken(a, b)) && BtreeHeap.Below(ids + Taken(a, b), b)
  {
    hide Taken;
    forall x ensures (ids + Taken(a, b))[x] <= 1 { TakenRange(a, b, x); assert ids[x] <= 1; }
    forall x | x in ids + Taken(a, b) ensures 0 < x < b { TakenRange(a, b, x); }
  }

  lemma {:induction false} RepAllKept(before: Cells, after: Cells, kids: seq<Tree>)
    requires RepAll(before, kids) && Agree(before, after, IdsOf(kids))
    ensures RepAll(after, kids)
  {
    hide Ids, IdsOf, Rep;
    forall i | 0 <= i < |kids| ensures Rep(after, kids[i]) {
      IdsAt(kids, i);
      RepKept(before, after, kids[i]);
    }
  }

  /** The children once child `s` has a new right sibling. */
  ghost function WideKids(t: Tree, s: nat, child: Tree, right: Tree): seq<Tree>
    requires t.Node? && s < |t.kids|
  {
    t.kids[..s] + [child, right] + t.kids[s + 1..]
  }

  lemma {:induction false} WideKidsHeld(cells: Cells, t: Tree, s: nat, child: Tree, right: Tree)
    requires t.Node? && s < |t.kids| && RepAll(cells, t.kids[s := child]) && Rep(cells, right) && child.id == t.kids[s].id
    ensures RepAll(cells, WideKids(t, s, child, right))
    ensures IdList(WideKids(t, s, child, right)) == IdList(t.kids)[..s + 1] + [right.id] + IdList(t.kids)[s + 1..]
  {
    hide Rep;
    var kids, wide := t.kids[s := child], WideKids(t, s, child, right);
    forall i | 0 <= i < |wide| ensures Rep(cells, wide[i]) {
      if i <= s { assert wide[i] == kids[i]; } else if i > s + 1 { assert wide[i] == kids[i - 1]; }
    }
  }

  /** The addresses after child `s` got a new sibling are still all different. */
  lemma {:induction false} WideKidsSimple(t: Tree, s: nat, child: Tree, right: Tree, supply0: nat, supply: nat)
    requires t.Node? && s < |t.kids| && Simple(Ids(t)) && BtreeHeap.Below(Ids(t), supply0) && supply0 <= supply
    requires Ids(child) + Ids(right) == Ids(t.kids[s]) + Taken(supply0, supply)
    ensures t.id !in IdsOf(WideKids(t, s, child, right)) && supply !in IdsOf(WideKids(t, s, child, right))
  {
    hide Ids, IdsOf, Taken;
    IdsSelf(t);
    IdsOfNode(t);
    IdsAt(t.kids, s);
    IdsParts(t.kids[..s], [child, right], t.kids[s + 1..]);
    IdsTwo(child, right);
    SimpleTaken(Ids(t), supply0, supply);
    var all := Ids(t) + Taken(supply0, supply);
    assert all == multiset{t.id} + IdsOf(WideKids(t, s, child, right));
    assert all[t.id] <= 1 && (supply in all ==> supply < supply);
  }

  /** A node that had room for the new child. */
  lemma {:induction false} AfterPut(cells0: Cells, supply0: nat, before: Cells, after: Cells, supply: nat, t: Tree, m: nat, s: nat, child: Tree, key: int, right: Tree)
    requires m >= 4 && t.Node? && s < |t.kids| == |t.keys| + 1 && |t.keys| < m
    requires WithSibling(cells0, supply0, before, supply, t, s, child, right)
    requires after == before[t.id := Wide(NodeCell(t.keys, IdList(t.kids)), s, key, right.id)]
    ensures Inserted(cells0, supply0, after, supply, t, InsertChild(t, m, s, child, key, right, supply), true, 0, 0)
  {
    hide Ids, IdsOf, Rep, Simple, Taken, BtreeHeap.Below, RepAll;
    var wide := WideKids(t, s, child, right);
    WideKidsHeld(before, t, s, child, right);
    WideKidsSimple(t, s, child, right, supply0, supply);
    RepAllKept(before, after, wide);
    var r := InsertChild(t, m, s, child, key, right, supply);
    assert r.tree == Node(t.id, t.keys[..s] + [key] + t.keys[s..], wide);
    RepNode(after, r.tree);
    IdsSelf(t);
  }

  /** A full node, cut in two. */
  lemma {:induction false} AfterCut(cells0: Cells, supply0: nat, before: Cells, after: Cells, supply: nat, t: Tree, m: nat, s: nat, child: Tree, key: int, right: Tree)
    requires m >= 4 && t.Node? && s < |t.kids| == |t.keys| + 1 && |t.keys| == m
    requires WithSibling(cells0, supply0, before, supply, t, s, child, right)
    requires var x, wide := CutPoint(m, s), Wide(NodeCell(t.keys, IdList(t.kids)), s, key, right.id);
      after == before[supply := Upper(wide, x)][t.id := Lower(wide, x)]
    ensures var x, wide := CutPoint(m, s), Wide(NodeCell(t.keys, IdList(t.kids)), s, key, right.id);
      Inserted(cells0, supply0, after, supply + 1, t, InsertChild(t, m, s, child, key, right, supply), true, wide.keys[x], supply)
  {
    hide Ids, IdsOf, Rep, Simple, Taken, BtreeHeap.Below, RepAll, CutPoint;
    var x := CutPoint(m, s);
    var kids := WideKids(t, s, child, right);
    WideKidsHeld(before, t, s, child, right);
    WideKidsSimple(t, s, child, right, supply0, supply);
    RepAllKept(before, after, kids);
    RepAllParts(after, kids, x + 1);
    var r := InsertChild(t, m, s, child, key, right, supply);
    RepNode(after, r.tree);
    RepNode(after, r.split.right);
    IdsSelf(t);
  }

  lemma {:induction false} RepAllParts(cells: Cells, kids: seq<Tree>, x: nat)
    requires RepAll(cells, kids) && x <= |kids|
    ensures RepAll(cells, kids[..x]) && RepAll(cells, kids[x..])
    ensures IdList(kids[..x]) == IdList(kids)[..x] && IdList(kids[x..]) == IdList(kids)[x..]
  {
    hide Rep;
  }

  lemma {:induction false} SlotIs(s: seq<Item>, k: int)
    requires Sorted(s)
    ensures Ascending(Keys(s)) && LowerBound(Keys(s), k) == Slot(s, k)
    ensures Has(s, k) <==> Slot(s, k) < |s| && s[Slot(s, k)].key == k
  {
  }

  lemma {:induction false} PutHolds(s: seq<Item>, p: nat, e: Item)
    requires p <= |s|
    ensures |PutAt(s, p, e)| == |s| + 1 && PutAt(s, p, e)[p] == e
  {
  }
}
