/** Insertion into a B+ tree, on values: what `insert_descend` makes of a subtree. */
module BtreeInsert {
  import opened BtreeItems
  import opened BtreeTree

  /** A node that overflowed hands its parent a separator and a new right sibling. */
  datatype Split = NoSplit | Split(key: int, right: Tree)

  datatype Insertion = Insertion(tree: Tree, split: Split, inserted: bool, supply: nat)

  function InsertLeaf(t: Tree, m: nat, k: int, v: int, supply: nat): Insertion
    requires t.Leaf? && m >= 4
  {
    var at := Slot(t.items, k);
    if Has(t.items, k) then Insertion(t, NoSplit, false, supply)
    else if |t.items| < m then Insertion(Leaf(t.id, PutAt(t.items, at, Item(k, v))), NoSplit, true, supply)
    else
      var mid := |t.items| / 2;
      var left, right := t.items[..mid], t.items[mid..];
      if at >= mid
      then Insertion(Leaf(t.id, left), Split(LastKey(left), Leaf(supply, PutAt(right, at - mid, Item(k, v)))), true, supply + 1)
      else var more := PutAt(left, at, Item(k, v));
           Insertion(Leaf(t.id, more), Split(LastKey(more), Leaf(supply, right)), true, supply + 1)
  }

  /** Where `split_interior_node` splits a full node that is about to take a child at `at`. */
  function SplitMid(m: nat, at: nat): (mid: nat)
    requires m >= 4
  {
    if at <= m / 2 && m / 2 > m - (m / 2 + 1) then m / 2 - 1 else m / 2
  }

  /** Where the node with the additional child is cut: both halves are full enough. */
  function CutPoint(m: nat, at: nat): (x: nat)
    requires m >= 4 && at <= m
    ensures m / 2 <= x && m / 2 <= m - x
  {
    var mid := SplitMid(m, at);
    if at <= mid || (at == mid + 1 && mid < m - (mid + 1)) then mid + 1 else mid
  }

  /** An inner node whose child `at` became `child` and a new right sibling. */
  function InsertChild(t: Tree, m: nat, at: nat, child: Tree, key: int, right: Tree, supply: nat): (r: Insertion)
    requires t.Node? && m >= 4 && at <= |t.keys| <= m && |t.kids| == |t.keys| + 1
    ensures r.inserted
  {
    var keys := t.keys[..at] + [key] + t.keys[at..];
    var kids := t.kids[..at] + [child, right] + t.kids[at + 1..];
    if |t.keys| < m then Insertion(Node(t.id, keys, kids), NoSplit, true, supply)
    else
      var x := CutPoint(m, at);
      Insertion(Node(t.id, keys[..x], kids[..x + 1]), Split(keys[x], Node(supply, keys[x + 1..], kids[x + 1..])), true, supply + 1)
  }

  /** `insert_descend` */
  function InsertDescend(t: Tree, m: nat, ghost level: nat, ghost least: nat, k: int, v: int, supply: nat): Insertion
    requires m >= 4 && Shaped(t, m, level, least)
    decreases t
  {
    if t.Leaf? then InsertLeaf(t, m, k, v, supply)
    else
      var at := LowerBound(t.keys, k);
      var r := InsertDescend(t.kids[at], m, level - 1, m / 2, k, v, supply);
      match r.split
      case NoSplit => Insertion(Node(t.id, t.keys, t.kids[at := r.tree]), NoSplit, r.inserted, r.supply)
      case Split(key, right) => InsertChild(t, m, at, r.tree, key, right, r.supply)
  }

  // ---------- correctness ----------

  /** What an insertion gives: the pairs of the list insertion, in one valid tree or two. */
  ghost predicate IsInsertion(r: Insertion, s: seq<Item>, m: nat, level: nat, least: nat, k: int, v: int) {
    && r.inserted == !Has(s, k)
    && match r.split
       case NoSplit => Valid(r.tree, m, level, least) && Items(r.tree) == Insert(s, k, v)
       case Split(key, right) =>
         && r.inserted && Valid(r.tree, m, level, m / 2) && Valid(right, m, level, m / 2) && key == LastKey(Items(r.tree))
         && Items(r.tree) + Items(right) == Insert(s, k, v)
  }

  lemma {:induction false} PutSplit(s: seq<Item>, mid: nat, p: nat, e: Item)
    requires mid <= |s| && p <= |s|
    ensures p >= mid ==> s[..mid] + PutAt(s[mid..], p - mid, e) == PutAt(s, p, e)
    ensures p < mid ==> PutAt(s[..mid], p, e) + s[mid..] == PutAt(s, p, e)
  {
    if p >= mid {
      assert s[..p] == s[..mid] + s[mid..][..p - mid];
      assert s[mid..][p - mid..] == s[p..];
    } else {
      assert s[..mid][..p] == s[..p];
      assert s[p..] == s[..mid][p..] + s[mid..];
    }
  }

  lemma {:induction false} LeafCorrect(t: Tree, m: nat, least: nat, k: int, v: int, supply: nat)
    requires Valid(t, m, 0, least) && m >= 4
    ensures IsInsertion(InsertLeaf(t, m, k, v, supply), t.items, m, 0, least, k, v)
  {
    hide Slot, Has, PutAt;
    InsertSorted(t.items, k, v);
    var at := Slot(t.items, k);
    var r := InsertLeaf(t, m, k, v, supply);
    PutSize(t.items, at, Item(k, v));
    if !Has(t.items, k) && |t.items| == m {
      var mid := m / 2;
      PutSplit(t.items, mid, at, Item(k, v));
      if at >= mid { PutSize(t.items[mid..], at - mid, Item(k, v)); } else { PutSize(t.items[..mid], at, Item(k, v)); }
      SortedParts(r.tree.items, r.split.right.items);
    }
  }

  lemma {:induction false} PutSize(s: seq<Item>, p: nat, e: Item)
    requires p <= |s|
    ensures |PutAt(s, p, e)| == |s| + 1
  {
  }

  lemma {:induction false} InsertLast(s: seq<Item>, k: int, v: int)
    requires Sorted(s) && s != [] && k <= LastKey(s)
    ensures Insert(s, k, v) != [] && LastKey(Insert(s, k, v)) == LastKey(s)
  {
    hide Slot;
    SlotSplits(s, k);
    var p := Slot(s, k);
    assert forall i :: 0 <= i < p ==> s[i].key == s[..p][i].key < k;
  }

  /** The row of a node after its child `at` was replaced by two. */
  lemma {:induction false} WidenedRow(t: Tree, m: nat, level: nat, at: nat, child: Tree, key: int, right: Tree)
    requires t.Node? && Row(t.keys, t.kids, m, level) && at < |t.kids|
    requires Kid(child, m, level) && Kid(right, m, level) && key == LastKey(Items(child))
    requires at < |t.keys| ==> t.keys[at] == LastKey(Items(right))
    ensures Row(t.keys[..at] + [key] + t.keys[at..], t.kids[..at] + [child, right] + t.kids[at + 1..], m, level)
  {
    hide Items, Kid, LastKey;
    var keys := t.keys[..at] + [key] + t.keys[at..];
    var kids := t.kids[..at] + [child, right] + t.kids[at + 1..];
    forall i | 0 <= i < |keys| ensures keys[i] == LastKey(Items(kids[i])) {
      if i > at { assert keys[i] == t.keys[i - 1]; }
      if i > at + 1 { assert kids[i] == t.kids[i - 1]; }
    }
    forall i | 0 <= i < |kids| ensures Kid(kids[i], m, level) {
      if i > at + 1 { assert kids[i] == t.kids[i - 1]; }
    }
  }

  /** An inner node with one more child: whole, or cut in two. */
  lemma {:induction false} ChildCorrect(t: Tree, m: nat, level: nat, least: nat, at: nat, child: Tree, key: int, right: Tree, supply: nat, s: seq<Item>)
    requires t.Node? && m >= 4 && level >= 1 && at <= |t.keys| <= m && least <= |t.keys| && |t.kids| == |t.keys| + 1
    requires Row(t.keys[..at] + [key] + t.keys[at..], t.kids[..at] + [child, right] + t.kids[at + 1..], m, level - 1)
    requires s == ItemsOf(t.kids[..at]) + (Items(child) + Items(right)) + ItemsOf(t.kids[at + 1..]) && Sorted(s)
    ensures var r := InsertChild(t, m, at, child, key, right, supply);
      match r.split
      case NoSplit => Valid(r.tree, m, level, least) && Items(r.tree) == s
      case Split(up, sibling) =>
        && Valid(r.tree, m, level, m / 2) && Valid(sibling, m, level, m / 2) && up == LastKey(Items(r.tree))
        && Items(r.tree) + Items(sibling) == s
  {
    hide Items, ItemsOf, Row, Shaped, Fenced, LastKey, CutPoint, Valid;
    var keys := t.keys[..at] + [key] + t.keys[at..];
    var kids := t.kids[..at] + [child, right] + t.kids[at + 1..];
    var r := InsertChild(t, m, at, child, key, right, supply);
    ItemsParts(t.kids[..at], [child, right], t.kids[at + 1..]);
    ItemsTwo(child, right);
    ItemsOfNode(r.tree);
    if |t.keys| < m {
      NodeOf(r.tree, m, level, least);
    } else {
      var x := CutPoint(m, at);
      CutRow(keys, kids, m, level - 1, x);
      ItemsOfNode(r.split.right);
      NodeOf(r.tree, m, level, m / 2);
      NodeOf(r.split.right, m, level, m / 2);
    }
  }

  /** Cutting a row at a separator, which moves up. */
  lemma {:induction false} CutRow(keys: seq<int>, kids: seq<Tree>, m: nat, level: nat, x: nat)
    requires Row(keys, kids, m, level) && x < |keys| && m >= 2 && Sorted(ItemsOf(kids))
    ensures |kids| == |keys| + 1
    ensures Row(keys[..x], kids[..x + 1], m, level) && Row(keys[x + 1..], kids[x + 1..], m, level)
    ensures ItemsOf(kids[..x + 1]) + ItemsOf(kids[x + 1..]) == ItemsOf(kids)
    ensures Sorted(ItemsOf(kids[..x + 1])) && Sorted(ItemsOf(kids[x + 1..]))
    ensures keys[x] == LastKey(ItemsOf(kids[..x + 1]))
  {
    hide Items, ItemsOf, Shaped, Fenced, LastKey;
    RowPart(keys, kids, m, level, 0, x);
    assert keys[0..x] == keys[..x] && kids[0..x + 1] == kids[..x + 1];
    RowPart(keys, kids, m, level, x + 1, |keys|);
    assert keys[x + 1..|keys|] == keys[x + 1..] && kids[x + 1..|keys| + 1] == kids[x + 1..];
    assert kids == kids[..x + 1] + kids[x + 1..];
    ItemsConcat(kids[..x + 1], kids[x + 1..]);
    SortedParts(ItemsOf(kids[..x + 1]), ItemsOf(kids[x + 1..]));
    RowNotEmpty(keys[..x], kids[..x + 1], m, level);
    assert kids[..x + 1][x] == kids[x];
  }

  /** Insertion is list insertion, and keeps the tree valid. */
  lemma {:induction false} InsertCorrect(t: Tree, m: nat, level: nat, least: nat, k: int, v: int, supply: nat)
    requires Valid(t, m, level, least) && m >= 4
    ensures IsInsertion(InsertDescend(t, m, level, least, k, v, supply), Items(t), m, level, least, k, v)
    decreases t
  {
    if t.Leaf? {
      LeafCorrect(t, m, least, k, v, supply);
    } else {
      hide Items, ItemsOf, Has, Insert, LowerBound;
      var at := LowerBound(t.keys, k);
      Locate(t, m, level, least, k);
      KidValid(t, m, level, least, at);
      InsertCorrect(t.kids[at], m, level - 1, m / 2, k, v, supply);
      var r := InsertDescend(t.kids[at], m, level - 1, m / 2, k, v, supply);
      InsertAbove(t, m, level, least, k, v, at, r);
    }
  }

  /** From the child to the node. */
  lemma {:induction false} InsertAbove(t: Tree, m: nat, level: nat, least: nat, k: int, v: int, at: nat, r: Insertion)
    requires Valid(t, m, level, least) && m >= 4 && t.Node? && Located(t, k, at) && level >= 1
    requires IsInsertion(r, Items(t.kids[at]), m, level - 1, m / 2, k, v)
    ensures IsInsertion(
      match r.split
      case NoSplit => Insertion(Node(t.id, t.keys, t.kids[at := r.tree]), NoSplit, r.inserted, r.supply)
      case Split(key, right) => InsertChild(t, m, at, r.tree, key, right, r.supply),
      Items(t), m, level, least, k, v)
  {
    hide Items, ItemsOf, Has, Insert, LowerBound, Shaped, Fenced, LastKey, InsertChild, Row;
    var a, b, c := ItemsOf(t.kids[..at]), Items(t.kids[at]), ItemsOf(t.kids[at + 1..]);
    KidValid(t, m, level, least, at);
    RowOf(t, m, level, least);
    NotEmpty(t.kids[at], m, level - 1, m / 2);
    assert at < |t.keys| ==> t.keys[at] == LastKey(b) by { RowFence(t.keys, t.kids, m, level - 1, at); }
    InsideSlot(a, b, c, k);
    InsideInsert(a, b, c, k, v);
    InsertSorted(a + b + c, k, v);
    assert k <= LastKey(b) ==> LastKey(Insert(b, k, v)) == LastKey(b) by { if k <= LastKey(b) { InsertLast(b, k, v); } }
    match r.split
    case NoSplit =>
      NotEmpty(r.tree, m, level - 1, m / 2);
      assert Kid(r.tree, m, level - 1);
      RowKeep(t.keys, t.kids, m, level - 1, at, r.tree);
      ItemsUpdate(t.kids, at, r.tree);
      var next := Node(t.id, t.keys, t.kids[at := r.tree]);
      ItemsOfNode(next);
      NodeOf(next, m, level, least);
    case Split(key, right) =>
      NotEmpty(right, m, level - 1, m / 2);
      LastOfConcat(Items(r.tree), Items(right));
      assert Kid(r.tree, m, level - 1) && Kid(right, m, level - 1);
      WidenedRow(t, m, level - 1, at, r.tree, key, right);
      ChildCorrect(t, m, level, least, at, r.tree, key, right, r.supply, Insert(Items(t), k, v));
  }

  // ---------- where it splits ----------

  /** Without the new pair, the left leaf keeps half of the pairs, and the right one gets the odd
      one, too. The new pair goes where it belongs. */
  lemma {:induction false} LeafHalves(t: Tree, m: nat, k: int, v: int, supply: nat)
    requires t.Leaf? && m >= 4 && |t.items| >= m && !Has(t.items, k)
    ensures var r := InsertLeaf(t, m, k, v, supply);
      && r.split.Split? && r.tree.Leaf? && r.split.right.Leaf?
      && var left, right := |r.tree.items|, |r.split.right.items|;
      if 2 * Slot(t.items, k) + 1 < |t.items| then 0 <= right - (left - 1) <= 1 else 0 <= right - 1 - left <= 1
  {
    hide Slot, Has, PutAt;
    var at, mid := Slot(t.items, k), |t.items| / 2;
    if at >= mid { PutSize(t.items[mid..], at - mid, Item(k, v)); } else { PutSize(t.items[..mid], at, Item(k, v)); }
  }

  /** With the new separator there are `m + 1`, one of which moves up. Both halves get as many of
      the others, and an odd one stays in the half where the new separator is. */
  lemma {:induction false} NodeHalves(t: Tree, m: nat, at: nat, child: Tree, key: int, right: Tree, supply: nat)
    requires t.Node? && m >= 4 && at <= |t.keys| == m && |t.kids| == |t.keys| + 1
    ensures var r := InsertChild(t, m, at, child, key, right, supply);
      && r.split.Split? && r.tree.Node? && r.split.right.Node?
      && |r.split.right.keys| + |r.tree.keys| == m && 0 <= (if 2 * at < m then |r.tree.keys| - |r.split.right.keys| else |r.split.right.keys| - |r.tree.keys|) <= 1
  {
  }

  // ---------- three ways to insert and split ----------

  /** Splitting first and inserting into the left half. */
  lemma {:induction false} SplitThenLeft<T>(keys: seq<int>, ids: seq<T>, m: nat, at: nat, key: int, id: T)
    requires m >= 4 && |keys| == m && |ids| == m + 1 && at <= SplitMid(m, at)
    ensures var x, mid := CutPoint(m, at), SplitMid(m, at);
      var keys1, ids1 := keys[..at] + [key] + keys[at..], ids[..at + 1] + [id] + ids[at + 1..];
      var l, d := keys[..mid], ids[..mid + 1];
      && keys1[..x] == l[..at] + [key] + l[at..] && ids1[..x + 1] == d[..at + 1] + [id] + d[at + 1..]
      && keys1[x] == keys[mid] && keys1[x + 1..] == keys[mid + 1..] && ids1[x + 1..] == ids[mid + 1..]
  {
  }

  /** Splitting first and inserting into the right half. */
  lemma {:induction false} SplitThenRight<T>(keys: seq<int>, ids: seq<T>, m: nat, at: nat, key: int, id: T)
    requires m >= 4 && |keys| == m && |ids| == m + 1 && SplitMid(m, at) < at <= m
    requires !(at == SplitMid(m, at) + 1 && SplitMid(m, at) < m - (SplitMid(m, at) + 1))
    ensures var x, mid := CutPoint(m, at), SplitMid(m, at);
      var keys1, ids1 := keys[..at] + [key] + keys[at..], ids[..at + 1] + [id] + ids[at + 1..];
      var r, d, a := keys[mid + 1..], ids[mid + 1..], at - (mid + 1);
      && keys1[..x] == keys[..mid] && ids1[..x + 1] == ids[..mid + 1] && keys1[x] == keys[mid]
      && keys1[x + 1..] == r[..a] + [key] + r[a..] && ids1[x + 1..] == d[..a + 1] + [id] + d[a + 1..]
  {
  }

  /** Splitting first when the new key itself becomes the split key. */
  lemma {:induction false} SplitThenBetween<T>(keys: seq<int>, ids: seq<T>, m: nat, at: nat, key: int, id: T)
    requires m >= 4 && |keys| == m && |ids| == m + 1
    requires at == SplitMid(m, at) + 1 && SplitMid(m, at) < m - (SplitMid(m, at) + 1)
    ensures var x, mid := CutPoint(m, at), SplitMid(m, at);
      var keys1, ids1 := keys[..at] + [key] + keys[at..], ids[..at + 1] + [id] + ids[at + 1..];
      && keys1[..x] == keys[..mid] + [keys[mid]] && ids1[..x + 1] == ids[..mid + 1] + [ids[mid + 1]]
      && keys1[x] == key && keys1[x + 1..] == keys[mid + 1..] && ids1[x + 1..] == [id] + ids[mid + 2..]
  {
  }
}
