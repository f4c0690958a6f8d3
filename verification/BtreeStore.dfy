/** The B+ tree over pages: insertion and erasure by address, with the links of the leaves. */
module BtreeStore {
  import opened BtreeItems
  import opened BtreeTree
  import opened BtreeHeap
  import opened BtreeLeaves
  import opened BtreeInsert
  import opened BtreeInsertPages
  import opened BtreeErase
  import opened BtreeErasePages
  import opened BtreeSearch
  import opened BtreeCursor

  class Btree {
    const m: nat
    var cells: Cells
    var next: Links
    var prev: Links
    var hints: map<nat, nat>
    var root: nat
    var head: nat
    var last: nat
    var size: nat
    var supply: nat
    ghost var tree: MaybeTree
    ghost var level: nat

    /** Everything `verify` checks, and that the counter is right. */
    ghost predicate Good()
      reads this
    {
      && m >= 4 && supply >= 1
      && match tree
         case Nil => root == 0 && head == 0 && last == 0 && size == 0
         case Some(t) =>
           root == t.id && Valid(t, m, level, 1) && Held(cells, next, prev, head, last, supply, t, [], []) && size == |Items(t)|
    }

    /** The pairs, in order. */
    ghost function Contents(): seq<Item>
      reads this
    {
      if tree.Nil? then [] else Items(tree.tree)
    }

    constructor (slots: nat)
      requires slots >= 4
      ensures Good() && Contents() == [] && m == slots
    {
      m := slots;
      cells, next, prev, hints := map[], map[], map[], map[];
      root, head, last, size, supply := 0, 0, 0, 0, 1;
      tree, level := Nil, 0;
    }

    /** `find_lower` on a page, with the position the last search left there. */
    method Find(n: nat, keys: seq<int>, k: int) returns (at: nat)
      requires Ascending(keys)
      modifies this`hints
      ensures at == LowerBound(keys, k)
    {
      var found;
      at, found := FindLower(keys, if n in hints then hints[n] else 0, k);
      hints := hints[n := found];
    }

    /** `split_surface_node` */
    method SplitSurface(n: nat, ghost items: seq<Item>, ghost p: seq<nat>, ghost q: seq<nat>) returns (key: int, right: nat)
      requires n in cells && cells[n] == LeafCell(items) && |items| >= 4 && 0 < n < supply
      requires Linked(next, prev, head, last, supply, p + [n] + q)
      modifies this`cells, this`next, this`prev, this`last, this`supply
      ensures right == old(supply) && supply == right + 1 && key == LastKey(items[..|items| / 2])
      ensures cells == old(cells)[right := LeafCell(items[|items| / 2..])][n := LeafCell(items[..|items| / 2])]
      ensures Linked(next, prev, head, last, supply, p + [n, right] + q)
    {
      ghost var c := p + [n] + q;
      ghost var i := |p|;
      right := supply;
      supply := supply + 1;
      ChainFacts(next, prev, head, last, c, i);
      ChainInsert(next, prev, head, last, c, i, right);
      assert c[i] == n && c[..i + 1] == p + [n] && c[i + 1..] == q;
      assert p + [n] + [right] + q == p + [n, right] + q;
      var mid := |cells[n].items| / 2;
      next := next[right := next[n]];
      if next[right] == 0 {
        last := right;
      } else {
        prev := prev[next[right] := right];
      }
      cells := OnCells(cells, m, Halve(n, right));
      next := next[n := right];
      prev := prev[right := n];
      key := cells[n].items[mid - 1].key;
    }

    /** A full leaf is split before the pair goes into one of the halves. */
    method InsertFull(n: nat, k: int, v: int, at0: nat, ghost t: Tree, ghost p: seq<nat>, ghost q: seq<nat>)
      returns (key: int, right: nat, leaf: nat, at: nat)
      requires m >= 4 && t.Leaf? && |t.items| == m && n == t.id && Held(cells, next, prev, head, last, supply, t, p, q)
      requires at0 == Slot(t.items, k) && !Has(t.items, k)
      modifies this`cells, this`next, this`prev, this`last, this`supply
      ensures var r := InsertLeaf(t, m, k, v, old(supply));
        && Inserted(old(cells), old(supply), cells, supply, t, r, true, key, right)
        && Linked(next, prev, head, last, supply, p + AfterLeaves(r) + q)
      ensures Points(cells, supply, leaf, at, k) && leaf in AfterLeaves(InsertLeaf(t, m, k, v, old(supply)))
    {
      hide Slot, Has, Linked, Leaves, AfterLeaves, Ids, PutAt;
      IdsOfLeaf(t);
      ghost var r := InsertLeaf(t, m, k, v, supply);
      LeafLeaves(r, t.id);
      at, leaf := at0, n;
      key, right := SplitSurface(n, t.items, p, q);
      if at >= |cells[n].items| {
        at := at - |cells[n].items|;
        leaf := right;
      }
      PutHolds(cells[leaf].items, at, Item(k, v));
      cells := OnCells(cells, m, PutIn(leaf, at, k, v));
      if leaf != right && at == |cells[leaf].items| - 1 {
        key := k;
      }
      if leaf != right { LastPut(t.items[..m / 2], at, Item(k, v)); }
    }

    /** The leaf end of `insert_descend`. */
    method InsertSurface(n: nat, k: int, v: int, ghost t: Tree, ghost least: nat, ghost p: seq<nat>, ghost q: seq<nat>)
      returns (inserted: bool, key: int, right: nat, leaf: nat, at: nat)
      requires m >= 4 && Valid(t, m, 0, least) && n == t.id && Held(cells, next, prev, head, last, supply, t, p, q)
      modifies this`cells, this`next, this`prev, this`last, this`supply, this`hints
      ensures var r := InsertLeaf(t, m, k, v, old(supply));
        && Inserted(old(cells), old(supply), cells, supply, t, r, inserted, key, right)
        && Linked(next, prev, head, last, supply, p + AfterLeaves(r) + q)
      ensures Points(cells, supply, leaf, at, k) && leaf in AfterLeaves(InsertLeaf(t, m, k, v, old(supply)))
    {
      hide Slot, Has, Linked, Leaves, AfterLeaves, Ids, PutAt, Sorted, Ascending;
      IdsOfLeaf(t);
      SlotIs(t.items, k);
      ghost var r := InsertLeaf(t, m, k, v, supply);
      LeafLeaves(r, t.id);
      var items := cells[n].items;
      at := Find(n, Keys(items), k);
      leaf, key, right := n, 0, 0;
      if at < |items| && items[at].key == k {
        return false, key, right, leaf, at;
      }
      inserted := true;
      if |items| == m {
        key, right, leaf, at := InsertFull(n, k, v, at, t, p, q);
      } else {
        PutHolds(items, at, Item(k, v));
        cells := OnCells(cells, m, PutIn(n, at, k, v));
      }
    }

    /** `split_interior_node` */
    method SplitInterior(n: nat, addslot: nat) returns (key: int, right: nat)
      requires m >= 4 && n in cells && IsNodeCell(cells[n], m) && n < supply
      modifies this`cells, this`supply
      ensures right == old(supply) && supply == right + 1
      ensures var mid, c := SplitMid(m, addslot), old(cells)[n];
        key == c.keys[mid] && cells == old(cells)[right := Upper(c, mid)][n := Lower(c, mid)]
    {
      var c := cells[n];
      var mid := |c.keys| / 2;
      if addslot <= mid && mid > |c.keys| - (mid + 1) {
        mid := mid - 1;
      }
      right := supply;
      supply := supply + 1;
      cells := cells[right := NodeCell(c.keys[mid + 1..], c.kids[mid + 1..])];
      cells := cells[n := NodeCell(c.keys[..mid], c.kids[..mid + 1])];
      key := c.keys[mid];
    }

    /** A new child behind slot `at`. */
    method PutChild(n: nat, at: nat, key: int, child: nat)
      requires n in cells && cells[n].NodeCell? && at <= |cells[n].keys| && |cells[n].kids| == |cells[n].keys| + 1
      modifies this`cells
      ensures cells == old(cells)[n := Wide(old(cells)[n], at, key, child)]
    {
      var c := cells[n];
      cells := cells[n := NodeCell(c.keys[..at] + [key] + c.keys[at..], c.kids[..at + 1] + [child] + c.kids[at + 1..])];
    }

    /** The part of `insert_descend` that takes the new sibling of child `at` into a full
        node: split, then insert left, right or between. */
    method InsertSplit(n: nat, at0: nat, newkey: int, newchild: nat) returns (key: int, right: nat)
      requires m >= 4 && n in cells && IsNodeCell(cells[n], m) && n < supply && at0 <= m
      modifies this`cells, this`supply
      ensures right == old(supply) && supply == right + 1
      ensures var x, wide := CutPoint(m, at0), Wide(old(cells)[n], at0, newkey, newchild);
        key == wide.keys[x] && cells == old(cells)[right := Upper(wide, x)][n := Lower(wide, x)]
    {
      hide SplitMid, CutPoint, Wide, Lower, Upper;
      ghost var c := cells[n];
      MidRange(m, at0);
      HalfSizes(c, m, SplitMid(m, at0));
      CutBranches(c, m, at0, newkey, newchild);
      var at := at0;
      key, right := SplitInterior(n, at);
      if at == |cells[n].keys| + 1 && |cells[n].keys| < |cells[right].keys| {
        var l, r := cells[n], cells[right];
        cells := cells[n := NodeCell(l.keys + [key], l.kids + [r.kids[0]])];
        cells := cells[right := NodeCell(r.keys, [newchild] + r.kids[1..])];
        key := newkey;
      } else if at >= |cells[n].keys| + 1 {
        at := at - (|cells[n].keys| + 1);
        PutChild(right, at, newkey, newchild);
      } else {
        PutChild(n, at, newkey, newchild);
      }
    }

    /** The part of `insert_descend` that takes in the new sibling of child `slot`. */
    method TakeChild(n: nat, slot: nat, newkey: int, newchild: nat, ghost t: Tree, ghost child: Tree, ghost sibling: Tree, ghost cells0: Cells, ghost supply0: nat)
      returns (key: int, right: nat)
      requires m >= 4 && t.Node? && n == t.id && slot < |t.kids| == |t.keys| + 1 && |t.keys| <= m
      requires WithSibling(cells0, supply0, cells, supply, t, slot, child, sibling) && newchild == sibling.id
      modifies this`cells, this`supply
      ensures Inserted(cells0, supply0, cells, supply, t, InsertChild(t, m, slot, child, newkey, sibling, old(supply)), true, key, right)
      ensures forall a :: a in old(cells) && a != n && a != old(supply) ==> a in cells && cells[a] == old(cells)[a]
      ensures supply >= old(supply)
    {
      hide WithSibling, Inserted, InsertChild, CutPoint, Wide, Lower, Upper;
      SiblingPage(cells0, supply0, cells, supply, t, slot, child, sibling);
      ghost var before, supply1 := cells, supply;
      key, right := 0, 0;
      if |cells[n].keys| == m {
        key, right := InsertSplit(n, slot, newkey, newchild);
        AfterCut(cells0, supply0, before, cells, supply1, t, m, slot, child, newkey, sibling);
      } else {
        PutChild(n, slot, newkey, newchild);
        AfterPut(cells0, supply0, before, cells, supply1, t, m, slot, child, newkey, sibling);
      }
    }

    /** `insert_descend` */
    method InsertBelow(n: nat, k: int, v: int, ghost t: Tree, ghost lv: nat, ghost least: nat, ghost p: seq<nat>, ghost q: seq<nat>)
      returns (inserted: bool, key: int, right: nat, leaf: nat, at: nat)
      requires m >= 4 && Valid(t, m, lv, least) && Shaped(t, m, lv, least) && n == t.id
      requires Held(cells, next, prev, head, last, supply, t, p, q)
      modifies this`cells, this`next, this`prev, this`last, this`supply, this`hints
      ensures var r := InsertDescend(t, m, lv, least, k, v, old(supply));
        && Inserted(old(cells), old(supply), cells, supply, t, r, inserted, key, right)
        && Linked(next, prev, head, last, supply, p + AfterLeaves(r) + q)
      ensures Points(cells, supply, leaf, at, k) && leaf in AfterLeaves(InsertDescend(t, m, lv, least, k, v, old(supply)))
      decreases t
    {
      hide Linked, Inserted, AfterLeaves, Leaves, LeavesOf, Ids, IdsOf, Rep, Valid, InsertChild, InsertLeaf, LowerBound, Points, Shaped, WithSibling, Simple, BtreeHeap.Below, Located;
      PageOf(cells, t);
      LeafLevel(t, m, lv, least);
      if cells[n].LeafCell? {
        inserted, key, right, leaf, at := InsertSurface(n, k, v, t, least, p, q);
      } else {
        ghost var cells0, supply0 := cells, supply;
        DescendFacts(cells, next, prev, head, last, supply, t, m, lv, least, p, q, k);
        var slot := Find(n, cells[n].keys, k);
        ghost var p1, q1 := p + LeavesOf(t.kids[..slot]), LeavesOf(t.kids[slot + 1..]) + q;
        var newchild;
        inserted, key, newchild, leaf, at := InsertBelow(cells[n].kids[slot], k, v, t.kids[slot], lv - 1, m / 2, p1, q1);
        ghost var r := InsertDescend(t.kids[slot], m, lv - 1, m / 2, k, v, supply0);
        AfterChild(cells0, supply0, cells, supply, t, m, lv, least, slot, r, k, v, inserted, key, newchild);
        AfterChildLeaves(t, m, slot, r, p, q);
        StillAmong(t, m, slot, r, leaf);
        right := 0;
        if newchild != 0 {
          ghost var cells1, supply1 := cells, supply;
          key, right := TakeChild(n, slot, key, newchild, t, r.tree, r.split.right, cells0, supply0);
          StillLinked(next, prev, head, last, supply1, supply, p1 + AfterLeaves(r) + q1);
          StillPoints(cells1, cells, n, supply1, supply, leaf, at, k);
        }
      }
    }

    /** The first leaf of an empty tree. */
    method FirstLeaf()
      requires supply >= 1
      modifies this
      ensures size == old(size) && tree == Some(Leaf(root, [])) && level == 0
      ensures Held(cells, next, prev, head, last, supply, tree.tree, [], [])
    {
      hide Held;
      root := supply;
      supply := supply + 1;
      cells, next, prev := OnCells(cells, m, Start(root)), next[root := 0], prev[root := 0];
      head, last := root, root;
      tree, level := Some(Leaf(root, [])), 0;
      OneLeafHeld(cells, next, prev, root);
    }

    /** A split root gets a new root above it. */
    method GrowRoot(key: int, newchild: nat, ghost t: Tree, ghost right: Tree)
      requires m >= 4 && supply >= 1 && root == t.id && newchild == right.id && Rep(cells, t) && Rep(cells, right)
      requires Simple(Ids(t) + Ids(right)) && BtreeHeap.Below(Ids(t) + Ids(right), supply)
      requires Linked(next, prev, head, last, supply, Leaves(t) + Leaves(right))
      modifies this`cells, this`root, this`supply, this`tree, this`level
      ensures supply == old(supply) + 1 && level == old(level) + 1 && tree == Some(Node(old(supply), [key], [t, right])) && root == old(supply)
      ensures Held(cells, next, prev, head, last, supply, tree.tree, [], []) && Leaves(tree.tree) == Leaves(t) + Leaves(right)
      ensures forall a :: a in old(cells) && a != old(supply) ==> a in cells && cells[a] == old(cells)[a]
    {
      hide Rep, Simple, Linked, Ids, IdsOf, Leaves, LeavesOf, BtreeHeap.Below;
      ghost var before, supply0 := cells, supply;
      var newroot := supply;
      supply := supply + 1;
      cells := cells[newroot := NodeCell([key], [root, newchild])];
      root := newroot;
      tree, level := Some(Node(newroot, [key], [t, right])), level + 1;
      NewRoot(before, cells, supply0, key, t, right);
      StillLinked(next, prev, head, last, supply0, supply, Leaves(t) + Leaves(right));
      assert [] + Leaves(tree.tree) + [] == Leaves(t) + Leaves(right);
    }

    /** `insert_start`: the pair is added where it belongs, or the present one is found. */
    method Insert(k: int, v: int) returns (inserted: bool, leaf: nat, at: nat)
      requires Good()
      modifies this
      ensures Good()
      ensures inserted == !Has(old(Contents()), k) && Contents() == BtreeItems.Insert(old(Contents()), k, v)
      ensures Points(cells, supply, leaf, at, k) && tree.Some? && leaf in Leaves(tree.tree)
    {
      hide Held, Valid, Shaped, Items, Linked, Rep, InsertDescend, Points, Has, BtreeItems.Insert, Inserted, IsInsertion, Ids, Leaves, Simple, BtreeHeap.Below;
      ghost var contents := Contents();
      if tree.Some? { RootNotNull(cells, next, prev, head, last, supply, tree.tree); }
      if root == 0 {
        FirstLeaf();
        EmptyLeaf(tree.tree, m);
      } else {
        RootLeast(tree.tree, m, level);
      }
      ghost var t, lv := tree.tree, level;
      ghost var least := if lv == 0 then 0 else 1;
      ghost var supply0 := supply;
      ValidShaped(t, m, lv, least);
      ghost var r := InsertDescend(t, m, lv, least, k, v, supply);
      InsertCorrect(t, m, lv, least, k, v, supply);
      var key, newchild;
      ghost var cells0, next0, prev0, head0, last0 := cells, next, prev, head, last;
      inserted, key, newchild, leaf, at := InsertBelow(root, k, v, t, lv, least, [], []);
      InsertedRoot(cells0, next0, prev0, head0, last0, supply0, cells, next, prev, head, last, supply, t, m, lv, least, k, v, r, inserted, key, newchild);
      ValidSorted(t, m, lv, least);
      ValidRoot(r, contents, m, lv, least, k, v, supply);
      InsertedCount(contents, k, v);
      SplitLeaves(r);
      tree := Some(r.tree);
      if newchild != 0 {
        ghost var cells1 := cells;
        ghost var supply1 := supply;
        GrowRoot(key, newchild, r.tree, r.split.right);
        StillPointsAbove(cells1, cells, supply1, leaf, at, k);
      }
      if inserted { size := size + 1; }
    }

    // ---------- moving between two neighbours ----------

    /** `merge_leaves` */
    method MergeLeaves(l: nat, r: nat, ghost x: Tree, ghost key: int, ghost y: Tree, ghost p: seq<nat>, ghost q: seq<nat>)
      requires x.Leaf? && y.Leaf? && l == x.id && r == y.id && l != r && l in cells && r in cells && cells[l] == Page(x) && cells[r] == Page(y)
      requires |x.items| + |y.items| <= m && Linked(next, prev, head, last, supply, p + [l, r] + q)
      modifies this`cells, this`next, this`prev, this`last
      ensures cells == old(cells)[l := Page(Merge(x, key, y))][r := LeafCell([])]
      ensures Linked(next, prev, head, last, supply, p + [l] + q)
    {
      ghost var c := p + [l, r] + q;
      MergedChain(next, prev, head, last, supply, p, l, r, q);
      cells := OnCells(cells, m, Join(l, r));
      next := next[l := next[r]];
      if next[l] != 0 {
        prev := prev[next[l] := l];
      } else {
        last := l;
      }
    }

    /** `merge_interior` */
    method MergeInterior(l: nat, r: nat, parent: nat, i: nat, ghost x: Tree, ghost y: Tree)
      requires x.Node? && y.Node? && l == x.id && r == y.id && l != r && l in cells && r in cells && cells[l] == Page(x) && cells[r] == Page(y)
      requires parent in cells && cells[parent].NodeCell? && i < |cells[parent].keys| && y.kids != []
      modifies this`cells
      ensures cells == old(cells)[l := Page(Merge(x, old(cells)[parent].keys[i], y))][r := NodeCell([], [y.kids[0].id])]
    {
      MergePage(x, cells[parent].keys[i], y);
      var a, b := cells[l], cells[r];
      cells := cells[l := NodeCell(a.keys + [cells[parent].keys[i]] + b.keys, a.kids + b.kids)];
      assert b.kids[..1] == [y.kids[0].id];
      cells := cells[r := NodeCell([], b.kids[..1])];
    }

    /** `shift_left_surface`, `shift_left_interior` */
    method TakeRight(l: nat, r: nat, parent: nat, i: nat, ghost x: Tree, ghost y: Tree)
      requires SameKind(x, y) && Occupants(x) + 2 <= Occupants(y)
      requires l == x.id && r == y.id && l != r && l in cells && r in cells && cells[l] == Page(x) && cells[r] == Page(y)
      requires parent != l && parent != r && parent in cells && cells[parent].NodeCell? && i < |cells[parent].keys|
      modifies this`cells
      ensures var c := old(cells)[parent]; var s := ShiftLeft(x, c.keys[i], y);
        cells == old(cells)[l := Page(s.left)][r := Page(s.right)][parent := NodeCell(c.keys[i := s.key], c.kids)]
    {
      var a, b, c := cells[l], cells[r], cells[parent];
      if a.LeafCell? {
        cells := OnCells(cells, m, PullFrom(l, r));
        var items := cells[l].items;
        cells := cells[parent := NodeCell(c.keys[i := items[|items| - 1].key], c.kids)];
      } else {
        ShiftLeftPage(x, c.keys[i], y);
        var num := (|b.keys| - |a.keys|) / 2;
        cells := cells[l := NodeCell(a.keys + [c.keys[i]] + b.keys[..num - 1], a.kids + b.kids[..num])];
        cells := cells[r := NodeCell(b.keys[num..], b.kids[num..])];
        cells := cells[parent := NodeCell(c.keys[i := b.keys[num - 1]], c.kids)];
      }
    }

    /** `shift_right_surface`, `shift_right_interior` */
    method TakeLeft(l: nat, r: nat, parent: nat, i: nat, ghost x: Tree, ghost y: Tree)
      requires SameKind(x, y) && Occupants(y) + 2 <= Occupants(x)
      requires l == x.id && r == y.id && l != r && l in cells && r in cells && cells[l] == Page(x) && cells[r] == Page(y)
      requires parent != l && parent != r && parent in cells && cells[parent].NodeCell? && i < |cells[parent].keys|
      modifies this`cells
      ensures var c := old(cells)[parent]; var s := ShiftRight(x, c.keys[i], y);
        cells == old(cells)[l := Page(s.left)][r := Page(s.right)][parent := NodeCell(c.keys[i := s.key], c.kids)]
    {
      var a, b, c := cells[l], cells[r], cells[parent];
      if a.LeafCell? {
        cells := OnCells(cells, m, PushTo(l, r));
        var items := cells[l].items;
        cells := cells[parent := NodeCell(c.keys[i := items[|items| - 1].key], c.kids)];
      } else {
        ShiftRightPage(x, c.keys[i], y);
        var num := (|a.keys| - |b.keys|) / 2;
        var rest := |a.keys| - num;
        cells := cells[l := NodeCell(a.keys[..rest], a.kids[..rest + 1])];
        cells := cells[r := NodeCell(a.keys[rest + 1..] + [c.keys[i]] + b.keys, a.kids[rest + 1..] + b.kids)];
        cells := cells[parent := NodeCell(c.keys[i := a.keys[rest]], c.kids)];
      }
    }

    /** Merging children `i` and `i + 1` of a node; the emptied one stays in its page. */
    method MergeKids(l: nat, r: nat, parent: nat, i: nat, ghost n: Tree, ghost p: seq<nat>, ghost q: seq<nat>)
      requires PairHeld(cells, n, i) && l == n.kids[i].id && r == n.kids[i + 1].id && parent == n.id
      requires Occupants(n.kids[i]) + Occupants(n.kids[i + 1]) <= m && Linked(next, prev, head, last, supply, p + Leaves(n) + q)
      modifies this`cells, this`next, this`prev, this`last
      ensures MergeStage(cells, n, i) && Only(old(cells), cells, Ids(n))
      ensures Linked(next, prev, head, last, supply, p + Leaves(MergeAt(n, i)) + q)
    {
      hide PairHeld, MergeStage, Linked, Leaves, LeavesOf, MergeAt, Merge, Page, Ids, Only, Rep, Simple;
      PairFacts(cells, n, i);
      ghost var before := cells;
      ghost var x, y := n.kids[i], n.kids[i + 1];
      ghost var a, b := LeavesOf(n.kids[..i]), LeavesOf(n.kids[i + 2..]);
      PairParts(n, i);
      MergeAtIds(n, i);
      if cells[l].LeafCell? {
        IdsOfLeaf(x);
        IdsOfLeaf(y);
        assert p + Leaves(n) + q == (p + a) + [l, r] + (b + q);
        assert p + Leaves(MergeAt(n, i)) + q == (p + a) + [l] + (b + q);
        MergeLeaves(l, r, x, n.keys[i], y, p + a, b + q);
        MergePages(before, cells, n, i, LeafCell([]));
      } else {
        assert p + Leaves(MergeAt(n, i)) + q == p + Leaves(n) + q;
        MergeInterior(l, r, parent, i, x, y);
        MergePages(before, cells, n, i, NodeCell([], [y.kids[0].id]));
      }
    }

    /** Child `i` takes from child `i + 1`. */
    method BalanceLeft(l: nat, r: nat, parent: nat, i: nat, ghost n: Tree)
      requires PairHeld(cells, n, i) && l == n.kids[i].id && r == n.kids[i + 1].id && parent == n.id
      requires Occupants(n.kids[i]) + 2 <= Occupants(n.kids[i + 1])
      modifies this`cells
      ensures var t := Replace(n, i, ShiftLeft(n.kids[i], n.keys[i], n.kids[i + 1]));
        Rep(cells, t) && Leaves(t) == Leaves(n) && Only(old(cells), cells, Ids(n))
    {
      hide PairHeld, Leaves, Page, Ids, Only, Rep, Simple, ShiftLeft, Replace, Exchanged, Occupants, SameKind;
      PairFacts(cells, n, i);
      ghost var before := cells;
      ghost var s := ShiftLeft(n.kids[i], n.keys[i], n.kids[i + 1]);
      ShiftLeftExchanges(n.kids[i], n.keys[i], n.kids[i + 1]);
      ExchangedId(s, n.kids[i], n.kids[i + 1]);
      ReplaceIds(n, i, s);
      TakeRight(l, r, parent, i, n.kids[i], n.kids[i + 1]);
      ReplacePages(before, cells, n, i, s);
    }

    /** Child `i + 1` takes from child `i`. */
    method BalanceRight(l: nat, r: nat, parent: nat, i: nat, ghost n: Tree)
      requires PairHeld(cells, n, i) && l == n.kids[i].id && r == n.kids[i + 1].id && parent == n.id
      requires Occupants(n.kids[i + 1]) + 2 <= Occupants(n.kids[i])
      modifies this`cells
      ensures var t := Replace(n, i, ShiftRight(n.kids[i], n.keys[i], n.kids[i + 1]));
        Rep(cells, t) && Leaves(t) == Leaves(n) && Only(old(cells), cells, Ids(n))
    {
      hide PairHeld, Leaves, Page, Ids, Only, Rep, Simple, ShiftRight, Replace, Exchanged, Occupants, SameKind;
      PairFacts(cells, n, i);
      ghost var before := cells;
      ghost var s := ShiftRight(n.kids[i], n.keys[i], n.kids[i + 1]);
      ShiftRightExchanges(n.kids[i], n.keys[i], n.kids[i + 1]);
      ExchangedId(s, n.kids[i], n.kids[i + 1]);
      ReplaceIds(n, i, s);
      TakeLeft(l, r, parent, i, n.kids[i], n.kids[i + 1]);
      ReplacePages(before, cells, n, i, s);
    }

    /** The repair of an underflow, chosen by what the neighbours hold. */
    method FixUnderflow(c: nat, left: nat, right: nat, leftparent: nat, rightparent: nat, parent: nat, slot: nat,
                        ghost n: Tree, ghost lv: nat, ghost cl: MaybeTree, ghost cr: MaybeTree, ghost p: seq<nat>, ghost q: seq<nat>)
      returns (fixmerge: bool)
      requires m >= 4 && n.Node? && LooseRow(n.keys, n.kids, m, lv, slot) && Neighbours(n, slot, cl, cr) && Occupants(n.kids[slot]) < m / 2
      requires Rep(cells, n) && Simple(Ids(n)) && Linked(next, prev, head, last, supply, p + Leaves(n) + q)
      requires parent == n.id && c == n.kids[slot].id && IsNeighbour(cells, left, cl) && IsNeighbour(cells, right, cr)
      requires (leftparent == parent <==> slot > 0) && (rightparent == parent <==> slot < |n.keys|)
      modifies this`cells, this`next, this`prev, this`last
      ensures Only(old(cells), cells, Ids(n)) && Fixed(cells, n, slot, cl, cr, m, fixmerge)
      ensures Linked(next, prev, head, last, supply, p + Leaves(Rebalance(n, slot, cl, cr, m)) + q)
    {
      hide LooseRow, Rep, Simple, Ids, Linked, Leaves, Only, Rebalance, PairHeld, MergeStage, MergeAt, Replace, ShiftLeft, ShiftRight;
      ChoiceIsLocal(n, slot, cl, cr, m);
      PairsHeld(cells, n, slot, m, lv);
      RebalanceIs(n, slot, cl, cr, m);
      var leftFew := left != 0 && PageOccupants(cells[left]) <= m / 2;
      var rightFew := right != 0 && PageOccupants(cells[right]) <= m / 2;
      fixmerge := false;
      if (left == 0 || leftFew) && (right == 0 || rightFew) {
        fixmerge := true;
        if leftparent == parent {
          MergeKids(left, c, parent, slot - 1, n, p, q);
        } else {
          MergeKids(c, right, parent, slot, n, p, q);
        }
      } else if (left != 0 && leftFew) && (right != 0 && !rightFew) {
        if rightparent == parent {
          BalanceLeft(c, right, parent, slot, n);
        } else {
          fixmerge := true;
          MergeKids(left, c, parent, slot - 1, n, p, q);
        }
      } else if (left != 0 && !leftFew) && (right != 0 && rightFew) {
        if leftparent == parent {
          BalanceRight(left, c, parent, slot - 1, n);
        } else {
          fixmerge := true;
          MergeKids(c, right, parent, slot, n, p, q);
        }
      } else if leftparent == rightparent {
        if PageOccupants(cells[left]) <= PageOccupants(cells[right]) {
          BalanceLeft(c, right, parent, slot, n);
        } else {
          BalanceRight(left, c, parent, slot - 1, n);
        }
      } else {
        if leftparent == parent {
          BalanceRight(left, c, parent, slot - 1, n);
        } else {
          BalanceLeft(c, right, parent, slot, n);
        }
      }
    }

    /** Takes the child that a merge emptied out of its parent. */
    method RemoveEmpty(curr: nat, slot0: nat, ghost n: Tree, ghost i: nat)
      requires MergeStage(cells, n, i) && Simple(Ids(n)) && curr == n.id
      requires (slot0 == i + 1 || slot0 == i) && Occupants(Merge(n.kids[i], n.keys[i], n.kids[i + 1])) >= 1
      modifies this`cells
      ensures Rep(cells, MergeAt(n, i)) && Only(old(cells), cells, Ids(n))
    {
      hide Rep, Simple, Ids, Only, Merge;
      ghost var before := cells;
      ghost var merged := Merge(n.kids[i], n.keys[i], n.kids[i + 1]);
      RepPage(cells, merged);
      MergeId(n.kids[i], n.keys[i], n.kids[i + 1]);
      var slot := slot0;
      var c := cells[curr];
      if PageOccupants(cells[c.kids[slot]]) != 0 {
        slot := slot + 1;
      }
      var keys := c.keys[..slot - 1] + c.keys[slot..];
      var kids := c.kids[..slot] + c.kids[slot + 1..];
      slot := slot - 1;
      var child := cells[kids[slot]];
      if child.LeafCell? && slot < |keys| {
        keys := keys[slot := child.items[|child.items| - 1].key];
      }
      cells := cells[curr := NodeCell(keys, kids)];
      RemovePages(before, cells, n, i);
    }

    // ---------- erasing ----------

    /** The leaf end of `erase_one_descend`. */
    method EraseSurface(k: int, curr: nat, ghost t: Tree, ghost least: nat)
      returns (found: bool, haslast: bool, lastkey: int)
      requires Valid(t, m, 0, least) && curr == t.id && Rep(cells, t)
      modifies this`cells, this`hints
      ensures IsErased(EraseLeaf(t, k), old(cells), cells, t, found, haslast, lastkey)
      ensures found ==> Leaves(EraseLeaf(t, k).tree) == Leaves(t)
    {
      hide Slot, Sorted, Ascending, Has, Ids, Leaves;
      IdsOfLeaf(t);
      SlotIs(t.items, k);
      PageOf(cells, t);
      var items := cells[curr].items;
      haslast, lastkey := false, 0;
      var slot := Find(curr, Keys(items), k);
      if slot >= |items| || items[slot].key != k { return false, false, 0; }
      found := true;
      var rest := items[..slot] + items[slot + 1..];
      IdsOfLeaf(Leaf(t.id, rest));
      cells := OnCells(cells, m, TakeOut(curr, slot));
      if slot == |rest| && |rest| >= 1 {
        haslast, lastkey := true, rest[|rest| - 1].key;
      }
    }

    /** `erase_one_descend` for a node with a parent: erase below it, tell the parent about a
        new last key, and repair an underflow with a neighbour. */
    method EraseChild(k: int, c: nat, left: nat, right: nat, leftparent: nat, rightparent: nat, parent: nat, slot: nat,
                      ghost t: Tree, ghost lv: nat, ghost least: nat, ghost cl: MaybeTree, ghost cr: MaybeTree, ghost p: seq<nat>, ghost q: seq<nat>)
      returns (found: bool, haslast: bool, lastkey: int, fixmerge: bool)
      requires Entering(cells, supply, t, m, lv, least, k, slot, cl, cr) && Linked(next, prev, head, last, supply, p + Leaves(t) + q)
      requires parent == t.id && c == t.kids[slot].id
      requires left == AddressOf(LeftOf(t, slot, cl)) && right == AddressOf(RightOf(t, slot, cr))
      requires if slot > 0 then leftparent == parent else leftparent !in Ids(t)
      requires if slot < |t.keys| then rightparent == parent else rightparent !in Ids(t)
      modifies this`cells, this`next, this`prev, this`last, this`hints
      ensures var r := EraseIn(t.kids[slot], m, k, LeftOf(t, slot, cl), RightOf(t, slot, cr));
        && found == r.Erased?
        && (!found ==> cells == old(cells) && Linked(next, prev, head, last, supply, p + Leaves(t) + q))
        && (found ==>
              var n := WithChild(t, slot, r.tree, r.last);
              && ChildDone(cells, n, slot, LeftOf(t, slot, cl), RightOf(t, slot, cr), m, fixmerge) && Only(old(cells), cells, Ids(t))
              && Linked(next, prev, head, last, supply, p + Leaves(Repaired(n, slot, LeftOf(t, slot, cl), RightOf(t, slot, cr), m)) + q)
              && (haslast <==> r.last.NewLast? && slot == |t.keys|) && (haslast ==> lastkey == r.last.key))
      decreases t.kids[slot], 1
    {
      hide Linked, Leaves, LeavesOf, Ids, IdsOf, Rep, Valid, Simple, BtreeHeap.Below, Away, Cousin, LeftOf, RightOf, EraseIn, Entering, Only, Fixed, LooseRow, Rebalance, IsNeighbour;
      EnterChild(cells, supply, t, m, lv, least, k, slot, cl, cr);
      ghost var cells0 := cells;
      ghost var kid, nl, nr := t.kids[slot], LeftOf(t, slot, cl), RightOf(t, slot, cr);
      ghost var r := EraseIn(kid, m, k, nl, nr);
      ghost var p1, q1 := p + LeavesOf(t.kids[..slot]), LeavesOf(t.kids[slot + 1..]) + q;
      WithChildLeaves(t, slot, kid, Unchanged, p, q);
      found, haslast, lastkey := EraseInside(k, c, left, right, leftparent, rightparent, kid, lv - 1, m / 2, nl, nr, p1, q1);
      fixmerge := false;
      if !found { return; }
      ghost var mid := cells;
      WithChildLeaves(t, slot, r.tree, r.last, p, q);
      ParentPage(cells0, cells, supply, t, m, lv, least, k, slot, cl, cr);
      if haslast && slot < |cells[parent].keys| {
        cells := cells[parent := NodeCell(cells[parent].keys[slot := lastkey], cells[parent].kids)];
        haslast := false;
      }
      ChildErased(cells0, mid, cells, supply, t, m, lv, least, k, slot, cl, cr, r);
      ghost var n := WithChild(t, slot, r.tree, r.last);
      ghost var cells1 := cells;
      ChildPage(cells, n, slot);
      if PageOccupants(cells[c]) < m / 2 {
        fixmerge := FixUnderflow(c, left, right, leftparent, rightparent, parent, slot, n, lv - 1, nl, nr, p, q);
        OnlyMore(cells0, cells1, cells, Ids(t), Ids(n));
      }
    }

    /** The neighbours handed to child `slot`, and their parents. */
    method NeighbourPages(curr: nat, slot: nat, left: nat, right: nat, leftparent: nat, rightparent: nat,
                          ghost t: Tree, ghost slots: nat, ghost lv: nat, ghost cl: MaybeTree, ghost cr: MaybeTree)
      returns (myleft: nat, myright: nat, myleftparent: nat, myrightparent: nat)
      requires t.Node? && slot < |t.kids| == |t.keys| + 1 && curr in cells && cells[curr] == NodeCell(t.keys, IdList(t.kids))
      requires slots >= 4 && lv >= 1 && Cousin(cl, slots, lv) && Cousin(cr, slots, lv) && left == AddressOf(cl) && right == AddressOf(cr)
      requires Away(cells, cl, Ids(t)) && Away(cells, cr, Ids(t))
      ensures myleft == AddressOf(LeftOf(t, slot, cl)) && myright == AddressOf(RightOf(t, slot, cr))
      ensures myleftparent == (if slot > 0 then curr else leftparent) && myrightparent == (if slot < |t.keys| then curr else rightparent)
    {
      hide Ids, Away, Cousin;
      CousinPage(cells, cl, Ids(t), slots, lv);
      CousinPage(cells, cr, Ids(t), slots, lv);
      var node := cells[curr];
      myleft, myleftparent, myright, myrightparent := 0, leftparent, 0, rightparent;
      if slot == 0 {
        if left != 0 { myleft := cells[left].kids[|cells[left].keys| - 1]; }
      } else {
        myleft, myleftparent := node.kids[slot - 1], curr;
      }
      if slot == |node.keys| {
        if right != 0 { myright := cells[right].kids[0]; }
      } else {
        myright, myrightparent := node.kids[slot + 1], curr;
      }
    }

    /** `erase_one_descend`, below one node: find the leaf, and take out a child that a merge
        emptied. */
    method EraseInside(k: int, curr: nat, left: nat, right: nat, leftparent: nat, rightparent: nat,
                       ghost t: Tree, ghost lv: nat, ghost least: nat, ghost cl: MaybeTree, ghost cr: MaybeTree, ghost p: seq<nat>, ghost q: seq<nat>)
      returns (found: bool, haslast: bool, lastkey: int)
      requires m >= 4 && Valid(t, m, lv, least) && (lv > 0 ==> least >= 1) && Cousin(cl, m, lv) && Cousin(cr, m, lv) && curr == t.id
      requires Rep(cells, t) && Simple(Ids(t)) && BtreeHeap.Below(Ids(t), supply) && Linked(next, prev, head, last, supply, p + Leaves(t) + q)
      requires Away(cells, cl, Ids(t)) && Away(cells, cr, Ids(t)) && left == AddressOf(cl) && right == AddressOf(cr)
      requires leftparent !in Ids(t) && rightparent !in Ids(t)
      modifies this`cells, this`next, this`prev, this`last, this`hints
      ensures var r := EraseIn(t, m, k, cl, cr);
        && IsErased(r, old(cells), cells, t, found, haslast, lastkey)
        && Linked(next, prev, head, last, supply, p + (if found then Leaves(r.tree) else Leaves(t)) + q)
      decreases t, 0
    {
      hide Linked, Leaves, LeavesOf, Ids, IdsOf, Rep, Valid, Simple, BtreeHeap.Below, Away, Cousin, LowerBound, EraseLeaf, Only, Entering, ChildDone, Repaired, Entered, Ascending, MergeStage, MergeAt, Choose, Merge, LeftOf, RightOf;
      PageOf(cells, t);
      LeafLevel(t, m, lv, least);
      if cells[curr].LeafCell? {
        found, haslast, lastkey := EraseSurface(k, curr, t, least);
      } else {
        ghost var cells0 := cells;
        Enter(cells, supply, t, m, lv, least, k, cl, cr);
        IdsSelf(t);
        var node := cells[curr];
        var slot := Find(curr, node.keys, k);
        var myleft, myright, myleftparent, myrightparent :=
          NeighbourPages(curr, slot, left, right, leftparent, rightparent, t, m, lv, cl, cr);
        var fixmerge;
        found, haslast, lastkey, fixmerge :=
          EraseChild(k, node.kids[slot], myleft, myright, myleftparent, myrightparent, curr, slot, t, lv, least, cl, cr, p, q);
        if found {
          ghost var nl, nr := LeftOf(t, slot, cl), RightOf(t, slot, cr);
          ghost var r := EraseIn(t.kids[slot], m, k, nl, nr);
          ghost var n := WithChild(t, slot, r.tree, r.last);
          ghost var cells1 := cells;
          ChildDoneMeans(cells, cells0, supply, t, m, lv, least, k, slot, cl, cr, r, fixmerge);
          if fixmerge {
            RemoveEmpty(curr, slot, n, MergedSlot(Choose(nl, nr, slot > 0, slot < |n.keys|, m), slot));
            OnlyMore(cells0, cells1, cells, Ids(t), Ids(n));
          }
        }
      }
    }

    /** `erase_one`: the pair with the key is removed, or nothing changes. */
    method Erase(k: int) returns (erased: bool)
      requires Good()
      modifies this
      ensures Good()
      ensures erased == Has(old(Contents()), k) && Contents() == Remove(old(Contents()), k)
    {
      hide Held, Valid, Items, Linked, Rep, EraseIn, Has, Remove, IsErased, IsErasure, Ids, Leaves, Simple, BtreeHeap.Below, Away, Cousin;
      if tree.Some? { RootNotNull(cells, next, prev, head, last, supply, tree.tree); }
      if root == 0 {
        NothingToErase(k);
        return false;
      }
      ghost var t, lv := tree.tree, level;
      ghost var cells0 := cells;
      ghost var r := EraseIn(t, m, k, Nil, Nil);
      RootErases(cells, next, prev, head, last, supply, t, m, lv);
      EraseCorrect(t, m, lv, 1, k, Nil, Nil);
      EraseIds(t, m, lv, 1, k, Nil, Nil);
      var haslast, lastkey;
      erased, haslast, lastkey := EraseInside(k, root, 0, 0, 0, 0, t, lv, 1, Nil, Nil, [], []);
      RootErased(cells0, cells, next, prev, head, last, supply, t, m, lv, k, r, erased, haslast, lastkey);
      if erased {
        tree := Some(r.tree);
        if PageOccupants(cells[root]) == 0 {
          if cells[root].LeafCell? {
            root, head, last := 0, 0, 0;
            tree := Nil;
          } else {
            root := cells[root].kids[0];
            tree, level := Some(r.tree.kids[0]), level - 1;
          }
        }
        size := size - 1;
      }
    }

    // ---------- looking up ----------

    /** `lower_bound` on a tree that is not empty: the first pair with a key from `k` on. */
    method Seek(k: int) returns (leaf: nat, slot: nat, ghost i: nat)
      requires Good() && tree.Some?
      modifies this`hints
      ensures var c := Leaves(tree.tree);
        && i < |c| && c[i] == leaf && Normal(cells, c, i, slot) && Flat(cells, c, i, slot) == Slot(Contents(), k)
    {
      hide Valid, Rep, Items, Leaves, LeavesOf, Seeking, LowerBound, Slot, Normal, Flat, Ascending, Sorted, Ids, Simple, Linked, BtreeHeap.Below;
      var n := root;
      ghost var whole, t, lv: nat, least: nat, p: seq<nat>, q: seq<nat> := tree.tree, tree.tree, level, 1, [], [];
      SeekStart(cells, t, m, lv, k, false);
      PageOf(cells, t);
      while cells[n].NodeCell?
        invariant n == t.id && n in cells && (t.Leaf? <==> cells[n].LeafCell?)
        invariant t.Node? ==> cells[n] == NodeCell(t.keys, IdList(t.kids))
        invariant t.Leaf? ==> cells[n] == LeafCell(t.items)
        invariant Seeking(cells, whole, t, m, lv, least, k, false, p, q)
        decreases t
      {
        SeekStep(cells, whole, t, m, lv, least, k, false, p, q);
        slot := Find(n, cells[n].keys, k);
        n := cells[n].kids[slot];
        p, q := p + LeavesOf(t.kids[..slot]), LeavesOf(t.kids[slot + 1..]) + q;
        t, lv, least := t.kids[slot], lv - 1, m / 2;
        SeekPage(cells, whole, t, m, lv, least, k, false, p, q);
      }
      SeekEnd(cells, whole, t, m, lv, least, k, false, p, q);
      SlotMeans(Contents(), k);
      leaf, i := n, |p|;
      slot := Find(n, Keys(cells[n].items), k);
    }

    /** `upper_bound` on a tree that is not empty: the first pair with a key above `k`. */
    method SeekAbove(k: int) returns (leaf: nat, slot: nat, ghost i: nat)
      requires Good() && tree.Some?
      ensures var c := Leaves(tree.tree);
        && i < |c| && c[i] == leaf && Normal(cells, c, i, slot) && Flat(cells, c, i, slot) == UpperBound(Keys(Contents()), k)
    {
      hide Valid, Rep, Items, Leaves, LeavesOf, Seeking, LowerBound, UpperBound, Normal, Flat, Ascending, Sorted, Ids, Simple, Linked, BtreeHeap.Below;
      var n := root;
      ghost var whole, t, lv: nat, least: nat, p: seq<nat>, q: seq<nat> := tree.tree, tree.tree, level, 1, [], [];
      SeekStart(cells, t, m, lv, k, true);
      PageOf(cells, t);
      while cells[n].NodeCell?
        invariant n == t.id && n in cells && (t.Leaf? <==> cells[n].LeafCell?)
        invariant t.Node? ==> cells[n] == NodeCell(t.keys, IdList(t.kids))
        invariant t.Leaf? ==> cells[n] == LeafCell(t.items)
        invariant Seeking(cells, whole, t, m, lv, least, k, true, p, q)
        decreases t
      {
        SeekStep(cells, whole, t, m, lv, least, k, true, p, q);
        slot := FindUpper(cells[n].keys, k);
        n := cells[n].kids[slot];
        p, q := p + LeavesOf(t.kids[..slot]), LeavesOf(t.kids[slot + 1..]) + q;
        t, lv, least := t.kids[slot], lv - 1, m / 2;
        SeekPage(cells, whole, t, m, lv, least, k, true, p, q);
      }
      SeekEnd(cells, whole, t, m, lv, least, k, true, p, q);
      leaf, i := n, |p|;
      slot := FindUpper(Keys(cells[n].items), k);
    }

    /** The value of a key, if it is there: `find`. */
    method Lookup(k: int) returns (found: bool, value: int)
      requires Good()
      modifies this`hints
      ensures found == Has(Contents(), k)
      ensures found ==> Contents()[Slot(Contents(), k)] == Item(k, value)
    {
      hide Slot, Flat, Pages, Normal, Leaves, Items, Held, Valid;
      found, value := false, 0;
      if tree.Some? { RootNotNull(cells, next, prev, head, last, supply, tree.tree); }
      if root == 0 {
        NothingToErase(k);
        return;
      }
      var leaf, slot;
      ghost var i;
      leaf, slot, i := Seek(k);
      CursorFacts(cells, next, prev, head, last, supply, tree.tree, m, level, i);
      SoughtItem(cells, next, prev, head, last, supply, tree.tree, m, level, i, slot, k);
      if slot < |cells[leaf].items| && cells[leaf].items[slot].key == k {
        found, value := true, cells[leaf].items[slot].value;
      }
    }

    /** `++` */
    method Step(leaf0: nat, slot0: nat, ghost i0: nat) returns (leaf: nat, slot: nat, ghost i: nat)
      requires Good() && tree.Some? && i0 < |Leaves(tree.tree)| && Leaves(tree.tree)[i0] == leaf0
      requires Normal(cells, Leaves(tree.tree), i0, slot0)
      ensures var c := Leaves(tree.tree);
        && i < |c| && c[i] == leaf && Normal(cells, c, i, slot)
        && Flat(cells, c, i, slot) == Least(Flat(cells, c, i0, slot0) + 1, |Contents()|)
    {
      hide Pages, Leaves, Items, Held, Valid;
      leaf, slot, i := leaf0, slot0, i0;
      CursorFacts(cells, next, prev, head, last, supply, tree.tree, m, level, i);
      if slot + 1 < |cells[leaf].items| {
        slot := slot + 1;
      } else if next[leaf] != 0 {
        CursorFacts(cells, next, prev, head, last, supply, tree.tree, m, level, i + 1);
        leaf, slot, i := next[leaf], 0, i + 1;
      } else {
        slot := |cells[leaf].items|;
      }
    }

    /** `+= count` for a count that is not negative: as many steps, page by page. */
    method Advance(leaf0: nat, slot0: nat, count: nat, ghost i0: nat) returns (leaf: nat, slot: nat, ghost i: nat)
      requires Good() && tree.Some? && i0 < |Leaves(tree.tree)| && Leaves(tree.tree)[i0] == leaf0
      requires Normal(cells, Leaves(tree.tree), i0, slot0)
      ensures var c := Leaves(tree.tree);
        && i < |c| && c[i] == leaf && Normal(cells, c, i, slot)
        && Flat(cells, c, i, slot) == Least(Flat(cells, c, i0, slot0) + count, |Contents()|)
    {
      hide Pages, Leaves, Items, Held, Valid;
      ghost var c := Leaves(tree.tree);
      var remaining := count;
      leaf, slot, i := leaf0, slot0, i0;
      CursorFacts(cells, next, prev, head, last, supply, tree.tree, m, level, i);
      while true
        invariant i < |c| && c[i] == leaf && leaf in cells && cells[leaf].LeafCell? && remaining >= 0
        invariant slot <= |PageItems(cells, leaf)|
        invariant Flat(cells, c, i, slot) + remaining == Flat(cells, c, i0, slot0) + count
        decreases |c| - i
      {
        CursorFacts(cells, next, prev, head, last, supply, tree.tree, m, level, i);
        if slot + remaining < |cells[leaf].items| {
          slot := slot + remaining;
          break;
        } else if next[leaf] != 0 {
          CursorFacts(cells, next, prev, head, last, supply, tree.tree, m, level, i + 1);
          remaining := remaining - (|cells[leaf].items| - slot);
          leaf, slot, i := next[leaf], 0, i + 1;
        } else {
          slot := |cells[leaf].items|;
          break;
        }
      }
    }

    /** The same by single steps; a place in the list determines the iterator. */
    method StepTimes(leaf0: nat, slot0: nat, count: nat, ghost i0: nat) returns (leaf: nat, slot: nat, ghost i: nat)
      requires Good() && tree.Some? && i0 < |Leaves(tree.tree)| && Leaves(tree.tree)[i0] == leaf0
      requires Normal(cells, Leaves(tree.tree), i0, slot0)
      ensures var c := Leaves(tree.tree);
        && i < |c| && c[i] == leaf && Normal(cells, c, i, slot)
        && Flat(cells, c, i, slot) == Least(Flat(cells, c, i0, slot0) + count, |Contents()|)
    {
      hide Pages, Leaves, Items, Held, Valid;
      leaf, slot, i := leaf0, slot0, i0;
      CursorFacts(cells, next, prev, head, last, supply, tree.tree, m, level, i);
      ghost var c := Leaves(tree.tree);
      for n := 0 to count
        invariant i < |c| && c[i] == leaf && Normal(cells, c, i, slot)
        invariant Flat(cells, c, i, slot) == Least(Flat(cells, c, i0, slot0) + n, |Contents()|)
      {
        leaf, slot, i := Step(leaf, slot, i);
      }
    }

    /** `count`: the pairs between two iterators. */
    method Count(leaf: nat, slot: nat, to: nat, toSlot: nat, ghost i: nat, ghost j: nat) returns (total: int)
      requires Good() && tree.Some? && i <= j < |Leaves(tree.tree)| && Leaves(tree.tree)[i] == leaf && Leaves(tree.tree)[j] == to
      ensures total == Flat(cells, Leaves(tree.tree), j, toSlot) - Flat(cells, Leaves(tree.tree), i, slot)
    {
      hide Pages, Leaves, Items, Held, Valid;
      ghost var c := Leaves(tree.tree);
      total := 0;
      var n := leaf;
      ghost var x := i;
      CursorFacts(cells, next, prev, head, last, supply, tree.tree, m, level, i);
      while n != 0 && n != to
        invariant i <= x <= j && n == c[x] && n in cells && cells[n].LeafCell? && n in next
        invariant total == |Pages(cells, c[..x])| - |Pages(cells, c[..i])|
        decreases j - x
      {
        CursorFacts(cells, next, prev, head, last, supply, tree.tree, m, level, x);
        CursorFacts(cells, next, prev, head, last, supply, tree.tree, m, level, x + 1);
        total := total + |cells[n].items|;
        n := next[n];
        x := x + 1;
      }
      LeafPlace(cells, next, prev, head, last, supply, tree.tree, x, j);
      total := total + toSlot;
      total := total - slot;
    }

    /** `it += count` is `count` times `++it`, and `count(it, it + count)` is `count` unless the
        end comes before. */
    method AdvanceIsSteps(leaf0: nat, slot0: nat, count: nat, ghost i0: nat)
      returns (byPages: (nat, nat), bySteps: (nat, nat), counted: int)
      requires Good() && tree.Some? && i0 < |Leaves(tree.tree)| && Leaves(tree.tree)[i0] == leaf0
      requires Normal(cells, Leaves(tree.tree), i0, slot0)
      ensures byPages == bySteps
      ensures var place := Flat(cells, Leaves(tree.tree), i0, slot0);
        place <= |Contents()| && counted == if place + count <= |Contents()| then count else |Contents()| - place
    {
      hide Pages, Leaves, Items, Held, Valid;
      ghost var c := Leaves(tree.tree);
      ghost var i, j;
      var leaf, slot, leaf', slot';
      CursorFacts(cells, next, prev, head, last, supply, tree.tree, m, level, i0);
      leaf, slot, i := Advance(leaf0, slot0, count, i0);
      leaf', slot', j := StepTimes(leaf0, slot0, count, i0);
      PositionUnique(cells, c, i, slot, j, slot');
      PositionOrder(cells, c, i0, slot0, i, slot);
      byPages, bySteps := (leaf, slot), (leaf', slot');
      counted := Count(leaf0, slot0, leaf, slot, i0, i);
    }
  }
}
