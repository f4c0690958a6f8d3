/** Positions in the chain of leaf pages, against the flat list of pairs. */
module BtreeCursor {
  import opened BtreeItems
  import opened BtreeTree
  import opened BtreeHeap
  import opened BtreeInsertPages
  import opened BtreeSearch

  function PageItems(cells: Cells, n: nat): seq<Item> {
    if n in cells && cells[n].LeafCell? then cells[n].items else []
  }

  /** The pairs of a chain of leaf pages. */
  ghost function Pages(cells: Cells, c: seq<nat>): seq<Item> {
    if c == [] then [] else PageItems(cells, c[0]) + Pages(cells, c[1..])
  }

  lemma {:induction false} PagesConcat(cells: Cells, a: seq<nat>, b: seq<nat>)
    ensures Pages(cells, a + b) == Pages(cells, a) + Pages(cells, b)
  {
    if a == [] {
      assert a + b == b;
    } else {
      assert (a + b)[1..] == a[1..] + b;
      PagesConcat(cells, a[1..], b);
    }
  }

  lemma {:induction false} PagesOne(cells: Cells, n: nat)
    ensures Pages(cells, [n]) == PageItems(cells, n)
  {
    assert [n][1..] == [];
  }

  /** The chain of the leaves spells out the tree. */
  lemma {:induction false} LeafPages(cells: Cells, t: Tree)
    requires Rep(cells, t)
    ensures Pages(cells, Leaves(t)) == Items(t)
    decreases t, 0
  {
    if t.Leaf? {
      PagesOne(cells, t.id);
    } else {
      LeafPagesOf(cells, t.kids);
    }
  }

  lemma {:induction false} LeafPagesOf(cells: Cells, kids: seq<Tree>)
    requires RepAll(cells, kids)
    ensures Pages(cells, LeavesOf(kids)) == ItemsOf(kids)
    decreases kids, 1
  {
    if kids != [] {
      assert Rep(cells, kids[0]);
      LeafPages(cells, kids[0]);
      assert forall i :: 0 <= i < |kids[1..]| ==> kids[1..][i] == kids[i + 1];
      LeafPagesOf(cells, kids[1..]);
      PagesConcat(cells, Leaves(kids[0]), LeavesOf(kids[1..]));
    }
  }

  /** How many pairs come before a position. */
  ghost function Flat(cells: Cells, c: seq<nat>, i: nat, slot: nat): nat
    requires i <= |c|
  {
    |Pages(cells, c[..i])| + slot
  }

  /** A position an iterator can have: at a pair, or behind the last one. */
  ghost predicate Normal(cells: Cells, c: seq<nat>, i: nat, slot: nat) {
    i < |c| && (slot < |PageItems(cells, c[i])| || (i == |c| - 1 && slot == |PageItems(cells, c[i])|))
  }

  lemma {:induction false} FlatNext(cells: Cells, c: seq<nat>, i: nat)
    requires i < |c|
    ensures |Pages(cells, c[..i + 1])| == |Pages(cells, c[..i])| + |PageItems(cells, c[i])|
  {
    assert c[..i + 1] == c[..i] + [c[i]];
    PagesConcat(cells, c[..i], [c[i]]);
    PagesOne(cells, c[i]);
  }

  lemma {:induction false} FlatMono(cells: Cells, c: seq<nat>, i: nat, j: nat)
    requires i <= j <= |c|
    ensures |Pages(cells, c[..i])| <= |Pages(cells, c[..j])|
    decreases j - i
  {
    if i < j {
      FlatNext(cells, c, i);
      FlatMono(cells, c, i + 1, j);
    }
  }

  /** The pair at a position is the pair at its place in the flat list. */
  lemma {:induction false} FlatItem(cells: Cells, c: seq<nat>, i: nat, slot: nat)
    requires i < |c| && slot < |PageItems(cells, c[i])|
    ensures Flat(cells, c, i, slot) < |Pages(cells, c)| && Pages(cells, c)[Flat(cells, c, i, slot)] == PageItems(cells, c[i])[slot]
  {
    hide Pages;
    assert c == c[..i] + [c[i]] + c[i + 1..];
    PagesConcat(cells, c[..i] + [c[i]], c[i + 1..]);
    PagesConcat(cells, c[..i], [c[i]]);
    PagesOne(cells, c[i]);
  }

  /** Iterators at the same place of the list are the same. */
  lemma {:induction false} PositionUnique(cells: Cells, c: seq<nat>, i: nat, slot: nat, j: nat, slot': nat)
    requires Normal(cells, c, i, slot) && Normal(cells, c, j, slot') && Flat(cells, c, i, slot) == Flat(cells, c, j, slot')
    ensures i == j && slot == slot'
  {
    hide Pages;
    if i < j {
      FlatNext(cells, c, i);
      FlatMono(cells, c, i + 1, j);
      assert false;
    } else if j < i {
      FlatNext(cells, c, j);
      FlatMono(cells, c, j + 1, i);
      assert false;
    }
  }

  /** Places are in order as the positions are. */
  lemma {:induction false} PositionOrder(cells: Cells, c: seq<nat>, i: nat, slot: nat, j: nat, slot': nat)
    requires Normal(cells, c, i, slot) && Normal(cells, c, j, slot') && Flat(cells, c, i, slot) <= Flat(cells, c, j, slot')
    ensures i <= j
  {
    hide Pages;
    if j < i {
      FlatNext(cells, c, j);
      FlatMono(cells, c, j + 1, i);
      assert false;
    }
  }

  // ---------- searching ----------

  /** The keys that a search for `k` passes: those below it, and `k` itself on the way to what is
      above. */
  ghost predicate Passed(x: int, k: int, above: bool) { if above then x <= k else x < k }

  ghost predicate AllPassed(s: seq<Item>, k: int, above: bool) { forall i :: 0 <= i < |s| ==> Passed(s[i].key, k, above) }

  ghost predicate NonePassed(s: seq<Item>, k: int, above: bool) { forall i :: 0 <= i < |s| ==> !Passed(s[i].key, k, above) }

  function Bound(keys: seq<int>, k: int, above: bool): (p: nat)
    ensures p <= |keys|
  {
    if above then UpperBound(keys, k) else LowerBound(keys, k)
  }

  lemma {:induction false} BoundSplits(keys: seq<int>, k: int, above: bool)
    requires Ascending(keys)
    ensures forall i :: 0 <= i < Bound(keys, k, above) ==> Passed(keys[i], k, above)
    ensures forall i :: Bound(keys, k, above) <= i < |keys| ==> !Passed(keys[i], k, above)
  {
    if above { UpperBoundSplits(keys, k); } else { LowerBoundSplits(keys, k); }
  }

  lemma {:induction false} BoundUnique(keys: seq<int>, k: int, above: bool, p: nat)
    requires p <= |keys| && (forall i :: 0 <= i < p ==> Passed(keys[i], k, above)) && (forall i :: p <= i < |keys| ==> !Passed(keys[i], k, above))
    ensures Bound(keys, k, above) == p
  {
    if above { UpperBoundUnique(keys, k, p); } else { LowerBoundUnique(keys, k, p); }
  }

  /** Below the child at the bound, everything is passed, and behind it nothing. */
  lemma {:induction false} BoundChild(t: Tree, m: nat, level: nat, least: nat, k: int, above: bool)
    requires Valid(t, m, level, least) && t.Node? && m >= 2
    ensures |t.kids| == |t.keys| + 1
    ensures var at := Bound(t.keys, k, above);
      && Items(t) == ItemsOf(t.kids[..at]) + Items(t.kids[at]) + ItemsOf(t.kids[at + 1..])
      && AllPassed(ItemsOf(t.kids[..at]), k, above) && NonePassed(ItemsOf(t.kids[at + 1..]), k, above)
      && (at < |t.keys| ==> !Passed(t.keys[at], k, above) && t.keys[at] == LastKey(Items(t.kids[at])))
  {
    hide Items, ItemsOf, Bound;
    var at := Bound(t.keys, k, above);
    KeysAscend(t, m, level, least);
    BoundSplits(t.keys, k, above);
    ItemsOfNode(t);
    ItemsAt(t.kids, at);
    var a, b, c := ItemsOf(t.kids[..at]), Items(t.kids[at]), ItemsOf(t.kids[at + 1..]);
    SortedParts(a + b, c);
    SortedParts(a, b);
    NotEmpty(t.kids[at], m, level - 1, m / 2);
    LastOfConcat(a, b);
    if at == |t.keys| {
      assert t.kids[at + 1..] == [];
      ItemsNone();
    }
    if at > 0 {
      KidsNotEmpty(t.kids[..at], m, level - 1, m / 2);
      assert t.kids[..at][at - 1] == t.kids[at - 1];
      assert LastKey(a) == t.keys[at - 1];
      LastIsLargest(a);
    } else {
      ItemsNone();
      assert t.kids[..at] == [];
    }
  }

  lemma {:induction false} LastIsLargest(s: seq<Item>)
    requires Sorted(s)
    ensures forall i :: 0 <= i < |s| ==> s[i].key <= LastKey(s)
  {
  }

  /** A subtree in which the first key not passed must be, if there is one: its leaves stand
      between `p` and `q`. */
  ghost predicate Seeking(cells: Cells, whole: Tree, t: Tree, m: nat, level: nat, least: nat, k: int, above: bool, p: seq<nat>, q: seq<nat>) {
    && m >= 4 && Valid(t, m, level, least) && least >= 1 && Rep(cells, t)
    && Leaves(whole) == p + Leaves(t) + q
    && Items(whole) == Pages(cells, p) + Items(t) + Pages(cells, q)
    && AllPassed(Pages(cells, p), k, above) && NonePassed(Pages(cells, q), k, above)
    && (q == [] || !Passed(LastKey(Items(t)), k, above))
  }

  lemma {:induction false} SeekStart(cells: Cells, t: Tree, m: nat, level: nat, k: int, above: bool)
    requires m >= 4 && Valid(t, m, level, 1) && Rep(cells, t)
    ensures Seeking(cells, t, t, m, level, 1, k, above, [], [])
  {
    assert [] + Leaves(t) + [] == Leaves(t);
    assert [] + Items(t) + [] == Items(t);
  }

  lemma {:induction false} SeekStep(cells: Cells, whole: Tree, t: Tree, m: nat, level: nat, least: nat, k: int, above: bool, p: seq<nat>, q: seq<nat>)
    requires Seeking(cells, whole, t, m, level, least, k, above, p, q) && t.Node?
    ensures Ascending(t.keys) && level >= 1 && |t.kids| == |t.keys| + 1
    ensures var s := Bound(t.keys, k, above);
      Seeking(cells, whole, t.kids[s], m, level - 1, m / 2, k, above, p + LeavesOf(t.kids[..s]), LeavesOf(t.kids[s + 1..]) + q)
  {
    hide Leaves, LeavesOf, Items, ItemsOf, Pages, Rep, Valid, Bound, Sorted, Ascending, Passed;
    var s := Bound(t.keys, k, above);
    LeafLevel(t, m, level, least);
    KeysAscend(t, m, level, least);
    BoundChild(t, m, level, least, k, above);
    KidValid(t, m, level, least, s);
    RepKid(cells, t, s);
    LeavesOfNode(t);
    LeavesAt(t.kids, s);
    var a, c := LeavesOf(t.kids[..s]), LeavesOf(t.kids[s + 1..]);
    KidPages(cells, t, s);
    PagesConcat(cells, p, a);
    PagesConcat(cells, c, q);
    assert Leaves(whole) == p + a + Leaves(t.kids[s]) + (c + q);
    assert Items(whole) == Pages(cells, p + a) + Items(t.kids[s]) + Pages(cells, c + q);
    SeekLast(t, m, level, least, s);
  }

  lemma {:induction false} KidPages(cells: Cells, t: Tree, s: nat)
    requires t.Node? && Rep(cells, t) && s < |t.kids|
    ensures Pages(cells, LeavesOf(t.kids[..s])) == ItemsOf(t.kids[..s]) && Pages(cells, LeavesOf(t.kids[s + 1..])) == ItemsOf(t.kids[s + 1..])
  {
    hide Leaves, LeavesOf, Items, ItemsOf, Pages;
    assert RepAll(cells, t.kids[..s]) && RepAll(cells, t.kids[s + 1..]);
    LeafPagesOf(cells, t.kids[..s]);
    LeafPagesOf(cells, t.kids[s + 1..]);
  }

  /** Nothing is behind the last child, and it ends as the node does. */
  lemma {:induction false} SeekLast(t: Tree, m: nat, level: nat, least: nat, s: nat)
    requires m >= 4 && Valid(t, m, level, least) && t.Node? && s < |t.kids|
    ensures s == |t.keys| ==> LeavesOf(t.kids[s + 1..]) == [] && LastKey(Items(t)) == LastKey(Items(t.kids[s]))
  {
    hide Leaves, LeavesOf, Items, ItemsOf, LastKey;
    if s == |t.keys| {
      RowOf(t, m, level, least);
      assert t.kids[s + 1..] == [];
      NoLeaves();
      RowNotEmpty(t.keys, t.kids, m, level - 1);
      ItemsOfNode(t);
    }
  }

  lemma {:induction false} NoLeaves()
    ensures LeavesOf([]) == []
  {
  }

  /** At the leaf, the bound in the page is the bound in the list. */
  lemma {:induction false} SeekEnd(cells: Cells, whole: Tree, t: Tree, m: nat, level: nat, least: nat, k: int, above: bool, p: seq<nat>, q: seq<nat>)
    requires Seeking(cells, whole, t, m, level, least, k, above, p, q) && t.Leaf?
    ensures var c, i, slot := Leaves(whole), |p|, Bound(Keys(t.items), k, above);
      && i < |c| && c[i] == t.id && PageItems(cells, t.id) == t.items && Ascending(Keys(t.items))
      && Normal(cells, c, i, slot) && Flat(cells, c, i, slot) == Bound(Keys(Items(whole)), k, above)
  {
    hide Pages, Bound, Passed;
    var c, i, slot := Leaves(whole), |p|, Bound(Keys(t.items), k, above);
    assert c == p + [t.id] + q;
    assert c[..i] == p;
    BoundSplits(Keys(t.items), k, above);
    SeekBound(Pages(cells, p), t.items, Pages(cells, q), k, above);
    if slot == |t.items| { assert Keys(t.items)[slot - 1] == LastKey(t.items); }
  }

  lemma {:induction false} SeekBound(a: seq<Item>, b: seq<Item>, c: seq<Item>, k: int, above: bool)
    requires Sorted(b) && AllPassed(a, k, above) && NonePassed(c, k, above)
    ensures Bound(Keys(a + b + c), k, above) == |a| + Bound(Keys(b), k, above)
  {
    hide Bound, Passed;
    BoundSplits(Keys(b), k, above);
    var s, p := a + b + c, Bound(Keys(b), k, above);
    forall i | 0 <= i < |a| + p ensures Passed(Keys(s)[i], k, above) {
      if i >= |a| { assert Keys(b)[i - |a|] == Keys(s)[i]; }
    }
    forall i | |a| + p <= i < |s| ensures !Passed(Keys(s)[i], k, above) {
      if i < |a| + |b| { assert Keys(b)[i - |a|] == Keys(s)[i]; } else { assert s[i] == c[i - |a| - |b|]; }
    }
    BoundUnique(Keys(s), k, above, |a| + p);
  }

  lemma {:induction false} SeekPage(cells: Cells, whole: Tree, t: Tree, m: nat, level: nat, least: nat, k: int, above: bool, p: seq<nat>, q: seq<nat>)
    requires Seeking(cells, whole, t, m, level, least, k, above, p, q)
    ensures t.id in cells && (t.Leaf? <==> cells[t.id].LeafCell?)
    ensures t.Leaf? ==> cells[t.id] == LeafCell(t.items)
    ensures t.Node? ==> cells[t.id] == NodeCell(t.keys, IdList(t.kids))
  {
    hide Rep;
    PageOf(cells, t);
  }

  // ---------- iterating ----------

  /** What an iterator in leaf `i` can see: its own page, and the next leaf. */
  lemma {:induction false} CursorFacts(cells: Cells, next: Links, prev: Links, head: nat, last: nat, supply: nat, t: Tree, m: nat, level: nat, i: nat)
    requires m >= 4 && Valid(t, m, level, 1) && Held(cells, next, prev, head, last, supply, t, [], []) && i < |Leaves(t)|
    ensures var c := Leaves(t);
      && c[i] in next && (next[c[i]] == 0 <==> i == |c| - 1) && (i + 1 < |c| ==> next[c[i]] == c[i + 1])
      && |Pages(cells, c[..i + 1])| == |Pages(cells, c[..i])| + |PageItems(cells, c[i])|
      && (i == |c| - 1 ==> |Pages(cells, c[..i])| + |PageItems(cells, c[i])| == |Items(t)|)
      && |Pages(cells, c[..i])| + |PageItems(cells, c[i])| <= |Items(t)|
      && PageItems(cells, c[i]) != [] && c[i] in cells && cells[c[i]].LeafCell?
  {
    hide Rep, Leaves, Items, Pages, Valid, Ids, Simple, Chain;
    var c := Leaves(t);
    assert [] + c + [] == c;
    ChainFacts(next, prev, head, last, c, i);
    FlatNext(cells, c, i);
    FlatMono(cells, c, i + 1, |c|);
    assert c[..|c|] == c;
    LeafPages(cells, t);
    LeavesFilled(cells, t, m, level, 1, i);
  }

  lemma {:induction false} LeavesFilled(cells: Cells, t: Tree, m: nat, level: nat, least: nat, i: nat)
    requires m >= 4 && Valid(t, m, level, least) && least >= 1 && Rep(cells, t) && i < |Leaves(t)|
    ensures PageItems(cells, Leaves(t)[i]) != [] && Leaves(t)[i] in cells && cells[Leaves(t)[i]].LeafCell?
    decreases t
  {
    if t.Node? {
      var j, d := LeafInKid(t.kids, i);
      hide Leaves, LeavesOf;
      KidValid(t, m, level, least, j);
      LeavesOfNode(t);
      LeavesFilled(cells, t.kids[j], m, level - 1, m / 2, i - d);
    }
  }

  /** The child that holds the `i`-th leaf. */
  lemma {:induction false} LeafInKid(kids: seq<Tree>, i: nat) returns (j: nat, d: nat)
    requires i < |LeavesOf(kids)|
    ensures j < |kids| && d <= i < d + |Leaves(kids[j])| && Leaves(kids[j])[i - d] == LeavesOf(kids)[i]
    decreases |kids|
  {
    if i < |Leaves(kids[0])| {
      j, d := 0, 0;
    } else {
      var n := |Leaves(kids[0])|;
      j, d := LeafInKid(kids[1..], i - n);
      j, d := j + 1, d + n;
    }
  }

  function Least(a: nat, b: nat): nat { if a <= b then a else b }

  lemma {:induction false} SlotMeans(s: seq<Item>, k: int)
    ensures Slot(s, k) == LowerBound(Keys(s), k)
  {
  }

  lemma {:induction false} LeafPlace(cells: Cells, next: Links, prev: Links, head: nat, last: nat, supply: nat, t: Tree, x: nat, j: nat)
    requires Held(cells, next, prev, head, last, supply, t, [], []) && x < |Leaves(t)| && j < |Leaves(t)|
    ensures Leaves(t)[x] != 0 && (Leaves(t)[x] == Leaves(t)[j] ==> x == j)
  {
    var c := Leaves(t);
    assert [] + c + [] == c;
  }

  /** What a lookup finds at the lower bound. */
  lemma {:induction false} SoughtItem(cells: Cells, next: Links, prev: Links, head: nat, last: nat, supply: nat, t: Tree, m: nat, level: nat, i: nat, slot: nat, k: int)
    requires m >= 4 && Valid(t, m, level, 1) && Held(cells, next, prev, head, last, supply, t, [], []) && i < |Leaves(t)|
    requires Normal(cells, Leaves(t), i, slot) && Flat(cells, Leaves(t), i, slot) == Slot(Items(t), k)
    ensures var page := PageItems(cells, Leaves(t)[i]);
      && (Has(Items(t), k) <==> slot < |page| && page[slot].key == k)
      && (slot < |page| ==> Slot(Items(t), k) < |Items(t)| && Items(t)[Slot(Items(t), k)] == page[slot])
  {
    hide Pages, Leaves, Items, Valid, Slot, Rep;
    var c := Leaves(t);
    LeafPages(cells, t);
    CursorFacts(cells, next, prev, head, last, supply, t, m, level, i);
    if slot < |PageItems(cells, c[i])| { FlatItem(cells, c, i, slot); }
  }
}
