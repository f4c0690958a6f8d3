/** B+ trees with unique keys: pairs in the leaves, separators above them that are exactly
    the largest key of the subtree to their left. `id` is the address of a node. */
module BtreeTree {
  import opened BtreeItems

  datatype Tree =
    | Leaf(id: nat, items: seq<Item>)
    | Node(id: nat, keys: seq<int>, kids: seq<Tree>)

  /** The pairs of a tree, in order. */
  function Items(t: Tree): seq<Item>
    decreases t, 0
  {
    match t
    case Leaf(_, items) => items
    case Node(_, _, kids) => ItemsOf(kids)
  }

  function ItemsOf(kids: seq<Tree>): seq<Item>
    decreases kids, 1
  {
    if kids == [] then [] else Items(kids[0]) + ItemsOf(kids[1..])
  }

  /** `get_occupants` */
  function Occupants(t: Tree): nat { if t.Leaf? then |t.items| else |t.keys| }

  function LastKey(s: seq<Item>): int { if s == [] then 0 else s[|s| - 1].key }

  /** Uniform depth, and at least `least` occupants here and half of `m` below. */
  ghost predicate Shaped(t: Tree, m: nat, level: nat, least: nat)
    decreases t
  {
    && least <= Occupants(t) <= m && (t.Leaf? <==> level == 0)
    && (t.Node? ==> |t.kids| == |t.keys| + 1)
    && (t.Node? ==> forall i :: 0 <= i < |t.kids| ==> Shaped(t.kids[i], m, level - 1, m / 2))
  }

  /** Each separator is the largest key to its left. */
  ghost predicate Fences(keys: seq<int>, kids: seq<Tree>) {
    |kids| == |keys| + 1 && forall i :: 0 <= i < |keys| ==> keys[i] == LastKey(Items(kids[i]))
  }

  ghost predicate Fenced(t: Tree)
    decreases t
  {
    t.Node? ==> Fences(t.keys, t.kids) && forall i :: 0 <= i < |t.kids| ==> Fenced(t.kids[i])
  }

  /** What `verify_node` checks. */
  ghost predicate Valid(t: Tree, m: nat, level: nat, least: nat) {
    Shaped(t, m, level, least) && Fenced(t) && Sorted(Items(t))
  }

  // ---------- the pairs of several trees ----------

  lemma {:induction false} ItemsConcat(a: seq<Tree>, b: seq<Tree>)
    ensures ItemsOf(a + b) == ItemsOf(a) + ItemsOf(b)
  {
    if a == [] {
      assert a + b == b;
    } else {
      assert (a + b)[1..] == a[1..] + b;
      ItemsConcat(a[1..], b);
    }
  }

  lemma {:induction false} ItemsOne(t: Tree)
    ensures ItemsOf([t]) == Items(t)
  {
    assert [t][1..] == [];
  }

  lemma {:induction false} ItemsTwo(t: Tree, u: Tree)
    ensures ItemsOf([t, u]) == Items(t) + Items(u)
  {
    assert [t, u] == [t] + [u];
    ItemsConcat([t], [u]);
    ItemsOne(t);
    ItemsOne(u);
  }

  /** A list of trees around three parts. */
  lemma {:induction false} ItemsParts(a: seq<Tree>, b: seq<Tree>, c: seq<Tree>)
    ensures ItemsOf(a + b + c) == ItemsOf(a) + ItemsOf(b) + ItemsOf(c)
  {
    ItemsConcat(a + b, c);
    ItemsConcat(a, b);
  }

  lemma {:induction false} ItemsAt(kids: seq<Tree>, i: nat)
    requires i < |kids|
    ensures ItemsOf(kids) == ItemsOf(kids[..i]) + Items(kids[i]) + ItemsOf(kids[i + 1..])
  {
    assert kids == kids[..i] + [kids[i]] + kids[i + 1..];
    ItemsParts(kids[..i], [kids[i]], kids[i + 1..]);
    ItemsOne(kids[i]);
  }

  lemma {:induction false} ItemsUpdate(kids: seq<Tree>, i: nat, t: Tree)
    requires i < |kids|
    ensures ItemsOf(kids[i := t]) == ItemsOf(kids[..i]) + Items(t) + ItemsOf(kids[i + 1..])
  {
    var next := kids[i := t];
    ItemsAt(next, i);
    assert next[..i] == kids[..i] && next[i + 1..] == kids[i + 1..];
  }

  lemma {:induction false} LastOfConcat(a: seq<Item>, b: seq<Item>)
    requires b != []
    ensures a + b != [] && LastKey(a + b) == LastKey(b)
  {
  }

  lemma {:induction false} SortedParts(a: seq<Item>, b: seq<Item>)
    requires Sorted(a + b)
    ensures Sorted(a) && Sorted(b)
    ensures a != [] ==> AllAbove(b, LastKey(a))
    ensures forall k :: a != [] && LastKey(a) < k ==> AllBelow(a, k)
  {
    var s := a + b;
    forall i, j | 0 <= i < j < |a| ensures a[i].key < a[j].key { assert s[i] == a[i] && s[j] == a[j]; }
    forall i, j | 0 <= i < j < |b| ensures b[i].key < b[j].key { assert s[|a| + i] == b[i] && s[|a| + j] == b[j]; }
    if a != [] {
      forall i | 0 <= i < |b| ensures b[i].key > LastKey(a) { assert s[|a| - 1] == a[|a| - 1] && s[|a| + i] == b[i]; }
    }
  }

  // ---------- shape ----------

  lemma {:induction false} NotEmpty(t: Tree, m: nat, level: nat, least: nat)
    requires Shaped(t, m, level, least) && m >= 2 && (level == 0 ==> least >= 1)
    ensures Items(t) != []
    decreases t
  {
    if t.Node? {
      NotEmpty(t.kids[0], m, level - 1, m / 2);
    }
  }

  lemma {:induction false} KidsNotEmpty(kids: seq<Tree>, m: nat, level: nat, least: nat)
    requires m >= 2 && least >= 1 && kids != [] && forall i :: 0 <= i < |kids| ==> Shaped(kids[i], m, level, least)
    ensures ItemsOf(kids) != [] && LastKey(ItemsOf(kids)) == LastKey(Items(kids[|kids| - 1]))
  {
    var n := |kids| - 1;
    ItemsAt(kids, n);
    assert kids[n + 1..] == [];
    NotEmpty(kids[n], m, level, least);
    LastOfConcat(ItemsOf(kids[..n]), Items(kids[n]));
  }

  lemma {:induction false} ShapedLess(t: Tree, m: nat, level: nat, least: nat, less: nat)
    requires Shaped(t, m, level, least) && less <= Occupants(t)
    ensures Shaped(t, m, level, less)
  {
  }

  lemma {:induction false} KidValid(t: Tree, m: nat, level: nat, least: nat, i: nat)
    requires Valid(t, m, level, least) && t.Node? && i < |t.kids|
    ensures level >= 1 && Valid(t.kids[i], m, level - 1, m / 2)
  {
    hide Items, ItemsOf;
    ItemsAt(t.kids, i);
    assert Items(t) == ItemsOf(t.kids) by { ItemsOfNode(t); }
    SortedParts(ItemsOf(t.kids[..i]) + Items(t.kids[i]), ItemsOf(t.kids[i + 1..]));
    SortedParts(ItemsOf(t.kids[..i]), Items(t.kids[i]));
  }

  lemma {:induction false} ItemsOfNode(t: Tree)
    requires t.Node?
    ensures Items(t) == ItemsOf(t.kids)
  {
  }

  // ---------- searching a node ----------

  /** The pairs before, in and after child `at`, when `k` belongs there. */
  ghost predicate Located(t: Tree, k: int, at: nat) {
    && t.Node? && at < |t.kids| && |t.kids| == |t.keys| + 1
    && Items(t) == ItemsOf(t.kids[..at]) + Items(t.kids[at]) + ItemsOf(t.kids[at + 1..])
    && AllBelow(ItemsOf(t.kids[..at]), k) && AllAbove(ItemsOf(t.kids[at + 1..]), k)
    && (at < |t.keys| ==> t.keys[at] >= k)
  }

  /** The separators ascend. */
  lemma {:induction false} KeysAscend(t: Tree, m: nat, level: nat, least: nat)
    requires Valid(t, m, level, least) && t.Node? && m >= 2
    ensures Ascending(t.keys)
  {
    hide Items, ItemsOf;
    forall i, j | 0 <= i < j < |t.keys| ensures t.keys[i] < t.keys[j] {
      KidsInOrder(t, m, level, least, i, j);
    }
  }

  lemma {:induction false} KidsInOrder(t: Tree, m: nat, level: nat, least: nat, i: nat, j: nat)
    requires Valid(t, m, level, least) && t.Node? && m >= 2 && i < j < |t.kids|
    ensures LastKey(Items(t.kids[i])) < LastKey(Items(t.kids[j]))
  {
    hide Items, ItemsOf;
    ItemsOfNode(t);
    var a, b := t.kids[..j], t.kids[j];
    ItemsAt(t.kids, j);
    SortedParts(ItemsOf(a) + Items(b), ItemsOf(t.kids[j + 1..]));
    ItemsAt(a, i);
    assert a[i] == t.kids[i];
    NotEmpty(t.kids[i], m, level - 1, m / 2);
    NotEmpty(b, m, level - 1, m / 2);
    PartBelow(ItemsOf(a[..i]), Items(t.kids[i]), ItemsOf(a[i + 1..]), Items(b));
  }

  lemma {:induction false} PartBelow(p: seq<Item>, q: seq<Item>, r: seq<Item>, b: seq<Item>)
    requires Sorted(p + q + r + b) && q != [] && b != []
    ensures LastKey(q) < LastKey(b)
  {
    var s := p + q + r + b;
    assert s[|p| + |q| - 1] == q[|q| - 1];
    assert s[|s| - 1] == b[|b| - 1];
  }

  /** Descending at the lower bound of the separators. */
  lemma {:induction false} Locate(t: Tree, m: nat, level: nat, least: nat, k: int)
    requires Valid(t, m, level, least) && t.Node? && m >= 2
    ensures Located(t, k, LowerBound(t.keys, k))
  {
    hide Items, ItemsOf, LowerBound;
    var at := LowerBound(t.keys, k);
    KeysAscend(t, m, level, least);
    LowerBoundSplits(t.keys, k);
    ItemsOfNode(t);
    ItemsAt(t.kids, at);
    var a, b, c := ItemsOf(t.kids[..at]), Items(t.kids[at]), ItemsOf(t.kids[at + 1..]);
    SortedParts(a + b, c);
    SortedParts(a, b);
    NotEmpty(t.kids[at], m, level - 1, m / 2);
    LastOfConcat(a, b);
    assert at < |t.keys| ==> AllAbove(c, k);
    if at == |t.keys| {
      assert t.kids[at + 1..] == [];
      ItemsNone();
    }
    if at > 0 {
      KidsNotEmpty(t.kids[..at], m, level - 1, m / 2);
      assert t.kids[..at][at - 1] == t.kids[at - 1];
      assert LastKey(a) == t.keys[at - 1];
    } else {
      ItemsNone();
      assert t.kids[..at] == [];
    }
  }

  lemma {:induction false} ItemsNone()
    ensures ItemsOf([]) == []
  {
  }

  // ---------- rows of children ----------

  /** A subtree below an inner node. */
  ghost predicate Kid(t: Tree, m: nat, level: nat) { Shaped(t, m, level, m / 2) && Fenced(t) }

  /** Separators and children of an inner node, whatever their number. */
  ghost predicate Row(keys: seq<int>, kids: seq<Tree>, m: nat, level: nat) {
    && Fences(keys, kids)
    && forall i :: 0 <= i < |kids| ==> Kid(kids[i], m, level)
  }

  lemma {:induction false} RowOf(t: Tree, m: nat, level: nat, least: nat)
    requires Valid(t, m, level, least) && t.Node?
    ensures level >= 1 && Row(t.keys, t.kids, m, level - 1) && least <= |t.keys| <= m && Sorted(ItemsOf(t.kids))
  {
  }

  lemma {:induction false} NodeOf(t: Tree, m: nat, level: nat, least: nat)
    requires t.Node? && level >= 1 && Row(t.keys, t.kids, m, level - 1) && least <= |t.keys| <= m && Sorted(ItemsOf(t.kids))
    ensures Valid(t, m, level, least)
  {
  }

  lemma {:induction false} RowPart(keys: seq<int>, kids: seq<Tree>, m: nat, level: nat, a: nat, b: nat)
    requires Row(keys, kids, m, level) && a <= b < |kids|
    ensures Row(keys[a..b], kids[a..b + 1], m, level)
  {
    hide Items, Kid, LastKey;
  }

  /** Two rows put together with a separator between. */
  lemma {:induction false} RowJoin(k1: seq<int>, c1: seq<Tree>, key: int, k2: seq<int>, c2: seq<Tree>, m: nat, level: nat)
    requires Row(k1, c1, m, level) && Row(k2, c2, m, level) && key == LastKey(Items(c1[|c1| - 1]))
    ensures Row(k1 + [key] + k2, c1 + c2, m, level)
  {
    hide Items, Kid, LastKey;
    var keys, kids := k1 + [key] + k2, c1 + c2;
    forall i | 0 <= i < |keys| ensures keys[i] == LastKey(Items(kids[i])) {
      if i > |k1| { assert keys[i] == k2[i - |k1| - 1] && kids[i] == c2[i - |c1|]; }
    }
  }

  lemma {:induction false} RowFence(keys: seq<int>, kids: seq<Tree>, m: nat, level: nat, i: nat)
    requires Row(keys, kids, m, level) && i < |kids|
    ensures Kid(kids[i], m, level) && (i < |keys| ==> keys[i] == LastKey(Items(kids[i])))
  {
  }

  /** Replacing a child by one with the same largest key. */
  lemma {:induction false} RowKeep(keys: seq<int>, kids: seq<Tree>, m: nat, level: nat, i: nat, t: Tree)
    requires Row(keys, kids, m, level) && i < |kids| && Kid(t, m, level) && (i < |keys| ==> keys[i] == LastKey(Items(t)))
    ensures Row(keys, kids[i := t], m, level)
  {
    hide Items, Kid, LastKey;
  }

  lemma {:induction false} RowNotEmpty(keys: seq<int>, kids: seq<Tree>, m: nat, level: nat)
    requires Row(keys, kids, m, level) && m >= 2
    ensures kids != [] && ItemsOf(kids) != [] && LastKey(ItemsOf(kids)) == LastKey(Items(kids[|kids| - 1]))
  {
    hide Items, ItemsOf, LastKey, Shaped, Fenced;
    assert forall i :: 0 <= i < |kids| ==> Kid(kids[i], m, level);
    KidsNotEmpty(kids, m, level, m / 2);
  }
}
