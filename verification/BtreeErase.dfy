/** Erasure from a B+ tree, on values: what `erase_one_descend` makes of a subtree, with its
    six ways to repair an underflow. */
module BtreeErase {
  import opened BtreeItems
  import opened BtreeTree

  datatype MaybeTree = Nil | Some(tree: Tree)

  datatype MaybeKey = Unchanged | NewLast(key: int)

  /** `last` tells the parent when the largest key changed. */
  datatype Erasure = NotFound | Erased(tree: Tree, last: MaybeKey)

  // ---------- two neighbours ----------

  datatype Pair = Pair(left: Tree, key: int, right: Tree)

  ghost predicate SameKind(l: Tree, r: Tree) {
    (l.Leaf? && r.Leaf?) || (l.Node? && r.Node? && |l.kids| == |l.keys| + 1 && |r.kids| == |r.keys| + 1)
  }

  /** `merge_leaves`, `merge_interior`: everything moves into the left node. */
  function Merge(l: Tree, key: int, r: Tree): Tree {
    if l.Leaf? && r.Leaf? then Leaf(l.id, l.items + r.items)
    else if l.Node? && r.Node? then Node(l.id, l.keys + [key] + r.keys, l.kids + r.kids)
    else l
  }

  /** `shift_left_surface`, `shift_left_interior`: half the difference moves to the left. */
  function ShiftLeft(l: Tree, key: int, r: Tree): Pair {
    var num := if Occupants(l) <= Occupants(r) then (Occupants(r) - Occupants(l)) / 2 else 0;
    if l.Leaf? && r.Leaf? then
      var items := l.items + r.items[..num];
      Pair(Leaf(l.id, items), LastKey(items), Leaf(r.id, r.items[num..]))
    else if l.Node? && r.Node? && 1 <= num <= |r.kids| then
      Pair(Node(l.id, l.keys + [key] + r.keys[..num - 1], l.kids + r.kids[..num]), r.keys[num - 1], Node(r.id, r.keys[num..], r.kids[num..]))
    else Pair(l, key, r)
  }

  /** `shift_right_surface`, `shift_right_interior`: half the difference moves to the right. */
  function ShiftRight(l: Tree, key: int, r: Tree): Pair {
    var rest := if Occupants(r) <= Occupants(l) then Occupants(l) - (Occupants(l) - Occupants(r)) / 2 else Occupants(l);
    if l.Leaf? && r.Leaf? then
      Pair(Leaf(l.id, l.items[..rest]), LastKey(l.items[..rest]), Leaf(r.id, l.items[rest..] + r.items))
    else if l.Node? && r.Node? && rest < |l.keys| < |l.kids| then
      Pair(Node(l.id, l.keys[..rest], l.kids[..rest + 1]), l.keys[rest], Node(r.id, l.keys[rest + 1..] + [key] + r.keys, l.kids[rest + 1..] + r.kids))
    else Pair(l, key, r)
  }

  /** A subtree that may have one occupant too few. */
  ghost predicate Loose(t: Tree, m: nat, level: nat) { m >= 2 && Shaped(t, m, level, m / 2 - 1) && Fenced(t) }

  lemma {:induction false} KidIsLoose(t: Tree, m: nat, level: nat)
    requires Kid(t, m, level) && m >= 2
    ensures Loose(t, m, level)
  {
    ShapedLess(t, m, level, m / 2, m / 2 - 1);
  }

  lemma {:induction false} LooseRowOf(t: Tree, m: nat, level: nat)
    requires Loose(t, m, level) && t.Node? && m >= 2
    ensures level >= 1 && Row(t.keys, t.kids, m, level - 1)
  {
  }

  lemma {:induction false} KidOf(t: Tree, m: nat, level: nat)
    requires t.Node? && level >= 1 && Row(t.keys, t.kids, m, level - 1) && m / 2 <= |t.keys| <= m
    ensures Kid(t, m, level)
  {
  }

  lemma {:induction false} LooseKind(l: Tree, r: Tree, m: nat, level: nat)
    requires Loose(l, m, level) && Loose(r, m, level) && m >= 4
    ensures SameKind(l, r) && Items(l) != [] && Items(r) != []
  {
    NotEmpty(l, m, level, m / 2 - 1);
    NotEmpty(r, m, level, m / 2 - 1);
  }

  /** A merged node is a good child and keeps the pairs and the larger last key. */
  lemma {:induction false} MergeCorrect(l: Tree, key: int, r: Tree, m: nat, level: nat)
    requires Loose(l, m, level) && Loose(r, m, level) && m >= 4 && key == LastKey(Items(l))
    requires Occupants(l) + Occupants(r) < m && (Occupants(l) >= m / 2 || Occupants(r) >= m / 2)
    ensures SameKind(l, r) && Kid(Merge(l, key, r), m, level) && Items(Merge(l, key, r)) == Items(l) + Items(r)
    ensures Items(r) != [] && LastKey(Items(Merge(l, key, r))) == LastKey(Items(r))
  {
    LooseKind(l, r, m, level);
    LastOfConcat(Items(l), Items(r));
    if l.Node? {
      hide Items, ItemsOf, Shaped, Fenced, LastKey, Row;
      LooseRowOf(l, m, level);
      LooseRowOf(r, m, level);
      RowLast(l, m, level);
      RowJoin(l.keys, l.kids, key, r.keys, r.kids, m, level - 1);
      KidOf(Merge(l, key, r), m, level);
      ItemsConcat(l.kids, r.kids);
      ItemsOfNode(l);
      ItemsOfNode(r);
      ItemsOfNode(Merge(l, key, r));
    }
  }

  /** The last key of a node is that of its last child. */
  lemma {:induction false} RowLast(t: Tree, m: nat, level: nat)
    requires t.Node? && level >= 1 && Row(t.keys, t.kids, m, level - 1) && m >= 2
    ensures |t.kids| == |t.keys| + 1 && LastKey(Items(t)) == LastKey(Items(t.kids[|t.kids| - 1]))
  {
    hide Items, ItemsOf, Shaped, Fenced, LastKey;
    RowNotEmpty(t.keys, t.kids, m, level - 1);
    ItemsOfNode(t);
  }

  /** What moving occupants between two neighbours keeps. */
  ghost predicate Balanced(p: Pair, l: Tree, r: Tree, m: nat, level: nat) {
    && Kid(p.left, m, level) && Kid(p.right, m, level) && p.key == LastKey(Items(p.left))
    && Items(p.left) + Items(p.right) == Items(l) + Items(r) && Items(p.right) != []
    && LastKey(Items(p.right)) == LastKey(Items(r))
  }

  /** A row cut at a separator, as two nodes. */
  lemma {:induction false} CutNodes(a: Tree, key: int, b: Tree, keys: seq<int>, kids: seq<Tree>, m: nat, level: nat)
    requires a.Node? && b.Node? && m >= 2 && level >= 1 && Row(keys, kids, m, level - 1)
    requires |a.keys| < |keys| && a.keys == keys[..|a.keys|] && key == keys[|a.keys|] && b.keys == keys[|a.keys| + 1..]
    requires |a.kids| == |a.keys| + 1 && kids == a.kids + b.kids
    requires m / 2 <= |a.keys| <= m && m / 2 <= |b.keys| <= m
    ensures Kid(a, m, level) && Kid(b, m, level) && key == LastKey(Items(a)) && Items(a) + Items(b) == ItemsOf(kids)
  {
    hide Items, ItemsOf, Shaped, Fenced, LastKey;
    var x := |a.keys|;
    assert |kids| == |keys| + 1;
    RowPart(keys, kids, m, level - 1, 0, x);
    assert keys[0..x] == a.keys && kids[0..x + 1] == a.kids;
    RowPart(keys, kids, m, level - 1, x + 1, |keys|);
    assert keys[x + 1..|keys|] == b.keys && kids[x + 1..|keys| + 1] == b.kids;
    KidOf(a, m, level);
    KidOf(b, m, level);
    RowLast(a, m, level);
    assert a.kids[x] == kids[x];
    ItemsConcat(a.kids, b.kids);
    ItemsOfNode(a);
    ItemsOfNode(b);
  }

  lemma {:induction false} ShiftLeftCorrect(l: Tree, key: int, r: Tree, m: nat, level: nat)
    requires Loose(l, m, level) && Loose(r, m, level) && m >= 4 && key == LastKey(Items(l))
    requires Occupants(l) < m / 2 < Occupants(r)
    ensures SameKind(l, r) && Balanced(ShiftLeft(l, key, r), l, r, m, level)
  {
    LooseKind(l, r, m, level);
    var p := ShiftLeft(l, key, r);
    var num := (Occupants(r) - Occupants(l)) / 2;
    LastOfConcat(Items(l), Items(r));
    if l.Leaf? {
      assert r.items == r.items[..num] + r.items[num..];
    } else {
      ShiftLeftNodes(l, key, r, m, level);
    }
  }

  lemma {:induction false} ShiftLeftNodes(l: Tree, key: int, r: Tree, m: nat, level: nat)
    requires Loose(l, m, level) && Loose(r, m, level) && m >= 4 && key == LastKey(Items(l))
    requires Occupants(l) < m / 2 < Occupants(r) && l.Node? && SameKind(l, r) && Items(r) != []
    ensures Balanced(ShiftLeft(l, key, r), l, r, m, level)
  {
    hide Items, ItemsOf, Shaped, Fenced, LastKey, Row;
    var p := ShiftLeft(l, key, r);
    var num := (Occupants(r) - Occupants(l)) / 2;
    LooseRowOf(l, m, level);
    LooseRowOf(r, m, level);
    RowLast(l, m, level);
    var keys, kids := l.keys + [key] + r.keys, l.kids + r.kids;
    RowJoin(l.keys, l.kids, key, r.keys, r.kids, m, level - 1);
    assert p.left.keys == keys[..|p.left.keys|] && p.right.keys == keys[|p.left.keys| + 1..];
    assert kids == p.left.kids + p.right.kids by { assert r.kids == r.kids[..num] + r.kids[num..]; }
    OccupantBounds(l, m, level);
    OccupantBounds(r, m, level);
    CutNodes(p.left, p.key, p.right, keys, kids, m, level);
    ItemsConcat(l.kids, r.kids);
    ItemsOfNode(l);
    ItemsOfNode(r);
    RightLast(p, l, r, m, level);
  }

  lemma {:induction false} OccupantBounds(t: Tree, m: nat, level: nat)
    requires Loose(t, m, level)
    ensures m / 2 - 1 <= Occupants(t) <= m
  {
  }

  /** The last key of all is that of the right neighbour, before and after. */
  lemma {:induction false} RightLast(p: Pair, l: Tree, r: Tree, m: nat, level: nat)
    requires Items(p.left) + Items(p.right) == Items(l) + Items(r) && Items(r) != []
    requires Kid(p.right, m, level) && m >= 4
    ensures Items(p.right) != [] && LastKey(Items(p.right)) == LastKey(Items(r))
  {
    hide Items, ItemsOf;
    NotEmpty(p.right, m, level, m / 2);
    LastOfConcat(Items(p.left), Items(p.right));
    LastOfConcat(Items(l), Items(r));
  }

  lemma {:induction false} ShiftRightCorrect(l: Tree, key: int, r: Tree, m: nat, level: nat)
    requires Loose(l, m, level) && Loose(r, m, level) && m >= 4 && key == LastKey(Items(l))
    requires Occupants(r) < m / 2 < Occupants(l)
    ensures SameKind(l, r) && Balanced(ShiftRight(l, key, r), l, r, m, level)
  {
    LooseKind(l, r, m, level);
    var p := ShiftRight(l, key, r);
    LastOfConcat(Items(l), Items(r));
    if l.Leaf? {
      var rest := |p.left.items|;
      assert l.items == l.items[..rest] + l.items[rest..];
    } else {
      ShiftRightNodes(l, key, r, m, level);
    }
  }

  lemma {:induction false} ShiftRightNodes(l: Tree, key: int, r: Tree, m: nat, level: nat)
    requires Loose(l, m, level) && Loose(r, m, level) && m >= 4 && key == LastKey(Items(l))
    requires Occupants(r) < m / 2 < Occupants(l) && l.Node? && SameKind(l, r) && Items(r) != []
    ensures Balanced(ShiftRight(l, key, r), l, r, m, level)
  {
    hide Items, ItemsOf, Shaped, Fenced, LastKey, Row;
    var p := ShiftRight(l, key, r);
    LooseRowOf(l, m, level);
    LooseRowOf(r, m, level);
    RowLast(l, m, level);
    var keys, kids := l.keys + [key] + r.keys, l.kids + r.kids;
    RowJoin(l.keys, l.kids, key, r.keys, r.kids, m, level - 1);
    var rest := |p.left.keys|;
    assert p.left.keys == keys[..rest] && p.right.keys == keys[rest + 1..];
    assert kids == p.left.kids + p.right.kids by { assert l.kids == l.kids[..rest + 1] + l.kids[rest + 1..]; }
    OccupantBounds(l, m, level);
    OccupantBounds(r, m, level);
    CutNodes(p.left, p.key, p.right, keys, kids, m, level);
    ItemsConcat(l.kids, r.kids);
    ItemsOfNode(l);
    ItemsOfNode(r);
    RightLast(p, l, r, m, level);
  }

  // ---------- repairing an underflow ----------

  /** A row in which child `s` may have one occupant too few. */
  ghost predicate LooseRow(keys: seq<int>, kids: seq<Tree>, m: nat, level: nat, s: nat) {
    && Fences(keys, kids) && s < |kids|
    && forall i :: 0 <= i < |kids| ==> if i == s then Loose(kids[i], m, level) else Kid(kids[i], m, level)
  }

  function MergeAt(t: Tree, i: nat): Tree
    requires t.Node? && i + 1 < |t.kids| == |t.keys| + 1
  {
    var merged := Merge(t.kids[i], t.keys[i], t.kids[i + 1]);
    var keys := t.keys[..i] + t.keys[i + 1..];
    var fixed := if merged.Leaf? && i < |keys| then keys[i := LastKey(merged.items)] else keys;
    Node(t.id, fixed, t.kids[..i] + [merged] + t.kids[i + 2..])
  }

  function Replace(t: Tree, i: nat, p: Pair): Tree
    requires t.Node? && i + 1 < |t.kids| == |t.keys| + 1
  {
    Node(t.id, t.keys[i := p.key], t.kids[i := p.left][i + 1 := p.right])
  }

  function Few(t: Tree, m: nat): bool { Occupants(t) <= m / 2 }

  datatype Repair = MergeWithLeft | MergeWithRight | TakeFromLeft | TakeFromRight

  /** How the underflow of child `s` is repaired. `left` and `right` are its neighbours, or
      some cousins where it has none under the same parent. */
  function Choose(left: MaybeTree, right: MaybeTree, hasLeft: bool, hasRight: bool, m: nat): Repair {
    if (left.Nil? || Few(left.tree, m)) && (right.Nil? || Few(right.tree, m)) then
      if hasLeft then MergeWithLeft else MergeWithRight
    else if left.Some? && Few(left.tree, m) && right.Some? && !Few(right.tree, m) then
      if hasRight then TakeFromRight else MergeWithLeft
    else if left.Some? && !Few(left.tree, m) && right.Some? && Few(right.tree, m) then
      if hasLeft then TakeFromLeft else MergeWithRight
    else if hasLeft && hasRight && left.Some? && right.Some? then
      if Occupants(left.tree) <= Occupants(right.tree) then TakeFromRight else TakeFromLeft
    else if hasLeft then TakeFromLeft else TakeFromRight
  }

  /** The neighbours handed down are the true ones where the parent has them. */
  ghost predicate Neighbours(t: Tree, s: nat, left: MaybeTree, right: MaybeTree) {
    && t.Node? && s < |t.kids| == |t.keys| + 1 && |t.keys| >= 1
    && (s > 0 ==> left == Some(t.kids[s - 1])) && (s < |t.keys| ==> right == Some(t.kids[s + 1]))
  }

  /** Whatever the cousins are, the choice only involves a neighbour under the same parent,
      and one that can give or take. */
  lemma {:induction false} ChoiceIsLocal(t: Tree, s: nat, left: MaybeTree, right: MaybeTree, m: nat)
    requires Neighbours(t, s, left, right)
    ensures match Choose(left, right, s > 0, s < |t.keys|, m)
      case MergeWithLeft => s > 0 && Few(t.kids[s - 1], m)
      case MergeWithRight => s < |t.keys| && Few(t.kids[s + 1], m)
      case TakeFromLeft => s > 0 && !Few(t.kids[s - 1], m)
      case TakeFromRight => s < |t.keys| && !Few(t.kids[s + 1], m)
  {
  }

  /** The choice does not depend on the cousins: if a neighbour can give, the fuller one does, the
      right one when both hold as much; otherwise the child is merged, with the left neighbour if
      there is one. */
  lemma {:induction false} ChoiceIs(t: Tree, s: nat, left: MaybeTree, right: MaybeTree, m: nat)
    requires Neighbours(t, s, left, right)
    ensures var a := if s > 0 then Occupants(t.kids[s - 1]) else 0;
      var b := if s < |t.keys| then Occupants(t.kids[s + 1]) else 0;
      Choose(left, right, s > 0, s < |t.keys|, m) ==
        if b > m / 2 && a <= b then TakeFromRight else if a > m / 2 then TakeFromLeft
        else if s > 0 then MergeWithLeft else MergeWithRight
  {
  }

  /** After a shift the two differ by at most one, and the one that took is not the fuller one. */
  lemma {:induction false} ShiftsEven(l: Tree, key: int, r: Tree)
    requires SameKind(l, r)
    ensures Occupants(l) + 2 <= Occupants(r) ==> 0 <= Occupants(ShiftLeft(l, key, r).right) - Occupants(ShiftLeft(l, key, r).left) <= 1
    ensures Occupants(r) + 2 <= Occupants(l) ==> 0 <= Occupants(ShiftRight(l, key, r).left) - Occupants(ShiftRight(l, key, r).right) <= 1
  {
  }

  function Rebalance(t: Tree, s: nat, left: MaybeTree, right: MaybeTree, m: nat): Tree
    requires t.Node? && s < |t.kids| == |t.keys| + 1
  {
    var repair := Choose(left, right, s > 0, s < |t.keys|, m);
    if repair == MergeWithLeft && s > 0 then MergeAt(t, s - 1)
    else if repair == MergeWithRight && s < |t.keys| then MergeAt(t, s)
    else if repair == TakeFromLeft && s > 0 then Replace(t, s - 1, ShiftRight(t.kids[s - 1], t.keys[s - 1], t.kids[s]))
    else if repair == TakeFromRight && s < |t.keys| then Replace(t, s, ShiftLeft(t.kids[s], t.keys[s], t.kids[s + 1]))
    else t
  }

  lemma {:induction false} NeighbourKinds(t: Tree, s: nat, m: nat, level: nat)
    requires t.Node? && m >= 4 && LooseRow(t.keys, t.kids, m, level, s)
    ensures s > 0 ==> SameKind(t.kids[s - 1], t.kids[s]) && Loose(t.kids[s - 1], m, level)
    ensures s < |t.keys| ==> SameKind(t.kids[s], t.kids[s + 1]) && Loose(t.kids[s + 1], m, level)
    ensures Loose(t.kids[s], m, level)
  {
    hide Items, ItemsOf, Shaped, Fenced, LastKey, Loose, Kid;
    assert Loose(t.kids[s], m, level);
    if s > 0 {
      assert Kid(t.kids[s - 1], m, level);
      KidIsLoose(t.kids[s - 1], m, level);
      LooseKind(t.kids[s - 1], t.kids[s], m, level);
    }
    if s < |t.keys| {
      assert Kid(t.kids[s + 1], m, level);
      KidIsLoose(t.kids[s + 1], m, level);
      LooseKind(t.kids[s], t.kids[s + 1], m, level);
    }
  }

  /** Two neighbours, one of them possibly short, become one. */
  lemma {:induction false} MergeAtCorrect(t: Tree, i: nat, s: nat, m: nat, level: nat)
    requires t.Node? && m >= 4 && LooseRow(t.keys, t.kids, m, level, s) && i + 1 < |t.kids| && (s == i || s == i + 1)
    requires Occupants(t.kids[i]) + Occupants(t.kids[i + 1]) < m
    requires Occupants(t.kids[i]) >= m / 2 || Occupants(t.kids[i + 1]) >= m / 2
    ensures SameKind(t.kids[i], t.kids[i + 1]) && |t.kids| == |t.keys| + 1
    ensures var r := MergeAt(t, i); r.Node? && |r.keys| == |t.keys| - 1 && Row(r.keys, r.kids, m, level) && ItemsOf(r.kids) == ItemsOf(t.kids)
  {
    hide Items, ItemsOf, Shaped, Fenced, LastKey, Loose, Kid, Merge;
    NeighbourKinds(t, s, m, level);
    var merged := Merge(t.kids[i], t.keys[i], t.kids[i + 1]);
    MergeCorrect(t.kids[i], t.keys[i], t.kids[i + 1], m, level);
    var r := MergeAt(t, i);
    var keys := t.keys[..i] + t.keys[i + 1..];
    MergedRow(t, i, s, m, level, merged);
    assert r.keys == keys by { MergedKeys(t, i, keys, merged); }
    assert t.kids == t.kids[..i] + [t.kids[i], t.kids[i + 1]] + t.kids[i + 2..];
    ItemsParts(t.kids[..i], [t.kids[i], t.kids[i + 1]], t.kids[i + 2..]);
    ItemsTwo(t.kids[i], t.kids[i + 1]);
    ItemsParts(t.kids[..i], [merged], t.kids[i + 2..]);
    ItemsOne(merged);
  }

  /** The separator that is fixed up above leaves was right already. */
  lemma {:induction false} MergedKeys(t: Tree, i: nat, keys: seq<int>, merged: Tree)
    requires t.Node? && i + 1 < |t.kids| && Fences(t.keys, t.kids) && keys == t.keys[..i] + t.keys[i + 1..]
    requires LastKey(Items(merged)) == LastKey(Items(t.kids[i + 1]))
    ensures merged.Leaf? && i < |keys| ==> keys[i := LastKey(merged.items)] == keys
  {
  }

  lemma {:induction false} MergedRow(t: Tree, i: nat, s: nat, m: nat, level: nat, merged: Tree)
    requires t.Node? && LooseRow(t.keys, t.kids, m, level, s) && i + 1 < |t.kids| && (s == i || s == i + 1)
    requires Kid(merged, m, level) && LastKey(Items(merged)) == LastKey(Items(t.kids[i + 1]))
    ensures Row(t.keys[..i] + t.keys[i + 1..], t.kids[..i] + [merged] + t.kids[i + 2..], m, level)
  {
    hide Items, Kid, Loose, LastKey;
    var keys, kids := t.keys[..i] + t.keys[i + 1..], t.kids[..i] + [merged] + t.kids[i + 2..];
    forall j | 0 <= j < |keys| ensures keys[j] == LastKey(Items(kids[j])) {
      if j >= i { assert keys[j] == t.keys[j + 1]; }
      if j > i { assert kids[j] == t.kids[j + 1]; }
    }
    forall j | 0 <= j < |kids| ensures Kid(kids[j], m, level) {
      if j > i { assert kids[j] == t.kids[j + 1]; }
    }
  }

  /** Two neighbours are replaced by two balanced ones. */
  lemma {:induction false} ReplaceCorrect(t: Tree, i: nat, s: nat, p: Pair, m: nat, level: nat)
    requires t.Node? && LooseRow(t.keys, t.kids, m, level, s) && i + 1 < |t.kids| && (s == i || s == i + 1)
    requires Balanced(p, t.kids[i], t.kids[i + 1], m, level)
    ensures |t.kids| == |t.keys| + 1
    ensures var r := Replace(t, i, p); Row(r.keys, r.kids, m, level) && ItemsOf(r.kids) == ItemsOf(t.kids)
  {
    hide Items, ItemsOf, Kid, Loose, LastKey;
    var r := Replace(t, i, p);
    assert t.kids == t.kids[..i] + [t.kids[i], t.kids[i + 1]] + t.kids[i + 2..];
    assert r.kids == t.kids[..i] + [p.left, p.right] + t.kids[i + 2..];
    ItemsParts(t.kids[..i], [t.kids[i], t.kids[i + 1]], t.kids[i + 2..]);
    ItemsParts(t.kids[..i], [p.left, p.right], t.kids[i + 2..]);
    ItemsTwo(t.kids[i], t.kids[i + 1]);
    ItemsTwo(p.left, p.right);
  }

  /** The repair keeps the pairs and makes every child full enough. */
  lemma {:induction false} RebalanceCorrect(t: Tree, s: nat, left: MaybeTree, right: MaybeTree, m: nat, level: nat)
    requires t.Node? && m >= 4 && LooseRow(t.keys, t.kids, m, level, s) && Neighbours(t, s, left, right)
    requires Occupants(t.kids[s]) < m / 2
    ensures |t.kids| == |t.keys| + 1
    ensures var r := Rebalance(t, s, left, right, m);
      && r.Node? && |t.keys| - 1 <= |r.keys| <= |t.keys|
      && Row(r.keys, r.kids, m, level) && ItemsOf(r.kids) == ItemsOf(t.kids)
  {
    hide Items, ItemsOf, Shaped, Fenced, LastKey, Kid, Loose, ShiftLeft, ShiftRight, MergeAt, Choose;
    ChoiceIsLocal(t, s, left, right, m);
    NeighbourKinds(t, s, m, level);
    KidSizes(t, s, m, level);
    match Choose(left, right, s > 0, s < |t.keys|, m)
    case MergeWithLeft => MergeAtCorrect(t, s - 1, s, m, level);
    case MergeWithRight => MergeAtCorrect(t, s, s, m, level);
    case TakeFromLeft =>
      ShiftRightCorrect(t.kids[s - 1], t.keys[s - 1], t.kids[s], m, level);
      ReplaceCorrect(t, s - 1, s, ShiftRight(t.kids[s - 1], t.keys[s - 1], t.kids[s]), m, level);
    case TakeFromRight =>
      ShiftLeftCorrect(t.kids[s], t.keys[s], t.kids[s + 1], m, level);
      ReplaceCorrect(t, s, s, ShiftLeft(t.kids[s], t.keys[s], t.kids[s + 1]), m, level);
  }

  lemma {:induction false} KidSizes(t: Tree, s: nat, m: nat, level: nat)
    requires t.Node? && LooseRow(t.keys, t.kids, m, level, s)
    ensures forall i :: 0 <= i < |t.kids| && i != s ==> Occupants(t.kids[i]) >= m / 2
  {
    assert forall i :: 0 <= i < |t.kids| && i != s ==> Kid(t.kids[i], m, level);
  }

  // ---------- erasing ----------

  /** The left neighbour handed to child `s`. At slot 0 this is a child of the left cousin,
      and not even its last one. */
  function LeftOf(t: Tree, s: nat, left: MaybeTree): MaybeTree
    requires t.Node? && s < |t.kids|
  {
    if s > 0 then Some(t.kids[s - 1])
    else if left.Some? && left.tree.Node? && 1 <= |left.tree.keys| <= |left.tree.kids| then Some(left.tree.kids[|left.tree.keys| - 1])
    else Nil
  }

  function RightOf(t: Tree, s: nat, right: MaybeTree): MaybeTree
    requires t.Node? && s < |t.kids| == |t.keys| + 1
  {
    if s < |t.keys| then Some(t.kids[s + 1])
    else if right.Some? && right.tree.Node? && right.tree.kids != [] then Some(right.tree.kids[0])
    else Nil
  }

  ghost predicate Cousin(c: MaybeTree, m: nat, level: nat) { c.Some? ==> Shaped(c.tree, m, level, m / 2) }

  function EraseLeaf(t: Tree, k: int): Erasure
    requires t.Leaf?
  {
    if !Has(t.items, k) then NotFound
    else
      var items := DropAt(t.items, Slot(t.items, k));
      Erased(Leaf(t.id, items), if Slot(t.items, k) == |items| && items != [] then NewLast(LastKey(items)) else Unchanged)
  }

  /** A node whose child `s` was erased from: the separator follows a new last key, or the
      news goes further up. */
  function WithChild(t: Tree, s: nat, child: Tree, last: MaybeKey): Tree
    requires t.Node? && s < |t.kids| == |t.keys| + 1
  {
    Node(t.id, if last.NewLast? && s < |t.keys| then t.keys[s := last.key] else t.keys, t.kids[s := child])
  }

  /** What a subtree is after an erasure. */
  ghost predicate IsErasure(r: Erasure, s: seq<Item>, m: nat, level: nat, least: nat, k: int) {
    && (r.NotFound? <==> !Has(s, k))
    && (r.Erased? ==>
          && Shaped(r.tree, m, level, if least == 0 then 0 else least - 1) && Fenced(r.tree)
          && Items(r.tree) == Remove(s, k)
          && (r.last.NewLast? ==> Items(r.tree) != [] && r.last.key == LastKey(Items(r.tree)))
          && (r.last.Unchanged? ==> Items(r.tree) == [] || LastKey(Items(r.tree)) == LastKey(s)))
  }

  lemma {:induction false} LeafCorrect(t: Tree, m: nat, least: nat, k: int)
    requires Valid(t, m, 0, least)
    ensures IsErasure(EraseLeaf(t, k), t.items, m, 0, least, k)
  {
    hide Slot;
  }

  /** The row after the child changed: its separator is right again. */
  lemma {:induction false} WithChildCorrect(t: Tree, m: nat, level: nat, s: nat, r: Erasure, k: int)
    requires t.Node? && m >= 4 && Row(t.keys, t.kids, m, level) && s < |t.kids| && r.Erased?
    requires IsErasure(r, Items(t.kids[s]), m, level, m / 2, k)
    ensures |t.kids| == |t.keys| + 1
    ensures var n := WithChild(t, s, r.tree, r.last); LooseRow(n.keys, n.kids, m, level, s) && |n.keys| == |t.keys|
    ensures Items(r.tree) != []
  {
    hide Items, ItemsOf, Remove, Has, LastKey, Kid;
    NotEmpty(r.tree, m, level, m / 2 - 1);
    var n := WithChild(t, s, r.tree, r.last);
    RowFence(t.keys, t.kids, m, level, s);
    assert Loose(r.tree, m, level);
    forall i | 0 <= i < |n.keys| ensures n.keys[i] == LastKey(Items(n.kids[i])) {
      RowFence(t.keys, t.kids, m, level, i);
    }
  }

  lemma {:induction false} CousinsBelow(t: Tree, m: nat, level: nat, least: nat, s: nat, left: MaybeTree, right: MaybeTree)
    requires m >= 4 && Shaped(t, m, level, least) && t.Node? && s < |t.kids| && Cousin(left, m, level) && Cousin(right, m, level)
    ensures level >= 1 && Cousin(LeftOf(t, s, left), m, level - 1) && Cousin(RightOf(t, s, right), m, level - 1)
  {
  }

  /** The node after its child was erased from, before any repair. */
  lemma {:induction false} EraseBelow(t: Tree, m: nat, level: nat, least: nat, k: int, s: nat, r: Erasure)
    requires m >= 4 && Valid(t, m, level, least) && t.Node? && Located(t, k, s) && r.Erased? && level >= 1
    requires IsErasure(r, Items(t.kids[s]), m, level - 1, m / 2, k)
    ensures var next := WithChild(t, s, r.tree, r.last);
      LooseRow(next.keys, next.kids, m, level - 1, s) && |next.keys| == |t.keys| && ItemsOf(next.kids) == Remove(Items(t), k)
  {
    hide Items, ItemsOf, Remove, Has, LastKey, Kid, Shaped, Fenced, LooseRow, Row;
    RowOf(t, m, level, least);
    WithChildCorrect(t, m, level - 1, s, r, k);
    KidValid(t, m, level, least, s);
    InsideRemove(ItemsOf(t.kids[..s]), Items(t.kids[s]), ItemsOf(t.kids[s + 1..]), k);
    ItemsUpdate(t.kids, s, r.tree);
  }

  lemma {:induction false} NeighboursOf(t: Tree, s: nat, left: MaybeTree, right: MaybeTree)
    requires t.Node? && s < |t.kids| == |t.keys| + 1 && |t.keys| >= 1
    ensures Neighbours(t, s, LeftOf(t, s, left), RightOf(t, s, right))
  {
  }

  /** The subtree after the repair of its child, if one was needed. */
  function Repaired(t: Tree, s: nat, left: MaybeTree, right: MaybeTree, m: nat): Tree
    requires t.Node? && s < |t.kids| == |t.keys| + 1
  {
    if Occupants(t.kids[s]) < m / 2 then Rebalance(t, s, left, right, m) else t
  }

  lemma {:induction false} RepairedCorrect(t: Tree, s: nat, left: MaybeTree, right: MaybeTree, m: nat, level: nat)
    requires t.Node? && m >= 4 && LooseRow(t.keys, t.kids, m, level, s) && Neighbours(t, s, left, right)
    ensures var r := Repaired(t, s, left, right, m);
      && r.Node? && |t.keys| - 1 <= |r.keys| <= |t.keys|
      && Row(r.keys, r.kids, m, level) && ItemsOf(r.kids) == ItemsOf(t.kids)
  {
    hide Items, ItemsOf, LastKey, Rebalance;
    if Occupants(t.kids[s]) < m / 2 {
      RebalanceCorrect(t, s, left, right, m, level);
    } else {
      assert Loose(t.kids[s], m, level);
      ShapedLess(t.kids[s], m, level, m / 2 - 1, m / 2);
    }
  }

  lemma {:induction false} EraseAbove(t: Tree, m: nat, level: nat, least: nat, k: int, s: nat, r: Erasure, n: Tree)
    requires m >= 4 && Valid(t, m, level, least) && t.Node? && Located(t, k, s) && level >= 1 && least >= 1
    requires IsErasure(r, Items(t.kids[s]), m, level - 1, m / 2, k) && r.Erased?
    requires n.Node? && |t.keys| - 1 <= |n.keys| <= |t.keys| && Row(n.keys, n.kids, m, level - 1) && ItemsOf(n.kids) == Remove(Items(t), k)
    ensures IsErasure(Erased(n, if s < |t.keys| then Unchanged else r.last), Items(t), m, level, least, k)
  {
    hide Items, ItemsOf, Remove, Has, LastKey, Kid;
    var a, b, c := ItemsOf(t.kids[..s]), Items(t.kids[s]), ItemsOf(t.kids[s + 1..]);
    KidValid(t, m, level, least, s);
    InsideSlot(a, b, c, k);
    InsideRemove(a, b, c, k);
    ItemsOfNode(n);
    ErasedShape(n, m, level, least - 1);
    NotEmpty(r.tree, m, level - 1, m / 2 - 1);
    NotEmpty(t.kids[s], m, level - 1, m / 2);
    if s == |t.keys| {
      assert t.kids[s + 1..] == [];
      ItemsNone();
      LastOfConcat(a, b);
      LastOfConcat(a, Remove(b, k));
      assert a + b + c == a + b && a + Remove(b, k) + c == a + Remove(b, k);
    } else {
      RowOf(t, m, level, least);
      RowPart(t.keys, t.kids, m, level - 1, s + 1, |t.keys|);
      assert t.kids[s + 1..|t.keys| + 1] == t.kids[s + 1..];
      RowNotEmpty(t.keys[s + 1..|t.keys|], t.kids[s + 1..], m, level - 1);
      LastOfConcat(a + b, c);
      LastOfConcat(a + Remove(b, k), c);
    }
  }

  lemma {:induction false} ErasedShape(n: Tree, m: nat, level: nat, least: nat)
    requires n.Node? && level >= 1 && least <= |n.keys| <= m && Row(n.keys, n.kids, m, level - 1)
    ensures Shaped(n, m, level, least) && Fenced(n)
  {
  }

  /** A node once its child `s` was erased from: separator, then repair. */
  function EraseAt(t: Tree, m: nat, s: nat, r: Erasure, left: MaybeTree, right: MaybeTree): Erasure
    requires t.Node? && s < |t.kids| == |t.keys| + 1
  {
    if r.NotFound? then NotFound
    else Erased(Repaired(WithChild(t, s, r.tree, r.last), s, left, right, m), if s < |t.keys| then Unchanged else r.last)
  }

  /** `erase_one_descend`, up to the underflow of the subtree itself. */
  function EraseIn(t: Tree, m: nat, k: int, left: MaybeTree, right: MaybeTree): Erasure
    decreases t
  {
    if t.Leaf? then EraseLeaf(t, k)
    else if |t.kids| != |t.keys| + 1 then NotFound
    else
      var s := LowerBound(t.keys, k);
      var myLeft, myRight := LeftOf(t, s, left), RightOf(t, s, right);
      EraseAt(t, m, s, EraseIn(t.kids[s], m, k, myLeft, myRight), myLeft, myRight)
  }

  lemma {:induction false} EraseAtCorrect(t: Tree, m: nat, level: nat, least: nat, k: int, s: nat, r: Erasure, left: MaybeTree, right: MaybeTree)
    requires m >= 4 && Valid(t, m, level, least) && t.Node? && Located(t, k, s) && level >= 1 && least >= 1
    requires IsErasure(r, Items(t.kids[s]), m, level - 1, m / 2, k) && Neighbours(t, s, left, right)
    ensures IsErasure(EraseAt(t, m, s, r, left, right), Items(t), m, level, least, k)
    ensures r.Erased? ==>
      var n := WithChild(t, s, r.tree, r.last); LooseRow(n.keys, n.kids, m, level - 1, s) && Neighbours(n, s, left, right)
  {
    hide Items, ItemsOf, Remove, Has, LastKey, Kid, Shaped, Fenced, LooseRow, Row, Valid, Located, Repaired;
    FoundBelow(t, m, level, least, k, s);
    if r.Erased? {
      hide IsErasure;
      EraseBelow(t, m, level, least, k, s, r);
      var n := WithChild(t, s, r.tree, r.last);
      RepairedCorrect(n, s, left, right, m, level - 1);
      EraseAbove(t, m, level, least, k, s, r, Repaired(n, s, left, right, m));
    }
  }

  lemma {:induction false} FoundBelow(t: Tree, m: nat, level: nat, least: nat, k: int, s: nat)
    requires Valid(t, m, level, least) && t.Node? && Located(t, k, s) && level >= 1
    ensures Has(Items(t), k) == Has(Items(t.kids[s]), k)
  {
    hide Items, ItemsOf, Has;
    KidValid(t, m, level, least, s);
    InsideSlot(ItemsOf(t.kids[..s]), Items(t.kids[s]), ItemsOf(t.kids[s + 1..]), k);
  }

  /** What is known where the search enters a child. */
  ghost predicate Entered(t: Tree, m: nat, level: nat, k: int, s: nat, left: MaybeTree, right: MaybeTree) {
    && t.Node? && level >= 1 && s < |t.kids| == |t.keys| + 1 && Located(t, k, s) && Valid(t.kids[s], m, level - 1, m / 2)
    && Cousin(LeftOf(t, s, left), m, level - 1) && Cousin(RightOf(t, s, right), m, level - 1)
    && Neighbours(t, s, LeftOf(t, s, left), RightOf(t, s, right))
  }

  lemma {:induction false} EraseEnters(t: Tree, m: nat, level: nat, least: nat, k: int, left: MaybeTree, right: MaybeTree)
    requires m >= 4 && Valid(t, m, level, least) && least >= 1 && t.Node? && Cousin(left, m, level) && Cousin(right, m, level)
    ensures Entered(t, m, level, k, LowerBound(t.keys, k), left, right)
  {
    var s := LowerBound(t.keys, k);
    hide LowerBound, Items, ItemsOf;
    Locate(t, m, level, least, k);
    KidValid(t, m, level, least, s);
    CousinsBelow(t, m, level, least, s, left, right);
    NeighboursOf(t, s, left, right);
  }

  /** Erasure is list removal, whatever the cousins: it keeps separators and depth, and only
      the node itself may now be short of one occupant. */
  lemma {:induction false} EraseCorrect(t: Tree, m: nat, level: nat, least: nat, k: int, left: MaybeTree, right: MaybeTree)
    requires m >= 4 && Valid(t, m, level, least) && (level > 0 ==> least >= 1)
    requires Cousin(left, m, level) && Cousin(right, m, level)
    ensures IsErasure(EraseIn(t, m, k, left, right), Items(t), m, level, least, k)
    decreases t
  {
    if t.Leaf? {
      LeafCorrect(t, m, least, k);
    } else {
      hide LowerBound, Items, ItemsOf, Located, EraseAt, IsErasure, Cousin, Neighbours, LeftOf, RightOf;
      var s := LowerBound(t.keys, k);
      EraseEnters(t, m, level, least, k, left, right);
      var myLeft, myRight := LeftOf(t, s, left), RightOf(t, s, right);
      EraseCorrect(t.kids[s], m, level - 1, m / 2, k, myLeft, myRight);
      EraseAtCorrect(t, m, level, least, k, s, EraseIn(t.kids[s], m, k, myLeft, myRight), myLeft, myRight);
    }
  }
}
