/** What an erasure does to the pages of a B+ tree: addresses and leaves are conserved except
    for a merged node, and the pages still hold the tree. */
module BtreeErasePages {
  import opened BtreeItems
  import opened BtreeTree
  import opened BtreeHeap
  import opened BtreeErase
  import opened BtreeInsertPages

  // ---------- addresses ----------

  lemma {:induction false} MergeIds(l: Tree, key: int, r: Tree)
    requires SameKind(l, r)
    ensures Ids(Merge(l, key, r)) + multiset{r.id} == Ids(l) + Ids(r)
    ensures Leaves(Merge(l, key, r)) == if l.Leaf? then [l.id] else Leaves(l) + Leaves(r)
  {
    hide Ids, IdsOf, Leaves, LeavesOf;
    var t := Merge(l, key, r);
    if l.Leaf? {
      IdsOfLeaf(l);
      IdsOfLeaf(r);
      IdsOfLeaf(t);
    } else {
      IdsConcat(l.kids, r.kids);
      LeavesConcat(l.kids, r.kids);
      IdsOfNode(l);
      IdsOfNode(r);
      IdsOfNode(t);
      LeavesOfNode(l);
      LeavesOfNode(r);
      LeavesOfNode(t);
    }
  }

  /** Two neighbours that exchanged some of what they hold. */
  ghost predicate Exchanged(p: Pair, l: Tree, r: Tree) {
    && SameKind(l, r) && SameKind(p.left, p.right) && (l.Leaf? <==> p.left.Leaf?)
    && p.left.id == l.id && p.right.id == r.id
    && (l.Node? ==> p.left.kids + p.right.kids == l.kids + r.kids)
  }

  lemma {:induction false} ShiftLeftExchanges(l: Tree, key: int, r: Tree)
    requires SameKind(l, r) && Occupants(l) + 2 <= Occupants(r)
    ensures Exchanged(ShiftLeft(l, key, r), l, r)
  {
    if l.Node? {
      var num := (Occupants(r) - Occupants(l)) / 2;
      assert r.kids == r.kids[..num] + r.kids[num..];
    }
  }

  lemma {:induction false} ShiftRightExchanges(l: Tree, key: int, r: Tree)
    requires SameKind(l, r) && Occupants(r) + 2 <= Occupants(l)
    ensures Exchanged(ShiftRight(l, key, r), l, r)
  {
    if l.Node? {
      var rest := Occupants(l) - (Occupants(l) - Occupants(r)) / 2;
      assert l.kids == l.kids[..rest + 1] + l.kids[rest + 1..];
    }
  }

  lemma {:induction false} AddBoth(x: multiset<nat>, y: multiset<nat>, a: multiset<nat>, b: multiset<nat>, c: multiset<nat>, d: multiset<nat>)
    requires a + b == c + d
    ensures (x + a) + (y + b) == (x + c) + (y + d)
  {
    assert (x + a) + (y + b) == x + y + (a + b);
    assert (x + c) + (y + d) == x + y + (c + d);
  }

  lemma {:induction false} ExchangedIds(p: Pair, l: Tree, r: Tree)
    requires Exchanged(p, l, r)
    ensures Ids(p.left) + Ids(p.right) == Ids(l) + Ids(r) && Leaves(p.left) + Leaves(p.right) == Leaves(l) + Leaves(r)
  {
    hide Ids, IdsOf, Leaves, LeavesOf;
    if l.Leaf? {
      IdsOfLeaf(l);
      IdsOfLeaf(r);
      IdsOfLeaf(p.left);
      IdsOfLeaf(p.right);
    } else {
      IdsConcat(l.kids, r.kids);
      IdsConcat(p.left.kids, p.right.kids);
      LeavesConcat(l.kids, r.kids);
      LeavesConcat(p.left.kids, p.right.kids);
      assert IdsOf(p.left.kids) + IdsOf(p.right.kids) == IdsOf(l.kids) + IdsOf(r.kids);
      assert LeavesOf(p.left.kids) + LeavesOf(p.right.kids) == LeavesOf(l.kids) + LeavesOf(r.kids);
      IdsOfNode(l);
      IdsOfNode(r);
      IdsOfNode(p.left);
      IdsOfNode(p.right);
      LeavesOfNode(l);
      LeavesOfNode(r);
      LeavesOfNode(p.left);
      LeavesOfNode(p.right);
      AddBoth(multiset{l.id}, multiset{r.id}, IdsOf(p.left.kids), IdsOf(p.right.kids), IdsOf(l.kids), IdsOf(r.kids));
    }
  }

  /** A node and two of its neighbouring children. */
  lemma {:induction false} PairParts(t: Tree, i: nat)
    requires t.Node? && i + 1 < |t.kids|
    ensures Ids(t) == multiset{t.id} + IdsOf(t.kids[..i]) + (Ids(t.kids[i]) + Ids(t.kids[i + 1])) + IdsOf(t.kids[i + 2..])
    ensures Leaves(t) == LeavesOf(t.kids[..i]) + (Leaves(t.kids[i]) + Leaves(t.kids[i + 1])) + LeavesOf(t.kids[i + 2..])
  {
    hide Ids, IdsOf, Leaves, LeavesOf;
    var l, r := t.kids[i], t.kids[i + 1];
    assert t.kids == t.kids[..i] + [l, r] + t.kids[i + 2..];
    IdsOfNode(t);
    IdsParts(t.kids[..i], [l, r], t.kids[i + 2..]);
    IdsTwo(l, r);
    LeavesOfNode(t);
    LeavesParts(t.kids[..i], [l, r], t.kids[i + 2..]);
    LeavesTwo(l, r);
  }

  lemma {:induction false} ReplaceIds(t: Tree, i: nat, p: Pair)
    requires t.Node? && i + 1 < |t.kids| == |t.keys| + 1 && Exchanged(p, t.kids[i], t.kids[i + 1])
    ensures Ids(Replace(t, i, p)) == Ids(t) && Leaves(Replace(t, i, p)) == Leaves(t)
  {
    hide Ids, IdsOf, Leaves, LeavesOf, Exchanged;
    var n := Replace(t, i, p);
    PairParts(t, i);
    PairParts(n, i);
    assert n.kids[..i] == t.kids[..i] && n.kids[i + 2..] == t.kids[i + 2..];
    ExchangedIds(p, t.kids[i], t.kids[i + 1]);
  }

  lemma {:induction false} MergeAtIds(t: Tree, i: nat)
    requires t.Node? && i + 1 < |t.kids| == |t.keys| + 1 && SameKind(t.kids[i], t.kids[i + 1])
    ensures var n := MergeAt(t, i);
      && n.id == t.id && Ids(n) + multiset{t.kids[i + 1].id} == Ids(t)
      && Leaves(n) == LeavesOf(t.kids[..i]) + (if t.kids[i].Leaf? then [t.kids[i].id] else Leaves(t.kids[i]) + Leaves(t.kids[i + 1])) + LeavesOf(t.kids[i + 2..])
  {
    hide Ids, IdsOf, Leaves, LeavesOf, Merge;
    var n := MergeAt(t, i);
    var merged := Merge(t.kids[i], t.keys[i], t.kids[i + 1]);
    PairParts(t, i);
    MergeIds(t.kids[i], t.keys[i], t.kids[i + 1]);
    IdsOfNode(n);
    IdsParts(t.kids[..i], [merged], t.kids[i + 2..]);
    IdsOne(merged);
    LeavesOfNode(n);
    LeavesParts(t.kids[..i], [merged], t.kids[i + 2..]);
    LeavesOne(merged);
  }

  lemma {:induction false} SimplePart(ids: multiset<nat>, part: multiset<nat>)
    requires Simple(ids) && part <= ids
    ensures Simple(part)
  {
    forall a ensures part[a] <= 1 { assert ids[a] <= 1; }
  }

  /** The repair of an underflow gives up at most one address. */
  lemma {:induction false} RepairedIds(t: Tree, s: nat, left: MaybeTree, right: MaybeTree, m: nat, level: nat)
    requires t.Node? && m >= 4 && LooseRow(t.keys, t.kids, m, level, s) && Neighbours(t, s, left, right)
    ensures var r := Repaired(t, s, left, right, m); Ids(r) <= Ids(t) && r.id == t.id
  {
    hide Ids, IdsOf, Leaves, LeavesOf, Choose, MergeAt, Replace, ShiftLeft, ShiftRight, Exchanged;
    if Occupants(t.kids[s]) < m / 2 {
      ChoiceIsLocal(t, s, left, right, m);
      NeighbourKinds(t, s, m, level);
      match Choose(left, right, s > 0, s < |t.keys|, m)
      case MergeWithLeft => MergeAtIds(t, s - 1);
      case MergeWithRight => MergeAtIds(t, s);
      case TakeFromLeft =>
        ShiftRightExchanges(t.kids[s - 1], t.keys[s - 1], t.kids[s]);
        ReplaceIds(t, s - 1, ShiftRight(t.kids[s - 1], t.keys[s - 1], t.kids[s]));
        ReplaceId(t, s - 1, ShiftRight(t.kids[s - 1], t.keys[s - 1], t.kids[s]));
      case TakeFromRight =>
        ShiftLeftExchanges(t.kids[s], t.keys[s], t.kids[s + 1]);
        ReplaceIds(t, s, ShiftLeft(t.kids[s], t.keys[s], t.kids[s + 1]));
        ReplaceId(t, s, ShiftLeft(t.kids[s], t.keys[s], t.kids[s + 1]));
    }
  }

  lemma {:induction false} ReplaceId(t: Tree, i: nat, p: Pair)
    requires t.Node? && i + 1 < |t.kids| == |t.keys| + 1
    ensures Replace(t, i, p).id == t.id
  {
  }

  lemma {:induction false} WithChildIds(t: Tree, s: nat, child: Tree, last: MaybeKey)
    requires t.Node? && s < |t.kids| == |t.keys| + 1 && Ids(child) <= Ids(t.kids[s])
    ensures Ids(WithChild(t, s, child, last)) <= Ids(t)
  {
    hide Ids, IdsOf;
    var n := WithChild(t, s, child, last);
    IdsOfNode(t);
    IdsOfNode(n);
    IdsAt(t.kids, s);
    IdsAt(n.kids, s);
    assert n.kids[..s] == t.kids[..s] && n.kids[s + 1..] == t.kids[s + 1..];
  }

  lemma {:induction false} EraseAtIds(t: Tree, m: nat, level: nat, least: nat, k: int, s: nat, r: Erasure, left: MaybeTree, right: MaybeTree)
    requires m >= 4 && Valid(t, m, level, least) && t.Node? && Located(t, k, s) && level >= 1 && least >= 1
    requires IsErasure(r, Items(t.kids[s]), m, level - 1, m / 2, k) && r.Erased? && Neighbours(t, s, left, right)
    requires Ids(r.tree) <= Ids(t.kids[s])
    ensures var e := EraseAt(t, m, s, r, left, right); e.Erased? && Ids(e.tree) <= Ids(t) && e.tree.id == t.id
  {
    hide Ids, IdsOf, Valid, Located, IsErasure, Repaired, LooseRow;
    EraseAtCorrect(t, m, level, least, k, s, r, left, right);
    var n := WithChild(t, s, r.tree, r.last);
    WithChildIds(t, s, r.tree, r.last);
    RepairedIds(n, s, left, right, m, level - 1);
  }

  /** An erasure keeps the address of the node and takes no new ones. */
  lemma {:induction false} EraseIds(t: Tree, m: nat, level: nat, least: nat, k: int, left: MaybeTree, right: MaybeTree)
    requires m >= 4 && Valid(t, m, level, least) && (level > 0 ==> least >= 1)
    requires Cousin(left, m, level) && Cousin(right, m, level)
    ensures var r := EraseIn(t, m, k, left, right); r.Erased? ==> Ids(r.tree) <= Ids(t) && r.tree.id == t.id
    decreases t
  {
    var e := EraseIn(t, m, k, left, right);
    if t.Leaf? {
      if e.Erased? { IdsOfLeaf(t); IdsOfLeaf(e.tree); }
    } else {
      hide LowerBound, Items, ItemsOf, Located, EraseAt, IsErasure, Cousin, Neighbours, LeftOf, RightOf, Ids, IdsOf, Valid;
      LeafLevel(t, m, level, least);
      var s := LowerBound(t.keys, k);
      EraseEnters(t, m, level, least, k, left, right);
      var myLeft, myRight := LeftOf(t, s, left), RightOf(t, s, right);
      EraseIds(t.kids[s], m, level - 1, m / 2, k, myLeft, myRight);
      EraseCorrect(t.kids[s], m, level - 1, m / 2, k, myLeft, myRight);
      var r := EraseIn(t.kids[s], m, k, myLeft, myRight);
      if r.Erased? {
        EraseAtIds(t, m, level, least, k, s, r, myLeft, myRight);
      } else {
        NotFoundAbove(t, m, s, r, myLeft, myRight);
      }
    }
  }

  lemma {:induction false} NotFoundAbove(t: Tree, m: nat, s: nat, r: Erasure, left: MaybeTree, right: MaybeTree)
    requires t.Node? && s < |t.kids| == |t.keys| + 1 && r.NotFound?
    ensures EraseAt(t, m, s, r, left, right).NotFound?
  {
  }

  // ---------- pages ----------

  ghost function Page(t: Tree): Cell { if t.Leaf? then LeafCell(t.items) else NodeCell(t.keys, IdList(t.kids)) }

  function PageOccupants(c: Cell): nat { if c.LeafCell? then |c.items| else |c.keys| }

  /** Only pages with these addresses changed. */
  ghost predicate Only(before: Cells, after: Cells, ids: multiset<nat>) {
    forall a :: a in before && a !in ids ==> a in after && after[a] == before[a]
  }

  /** A tree whose pages were not among the changed ones. */
  lemma {:induction false} RepSpared(before: Cells, after: Cells, t: Tree, ids: multiset<nat>)
    requires Rep(before, t) && Only(before, after, ids) && forall a :: a in Ids(t) ==> a !in ids
    ensures Rep(after, t)
  {
    hide Rep, Ids;
    RepKept(before, after, t);
  }

  lemma {:induction false} RepPage(cells: Cells, t: Tree)
    requires Rep(cells, t)
    ensures t.id in cells && cells[t.id] == Page(t)
    ensures t.Node? ==> RepAll(cells, t.kids)
  {
  }

  lemma {:induction false} RepFromPage(cells: Cells, t: Tree)
    requires t.id in cells && cells[t.id] == Page(t) && (t.Node? ==> RepAll(cells, t.kids))
    ensures Rep(cells, t)
  {
  }

  /** What two neighbouring children hold below them, apart from their own pages. */
  ghost function Inner(t: Tree): multiset<nat> { if t.Leaf? then multiset{} else IdsOf(t.kids) }

  lemma {:induction false} InnerIds(t: Tree)
    ensures Ids(t) == multiset{t.id} + Inner(t)
  {
  }

  /** The pages of a node, of two neighbouring children and of what is below are all
      different. */
  lemma {:induction false} PairApart(t: Tree, i: nat)
    requires t.Node? && Simple(Ids(t)) && i + 1 < |t.kids|
    ensures var l, r := t.kids[i], t.kids[i + 1];
      && t.id != l.id && t.id != r.id && l.id != r.id
      && t.id !in Inner(l) + Inner(r) && l.id !in Inner(l) + Inner(r) && r.id !in Inner(l) + Inner(r)
  {
    hide Ids, IdsOf, Inner, Leaves, LeavesOf;
    var l, r := t.kids[i], t.kids[i + 1];
    PairParts(t, i);
    InnerIds(l);
    InnerIds(r);
    assert Ids(t)[t.id] <= 1 && Ids(t)[l.id] <= 1 && Ids(t)[r.id] <= 1;
  }

  /** The other children are not touched. */
  lemma {:induction false} OthersKept(before: Cells, after: Cells, t: Tree, i: nat, j: nat)
    requires t.Node? && Rep(before, t) && Simple(Ids(t)) && i + 1 < |t.kids| && j < |t.kids| && j != i && j != i + 1
    requires forall a :: a in before && a != t.id && a != t.kids[i].id && a != t.kids[i + 1].id ==> a in after && after[a] == before[a]
    ensures Rep(after, t.kids[j])
  {
    hide Ids, IdsOf, Rep;
    RepKid(before, t, j);
    forall a | a in Ids(t.kids[j]) && a in before ensures a in after && after[a] == before[a] {
      KidsApart(t, j, i, a);
      KidsApart(t, j, i + 1, a);
      IdsSelf(t.kids[i]);
      IdsSelf(t.kids[i + 1]);
    }
    RepKept(before, after, t.kids[j]);
  }

  /** The subtrees below two neighbouring children are not touched. */
  lemma {:induction false} InnerKept(before: Cells, after: Cells, t: Tree, i: nat)
    requires t.Node? && Rep(before, t) && Simple(Ids(t)) && i + 1 < |t.kids| && t.kids[i].Node? && t.kids[i + 1].Node?
    requires forall a :: a in before && a != t.id && a != t.kids[i].id && a != t.kids[i + 1].id ==> a in after && after[a] == before[a]
    ensures RepAll(after, t.kids[i].kids + t.kids[i + 1].kids)
  {
    hide Ids, IdsOf, Rep, RepAll;
    var l, r := t.kids[i], t.kids[i + 1];
    RepKid(before, t, i);
    RepKid(before, t, i + 1);
    RepPage(before, l);
    RepPage(before, r);
    PairApart(t, i);
    IdsConcat(l.kids, r.kids);
    RepAllJoin(before, l.kids, r.kids);
    RepAllKept(before, after, l.kids + r.kids);
  }

  lemma {:induction false} RepAllJoin(cells: Cells, a: seq<Tree>, b: seq<Tree>)
    ensures RepAll(cells, a) && RepAll(cells, b) <==> RepAll(cells, a + b)
  {
    hide Rep;
    if RepAll(cells, a + b) {
      forall i | 0 <= i < |a| ensures Rep(cells, a[i]) { assert (a + b)[i] == a[i]; }
      forall i | 0 <= i < |b| ensures Rep(cells, b[i]) { assert (a + b)[|a| + i] == b[i]; }
    }
  }

  /** The pages after a shift. */
  lemma {:induction false} ReplacePages(before: Cells, after: Cells, t: Tree, i: nat, p: Pair)
    requires t.Node? && Rep(before, t) && Simple(Ids(t)) && i + 1 < |t.kids| == |t.keys| + 1 && Exchanged(p, t.kids[i], t.kids[i + 1])
    requires after == before[p.left.id := Page(p.left)][p.right.id := Page(p.right)][t.id := NodeCell(t.keys[i := p.key], IdList(t.kids))]
    ensures Rep(after, Replace(t, i, p)) && Only(before, after, Ids(t))
  {
    hide Ids, IdsOf, Rep, RepAll, Page;
    var l, r, n := t.kids[i], t.kids[i + 1], Replace(t, i, p);
    PairApart(t, i);
    if l.Node? {
      InnerKept(before, after, t, i);
      RepAllJoin(after, p.left.kids, p.right.kids);
    }
    RepFromPage(after, p.left);
    RepFromPage(after, p.right);
    forall j | 0 <= j < |n.kids| ensures Rep(after, n.kids[j]) {
      if j != i && j != i + 1 { OthersKept(before, after, t, i, j); }
    }
    assert RepAll(after, n.kids) by { RepAllFrom(after, n.kids); }
    assert IdList(n.kids) == IdList(t.kids);
    RepNode(after, n);
    PairInside(t, i);
  }

  lemma {:induction false} RepAllFrom(cells: Cells, kids: seq<Tree>)
    requires forall j :: 0 <= j < |kids| ==> Rep(cells, kids[j])
    ensures RepAll(cells, kids)
  {
  }

  lemma {:induction false} PairInside(t: Tree, i: nat)
    requires t.Node? && i + 1 < |t.kids|
    ensures t.id in Ids(t) && t.kids[i].id in Ids(t) && t.kids[i + 1].id in Ids(t)
  {
    hide Ids, IdsOf;
    IdsSelf(t);
    IdsSelf(t.kids[i]);
    IdsSelf(t.kids[i + 1]);
    KidIds(t, i);
    KidIds(t, i + 1);
  }

  /** Two children are merged, and the emptied one is still in the parent's page. */
  ghost predicate MergeStage(cells: Cells, t: Tree, i: nat) {
    && t.Node? && i + 1 < |t.kids| == |t.keys| + 1 && SameKind(t.kids[i], t.kids[i + 1])
    && t.id in cells && cells[t.id] == NodeCell(t.keys, IdList(t.kids))
    && Rep(cells, Merge(t.kids[i], t.keys[i], t.kids[i + 1]))
    && t.kids[i + 1].id in cells && PageOccupants(cells[t.kids[i + 1].id]) == 0
    && forall j :: 0 <= j < |t.kids| && j != i && j != i + 1 ==> Rep(cells, t.kids[j])
  }

  lemma {:induction false} MergePages(before: Cells, after: Cells, t: Tree, i: nat, empty: Cell)
    requires t.Node? && Rep(before, t) && Simple(Ids(t)) && i + 1 < |t.kids| == |t.keys| + 1 && SameKind(t.kids[i], t.kids[i + 1])
    requires PageOccupants(empty) == 0
    requires after == before[t.kids[i].id := Page(Merge(t.kids[i], t.keys[i], t.kids[i + 1]))][t.kids[i + 1].id := empty]
    ensures MergeStage(after, t, i) && Only(before, after, Ids(t))
  {
    hide Ids, IdsOf, Rep, RepAll, Page;
    var l, r := t.kids[i], t.kids[i + 1];
    var merged := Merge(l, t.keys[i], r);
    PairApart(t, i);
    RepPage(before, t);
    assert Page(t) == NodeCell(t.keys, IdList(t.kids)) by { NodePage(t); }
    if l.Node? { InnerKept(before, after, t, i); }
    RepFromPage(after, merged);
    forall j | 0 <= j < |t.kids| && j != i && j != i + 1 ensures Rep(after, t.kids[j]) { OthersKept(before, after, t, i, j); }
    PairInside(t, i);
  }

  lemma {:induction false} NodePage(t: Tree)
    requires t.Node?
    ensures Page(t) == NodeCell(t.keys, IdList(t.kids))
  {
  }

  /** Taking the emptied child out completes the merge. */
  lemma {:induction false} RemovePages(before: Cells, after: Cells, t: Tree, i: nat)
    requires MergeStage(before, t, i) && Simple(Ids(t))
    requires after == before[t.id := NodeCell(MergeAt(t, i).keys, IdList(t.kids)[..i + 1] + IdList(t.kids)[i + 2..])]
    ensures Rep(after, MergeAt(t, i)) && Only(before, after, Ids(t))
  {
    hide Ids, IdsOf, Rep, Leaves, LeavesOf, Merge;
    var n := MergeAt(t, i);
    var merged := Merge(t.kids[i], t.keys[i], t.kids[i + 1]);
    assert n.kids == t.kids[..i] + [merged] + t.kids[i + 2..];
    forall j | 0 <= j < |n.kids| ensures Rep(before, n.kids[j]) {
      if j > i { assert n.kids[j] == t.kids[j + 1]; }
    }
    MergeAtIds(t, i);
    SimplePart(Ids(t), Ids(n));
    IdsOfNode(n);
    assert n.id !in IdsOf(n.kids) by { assert Ids(n)[n.id] <= 1; }
    RepAllKept(before, after, n.kids);
    assert IdList(n.kids) == IdList(t.kids)[..i + 1] + IdList(t.kids)[i + 2..] by { MergeId(t.kids[i], t.keys[i], t.kids[i + 1]); }
    RepNode(after, n);
    IdsSelf(t);
  }

  lemma {:induction false} MergeId(l: Tree, key: int, r: Tree)
    ensures Merge(l, key, r).id == l.id
  {
  }

  /** The pages after child `s` was erased from and its separator was set. */
  lemma {:induction false} WithChildPages(before: Cells, mid: Cells, after: Cells, t: Tree, s: nat, child: Tree, last: MaybeKey)
    requires t.Node? && Rep(before, t) && Simple(Ids(t)) && s < |t.kids| == |t.keys| + 1
    requires Rep(mid, child) && child.id == t.kids[s].id && Ids(child) <= Ids(t.kids[s]) && Only(before, mid, Ids(t.kids[s]))
    requires after == if last.NewLast? && s < |t.keys| then mid[t.id := NodeCell(t.keys[s := last.key], IdList(t.kids))] else mid
    ensures Rep(after, WithChild(t, s, child, last)) && Only(before, after, Ids(t))
  {
    hide Ids, IdsOf, Rep;
    var n := WithChild(t, s, child, last);
    KidIds(t, s);
    IdsSelf(t);
    PageOf(before, t);
    assert t.id !in Ids(child) by { assert t.id !in Ids(t.kids[s]); }
    RepKept(mid, after, child);
    forall j | 0 <= j < |n.kids| ensures Rep(after, n.kids[j]) {
      if j != s {
        RepKid(before, t, j);
        forall a | a in Ids(t.kids[j]) && a in before ensures a in after && after[a] == before[a] { KidsApart(t, j, s, a); }
        RepKept(before, after, t.kids[j]);
      }
    }
    assert IdList(n.kids) == IdList(t.kids);
    RepNode(after, n);
  }

  /** The chain when a leaf is merged into the one before it. */
  lemma {:induction false} MergedChain(next: Links, prev: Links, head: nat, last: nat, supply: nat, p: seq<nat>, l: nat, r: nat, q: seq<nat>)
    requires Linked(next, prev, head, last, supply, p + [l, r] + q)
    ensures l in next && r in next && l != r
    ensures var after := next[r];
      Linked(next[l := after], if after != 0 then prev[after := l] else prev, head, if after != 0 then last else l, supply, p + [l] + q)
  {
    hide Chain;
    var c, i := p + [l, r] + q, |p|;
    assert c[i] == l && c[i + 1] == r && c[..i + 1] == p + [l] && c[i + 2..] == q;
    assert c[..i + 1] + c[i + 2..] == p + [l] + q;
    ChainFacts(next, prev, head, last, c, i);
    ChainFacts(next, prev, head, last, c, i + 1);
    ChainRemove(next, prev, head, last, c, i);
    assert l != r by { ChainDiffers(next, prev, head, last, c, i, i + 1); }
    forall j | 0 <= j < |p + [l] + q| ensures (p + [l] + q)[j] < supply {
      assert (p + [l] + q)[j] == if j <= i then c[j] else c[j + 1];
    }
  }

  lemma {:induction false} ChainDiffers(next: Links, prev: Links, head: nat, last: nat, c: seq<nat>, i: nat, j: nat)
    requires Chain(next, prev, head, last, c) && i < j < |c|
    ensures c[i] != c[j]
  {
  }

  // ---------- the same on pages ----------

  lemma {:induction false} MergePage(x: Tree, key: int, y: Tree)
    requires x.Node? && y.Node?
    ensures Page(Merge(x, key, y)) == NodeCell(x.keys + [key] + y.keys, IdList(x.kids) + IdList(y.kids))
  {
  }

  lemma {:induction false} ShiftLeftPage(x: Tree, key: int, y: Tree)
    requires SameKind(x, y) && x.Node? && Occupants(x) + 2 <= Occupants(y)
    ensures var a, b, s := Page(x), Page(y), ShiftLeft(x, key, y); var num := (|b.keys| - |a.keys|) / 2;
      && 1 <= num <= |b.keys|
      && Page(s.left) == NodeCell(a.keys + [key] + b.keys[..num - 1], a.kids + b.kids[..num])
      && Page(s.right) == NodeCell(b.keys[num..], b.kids[num..]) && s.key == b.keys[num - 1]
  {
  }

  lemma {:induction false} ShiftRightPage(x: Tree, key: int, y: Tree)
    requires SameKind(x, y) && x.Node? && Occupants(y) + 2 <= Occupants(x)
    ensures var a, b, s := Page(x), Page(y), ShiftRight(x, key, y); var rest := |a.keys| - (|a.keys| - |b.keys|) / 2;
      && 0 <= rest < |a.keys|
      && Page(s.left) == NodeCell(a.keys[..rest], a.kids[..rest + 1]) && s.key == a.keys[rest]
      && Page(s.right) == NodeCell(a.keys[rest + 1..] + [key] + b.keys, a.kids[rest + 1..] + b.kids)
  {
  }

  // ---------- repairing an underflow on pages ----------

  /** A node held by the pages, with two neighbouring children that can be merged or balanced. */
  ghost predicate PairHeld(cells: Cells, n: Tree, i: nat) {
    n.Node? && i + 1 < |n.kids| == |n.keys| + 1 && SameKind(n.kids[i], n.kids[i + 1]) && Rep(cells, n) && Simple(Ids(n))
  }

  lemma {:induction false} PairFacts(cells: Cells, n: Tree, i: nat)
    requires PairHeld(cells, n, i)
    ensures n.Node? && i + 1 < |n.kids| == |n.keys| + 1 && SameKind(n.kids[i], n.kids[i + 1]) && Rep(cells, n) && Simple(Ids(n))
    ensures var l, r := n.kids[i], n.kids[i + 1];
      && l.id in cells && r.id in cells && n.id in cells && cells[l.id] == Page(l) && cells[r.id] == Page(r)
      && cells[n.id] == NodeCell(n.keys, IdList(n.kids)) && n.id != l.id && n.id != r.id && l.id != r.id
      && (cells[l.id].LeafCell? <==> l.Leaf?) && (l.Node? ==> r.kids != [])
  {
    hide Ids, IdsOf, Rep;
    PageOf(cells, n);
    RepKid(cells, n, i);
    RepKid(cells, n, i + 1);
    RepPage(cells, n.kids[i]);
    RepPage(cells, n.kids[i + 1]);
    PairApart(n, i);
  }

  lemma {:induction false} PairsHeld(cells: Cells, n: Tree, s: nat, m: nat, level: nat)
    requires n.Node? && m >= 4 && LooseRow(n.keys, n.kids, m, level, s) && Rep(cells, n) && Simple(Ids(n))
    ensures s > 0 ==> PairHeld(cells, n, s - 1)
    ensures s < |n.keys| ==> PairHeld(cells, n, s)
    ensures forall i :: 0 <= i < |n.kids| && i != s ==> Occupants(n.kids[i]) >= m / 2
    ensures Occupants(n.kids[s]) >= m / 2 - 1
  {
    hide Ids, Rep, Simple, SameKind;
    NeighbourKinds(n, s, m, level);
    KidSizes(n, s, m, level);
    OccupantBounds(n.kids[s], m, level);
  }

  /** The address and the page of a neighbour, or none. */
  ghost predicate IsNeighbour(cells: Cells, a: nat, c: MaybeTree) {
    && a == (if c.Nil? then 0 else c.tree.id)
    && (c.Some? ==> a != 0 && a in cells && PageOccupants(cells[a]) == Occupants(c.tree))
  }

  ghost predicate Merges(repair: Repair) { repair == MergeWithLeft || repair == MergeWithRight }

  /** The first of the two children that are merged. */
  ghost function MergedSlot(repair: Repair, s: nat): nat { if repair == MergeWithLeft && s > 0 then s - 1 else s }

  /** The pages after a repair: complete, or with the emptied child still in the node. */
  ghost predicate Fixed(cells: Cells, n: Tree, s: nat, cl: MaybeTree, cr: MaybeTree, m: nat, fixmerge: bool) {
    && n.Node? && s < |n.kids| == |n.keys| + 1
    && var repair := Choose(cl, cr, s > 0, s < |n.keys|, m);
       && fixmerge == Merges(repair)
       && (fixmerge ==> MergeStage(cells, n, MergedSlot(repair, s)) && MergeAt(n, MergedSlot(repair, s)) == Rebalance(n, s, cl, cr, m))
       && (!fixmerge ==> Rep(cells, Rebalance(n, s, cl, cr, m)))
  }

  lemma {:induction false} RebalanceIs(n: Tree, s: nat, cl: MaybeTree, cr: MaybeTree, m: nat)
    requires Neighbours(n, s, cl, cr)
    ensures var r := Rebalance(n, s, cl, cr, m);
      match Choose(cl, cr, s > 0, s < |n.keys|, m)
      case MergeWithLeft => s > 0 && r == MergeAt(n, s - 1)
      case MergeWithRight => s < |n.keys| && r == MergeAt(n, s)
      case TakeFromLeft => s > 0 && r == Replace(n, s - 1, ShiftRight(n.kids[s - 1], n.keys[s - 1], n.kids[s]))
      case TakeFromRight => s < |n.keys| && r == Replace(n, s, ShiftLeft(n.kids[s], n.keys[s], n.kids[s + 1]))
  {
    hide MergeAt, Replace, ShiftLeft, ShiftRight, Choose;
    ChoiceIsLocal(n, s, cl, cr, m);
  }

  lemma {:induction false} ExchangedId(p: Pair, l: Tree, r: Tree)
    requires Exchanged(p, l, r)
    ensures p.left.id == l.id && p.right.id == r.id
  {
  }

  // ---------- descending with neighbours ----------

  /** A neighbour or cousin held by the pages, apart from the given addresses. */
  ghost predicate Away(cells: Cells, c: MaybeTree, ids: multiset<nat>) {
    c.Some? ==> Rep(cells, c.tree) && forall a :: a in Ids(c.tree) ==> a != 0 && a !in ids
  }

  lemma {:induction false} SiblingAway(cells: Cells, t: Tree, s: nat, j: nat, supply: nat)
    requires t.Node? && Rep(cells, t) && Simple(Ids(t)) && BtreeHeap.Below(Ids(t), supply) && s < |t.kids| && j < |t.kids| && j != s
    ensures Away(cells, Some(t.kids[j]), Ids(t.kids[s]) + multiset{t.id})
  {
    hide Rep, Ids, IdsOf;
    RepKid(cells, t, j);
    forall a | a in Ids(t.kids[j]) ensures a != 0 && a !in Ids(t.kids[s]) + multiset{t.id} { KidsApart(t, j, s, a); }
  }

  lemma {:induction false} CousinKidAway(cells: Cells, c: Tree, i: nat, t: Tree, s: nat)
    requires c.Node? && i < |c.kids| && t.Node? && s < |t.kids| && Away(cells, Some(c), Ids(t))
    ensures Away(cells, Some(c.kids[i]), Ids(t.kids[s]) + multiset{t.id})
  {
    hide Rep, Ids, IdsOf;
    RepKid(cells, c, i);
    KidIds(c, i);
    KidIds(t, s);
    IdsSelf(t);
  }

  /** The neighbours of the child the search enters are apart from it and from its parent. */
  lemma {:induction false} NeighboursAway(cells: Cells, t: Tree, s: nat, left: MaybeTree, right: MaybeTree, supply: nat)
    requires t.Node? && Rep(cells, t) && Simple(Ids(t)) && BtreeHeap.Below(Ids(t), supply) && s < |t.kids| == |t.keys| + 1
    requires Away(cells, left, Ids(t)) && Away(cells, right, Ids(t))
    ensures Away(cells, LeftOf(t, s, left), Ids(t.kids[s]) + multiset{t.id})
    ensures Away(cells, RightOf(t, s, right), Ids(t.kids[s]) + multiset{t.id})
  {
    hide Rep, Ids, Away, Simple, BtreeHeap.Below;
    NilAway(cells, Ids(t.kids[s]) + multiset{t.id});
    if s > 0 {
      SiblingAway(cells, t, s, s - 1, supply);
    } else if left.Some? && left.tree.Node? && 1 <= |left.tree.keys| <= |left.tree.kids| {
      CousinKidAway(cells, left.tree, |left.tree.keys| - 1, t, s);
    }
    if s < |t.keys| {
      SiblingAway(cells, t, s, s + 1, supply);
    } else if right.Some? && right.tree.Node? && right.tree.kids != [] {
      CousinKidAway(cells, right.tree, 0, t, s);
    }
  }

  lemma {:induction false} NilAway(cells: Cells, ids: multiset<nat>)
    ensures Away(cells, Nil, ids)
  {
  }

  lemma {:induction false} AwayLess(cells: Cells, c: MaybeTree, ids: multiset<nat>, fewer: multiset<nat>)
    requires Away(cells, c, ids) && fewer <= ids
    ensures Away(cells, c, fewer)
  {
  }

  /** Such a neighbour can still be read after the others changed. */
  lemma {:induction false} AwayStill(before: Cells, after: Cells, c: MaybeTree, ids: multiset<nat>)
    requires Away(before, c, ids) && Only(before, after, ids)
    ensures IsNeighbour(after, if c.Nil? then 0 else c.tree.id, c)
  {
    hide Rep, Ids;
    if c.Some? {
      RepSpared(before, after, c.tree, ids);
      RepPage(after, c.tree);
      IdsSelf(c.tree);
    }
  }

  /** The leaves when child `s` was erased from. */
  lemma {:induction false} WithChildLeaves(t: Tree, s: nat, child: Tree, last: MaybeKey, p: seq<nat>, q: seq<nat>)
    requires t.Node? && s < |t.kids| == |t.keys| + 1
    ensures p + Leaves(WithChild(t, s, child, last)) + q == p + LeavesOf(t.kids[..s]) + Leaves(child) + (LeavesOf(t.kids[s + 1..]) + q)
    ensures p + Leaves(t) + q == p + LeavesOf(t.kids[..s]) + Leaves(t.kids[s]) + (LeavesOf(t.kids[s + 1..]) + q)
  {
    hide Leaves, LeavesOf;
    var n := WithChild(t, s, child, last);
    LeavesOfNode(t);
    LeavesOfNode(n);
    LeavesAt(t.kids, s);
    LeavesAt(n.kids, s);
    assert n.kids[..s] == t.kids[..s] && n.kids[s + 1..] == t.kids[s + 1..];
  }

  /** The pages after child `s` was erased from and repaired. */
  ghost predicate ChildDone(cells: Cells, n: Tree, s: nat, cl: MaybeTree, cr: MaybeTree, m: nat, fixmerge: bool) {
    && n.Node? && s < |n.kids| == |n.keys| + 1
    && if Occupants(n.kids[s]) < m / 2 then Fixed(cells, n, s, cl, cr, m, fixmerge) else !fixmerge && Rep(cells, n)
  }

  /** What the emptied child looks like to the parent. */
  lemma {:induction false} EmptiedSlot(cells: Cells, n: Tree, s: nat, cl: MaybeTree, cr: MaybeTree, m: nat, level: nat)
    requires n.Node? && m >= 4 && LooseRow(n.keys, n.kids, m, level, s) && Neighbours(n, s, cl, cr) && ChildDone(cells, n, s, cl, cr, m, true)
    ensures var i := MergedSlot(Choose(cl, cr, s > 0, s < |n.keys|, m), s);
      && MergeStage(cells, n, i) && MergeAt(n, i) == Repaired(n, s, cl, cr, m)
      && (s == i + 1 || s == i) && Occupants(Merge(n.kids[i], n.keys[i], n.kids[i + 1])) >= 1
  {
    hide MergeAt, Rebalance, Rep;
    ChoiceIsLocal(n, s, cl, cr, m);
    KidSizes(n, s, m, level);
  }

  /** What an erasure below `t` reports, and what it leaves in the pages. */
  ghost predicate IsErased(r: Erasure, before: Cells, after: Cells, t: Tree, found: bool, haslast: bool, lastkey: int) {
    && found == r.Erased?
    && (!found ==> after == before)
    && (found ==>
          && Rep(after, r.tree) && Only(before, after, Ids(t))
          && (haslast <==> r.last.NewLast?) && (haslast ==> lastkey == r.last.key))
  }

  ghost function AddressOf(c: MaybeTree): nat { if c.Nil? then 0 else c.tree.id }

  /** The page of a cousin, as far as the descent reads it. */
  lemma {:induction false} CousinPage(cells: Cells, c: MaybeTree, ids: multiset<nat>, m: nat, level: nat)
    requires Away(cells, c, ids) && Cousin(c, m, level) && level >= 1 && m >= 4
    ensures c.Some? ==>
      && c.tree.id != 0 && c.tree.id in cells && c.tree.Node? && 1 <= |c.tree.keys| < |c.tree.kids|
      && cells[c.tree.id] == NodeCell(c.tree.keys, IdList(c.tree.kids))
  {
    if c.Some? {
      IdsSelf(c.tree);
      PageOf(cells, c.tree);
    }
  }

  /** A node in which the search for an erasure goes to child `s`. */
  ghost predicate Entering(cells: Cells, supply: nat, t: Tree, m: nat, level: nat, least: nat, k: int, s: nat, left: MaybeTree, right: MaybeTree) {
    && m >= 4 && t.Node? && Valid(t, m, level, least) && least >= 1 && Entered(t, m, level, k, s, left, right)
    && Rep(cells, t) && Simple(Ids(t)) && BtreeHeap.Below(Ids(t), supply) && Away(cells, left, Ids(t)) && Away(cells, right, Ids(t))
  }

  /** What the child's own call may assume. */
  lemma {:induction false} EnterChild(cells: Cells, supply: nat, t: Tree, m: nat, level: nat, least: nat, k: int, s: nat, left: MaybeTree, right: MaybeTree)
    requires Entering(cells, supply, t, m, level, least, k, s, left, right)
    ensures m >= 4 && level >= 1 && s < |t.kids| == |t.keys| + 1
    ensures var kid, cl, cr := t.kids[s], LeftOf(t, s, left), RightOf(t, s, right);
      && Valid(kid, m, level - 1, m / 2) && Cousin(cl, m, level - 1) && Cousin(cr, m, level - 1) && Neighbours(t, s, cl, cr)
      && Rep(cells, kid) && Simple(Ids(kid)) && BtreeHeap.Below(Ids(kid), supply)
      && Away(cells, cl, Ids(kid) + multiset{t.id}) && Away(cells, cr, Ids(kid) + multiset{t.id})
      && Away(cells, cl, Ids(kid)) && Away(cells, cr, Ids(kid))
      && (forall a :: a in Ids(kid) ==> a in Ids(t)) && t.id !in Ids(kid) && t.id in Ids(t)
  {
    hide Rep, Ids, IdsOf, Valid, Cousin, Simple, Away, LeftOf, RightOf, Located, Neighbours;
    var kid := t.kids[s];
    RepKid(cells, t, s);
    KidIds(t, s);
    IdsSelf(t);
    BelowPart(Ids(t), Ids(kid), supply);
    NeighboursAway(cells, t, s, left, right, supply);
    AwayLess(cells, LeftOf(t, s, left), Ids(kid) + multiset{t.id}, Ids(kid));
    AwayLess(cells, RightOf(t, s, right), Ids(kid) + multiset{t.id}, Ids(kid));
  }

  /** The node after its child was erased from and its separator set. */
  lemma {:induction false} ChildErased(cells0: Cells, mid: Cells, cells: Cells, supply: nat, t: Tree, m: nat, level: nat, least: nat, k: int, s: nat,
                                       left: MaybeTree, right: MaybeTree, r: Erasure)
    requires Entering(cells0, supply, t, m, level, least, k, s, left, right) && r.Erased?
    requires r == EraseIn(t.kids[s], m, k, LeftOf(t, s, left), RightOf(t, s, right))
    requires Rep(mid, r.tree) && Only(cells0, mid, Ids(t.kids[s]))
    requires cells == if r.last.NewLast? && s < |t.keys| then mid[t.id := NodeCell(t.keys[s := r.last.key], IdList(t.kids))] else mid
    ensures var n, cl, cr := WithChild(t, s, r.tree, r.last), LeftOf(t, s, left), RightOf(t, s, right);
      && n.id == t.id && n.kids[s].id == t.kids[s].id && n.kids[s] == r.tree && |n.kids| == |t.kids| && |n.keys| == |t.keys|
      && LooseRow(n.keys, n.kids, m, level - 1, s) && Neighbours(n, s, cl, cr)
      && Rep(cells, n) && Simple(Ids(n)) && Only(cells0, cells, Ids(t)) && Ids(n) <= Ids(t)
      && IsNeighbour(cells, AddressOf(cl), cl) && IsNeighbour(cells, AddressOf(cr), cr)
  {
    hide Rep, Ids, IdsOf, Valid, Cousin, Simple, Away, LeftOf, RightOf, Located, EraseIn, IsErasure, LooseRow, BtreeHeap.Below;
    EnterChild(cells0, supply, t, m, level, least, k, s, left, right);
    var cl, cr := LeftOf(t, s, left), RightOf(t, s, right);
    EraseCorrect(t.kids[s], m, level - 1, m / 2, k, cl, cr);
    EraseIds(t.kids[s], m, level - 1, m / 2, k, cl, cr);
    EraseAtCorrect(t, m, level, least, k, s, r, cl, cr);
    WithChildIds(t, s, r.tree, r.last);
    SimplePart(Ids(t), Ids(WithChild(t, s, r.tree, r.last)));
    WithChildPages(cells0, mid, cells, t, s, r.tree, r.last);
    AwayStill(cells0, cells, cl, Ids(t.kids[s]) + multiset{t.id});
    AwayStill(cells0, cells, cr, Ids(t.kids[s]) + multiset{t.id});
  }

  lemma {:induction false} OnlyMore(a: Cells, b: Cells, c: Cells, ids: multiset<nat>, fewer: multiset<nat>)
    requires Only(a, b, ids) && Only(b, c, fewer) && fewer <= ids
    ensures Only(a, c, ids)
  {
  }

  /** The parent's page is still there after an erasure below a child. */
  lemma {:induction false} ParentPage(cells0: Cells, cells: Cells, supply: nat, t: Tree, m: nat, level: nat, least: nat, k: int, s: nat, left: MaybeTree, right: MaybeTree)
    requires Entering(cells0, supply, t, m, level, least, k, s, left, right) && s < |t.kids| && Only(cells0, cells, Ids(t.kids[s]))
    ensures t.id in cells && cells[t.id] == NodeCell(t.keys, IdList(t.kids))
  {
    hide Rep, Ids, IdsOf, Valid, Cousin, Simple, Away, LeftOf, RightOf, Located;
    EnterChild(cells0, supply, t, m, level, least, k, s, left, right);
    PageOf(cells0, t);
  }

  lemma {:induction false} ChildPage(cells: Cells, t: Tree, i: nat)
    requires Rep(cells, t) && t.Node? && i < |t.kids|
    ensures t.kids[i].id in cells && PageOccupants(cells[t.kids[i].id]) == Occupants(t.kids[i])
  {
    hide Rep;
    RepKid(cells, t, i);
    RepPage(cells, t.kids[i]);
  }

  lemma {:induction false} Enter(cells: Cells, supply: nat, t: Tree, m: nat, level: nat, least: nat, k: int, left: MaybeTree, right: MaybeTree)
    requires m >= 4 && Valid(t, m, level, least) && least >= 1 && t.Node? && Cousin(left, m, level) && Cousin(right, m, level)
    requires Rep(cells, t) && Simple(Ids(t)) && BtreeHeap.Below(Ids(t), supply) && Away(cells, left, Ids(t)) && Away(cells, right, Ids(t))
    ensures Entering(cells, supply, t, m, level, least, k, LowerBound(t.keys, k), left, right)
    ensures Ascending(t.keys) && level >= 1 && LowerBound(t.keys, k) < |t.kids| == |t.keys| + 1 && |t.keys| >= 1
  {
    hide Rep, Ids, Items, ItemsOf, Simple, Away, Cousin, LowerBound, Ascending;
    KeysAscend(t, m, level, least);
    EraseEnters(t, m, level, least, k, left, right);
  }

  /** After the child's call: the node is repaired, or only the emptied child has to go. */
  lemma {:induction false} ChildDoneMeans(cells: Cells, cells0: Cells, supply: nat, t: Tree, m: nat, level: nat, least: nat, k: int, s: nat,
                                          left: MaybeTree, right: MaybeTree, r: Erasure, fixmerge: bool)
    requires Entering(cells0, supply, t, m, level, least, k, s, left, right) && r.Erased?
    requires r == EraseIn(t.kids[s], m, k, LeftOf(t, s, left), RightOf(t, s, right))
    requires s < |t.kids| == |t.keys| + 1
    requires ChildDone(cells, WithChild(t, s, r.tree, r.last), s, LeftOf(t, s, left), RightOf(t, s, right), m, fixmerge)
    ensures var n, cl, cr := WithChild(t, s, r.tree, r.last), LeftOf(t, s, left), RightOf(t, s, right);
      && n.id == t.id && Simple(Ids(n)) && Ids(n) <= Ids(t) && s < |n.kids| == |n.keys| + 1
      && (!fixmerge ==> Rep(cells, Repaired(n, s, cl, cr, m)))
      && (fixmerge ==>
            var i := MergedSlot(Choose(cl, cr, s > 0, s < |n.keys|, m), s);
            && MergeStage(cells, n, i) && MergeAt(n, i) == Repaired(n, s, cl, cr, m)
            && (s == i + 1 || s == i) && Occupants(Merge(n.kids[i], n.keys[i], n.kids[i + 1])) >= 1)
  {
    hide Rep, Ids, IdsOf, Valid, Cousin, Simple, Away, LeftOf, RightOf, Located, EraseIn, IsErasure, LooseRow, BtreeHeap.Below, Rebalance, MergeAt, MergeStage, Choose, Merge;
    EnterChild(cells0, supply, t, m, level, least, k, s, left, right);
    var cl, cr := LeftOf(t, s, left), RightOf(t, s, right);
    EraseCorrect(t.kids[s], m, level - 1, m / 2, k, cl, cr);
    EraseIds(t.kids[s], m, level - 1, m / 2, k, cl, cr);
    EraseAtCorrect(t, m, level, least, k, s, r, cl, cr);
    var n := WithChild(t, s, r.tree, r.last);
    WithChildIds(t, s, r.tree, r.last);
    SimplePart(Ids(t), Ids(n));
    if fixmerge { EmptiedSlot(cells, n, s, cl, cr, m, level - 1); }
  }

  // ---------- at the root ----------

  lemma {:induction false} NothingToErase(k: int)
    ensures !Has([], k) && Remove([], k) == []
  {
  }

  /** What the call at the root may assume. */
  lemma {:induction false} RootErases(cells: Cells, next: Links, prev: Links, head: nat, last: nat, supply: nat, t: Tree, m: nat, level: nat)
    requires m >= 4 && Valid(t, m, level, 1) && Held(cells, next, prev, head, last, supply, t, [], [])
    ensures Cousin(Nil, m, level) && Away(cells, Nil, Ids(t)) && 0 !in Ids(t)
    ensures Rep(cells, t) && Simple(Ids(t)) && BtreeHeap.Below(Ids(t), supply) && Linked(next, prev, head, last, supply, [] + Leaves(t) + [])
    ensures Sorted(Items(t))
  {
  }

  /** The root after an erasure: still a valid tree, or an empty leaf, or a single child that
      takes its place. */
  lemma {:induction false} RootErased(cells0: Cells, cells: Cells, next: Links, prev: Links, head: nat, last: nat, supply: nat, t: Tree, m: nat, level: nat,
                                      k: int, r: Erasure, found: bool, haslast: bool, lastkey: int)
    requires m >= 4 && Valid(t, m, level, 1) && Simple(Ids(t)) && BtreeHeap.Below(Ids(t), supply) && 0 !in Ids(t) && Rep(cells0, t)
    requires IsErasure(r, Items(t), m, level, 1, k) && (r.Erased? ==> Ids(r.tree) <= Ids(t) && r.tree.id == t.id)
    requires IsErased(r, cells0, cells, t, found, haslast, lastkey)
    requires Linked(next, prev, head, last, supply, [] + (if found then Leaves(r.tree) else Leaves(t)) + [])
    ensures found == Has(Items(t), k) == r.Erased?
    ensures !found ==> Remove(Items(t), k) == Items(t) && cells == cells0 && Held(cells, next, prev, head, last, supply, t, [], [])
    ensures found ==>
      && |Remove(Items(t), k)| == |Items(t)| - 1 && t.id in cells && PageOccupants(cells[t.id]) == Occupants(r.tree)
      && (cells[t.id].LeafCell? <==> r.tree.Leaf?)
      && (Occupants(r.tree) >= 1 ==>
            Valid(r.tree, m, level, 1) && Items(r.tree) == Remove(Items(t), k) && Held(cells, next, prev, head, last, supply, r.tree, [], []))
      && (Occupants(r.tree) == 0 && r.tree.Leaf? ==> Remove(Items(t), k) == [])
      && (Occupants(r.tree) == 0 && r.tree.Node? ==>
            && |r.tree.kids| == 1 && level >= 1 && |cells[t.id].kids| == 1 && cells[t.id].kids[0] == r.tree.kids[0].id
            && Valid(r.tree.kids[0], m, level - 1, 1) && Items(r.tree.kids[0]) == Remove(Items(t), k)
            && Held(cells, next, prev, head, last, supply, r.tree.kids[0], [], []))
  {
    hide Linked, Leaves, LeavesOf, Ids, IdsOf, Rep, Items, ItemsOf, Has, Remove, Valid, Simple, BtreeHeap.Below, Only, Fenced, Shaped, LastKey;
    if found {
      RemoveCount(Items(t), k);
      SortedOf(t, m, level);
      RemoveSorted(Items(t), k);
      RepPage(cells, r.tree);
      SimplePart(Ids(t), Ids(r.tree));
      BelowPart(Ids(t), Ids(r.tree), supply);
      RootLeft(r.tree, m, level);
      if r.tree.Node? && Occupants(r.tree) == 0 {
        RootKid(cells, r.tree);
        BelowPart(Ids(r.tree), Ids(r.tree.kids[0]), supply);
      }
    } else {
      RemoveNothing(Items(t), k);
    }
  }

  lemma {:induction false} RemoveNothing(s: seq<Item>, k: int)
    requires !Has(s, k)
    ensures Remove(s, k) == s
  {
  }

  lemma {:induction false} RemoveCount(s: seq<Item>, k: int)
    requires Has(s, k)
    ensures |Remove(s, k)| == |s| - 1
  {
  }

  lemma {:induction false} SortedOf(t: Tree, m: nat, level: nat)
    requires Valid(t, m, level, 1)
    ensures Sorted(Items(t))
  {
  }

  lemma {:induction false} RootLeft(t: Tree, m: nat, level: nat)
    requires m >= 4 && Shaped(t, m, level, 0) && Fenced(t) && Sorted(Items(t))
    ensures Occupants(t) >= 1 ==> Valid(t, m, level, 1)
    ensures Occupants(t) == 0 && t.Leaf? ==> Items(t) == []
    ensures Occupants(t) == 0 && t.Node? ==> level >= 1 && |t.kids| == 1 && Valid(t.kids[0], m, level - 1, 1) && Items(t.kids[0]) == Items(t)
  {
    if Occupants(t) >= 1 {
      ShapedLess(t, m, level, 0, 1);
    } else if t.Node? {
      assert t.kids == [t.kids[0]];
      ItemsOne(t.kids[0]);
      ShapedLess(t.kids[0], m, level - 1, m / 2, 1);
    }
  }

  lemma {:induction false} RootKid(cells: Cells, t: Tree)
    requires t.Node? && |t.kids| == 1 && Rep(cells, t) && Simple(Ids(t))
    ensures Rep(cells, t.kids[0]) && Simple(Ids(t.kids[0])) && Leaves(t.kids[0]) == Leaves(t)
    ensures forall a :: a in Ids(t.kids[0]) ==> a in Ids(t)
  {
    hide Rep, Ids, IdsOf;
    RepKid(cells, t, 0);
    KidIds(t, 0);
    assert t.kids == [t.kids[0]];
    LeavesOne(t.kids[0]);
  }
}
