/** B+ tree nodes at addresses, and the doubly linked chain of the leaves. */
module BtreeHeap {
  import opened BtreeItems
  import opened BtreeTree

  /** A node page; address 0 is the null reference. */
  datatype Cell = LeafCell(items: seq<Item>) | NodeCell(keys: seq<int>, kids: seq<nat>)

  type Cells = map<nat, Cell>

  function IdList(kids: seq<Tree>): (r: seq<nat>)
    ensures |r| == |kids| && forall i :: 0 <= i < |kids| ==> r[i] == kids[i].id
  {
    seq(|kids|, i requires 0 <= i < |kids| => kids[i].id)
  }

  /** The pages hold the tree. */
  ghost predicate Rep(cells: Cells, t: Tree)
    decreases t
  {
    && t.id in cells
    && match t
       case Leaf(id, items) => cells[id] == LeafCell(items)
       case Node(id, keys, kids) =>
         cells[id] == NodeCell(keys, IdList(kids)) && forall i :: 0 <= i < |kids| ==> Rep(cells, kids[i])
  }

  ghost predicate RepAll(cells: Cells, kids: seq<Tree>) { forall i :: 0 <= i < |kids| ==> Rep(cells, kids[i]) }

  // ---------- addresses ----------

  /** The addresses of a tree; as a multiset, so that moving subtrees conserves them. */
  ghost function Ids(t: Tree): multiset<nat>
    decreases t, 0
  {
    multiset{t.id} + if t.Leaf? then multiset{} else IdsOf(t.kids)
  }

  ghost function IdsOf(kids: seq<Tree>): multiset<nat>
    decreases kids, 1
  {
    if kids == [] then multiset{} else Ids(kids[0]) + IdsOf(kids[1..])
  }

  ghost predicate Simple(ids: multiset<nat>) { forall a :: ids[a] <= 1 }

  lemma {:induction false} IdsConcat(a: seq<Tree>, b: seq<Tree>)
    ensures IdsOf(a + b) == IdsOf(a) + IdsOf(b)
  {
    if a == [] {
      assert a + b == b;
    } else {
      assert (a + b)[1..] == a[1..] + b;
      IdsConcat(a[1..], b);
    }
  }

  lemma {:induction false} IdsOne(t: Tree)
    ensures IdsOf([t]) == Ids(t)
  {
    assert [t][1..] == [];
  }

  lemma {:induction false} IdsTwo(t: Tree, u: Tree)
    ensures IdsOf([t, u]) == Ids(t) + Ids(u)
  {
    assert [t, u] == [t] + [u];
    IdsConcat([t], [u]);
    IdsOne(t);
    IdsOne(u);
  }

  lemma {:induction false} IdsParts(a: seq<Tree>, b: seq<Tree>, c: seq<Tree>)
    ensures IdsOf(a + b + c) == IdsOf(a) + IdsOf(b) + IdsOf(c)
  {
    IdsConcat(a + b, c);
    IdsConcat(a, b);
  }

  lemma {:induction false} IdsAt(kids: seq<Tree>, i: nat)
    requires i < |kids|
    ensures IdsOf(kids) == IdsOf(kids[..i]) + Ids(kids[i]) + IdsOf(kids[i + 1..])
  {
    assert kids == kids[..i] + [kids[i]] + kids[i + 1..];
    IdsParts(kids[..i], [kids[i]], kids[i + 1..]);
    IdsOne(kids[i]);
  }

  lemma {:induction false} IdsOfNode(t: Tree)
    requires t.Node?
    ensures Ids(t) == multiset{t.id} + IdsOf(t.kids)
  {
  }

  lemma {:induction false} IdsSelf(t: Tree)
    ensures t.id in Ids(t)
  {
  }

  /** Different children, and the node itself, share no address. */
  lemma {:induction false} KidsApart(t: Tree, i: nat, j: nat, a: nat)
    requires t.Node? && Simple(Ids(t)) && i < |t.kids| && j < |t.kids| && i != j && a in Ids(t.kids[i])
    ensures a !in Ids(t.kids[j]) && a != t.id && a in Ids(t)
  {
    hide Ids, IdsOf;
    IdsOfNode(t);
    var lo, hi := if i < j then i else j, if i < j then j else i;
    IdsAt(t.kids, hi);
    IdsAt(t.kids[..hi], lo);
    assert t.kids[..hi][lo] == t.kids[lo];
    assert Ids(t)[a] <= 1;
  }

  lemma {:induction false} KidIds(t: Tree, i: nat)
    requires t.Node? && i < |t.kids|
    ensures forall a :: a in Ids(t.kids[i]) ==> a in Ids(t)
    ensures Simple(Ids(t)) ==> Simple(Ids(t.kids[i])) && t.id !in Ids(t.kids[i])
  {
    hide Ids, IdsOf;
    IdsOfNode(t);
    IdsAt(t.kids, i);
    if Simple(Ids(t)) {
      forall a ensures Ids(t.kids[i])[a] <= 1 { assert Ids(t)[a] <= 1; }
      assert Ids(t)[t.id] <= 1;
    }
  }

  // ---------- frames ----------

  ghost predicate Agree(before: Cells, after: Cells, ids: multiset<nat>) {
    forall a :: a in ids && a in before ==> a in after && after[a] == before[a]
  }

  /** A tree only depends on its own pages. */
  lemma {:induction false} RepKept(before: Cells, after: Cells, t: Tree)
    requires Rep(before, t) && Agree(before, after, Ids(t))
    ensures Rep(after, t)
    decreases t
  {
    hide Ids, IdsOf;
    IdsSelf(t);
    if t.Node? {
      forall i | 0 <= i < |t.kids| ensures Rep(after, t.kids[i]) {
        KidIds(t, i);
        RepKept(before, after, t.kids[i]);
      }
    }
  }

  /** Pages outside a set of addresses did not change. */
  ghost predicate Outside(before: Cells, after: Cells, ids: multiset<nat>, supply: nat) {
    forall a :: a in before && a < supply && a !in ids ==> a in after && after[a] == before[a]
  }

  ghost predicate Below(ids: multiset<nat>, supply: nat) { forall a :: a in ids ==> 0 < a < supply }

  /** Changing one child leaves the others as they were. */
  lemma {:induction false} SiblingsKept(before: Cells, after: Cells, t: Tree, at: nat, supply: nat)
    requires t.Node? && Rep(before, t) && Simple(Ids(t)) && Below(Ids(t), supply) && at < |t.kids|
    requires Outside(before, after, Ids(t.kids[at]), supply)
    ensures t.id in after && after[t.id] == NodeCell(t.keys, IdList(t.kids))
    ensures forall i :: 0 <= i < |t.kids| && i != at ==> Rep(after, t.kids[i])
  {
    hide Ids, IdsOf;
    KidIds(t, at);
    IdsSelf(t);
    forall i | 0 <= i < |t.kids| && i != at ensures Rep(after, t.kids[i]) {
      forall a | a in Ids(t.kids[i]) && a in before ensures a in after && after[a] == before[a] {
        KidsApart(t, i, at, a);
      }
      RepKept(before, after, t.kids[i]);
    }
  }

  // ---------- the leaves ----------

  ghost function Leaves(t: Tree): seq<nat>
    decreases t, 0
  {
    if t.Leaf? then [t.id] else LeavesOf(t.kids)
  }

  ghost function LeavesOf(kids: seq<Tree>): seq<nat>
    decreases kids, 1
  {
    if kids == [] then [] else Leaves(kids[0]) + LeavesOf(kids[1..])
  }

  lemma {:induction false} LeavesConcat(a: seq<Tree>, b: seq<Tree>)
    ensures LeavesOf(a + b) == LeavesOf(a) + LeavesOf(b)
  {
    if a == [] {
      assert a + b == b;
    } else {
      assert (a + b)[1..] == a[1..] + b;
      LeavesConcat(a[1..], b);
    }
  }

  lemma {:induction false} LeavesOne(t: Tree)
    ensures LeavesOf([t]) == Leaves(t)
  {
    assert [t][1..] == [];
  }

  lemma {:induction false} LeavesTwo(t: Tree, u: Tree)
    ensures LeavesOf([t, u]) == Leaves(t) + Leaves(u)
  {
    assert [t, u] == [t] + [u];
    LeavesConcat([t], [u]);
    LeavesOne(t);
    LeavesOne(u);
  }

  lemma {:induction false} LeavesParts(a: seq<Tree>, b: seq<Tree>, c: seq<Tree>)
    ensures LeavesOf(a + b + c) == LeavesOf(a) + LeavesOf(b) + LeavesOf(c)
  {
    LeavesConcat(a + b, c);
    LeavesConcat(a, b);
  }

  lemma {:induction false} LeavesAt(kids: seq<Tree>, i: nat)
    requires i < |kids|
    ensures LeavesOf(kids) == LeavesOf(kids[..i]) + Leaves(kids[i]) + LeavesOf(kids[i + 1..])
  {
    assert kids == kids[..i] + [kids[i]] + kids[i + 1..];
    LeavesParts(kids[..i], [kids[i]], kids[i + 1..]);
    LeavesOne(kids[i]);
  }

  // ---------- the chain ----------

  type Links = map<nat, nat>

  ghost function NextIn(c: seq<nat>, i: nat): nat { if i + 1 < |c| then c[i + 1] else 0 }

  ghost function PrevIn(c: seq<nat>, i: nat): nat { if 0 < i <= |c| then c[i - 1] else 0 }

  ghost predicate Unique(c: seq<nat>) {
    && (forall i :: 0 <= i < |c| ==> c[i] != 0)
    && (forall i, j :: 0 <= i < j < |c| ==> c[i] != c[j])
  }

  ghost predicate NextIs(next: Links, c: seq<nat>, i: nat) {
    i < |c| ==> c[i] in next && next[c[i]] == NextIn(c, i)
  }

  ghost predicate PrevIs(prev: Links, c: seq<nat>, i: nat) {
    i < |c| ==> c[i] in prev && prev[c[i]] == PrevIn(c, i)
  }

  ghost predicate NextLinks(next: Links, c: seq<nat>) { forall i :: 0 <= i < |c| ==> NextIs(next, c, i) }

  ghost predicate PrevLinks(prev: Links, c: seq<nat>) { forall i :: 0 <= i < |c| ==> PrevIs(prev, c, i) }

  /** `next`, `preceding`, `headsurface` and `last_surface` link the leaves `c` in order. */
  ghost predicate Chain(next: Links, prev: Links, head: nat, last: nat, c: seq<nat>) {
    && c != [] && head == c[0] && last == c[|c| - 1] && Unique(c) && NextLinks(next, c) && PrevLinks(prev, c)
  }

  lemma {:induction false} ChainFacts(next: Links, prev: Links, head: nat, last: nat, c: seq<nat>, i: nat)
    requires Chain(next, prev, head, last, c) && i < |c|
    ensures c[i] != 0 && c[i] in next && c[i] in prev && next[c[i]] == NextIn(c, i) && prev[c[i]] == PrevIn(c, i)
    ensures next[c[i]] == 0 <==> i == |c| - 1
  {
    assert NextIs(next, c, i) && PrevIs(prev, c, i);
  }

  lemma {:induction false} UniqueInsert(c: seq<nat>, i: nat, b: nat)
    requires Unique(c) && i <= |c| && b !in c && b != 0
    ensures Unique(c[..i] + [b] + c[i..])
  {
    var d := c[..i] + [b] + c[i..];
    forall j, k | 0 <= j < k < |d| ensures d[j] != d[k] {
      var x := if j < i then j else j - 1;
      var y := if k < i then k else k - 1;
      assert j != i ==> d[j] == c[x] && d[j] in c;
      assert k != i ==> d[k] == c[y] && d[k] in c;
    }
  }

  lemma {:induction false} UniqueRemove(c: seq<nat>, i: nat)
    requires Unique(c) && i < |c|
    ensures Unique(c[..i] + c[i + 1..])
  {
    var d := c[..i] + c[i + 1..];
    forall j, k | 0 <= j < k < |d| ensures d[j] != d[k] {
      var x := if j < i then j else j + 1;
      var y := if k < i then k else k + 1;
      assert d[j] == c[x] && d[k] == c[y];
    }
  }

  lemma {:induction false} NextInsert(next: Links, c: seq<nat>, i: nat, b: nat, j: nat)
    requires NextLinks(next, c) && Unique(c) && i < |c| && b !in c && j <= |c|
    ensures NextIs(next[b := NextIn(c, i)][c[i] := b], c[..i + 1] + [b] + c[i + 1..], j)
  {
    var d := c[..i + 1] + [b] + c[i + 1..];
    if j < i {
      assert NextIs(next, c, j) && d[j] == c[j] && d[j + 1] == c[j + 1] && c[j] in c;
    } else if j == i {
      assert d[j] == c[i] && d[j + 1] == b;
    } else if j == i + 1 {
      assert d[j] == b && c[i] in c;
    } else {
      assert NextIs(next, c, j - 1) && d[j] == c[j - 1] && c[j - 1] in c && (j < |c| ==> d[j + 1] == c[j]);
    }
  }

  lemma {:induction false} PrevInsert(prev: Links, c: seq<nat>, i: nat, b: nat, j: nat)
    requires PrevLinks(prev, c) && Unique(c) && i < |c| && b !in c && j <= |c|
    ensures var after := NextIn(c, i);
      PrevIs((if after == 0 then prev else prev[after := b])[b := c[i]], c[..i + 1] + [b] + c[i + 1..], j)
  {
    var d := c[..i + 1] + [b] + c[i + 1..];
    if j <= i {
      assert PrevIs(prev, c, j) && d[j] == c[j] && c[j] in c && (j > 0 ==> d[j - 1] == c[j - 1]);
    } else if j == i + 1 {
      assert d[j] == b && d[j - 1] == c[i];
    } else {
      assert PrevIs(prev, c, j - 1) && d[j] == c[j - 1] && c[j - 1] in c;
      assert j == i + 2 ==> d[j - 1] == b && c[j - 1] == NextIn(c, i);
      assert j > i + 2 ==> d[j - 1] == c[j - 2];
    }
  }

  /** A new leaf behind the `i`-th one. */
  lemma {:induction false} ChainInsert(next: Links, prev: Links, head: nat, last: nat, c: seq<nat>, i: nat, b: nat)
    requires Chain(next, prev, head, last, c) && i < |c| && b !in c && b != 0
    ensures var after := NextIn(c, i);
      Chain(next[b := after][c[i] := b], (if after == 0 then prev else prev[after := b])[b := c[i]], head,
            if after == 0 then b else last, c[..i + 1] + [b] + c[i + 1..])
  {
    var after := NextIn(c, i);
    var d := c[..i + 1] + [b] + c[i + 1..];
    assert after == 0 <==> i == |c| - 1;
    UniqueInsert(c, i + 1, b);
    hide Unique, NextIn, NextIs, PrevIs;
    var next', prev' := next[b := after][c[i] := b], (if after == 0 then prev else prev[after := b])[b := c[i]];
    forall j | 0 <= j < |d| ensures NextIs(next', d, j) { NextInsert(next, c, i, b, j); }
    forall j | 0 <= j < |d| ensures PrevIs(prev', d, j) { PrevInsert(prev, c, i, b, j); }
  }

  lemma {:induction false} NextRemove(next: Links, c: seq<nat>, i: nat, j: nat)
    requires NextLinks(next, c) && Unique(c) && i + 1 < |c| && j < |c| - 1
    ensures NextIs(next[c[i] := NextIn(c, i + 1)], c[..i + 1] + c[i + 2..], j)
  {
    var d := c[..i + 1] + c[i + 2..];
    if j < i {
      assert NextIs(next, c, j) && d[j] == c[j] && d[j + 1] == c[j + 1];
    } else if j == i {
      assert d[j] == c[i] && (j + 1 < |d| ==> d[j + 1] == c[j + 2]);
    } else {
      assert NextIs(next, c, j + 1) && d[j] == c[j + 1] && (j + 1 < |d| ==> d[j + 1] == c[j + 2]);
    }
  }

  lemma {:induction false} PrevRemove(prev: Links, c: seq<nat>, i: nat, j: nat)
    requires PrevLinks(prev, c) && Unique(c) && i + 1 < |c| && j < |c| - 1
    ensures var after := NextIn(c, i + 1); PrevIs(if after == 0 then prev else prev[after := c[i]], c[..i + 1] + c[i + 2..], j)
  {
    var d := c[..i + 1] + c[i + 2..];
    if j <= i {
      assert PrevIs(prev, c, j) && d[j] == c[j] && (j > 0 ==> d[j - 1] == c[j - 1]);
    } else {
      assert PrevIs(prev, c, j + 1) && d[j] == c[j + 1];
      assert j == i + 1 ==> d[j - 1] == c[i] && c[j + 1] == NextIn(c, i + 1);
      assert j > i + 1 ==> d[j - 1] == c[j];
    }
  }

  /** The leaf behind the `i`-th one leaves the chain. */
  lemma {:induction false} ChainRemove(next: Links, prev: Links, head: nat, last: nat, c: seq<nat>, i: nat)
    requires Chain(next, prev, head, last, c) && i + 1 < |c|
    ensures var after := NextIn(c, i + 1);
      Chain(next[c[i] := after], if after == 0 then prev else prev[after := c[i]], head, if after == 0 then c[i] else last, c[..i + 1] + c[i + 2..])
  {
    var after := NextIn(c, i + 1);
    var d := c[..i + 1] + c[i + 2..];
    assert after == 0 <==> i + 1 == |c| - 1;
    UniqueRemove(c, i + 1);
    hide Unique, NextIn, NextIs, PrevIs;
    var next', prev' := next[c[i] := after], if after == 0 then prev else prev[after := c[i]];
    forall j | 0 <= j < |d| ensures NextIs(next', d, j) { NextRemove(next, c, i, j); }
    forall j | 0 <= j < |d| ensures PrevIs(prev', d, j) { PrevRemove(prev, c, i, j); }
  }
}
