/** The leaf pages of a tree as slot pages: whatever the tree does to its leaves as lists, the
    pages with their permuted slots do as well. */
module BtreeLeaves {
  import opened BtreeItems
  import opened BtreeHeap
  import opened BtreeSurface

  /** What the tree does to its leaves. */
  datatype LeafStep =
    | Start(page: nat)
    | PutIn(page: nat, at: nat, key: int, value: int)
    | TakeOut(page: nat, at: nat)
    | Halve(page: nat, right: nat)
    | Join(page: nat, right: nat)
    | PullFrom(page: nat, right: nat)
    | PushTo(page: nat, right: nat)

  type Lists = map<nat, seq<Item>>

  /** When it may do so, with pages of `m` slots. */
  predicate Allowed(lists: Lists, m: nat, step: LeafStep) {
    match step
    case Start(n) => true
    case PutIn(n, at, _, _) => n in lists && at <= |lists[n]| < m
    case TakeOut(n, at) => n in lists && at < |lists[n]|
    case Halve(n, r) => n != r && n in lists
    case Join(n, r) => n != r && n in lists && r in lists && |lists[n]| + |lists[r]| <= m
    case PullFrom(n, r) => n != r && n in lists && r in lists && |lists[n]| <= |lists[r]|
    case PushTo(n, r) => n != r && n in lists && r in lists && |lists[r]| <= |lists[n]|
  }

  /** How many pairs move between two pages. */
  function Moved(more: nat, less: nat): nat
    requires less <= more
  {
    (more - less) / 2
  }

  /** What becomes of the lists. */
  function After(lists: Lists, m: nat, step: LeafStep): Lists
    requires Allowed(lists, m, step)
  {
    match step
    case Start(n) => lists[n := []]
    case PutIn(n, at, k, v) => lists[n := PutAt(lists[n], at, Item(k, v))]
    case TakeOut(n, at) => lists[n := DropAt(lists[n], at)]
    case Halve(n, r) => var mid := |lists[n]| / 2; lists[n := lists[n][..mid]][r := lists[n][mid..]]
    case Join(n, r) => lists[n := lists[n] + lists[r]][r := []]
    case PullFrom(n, r) =>
      var num := Moved(|lists[r]|, |lists[n]|);
      lists[n := lists[n] + lists[r][..num]][r := lists[r][num..]]
    case PushTo(n, r) =>
      var rest := |lists[n]| - Moved(|lists[n]|, |lists[r]|);
      lists[n := lists[n][..rest]][r := lists[n][rest..] + lists[r]]
  }

  // ---------- the same on the cells of the tree ----------

  /** The lists of the leaf cells. */
  ghost function ListsOf(cells: Cells): Lists { map n | n in cells && cells[n].LeafCell? :: cells[n].items }

  /** The pages that a step needs are leaves, with room for what it does. */
  predicate OnLeafCells(cells: Cells, m: nat, step: LeafStep) {
    match step
    case Start(n) => true
    case PutIn(n, at, _, _) => n in cells && cells[n].LeafCell? && at <= |cells[n].items| < m
    case TakeOut(n, at) => n in cells && cells[n].LeafCell? && at < |cells[n].items|
    case Halve(n, r) => n != r && n in cells && cells[n].LeafCell?
    case Join(n, r) => n != r && n in cells && r in cells && cells[n].LeafCell? && cells[r].LeafCell? && |cells[n].items| + |cells[r].items| <= m
    case PullFrom(n, r) => n != r && n in cells && r in cells && cells[n].LeafCell? && cells[r].LeafCell? && |cells[n].items| <= |cells[r].items|
    case PushTo(n, r) => n != r && n in cells && r in cells && cells[n].LeafCell? && cells[r].LeafCell? && |cells[r].items| <= |cells[n].items|
  }

  /** A step of the tree on its cells. */
  function OnCells(cells: Cells, m: nat, step: LeafStep): Cells
    requires OnLeafCells(cells, m, step)
  {
    match step
    case Start(n) => cells[n := LeafCell([])]
    case PutIn(n, at, k, v) => cells[n := LeafCell(PutAt(cells[n].items, at, Item(k, v)))]
    case TakeOut(n, at) => cells[n := LeafCell(DropAt(cells[n].items, at))]
    case Halve(n, r) =>
      var items := cells[n].items;
      var mid := |items| / 2;
      cells[r := LeafCell(items[mid..])][n := LeafCell(items[..mid])]
    case Join(n, r) => cells[n := LeafCell(cells[n].items + cells[r].items)][r := LeafCell([])]
    case PullFrom(n, r) =>
      var a, b := cells[n].items, cells[r].items;
      var num := Moved(|b|, |a|);
      cells[n := LeafCell(a + b[..num])][r := LeafCell(b[num..])]
    case PushTo(n, r) =>
      var a, b := cells[n].items, cells[r].items;
      var rest := |a| - Moved(|a|, |b|);
      cells[n := LeafCell(a[..rest])][r := LeafCell(a[rest..] + b)]
  }

  /** The tree's steps are those of the lists, and pages with slots have room for them. */
  lemma {:induction false} CellsAreLists(cells: Cells, m: nat, step: LeafStep)
    requires OnLeafCells(cells, m, step)
    ensures Allowed(ListsOf(cells), m, step) && ListsOf(OnCells(cells, m, step)) == After(ListsOf(cells), m, step)
  {
  }

  // ---------- pages with slots behind the lists ----------

  ghost function Parts(s: Surface): set<object> { {s, s.permutations, s.keys, s.values} }

  /** A page of `m` slots that holds a list. */
  ghost predicate Holds(s: Surface, items: seq<Item>, m: nat)
    reads Parts(s)
  {
    s.slots == m && s.Good() && s.Contents() == items
  }

  type Surfaces = map<nat, Surface>

  /** No two pages share an array. */
  ghost predicate Separate(pages: Surfaces) { forall a, b :: a in pages && b in pages && a != b ==> Apart(pages[a], pages[b]) }

  ghost predicate Owned(pages: Surfaces, repr: set<object>) { forall n :: n in pages ==> Parts(pages[n]) <= repr }

  ghost predicate AllHold(pages: Surfaces, lists: Lists, m: nat, repr: set<object>)
    requires Owned(pages, repr)
    reads repr
  {
    pages.Keys == lists.Keys && forall n :: n in pages ==> Holds(pages[n], lists[n], m)
  }

  lemma {:induction false} HoldsMeans(s: Surface, items: seq<Item>, m: nat)
    ensures Holds(s, items, m) <==> s.slots == m && s.Good() && s.Contents() == items
    ensures s.Good() ==> s.Ordered()
  {
  }

  lemma {:induction false} PagesApart(pages: Surfaces, a: nat, b: nat)
    requires Separate(pages) && a in pages && b in pages && a != b
    ensures Apart(pages[a], pages[b])
  {
  }

  lemma {:induction false} AllHoldFrom(pages: Surfaces, lists: Lists, m: nat, repr: set<object>)
    requires Owned(pages, repr) && pages.Keys == lists.Keys && forall x :: x in pages ==> Holds(pages[x], lists[x], m)
    ensures AllHold(pages, lists, m, repr)
  {
  }

  lemma {:induction false} AllHoldMeans(pages: Surfaces, lists: Lists, m: nat, repr: set<object>)
    requires Owned(pages, repr) && AllHold(pages, lists, m, repr)
    ensures pages.Keys == lists.Keys && forall x :: x in pages ==> Holds(pages[x], lists[x], m) && Parts(pages[x]) <= repr
  {
  }

  lemma {:induction false} OneMorePage(pages: Surfaces, lists: Lists, m: nat, repr: set<object>, n: nat, page: Surface, items: seq<Item>)
    requires Owned(pages, repr) && AllHold(pages, lists, m, repr) && Separate(pages) && Holds(page, items, m)
    requires page !in repr && page.permutations !in repr && page.keys !in repr && page.values !in repr
    ensures Owned(pages[n := page], repr + Parts(page)) && Separate(pages[n := page])
    ensures AllHold(pages[n := page], lists[n := items], m, repr + Parts(page))
  {
    hide Holds;
  }

  /** The four ways in which pairs move between neighbours. */
  datatype Exchange = Halving | Joining | Pulling | Pushing

  predicate CanExchange(e: Exchange, x: seq<Item>, y: seq<Item>, m: nat) {
    match e
    case Halving => y == []
    case Joining => |x| + |y| <= m
    case Pulling => |x| <= |y|
    case Pushing => |y| <= |x|
  }

  /** What the left page holds then, and what the right one does. */
  function LeftThen(e: Exchange, x: seq<Item>, y: seq<Item>): seq<Item> {
    match e
    case Halving => x[..|x| / 2]
    case Joining => x + y
    case Pulling => if |x| <= |y| then x + y[..Moved(|y|, |x|)] else x
    case Pushing => if |y| <= |x| then x[..|x| - Moved(|x|, |y|)] else x
  }

  function RightThen(e: Exchange, x: seq<Item>, y: seq<Item>): seq<Item> {
    match e
    case Halving => x[|x| / 2..]
    case Joining => []
    case Pulling => if |x| <= |y| then y[Moved(|y|, |x|)..] else y
    case Pushing => if |y| <= |x| then x[|x| - Moved(|x|, |y|)..] + y else y
  }

  method ExchangePages(e: Exchange, a: Surface, b: Surface, ghost x: seq<Item>, ghost y: seq<Item>, ghost m: nat)
    requires Holds(a, x, m) && Holds(b, y, m) && Apart(a, b) && CanExchange(e, x, y, m)
    modifies a, a.permutations, a.keys, a.values, b, b.permutations, b.keys, b.values
    ensures Holds(a, LeftThen(e, x, y), m) && Holds(b, RightThen(e, x, y), m)
  {
    hide Row, IsPermutation, Filled, Listed;
    match e
    case Halving => a.SplitInto(b);
    case Joining => a.MergeFrom(b);
    case Pulling => a.ShiftFrom(b);
    case Pushing => a.ShiftTo(b);
  }

  class LeafPages {
    const m: nat
    var pages: Surfaces
    ghost var lists: Lists
    ghost var Repr: set<object>

    /** Behind every list there is a page that holds it. */
    ghost predicate Valid()
      reads this, Repr
    {
      this !in Repr && Separate(pages) && Owned(pages, Repr) && AllHold(pages, lists, m, Repr)
    }

    constructor (m: nat)
      ensures Valid() && this.m == m && lists == map[] && Repr == {}
    {
      this.m := m;
      pages, lists, Repr := map[], map[], {};
    }

    /** One step of the tree, by the operations of its pages. */
    method Perform(step: LeafStep)
      requires Valid() && Allowed(lists, m, step)
      modifies this, Repr
      ensures Valid() && lists == After(old(lists), m, step) && fresh(Repr - old(Repr))
    {
      hide Valid;
      match step
      case Start(n) => Open(n);
      case PutIn(n, at, k, v) => Put(n, at, k, v);
      case TakeOut(n, at) => Drop(n, at);
      case Halve(n, r) =>
        Open(r);
        Move(Halving, n, r);
      case Join(n, r) => Move(Joining, n, r);
      case PullFrom(n, r) => Move(Pulling, n, r);
      case PushTo(n, r) => Move(Pushing, n, r);
    }

    /** Any run of steps: the pages hold the lists, whatever the run was. */
    method Run(steps: seq<LeafStep>)
      requires Valid() && AllAllowed(lists, m, steps)
      modifies this, Repr
      ensures Valid() && lists == AfterAll(old(lists), m, steps) && fresh(Repr - old(Repr))
    {
      hide Valid, Allowed, After;
      for i := 0 to |steps|
        invariant Valid() && AllAllowed(lists, m, steps[i..]) && AfterAll(lists, m, steps[i..]) == AfterAll(old(lists), m, steps)
        invariant fresh(Repr - old(Repr))
      {
        assert steps[i..][0] == steps[i] && steps[i..][1..] == steps[i + 1..];
        Perform(steps[i]);
      }
    }

    /** A new page, in place of what the address stood for. */
    method Open(n: nat)
      requires Valid()
      modifies this
      ensures Valid() && lists == old(lists)[n := []] && fresh(Repr - old(Repr))
    {
      hide Row, IsPermutation, Filled, Listed, Surface.Good, Surface.Contents, Surface.Ordered, Surface.Entries, After, Holds, AllHold, Separate, Owned;
      var page := new Surface(m);
      HoldsMeans(page, [], m);
      OneMore(n, page, []);
    }

    /** Takes a new page in. */
    method OneMore(n: nat, page: Surface, ghost items: seq<Item>)
      requires Valid() && Holds(page, items, m) && this !in Parts(page) && Parts(page) !! Repr
      modifies this
      ensures Valid() && lists == old(lists)[n := items] && Repr == old(Repr) + Parts(page) && pages == old(pages)[n := page]
    {
      hide Holds, Separate, Owned;
      OneMorePage(pages, lists, m, Repr, n, page, items);
      pages, lists, Repr := pages[n := page], lists[n := items], Repr + Parts(page);
    }

    method Put(n: nat, at: nat, k: int, v: int)
      requires Valid() && n in lists && at <= |lists[n]| < m
      modifies this, Repr
      ensures Valid() && lists == old(lists)[n := PutAt(old(lists)[n], at, Item(k, v))] && Repr == old(Repr) && pages == old(pages)
    {
      hide Row, IsPermutation, Filled, Listed, Surface.Good, Surface.Contents, Surface.Ordered, Surface.Entries, After, Holds, AllHold, Separate, Owned;
      AllHoldMeans(pages, lists, m, Repr);
      HoldsMeans(pages[n], lists[n], m);
      pages[n].Insert(at, k, v);
      ghost var after := lists[n := PutAt(lists[n], at, Item(k, v))];
      HoldsMeans(pages[n], after[n], m);
      forall x | x in pages ensures Holds(pages[x], after[x], m) {
        if x != n {
          PagesApart(pages, x, n);
          assert old(Holds(pages[x], lists[x], m));
        }
      }
      AllHoldFrom(pages, after, m, Repr);
      lists := after;
    }

    method Drop(n: nat, at: nat)
      requires Valid() && n in lists && at < |lists[n]|
      modifies this, Repr
      ensures Valid() && lists == old(lists)[n := DropAt(old(lists)[n], at)] && Repr == old(Repr) && pages == old(pages)
    {
      hide Row, IsPermutation, Filled, Listed, Surface.Good, Surface.Contents, Surface.Ordered, Surface.Entries, After, Holds, AllHold, Separate, Owned;
      AllHoldMeans(pages, lists, m, Repr);
      HoldsMeans(pages[n], lists[n], m);
      pages[n].EraseAt(at);
      ghost var after := lists[n := DropAt(lists[n], at)];
      HoldsMeans(pages[n], after[n], m);
      forall x | x in pages ensures Holds(pages[x], after[x], m) {
        if x != n {
          PagesApart(pages, x, n);
          assert old(Holds(pages[x], lists[x], m));
        }
      }
      AllHoldFrom(pages, after, m, Repr);
      lists := after;
    }

    /** Pairs move between two pages. */
    method Move(e: Exchange, n: nat, r: nat)
      requires Valid() && n != r && n in lists && r in lists && CanExchange(e, lists[n], lists[r], m)
      modifies this, Repr
      ensures Valid() && Repr == old(Repr)
      ensures var x, y := old(lists)[n], old(lists)[r]; lists == old(lists)[n := LeftThen(e, x, y)][r := RightThen(e, x, y)]
    {
      hide Row, IsPermutation, Filled, Listed, Surface.Good, Surface.Contents, Surface.Ordered, Surface.Entries, After, Holds, AllHold, Separate, Owned, LeftThen, RightThen, CanExchange;
      AllHoldMeans(pages, lists, m, Repr);
      PagesApart(pages, n, r);
      ghost var after := lists[n := LeftThen(e, lists[n], lists[r])][r := RightThen(e, lists[n], lists[r])];
      ExchangePages(e, pages[n], pages[r], lists[n], lists[r], m);
      forall x | x in pages ensures Holds(pages[x], after[x], m) {
        if x != n && x != r {
          PagesApart(pages, x, n);
          PagesApart(pages, x, r);
          assert old(Holds(pages[x], lists[x], m));
        }
      }
      AllHoldFrom(pages, after, m, Repr);
      lists := after;
    }
  }

  /** A run of steps, each allowed when it comes. */
  predicate AllAllowed(lists: Lists, m: nat, steps: seq<LeafStep>)
    decreases |steps|
  {
    steps == [] || (Allowed(lists, m, steps[0]) && AllAllowed(After(lists, m, steps[0]), m, steps[1..]))
  }

  function AfterAll(lists: Lists, m: nat, steps: seq<LeafStep>): Lists
    requires AllAllowed(lists, m, steps)
    decreases |steps|
  {
    if steps == [] then lists else AfterAll(After(lists, m, steps[0]), m, steps[1..])
  }
}
