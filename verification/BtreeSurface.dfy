/** A leaf page: keys and values stay where they were first put, and a permutation says in
    which order they are. */
module BtreeSurface {
  import opened BtreeItems

  // ---------- permutations ----------

  /** The entries of `perm` that are not `slots` are exactly the physical slots given out so
      far, each once. */
  ghost predicate IsPermutation(perm: seq<nat>, used: nat, slots: nat) {
    && |perm| == slots && used <= slots
    && (forall v :: 0 <= v < used ==> multiset(perm)[v] == 1)
    && multiset(perm)[slots] == slots - used
    && (forall i :: 0 <= i < |perm| ==> perm[i] < used || perm[i] == slots)
  }

  lemma {:induction false} TwiceCounts(s: seq<nat>, i: nat, j: nat)
    requires i < j < |s| && s[i] == s[j]
    ensures multiset(s)[s[i]] >= 2
  {
    assert s == s[..i] + [s[i]] + s[i + 1..j] + [s[j]] + s[j + 1..];
  }

  /** Different positions use different physical slots. */
  lemma {:induction false} SlotsDiffer(perm: seq<nat>, used: nat, slots: nat, i: nat, j: nat)
    requires IsPermutation(perm, used, slots) && i < slots && j < slots && i != j && perm[i] != slots
    ensures perm[i] != perm[j]
  {
    if perm[i] == perm[j] {
      if i < j { TwiceCounts(perm, i, j); } else { TwiceCounts(perm, j, i); }
      assert false;
    }
  }

  /** While some position has no slot, some slot is free. */
  lemma {:induction false} RoomLeft(perm: seq<nat>, used: nat, slots: nat, at: nat)
    requires IsPermutation(perm, used, slots) && at < slots && perm[at] == slots
    ensures used < slots
  {
    assert perm[at] in multiset(perm);
  }

  lemma {:induction false} UpdateCounts(s: seq<nat>, i: nat, v: nat)
    requires i < |s|
    ensures multiset(s[i := v]) == multiset(s) - multiset{s[i]} + multiset{v}
  {
    assert s == s[..i] + [s[i]] + s[i + 1..];
    assert s[i := v] == s[..i] + [v] + s[i + 1..];
  }

  /** Giving a position its slot. */
  lemma {:induction false} Allocate(perm: seq<nat>, used: nat, slots: nat, at: nat)
    requires IsPermutation(perm, used, slots) && at < slots && perm[at] == slots
    ensures IsPermutation(perm[at := used], used + 1, slots)
  {
    RoomLeft(perm, used, slots, at);
    UpdateCounts(perm, at, used);
    assert used !in perm;
  }

  lemma {:induction false} SameCounts(perm: seq<nat>, other: seq<nat>, used: nat, slots: nat)
    requires IsPermutation(perm, used, slots) && multiset(other) == multiset(perm) && |other| == |perm|
    ensures IsPermutation(other, used, slots)
  {
    forall i | 0 <= i < |other| ensures other[i] < used || other[i] == slots {
      assert other[i] in multiset(other);
      assert other[i] in multiset(perm);
    }
  }

  /** Position `from` moves to `to`, those between move by one. */
  ghost function MoveDown(s: seq<nat>, to: nat, from: nat): (r: seq<nat>)
    requires to <= from < |s|
    ensures |r| == |s| && multiset(r) == multiset(s)
  {
    assert s == s[..to] + s[to..from] + [s[from]] + s[from + 1..];
    s[..to] + [s[from]] + s[to..from] + s[from + 1..]
  }

  ghost function MoveUp(s: seq<nat>, from: nat, to: nat): (r: seq<nat>)
    requires from <= to < |s|
    ensures |r| == |s| && multiset(r) == multiset(s)
  {
    assert s == s[..from] + [s[from]] + s[from + 1..to + 1] + s[to + 1..];
    s[..from] + s[from + 1..to + 1] + [s[from]] + s[to + 1..]
  }

  // ---------- what the positions hold ----------

  datatype Entry = Free | Held(item: Item)

  ghost function Row(perm: seq<nat>, keys: seq<int>, values: seq<int>): (r: seq<Entry>)
    requires |keys| == |values|
    ensures |r| == |perm|
  {
    seq(|perm|, i requires 0 <= i < |perm| => if perm[i] < |keys| then Held(Item(keys[perm[i]], values[perm[i]])) else Free)
  }

  ghost predicate Filled(row: seq<Entry>, n: nat) { n <= |row| && forall i :: 0 <= i < n ==> row[i].Held? }

  /** The pairs in the first `n` positions. */
  ghost function Listed(row: seq<Entry>, n: nat): (r: seq<Item>)
    requires Filled(row, n)
    ensures |r| == n && forall i :: 0 <= i < n ==> r[i] == row[i].item
  {
    seq(n, i requires 0 <= i < n => row[i].item)
  }

  /** Writing a pair into one physical slot changes one position. */
  lemma {:induction false} RowWrite(perm: seq<nat>, keys: seq<int>, values: seq<int>, used: nat, slots: nat, at: nat, k: int, v: int)
    requires IsPermutation(perm, used, slots) && |keys| == |values| == slots && at < slots && perm[at] < used
    ensures Row(perm, keys[perm[at] := k], values[perm[at] := v]) == Row(perm, keys, values)[at := Held(Item(k, v))]
  {
    var p := perm[at];
    var after := Row(perm, keys[p := k], values[p := v]);
    forall i | 0 <= i < slots ensures after[i] == Row(perm, keys, values)[at := Held(Item(k, v))][i] {
      if i != at { SlotsDiffer(perm, used, slots, at, i); }
    }
  }

  lemma {:induction false} RowAllocate(perm: seq<nat>, keys: seq<int>, values: seq<int>, at: nat, p: nat, e: Entry)
    requires at < |perm| && |keys| == |values|
    ensures Row(perm[at := p], keys, values)[at := e] == Row(perm, keys, values)[at := e]
  {
  }

  lemma {:induction false} CopiedMore<T>(row: seq<T>, src: seq<T>, to: nat, from: nat, i: nat)
    requires to + i < |row| && from + i < |src|
    ensures (row[..to] + src[from..from + i] + row[to + i..])[to + i := src[from + i]] == row[..to] + src[from..from + i + 1] + row[to + i + 1..]
  {
    assert src[from..from + i + 1] == src[from..from + i] + [src[from + i]];
  }

  class Surface {
    const slots: nat
    const permutations: array<nat>
    const keys: array<int>
    const values: array<int>
    var used: nat
    var occupants: nat

    /** The permutation is one. */
    ghost predicate Ordered()
      reads this`used, permutations, keys, values
    {
      && permutations.Length == keys.Length == values.Length == slots && keys != values
      && IsPermutation(permutations[..], used, slots)
    }

    /** And every occupied position has its physical slot. */
    ghost predicate Good()
      reads this, permutations, keys, values
    {
      Ordered() && Filled(Entries(), occupants)
    }

    ghost function Entries(): (r: seq<Entry>)
      requires keys.Length == values.Length
      reads permutations, keys, values
      ensures |r| == permutations.Length
    {
      Row(permutations[..], keys[..], values[..])
    }

    /** The pairs of the page, in order. */
    ghost function Contents(): (r: seq<Item>)
      requires Good()
      reads this, permutations, keys, values
      ensures |r| == occupants
    {
      Listed(Entries(), occupants)
    }

    /** `initialize` */
    constructor (size: nat)
      ensures Good() && Ordered() && Contents() == [] && slots == size && fresh(permutations) && fresh(keys) && fresh(values)
    {
      slots := size;
      permutations, keys, values := new nat[size](_ => size), new int[size](_ => 0), new int[size](_ => 0);
      used, occupants := 0, 0;
      new;
      AllFree(permutations[..], size);
    }

    /** `init_key_allocation`: the branch that would give slots up again is never reached. */
    method InitKeyAllocation(at: nat)
      requires at < slots == permutations.Length && IsPermutation(permutations[..], used, slots)
      modifies permutations, this`used
      ensures IsPermutation(permutations[..], used, slots) && permutations[at] < used
      ensures permutations[..] == old(permutations[..])[at := permutations[at]]
    {
      ghost var perm := permutations[..];
      if permutations[at] == slots {
        RoomLeft(perm, used, slots, at);
        Allocate(perm, used, slots, at);
        ghost var slot := used;
        permutations[at] := used;
        used := used + 1;
        assert permutations[..] == perm[at := slot];
      } else {
        assert permutations[..] == perm[at := permutations[at]];
      }
    }

    /** `get_key(at) = k; get_value(at) = v;`, and `set_kv`. */
    method Put(at: nat, k: int, v: int)
      requires Ordered() && at < slots
      modifies permutations, keys, values, this`used
      ensures Ordered() && Entries() == old(Entries())[at := Held(Item(k, v))]
    {
      ghost var perm, ks, vs := permutations[..], keys[..], values[..];
      InitKeyAllocation(at);
      ghost var p := permutations[at];
      RowWrite(permutations[..], ks, vs, used, slots, at, k, v);
      RowAllocate(perm, ks, vs, at, p, Held(Item(k, v)));
      keys[permutations[at]] := k;
      values[permutations[at]] := v;
      assert keys[..] == ks[p := k] && values[..] == vs[p := v];
    }

    /** `insert_`: the permutation entry behind the occupied ones is reused for the new pair. */
    method Insert(at: nat, k: int, v: int)
      requires Good() && occupants < slots && at <= occupants
      modifies permutations, keys, values, this`used, this`occupants
      ensures Good() && Contents() == PutAt(old(Contents()), at, Item(k, v))
    {
      hide Row, IsPermutation, MoveDown;
      ghost var perm, row := permutations[..], Entries();
      MoveEntryDown(permutations, at, occupants);
      RowMoveDown(perm, keys[..], values[..], at, occupants);
      SameCounts(perm, permutations[..], used, slots);
      Put(at, k, v);
      InsertedList(row, occupants, at, Item(k, v));
      occupants := occupants + 1;
    }

    /** `erase_d`: the entry of the erased pair moves behind the occupied ones. */
    method EraseAt(slot: nat)
      requires Good() && slot < occupants
      modifies permutations, this`occupants
      ensures Good() && Contents() == DropAt(old(Contents()), slot) && used == old(used)
    {
      hide Row, IsPermutation, MoveUp;
      ghost var perm, row := permutations[..], Entries();
      MoveEntryUp(permutations, slot, occupants - 1);
      RowMoveUp(perm, keys[..], values[..], slot, occupants - 1);
      SameCounts(perm, permutations[..], used, slots);
      ErasedList(row, occupants, slot);
      occupants := occupants - 1;
    }

    /** `get_key` and `get_value` of an occupied position. */
    method Get(at: nat) returns (k: int, v: int)
      requires Ordered() && at < slots && Entries()[at].Held?
      ensures Entries()[at] == Held(Item(k, v))
    {
      k, v := keys[permutations[at]], values[permutations[at]];
    }

    /** Copies pairs from another page. */
    method CopyItems(to: nat, other: Surface, from: nat, count: nat)
      requires Ordered() && other.Ordered() && Apart(this, other) && to + count <= slots
      requires from + count <= other.slots && Filled(other.Entries(), from + count)
      modifies permutations, keys, values, this`used
      ensures Ordered() && Entries() == old(Entries())[..to] + other.Entries()[from..from + count] + old(Entries())[to + count..]
    {
      hide Row, IsPermutation, Surface.Entries;
      ghost var row, src := Entries(), other.Entries();
      assert |row| == slots && keys.Length == values.Length && |src| == other.slots && other.keys.Length == other.values.Length;
      assert forall j :: 0 <= j < from + count ==> src[j].Held?;
      hide Surface.Ordered, Filled;
      for i := 0 to count
        invariant Ordered() && other.Ordered() && other.Entries() == src
        invariant Entries() == row[..to] + src[from..from + i] + row[to + i..]
      {
        var k, v := other.Get(from + i);
        Put(to + i, k, v);
        CopiedMore(row, src, to, from, i);
      }
    }

    /** The loop of `shift_left_surface` that closes the gap. */
    method ShiftDown(num: nat, n: nat)
      requires Ordered() && Filled(Entries(), n + num)
      modifies permutations, keys, values, this`used
      ensures Ordered() && |Entries()| == |old(Entries())| && Entries()[..n] == old(Entries())[num..n + num]
    {
      hide Row, IsPermutation;
      ghost var row := Entries();
      for i := 0 to n
        invariant Ordered() && |Entries()| == |row|
        invariant forall j :: 0 <= j < i ==> Entries()[j] == row[j + num]
        invariant forall j :: i <= j < |row| ==> Entries()[j] == row[j]
      {
        var k, v := Get(i + num);
        Put(i, k, v);
      }
      assert Entries()[..n] == row[num..n + num];
    }

    /** The loop of `shift_right_surface` that opens one. */
    method ShiftUp(num: nat, n: nat)
      requires Ordered() && n + num <= slots && Filled(Entries(), n)
      modifies permutations, keys, values, this`used
      ensures Ordered() && |Entries()| == |old(Entries())| && Entries()[num..num + n] == old(Entries())[..n]
    {
      hide Row, IsPermutation;
      ghost var row := Entries();
      var i: int := n - 1;
      while i >= 0
        invariant -1 <= i < n && Ordered() && |Entries()| == |row|
        invariant forall j :: 0 <= j <= i ==> Entries()[j] == row[j]
        invariant forall j :: i < j < n ==> Entries()[j + num] == row[j]
      {
        var k, v := Get(i);
        Put(i + num, k, v);
        i := i - 1;
      }
      assert Entries()[num..num + n] == row[..n] by {
        forall j | 0 <= j < n ensures Entries()[num..num + n][j] == row[j] { assert Entries()[num..num + n][j] == Entries()[j + num]; }
      }
    }

    /** The pairs of `split_surface_node`. */
    method SplitInto(right: Surface)
      requires Good() && right.Ordered() && Apart(this, right) && right.slots == slots
      modifies right.permutations, right.keys, right.values, right`used, right`occupants, this`occupants
      ensures Good() && right.Good()
      ensures var mid := old(occupants) / 2; Contents() == old(Contents())[..mid] && right.Contents() == old(Contents())[mid..]
    {
      hide Row, IsPermutation, Listed, Filled;
      ghost var row := Entries();
      FilledLess(row, occupants);
      var mid := occupants / 2;
      right.occupants := occupants - mid;
      right.CopyItems(0, this, mid, occupants - mid);
      assert right.Entries()[..right.occupants] == row[mid..right.occupants + mid];
      PrefixFilled(right.Entries(), right.occupants, row, mid);
      ListedLess(row, occupants, mid);
      occupants := mid;
    }

    /** The pairs of `merge_leaves`. */
    method MergeFrom(right: Surface)
      requires Good() && right.Good() && Apart(this, right) && occupants + right.occupants <= slots
      modifies permutations, keys, values, this`used, this`occupants, right`occupants
      ensures Good() && right.Good() && Contents() == old(Contents() + right.Contents()) && right.Contents() == []
    {
      hide Row, IsPermutation;
      CopyItems(occupants, right, 0, right.occupants);
      occupants := occupants + right.occupants;
      right.occupants := 0;
    }

    /** The pairs of `shift_left_surface`; this is the left page. */
    method ShiftFrom(right: Surface)
      requires Good() && right.Good() && Apart(this, right) && right.slots == slots && occupants <= right.occupants
      modifies permutations, keys, values, this`used, this`occupants, right.permutations, right.keys, right.values, right`used, right`occupants
      ensures Good() && right.Good()
      ensures var num := (old(right.occupants) - old(occupants)) / 2;
        Contents() == old(Contents()) + old(right.Contents())[..num] && right.Contents() == old(right.Contents())[num..]
    {
      hide Row, IsPermutation, Listed, Filled, Surface.Entries;
      ghost var row, src := Entries(), right.Entries();
      FilledLess(src, right.occupants);
      var num := (right.occupants - occupants) / 2;
      CopyItems(occupants, right, 0, num);
      AppendedList(Entries(), row, occupants, src, right.occupants, num);
      occupants := occupants + num;
      right.occupants := right.occupants - num;
      right.ShiftDown(num, right.occupants);
      PrefixFilled(right.Entries(), right.occupants, src, num);
    }

    /** The pairs of `shift_right_surface`; this is the left page. */
    method ShiftTo(right: Surface)
      requires Good() && right.Good() && Apart(this, right) && right.slots == slots && right.occupants <= occupants
      modifies this`occupants, right.permutations, right.keys, right.values, right`used, right`occupants
      ensures Good() && right.Good()
      ensures var rest := old(occupants) - (old(occupants) - old(right.occupants)) / 2;
        Contents() == old(Contents())[..rest] && right.Contents() == old(Contents())[rest..] + old(right.Contents())
    {
      hide Row, IsPermutation, Listed, Filled, Surface.Entries;
      ghost var row, src := Entries(), right.Entries();
      FilledLess(row, occupants);
      ghost var n := right.occupants;
      var num := (occupants - right.occupants) / 2;
      right.ShiftUp(num, right.occupants);
      ghost var moved := right.Entries();
      right.occupants := right.occupants + num;
      right.CopyItems(0, this, occupants - num, num);
      ShiftedUp(right.Entries(), moved, src, row, n, num, occupants);
      FilledLess(row, occupants);
      ListedLess(row, occupants, occupants - num);
      occupants := occupants - num;
    }
  }

  /** Two pages share no array. */
  ghost predicate Apart(a: Surface, b: Surface) {
    && a != b && a.permutations != b.permutations
    && a.keys != b.keys && a.keys != b.values && a.values != b.keys && a.values != b.values
  }

  lemma {:induction false} PrefixFilled(row: seq<Entry>, n: nat, src: seq<Entry>, num: nat)
    requires Filled(src, n + num) && n <= |row| && row[..n] == src[num..n + num]
    ensures Filled(row, n) && Listed(row, n) == Listed(src, n + num)[num..]
  {
    forall i | 0 <= i < n ensures row[i] == src[num + i] { assert row[..n][i] == src[num..n + num][i]; }
  }

  lemma {:induction false} FilledLess(row: seq<Entry>, n: nat)
    requires Filled(row, n)
    ensures n <= |row| && forall k :: 0 <= k <= n ==> Filled(row, k)
  {
  }

  lemma {:induction false} ListedLess(row: seq<Entry>, n: nat, k: nat)
    requires Filled(row, n) && k <= n
    ensures Filled(row, k) && Listed(row, k) == Listed(row, n)[..k]
  {
  }

  lemma {:induction false} AppendedList(after: seq<Entry>, row: seq<Entry>, n: nat, src: seq<Entry>, m: nat, num: nat)
    requires Filled(row, n) && Filled(src, m) && num <= m && n + num <= |row|
    requires after == row[..n] + src[0..0 + num] + row[n + num..]
    ensures Filled(after, n + num) && Listed(after, n + num) == Listed(row, n) + Listed(src, m)[..num]
  {
  }

  lemma {:induction false} ShiftedUp(row: seq<Entry>, moved: seq<Entry>, src: seq<Entry>, left: seq<Entry>, n: nat, num: nat, m: nat)
    requires Filled(src, n) && Filled(left, m) && num <= m && n + num <= |moved| == |row|
    requires moved[num..num + n] == src[..n] && row == moved[..0] + left[m - num..m] + moved[0 + num..]
    ensures Filled(row, n + num) && Listed(row, n + num) == Listed(left, m)[m - num..] + Listed(src, n)
  {
    forall i | 0 <= i < n ensures row[num + i] == src[i] {
      assert moved[num..num + n][i] == src[..n][i];
      assert row[num + i] == moved[num..][i];
    }
    forall i | 0 <= i < num ensures row[i] == left[m - num + i] { }
    var l := Listed(left, m)[m - num..] + Listed(src, n);
    forall i | 0 <= i < n + num ensures row[i] == Held(l[i]) {
      if i >= num { assert row[num + (i - num)] == src[i - num]; }
    }
  }

  /** The loop of `insert_`. */
  method MoveEntryDown(a: array<nat>, at: nat, end: nat)
    requires at <= end < a.Length
    modifies a
    ensures a[..] == MoveDown(old(a[..]), at, end)
  {
    ghost var was := a[..];
    var j := end;
    var t := a[j];
    while j > at
      invariant at <= j <= end
      invariant forall i :: 0 <= i < j || end < i < a.Length ==> a[i] == was[i]
      invariant forall i :: j < i <= end ==> a[i] == was[i - 1]
    {
      a[j] := a[j - 1];
      j := j - 1;
    }
    a[at] := t;
    assert forall i :: 0 <= i < a.Length ==> a[..][i] == MoveDown(was, at, end)[i];
  }

  /** The loop of `erase_d`. */
  method MoveEntryUp(a: array<nat>, slot: nat, e: nat)
    requires slot <= e < a.Length
    modifies a
    ensures a[..] == MoveUp(old(a[..]), slot, e)
  {
    ghost var was := a[..];
    var saved := a[slot];
    var i := slot;
    while i < e
      invariant slot <= i <= e
      invariant forall j :: 0 <= j < slot || i <= j < a.Length ==> a[j] == was[j]
      invariant forall j :: slot <= j < i ==> a[j] == was[j + 1]
    {
      a[i] := a[i + 1];
      i := i + 1;
    }
    a[e] := saved;
    assert forall j :: 0 <= j < a.Length ==> a[..][j] == MoveUp(old(a[..]), slot, e)[j];
  }

  lemma {:induction false} RowMoveDown(perm: seq<nat>, keys: seq<int>, values: seq<int>, to: nat, from: nat)
    requires to <= from < |perm| && |keys| == |values|
    ensures var row := Row(perm, keys, values);
      Row(MoveDown(perm, to, from), keys, values) == row[..to] + [row[from]] + row[to..from] + row[from + 1..]
  {
  }

  lemma {:induction false} RowMoveUp(perm: seq<nat>, keys: seq<int>, values: seq<int>, from: nat, to: nat)
    requires from <= to < |perm| && |keys| == |values|
    ensures var row := Row(perm, keys, values);
      Row(MoveUp(perm, from, to), keys, values) == row[..from] + row[from + 1..to + 1] + [row[from]] + row[to + 1..]
  {
  }

  lemma {:induction false} InsertedList(row: seq<Entry>, n: nat, at: nat, e: Item)
    requires n < |row| && Filled(row, n) && at <= n
    ensures var after := (row[..at] + [row[n]] + row[at..n] + row[n + 1..])[at := Held(e)];
      Filled(after, n + 1) && Listed(after, n + 1) == PutAt(Listed(row, n), at, e)
  {
  }

  lemma {:induction false} ErasedList(row: seq<Entry>, n: nat, slot: nat)
    requires Filled(row, n) && slot < n
    ensures var after := row[..slot] + row[slot + 1..n] + [row[slot]] + row[n..];
      Filled(after, n - 1) && Listed(after, n - 1) == DropAt(Listed(row, n), slot)
  {
  }

  lemma {:induction false} AllFree(perm: seq<nat>, slots: nat)
    requires |perm| == slots && forall i :: 0 <= i < slots ==> perm[i] == slots
    ensures IsPermutation(perm, 0, slots)
  {
    AllFreeCount(perm, slots);
  }

  lemma {:induction false} AllFreeCount(perm: seq<nat>, x: nat)
    requires forall i :: 0 <= i < |perm| ==> perm[i] == x
    ensures multiset(perm)[x] == |perm|
  {
    if perm != [] {
      var n := |perm| - 1;
      assert perm == perm[..n] + [perm[n]];
      AllFreeCount(perm[..n], x);
    }
  }
}
