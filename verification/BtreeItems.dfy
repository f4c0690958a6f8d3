/** The sorted list of key/value pairs a B+ tree stands for. */
module BtreeItems {
  datatype Item = Item(key: int, value: int)

  ghost predicate Sorted(s: seq<Item>) { forall i, j :: 0 <= i < j < |s| ==> s[i].key < s[j].key }

  ghost predicate Ascending(keys: seq<int>) { forall i, j :: 0 <= i < j < |keys| ==> keys[i] < keys[j] }

  ghost predicate AllBelow(s: seq<Item>, k: int) { forall i :: 0 <= i < |s| ==> s[i].key < k }

  ghost predicate AllAbove(s: seq<Item>, k: int) { forall i :: 0 <= i < |s| ==> s[i].key > k }

  function Keys(s: seq<Item>): (r: seq<int>)
    ensures |r| == |s| && forall i :: 0 <= i < |s| ==> r[i] == s[i].key
  {
    seq(|s|, i requires 0 <= i < |s| => s[i].key)
  }

  /** The number of keys below `k`: where `k` is, or would go. */
  function LowerBound(keys: seq<int>, k: int): (p: nat)
    ensures p <= |keys|
  {
    if keys == [] || keys[0] >= k then 0 else 1 + LowerBound(keys[1..], k)
  }

  /** In ascending keys, everything before the lower bound is below and everything from it on
      is not; this determines it. */
  lemma {:induction false} LowerBoundUnique(keys: seq<int>, k: int, p: nat)
    requires p <= |keys|
    requires forall i :: 0 <= i < p ==> keys[i] < k
    requires forall i :: p <= i < |keys| ==> keys[i] >= k
    ensures LowerBound(keys, k) == p
  {
    if p != 0 {
      forall i | 0 <= i < p - 1 ensures keys[1..][i] < k { assert keys[1..][i] == keys[i + 1]; }
      forall i | p - 1 <= i < |keys[1..]| ensures keys[1..][i] >= k { assert keys[1..][i] == keys[i + 1]; }
      LowerBoundUnique(keys[1..], k, p - 1);
    }
  }

  lemma {:induction false} LowerBoundSplits(keys: seq<int>, k: int)
    requires Ascending(keys)
    ensures forall i :: 0 <= i < LowerBound(keys, k) ==> keys[i] < k
    ensures forall i :: LowerBound(keys, k) <= i < |keys| ==> keys[i] >= k
  {
    if keys != [] && keys[0] < k {
      LowerBoundSplits(keys[1..], k);
      forall i | 0 <= i < LowerBound(keys, k) ensures keys[i] < k {
        if i > 0 { assert keys[1..][i - 1] == keys[i]; }
      }
      forall i | LowerBound(keys, k) <= i < |keys| ensures keys[i] >= k {
        assert keys[1..][i - 1] == keys[i];
      }
    }
  }

  /** Where `k` is, or would go, in a list of items. */
  function Slot(s: seq<Item>, k: int): (p: nat)
    ensures p <= |s|
  {
    LowerBound(Keys(s), k)
  }

  predicate Has(s: seq<Item>, k: int) { Slot(s, k) < |s| && s[Slot(s, k)].key == k }

  function PutAt(s: seq<Item>, p: nat, e: Item): seq<Item>
    requires p <= |s|
  {
    s[..p] + [e] + s[p..]
  }

  function DropAt(s: seq<Item>, p: nat): seq<Item>
    requires p < |s|
  {
    s[..p] + s[p + 1..]
  }

  /** Insertion of an absent key; a present one stays as it is. */
  function Insert(s: seq<Item>, k: int, v: int): seq<Item> {
    if Has(s, k) then s else PutAt(s, Slot(s, k), Item(k, v))
  }

  function Remove(s: seq<Item>, k: int): seq<Item> {
    if Has(s, k) then DropAt(s, Slot(s, k)) else s
  }

  lemma {:induction false} SlotSplits(s: seq<Item>, k: int)
    requires Sorted(s)
    ensures AllBelow(s[..Slot(s, k)], k)
    ensures forall i :: Slot(s, k) <= i < |s| ==> s[i].key >= k
  {
    LowerBoundSplits(Keys(s), k);
  }

  lemma {:induction false} SlotUnique(s: seq<Item>, k: int, p: nat)
    requires p <= |s| && AllBelow(s[..p], k) && forall i :: p <= i < |s| ==> s[i].key >= k
    ensures Slot(s, k) == p
  {
    forall i | 0 <= i < p ensures Keys(s)[i] < k { assert s[..p][i] == s[i]; }
    LowerBoundUnique(Keys(s), k, p);
  }

  lemma {:induction false} PutSorted(s: seq<Item>, p: nat, e: Item)
    requires Sorted(s) && p <= |s| && AllBelow(s[..p], e.key) && AllAbove(s[p..], e.key)
    ensures Sorted(PutAt(s, p, e)) && Slot(PutAt(s, p, e), e.key) == p
  {
    hide Slot;
    var r := PutAt(s, p, e);
    forall i | 0 <= i < p ensures r[i] == s[i] && s[i].key < e.key { assert s[..p][i] == s[i]; }
    forall i | p < i < |r| ensures r[i] == s[i - 1] && s[i - 1].key > e.key { assert s[p..][i - 1 - p] == s[i - 1]; }
    assert r[..p] == s[..p];
    SlotUnique(r, e.key, p);
  }

  /** Insertion keeps the order and adds exactly the new pair. */
  lemma {:induction false} InsertSorted(s: seq<Item>, k: int, v: int)
    requires Sorted(s)
    ensures Sorted(Insert(s, k, v)) && Has(Insert(s, k, v), k)
    ensures !Has(s, k) ==> multiset(Insert(s, k, v)) == multiset(s) + multiset{Item(k, v)}
  {
    hide Slot;
    SlotSplits(s, k);
    if !Has(s, k) {
      var p := Slot(s, k);
      assert s == s[..p] + s[p..];
      forall i | p <= i < |s| ensures s[i].key > k {
        if i > p { assert s[p].key < s[i].key; }
      }
      PutSorted(s, p, Item(k, v));
    }
  }

  /** Removal keeps the order and takes exactly the pair with the key away. */
  lemma {:induction false} RemoveSorted(s: seq<Item>, k: int)
    requires Sorted(s)
    ensures Sorted(Remove(s, k)) && !Has(Remove(s, k), k)
    ensures Has(s, k) ==> multiset(s) == multiset(Remove(s, k)) + multiset{s[Slot(s, k)]}
  {
    hide Slot;
    SlotSplits(s, k);
    if Has(s, k) {
      var p := Slot(s, k);
      var r := DropAt(s, p);
      assert s == s[..p] + [s[p]] + s[p + 1..];
      forall i | 0 <= i < p ensures r[i] == s[i] { }
      forall i | p <= i < |r| ensures r[i] == s[i + 1] && r[i].key > k { }
      assert r[..p] == s[..p];
      SlotUnique(r, k, p);
    }
  }

  /** The items around a part that alone can hold `k` do not take part. */
  lemma {:induction false} InsideSlot(a: seq<Item>, b: seq<Item>, c: seq<Item>, k: int)
    requires Sorted(b) && AllBelow(a, k) && AllAbove(c, k)
    ensures Slot(a + b + c, k) == |a| + Slot(b, k)
    ensures Has(a + b + c, k) == Has(b, k)
  {
    hide Slot;
    SlotSplits(b, k);
    var s, p := a + b + c, Slot(b, k);
    assert s[..|a| + p] == a + b[..p];
    forall i | 0 <= i < |a| + p ensures s[i].key < k {
      if i >= |a| { assert b[..p][i - |a|] == s[i]; }
    }
    SlotUnique(s, k, |a| + p);
  }

  lemma {:induction false} DropInside(a: seq<Item>, b: seq<Item>, c: seq<Item>, p: nat)
    requires p < |b|
    ensures DropAt(a + b + c, |a| + p) == a + DropAt(b, p) + c
  {
    assert (a + b + c)[..|a| + p] == a + b[..p];
    assert (a + b + c)[|a| + p + 1..] == b[p + 1..] + c;
  }

  lemma {:induction false} InsideRemove(a: seq<Item>, b: seq<Item>, c: seq<Item>, k: int)
    requires Sorted(b) && AllBelow(a, k) && AllAbove(c, k)
    ensures Remove(a + b + c, k) == a + Remove(b, k) + c
  {
    hide Slot, DropAt;
    InsideSlot(a, b, c, k);
    if Has(b, k) { DropInside(a, b, c, Slot(b, k)); }
  }

  lemma {:induction false} PutInside(a: seq<Item>, b: seq<Item>, c: seq<Item>, p: nat, e: Item)
    requires p <= |b|
    ensures PutAt(a + b + c, |a| + p, e) == a + PutAt(b, p, e) + c
  {
    assert (a + b + c)[..|a| + p] == a + b[..p];
    assert (a + b + c)[|a| + p..] == b[p..] + c;
  }

  lemma {:induction false} InsideInsert(a: seq<Item>, b: seq<Item>, c: seq<Item>, k: int, v: int)
    requires Sorted(b) && AllBelow(a, k) && AllAbove(c, k)
    ensures Insert(a + b + c, k, v) == a + Insert(b, k, v) + c
  {
    hide Slot, PutAt;
    InsideSlot(a, b, c, k);
    if !Has(b, k) { PutInside(a, b, c, Slot(b, k), Item(k, v)); }
  }
}
