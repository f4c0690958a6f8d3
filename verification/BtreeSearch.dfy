/** The searches inside a B+ tree node. */
module BtreeSearch {
  import opened BtreeItems

  /** `find_lower`: the lower bound, whatever position an earlier search left behind. */
  method FindLower(keys: seq<int>, lastFound: nat, k: int) returns (at: nat, found: nat)
    requires Ascending(keys)
    ensures at == LowerBound(keys, k)
  {
    found := lastFound;
    if keys == [] { return 0, found; }
    if 0 < lastFound < |keys| && !(keys[lastFound] < k) && keys[lastFound - 1] < k {
      LowerBoundUnique(keys, k, lastFound);
      return lastFound, found;
    }
    var l, h := 0, |keys|;
    while l < h
      invariant 0 <= l <= h <= |keys|
      invariant forall i :: 0 <= i < l ==> keys[i] < k
      invariant forall i :: h <= i < |keys| ==> keys[i] >= k
    {
      var mid := (l + h) / 2;
      if k <= keys[mid] {
        h := mid;
      } else {
        l := mid + 1;
      }
    }
    LowerBoundUnique(keys, k, l);
    return l, l;
  }

  /** The number of keys not above `k`. */
  function UpperBound(keys: seq<int>, k: int): (p: nat)
    ensures p <= |keys|
  {
    if keys == [] || keys[0] > k then 0 else 1 + UpperBound(keys[1..], k)
  }

  lemma {:induction false} UpperBoundUnique(keys: seq<int>, k: int, p: nat)
    requires p <= |keys|
    requires forall i :: 0 <= i < p ==> keys[i] <= k
    requires forall i :: p <= i < |keys| ==> keys[i] > k
    ensures UpperBound(keys, k) == p
  {
    if p != 0 {
      forall i | 0 <= i < p - 1 ensures keys[1..][i] <= k { assert keys[1..][i] == keys[i + 1]; }
      forall i | p - 1 <= i < |keys[1..]| ensures keys[1..][i] > k { assert keys[1..][i] == keys[i + 1]; }
      UpperBoundUnique(keys[1..], k, p - 1);
    }
  }

  lemma {:induction false} UpperBoundSplits(keys: seq<int>, k: int)
    requires Ascending(keys)
    ensures forall i :: 0 <= i < UpperBound(keys, k) ==> keys[i] <= k
    ensures forall i :: UpperBound(keys, k) <= i < |keys| ==> keys[i] > k
  {
    if keys != [] && keys[0] <= k {
      UpperBoundSplits(keys[1..], k);
      forall i | 0 <= i < UpperBound(keys, k) ensures keys[i] <= k {
        if i > 0 { assert keys[1..][i - 1] == keys[i]; }
      }
      forall i | UpperBound(keys, k) <= i < |keys| ensures keys[i] > k {
        assert keys[1..][i - 1] == keys[i];
      }
    }
  }

  /** `_find_upper`: both bounds move past the probe, and the last comparison settles the
      rest. */
  method FindUpper(keys: seq<int>, k: int) returns (at: nat)
    requires Ascending(keys)
    ensures at == UpperBound(keys, k)
  {
    if keys == [] { return 0; }
    var lo, hi := 0, |keys| - 1;
    while lo < hi
      invariant 0 <= lo <= hi + 1 <= |keys|
      invariant forall i :: 0 <= i < lo ==> keys[i] <= k
      invariant forall i :: hi < i < |keys| ==> keys[i] > k
      decreases hi - lo
    {
      var mid := (lo + hi) / 2;
      if k < keys[mid] {
        hi := mid - 1;
      } else {
        lo := mid + 1;
      }
    }
    if hi < 0 || keys[hi] <= k {
      hi := hi + 1;
    }
    UpperBoundUnique(keys, k, hi);
    return hi;
  }
}
