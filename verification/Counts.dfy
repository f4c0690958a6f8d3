/** Symbol counts: their sum, and how many symbols occur. */
module Counts {

  function Sum(s: seq<nat>): nat {
    if s == [] then 0 else Sum(s[..|s| - 1]) + s[|s| - 1]
  }

  /** Symbols that occur. */
  function Present(count: seq<nat>): (n: nat)
    ensures n <= |count|
  {
    if count == [] then 0 else Present(count[..|count| - 1]) + if count[|count| - 1] > 0 then 1 else 0
  }

  lemma {:induction false} SumNext(s: seq<nat>, n: nat)
    requires n < |s|
    ensures Sum(s[..n + 1]) == Sum(s[..n]) + s[n]
  {
    assert s[..n + 1][..n] == s[..n];
  }

  lemma {:induction false} SumPrefix(s: seq<nat>, n: nat)
    requires n <= |s|
    ensures Sum(s[..n]) <= Sum(s)
    ensures n < |s| ==> s[n] <= Sum(s)
    decreases |s| - n
  {
    if n == |s| {
      assert s[..n] == s;
    } else {
      SumNext(s, n);
      SumPrefix(s, n + 1);
    }
  }

  lemma {:induction false} SumFirst(s: seq<nat>)
    requires s != []
    ensures Sum(s) == s[0] + Sum(s[1..])
  {
    var n := |s| - 1;
    if n > 0 {
      SumFirst(s[..n]);
      assert s[..n][1..] == s[1..][..n - 1];
    } else {
      assert s[..0] == [] && s[1..] == [];
    }
  }
}
