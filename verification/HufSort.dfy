/** `HUF_sort`: symbols by falling count, by buckets of equal bit length and insertion within
    a bucket. */
module HufSort {
  import opened Bits

  const TOP := 31

  datatype Elt = Elt(count: nat, symbol: nat)

  /** The bucket of a count: `BIT_highbit32(count + 1)`. */
  function Height(c: nat): nat { HighBit(c + 1) }

  /** Counts small enough for the 32 ranks. */
  ghost predicate Small(counts: seq<nat>) { forall i :: 0 <= i < |counts| ==> Height(counts[i]) < TOP }

  // ---------- the list that results ----------

  /** Insertion behind everything that is at least as frequent. */
  ghost function InsertDown(l: seq<Elt>, e: Elt): (r: seq<Elt>)
    ensures |r| == |l| + 1
  {
    if l == [] || l[|l| - 1].count >= e.count then l + [e]
    else InsertDown(l[..|l| - 1], e) + [l[|l| - 1]]
  }

  lemma {:induction false} InsertCounts(l: seq<Elt>, e: Elt)
    ensures multiset(InsertDown(l, e)) == multiset(l) + multiset{e}
  {
    if l != [] && l[|l| - 1].count < e.count {
      var n := |l| - 1;
      assert l == l[..n] + [l[n]];
      InsertCounts(l[..n], e);
    }
  }

  /** Bucket `h` after `n` symbols. */
  ghost function Bucket(counts: seq<nat>, n: nat, h: nat): seq<Elt>
    requires n <= |counts|
  {
    if n == 0 then []
    else if Height(counts[n - 1]) == h then InsertDown(Bucket(counts, n - 1, h), Elt(counts[n - 1], n - 1))
    else Bucket(counts, n - 1, h)
  }

  /** Buckets from the highest down to `h`, one behind the other. */
  ghost function All(counts: seq<nat>, n: nat, h: nat): seq<Elt>
    requires n <= |counts|
    decreases TOP - h
  {
    if h >= TOP then [] else All(counts, n, h + 1) + Bucket(counts, n, h)
  }

  ghost predicate Falling(l: seq<Elt>) { forall i, j :: 0 <= i < j < |l| ==> l[i].count >= l[j].count }

  ghost predicate InBucket(l: seq<Elt>, h: nat) { forall i :: 0 <= i < |l| ==> Height(l[i].count) == h }

  lemma {:induction false} InsertFalling(l: seq<Elt>, e: Elt, h: nat)
    requires Falling(l) && InBucket(l, h) && Height(e.count) == h
    ensures Falling(InsertDown(l, e)) && InBucket(InsertDown(l, e), h)
    ensures forall x :: x in InsertDown(l, e) ==> x in l || x == e
  {
    hide Height;
    if l != [] && l[|l| - 1].count < e.count {
      var n := |l| - 1;
      InsertFalling(l[..n], e, h);
      var r := InsertDown(l[..n], e);
      forall i | 0 <= i < |r| ensures r[i].count >= l[n].count {
        assert r[i] in r;
        if r[i] != e { var j :| 0 <= j < n && l[..n][j] == r[i]; }
      }
    }
  }

  lemma {:induction false} BucketFalling(counts: seq<nat>, n: nat, h: nat)
    requires n <= |counts|
    ensures Falling(Bucket(counts, n, h)) && InBucket(Bucket(counts, n, h), h)
  {
    hide Height, InsertDown;
    if n > 0 {
      BucketFalling(counts, n - 1, h);
      if Height(counts[n - 1]) == h { InsertFalling(Bucket(counts, n - 1, h), Elt(counts[n - 1], n - 1), h); }
    }
  }

  /** Of equally frequent symbols the smaller one comes first. */
  ghost predicate Stable(l: seq<Elt>) {
    forall i, j :: 0 <= i < j < |l| && l[i].count == l[j].count ==> l[i].symbol < l[j].symbol
  }

  lemma {:induction false} InsertStable(l: seq<Elt>, e: Elt)
    requires Falling(l) && Stable(l) && forall i :: 0 <= i < |l| ==> l[i].symbol < e.symbol
    ensures Stable(InsertDown(l, e))
    ensures forall x :: x in InsertDown(l, e) ==> x in l || x == e
  {
    if l != [] && l[|l| - 1].count < e.count {
      var n := |l| - 1;
      InsertStable(l[..n], e);
      var r := InsertDown(l[..n], e);
      forall i | 0 <= i < |r| && r[i].count == l[n].count ensures r[i].symbol < l[n].symbol {
        assert r[i] in r;
        var j :| 0 <= j < n && l[..n][j] == r[i];
      }
    }
  }

  lemma {:induction false} BucketStable(counts: seq<nat>, n: nat, h: nat)
    requires n <= |counts|
    ensures Stable(Bucket(counts, n, h)) && forall i :: 0 <= i < |Bucket(counts, n, h)| ==> Bucket(counts, n, h)[i].symbol < n
  {
    hide Height, InsertDown;
    if n > 0 {
      BucketStable(counts, n - 1, h);
      BucketFalling(counts, n - 1, h);
      var l, r := Bucket(counts, n - 1, h), Bucket(counts, n, h);
      if Height(counts[n - 1]) == h {
        InsertStable(l, Elt(counts[n - 1], n - 1));
        forall i | 0 <= i < |r| ensures r[i].symbol < n { assert r[i] in r; }
      }
    }
  }

  lemma {:induction false} AllStable(counts: seq<nat>, n: nat, h: nat)
    requires n <= |counts|
    ensures Stable(All(counts, n, h))
    decreases TOP - h
  {
    hide Height, Bucket;
    if h < TOP {
      AllStable(counts, n, h + 1);
      BucketStable(counts, n, h);
      AllFalling(counts, n, h + 1);
      BucketFalling(counts, n, h);
    }
  }

  /** A larger height means a larger count. */
  lemma {:induction false} HeightOrders(a: nat, b: nat)
    requires Height(a) > Height(b)
    ensures a > b
  {
    hide Pow2;
    Pow2Mono(Height(b) + 1, Height(a));
  }

  lemma {:induction false} AllFalling(counts: seq<nat>, n: nat, h: nat)
    requires n <= |counts|
    ensures Falling(All(counts, n, h)) && forall i :: 0 <= i < |All(counts, n, h)| ==> Height(All(counts, n, h)[i].count) >= h
    decreases TOP - h
  {
    hide Height, Bucket;
    if h < TOP {
      AllFalling(counts, n, h + 1);
      BucketFalling(counts, n, h);
      var a, b := All(counts, n, h + 1), Bucket(counts, n, h);
      forall i, j | 0 <= i < |a| && 0 <= j < |b| ensures a[i].count >= b[j].count { HeightOrders(a[i].count, b[j].count); }
    }
  }

  /** The symbols with their counts. */
  ghost function Given(counts: seq<nat>, n: nat): (r: seq<Elt>)
    requires n <= |counts|
    ensures |r| == n && forall i :: 0 <= i < n ==> r[i] == Elt(counts[i], i)
  {
    seq(n, i requires 0 <= i < n => Elt(counts[i], i))
  }

  lemma {:induction false} AllMore(counts: seq<nat>, n: nat, h: nat)
    requires 0 < n <= |counts| && Small(counts)
    ensures multiset(All(counts, n, h)) == multiset(All(counts, n - 1, h))
      + if Height(counts[n - 1]) >= h then multiset{Elt(counts[n - 1], n - 1)} else multiset{}
    decreases TOP - h
  {
    hide Height, Bucket;
    if h < TOP {
      AllMore(counts, n, h + 1);
      BucketMore(counts, n, h);
      var e := multiset{Elt(counts[n - 1], n - 1)};
      var a, b, c, d := All(counts, n, h + 1), Bucket(counts, n, h), All(counts, n - 1, h + 1), Bucket(counts, n - 1, h);
      assert multiset(a + b) == multiset(a) + multiset(b) && multiset(c + d) == multiset(c) + multiset(d);
      if Height(counts[n - 1]) == h {
        assert multiset(a) == multiset(c) && multiset(b) == multiset(d) + e;
      } else {
        assert multiset(b) == multiset(d);
      }
    }
  }

  lemma {:induction false} BucketMore(counts: seq<nat>, n: nat, h: nat)
    requires 0 < n <= |counts|
    ensures multiset(Bucket(counts, n, h)) == multiset(Bucket(counts, n - 1, h))
      + if Height(counts[n - 1]) == h then multiset{Elt(counts[n - 1], n - 1)} else multiset{}
    ensures |Bucket(counts, n, h)| == |Bucket(counts, n - 1, h)| + if Height(counts[n - 1]) == h then 1 else 0
  {
    hide Height, InsertDown;
    InsertCounts(Bucket(counts, n - 1, h), Elt(counts[n - 1], n - 1));
  }

  /** The list holds every symbol once, with its count. */
  lemma {:induction false} AllGiven(counts: seq<nat>, n: nat)
    requires n <= |counts| && Small(counts)
    ensures multiset(All(counts, n, 0)) == multiset(Given(counts, n))
  {
    hide Height, All;
    if n == 0 {
      AllNone(counts, 0);
      assert Given(counts, 0) == [];
    } else {
      AllGiven(counts, n - 1);
      AllMore(counts, n, 0);
      assert Given(counts, n) == Given(counts, n - 1) + [Elt(counts[n - 1], n - 1)];
    }
  }

  lemma {:induction false} AllNone(counts: seq<nat>, h: nat)
    ensures All(counts, 0, h) == []
    decreases TOP - h
  {
    if h < TOP { AllNone(counts, h + 1); }
  }

  // ---------- the ranks ----------

  ghost function BucketSize(counts: seq<nat>, n: nat, h: nat): nat
    requires n <= |counts|
  {
    |Bucket(counts, n, h)|
  }

  /** How many come before bucket `h`. */
  ghost function Base(counts: seq<nat>, h: nat): nat { |All(counts, |counts|, h)| }

  lemma {:induction false} BaseStep(counts: seq<nat>, h: nat)
    ensures h < TOP ==> Base(counts, h) == Base(counts, h + 1) + BucketSize(counts, |counts|, h)
    ensures h >= TOP ==> Base(counts, h) == 0
  {
  }

  lemma {:induction false} BaseMono(counts: seq<nat>, g: nat, h: nat)
    requires g <= h
    ensures Base(counts, h) <= Base(counts, g)
    decreases h - g
  {
    if g < h {
      BaseStep(counts, g);
      if g >= TOP { BaseStep(counts, h); } else { BaseMono(counts, g + 1, h); }
    }
  }

  lemma {:induction false} BaseAll(counts: seq<nat>)
    requires Small(counts)
    ensures Base(counts, 0) == |counts|
  {
    hide All;
    AllGiven(counts, |counts|);
    SameSize(All(counts, |counts|, 0), Given(counts, |counts|));
  }

  lemma {:induction false} SameSize(a: seq<Elt>, b: seq<Elt>)
    requires multiset(a) == multiset(b)
    ensures |a| == |b|
  {
    assert |multiset(a)| == |a| && |multiset(b)| == |b|;
  }

  lemma {:induction false} SizeGrows(counts: seq<nat>, n: nat, h: nat)
    requires n <= |counts|
    ensures BucketSize(counts, n, h) <= BucketSize(counts, |counts|, h)
    decreases |counts| - n
  {
    if n < |counts| {
      BucketMore(counts, n + 1, h);
      SizeGrows(counts, n + 1, h);
    }
  }

  /** How many symbols each bucket will get, and where it starts. */
  method RankBases(counts: seq<nat>) returns (base: array<nat>)
    requires Small(counts)
    ensures fresh(base) && base.Length == TOP + 1 && forall h :: 0 <= h <= TOP ==> base[h] == Base(counts, h)
  {
    hide Bucket, All, Height, Small;
    base := new nat[TOP + 1](_ => 0);
    BucketsEmpty(counts);
    for n := 0 to |counts|
      invariant forall h :: 0 <= h < TOP ==> base[h] == BucketSize(counts, n, h)
      invariant base[TOP] == 0
    {
      SmallAt(counts, n);
      forall h | 0 <= h < TOP ensures BucketSize(counts, n + 1, h) == BucketSize(counts, n, h) + if Height(counts[n]) == h then 1 else 0 {
        BucketMore(counts, n + 1, h);
      }
      var r := Height(counts[n]);
      base[r] := base[r] + 1;
    }
    BaseStep(counts, TOP);
    BaseStep(counts, TOP - 1);
    var n := TOP - 1;
    while n > 0
      invariant 0 <= n <= TOP - 1
      invariant forall h :: n <= h <= TOP ==> base[h] == Base(counts, h)
      invariant forall h :: 0 <= h < n ==> base[h] == BucketSize(counts, |counts|, h)
      decreases n
    {
      BaseStep(counts, n - 1);
      base[n - 1] := base[n - 1] + base[n];
      n := n - 1;
    }
  }

  lemma {:induction false} SmallAt(counts: seq<nat>, n: nat)
    requires Small(counts) && n < |counts|
    ensures Height(counts[n]) < TOP
  {
  }

  lemma {:induction false} BucketsEmpty(counts: seq<nat>)
    ensures forall h :: BucketSize(counts, 0, h) == 0
  {
  }

  // ---------- insertion in place ----------

  /** The inner loop: what is rarer moves up by one. */
  method MakeRoom(node: array<Elt>, base: nat, pos0: nat, c: nat) returns (pos: nat)
    requires base <= pos0 < node.Length
    modifies node
    ensures base <= pos <= pos0 && (pos == base || node[pos - 1].count >= c)
    ensures forall i :: 0 <= i < pos || pos0 < i < node.Length ==> node[i] == old(node[i])
    ensures forall i :: pos < i <= pos0 ==> node[i] == old(node[i - 1]) && node[i].count < c
  {
    pos := pos0;
    while pos > base && c > node[pos - 1].count
      invariant base <= pos <= pos0
      invariant forall i :: 0 <= i < pos || pos0 < i < node.Length ==> node[i] == old(node[i])
      invariant forall i :: pos < i <= pos0 ==> node[i] == old(node[i - 1]) && node[i].count < c
    {
      node[pos] := node[pos - 1];
      pos := pos - 1;
    }
  }

  /** Where the insertion goes is determined by the counts around it. */
  lemma {:induction false} InsertIs(l: seq<Elt>, k: nat, e: Elt)
    requires k <= |l| && (k == 0 || l[k - 1].count >= e.count) && forall i :: k <= i < |l| ==> l[i].count < e.count
    ensures InsertDown(l, e) == l[..k] + [e] + l[k..]
  {
    if k < |l| {
      var n := |l| - 1;
      InsertIs(l[..n], k, e);
      assert l[..n][..k] == l[..k] && l[k..] == l[..n][k..] + [l[n]];
    }
  }

  /** The list `l` behind `base` takes `e`. */
  method InsertInto(node: array<Elt>, base: nat, pos0: nat, e: Elt, ghost l: seq<Elt>)
    requires base <= pos0 < node.Length && node[base..pos0] == l
    modifies node
    ensures node[base..pos0 + 1] == InsertDown(l, e)
    ensures forall i :: 0 <= i < node.Length && !(base <= i <= pos0) ==> node[i] == old(node[i])
  {
    hide InsertDown;
    assert forall i :: base <= i < pos0 ==> node[i] == node[base..pos0][i - base] == l[i - base];
    var pos := MakeRoom(node, base, pos0, e.count);
    forall i | pos - base <= i < |l| ensures l[i].count < e.count { assert node[base + i + 1].count < e.count; }
    InsertIs(l, pos - base, e);
    node[pos] := e;
    Spliced(node[..], base, pos, pos0, l, e);
    assert node[..][base..pos0 + 1] == node[base..pos0 + 1];
  }

  lemma {:induction false} Spliced(node: seq<Elt>, base: nat, pos: nat, pos0: nat, l: seq<Elt>, e: Elt)
    requires base <= pos <= pos0 < |node| && |l| == pos0 - base && node[pos] == e
    requires forall i :: base <= i < pos ==> node[i] == l[i - base]
    requires forall i :: pos < i <= pos0 ==> node[i] == l[i - 1 - base]
    ensures node[base..pos0 + 1] == l[..pos - base] + [e] + l[pos - base..]
  {
    var a, r := node[base..pos0 + 1], l[..pos - base] + [e] + l[pos - base..];
    forall i | 0 <= i < |r| ensures a[i] == r[i] {
      assert a[i] == node[base + i];
    }
  }

  // ---------- sorting ----------

  /** The bucket `h` lies in its region. */
  ghost predicate Placed(node: seq<Elt>, counts: seq<nat>, n: nat, h: nat)
    requires n <= |counts|
  {
    && Base(counts, h + 1) + BucketSize(counts, n, h) <= |node|
    && node[Base(counts, h + 1)..Base(counts, h + 1) + BucketSize(counts, n, h)] == Bucket(counts, n, h)
  }

  lemma {:induction false} Room(counts: seq<nat>, n: nat, h: nat)
    requires n <= |counts| && Small(counts) && h < TOP
    ensures Base(counts, h + 1) + BucketSize(counts, n, h) <= Base(counts, h) <= |counts|
  {
    hide All, Bucket, Height;
    SizeGrows(counts, n, h);
    BaseStep(counts, h);
    BaseMono(counts, 0, h);
    BaseAll(counts);
  }

  lemma {:induction false} NothingPlaced(node: seq<Elt>, counts: seq<nat>)
    requires |node| == |counts| && Small(counts)
    ensures forall h :: 0 <= h < TOP ==> Placed(node, counts, 0, h) && BucketSize(counts, 0, h) == 0
  {
    forall h | 0 <= h < TOP ensures Placed(node, counts, 0, h) && BucketSize(counts, 0, h) == 0 { Room(counts, 0, h); }
  }

  /** Where the next symbol of bucket `h` goes. */
  lemma {:induction false} PlaceFacts(node: seq<Elt>, counts: seq<nat>, n: nat, h: nat)
    requires n < |counts| == |node| && Small(counts) && h < TOP && Height(counts[n]) == h && Placed(node, counts, n, h)
    ensures var pos := Base(counts, h + 1) + BucketSize(counts, n, h);
      pos < |node| && node[Base(counts, h + 1)..pos] == Bucket(counts, n, h)
  {
    hide All, Bucket, Height, Base;
    BucketMore(counts, n + 1, h);
    Room(counts, n + 1, h);
  }

  lemma {:induction false} SliceKept(before: seq<Elt>, after: seq<Elt>, a: nat, b: nat, lo: nat, hi: nat)
    requires |before| == |after| && a <= b <= |after| && (b <= lo || hi < a)
    requires forall i :: 0 <= i < |after| && !(lo <= i <= hi) ==> after[i] == before[i]
    ensures after[a..b] == before[a..b]
  {
  }

  /** The region of `h` does not meet that of another bucket. */
  lemma {:induction false} RegionsApart(counts: seq<nat>, n: nat, h: nat, r: nat)
    requires n < |counts| && Small(counts) && h < TOP && r < TOP && h != r && Height(counts[n]) == r
    ensures Base(counts, h + 1) + BucketSize(counts, n, h) <= Base(counts, r + 1) || Base(counts, r + 1) + BucketSize(counts, n, r) < Base(counts, h + 1)
    ensures Base(counts, h + 1) + BucketSize(counts, n, h) <= |counts|
  {
    hide All, Bucket, Height, Base, Small;
    BucketMore(counts, n + 1, r);
    Room(counts, n + 1, r);
    Room(counts, n, h);
    if h < r { BaseMono(counts, h + 1, r); } else { BaseMono(counts, r + 1, h); }
  }

  /** Inserting into one bucket leaves the others where they are. */
  lemma {:induction false} PlacedMore(before: seq<Elt>, after: seq<Elt>, counts: seq<nat>, n: nat, h: nat)
    requires n < |counts| == |before| == |after| && Small(counts) && h < TOP && Height(counts[n]) < TOP && Placed(before, counts, n, h)
    requires var r := Height(counts[n]); var pos := Base(counts, r + 1) + BucketSize(counts, n, r);
      && pos < |after| && after[Base(counts, r + 1)..pos + 1] == InsertDown(Bucket(counts, n, r), Elt(counts[n], n))
      && forall i :: 0 <= i < |after| && !(Base(counts, r + 1) <= i <= pos) ==> after[i] == before[i]
    ensures Placed(after, counts, n + 1, h)
    ensures BucketSize(counts, n + 1, h) == BucketSize(counts, n, h) + if h == Height(counts[n]) then 1 else 0
  {
    BucketIs(counts, n, h);
    hide All, Bucket, Height, Base, InsertDown, Small;
    var r := Height(counts[n]);
    BucketMore(counts, n + 1, h);
    if h != r {
      RegionsApart(counts, n, h, r);
      var a, b := Base(counts, h + 1), Base(counts, h + 1) + BucketSize(counts, n, h);
      SliceKept(before, after, a, b, Base(counts, r + 1), Base(counts, r + 1) + BucketSize(counts, n, r));
    }
  }

  lemma {:induction false} BucketIs(counts: seq<nat>, n: nat, h: nat)
    requires n < |counts|
    ensures Bucket(counts, n + 1, h) == if Height(counts[n]) == h then InsertDown(Bucket(counts, n, h), Elt(counts[n], n)) else Bucket(counts, n, h)
  {
  }

  lemma {:induction false} AllPlaced(node: seq<Elt>, counts: seq<nat>, h: nat)
    requires |node| == |counts| && Small(counts) && h <= TOP && forall g :: 0 <= g < TOP ==> Placed(node, counts, |counts|, g)
    ensures Base(counts, h) <= |node| && node[..Base(counts, h)] == All(counts, |counts|, h)
    decreases TOP - h
  {
    if h < TOP {
      AllPlaced(node, counts, h + 1);
      assert Placed(node, counts, |counts|, h);
      BaseStep(counts, h);
      Room(counts, |counts|, h);
      assert node[..Base(counts, h)] == node[..Base(counts, h + 1)] + node[Base(counts, h + 1)..Base(counts, h)];
    }
  }

  ghost predicate PlacedAll(node: seq<Elt>, counts: seq<nat>, n: nat)
    requires n <= |counts|
  {
    forall h :: 0 <= h < TOP ==> Placed(node, counts, n, h)
  }

  /** Where each bucket ends so far. */
  ghost predicate Currents(current: seq<nat>, counts: seq<nat>, n: nat)
    requires n <= |counts|
  {
    |current| == TOP + 1 && forall r :: 1 <= r <= TOP ==> current[r] == Base(counts, r) + BucketSize(counts, n, r - 1)
  }

  lemma {:induction false} PlacedEvery(before: seq<Elt>, after: seq<Elt>, counts: seq<nat>, n: nat, current: seq<nat>)
    requires n < |counts| == |before| == |after| && Small(counts) && Height(counts[n]) < TOP && PlacedAll(before, counts, n) && Currents(current, counts, n)
    requires var r := Height(counts[n]); var pos := Base(counts, r + 1) + BucketSize(counts, n, r);
      && pos < |after| && after[Base(counts, r + 1)..pos + 1] == InsertDown(Bucket(counts, n, r), Elt(counts[n], n))
      && forall i :: 0 <= i < |after| && !(Base(counts, r + 1) <= i <= pos) ==> after[i] == before[i]
    ensures PlacedAll(after, counts, n + 1)
    ensures var r := Height(counts[n]) + 1; Currents(current[r := current[r] + 1], counts, n + 1)
  {
    hide All, Bucket, Height, Base, InsertDown, Small, Placed, BucketSize;
    var n1 := n + 1;
    forall h | 0 <= h < TOP ensures Placed(after, counts, n1, h) {
      assert Placed(before, counts, n, h);
      PlacedMore(before, after, counts, n, h);
    }
    var q := Height(counts[n]) + 1;
    var next := current[q := current[q] + 1];
    forall r | 1 <= r <= TOP ensures next[r] == Base(counts, r) + BucketSize(counts, n + 1, r - 1) {
      assert Placed(before, counts, n, r - 1);
      PlacedMore(before, after, counts, n, r - 1);
    }
  }

  /** One symbol into its bucket. */
  method PlaceOne(counts: seq<nat>, n: nat, node: array<Elt>, base: seq<nat>, current: seq<nat>) returns (current': seq<nat>)
    requires n < |counts| == node.Length && Small(counts) && |base| == TOP + 1
    requires forall h :: 0 <= h <= TOP ==> base[h] == Base(counts, h)
    requires Currents(current, counts, n) && PlacedAll(node[..], counts, n)
    modifies node
    ensures Currents(current', counts, n + 1) && PlacedAll(node[..], counts, n + 1)
  {
    hide Bucket, All, Height, Small, Placed, Base, BucketSize;
    var c := counts[n];
    SmallAt(counts, n);
    var r := Height(c) + 1;
    ghost var before := node[..];
    assert Placed(before, counts, n, r - 1);
    PlaceFacts(before, counts, n, r - 1);
    var pos := current[r];
    assert before[base[r]..pos] == node[base[r]..pos];
    InsertInto(node, base[r], pos, Elt(c, n), Bucket(counts, n, r - 1));
    ghost var after := node[..];
    assert after[base[r]..pos + 1] == node[base[r]..pos + 1];
    PlacedEvery(before, after, counts, n, current);
    current' := current[r := pos + 1];
  }

  /** `HUF_sort` */
  method Sort(counts: seq<nat>) returns (node: array<Elt>)
    requires Small(counts)
    ensures fresh(node) && node[..] == All(counts, |counts|, 0)
  {
    hide Bucket, All, Height, Small, Placed, Base, BucketSize;
    var bases := RankBases(counts);
    var base := bases[..];
    var current := base;
    node := new Elt[|counts|](_ => Elt(0, 0));
    NothingPlaced(node[..], counts);
    for n := 0 to |counts|
      invariant Currents(current, counts, n) && PlacedAll(node[..], counts, n)
    {
      current := PlaceOne(counts, n, node, base, current);
    }
    AllPlaced(node[..], counts, 0);
    BaseAll(counts);
    assert node[..] == node[..][..|counts|];
  }
}
