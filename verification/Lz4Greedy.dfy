/** What the LZ4 matcher looks for, said without its table: which positions it tries, which
    earlier position each is compared with, and which sequence a hit becomes. */
module Lz4Greedy {
  import opened Bits
  import opened Lz4Format

  /** `LZ4_hashPosition`: a multiplicative hash of four bytes. */
  function Hash(src: seq<byte>, p: nat, log: nat): (h: nat)
    requires p + 4 <= |src| && log <= 32
    ensures h < Pow2(log)
  {
    var v := Mask(LittleEndian(src[p..p + 4]) * 2654435761, 32);
    MaskShr(LittleEndian(src[p..p + 4]) * 2654435761, 32);
    ShrBelow(v, 32 - log, log);
    Shr(v, 32 - log)
  }

  /** Four bytes as a number, times a constant, in 32 bits: the highest `log` bits of the product. */
  lemma {:induction false} HashIs(src: seq<byte>, p: nat, log: nat)
    requires p + 4 <= |src| && log <= 32
    ensures var a: nat, b: nat, c: nat, d: nat := src[p], src[p + 1], src[p + 2], src[p + 3];
      Hash(src, p, log) == (a + 256 * b + 65536 * c + 16777216 * d) * 0x9E3779B1 % Pow2(32) / Pow2(32 - log)
  {
    hide Pow2, Mask, Shr;
    var s := src[p..p + 4];
    var a: nat, b: nat, c: nat, d: nat := src[p], src[p + 1], src[p + 2], src[p + 3];
    assert s[3..] == [s[3]] && s[2..][1..] == s[3..] && s[1..][1..] == s[2..];
    assert LittleEndian(s[3..]) == d && LittleEndian(s[2..]) == c + 256 * d && LittleEndian(s[1..]) == b + 256 * (c + 256 * d);
    assert LittleEndian(s) == a + 256 * b + 65536 * c + 16777216 * d;
    var x: nat := LittleEndian(s) * 0x9E3779B1;
    LowBits(x, 32);
    HighBits(Mask(x, 32), 32 - log);
  }

  lemma {:induction false} LowBits(x: nat, n: nat)
    ensures Mask(x, n) == x % Pow2(n)
  {
    hide Pow2, Mask, Shr;
    MaskShr(x, n);
    ShlMul(Shr(x, n), n);
    DivModUnique(x, Pow2(n), Shr(x, n), Mask(x, n));
  }

  lemma {:induction false} HighBits(x: nat, n: nat)
    ensures Shr(x, n) == x / Pow2(n)
  {
    hide Pow2, Mask, Shr;
    MaskShr(x, n);
    ShlMul(Shr(x, n), n);
    DivModUnique(x, Pow2(n), Shr(x, n), Mask(x, n));
  }

  /** The bytes from `p` up to `e` repeat those `d` back. */
  ghost predicate Same(src: seq<byte>, p: nat, d: nat, e: nat) {
    d <= p && e <= |src| && forall j :: p <= j < e ==> src[j] == src[j - d]
  }

  // ---------- candidates ----------

  ghost predicate Recordable(src: seq<byte>, puts: seq<nat>) { forall i :: 0 <= i < |puts| ==> puts[i] + MFLIMIT <= |src| }

  /** Of the positions recorded, the latest with hash `h`, or zero. */
  ghost function Latest(src: seq<byte>, log: nat, puts: seq<nat>, h: nat): nat
    requires log <= 32 && Recordable(src, puts)
  {
    if puts == [] then 0
    else if Hash(src, puts[|puts| - 1], log) == h then puts[|puts| - 1]
    else Latest(src, log, puts[..|puts| - 1], h)
  }

  /** The position that `p` is compared with. */
  ghost function Candidate(src: seq<byte>, log: nat, puts: seq<nat>, p: nat): nat
    requires log <= 32 && Recordable(src, puts) && p + 4 <= |src|
  {
    Latest(src, log, puts, Hash(src, p, log))
  }

  /** It is near enough, and four bytes agree. */
  ghost predicate Hit(src: seq<byte>, log: nat, puts: seq<nat>, p: nat)
    requires log <= 32 && Recordable(src, puts) && p + 4 <= |src|
  {
    var ref := Candidate(src, log, puts, p);
    ref < p <= ref + MAX_DISTANCE && Same(src, p, p - ref, p + MINMATCH)
  }

  // ---------- one search ----------

  /** How far the probe after number `k` is: one byte for the first 61, then one more for every 64. */
  ghost function Distance(k: nat): nat { if k < 61 then 1 else 2 + (k - 61) / 64 }

  ghost function ProbeAt(start: nat, k: nat): nat {
    if k == 0 then start else ProbeAt(start, k - 1) + Distance(k - 1)
  }

  ghost function Probes(start: nat, k: nat): (r: seq<nat>)
    ensures |r| == k
  {
    if k == 0 then [] else Probes(start, k - 1) + [ProbeAt(start, k - 1)]
  }

  /** Each probe is recorded, too; the first `k` find nothing, and the next one is in range. */
  ghost predicate Misses(src: seq<byte>, log: nat, puts: seq<nat>, start: nat, k: nat)
    requires log <= 32
  {
    forall j :: 0 <= j < k ==> Missed(src, log, puts + Probes(start, j), ProbeAt(start, j), ProbeAt(start, j + 1))
  }

  ghost predicate Missed(src: seq<byte>, log: nat, puts: seq<nat>, p: nat, next: nat)
    requires log <= 32
  {
    next + MFLIMIT <= |src| && p < next && Recordable(src, puts) && !Hit(src, log, puts, p)
  }

  ghost predicate FindsAt(src: seq<byte>, log: nat, puts: seq<nat>, start: nat, k: nat)
    requires log <= 32
  {
    && Misses(src, log, puts, start, k) && ProbeAt(start, k) < ProbeAt(start, k + 1) && ProbeAt(start, k + 1) + MFLIMIT <= |src|
    && Recordable(src, puts + Probes(start, k)) && Hit(src, log, puts + Probes(start, k), ProbeAt(start, k))
  }

  /** Every probe misses until the next one would be too near to the end. */
  ghost predicate FindsNone(src: seq<byte>, log: nat, puts: seq<nat>, start: nat)
    requires log <= 32
  {
    exists k: nat :: Misses(src, log, puts, start, k) && ProbeAt(start, k + 1) + MFLIMIT > |src|
  }

  // ---------- one sequence ----------

  /** What has been recorded when the search from `anchor + 1` begins. */
  ghost function Primed(puts: seq<nat>, anchor: nat): seq<nat> {
    if anchor < 2 then [0] else puts + [anchor - 2, anchor]
  }

  /** The match follows the one before without literals. */
  ghost predicate Immediate(src: seq<byte>, log: nat, anchor: nat, puts: seq<nat>)
    requires log <= 32 && Recordable(src, puts) && anchor + MFLIMIT <= |src|
  {
    anchor >= 2 && Hit(src, log, puts + [anchor - 2], anchor)
  }

  /** A search from `start` hits first at `q`, against `ref`. */
  ghost predicate LandsFrom(src: seq<byte>, log: nat, start: nat, puts: seq<nat>, q: nat, ref: nat, puts2: seq<nat>)
    requires log <= 32
  {
    exists k: nat :: LandsBy(src, log, start, puts, k, q, ref, puts2)
  }

  ghost predicate LandsBy(src: seq<byte>, log: nat, start: nat, puts: seq<nat>, k: nat, q: nat, ref: nat, puts2: seq<nat>)
    requires log <= 32
  {
    && FindsAt(src, log, puts, start, k) && q == ProbeAt(start, k)
    && ref == Candidate(src, log, puts + Probes(start, k), q) && puts2 == puts + Probes(start, k + 1)
  }

  /** After `anchor`, the first hit is at `q`, against `ref`. */
  ghost predicate Lands(src: seq<byte>, log: nat, anchor: nat, puts: seq<nat>, q: nat, ref: nat, puts2: seq<nat>)
    requires log <= 32 && Recordable(src, puts) && anchor + MFLIMIT <= |src|
  {
    if Immediate(src, log, anchor, puts) then
      q == anchor && ref == Candidate(src, log, puts + [anchor - 2], anchor) && puts2 == Primed(puts, anchor)
    else LandsFrom(src, log, anchor + 1, Primed(puts, anchor), q, ref, puts2)
  }

  /** Around `q`, the widest run at distance `d` goes from `p` to `e`: backwards over the literals,
      forwards up to the last five bytes. */
  ghost predicate Widest(src: seq<byte>, anchor: nat, q: nat, d: nat, p: nat, e: nat) {
    && 1 <= d <= p && anchor <= p <= q && q + MINMATCH <= e && e + LASTLITERALS <= |src| && Same(src, p, d, e)
    && (p == anchor || p == d || src[p - 1] != src[p - 1 - d])
    && (e + LASTLITERALS == |src| || src[e] != src[e - d])
  }

  ghost predicate Extends(src: seq<byte>, anchor: nat, q: nat, d: nat, s: Sequence) {
    exists p: nat, e: nat :: ExtendsTo(src, anchor, q, d, p, e, s)
  }

  ghost predicate ExtendsTo(src: seq<byte>, anchor: nat, q: nat, d: nat, p: nat, e: nat, s: Sequence) {
    Widest(src, anchor, q, d, p, e) && s == Sequence(src[anchor..p], d, e - p)
  }

  /** Behind `anchor`, the matcher takes `s`. */
  ghost predicate Takes(src: seq<byte>, log: nat, anchor: nat, puts: seq<nat>, s: Sequence, puts2: seq<nat>)
    requires log <= 32
  {
    && Recordable(src, puts) && anchor + MFLIMIT <= |src|
    && exists q: nat, ref: nat :: Lands(src, log, anchor, puts, q, ref, puts2) && ref < q && Extends(src, anchor, q, q - ref, s)
  }

  // ---------- the whole input ----------

  /** These sequences are taken one after the other. */
  ghost predicate Run(src: seq<byte>, log: nat, seqs: seq<Sequence>, puts: seq<nat>)
    requires log <= 32
    decreases |seqs|
  {
    if seqs == [] then puts == []
    else
      var front := seqs[..|seqs| - 1];
      exists before: seq<nat> :: Run(src, log, front, before) && Takes(src, log, TextLength(front), before, seqs[|seqs| - 1], puts)
  }

  /** Behind `anchor` there is no further hit. */
  ghost predicate Barren(src: seq<byte>, log: nat, anchor: nat, puts: seq<nat>)
    requires log <= 32
  {
    anchor + MFLIMIT <= |src| ==>
      Recordable(src, puts) && !Immediate(src, log, anchor, puts) && FindsNone(src, log, Primed(puts, anchor), anchor + 1)
  }

  /** The sequences of an input: every first hit is taken, as wide as it goes, and behind the last
      one there is none. */
  ghost predicate Greedy(src: seq<byte>, log: nat, seqs: seq<Sequence>)
    requires log <= 32
  {
    if |src| < MINLENGTH then seqs == []
    else exists puts: seq<nat> :: Run(src, log, seqs, puts) && Barren(src, log, TextLength(seqs), puts)
  }

  // ---------- there is only one such list ----------

  lemma {:induction false} ProbesRise(start: nat, i: nat, k: nat)
    requires i <= k
    ensures ProbeAt(start, i) <= ProbeAt(start, k)
  {
    if i < k { ProbesRise(start, i, k - 1); }
  }

  lemma {:induction false} NotFoundBefore(src: seq<byte>, log: nat, puts: seq<nat>, start: nat, n: nat, k: nat)
    requires log <= 32 && Misses(src, log, puts, start, n) && k < n
    ensures !FindsAt(src, log, puts, start, k)
  {
    hide Hit, Recordable, ProbeAt;
    assert Missed(src, log, puts + Probes(start, k), ProbeAt(start, k), ProbeAt(start, k + 1));
  }

  lemma {:induction false} FindsOnce(src: seq<byte>, log: nat, puts: seq<nat>, start: nat, i: nat, k: nat)
    requires log <= 32 && FindsAt(src, log, puts, start, i) && FindsAt(src, log, puts, start, k)
    ensures i == k
  {
    if i < k { NotFoundBefore(src, log, puts, start, k, i); }
    if k < i { NotFoundBefore(src, log, puts, start, i, k); }
  }

  lemma {:induction false} FindsOrNot(src: seq<byte>, log: nat, puts: seq<nat>, start: nat, k: nat)
    requires log <= 32 && FindsAt(src, log, puts, start, k)
    ensures !FindsNone(src, log, puts, start)
  {
    hide Hit, Recordable, ProbeAt;
    forall i: nat | Misses(src, log, puts, start, i) ensures ProbeAt(start, i + 1) + MFLIMIT <= |src| {
      if k < i { NotFoundBefore(src, log, puts, start, i, k); } else { ProbesRise(start, i + 1, k + 1); }
    }
  }

  lemma {:induction false} LandsOnce(src: seq<byte>, log: nat, anchor: nat, puts: seq<nat>, q: nat, ref: nat, puts2: seq<nat>, r: nat, ref2: nat, puts3: seq<nat>)
    requires log <= 32 && Recordable(src, puts) && anchor + MFLIMIT <= |src|
    requires Lands(src, log, anchor, puts, q, ref, puts2) && Lands(src, log, anchor, puts, r, ref2, puts3)
    ensures q == r && ref == ref2 && puts2 == puts3
  {
    hide FindsAt, Immediate, Recordable, Candidate, ProbeAt, Probes;
    if !Immediate(src, log, anchor, puts) {
      var start, known := anchor + 1, Primed(puts, anchor);
      var i: nat :| LandsBy(src, log, start, known, i, q, ref, puts2);
      var k: nat :| LandsBy(src, log, start, known, k, r, ref2, puts3);
      FindsOnce(src, log, known, start, i, k);
    }
  }

  lemma {:induction false} WidestOnce(src: seq<byte>, anchor: nat, q: nat, d: nat, p: nat, e: nat, p2: nat, e2: nat)
    requires Widest(src, anchor, q, d, p, e) && Widest(src, anchor, q, d, p2, e2)
    ensures p == p2 && e == e2
  {
  }

  lemma {:induction false} TakesOnce(src: seq<byte>, log: nat, anchor: nat, puts: seq<nat>, s: Sequence, puts2: seq<nat>, t: Sequence, puts3: seq<nat>)
    requires log <= 32 && Takes(src, log, anchor, puts, s, puts2) && Takes(src, log, anchor, puts, t, puts3)
    ensures s == t && puts2 == puts3
  {
    hide Lands, Widest, Recordable;
    var q: nat, ref: nat :| Lands(src, log, anchor, puts, q, ref, puts2) && ref < q && Extends(src, anchor, q, q - ref, s);
    var r: nat, ref2: nat :| Lands(src, log, anchor, puts, r, ref2, puts3) && ref2 < r && Extends(src, anchor, r, r - ref2, t);
    LandsOnce(src, log, anchor, puts, q, ref, puts2, r, ref2, puts3);
    var d := q - ref;
    var p: nat, e: nat :| ExtendsTo(src, anchor, q, d, p, e, s);
    var p2: nat, e2: nat :| ExtendsTo(src, anchor, q, d, p2, e2, t);
    WidestOnce(src, anchor, q, d, p, e, p2, e2);
  }

  lemma {:induction false} TakesOrNot(src: seq<byte>, log: nat, anchor: nat, puts: seq<nat>, s: Sequence, puts2: seq<nat>)
    requires log <= 32 && Takes(src, log, anchor, puts, s, puts2)
    ensures !Barren(src, log, anchor, puts)
  {
    hide FindsAt, FindsNone, Immediate, Recordable, Candidate, ProbeAt, Probes, Primed, Extends;
    var q: nat, ref: nat :| Lands(src, log, anchor, puts, q, ref, puts2);
    if !Immediate(src, log, anchor, puts) {
      var start, known := anchor + 1, Primed(puts, anchor);
      var k: nat :| LandsBy(src, log, start, known, k, q, ref, puts2);
      FindsOrNot(src, log, known, start, k);
    }
  }

  /** The shorter of two lists is the beginning of the other. */
  lemma {:induction false} RunsAgree(src: seq<byte>, log: nat, a: seq<Sequence>, puts: seq<nat>, b: seq<Sequence>, puts2: seq<nat>)
    requires log <= 32 && Run(src, log, a, puts) && Run(src, log, b, puts2) && |a| <= |b|
    ensures a == b[..|a|] && (|a| == |b| ==> puts == puts2)
    ensures |a| < |b| ==> !Barren(src, log, TextLength(a), puts)
    decreases |b|
  {
    hide Takes, Barren;
    if b != [] {
      var n := |b| - 1;
      var y: seq<nat> :| Run(src, log, b[..n], y) && Takes(src, log, TextLength(b[..n]), y, b[n], puts2);
      if |a| == |b| {
        var x: seq<nat> :| Run(src, log, a[..n], x) && Takes(src, log, TextLength(a[..n]), x, a[n], puts);
        RunsAgree(src, log, a[..n], x, b[..n], y);
        assert a[..n] == b[..n][..n] == b[..n];
        TakesOnce(src, log, TextLength(b[..n]), y, a[n], puts, b[n], puts2);
        assert a == a[..n] + [a[n]] && b == b[..n] + [b[n]];
      } else {
        RunsAgree(src, log, a, puts, b[..n], y);
        assert b[..n][..|a|] == b[..|a|];
        if |a| == n { TakesOrNot(src, log, TextLength(b[..n]), y, b[n], puts2); }
      }
    }
  }

  /** So an input determines the sequences. */
  lemma {:induction false} GreedyUnique(src: seq<byte>, log: nat, a: seq<Sequence>, b: seq<Sequence>)
    requires log <= 32 && Greedy(src, log, a) && Greedy(src, log, b)
    ensures a == b
  {
    hide Run, Barren;
    if |src| >= MINLENGTH {
      var x: seq<nat> :| Run(src, log, a, x) && Barren(src, log, TextLength(a), x);
      var y: seq<nat> :| Run(src, log, b, y) && Barren(src, log, TextLength(b), y);
      if |a| <= |b| { RunsAgree(src, log, a, x, b, y); } else { RunsAgree(src, log, b, y, a, x); }
      assert a[..|a|] == a && b[..|b|] == b;
    }
  }
}
