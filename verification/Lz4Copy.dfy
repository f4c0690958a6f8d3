/** The word copies of LZ4: eight bytes at a time, past the end of what is wanted, and for
    short distances through a start that widens the distance first. */
module Lz4Copy {
  import opened Bits
  import opened Lz4Format

  /** One eight-byte step from another buffer: `LZ4_COPYSTEP`. */
  method CopyStep(dst: array<byte>, d: nat, src: seq<byte>, s: nat)
    requires d + 8 <= dst.Length && s + 8 <= |src|
    modifies dst
    ensures dst[..d] == old(dst[..d])
    ensures dst[d..d + 8] == src[s..s + 8]
  {
    for i := 0 to 8
      invariant dst[..d] == old(dst[..d])
      invariant dst[d..d + i] == src[s..s + i]
    {
      dst[d + i] := src[s + i];
      assert dst[d..d + i + 1] == dst[d..d + i] + [src[s + i]];
    }
  }

  /** `LZ4_WILDCOPY` from another buffer: the bytes up to `e` are right, up to seven more
      are overwritten. */
  method WildCopy(dst: array<byte>, d0: nat, src: seq<byte>, s0: nat, e: nat)
    requires d0 <= e && e + 8 <= dst.Length && s0 + (e - d0) + 8 <= |src|
    modifies dst
    ensures dst[..d0] == old(dst[..d0])
    ensures dst[d0..e] == src[s0..s0 + (e - d0)]
  {
    var d, s := d0, s0;
    CopyStep(dst, d, src, s);
    d, s := d + 8, s + 8;
    while d < e
      invariant d0 < d <= e + 8 && s - s0 == d - d0
      invariant dst[..d0] == old(dst[..d0])
      invariant dst[d0..d] == src[s0..s]
    {
      ghost var before := dst[..d];
      CopyStep(dst, d, src, s);
      assert dst[d0..d + 8] == before[d0..] + dst[d..d + 8];
      assert src[s0..s + 8] == src[s0..s] + src[s..s + 8];
      assert dst[..d0] == before[..d0];
      d, s := d + 8, s + 8;
    }
    SameStart(dst[..], d0, d, src, s0, s, e - d0);
  }

  lemma {:induction false} SameStart(t: seq<byte>, d0: nat, d: nat, src: seq<byte>, s0: nat, s: nat, n: nat)
    requires d0 + n <= d <= |t| && s0 + n <= s <= |src| && t[d0..d] == src[s0..s]
    ensures t[d0..d0 + n] == src[s0..s0 + n]
  {
    assert t[d0..d0 + n] == t[d0..d][..n] && src[s0..s0 + n] == src[s0..s][..n];
  }

  // ---------- copies inside one buffer ----------

  /** The text up to `e` repeats itself `d` back from `n` on; said only of real distances,
      since a distance of zero copies bytes onto themselves. */
  ghost predicate Spread(t: seq<byte>, n: nat, d: nat, e: nat) {
    n <= e <= |t| && d <= n && (d >= 1 ==> forall i :: n <= i < e ==> t[i] == t[i - d])
  }

  /** A text that repeats itself `d` back also repeats itself `k * d` back, as long as that
      does not leave the first period. */
  lemma {:induction false} SpreadMultiple(t: seq<byte>, n: nat, d: nat, e: nat, k: nat, i: nat)
    requires d >= 1 && Spread(t, n, d, e) && n <= i < e && i - k * d >= n - d
    ensures 0 <= i - k * d <= i && t[i] == t[i - k * d]
    decreases k
  {
    if k != 0 {
      Peel(k, d);
      SpreadMultiple(t, n, d, e, k - 1, i);
      assert t[i - (k - 1) * d] == t[i - (k - 1) * d - d];
    }
  }

  lemma {:induction false} Peel(k: nat, d: nat)
    requires k >= 1
    ensures k * d == (k - 1) * d + d && (k - 1) * d >= 0
  {
  }

  /** Copying a word from a multiple of the distance back, at least a word away, continues
      the repetition. */
  lemma {:induction false} SpreadWord(before: seq<byte>, after: seq<byte>, n: nat, d: nat, p: nat, k: nat, w: nat)
    requires d >= 1 && k >= 1 && Spread(before, n, d, p) && |after| == |before|
    requires w <= k * d <= p && p + w <= |after| && p - k * d >= n - d
    requires after[..p] == before[..p] && after[p..p + w] == before[p - k * d..p - k * d + w]
    ensures Spread(after, n, d, p + w)
  {
    forall i | n <= i < p ensures after[i] == after[i - d] {
      assert after[i] == after[..p][i] && after[i - d] == after[..p][i - d];
      assert before[i] == before[..p][i] && before[i - d] == before[..p][i - d];
    }
    SpreadTail(before, after, n, d, p, k, w, 0);
  }

  lemma {:induction false} SpreadTail(before: seq<byte>, after: seq<byte>, n: nat, d: nat, p: nat, k: nat, w: nat, j: nat)
    requires d >= 1 && k >= 1 && n <= p && d <= n && |after| == |before| && j <= w
    requires w <= k * d <= p && p + w <= |after| && p - k * d >= n - d
    requires after[..p] == before[..p] && after[p..p + w] == before[p - k * d..p - k * d + w]
    requires Spread(after, n, d, p + j)
    ensures Spread(after, n, d, p + w)
    decreases w - j
  {
    if j < w {
      var i := p + j;
      assert after[i] == after[p..p + w][j] == before[p - k * d..p - k * d + w][j] == before[i - k * d];
      assert before[i - k * d] == before[..p][i - k * d] == after[..p][i - k * d] == after[i - k * d];
      Peel(k, d);
      if k >= 2 {
        Peel(k - 1, d);
        SpreadMultiple(after, n, d, p + j, k - 1, i - d);
      }
      SpreadTail(before, after, n, d, p, k, w, j + 1);
    }
  }

  /** A word copy inside the buffer: the word is read before it is written. */
  method CopyWord(dst: array<byte>, p: nat, r: nat, w: nat)
    requires p + w <= dst.Length && r + w <= dst.Length
    modifies dst
    ensures dst[..p] == old(dst[..p])
    ensures dst[p..p + w] == old(dst[r..r + w])
  {
    var word := dst[r..r + w];
    for i := 0 to w
      invariant dst[..p] == old(dst[..p])
      invariant dst[p..p + i] == word[..i]
    {
      dst[p + i] := word[i];
      assert dst[p..p + i + 1] == dst[p..p + i] + [word[i]];
    }
    assert word[..w] == word;
  }

  /** The same for a distance that is a positive multiple of `d`. */
  method SpreadCopy(dst: array<byte>, p: nat, r: nat, w: nat, ghost n: nat, ghost d: nat, ghost k: nat)
    requires r <= p && p + w <= dst.Length && r + w <= dst.Length && n <= p
    requires Spread(dst[..], n, d, p)
    requires d >= 1 ==> k >= 1 && p - r == k * d && w <= k * d && r >= n - d
    modifies dst
    ensures dst[..n] == old(dst[..n])
    ensures Spread(dst[..], n, d, p + w)
  {
    ghost var before := dst[..];
    CopyWord(dst, p, r, w);
    ghost var after := dst[..];
    assert after[..p] == before[..p] && after[p..p + w] == before[r..r + w];
    if d >= 1 { SpreadWord(before, after, n, d, p, k, w); }
    assert dst[..n] == after[..p][..n] == before[..p][..n];
  }

  // ---------- the match copy of the decoder ----------

  const DEC32: seq<int> := [0, 3, 2, 3, 0, 0, 0, 0]
  const DEC64: seq<int> := [0, 0, 0, -1, 0, 1, 2, 3]

  /** How many periods the widened distances are, after four and after eight bytes. */
  ghost function Periods4(d: nat): nat { if d == 1 then 4 else if d == 2 || d == 3 then 2 else 1 }

  ghost function Periods8(d: nat): nat
  {
    if d == 1 then 8 else if d == 2 then 4 else if d == 3 then 3 else if d < 8 then 2 else 1
  }

  lemma {:induction false} Widened(d: nat)
    requires d < 8
    ensures d >= 1 ==> d + DEC32[d] == Periods4(d) * d && 4 <= d + DEC32[d]
    ensures d >= 1 ==> d + DEC32[d] + 4 + DEC64[d] == Periods8(d) * d && 8 <= d + DEC32[d] + 4 + DEC64[d]
    ensures 0 <= d + DEC32[d] <= 4 + d && 0 <= d + DEC32[d] + 4 + DEC64[d] <= 8 + d
  {
  }

  /** The first eight bytes of a match; afterwards the source lies a whole number of
      periods, and at least eight bytes, back. */
  method CopyStart(dst: array<byte>, op0: nat, ref0: nat) returns (ref: nat)
    requires ref0 <= op0 && op0 + 8 <= dst.Length
    modifies dst
    ensures dst[..op0] == old(dst[..op0])
    ensures ref <= op0 + 8 && ref >= ref0
    ensures var d := op0 - ref0;
            && Spread(dst[..], op0, d, op0 + 8)
            && (d >= 1 ==> op0 + 8 - ref == Periods8(d) * d && op0 + 8 - ref >= 8)
  {
    var d := op0 - ref0;
    if d < 8 {
      ref := CopyClose(dst, op0, ref0);
    } else {
      SpreadCopy(dst, op0, ref0, 8, op0, d, 1);
      ref := ref0 + 8;
    }
  }

  method CopyClose(dst: array<byte>, op0: nat, ref0: nat) returns (ref: nat)
    requires ref0 <= op0 < ref0 + 8 && op0 + 8 <= dst.Length
    modifies dst
    ensures dst[..op0] == old(dst[..op0])
    ensures ref <= op0 + 8 && ref >= ref0
    ensures var d := op0 - ref0;
            && Spread(dst[..], op0, d, op0 + 8)
            && (d >= 1 ==> op0 + 8 - ref == Periods8(d) * d && op0 + 8 - ref >= 8)
  {
    var d := op0 - ref0;
    Widened(d);
    hide DEC32, DEC64, Periods4, Periods8, Spread;
    CopyFour(dst, op0, ref0);
    ref := ref0 + 4 - DEC32[d];
    SpreadCopy(dst, op0 + 4, ref, 4, op0, d, Periods4(d));
    ref := ref - DEC64[d];
  }

  /** Four single bytes, which may each depend on the one before. */
  method CopyFour(dst: array<byte>, op0: nat, ref0: nat)
    requires ref0 <= op0 && op0 + 4 <= dst.Length
    modifies dst
    ensures dst[..op0] == old(dst[..op0])
    ensures Spread(dst[..], op0, op0 - ref0, op0 + 4)
  {
    ghost var d := op0 - ref0;
    for j := 0 to 4
      invariant dst[..op0] == old(dst[..op0])
      invariant Spread(dst[..], op0, d, op0 + j)
    {
      SpreadCopy(dst, op0 + j, ref0 + j, 1, op0, d, 1);
    }
  }

  /** `LZ4_WILDCOPY` inside the buffer. */
  method WildSpread(dst: array<byte>, op0: nat, d: nat, p0: nat, r0: nat, e: nat) returns (p: nat, r: nat)
    requires d <= op0 <= p0 && r0 <= p0 && p0 + 8 <= dst.Length && e + 7 <= dst.Length
    requires Spread(dst[..], op0, d, p0) && r0 >= op0 - d
    requires d >= 1 ==> p0 - r0 == Periods8(d) * d && p0 - r0 >= 8
    modifies dst
    ensures dst[..op0] == old(dst[..op0])
    ensures p >= e && p >= p0 && p <= dst.Length && p - r == p0 - r0 && r >= r0
    ensures Spread(dst[..], op0, d, p)
  {
    hide Spread, Periods8;
    p, r := p0, r0;
    ghost var k := Periods8(d);
    Periods8Positive(d);
    SpreadCopy(dst, p, r, 8, op0, d, k);
    p, r := p + 8, r + 8;
    while p < e
      invariant p0 <= p <= dst.Length && p - r == p0 - r0 && r >= r0
      invariant dst[..op0] == old(dst[..op0])
      invariant Spread(dst[..], op0, d, p)
    {
      SpreadCopy(dst, p, r, 8, op0, d, k);
      p, r := p + 8, r + 8;
    }
  }

  lemma {:induction false} Periods8Positive(d: nat)
    ensures Periods8(d) >= 1
  {
  }

  /** The repeated sequence of the decoder: `length + 4` bytes from `ref0`, refused when
      they would reach into the last five bytes of the buffer. Word copies, wide distances
      and the careful end all come to a byte-at-a-time copy. */
  method CopySequence(dst: array<byte>, op0: nat, ref0: nat, length: nat) returns (ok: bool, op: nat)
    requires ref0 <= op0 && op0 + MFLIMIT <= dst.Length
    modifies dst
    ensures dst[..op0] == old(dst[..op0])
    ensures ok <==> op0 + length + MINMATCH + LASTLITERALS <= dst.Length
    ensures ok ==> op == op0 + length + MINMATCH && Spread(dst[..], op0, op0 - ref0, op)
  {
    hide Periods8;
    ghost var d := op0 - ref0;
    var ref := CopyStart(dst, op0, ref0);
    op := op0 + 8;
    var cpy := op + length - 4;
    var oend := dst.Length;
    if cpy > oend - 12 {
      if cpy > oend - LASTLITERALS { return false, op; }
      if op < oend - COPYLENGTH {
        op, ref := WildSpread(dst, op0, op0 - ref0, op, ref, oend - COPYLENGTH);
      }
      while op < cpy
        invariant op0 + 8 <= op <= oend && ref >= ref0 && ref <= op
        invariant d >= 1 ==> op - ref == Periods8(d) * d && op - ref >= 8
        invariant dst[..op0] == old(dst[..op0])
        invariant Spread(dst[..], op0, d, op)
      {
        Periods8Positive(d);
        SpreadCopy(dst, op, ref, 1, op0, d, Periods8(d));
        op, ref := op + 1, ref + 1;
      }
    } else {
      op, ref := WildSpread(dst, op0, op0 - ref0, op, ref, cpy);
    }
    SpreadShorter(dst[..], op0, d, op, cpy);
    ok, op := true, cpy;
  }

  lemma {:induction false} SpreadShorter(t: seq<byte>, n: nat, d: nat, e: nat, f: nat)
    requires Spread(t, n, d, e) && n <= f <= e
    ensures Spread(t, n, d, f)
  {
  }

  /** What a spread text says about the copied bytes. */
  lemma {:induction false} SpreadIsCopy(t: seq<byte>, n: nat, d: nat, e: nat)
    requires 1 <= d && Spread(t, n, d, e)
    ensures t[..e] == CopyMatch(t[..n], d, e - n)
  {
    assert t[..e][..n] == t[..n];
    assert Repeats(t[..e], n, d);
    CopyMatchUnique(t[..n], d, t[..e]);
  }
}
