/** The table description in front of an FSE block: norms written as a shrinking-range
    prefix code with run lengths for zeros, and read back through a 32-bit window. */
module FseHeader {
  import opened Bits
  import opened FseSpread

  const TABLELOG_ABSOLUTE_MAX := 15

  /** Points still to be shared from symbol `i` on. */
  function TailWeight(norm: seq<int>, i: nat): nat
    requires i <= |norm|
    decreases |norm| - i
  {
    if i == |norm| then 0 else Weight(norm[i]) + TailWeight(norm, i + 1)
  }

  /** Norms that a header can describe: every point of the table is given out. */
  ghost predicate Describable(norm: seq<int>, L: nat) {
    && IsNorm(norm) && MIN_TABLELOG <= L <= MAX_TABLELOG
    && TailWeight(norm, 0) == Pow2(L)
  }

  /** Zeros from `i` on. */
  function ZeroRun(norm: seq<int>, i: nat): (z: nat)
    requires i <= |norm|
    ensures i + z <= |norm|
    ensures forall j :: i <= j < i + z ==> norm[j] == 0
    ensures i + z < |norm| ==> norm[i + z] != 0
    decreases |norm| - i
  {
    if i < |norm| && norm[i] == 0 then 1 + ZeroRun(norm, i + 1) else 0
  }

  // ---------- the code of one count ----------

  /** Codes with one bit fewer than the others. */
  function ShortCodes(remaining: nat): int
    requires remaining > 0
  {
    2 * Pow2(HighBit(remaining)) - 1 - remaining
  }

  /** The code of `count` when `remaining - 1` points are left: count + 1 in
      `0 ..= remaining`, the smallest values in one bit fewer. */
  function Code(count: int, remaining: nat): seq<bool>
    requires remaining > 0 && -1 <= count < remaining
  {
    ShortCodesBound(remaining);
    var h, max, v := HighBit(remaining), ShortCodes(remaining), count + 1;
    if v < max then ToBits(v, h)
    else if v < Pow2(h) then ToBits(v, h + 1)
    else ToBits(v + max, h + 1)
  }

  /** What the reader makes of a window: the count and the bits it took. */
  function ReadCode(window: nat, remaining: nat): (int, nat)
    requires remaining > 0
  {
    var h, max := HighBit(remaining), ShortCodes(remaining);
    var low := Mask(window, h);
    if low < max then (low - 1, h)
    else
      var c := Mask(window, h + 1);
      ((if c >= Pow2(h) then c - max else c) - 1, h + 1)
  }

  lemma {:induction false} ShortCodesBound(remaining: nat)
    requires remaining > 0
    ensures 0 <= ShortCodes(remaining) < Pow2(HighBit(remaining))
    ensures Pow2(HighBit(remaining) + 1) == 2 * Pow2(HighBit(remaining))
  {
  }

  lemma {:induction false} SameLowBits(w: nat, v: nat, n: nat)
    requires ToBits(w, n) == ToBits(v, n)
    ensures Mask(w, n) == Mask(v, n)
  {
    ToBitsToNat(w, n);
    ToBitsToNat(v, n);
  }

  lemma {:induction false} ToBitsPrefix(w: nat, n: nat)
    ensures ToBits(w, n + 1)[..n] == ToBits(w, n)
  {
    ToBitsConcat(w, n, 1);
  }

  /** A window that starts with a code reads it back, whatever follows. */
  lemma {:induction false} ReadCodeInverse(count: int, remaining: nat, window: nat)
    requires remaining > 0 && -1 <= count < remaining
    requires ToBits(window, |Code(count, remaining)|) == Code(count, remaining)
    ensures ReadCode(window, remaining) == (count, |Code(count, remaining)|)
  {
    hide ToBits, Mask, HighBit, Pow2;
    var h, max, v := HighBit(remaining), ShortCodes(remaining), count + 1;
    ShortCodesBound(remaining);
    if v < max {
      SameLowBits(window, v, h);
      MaskSmall(v, h);
    } else {
      var c := if v < Pow2(h) then v else v + max;
      SameLowBits(window, c, h + 1);
      MaskSmall(c, h + 1);
      ToBitsPrefix(window, h);
      ToBitsPrefix(c, h);
      SameLowBits(window, c, h);
      if v < Pow2(h) { MaskSmall(c, h); } else { TopBitOff(c, h); }
    }
  }

  lemma {:induction false} TopBitOff(c: nat, h: nat)
    requires Pow2(h) <= c < 2 * Pow2(h)
    ensures Mask(c, h) == c - Pow2(h)
  {
    ShlMul(1, h);
    ShrUnique(c - Pow2(h), 1, h);
  }

  /** Whatever the window, a count takes at least one point and leaves the end mark. */
  lemma {:induction false} ReadCodeRange(window: nat, remaining: nat)
    requires remaining >= 2
    ensures var (count, len) := ReadCode(window, remaining);
            -1 <= count < remaining && 1 <= len <= HighBit(remaining) + 1
  {
    hide Mask;
    var h := HighBit(remaining);
    ShortCodesBound(remaining);
    MaskShr(window, h);
    MaskShr(window, h + 1);
  }

  // ---------- runs of zeros ----------

  function Ones(n: nat): (b: seq<bool>)
    ensures |b| == n && forall i :: 0 <= i < n ==> b[i]
  {
    seq(n, _ => true)
  }

  /** A run of `z` more zeros: 16 ones for 24, a pair of ones for 3, and a last pair. */
  function RunBits(z: nat): seq<bool> {
    if z >= 24 then Ones(16) + RunBits(z - 24)
    else if z >= 3 then [true, true] + RunBits(z - 3)
    else ToBits(z, 2)
  }

  // ---------- the whole header ----------

  /** The description from symbol `i` on; `afterZero` when symbol `i - 1` was a zero. */
  function Describe(norm: seq<int>, i: nat, afterZero: bool): seq<bool>
    requires i <= |norm| && forall s :: 0 <= s < |norm| ==> norm[s] >= -1
    decreases |norm| - i, 1
  {
    if TailWeight(norm, i) == 0 then []
    else if afterZero then
      NonzeroAhead(norm, i);
      RunBits(ZeroRun(norm, i)) + DescribeAt(norm, i + ZeroRun(norm, i))
    else DescribeAt(norm, i)
  }

  function DescribeAt(norm: seq<int>, i: nat): seq<bool>
    requires i <= |norm| && forall s :: 0 <= s < |norm| ==> norm[s] >= -1
    requires TailWeight(norm, i) != 0
    decreases |norm| - i, 0
  {
    Code(norm[i], TailWeight(norm, i) + 1) + Describe(norm, i + 1, norm[i] == 0)
  }

  lemma {:induction false} NonzeroAhead(norm: seq<int>, i: nat)
    requires i <= |norm| && TailWeight(norm, i) != 0
    ensures i + ZeroRun(norm, i) < |norm|
    ensures TailWeight(norm, i + ZeroRun(norm, i)) == TailWeight(norm, i)
    decreases |norm| - i
  {
    if norm[i] == 0 { NonzeroAhead(norm, i + 1); }
  }

  function HeaderBits(norm: seq<int>, L: nat): seq<bool>
    requires IsNorm(norm) && L >= MIN_TABLELOG
  {
    ToBits(L - MIN_TABLELOG, 4) + Describe(norm, 0, false)
  }

  /** Bytes taken by `n` bits. */
  function BytesFor(n: nat): nat { (n + 7) / 8 }

  /** Symbols up to the last one with a nonzero norm: what a header records. */
  function Recorded(norm: seq<int>): (r: nat)
    ensures r <= |norm|
  {
    if norm == [] then 0
    else if norm[|norm| - 1] != 0 then |norm|
    else Recorded(norm[..|norm| - 1])
  }

  // ---------- norms of any total ----------

  /** How a description ends: with every point given out, at a symbol that wants more points than
      are left, or behind the last norm. */
  datatype Ending = Finished | TooMany | TooFew

  datatype Course = Course(bits: seq<bool>, ending: Ending)

  function Before(b: seq<bool>, c: Course): Course { Course(b + c.bits, c.ending) }

  /** What is sent from symbol `i` on while `points` are left; `afterZero` as in `Describe`. */
  function Rest(norm: seq<int>, i: nat, afterZero: bool, points: nat): Course
    requires i <= |norm| && forall s :: 0 <= s < |norm| ==> norm[s] >= -1
    decreases |norm| - i, 1
  {
    if points == 0 then Course([], Finished)
    else if !afterZero then RestAt(norm, i, points)
    else
      var z := ZeroRun(norm, i);
      if i + z == |norm| then Course([], TooFew) else Before(RunBits(z), RestAt(norm, i + z, points))
  }

  function RestAt(norm: seq<int>, i: nat, points: nat): Course
    requires i <= |norm| && points > 0 && forall s :: 0 <= s < |norm| ==> norm[s] >= -1
    decreases |norm| - i, 0
  {
    if i == |norm| then Course([], TooFew)
    else if Weight(norm[i]) > points then Course([], TooMany)
    else Before(Code(norm[i], points + 1), Rest(norm, i + 1, norm[i] == 0, points - Weight(norm[i])))
  }

  /** What a writer makes of any norms. */
  function HeaderCourse(norm: seq<int>, L: nat): Course
    requires IsNorm(norm) && L >= MIN_TABLELOG
  {
    Before(ToBits(L - MIN_TABLELOG, 4), Rest(norm, 0, false, Pow2(L)))
  }

  /** Points of the symbols before `i`. */
  function HeadWeight(norm: seq<int>, i: nat): nat
    requires i <= |norm|
  {
    if i == 0 then 0 else HeadWeight(norm, i - 1) + Weight(norm[i - 1])
  }

  lemma {:induction false} HeadMono(norm: seq<int>, i: nat, k: nat)
    requires i <= k <= |norm|
    ensures HeadWeight(norm, i) <= HeadWeight(norm, k)
  {
    if i < k { HeadMono(norm, i, k - 1); }
  }

  lemma {:induction false} HeadSkips(norm: seq<int>, i: nat, k: nat)
    requires i <= k <= |norm| && forall j :: i <= j < k ==> norm[j] == 0
    ensures HeadWeight(norm, i) == HeadWeight(norm, k) && TailWeight(norm, i) == TailWeight(norm, k)
  {
    if i < k { HeadSkips(norm, i, k - 1); }
  }

  lemma {:induction false} RestEnds(norm: seq<int>, i: nat, afterZero: bool, points: nat)
    requires i <= |norm| && forall s :: 0 <= s < |norm| ==> norm[s] >= -1
    ensures var e := Rest(norm, i, afterZero, points).ending;
      && (e == TooFew <==> TailWeight(norm, i) < points)
      && (e == Finished <==> exists k :: i <= k <= |norm| && HeadWeight(norm, k) == HeadWeight(norm, i) + points)
    decreases |norm| - i
  {
    hide RunBits, Code;
    var a := if afterZero then i + ZeroRun(norm, i) else i;
    if points == 0 {
      assert HeadWeight(norm, i) == HeadWeight(norm, i) + points;
    } else {
      HeadSkips(norm, i, a);
      if a == |norm| {
        forall k | i <= k <= |norm| ensures HeadWeight(norm, k) <= HeadWeight(norm, i) { HeadMono(norm, k, a); }
      } else {
        forall k | i <= k <= |norm| ensures k <= a ==> HeadWeight(norm, k) <= HeadWeight(norm, i)
          ensures k > a ==> HeadWeight(norm, k) >= HeadWeight(norm, i) + Weight(norm[a])
        {
          if k <= a { HeadMono(norm, k, a); } else { HeadMono(norm, a + 1, k); }
        }
        if Weight(norm[a]) <= points { RestEnds(norm, a + 1, norm[a] == 0, points - Weight(norm[a])); }
      }
    }
  }

  /** The writer runs out of norms exactly for a total that is too small, and finishes exactly if
      some number of symbols uses the points up. */
  lemma {:induction false} Endings(norm: seq<int>, L: nat)
    requires IsNorm(norm) && L >= MIN_TABLELOG
    ensures HeaderCourse(norm, L).ending == TooFew <==> TailWeight(norm, 0) < Pow2(L)
    ensures HeaderCourse(norm, L).ending == Finished <==> exists k :: 0 <= k <= |norm| && HeadWeight(norm, k) == Pow2(L)
  {
    RestEnds(norm, 0, false, Pow2(L));
  }

  lemma {:induction false} SameRun(norm: seq<int>, k: nat, i: nat)
    requires i <= k <= |norm| && TailWeight(norm[..k], i) != 0
    ensures ZeroRun(norm, i) == ZeroRun(norm[..k], i)
  {
    NonzeroAhead(norm[..k], i);
    var z := ZeroRun(norm[..k], i);
    assert norm[i + z] == norm[..k][i + z];
    forall j | i <= j < i + z ensures norm[j] == 0 { assert norm[j] == norm[..k][j]; }
  }

  /** Where the points are used up, the writer stops looking. */
  lemma {:induction false} RestDescribes(norm: seq<int>, k: nat, i: nat, afterZero: bool)
    requires i <= k <= |norm| && forall s :: 0 <= s < |norm| ==> norm[s] >= -1
    ensures Rest(norm, i, afterZero, TailWeight(norm[..k], i)) == Course(Describe(norm[..k], i, afterZero), Finished)
    decreases |norm| - i
  {
    hide RunBits, Code, ZeroRun;
    var d := norm[..k];
    if TailWeight(d, i) != 0 {
      var a := i;
      if afterZero {
        SameRun(norm, k, i);
        NonzeroAhead(d, i);
        a := i + ZeroRun(d, i);
      }
      assert norm[a] == d[a];
      RestDescribes(norm, k, a + 1, norm[a] == 0);
    }
  }

  lemma {:induction false} PrefixWeight(norm: seq<int>, k: nat, i: nat)
    requires i <= k <= |norm|
    ensures TailWeight(norm[..k], i) + HeadWeight(norm, i) == HeadWeight(norm, k)
    decreases k - i
  {
    if i < k { PrefixWeight(norm, k, i + 1); }
  }

  /** If some symbols use the points up, what is sent is the header of these. */
  lemma {:induction false} PrefixDescribed(norm: seq<int>, L: nat, k: nat)
    requires IsNorm(norm) && MIN_TABLELOG <= L <= MAX_TABLELOG && k <= |norm| && HeadWeight(norm, k) == Pow2(L)
    ensures Describable(norm[..k], L) && HeaderCourse(norm, L) == Course(HeaderBits(norm[..k], L), Finished)
  {
    hide Rest, Describe, Pow2;
    PrefixWeight(norm, k, 0);
    RestDescribes(norm, k, 0, false);
  }

  /** So norms of the right total are described whole. */
  lemma {:induction false} WholeDescribed(norm: seq<int>, L: nat)
    requires Describable(norm, L)
    ensures HeaderCourse(norm, L) == Course(HeaderBits(norm, L), Finished)
  {
    hide Pow2;
    assert norm[..|norm|] == norm;
    PrefixWeight(norm, |norm|, 0);
    PrefixDescribed(norm, L, |norm|);
  }

  // ---------- writing ----------

  /** `Overrun`: the unchecked variant would write past the end of its buffer; `Overread`: the
      loop would look at norms behind the last one. */
  datatype WriteResult = Size(size: nat) | DstSizeTooSmall | GenericError | TableLogTooLarge | Overrun | Overread

  /** Room for the words the writer sends: whole pairs of bytes. */
  function RoomFor(n: nat): nat
    requires n > 0
  {
    2 * ((n - 1) / 16) + 2
  }

  /** The writer's accumulator: `out` bytes in the buffer, `bitCount` bits pending, never
      more than its 32-bit register holds. */
  ghost predicate Written(buf: seq<byte>, out: nat, bitStream: nat, bitCount: nat, emitted: seq<bool>) {
    && |emitted| == 8 * out + bitCount && bitCount <= 32
    && out <= |buf|
    && BytesToBits(buf[..out]) == emitted[..8 * out]
    && bitStream == ToNat(emitted[8 * out..])
  }

  lemma {:induction false} WrittenMore(buf: seq<byte>, out: nat, bitStream: nat, bitCount: nat, emitted: seq<bool>, v: nat, n: nat)
    requires Written(buf, out, bitStream, bitCount, emitted) && v < Pow2(n) && bitCount + n <= 32
    ensures Written(buf, out, bitStream + Shl(v, bitCount), bitCount + n, emitted + ToBits(v, n))
  {
    hide ToNat, ToBits, BytesToBits, Shl, Pow2;
    var added := ToBits(v, n);
    var pending := emitted[8 * out..];
    ToBitsToNat(v, n);
    MaskSmall(v, n);
    ToNatConcat(pending, added);
    assert (emitted + added)[8 * out..] == pending + added;
    assert (emitted + added)[..8 * out] == emitted[..8 * out];
  }

  lemma {:induction false} WrittenWord(before: seq<byte>, after: seq<byte>, out: nat, bitStream: nat, bitCount: nat, emitted: seq<bool>)
    requires Written(before, out, bitStream, bitCount, emitted) && bitCount >= 16
    requires |after| == |before| && out + 2 <= |after| && after[..out] == before[..out]
    requires after[out..out + 2] == ToBytes(bitStream, 2)
    ensures Written(after, out + 2, Shr(bitStream, 16), bitCount - 16, emitted)
  {
    hide ToNat, ToBits, BytesToBits, Shr, ToBytes;
    var pending := emitted[8 * out..];
    ToBytesBits(bitStream, 2);
    ToNatToBits(pending);
    ToBitsConcat(bitStream, 16, bitCount - 16);
    assert pending[..16] == ToBits(bitStream, 16);
    ToNatSplit(pending, 16);
    assert pending[16..] == emitted[8 * (out + 2)..];
    assert after[..out + 2] == after[..out] + after[out..out + 2];
    BytesToBitsConcat(after[..out], after[out..out + 2]);
    assert emitted[..8 * (out + 2)] == emitted[..8 * out] + pending[..16];
  }

  /** Sends the 16 low bits of the accumulator, if the buffer has room for them. The checked
      variant refuses otherwise, and the unchecked one leaves the buffer. */
  method FlushWord(buf: array<byte>, out: nat, bitStream: nat, ghost bitCount: nat, ghost emitted: seq<bool>)
    returns (fits: bool, out': nat, bitStream': nat)
    requires Written(buf[..], out, bitStream, bitCount, emitted) && bitCount >= 16
    modifies buf
    ensures fits <==> out + 2 <= buf.Length
    ensures fits ==> out' == out + 2 && Written(buf[..], out', bitStream', bitCount - 16, emitted)
  {
    hide ToNat, BytesToBits, Shr;
    out', bitStream' := out, bitStream;
    if out > buf.Length - 2 { return false, out, bitStream; }
    ghost var before := buf[..];
    buf[out] := bitStream % 256;
    buf[out + 1] := bitStream / 256 % 256;
    assert ToBytes(bitStream, 2) == [bitStream % 256, bitStream / 256 % 256];
    WrittenWord(before, buf[..], out, bitStream, bitCount, emitted);
    fits, out', bitStream' := true, out + 2, Shr(bitStream, 16);
  }

  lemma {:induction false} OnesBits(n: nat)
    ensures ToBits(Pow2(n) - 1, n) == Ones(n)
  {
    if n != 0 {
      OnesBits(n - 1);
      assert (Pow2(n) - 1) / 2 == Pow2(n - 1) - 1;
      assert Ones(n) == [true] + Ones(n - 1);
    }
  }

  lemma {:induction false} SixteenOnes()
    ensures ToBits(0xFFFF, 16) == Ones(16) && 0xFFFF < Pow2(16)
  {
    ByteBound();
    hide Pow2, ToBits, Ones;
    Pow2Add(8, 8);
    OnesBits(16);
  }

  lemma {:induction false} PairOfOnes()
    ensures ToBits(3, 2) == [true, true] && Pow2(2) == 4
  {
  }

  /** The blocks of 24 zeros; each leaves the number of pending bits as it was. */
  method WriteBlocks(buf: array<byte>, out0: nat, bitStream0: nat, bitCount: nat, z: nat,
                     ghost emitted0: seq<bool>)
    returns (fits: bool, left: nat, out: nat, bitStream: nat, ghost emitted: seq<bool>)
    requires Written(buf[..], out0, bitStream0, bitCount, emitted0) && 1 <= bitCount <= 16 && out0 % 2 == 0
    modifies buf
    ensures fits ==> left < 24 && out % 2 == 0 && Written(buf[..], out, bitStream, bitCount, emitted)
    ensures fits ==> emitted + RunBits(left) == emitted0 + RunBits(z)
    ensures !fits ==> buf.Length + 2 < RoomFor(|emitted0 + RunBits(z)|)
  {
    hide ToNat, ToBits, BytesToBits, Shl, Shr, Ones, Pow2;
    fits, left, out, bitStream, emitted := true, z, out0, bitStream0, emitted0;
    SixteenOnes();
    while left >= 24
      invariant out % 2 == 0 && Written(buf[..], out, bitStream, bitCount, emitted)
      invariant emitted + RunBits(left) == emitted0 + RunBits(z)
    {
      WrittenMore(buf[..], out, bitStream, bitCount, emitted, 0xFFFF, 16);
      assert emitted + RunBits(left) == (emitted + Ones(16)) + RunBits(left - 24);
      left, bitStream, emitted := left - 24, bitStream + Shl(0xFFFF, bitCount), emitted + Ones(16);
      fits, out, bitStream := FlushWord(buf, out, bitStream, bitCount + 16, emitted);
      if !fits { return; }
    }
  }

  /** The pairs that end a run of fewer than 24 zeros. */
  method WritePairs(ghost buf: seq<byte>, ghost out: nat, bitStream0: nat, bitCount0: nat, z: nat, ghost emitted0: seq<bool>)
    returns (bitStream: nat, bitCount: nat, ghost emitted: seq<bool>)
    requires Written(buf, out, bitStream0, bitCount0, emitted0) && z < 24 && bitCount0 <= 16
    ensures Written(buf, out, bitStream, bitCount, emitted)
    ensures emitted == emitted0 + RunBits(z)
    ensures bitCount0 < bitCount <= bitCount0 + 16
  {
    hide ToNat, ToBits, BytesToBits, Shl, Pow2;
    var left: nat := z;
    bitStream, bitCount, emitted := bitStream0, bitCount0, emitted0;
    PairOfOnes();
    while left >= 3
      invariant left <= z && Written(buf, out, bitStream, bitCount, emitted)
      invariant emitted + RunBits(left) == emitted0 + RunBits(z)
      invariant 3 * (bitCount - bitCount0) == 2 * (z - left)
    {
      WrittenMore(buf, out, bitStream, bitCount, emitted, 3, 2);
      assert emitted + RunBits(left) == (emitted + [true, true]) + RunBits(left - 3);
      left, bitStream, bitCount, emitted := left - 3, bitStream + Shl(3, bitCount), bitCount + 2, emitted + [true, true];
    }
    WrittenMore(buf, out, bitStream, bitCount, emitted, left, 2);
    bitStream, bitCount, emitted := bitStream + Shl(left, bitCount), bitCount + 2, emitted + ToBits(left, 2);
  }

  /** The whole run code that follows a zero. */
  method WriteRun(buf: array<byte>, z: nat, out0: nat, bitStream0: nat, bitCount0: nat, ghost emitted0: seq<bool>)
    returns (fits: bool, out: nat, bitStream: nat, bitCount: nat, ghost emitted: seq<bool>)
    requires Written(buf[..], out0, bitStream0, bitCount0, emitted0) && 1 <= bitCount0 <= 16 && out0 % 2 == 0
    modifies buf
    ensures fits ==> 1 <= bitCount <= 16 && out % 2 == 0 && Written(buf[..], out, bitStream, bitCount, emitted)
    ensures fits ==> emitted == emitted0 + RunBits(z)
    ensures !fits ==> buf.Length + 2 < RoomFor(|emitted0 + RunBits(z)|)
  {
    hide ToNat, ToBits, BytesToBits, Shl, Pow2, RunBits, Written;
    var left;
    fits, left, out, bitStream, emitted := WriteBlocks(buf, out0, bitStream0, bitCount0, z, emitted0);
    bitCount := bitCount0;
    if !fits { return; }
    ghost var whole := emitted + RunBits(left);
    bitStream, bitCount, emitted := WritePairs(buf[..], out, bitStream, bitCount, left, emitted);
    WrittenSize(buf[..], out, bitStream, bitCount, emitted);
    if bitCount > 16 {
      fits, out, bitStream := FlushWord(buf, out, bitStream, bitCount, emitted);
      if !fits { return; }
      bitCount := bitCount - 16;
    }
  }

  lemma {:induction false} WrittenSize(buf: seq<byte>, out: nat, bitStream: nat, bitCount: nat, emitted: seq<bool>)
    requires Written(buf, out, bitStream, bitCount, emitted)
    ensures |emitted| == 8 * out + bitCount
  {
  }

  /** `threshold` and `nbBits` follow the highest bit of `remaining` down. */
  method Shrink(remaining: nat, threshold0: nat, nbBits0: nat) returns (threshold: nat, nbBits: nat)
    requires remaining >= 1 && nbBits0 >= 1 && threshold0 == Pow2(nbBits0 - 1) && remaining < 2 * threshold0
    ensures nbBits == HighBit(remaining) + 1 && threshold == Pow2(HighBit(remaining))
  {
    hide HighBit;
    threshold, nbBits := threshold0, nbBits0;
    while remaining < threshold
      invariant nbBits >= 1 && threshold == Pow2(nbBits - 1) && remaining < 2 * threshold
    {
      nbBits := nbBits - 1;
      threshold := threshold / 2;
    }
    HighBitUnique(remaining, nbBits - 1);
  }

  /** The code of one count, as the writer computes it from `threshold` and `nbBits`. */
  method WriteCount(ghost buf: seq<byte>, ghost out: nat, bitStream0: nat, bitCount0: nat, norm: int, remaining: nat,
                    threshold: nat, nbBits: nat, ghost emitted0: seq<bool>)
    returns (bitStream: nat, bitCount: nat, previous0: bool, ghost emitted: seq<bool>)
    requires Written(buf, out, bitStream0, bitCount0, emitted0) && bitCount0 <= 16 && nbBits <= 16
    requires remaining >= 2 && -1 <= norm < remaining
    requires nbBits == HighBit(remaining) + 1 && threshold == Pow2(HighBit(remaining))
    ensures Written(buf, out, bitStream, bitCount, emitted)
    ensures emitted == emitted0 + Code(norm, remaining)
    ensures previous0 <==> norm == 0
    ensures bitCount <= bitCount0 + nbBits
  {
    hide ToNat, ToBits, BytesToBits, Shl, Pow2, HighBit;
    ShortCodesBound(remaining);
    var max := 2 * threshold - 1 - remaining;
    var count := norm + 1;
    if count >= threshold { count := count + max; }
    var n := if count < max then nbBits - 1 else nbBits;
    WrittenMore(buf, out, bitStream0, bitCount0, emitted0, count, n);
    bitStream := bitStream0 + Shl(count, bitCount0);
    bitCount := bitCount0 + n;
    emitted := emitted0 + ToBits(count, n);
    previous0 := count == 1;
  }

  lemma {:induction false} TailWeightLe(norm: seq<int>, i: nat)
    requires i <= |norm|
    ensures TailWeight(norm, i) <= TailWeight(norm, 0)
    ensures i < |norm| ==> Weight(norm[i]) <= TailWeight(norm, i)
  {
    if i > 0 { TailWeightLe(norm, i - 1); }
  }

  lemma {:induction false} RemainingBits(remaining: nat, L: nat)
    requires 1 <= remaining <= Pow2(L) + 1 && L >= 1
    ensures HighBit(remaining) <= L
  {
    if HighBit(remaining) > L { Pow2Mono(L + 1, HighBit(remaining)); }
  }

  /** Where the writer stands: symbols before `i` described, the rest still to come. */
  ghost predicate Describing(norm: seq<int>, L: nat, i: nat, previous0: bool, remaining: nat, threshold: nat, nbBits: nat, emitted: seq<bool>) {
    && IsNorm(norm) && MIN_TABLELOG <= L <= MAX_TABLELOG && i <= |norm| && 1 <= remaining <= Pow2(L) + 1
    && nbBits == HighBit(remaining) + 1 && threshold == Pow2(HighBit(remaining)) && nbBits <= L + 1
    && Before(emitted, Rest(norm, i, previous0, remaining - 1)) == HeaderCourse(norm, L)
  }

  /** The bits after a zero run or none, before the count of symbol `i`. */
  ghost predicate AtCount(norm: seq<int>, L: nat, i: nat, remaining: nat, threshold: nat, nbBits: nat, emitted: seq<bool>) {
    && IsNorm(norm) && MIN_TABLELOG <= L <= MAX_TABLELOG && i <= |norm| && 2 <= remaining <= Pow2(L) + 1
    && nbBits == HighBit(remaining) + 1 && threshold == Pow2(HighBit(remaining)) && nbBits <= L + 1
    && Before(emitted, RestAt(norm, i, remaining - 1)) == HeaderCourse(norm, L)
  }

  lemma {:induction false} RunDescribed(norm: seq<int>, L: nat, i: nat, remaining: nat, threshold: nat, nbBits: nat, emitted: seq<bool>)
    requires Describing(norm, L, i, true, remaining, threshold, nbBits, emitted) && remaining > 1
    ensures i <= |norm|
    ensures var z := ZeroRun(norm, i); if i + z == |norm| then HeaderCourse(norm, L) == Course(emitted, TooFew)
      else AtCount(norm, L, i + z, remaining, threshold, nbBits, emitted + RunBits(z)) && |emitted + RunBits(z)| <= |HeaderCourse(norm, L).bits|
  {
    hide Pow2, HighBit, HeaderCourse, RestAt, RunBits, ZeroRun;
    var z := ZeroRun(norm, i);
    assert emitted + [] == emitted;
    if i + z < |norm| {
      var c := RestAt(norm, i + z, remaining - 1);
      assert emitted + (RunBits(z) + c.bits) == (emitted + RunBits(z)) + c.bits;
    }
  }

  lemma {:induction false} NoRun(norm: seq<int>, L: nat, i: nat, remaining: nat, threshold: nat, nbBits: nat, emitted: seq<bool>)
    requires Describing(norm, L, i, false, remaining, threshold, nbBits, emitted) && remaining > 1
    ensures AtCount(norm, L, i, remaining, threshold, nbBits, emitted)
  {
    hide Pow2, HighBit, HeaderCourse, RestAt;
  }

  /** Before the count of a symbol the writer may find out that it cannot go on. */
  lemma {:induction false} CountFails(norm: seq<int>, L: nat, i: nat, remaining: nat, threshold: nat, nbBits: nat, emitted: seq<bool>)
    requires AtCount(norm, L, i, remaining, threshold, nbBits, emitted)
    ensures i <= |norm| && remaining >= 2
    ensures i == |norm| ==> HeaderCourse(norm, L) == Course(emitted, TooFew)
    ensures i < |norm| && remaining - Weight(norm[i]) < 1 ==> HeaderCourse(norm, L) == Course(emitted, TooMany)
  {
    hide Pow2, HighBit, HeaderCourse, Rest;
    assert emitted + [] == emitted;
  }

  lemma {:induction false} CountDescribed(norm: seq<int>, L: nat, i: nat, remaining: nat, threshold: nat, nbBits: nat, emitted: seq<bool>)
    requires AtCount(norm, L, i, remaining, threshold, nbBits, emitted) && i < |norm| && Weight(norm[i]) < remaining
    ensures -1 <= norm[i] < remaining && HighBit(remaining - Weight(norm[i])) <= L
    ensures Before(emitted + Code(norm[i], remaining), Rest(norm, i + 1, norm[i] == 0, remaining - Weight(norm[i]) - 1)) == HeaderCourse(norm, L)
    ensures |emitted + Code(norm[i], remaining)| <= |HeaderCourse(norm, L).bits|
  {
    hide Pow2, HighBit, HeaderCourse, Rest, Code;
    RemainingBits(remaining - Weight(norm[i]), L);
    var c, d := Code(norm[i], remaining), Rest(norm, i + 1, norm[i] == 0, remaining - Weight(norm[i]) - 1);
    assert emitted + (c + d.bits) == (emitted + c) + d.bits;
  }

  lemma {:induction false} DescribeStart(norm: seq<int>, L: nat)
    requires IsNorm(norm) && MIN_TABLELOG <= L <= MAX_TABLELOG
    ensures Describing(norm, L, 0, false, Pow2(L) + 1, Pow2(L), L + 1, ToBits(L - MIN_TABLELOG, 4))
    ensures L - MIN_TABLELOG < Pow2(4)
  {
    FirstThreshold(L);
    hide Rest, Pow2, ToBits, HighBit;
  }

  lemma {:induction false} FirstThreshold(L: nat)
    requires 5 <= L <= 12
    ensures HighBit(Pow2(L) + 1) == L && L - 5 < Pow2(4)
  {
    assert Pow2(4) == 16;
    HighBitUnique(Pow2(L) + 1, L);
  }

  /** The count of symbol `i` and the flush that follows it. */
  method WriteSymbol(buf: array<byte>, count: int, ghost norm: seq<int>, ghost L: nat, ghost i: nat, out0: nat, bitStream0: nat, bitCount0: nat,
                     remaining0: nat, threshold0: nat, nbBits0: nat, ghost emitted0: seq<bool>)
    returns (fits: bool, out: nat, bitStream: nat, bitCount: nat, remaining: nat, threshold: nat, nbBits: nat, previous0: bool, ghost emitted: seq<bool>)
    requires Written(buf[..], out0, bitStream0, bitCount0, emitted0) && 1 <= bitCount0 <= 16 && out0 % 2 == 0
    requires AtCount(norm, L, i, remaining0, threshold0, nbBits0, emitted0) && i < |norm| && count == norm[i] && Weight(count) < remaining0
    modifies buf
    ensures fits ==> 1 <= bitCount <= 16 && out % 2 == 0 && Written(buf[..], out, bitStream, bitCount, emitted)
    ensures fits ==> Describing(norm, L, i + 1, previous0, remaining, threshold, nbBits, emitted)
    ensures !fits ==> |HeaderCourse(norm, L).bits| > 0 && buf.Length + 2 < RoomFor(|HeaderCourse(norm, L).bits|)
  {
    hide Pow2, HighBit, ToBits, ToNat, BytesToBits, Shl, Rest, RestAt, RunBits, Code, HeaderCourse;
    CountDescribed(norm, L, i, remaining0, threshold0, nbBits0, emitted0);
    out, fits := out0, true;
    bitStream, bitCount, previous0, emitted :=
      WriteCount(buf[..], out, bitStream0, bitCount0, count, remaining0, threshold0, nbBits0, emitted0);
    remaining := remaining0 - Weight(count);
    ShortCodesBound(remaining0);
    threshold, nbBits := Shrink(remaining, threshold0, nbBits0);
    if bitCount > 16 {
      fits, out, bitStream := FlushWord(buf, out, bitStream, bitCount, emitted);
      if !fits { return; }
      bitCount := bitCount - 16;
    }
  }

  /** What the writer answers, by the room its words take. */
  function Outcome(c: Course, room: nat, writeIsSafe: bool): WriteResult
    requires |c.bits| > 0
  {
    if room + 2 < RoomFor(|c.bits|) || (c.ending == Finished && room < RoomFor(|c.bits|)) then
      if writeIsSafe then Overrun else DstSizeTooSmall
    else match c.ending
      case Finished => Size(BytesFor(|c.bits|))
      case TooMany => GenericError
      case TooFew => Overread
  }

  lemma {:induction false} CourseHasBits(norm: seq<int>, L: nat)
    requires IsNorm(norm) && L >= MIN_TABLELOG
    ensures |HeaderCourse(norm, L).bits| >= 4
  {
  }

  /** `FSE_writeNCount_generic`, for any norms. */
  method WriteGeneric(buf: array<byte>, norm: seq<int>, L: nat, writeIsSafe: bool) returns (r: WriteResult)
    requires IsNorm(norm) && MIN_TABLELOG <= L <= MAX_TABLELOG
    modifies buf
    ensures var c := HeaderCourse(norm, L);
      && |c.bits| > 0 && r == Outcome(c, buf.Length, writeIsSafe)
      && (r.Size? ==> r.size <= buf.Length && c.bits <= BytesToBits(buf[..r.size]))
  {
    hide Pow2, HighBit, ToBits, ToNat, BytesToBits, Shl, Rest, RestAt, RunBits, Code, HeaderCourse, Written, Describing, AtCount, RoomFor;
    ghost var c := HeaderCourse(norm, L);
    CourseHasBits(norm, L);
    DescribeStart(norm, L);
    ghost var emitted: seq<bool> := [] + ToBits(L - MIN_TABLELOG, 4);
    var out: nat, bitStream: nat, bitCount: nat := 0, Shl(L - MIN_TABLELOG, 0), 4;
    WrittenNothing(buf[..]);
    WrittenMore(buf[..], 0, 0, 0, [], L - MIN_TABLELOG, 4);
    assert emitted == ToBits(L - MIN_TABLELOG, 4);
    var charnum: nat := 0;
    var previous0 := false;
    var remaining: nat, threshold: nat, nbBits: nat := Pow2(L) + 1, Pow2(L), L + 1;
    while remaining > 1
      invariant 1 <= bitCount <= 16 && out % 2 == 0 && charnum <= |norm|
      invariant Written(buf[..], out, bitStream, bitCount, emitted)
      invariant Describing(norm, L, charnum, previous0, remaining, threshold, nbBits, emitted)
      decreases |norm| - charnum
    {
      var fits;
      if previous0 {
        RunDescribed(norm, L, charnum, remaining, threshold, nbBits, emitted);
        var z := ZeroRun(norm, charnum);
        if charnum + z == |norm| {
          RoomSoFar(buf[..], out, bitStream, bitCount, emitted);
          return Overread;
        }
        ghost var sent := emitted + RunBits(z);
        WrittenSize(buf[..], out, bitStream, bitCount, emitted);
        fits, out, bitStream, bitCount, emitted := WriteRun(buf, z, out, bitStream, bitCount, emitted);
        if !fits {
          RoomMono(|sent|, |c.bits|);
          return if writeIsSafe then Overrun else DstSizeTooSmall;
        }
        charnum := charnum + z;
      } else {
        NoRun(norm, L, charnum, remaining, threshold, nbBits, emitted);
      }
      CountFails(norm, L, charnum, remaining, threshold, nbBits, emitted);
      RoomSoFar(buf[..], out, bitStream, bitCount, emitted);
      if charnum == |norm| { return Overread; }
      if remaining - Weight(norm[charnum]) < 1 { return GenericError; }
      fits, out, bitStream, bitCount, remaining, threshold, nbBits, previous0, emitted :=
        WriteSymbol(buf, norm[charnum], norm, L, charnum, out, bitStream, bitCount, remaining, threshold, nbBits, emitted);
      if !fits { return if writeIsSafe then Overrun else DstSizeTooSmall; }
      charnum := charnum + 1;
    }
    DescribeEnds(norm, L, charnum, previous0, remaining, threshold, nbBits, emitted);
    r := WriteLast(buf, out, bitStream, bitCount, emitted, writeIsSafe);
  }

  lemma {:induction false} RoomMono(a: nat, b: nat)
    requires 0 < a <= b
    ensures RoomFor(a) <= RoomFor(b)
  {
  }

  /** The words sent so far had room. */
  lemma {:induction false} RoomSoFar(buf: seq<byte>, out: nat, bitStream: nat, bitCount: nat, emitted: seq<bool>)
    requires Written(buf, out, bitStream, bitCount, emitted) && 1 <= bitCount <= 16 && out % 2 == 0
    ensures |emitted| > 0 && |buf| + 2 >= RoomFor(|emitted|)
  {
  }

  /** The last word, of which only the bytes in use are counted. */
  method WriteLast(buf: array<byte>, out: nat, bitStream: nat, bitCount: nat, ghost emitted: seq<bool>, writeIsSafe: bool)
    returns (r: WriteResult)
    requires Written(buf[..], out, bitStream, bitCount, emitted) && 1 <= bitCount <= 16 && out % 2 == 0 && |emitted| > 0
    modifies buf
    ensures r == Outcome(Course(emitted, Finished), buf.Length, writeIsSafe)
    ensures r.Size? ==> r.size <= buf.Length && emitted <= BytesToBits(buf[..r.size])
  {
    hide ToNat, BytesToBits, ToBits;
    if out > buf.Length - 2 { return if writeIsSafe then Overrun else DstSizeTooSmall; }
    ghost var before := buf[..];
    buf[out] := bitStream % 256;
    buf[out + 1] := bitStream / 256 % 256;
    var size := out + (bitCount + 7) / 8;
    assert ToBytes(bitStream, 2) == [bitStream % 256, bitStream / 256 % 256];
    LastWord(before, buf[..], out, bitStream, bitCount, emitted, size);
    assert buf[..][..size] == buf[..size];
    r := Size(size);
  }

  // ---------- how long a header is ----------

  /** `FSE_NCOUNTBOUND` */
  const NCOUNT_BOUND := 512

  /** `FSE_NCountWriteBound` */
  function WriteBound(maxSymbolValue: nat, L: nat): nat {
    if maxSymbolValue == 0 then NCOUNT_BOUND else (maxSymbolValue + 1) * L / 8 + 3
  }

  lemma {:induction false} RunSize(z: nat)
    ensures |RunBits(z)| <= 2 * z + 2
  {
    if z >= 24 { RunSize(z - 24); } else if z >= 3 { RunSize(z - 3); }
  }

  /** A symbol takes at most `L + 1` bits for its code, and at most two for its part in a run. */
  lemma {:induction false} RestSize(norm: seq<int>, L: nat, i: nat, afterZero: bool, points: nat)
    requires i <= |norm| && L >= 2 && (forall s :: 0 <= s < |norm| ==> norm[s] >= -1) && points <= Pow2(L)
    ensures var n := |Rest(norm, i, afterZero, points).bits|; n <= (|norm| - i) * (L + 3) + (if afterZero then 2 else 0)
    decreases |norm| - i
  {
    hide Code, RunBits, Pow2, HighBit;
    var k := if afterZero then i + ZeroRun(norm, i) else i;
    if points != 0 && k < |norm| && Weight(norm[k]) <= points {
      RunSize(k - i);
      RunShare(k - i, L + 3);
      RemainingBits(points + 1, L);
      CodeLength(norm[k], points + 1);
      RestSize(norm, L, k + 1, norm[k] == 0, points - Weight(norm[k]));
      Parts(|norm| - k - 1, k - i, L + 3);
    } else {
      MulMono(0, |norm| - i, L + 3);
      if points != 0 && k < |norm| { RunSize(k - i); RunShare(k - i, L + 3); MulMono(k - i, |norm| - i, L + 3); }
    }
  }

  /** For a single symbol the write bound is the general one. */
  lemma {:induction false} SingleFits(norm: seq<int>, L: nat)
    requires Describable(norm, L) && |norm| == 1
    ensures |HeaderBits(norm, L)| > 0 && RoomFor(|HeaderBits(norm, L)|) <= WriteBound(|norm| - 1, L)
  {
    HeaderFits(norm, L);
  }

  lemma {:induction false} RunShare(z: nat, x: nat)
    requires x >= 2
    ensures 2 * z <= z * x
  {
    MulMono(2, x, z);
  }

  lemma {:induction false} Parts(a: int, b: int, x: int)
    ensures (a + 1 + b) * x == a * x + x + b * x
  {
  }

  /** The general bound is enough for whatever the writer sends. */
  lemma {:induction false} CourseFits(norm: seq<int>, L: nat)
    requires IsNorm(norm) && MIN_TABLELOG <= L <= MAX_TABLELOG
    ensures |HeaderCourse(norm, L).bits| > 0 && RoomFor(|HeaderCourse(norm, L).bits|) <= NCOUNT_BOUND
  {
    hide Rest, Pow2;
    RestSize(norm, L, 0, false, Pow2(L));
    MulMono(|norm| - 0, 256, L + 3);
    assert |HeaderCourse(norm, L).bits| <= 4 + 256 * (L + 3) <= 3844;
  }

  /** And so for every header. */
  lemma {:induction false} HeaderFits(norm: seq<int>, L: nat)
    requires Describable(norm, L)
    ensures |HeaderBits(norm, L)| > 0 && RoomFor(|HeaderBits(norm, L)|) <= NCOUNT_BOUND
  {
    hide HeaderBits, HeaderCourse, Pow2;
    WholeDescribed(norm, L);
    CourseFits(norm, L);
  }

  /** A zero and a one behind it. */
  lemma {:induction false} PairSize(norm: seq<int>, i: nat)
    requires i + 2 <= |norm| && (forall s :: 0 <= s < |norm| ==> norm[s] >= -1) && norm[i] == 0 && norm[i + 1] == 1
    ensures var r := TailWeight(norm, i + 2) + 2;
      && TailWeight(norm, i) + 1 == r
      && |Describe(norm, i, false)| == |Code(0, r)| + 2 + |Code(1, r)| + |Describe(norm, i + 2, false)|
  {
    hide Code, Describe, DescribeAt;
    var r := TailWeight(norm, i + 2) + 2;
    assert TailWeight(norm, i + 1) == r - 1 && TailWeight(norm, i) == r - 1;
    PlainSize(norm, i);
    AfterZeroSize(norm, i + 1);
  }

  lemma {:induction false} PlainSize(norm: seq<int>, i: nat)
    requires i < |norm| && (forall s :: 0 <= s < |norm| ==> norm[s] >= -1) && TailWeight(norm, i) != 0 && norm[i] < TailWeight(norm, i) + 1
    ensures |Describe(norm, i, false)| == |Code(norm[i], TailWeight(norm, i) + 1)| + |Describe(norm, i + 1, norm[i] == 0)|
  {
    hide Code;
    assert Describe(norm, i, false) == DescribeAt(norm, i);
  }

  lemma {:induction false} AfterZeroSize(norm: seq<int>, i: nat)
    requires i < |norm| && (forall s :: 0 <= s < |norm| ==> norm[s] >= -1) && norm[i] > 0 && norm[i] < TailWeight(norm, i) + 1
    ensures |Describe(norm, i, true)| == 2 + |Code(norm[i], TailWeight(norm, i) + 1)| + |Describe(norm, i + 1, false)|
  {
    hide Code;
    assert ZeroRun(norm, i) == 0 && |RunBits(0)| == 2;
    assert Describe(norm, i, true) == RunBits(0) + DescribeAt(norm, i);
  }

  lemma {:induction false} CodeTakes(count: int, remaining: nat, h: nat)
    requires -1 <= count < remaining && Pow2(h) <= remaining < Pow2(h + 1)
    ensures |Code(count, remaining)| == if count + 1 < 2 * Pow2(h) - 1 - remaining then h else h + 1
  {
    HighBitUnique(remaining, h);
  }

  /** Zeros and ones in turn, and one symbol for the rest. */
  function Alternating(): seq<int> { [0, 1, 0, 1, 0, 1, 0, 1, 0, 1, 4091] }

  lemma {:induction false} AlternatingTails()
    ensures var norm := Alternating();
      && TailWeight(norm, 10) == 4091 && TailWeight(norm, 8) == 4092 && TailWeight(norm, 6) == 4093 && TailWeight(norm, 4) == 4094
      && TailWeight(norm, 2) == 4095 && TailWeight(norm, 0) == 4096 && TailWeight(norm, 11) == 0
  {
  }

  lemma {:induction false} PowsAre()
    ensures Pow2(11) == 2048 && Pow2(12) == 4096 && Pow2(13) == 8192
  {
  }

  /** The bits of a pair when `r - 1` points are left. */
  lemma {:induction false} PairTakes(norm: seq<int>, i: nat, h: nat)
    requires i + 2 <= |norm| && (forall s :: 0 <= s < |norm| ==> norm[s] >= -1) && norm[i] == 0 && norm[i + 1] == 1
    requires Pow2(h) <= TailWeight(norm, i) + 1 < Pow2(h + 1)
    ensures var short := 2 * Pow2(h) - TailWeight(norm, i) - 2;
      |Describe(norm, i, false)| == 2 * h + 4 - (if 1 < short then 1 else 0) - (if 2 < short then 1 else 0) + |Describe(norm, i + 2, false)|
  {
    hide Pow2, Code, Describe;
    PairSize(norm, i);
    CodeTakes(0, TailWeight(norm, i) + 1, h);
    CodeTakes(1, TailWeight(norm, i) + 1, h);
  }

  /** The bound of the source can be one byte short: the header of these norms needs 20 bytes of
      room where 19 already choose the unchecked variant. */
  lemma {:induction false} WriteBoundShort()
    ensures Describable(Alternating(), 12) && WriteBound(|Alternating()| - 1, 12) == 19
    ensures |HeaderBits(Alternating(), 12)| == 145 && RoomFor(145) == 20
  {
    hide Pow2, Code, Describe, TailWeight;
    var norm := Alternating();
    PowsAre();
    AlternatingTails();
    PairTakes(norm, 0, 12);
    PairTakes(norm, 2, 12);
    PairTakes(norm, 4, 11);
    PairTakes(norm, 6, 11);
    PairTakes(norm, 8, 11);
    PlainSize(norm, 10);
    CodeTakes(norm[10], TailWeight(norm, 10) + 1, 11);
    NothingLeft(norm);
  }

  lemma {:induction false} NothingLeft(norm: seq<int>)
    requires forall s :: 0 <= s < |norm| ==> norm[s] >= -1
    ensures Describe(norm, |norm|, false) == []
  {
  }

  /** `FSE_writeNCount`: unchecked exactly from `FSE_NCountWriteBound` on. */
  method WriteNCount(buf: array<byte>, norm: seq<int>, L: nat) returns (r: WriteResult)
    requires IsNorm(norm)
    modifies buf
    ensures r == TableLogTooLarge <==> L > MAX_TABLELOG
    ensures L < MIN_TABLELOG ==> r == GenericError
    ensures MIN_TABLELOG <= L <= MAX_TABLELOG ==>
      var c := HeaderCourse(norm, L);
      && |c.bits| > 0 && r == Outcome(c, buf.Length, buf.Length >= WriteBound(|norm| - 1, L))
      && (r.Size? ==> r.size <= buf.Length && c.bits <= BytesToBits(buf[..r.size]))
  {
    hide Pow2, HeaderCourse, BytesToBits, RoomFor;
    if L > MAX_TABLELOG { return TableLogTooLarge; }
    if L < MIN_TABLELOG { return GenericError; }
    if buf.Length < WriteBound(|norm| - 1, L) {
      r := WriteGeneric(buf, norm, L, false);
    } else {
      r := WriteGeneric(buf, norm, L, true);
    }
  }

  lemma {:induction false} LastWord(before: seq<byte>, after: seq<byte>, out: nat, bitStream: nat, bitCount: nat, emitted: seq<bool>, size: nat)
    requires Written(before, out, bitStream, bitCount, emitted) && 1 <= bitCount <= 16
    requires |after| == |before| && out + 2 <= |after| && after[..out] == before[..out]
    requires after[out..out + 2] == ToBytes(bitStream, 2)
    requires size == out + (bitCount + 7) / 8
    ensures emitted <= BytesToBits(after[..size])
  {
    hide ToNat, ToBits, BytesToBits, Shr, ToBytes;
    var pending := emitted[8 * out..];
    ToBytesBits(bitStream, 2);
    ToNatToBits(pending);
    ToBitsConcat(bitStream, bitCount, 16 - bitCount);
    var w := BytesToBits(after[out..out + 2]);
    assert w[..bitCount] == pending;
    BytesToBitsSlice(after[out..out + 2], 0, size - out);
    assert after[..size] == after[..out] + after[out..out + 2][0..size - out];
    BytesToBitsConcat(after[..out], after[out..out + 2][0..size - out]);
    assert emitted == emitted[..8 * out] + pending;
  }

  lemma {:induction false} DescribeEnds(norm: seq<int>, L: nat, i: nat, previous0: bool, remaining: nat, threshold: nat, nbBits: nat, emitted: seq<bool>)
    requires Describing(norm, L, i, previous0, remaining, threshold, nbBits, emitted) && remaining <= 1
    ensures HeaderCourse(norm, L) == Course(emitted, Finished)
  {
    hide HeaderCourse, Pow2, HighBit;
    assert emitted + [] == emitted;
  }

  /** The first code has at least as many bits as the table log. */
  lemma {:induction false} HeaderLong(norm: seq<int>, L: nat)
    requires Describable(norm, L)
    ensures |HeaderBits(norm, L)| >= L + 4
  {
    hide Pow2, TailWeight, Describe;
    FirstRange(L);
    TailWeightLe(norm, 0);
    assert Describe(norm, 0, false) == DescribeAt(norm, 0) by { AtFirst(norm, L); }
    assert |Code(norm[0], TailWeight(norm, 0) + 1)| >= L;
  }

  lemma {:induction false} AtFirst(norm: seq<int>, L: nat)
    requires Describable(norm, L)
    ensures TailWeight(norm, 0) != 0 && Describe(norm, 0, false) == DescribeAt(norm, 0)
  {
    Pow2Mono(0, L);
  }

  lemma {:induction false} HeaderHasBits(norm: seq<int>, L: nat)
    requires Describable(norm, L)
    ensures |HeaderBits(norm, L)| > 0
  {
  }

  lemma {:induction false} WrittenNothing(buf: seq<byte>)
    ensures Written(buf, 0, 0, 0, [])
  {
    assert buf[..0] == [];
  }

  // ---------- reading, bit by bit ----------

  ghost function Look(s: seq<bool>, p: nat, n: nat): nat
    requires p + n <= |s|
  {
    ToNat(s[p..p + n])
  }

  datatype RunRead = Run(zeros: nat, end: nat) | RunCut

  function More(n: nat, r: RunRead): RunRead { if r.Run? then Run(n + r.zeros, r.end) else r }

  /** Pairs of bits up to the first that is not three. */
  ghost function PairsFrom(s: seq<bool>, p: nat): (r: RunRead)
    requires p <= |s|
    ensures r.Run? ==> p + 2 <= r.end <= |s|
    decreases |s| - p
  {
    if p + 2 > |s| then RunCut
    else if Look(s, p, 2) == 3 then More(3, PairsFrom(s, p + 2))
    else Run(Look(s, p, 2), p + 2)
  }

  /** Blocks of sixteen ones, and then pairs. */
  ghost function RunFrom(s: seq<bool>, p: nat): (r: RunRead)
    requires p <= |s|
    ensures r.Run? ==> p + 2 <= r.end <= |s|
    decreases |s| - p
  {
    if p + 16 <= |s| && s[p..p + 16] == Ones(16) then More(24, RunFrom(s, p + 16)) else PairsFrom(s, p)
  }

  datatype CountRead = Count(count: int, end: nat) | CountCut

  ghost function CountFrom(s: seq<bool>, p: nat, remaining: nat): (r: CountRead)
    requires remaining >= 2
    ensures r.Count? ==> -1 <= r.count < remaining && p < r.end <= |s|
  {
    ShortCodesBound(remaining);
    var h, max := HighBit(remaining), ShortCodes(remaining);
    if p + h > |s| then CountCut
    else
      LookBound(s, p, h);
      if Look(s, p, h) < max then Count(Look(s, p, h) - 1, p + h)
      else if p + h + 1 > |s| then CountCut
      else
        LookBound(s, p, h + 1);
        LookHalf(s, p, h);
        var c := Look(s, p, h + 1);
        Count((if c >= Pow2(h) then c - max else c) - 1, p + h + 1)
  }

  lemma {:induction false} LookBound(s: seq<bool>, p: nat, n: nat)
    requires p + n <= |s|
    ensures Look(s, p, n) < Pow2(n)
  {
    ToNatBound(s[p..p + n]);
  }

  lemma {:induction false} LookHalf(s: seq<bool>, p: nat, h: nat)
    requires p + h + 1 <= |s|
    ensures Look(s, p, h + 1) == Look(s, p, h) || Look(s, p, h + 1) == Look(s, p, h) + Pow2(h)
  {
    hide ToNat, Pow2;
    var b := s[p..p + h + 1];
    assert b[..h] == s[p..p + h] && b == b[..h] + [b[h]];
    ToNatConcat(b[..h], [b[h]]);
    OneBit(b[h]);
    ShlMul(0, h);
    ShlMul(1, h);
  }

  lemma {:induction false} OneBit(b: bool)
    ensures ToNat([b]) == if b then 1 else 0
  {
  }

  /** `Cut`: the bits end before it is clear what they say. */
  datatype HeaderRead = Norms(norm: seq<int>, end: nat) | TooManySymbols | PointsLeft | Cut

  function Zeros(n: nat): (z: seq<int>)
    ensures |z| == n && forall i :: 0 <= i < n ==> z[i] == 0
  {
    seq(n, _ => 0)
  }

  ghost function NormsFrom(s: seq<bool>, p: nat, got: seq<int>, afterZero: bool, remaining: nat, max: nat): HeaderRead
    requires p <= |s| && remaining >= 1
    decreases |s| - p, 1
  {
    if remaining == 1 then Norms(got, p)
    else if |got| > max then PointsLeft
    else if !afterZero then SymbolFrom(s, p, got, remaining, max)
    else match RunFrom(s, p)
      case RunCut => Cut
      case Run(z, q) => if |got| + z > max then TooManySymbols else SymbolFrom(s, q, got + Zeros(z), remaining, max)
  }

  ghost function SymbolFrom(s: seq<bool>, p: nat, got: seq<int>, remaining: nat, max: nat): HeaderRead
    requires p <= |s| && remaining >= 2
    decreases |s| - p, 0
  {
    match CountFrom(s, p, remaining)
    case CountCut => Cut
    case Count(c, q) => NormsFrom(s, q, got + [c], c == 0, remaining - Weight(c), max)
  }

  /** The bits of an input but for those of its last byte. */
  ghost function Front(src: seq<byte>): (s: seq<bool>)
    requires src != []
    ensures |s| == 8 * |src| - 8
  {
    BytesToBits(src)[..8 * |src| - 8]
  }

  /** The table log in front. */
  ghost function LogOf(src: seq<byte>): nat
    requires |src| >= 4
  {
    Look(Front(src), 0, 4) + MIN_TABLELOG
  }

  /** What an input says, as far as that does not depend on its last byte. */
  ghost function HeaderOf(src: seq<byte>, max: nat): HeaderRead
    requires |src| >= 4
  {
    NormsFrom(Front(src), 4, [], false, Pow2(LogOf(src)) + 1, max)
  }

  // ---------- what is written is read ----------

  /** `rest` comes next. */
  ghost predicate Next(s: seq<bool>, p: nat, rest: seq<bool>) { p + |rest| <= |s| && s[p..p + |rest|] == rest }

  lemma {:induction false} NextParts(s: seq<bool>, p: nat, a: seq<bool>, b: seq<bool>)
    requires Next(s, p, a + b)
    ensures Next(s, p, a) && Next(s, p + |a|, b)
  {
    var all := s[p..p + |a + b|];
    assert all[..|a|] == s[p..p + |a|] && all[|a|..] == s[p + |a|..p + |a| + |b|];
    assert (a + b)[..|a|] == a && (a + b)[|a|..] == b;
  }

  lemma {:induction false} NextBits(s: seq<bool>, p: nat, v: nat, n: nat)
    requires Next(s, p, ToBits(v, n)) && v < Pow2(n)
    ensures Look(s, p, n) == v
  {
    ToBitsToNat(v, n);
    MaskSmall(v, n);
  }

  /** Fewer than 24 zeros never look like a block of 16 ones. */
  lemma {:induction false} ShortRun(z: nat)
    requires z < 24
    ensures 2 <= |RunBits(z)| <= 16 && |RunBits(z)| % 2 == 0
    ensures exists i :: 0 <= i < |RunBits(z)| && !RunBits(z)[i]
    ensures 3 * |RunBits(z)| <= 2 * z + 6
  {
    if z >= 3 {
      ShortRun(z - 3);
      var i :| 0 <= i < |RunBits(z - 3)| && !RunBits(z - 3)[i];
      assert !RunBits(z)[i + 2];
    } else {
      assert ToBits(0, 2) == [false, false] && ToBits(1, 2) == [true, false] && ToBits(2, 2) == [false, true];
      assert !RunBits(z)[if z == 1 then 1 else 0];
    }
  }

  lemma {:induction false} PairsAreRead(s: seq<bool>, p: nat, z: nat)
    requires Next(s, p, RunBits(z)) && z < 24
    ensures PairsFrom(s, p) == Run(z, p + |RunBits(z)|)
    decreases z
  {
    hide ToNat, ToBits;
    PairOfOnes();
    if z >= 3 {
      NextParts(s, p, [true, true], RunBits(z - 3));
      NextBits(s, p, 3, 2);
      PairsAreRead(s, p + 2, z - 3);
    } else {
      NextBits(s, p, z, 2);
    }
  }

  lemma {:induction false} RunIsRead(s: seq<bool>, p: nat, z: nat)
    requires Next(s, p, RunBits(z))
    ensures RunFrom(s, p) == Run(z, p + |RunBits(z)|)
    decreases z
  {
    hide ToNat, ToBits, PairsFrom;
    if z >= 24 {
      NextParts(s, p, Ones(16), RunBits(z - 24));
      RunIsRead(s, p + 16, z - 24);
    } else {
      ShortRun(z);
      var i :| 0 <= i < |RunBits(z)| && !RunBits(z)[i];
      assert p + 16 <= |s| ==> s[p..p + 16][i] == s[p..p + |RunBits(z)|][i];
      PairsAreRead(s, p, z);
    }
  }

  lemma {:induction false} CodeIsRead(s: seq<bool>, p: nat, count: int, remaining: nat)
    requires remaining >= 2 && -1 <= count < remaining && Next(s, p, Code(count, remaining))
    ensures CountFrom(s, p, remaining) == Count(count, p + |Code(count, remaining)|)
  {
    hide ToBits, ToNat, HighBit, Pow2;
    var h, max, v := HighBit(remaining), ShortCodes(remaining), count + 1;
    ShortCodesBound(remaining);
    if v < max {
      NextBits(s, p, v, h);
    } else {
      var c := if v < Pow2(h) then v else v + max;
      NextBits(s, p, c, h + 1);
      LookBound(s, p, h);
      LookHalf(s, p, h);
    }
  }

  lemma {:induction false} NormsAreRead(s: seq<bool>, p: nat, norm: seq<int>, i: nat, afterZero: bool, max: nat)
    requires i <= |norm| && (forall t :: 0 <= t < |norm| ==> norm[t] >= -1) && Next(s, p, Describe(norm, i, afterZero)) && Recorded(norm) <= max + 1
    requires TailWeight(norm, i) == 0 ==> Recorded(norm) == i
    ensures NormsFrom(s, p, norm[..i], afterZero, TailWeight(norm, i) + 1, max) == Norms(norm[..Recorded(norm)], p + |Describe(norm, i, afterZero)|)
    decreases |norm| - i
  {
    hide RunBits, Code, RunFrom, CountFrom, ZeroRun, Next, Recorded;
    if TailWeight(norm, i) != 0 {
      NonzeroAhead(norm, i);
      NonzeroRecorded(norm, i + ZeroRun(norm, i));
      if afterZero {
        var z := ZeroRun(norm, i);
        NextParts(s, p, RunBits(z), DescribeAt(norm, i + z));
        RunIsRead(s, p, z);
        assert norm[..i + z] == norm[..i] + Zeros(z);
        SymbolIsRead(s, p + |RunBits(z)|, norm, i + z, max);
      } else {
        SymbolIsRead(s, p, norm, i, max);
      }
    }
  }

  lemma {:induction false} SymbolIsRead(s: seq<bool>, p: nat, norm: seq<int>, i: nat, max: nat)
    requires i <= |norm| && (forall t :: 0 <= t < |norm| ==> norm[t] >= -1) && TailWeight(norm, i) != 0 && Next(s, p, DescribeAt(norm, i)) && Recorded(norm) <= max + 1
    ensures p <= |s| && SymbolFrom(s, p, norm[..i], TailWeight(norm, i) + 1, max) == Norms(norm[..Recorded(norm)], p + |DescribeAt(norm, i)|)
    decreases |norm| - i, 0
  {
    hide Code, CountFrom, Recorded;
    TailWeightLe(norm, i);
    var c := Code(norm[i], TailWeight(norm, i) + 1);
    NextParts(s, p, c, Describe(norm, i + 1, norm[i] == 0));
    CodeIsRead(s, p, norm[i], TailWeight(norm, i) + 1);
    assert norm[..i + 1] == norm[..i] + [norm[i]];
    if TailWeight(norm, i + 1) == 0 { RecordedIs(norm, i + 1); }
    NormsAreRead(s, p + |c|, norm, i + 1, norm[i] == 0, max);
  }

  lemma {:induction false} RecordedIs(norm: seq<int>, i: nat)
    requires 0 < i <= |norm| && norm[i - 1] != 0 && TailWeight(norm, i) == 0
    ensures Recorded(norm) == i
  {
    if i < |norm| {
      var n := |norm| - 1;
      TailZero(norm, i, n);
      TailShorter(norm, i);
      RecordedIs(norm[..n], i);
    }
  }

  lemma {:induction false} TailZero(norm: seq<int>, i: nat, j: nat)
    requires i <= j < |norm| && TailWeight(norm, i) == 0
    ensures norm[j] == 0
    decreases j - i
  {
    if i < j { TailZero(norm, i + 1, j); }
  }

  lemma {:induction false} TailShorter(norm: seq<int>, i: nat)
    requires i < |norm| && TailWeight(norm, i) == 0
    ensures TailWeight(norm[..|norm| - 1], i) == 0
    decreases |norm| - i
  {
    if i < |norm| - 1 { TailShorter(norm, i + 1); }
  }

  lemma {:induction false} NonzeroRecorded(norm: seq<int>, j: nat)
    requires j < |norm| && norm[j] != 0
    ensures j < Recorded(norm)
  {
    if norm[|norm| - 1] == 0 { NonzeroRecorded(norm[..|norm| - 1], j); }
  }

  /** A header that the reader can be expected to understand: it describes `norm`, the
      counter has room for its symbols, and at least one byte follows it. */
  ghost predicate IsHeader(src: seq<byte>, norm: seq<int>, L: nat, maxSymbolValue: nat) {
    && Describable(norm, L)
    && Recorded(norm) <= maxSymbolValue + 1
    && HeaderBits(norm, L) <= BytesToBits(src)
    && |src| >= 4 && |HeaderBits(norm, L)| + 8 <= 8 * |src|
  }

  lemma {:induction false} FrontStarts(src: seq<byte>, bits: seq<bool>)
    requires src != [] && bits <= BytesToBits(src) && |bits| + 8 <= 8 * |src|
    ensures Next(Front(src), 0, bits)
  {
    hide BytesToBits;
    assert Front(src)[0..0 + |bits|] == BytesToBits(src)[..|bits|];
  }

  /** There is something to record. */
  lemma {:induction false} SomeRecorded(norm: seq<int>, L: nat)
    requires Describable(norm, L)
    ensures TailWeight(norm, 0) != 0 && Recorded(norm) > 0
  {
    hide Recorded, TailWeight, Describe, Pow2;
    AtFirst(norm, L);
    NonzeroAhead(norm, 0);
    NonzeroRecorded(norm, ZeroRun(norm, 0));
  }

  lemma {:induction false} HeaderIsRead(src: seq<byte>, norm: seq<int>, L: nat, max: nat)
    requires IsHeader(src, norm, L, max)
    ensures LogOf(src) == L && 0 < Recorded(norm) <= |norm|
    ensures HeaderOf(src, max) == Norms(norm[..Recorded(norm)], |HeaderBits(norm, L)|)
  {
    hide BytesToBits, ToNat, ToBits, Pow2, Describe, TailWeight, Recorded, NormsFrom, Front, Look, Next;
    FirstThreshold(L);
    FrontStarts(src, HeaderBits(norm, L));
    NextParts(Front(src), 0, ToBits(L - MIN_TABLELOG, 4), Describe(norm, 0, false));
    NextBits(Front(src), 0, L - MIN_TABLELOG, 4);
    assert norm[..0] == [];
    SomeRecorded(norm, L);
    NormsAreRead(Front(src), 4, norm, 0, false, max);
  }

  // ---------- reading through a window ----------

  datatype ReadResult =
    | Read(tableLog: nat, maxSymbolValue: nat, size: nat)
    | SrcSizeWrong | ReadTableLogTooLarge | MaxSymbolValueTooSmall | CorruptionDetected

  /** `MEM_readLE32(ip) >> bitCount`. */
  function Window(src: seq<byte>, ip: nat, bitCount: nat): nat
    requires ip + 4 <= |src|
  {
    Shr(LittleEndian(src[ip..ip + 4]), bitCount)
  }

  /** The window shows the stream from bit `8 * ip + bitCount` on. */
  ghost predicate Shows(src: seq<byte>, ip: nat, bitCount: nat, bitStream: nat) {
    && ip + 4 <= |src| && bitCount <= 32
    && bitStream == ToNat(BytesToBits(src)[8 * ip + bitCount..8 * ip + 32])
  }

  /** The window starts in the first byte of its four, unless it cannot move on: then everything
      in front of the last byte is in it. */
  ghost predicate Near(src: seq<byte>, ip: nat, bitCount: nat) {
    && ip + 4 <= |src| && 8 * ip + bitCount + 8 <= 8 * |src|
    && (bitCount <= 7 || ip + 5 >= |src|)
  }

  lemma {:induction false} WindowShows(src: seq<byte>, ip: nat, bitCount: nat)
    requires ip + 4 <= |src| && bitCount <= 32
    ensures Shows(src, ip, bitCount, Window(src, ip, bitCount))
  {
    hide BytesToBits, LittleEndian, ToNat, Shr;
    var w := src[ip..ip + 4];
    LittleEndianBits(w);
    BytesToBitsSlice(src, ip, ip + 4);
    ToNatSplit(BytesToBits(w), bitCount);
    assert BytesToBits(w)[bitCount..] == BytesToBits(src)[8 * ip + bitCount..8 * ip + 32];
  }

  lemma {:induction false} ShowsBits(src: seq<byte>, ip: nat, bitCount: nat, bitStream: nat, n: nat)
    requires Shows(src, ip, bitCount, bitStream) && bitCount + n <= 32
    ensures ToBits(bitStream, n) == BytesToBits(src)[8 * ip + bitCount..8 * ip + bitCount + n]
  {
    hide BytesToBits, ToNat, ToBits;
    var b := BytesToBits(src)[8 * ip + bitCount..8 * ip + 32];
    ToNatToBits(b);
    ToBitsConcat(bitStream, n, 32 - bitCount - n);
    assert b[..n] == BytesToBits(src)[8 * ip + bitCount..8 * ip + bitCount + n];
  }

  lemma {:induction false} ShowsShift(src: seq<byte>, ip: nat, bitCount: nat, bitStream: nat, n: nat)
    requires Shows(src, ip, bitCount, bitStream) && bitCount + n <= 32
    ensures Shows(src, ip, bitCount + n, Shr(bitStream, n))
  {
    hide BytesToBits, ToNat, Shr;
    var b := BytesToBits(src)[8 * ip + bitCount..8 * ip + 32];
    ToNatSplit(b, n);
    assert b[n..] == BytesToBits(src)[8 * ip + bitCount + n..8 * ip + 32];
  }

  /** What the window shows of the input. */
  lemma {:induction false} Seen(src: seq<byte>, ip: nat, bitCount: nat, bitStream: nat, n: nat)
    requires Near(src, ip, bitCount) && Shows(src, ip, bitCount, bitStream) && n <= 24 && 8 * ip + bitCount + n + 8 <= 8 * |src|
    ensures bitCount + n <= 32 && Mask(bitStream, n) == Look(Front(src), 8 * ip + bitCount, n)
  {
    hide BytesToBits, ToNat, ToBits, Mask, Pow2;
    InWindow(src, ip, bitCount, bitStream, n);
  }

  /** The same further on in a window that has not been moved. */
  lemma {:induction false} InWindow(src: seq<byte>, ip: nat, bitCount: nat, bitStream: nat, n: nat)
    requires Shows(src, ip, bitCount, bitStream) && bitCount + n <= 32 && 8 * ip + bitCount + n + 8 <= 8 * |src|
    ensures Mask(bitStream, n) == Look(Front(src), 8 * ip + bitCount, n)
  {
    hide BytesToBits, ToNat, ToBits, Mask, Pow2;
    ShowsBits(src, ip, bitCount, bitStream, n);
    var b := Front(src)[8 * ip + bitCount..8 * ip + bitCount + n];
    assert b == BytesToBits(src)[8 * ip + bitCount..8 * ip + bitCount + n];
    ToBitsToNat(bitStream, n);
  }

  lemma {:induction false} MaskOnes(w: nat, n: nat)
    ensures Mask(w, n) == Pow2(n) - 1 <==> ToBits(w, n) == Ones(n)
  {
    ToBitsToNat(w, n);
    OnesBits(n);
    ToBitsToNat(Pow2(n) - 1, n);
    MaskSmall(Pow2(n) - 1, n);
    ToNatToBits(ToBits(w, n));
  }

  lemma {:induction false} SixteenBits()
    ensures Pow2(16) == 65536
  {
    ByteBound();
    hide Pow2;
    Pow2Add(8, 8);
  }

  /** A window of fewer than sixteen bits does not show as many ones. */
  lemma {:induction false} WideEnough(src: seq<byte>, ip: nat, bitCount: nat, bitStream: nat)
    requires Shows(src, ip, bitCount, bitStream) && Mask(bitStream, 16) == 0xFFFF
    ensures bitCount + 16 <= 32
  {
    hide BytesToBits, ToNat, Mask, Pow2;
    var b := BytesToBits(src)[8 * ip + bitCount..8 * ip + 32];
    ToNatBound(b);
    SixteenBits();
    if |b| < 16 {
      Pow2Mono(|b|, 15);
      assert Pow2(16) == 2 * Pow2(15) by { Pow2Next(15); }
      MaskSmall(bitStream, 16);
    }
  }

  lemma {:induction false} Pow2Next(n: nat)
    ensures Pow2(n + 1) == 2 * Pow2(n)
  {
  }

  lemma {:induction false} WindowOnes(src: seq<byte>, ip: nat, bitCount: nat, bitStream: nat)
    requires bitCount + 16 <= 32 && Shows(src, ip, bitCount, bitStream)
    ensures Mask(bitStream, 16) == 0xFFFF <==> BytesToBits(src)[8 * ip + bitCount..8 * ip + bitCount + 16] == Ones(16)
  {
    hide BytesToBits, ToNat, ToBits, Mask, Pow2, Ones;
    ShowsBits(src, ip, bitCount, bitStream, 16);
    SixteenOnes();
    MaskOnes(bitStream, 16);
    SixteenBits();
  }

  lemma {:induction false} OnesAreCut(s: seq<bool>, p: nat)
    requires p <= |s| && forall i :: p <= i < |s| ==> s[i]
    ensures PairsFrom(s, p) == RunCut
    decreases |s| - p
  {
    hide ToNat;
    if p + 2 <= |s| {
      assert s[p..p + 2] == [true, true];
      TwoOnes();
      OnesAreCut(s, p + 2);
    }
  }

  lemma {:induction false} TwoOnes()
    ensures ToNat([true, true]) == 3
  {
    assert ([true, true])[1..] == [true];
  }

  /** A block of zeros is taken for one exactly if it is. */
  lemma {:induction false} BlockSeen(src: seq<byte>, ip: nat, bitCount: nat, bitStream: nat)
    requires Near(src, ip, bitCount) && Shows(src, ip, bitCount, bitStream) && RunFrom(Front(src), 8 * ip + bitCount).Run?
    ensures var s, p := Front(src), 8 * ip + bitCount;
      if Mask(bitStream, 16) == 0xFFFF then bitCount + 16 <= 32 && p + 16 <= |s| && RunFrom(s, p) == More(24, RunFrom(s, p + 16))
      else RunFrom(s, p) == PairsFrom(s, p)
  {
    hide BytesToBits, ToNat, Mask, Pow2, PairsFrom, Ones;
    var s, p := Front(src), 8 * ip + bitCount;
    if Mask(bitStream, 16) == 0xFFFF { WideEnough(src, ip, bitCount, bitStream); }
    if bitCount + 16 <= 32 {
      WindowOnes(src, ip, bitCount, bitStream);
      if p + 16 <= |s| {
        assert s[p..p + 16] == BytesToBits(src)[p..p + 16];
      } else if Mask(bitStream, 16) == 0xFFFF {
        forall i | p <= i < |s| ensures s[i] { assert BytesToBits(src)[p..p + 16][i - p]; }
        OnesAreCut(s, p);
      }
    }
  }

  /** The blocks of 24 zeros. On any input the loop stays inside the buffer and ends; a clear run
      is left with its pairs. */
  method SkipBlocks(src: seq<byte>, ip0: nat, bitCount0: nat, bitStream0: nat, n00: nat, ghost clear: bool)
    returns (ip: nat, bitCount: nat, bitStream: nat, n0: nat)
    requires ip0 + 4 <= |src| && (bitCount0 <= 7 || ip0 + 7 > |src|)
    requires clear ==> Near(src, ip0, bitCount0) && Shows(src, ip0, bitCount0, bitStream0) && RunFrom(Front(src), 8 * ip0 + bitCount0).Run?
    ensures ip + 4 <= |src| && (bitCount <= 7 || ip + 7 > |src|)
    ensures Mask(bitStream, 16) != 0xFFFF && n0 >= n00
    ensures clear ==> Near(src, ip, bitCount) && Shows(src, ip, bitCount, bitStream)
    ensures clear ==> RunFrom(Front(src), 8 * ip0 + bitCount0) == More(n0 - n00, PairsFrom(Front(src), 8 * ip + bitCount))
  {
    hide BytesToBits, ToNat, ToBits, Shr, Mask, Pow2, Ones, LittleEndian, RunFrom, PairsFrom, Window, Shows;
    ip, bitCount, bitStream, n0 := ip0, bitCount0, bitStream0, n00;
    ghost var s := if clear then Front(src) else [];
    while Mask(bitStream, 16) == 0xFFFF
      invariant ip + 4 <= |src| && (bitCount <= 7 || ip + 7 > |src|) && n0 >= n00
      invariant clear ==> Near(src, ip, bitCount) && Shows(src, ip, bitCount, bitStream) && RunFrom(s, 8 * ip + bitCount).Run?
      invariant clear ==> RunFrom(s, 8 * ip0 + bitCount0) == More(n0 - n00, RunFrom(s, 8 * ip + bitCount))
      decreases |src| - ip, bitStream
    {
      if clear { BlockSeen(src, ip, bitCount, bitStream); }
      n0 := n0 + 24;
      if ip + 5 < |src| {
        ip := ip + 2;
        bitStream := Window(src, ip, bitCount);
        if clear { WindowShows(src, ip, bitCount); }
      } else {
        if clear { ShowsShift(src, ip, bitCount, bitStream, 16); }
        ShiftShrinks(bitStream, 16);
        bitStream := Shr(bitStream, 16);
        bitCount := bitCount + 16;
      }
    }
    if clear { BlockSeen(src, ip, bitCount, bitStream); }
  }

  lemma {:induction false} ShiftShrinks(v: nat, n: nat)
    requires Mask(v, n) > 0 && n > 0
    ensures Shr(v, n) < v
  {
    MaskShr(v, n);
    ShlGrows(Shr(v, n), n);
  }

  lemma {:induction false} ShlGrows(v: nat, n: nat)
    ensures Shl(v, n) >= v
  {
    if n != 0 { ShlGrows(v, n - 1); }
  }

  /** The pairs of a run. Without sixteen ones at the start there are at most seven pairs
      of ones, so the bit count stays below 24 more. */
  method SkipPairs(src: seq<byte>, ip: nat, bitCount0: nat, bitStream0: nat, n00: nat, ghost clear: bool)
    returns (bitCount: nat, bitStream: nat, n0: nat)
    requires Mask(bitStream0, 16) != 0xFFFF
    requires clear ==> Near(src, ip, bitCount0) && Shows(src, ip, bitCount0, bitStream0) && PairsFrom(Front(src), 8 * ip + bitCount0).Run?
    ensures bitCount <= bitCount0 + 16 && n0 >= n00
    ensures clear ==> PairsFrom(Front(src), 8 * ip + bitCount0) == Run(n0 - n00, 8 * ip + bitCount)
    ensures clear ==> bitCount <= 32 && Shows(src, ip, bitCount, Shr(bitStream, 2))
  {
    hide BytesToBits, ToNat, ToBits, Shr, Mask, Pow2, Ones, PairsFrom, Shows, Look;
    bitCount, bitStream, n0 := bitCount0, bitStream0, n00;
    ghost var k := 0;
    ghost var s := if clear then Front(src) else [];
    SixteenBits();
    while Mask(bitStream, 2) == 3
      invariant 0 <= k <= 8 && bitCount == bitCount0 + 2 * k && n0 >= n00
      invariant Mask(bitStream, 16 - 2 * k) != Pow2(16 - 2 * k) - 1
      invariant clear ==> Shows(src, ip, bitCount, bitStream) && 8 * ip + bitCount <= |s| && PairsFrom(s, 8 * ip + bitCount).Run?
      invariant clear ==> PairsFrom(s, 8 * ip + bitCount0) == More(n0 - n00, PairsFrom(s, 8 * ip + bitCount))
      decreases 8 - k
    {
      MaskEmpty(bitStream);
      PairConsumed(bitStream, 16 - 2 * k);
      if clear {
        PairSeen(src, ip, bitCount0, bitCount, bitStream);
        ShowsShift(src, ip, bitCount, bitStream, 2);
      }
      n0 := n0 + 3;
      bitStream := Shr(bitStream, 2);
      bitCount := bitCount + 2;
      k := k + 1;
    }
    MaskEmpty(bitStream);
    if clear {
      PairSeen(src, ip, bitCount0, bitCount, bitStream);
      ShowsShift(src, ip, bitCount, bitStream, 2);
    }
    n0 := n0 + Mask(bitStream, 2);
    bitCount := bitCount + 2;
  }

  lemma {:induction false} PairSeen(src: seq<byte>, ip: nat, bitCount0: nat, bitCount: nat, bitStream: nat)
    requires Near(src, ip, bitCount0) && bitCount0 <= bitCount <= bitCount0 + 16 && Shows(src, ip, bitCount, bitStream)
    requires 8 * ip + bitCount + 8 <= 8 * |src| && PairsFrom(Front(src), 8 * ip + bitCount).Run?
    ensures var s, p := Front(src), 8 * ip + bitCount;
      && bitCount + 2 <= 32 && p + 2 <= |s|
      && PairsFrom(s, p) == if Mask(bitStream, 2) == 3 then More(3, PairsFrom(s, p + 2)) else Run(Mask(bitStream, 2), p + 2)
  {
    hide BytesToBits, ToNat, Mask, Look, Shows;
    InWindow(src, ip, bitCount, bitStream, 2);
  }

  lemma {:induction false} MaskEmpty(v: nat)
    ensures Mask(v, 0) == Pow2(0) - 1
  {
  }

  lemma {:induction false} PairConsumed(v: nat, n: nat)
    requires n >= 2 && Mask(v, 2) == 3 && Mask(v, n) != Pow2(n) - 1
    ensures Mask(Shr(v, 2), n - 2) != Pow2(n - 2) - 1
  {
    assert Mask(v / 2 / 2, 0) == 0 && Mask(v / 2, 1) == v / 2 % 2;
    assert Mask(v, 2) == v % 2 + 2 * (v / 2 % 2);
    assert Mask(v / 2, n - 1) == v / 2 % 2 + 2 * Mask(v / 2 / 2, n - 2);
    assert Mask(v, n) == v % 2 + 2 * Mask(v / 2, n - 1);
    assert Pow2(n) == 2 * Pow2(n - 1) && Pow2(n - 1) == 2 * Pow2(n - 2);
    assert Shr(v / 2 / 2, 0) == v / 2 / 2 && Shr(v / 2, 1) == v / 2 / 2;
    assert Shr(v, 2) == v / 2 / 2;
  }

  /** Moves the window to the first byte not yet read. */
  lemma {:induction false} Moved(src: seq<byte>, ip: nat, bitCount: nat)
    requires 8 * ip + bitCount + 8 <= 8 * |src| && ip + bitCount / 8 + 4 <= |src|
    ensures var ip2, b := ip + bitCount / 8, bitCount % 8;
      8 * ip2 + b == 8 * ip + bitCount && Near(src, ip2, b) && Shows(src, ip2, b, Window(src, ip2, b))
  {
    hide BytesToBits, LittleEndian, Window, Shows;
    WindowShows(src, ip + bitCount / 8, bitCount % 8);
  }

  /** Or to the last four bytes. */
  lemma {:induction false} Clamped(src: seq<byte>, ip: nat, bitCount: nat)
    requires ip + 4 <= |src| && 8 * ip + bitCount + 8 <= 8 * |src| && ip + bitCount / 8 + 4 > |src|
    ensures var b := bitCount - 8 * (|src| - 4 - ip);
      0 <= b < 32 && Near(src, |src| - 4, b) && Shows(src, |src| - 4, b, Window(src, |src| - 4, b))
  {
    hide BytesToBits, LittleEndian, Window, Shows;
    WindowShows(src, |src| - 4, bitCount - 8 * (|src| - 4 - ip));
  }

  /** What follows a zero: the run, then the move of the window. */
  method ReadRun(src: seq<byte>, ip0: nat, bitCount0: nat, bitStream0: nat, charnum: nat, ghost clear: bool)
    returns (ip: nat, bitCount: nat, bitStream: nat, n0: nat)
    requires ip0 + 4 <= |src| && (bitCount0 <= 7 || ip0 + 7 > |src|)
    requires clear ==> Near(src, ip0, bitCount0) && Shows(src, ip0, bitCount0, bitStream0) && RunFrom(Front(src), 8 * ip0 + bitCount0).Run?
    ensures ip + 4 <= |src| && (bitCount <= 7 || ip + 7 > |src|) && n0 >= charnum
    ensures clear ==> Near(src, ip, bitCount) && Shows(src, ip, bitCount, bitStream)
    ensures clear ==> RunFrom(Front(src), 8 * ip0 + bitCount0) == Run(n0 - charnum, 8 * ip + bitCount)
  {
    hide BytesToBits, ToNat, ToBits, Shr, Mask, Pow2, Window, RunFrom, PairsFrom, Shows;
    ip, bitCount, bitStream, n0 := SkipBlocks(src, ip0, bitCount0, bitStream0, charnum, clear);
    bitCount, bitStream, n0 := SkipPairs(src, ip, bitCount, bitStream, n0, clear);
    if ip + 7 <= |src| || ip + bitCount / 8 + 4 <= |src| {
      if clear { Moved(src, ip, bitCount); }
      ip := ip + bitCount / 8;
      bitCount := bitCount % 8;
      bitStream := Window(src, ip, bitCount);
    } else {
      bitStream := Shr(bitStream, 2);
    }
  }

  lemma {:induction false} CountSeen(src: seq<byte>, ip: nat, bitCount: nat, bitStream: nat, remaining: nat)
    requires Near(src, ip, bitCount) && Shows(src, ip, bitCount, bitStream) && 2 <= remaining && HighBit(remaining) < 16
    requires CountFrom(Front(src), 8 * ip + bitCount, remaining).Count?
    ensures var (count, len) := ReadCode(bitStream, remaining);
      CountFrom(Front(src), 8 * ip + bitCount, remaining) == Count(count, 8 * ip + bitCount + len)
  {
    hide BytesToBits, ToNat, Mask, Pow2, HighBit, Shows, Look;
    var h := HighBit(remaining);
    Seen(src, ip, bitCount, bitStream, h);
    if Mask(bitStream, h) >= ShortCodes(remaining) { Seen(src, ip, bitCount, bitStream, h + 1); }
  }

  /** The count of one symbol and the move of the window. */
  method ReadSymbol(src: seq<byte>, ip0: nat, bitCount0: nat, bitStream0: nat, remaining: nat, threshold: nat, nbBits: nat, ghost clear: bool)
    returns (ip: nat, bitCount: nat, bitStream: nat, count: int)
    requires ip0 + 4 <= |src| && (bitCount0 <= 7 || ip0 + 7 > |src|)
    requires remaining >= 2 && nbBits == HighBit(remaining) + 1 && threshold == Pow2(HighBit(remaining)) && nbBits <= 16
    requires clear ==> Near(src, ip0, bitCount0) && Shows(src, ip0, bitCount0, bitStream0) && CountFrom(Front(src), 8 * ip0 + bitCount0, remaining).Count?
    ensures ip + 4 <= |src| && (bitCount <= 7 || ip + 7 > |src|)
    ensures -1 <= count < remaining
    ensures clear ==> Near(src, ip, bitCount) && Shows(src, ip, bitCount, bitStream)
    ensures clear ==> CountFrom(Front(src), 8 * ip0 + bitCount0, remaining) == Count(count, 8 * ip + bitCount)
  {
    hide BytesToBits, ToNat, ToBits, Shr, Mask, Pow2, HighBit, Window, CountFrom, Shows;
    ip, bitCount, bitStream := ip0, bitCount0, bitStream0;
    var max := 2 * threshold - 1 - remaining;
    ReadCodeRange(bitStream, remaining);
    if clear { CountSeen(src, ip, bitCount, bitStream, remaining); }
    if Mask(bitStream, nbBits - 1) < max {
      count := Mask(bitStream, nbBits - 1);
      bitCount := bitCount + nbBits - 1;
    } else {
      count := Mask(bitStream, nbBits);
      if count >= threshold { count := count - max; }
      bitCount := bitCount + nbBits;
    }
    count := count - 1;
    ip, bitCount, bitStream := MoveOn(src, ip, bitCount, clear);
  }

  /** The move of the window behind a count. */
  method MoveOn(src: seq<byte>, ip0: nat, bitCount0: nat, ghost clear: bool) returns (ip: nat, bitCount: nat, bitStream: nat)
    requires ip0 + 4 <= |src| && (bitCount0 <= 23 || ip0 + 7 > |src|)
    requires clear ==> 8 * ip0 + bitCount0 + 8 <= 8 * |src|
    ensures ip + 4 <= |src| && (bitCount <= 7 || ip + 7 > |src|)
    ensures clear ==> Near(src, ip, bitCount) && Shows(src, ip, bitCount, bitStream) && 8 * ip + bitCount == 8 * ip0 + bitCount0
  {
    hide BytesToBits, ToNat, LittleEndian, Window, Shows;
    ip, bitCount := ip0, bitCount0;
    if ip + 7 <= |src| || ip + bitCount / 8 + 4 <= |src| {
      if clear { Moved(src, ip, bitCount); }
      ip := ip + bitCount / 8;
      bitCount := bitCount % 8;
    } else {
      if clear { Clamped(src, ip, bitCount); }
      bitCount := bitCount - 8 * (|src| - 4 - ip);
      ip := |src| - 4;
    }
    bitStream := Window(src, ip, bitCount % 32);
  }

  lemma {:induction false} CodeLength(count: int, remaining: nat)
    requires remaining > 0 && -1 <= count < remaining
    ensures |Code(count, remaining)| <= HighBit(remaining) + 1
  {
  }

  lemma {:induction false} FirstRange(L: nat)
    requires 5 <= L <= 15
    ensures HighBit(Pow2(L) + 1) == L
  {
    HighBitUnique(Pow2(L) + 1, L);
  }

  /** The reader's place, as long as the input is clear. */
  ghost predicate AtLoop(src: seq<byte>, whole: HeaderRead, max: nat, got: seq<int>, previous0: bool, remaining: nat, ip: nat, bitCount: nat, bitStream: nat) {
    whole != Cut ==>
      && Near(src, ip, bitCount) && Shows(src, ip, bitCount, bitStream) && remaining >= 1
      && whole == NormsFrom(Front(src), 8 * ip + bitCount, got, previous0, remaining, max)
  }

  /** The same between a run, if any, and the count of a symbol. */
  ghost predicate AtSymbol(src: seq<byte>, whole: HeaderRead, max: nat, got: seq<int>, remaining: nat, ip: nat, bitCount: nat, bitStream: nat) {
    whole != Cut ==>
      && Near(src, ip, bitCount) && Shows(src, ip, bitCount, bitStream) && remaining >= 2
      && whole == SymbolFrom(Front(src), 8 * ip + bitCount, got, remaining, max)
  }

  /** On any input: the counts read so far and the points left make up the table. */
  ghost predicate Tally(counter: seq<int>, i: nat, remaining: nat, tableLog: nat) {
    && i <= |counter|
    && (forall t :: 0 <= t < i ==> counter[t] >= -1)
    && PosSum(counter[..i]) + LowCount(counter[..i]) + remaining == Pow2(tableLog) + 1
  }

  lemma {:induction false} TallyNext(before: seq<int>, after: seq<int>, i: nat, remaining: nat, tableLog: nat)
    requires i < |before| == |after| && Tally(before, i, remaining, tableLog)
    requires before[..i] == after[..i] && -1 <= after[i] && Weight(after[i]) < remaining
    ensures Tally(after, i + 1, remaining - Weight(after[i]), tableLog)
  {
    hide PosSum, LowCount, Pow2;
    PosSumNext(after, i);
    forall t | 0 <= t < i ensures after[t] == before[t] {
      assert after[..i][t] == before[..i][t];
    }
  }

  /** After a zero: the run, the zeros it stands for, and a nonzero symbol. */
  method ReadZeros(src: seq<byte>, counter: array<int>, maxSymbolValue: nat, ip0: nat, bitCount0: nat, bitStream0: nat, charnum0: nat,
                   remaining: nat, ghost tableLog: nat, ghost whole: HeaderRead)
    returns (ok: bool, ip: nat, bitCount: nat, bitStream: nat, charnum: nat)
    requires counter.Length > maxSymbolValue && charnum0 <= maxSymbolValue && remaining > 1
    requires ip0 + 4 <= |src| && (bitCount0 <= 7 || ip0 + 7 > |src|)
    requires AtLoop(src, whole, maxSymbolValue, counter[..charnum0], true, remaining, ip0, bitCount0, bitStream0)
    requires Tally(counter[..], charnum0, remaining, tableLog)
    modifies counter
    ensures ok ==> Tally(counter[..], charnum, remaining, tableLog)
    ensures ip + 4 <= |src| && (bitCount <= 7 || ip + 7 > |src|)
    ensures ok ==> charnum0 <= charnum <= maxSymbolValue
    ensures ok ==> AtSymbol(src, whole, maxSymbolValue, counter[..charnum], remaining, ip, bitCount, bitStream)
    ensures !ok ==> whole == Cut || whole == TooManySymbols
  {
    hide BytesToBits, ToNat, ToBits, Shr, Mask, Pow2, HighBit, Window, Tally, RunFrom, SymbolFrom, Shows;
    ok, charnum := true, charnum0;
    ghost var got := counter[..charnum0];
    var n0;
    ip, bitCount, bitStream, n0 := ReadRun(src, ip0, bitCount0, bitStream0, charnum, whole != Cut);
    if n0 > maxSymbolValue { ok := false; return; }
    while charnum < n0
      invariant charnum0 <= charnum <= n0
      invariant counter[..charnum] == got + Zeros(charnum - charnum0)
      invariant Tally(counter[..], charnum, remaining, tableLog)
    {
      ghost var before := counter[..];
      counter[charnum] := 0;
      assert before[..charnum] == counter[..][..charnum];
      TallyNext(before, counter[..], charnum, remaining, tableLog);
      charnum := charnum + 1;
      assert counter[..charnum] == before[..charnum - 1] + [0];
    }
  }

  /** One symbol: its count, the points it takes, and whether a run follows. */
  method ReadOne(src: seq<byte>, counter: array<int>, ghost maxSymbolValue: nat, ip0: nat, bitCount0: nat, bitStream0: nat, charnum: nat,
                 remaining0: nat, threshold0: nat, nbBits0: nat, ghost tableLog: nat, ghost whole: HeaderRead)
    returns (ip: nat, bitCount: nat, bitStream: nat, remaining: nat, threshold: nat, nbBits: nat, previous0: bool)
    requires charnum < counter.Length && remaining0 > 1
    requires ip0 + 4 <= |src| && (bitCount0 <= 7 || ip0 + 7 > |src|)
    requires nbBits0 == HighBit(remaining0) + 1 && threshold0 == Pow2(HighBit(remaining0)) && nbBits0 <= 16
    requires AtSymbol(src, whole, maxSymbolValue, counter[..charnum], remaining0, ip0, bitCount0, bitStream0)
    requires Tally(counter[..], charnum, remaining0, tableLog)
    modifies counter
    ensures Tally(counter[..], charnum + 1, remaining, tableLog)
    ensures ip + 4 <= |src| && (bitCount <= 7 || ip + 7 > |src|) && 1 <= remaining
    ensures nbBits == HighBit(remaining) + 1 && threshold == Pow2(HighBit(remaining)) && nbBits <= 16
    ensures AtLoop(src, whole, maxSymbolValue, counter[..charnum + 1], previous0, remaining, ip, bitCount, bitStream)
  {
    hide BytesToBits, ToNat, ToBits, Shr, Mask, Pow2, HighBit, Window, Tally, CountFrom, NormsFrom, Shows;
    var count;
    ip, bitCount, bitStream, count := ReadSymbol(src, ip0, bitCount0, bitStream0, remaining0, threshold0, nbBits0, whole != Cut);
    remaining := remaining0 - Weight(count);
    ghost var before := counter[..];
    counter[charnum] := count;
    assert before[..charnum] == counter[..][..charnum];
    TallyNext(before, counter[..], charnum, remaining0, tableLog);
    assert counter[..charnum + 1] == before[..charnum] + [count];
    previous0 := count == 0;
    ShortCodesBound(remaining0);
    threshold, nbBits := Shrink(remaining, threshold0, nbBits0);
    SmallerHighBit(remaining, remaining0);
  }

  lemma {:induction false} SmallerHighBit(a: nat, b: nat)
    requires 0 < a <= b
    ensures HighBit(a) <= HighBit(b)
  {
    if HighBit(a) > HighBit(b) { Pow2Mono(HighBit(b) + 1, HighBit(a)); }
  }

  lemma {:induction false} FirstLook(src: seq<byte>)
    requires |src| >= 4
    ensures Mask(Window(src, 0, 0), 4) + MIN_TABLELOG == LogOf(src) && Near(src, 0, 4) && Shows(src, 0, 4, Shr(Window(src, 0, 0), 4))
  {
    hide BytesToBits, ToNat, Shr, Mask, Window, Look;
    WindowShows(src, 0, 0);
    Seen(src, 0, 0, Window(src, 0, 0), 4);
    ShowsShift(src, 0, 0, Window(src, 0, 0), 4);
  }

  /** How the reader answers to what the input says. */
  ghost predicate Answers(r: ReadResult, h: HeaderRead, tableLog: nat, counter: seq<int>) {
    match h
    case Norms(norm, end) => norm != [] && norm <= counter && r == Read(tableLog, |norm| - 1, BytesFor(end))
    case TooManySymbols => r == MaxSymbolValueTooSmall
    case PointsLeft => r == CorruptionDetected
    case Cut => true
  }

  /** `FSE_readNCount`. On any input it stays inside its buffers and ends, and what it accepts
      shares out the table. If what the input says does not depend on its last byte, that is what
      it answers. */
  method ReadNCount(counter: array<int>, maxSymbolValue: nat, src: seq<byte>) returns (r: ReadResult)
    requires counter.Length > maxSymbolValue
    modifies counter
    ensures r == SrcSizeWrong <==> |src| < 4
    ensures r == ReadTableLogTooLarge <==> |src| >= 4 && LogOf(src) > TABLELOG_ABSOLUTE_MAX
    ensures r.Read? ==>
              && |src| >= 4 && MIN_TABLELOG <= r.tableLog == LogOf(src) <= TABLELOG_ABSOLUTE_MAX && r.maxSymbolValue <= maxSymbolValue
              && Tally(counter[..], r.maxSymbolValue + 1, 1, r.tableLog) && r.size <= |src|
    ensures |src| >= 4 && LogOf(src) <= TABLELOG_ABSOLUTE_MAX ==> Answers(r, HeaderOf(src, maxSymbolValue), LogOf(src), counter[..])
  {
    hide BytesToBits, ToNat, ToBits, Shr, Mask, Pow2, HighBit, Window, AtSymbol, Tally, NormsFrom, Shows, LogOf, Near;
    if |src| < 4 { return SrcSizeWrong; }
    FirstLook(src);
    ghost var whole := HeaderOf(src, maxSymbolValue);
    var bitStream := Window(src, 0, 0);
    var nbBits: nat := Mask(bitStream, 4) + MIN_TABLELOG;
    if nbBits > TABLELOG_ABSOLUTE_MAX { return ReadTableLogTooLarge; }
    var tableLog := nbBits;
    bitStream := Shr(bitStream, 4);
    var bitCount: nat, ip: nat := 4, 0;
    var remaining: nat, threshold: nat := Pow2(nbBits) + 1, Pow2(nbBits);
    FirstRange(nbBits);
    nbBits := nbBits + 1;
    var charnum: nat, previous0 := 0, false;
    assert counter[..0] == [];
    TallyStart(counter[..], tableLog);
    while remaining > 1 && charnum <= maxSymbolValue
      invariant charnum <= maxSymbolValue + 1 && remaining >= 1 && (charnum == 0 ==> remaining > 1)
      invariant Tally(counter[..], charnum, remaining, tableLog)
      invariant ip + 4 <= |src| && (bitCount <= 7 || ip + 7 > |src|)
      invariant nbBits == HighBit(remaining) + 1 && threshold == Pow2(HighBit(remaining)) && nbBits <= 16
      invariant AtLoop(src, whole, maxSymbolValue, counter[..charnum], previous0, remaining, ip, bitCount, bitStream)
      decreases maxSymbolValue + 1 - charnum
    {
      if previous0 {
        var ok;
        ok, ip, bitCount, bitStream, charnum :=
          ReadZeros(src, counter, maxSymbolValue, ip, bitCount, bitStream, charnum, remaining, tableLog, whole);
        if !ok { return MaxSymbolValueTooSmall; }
      } else {
        NoZeros(src, whole, maxSymbolValue, counter[..charnum], remaining, ip, bitCount, bitStream);
      }
      ip, bitCount, bitStream, remaining, threshold, nbBits, previous0 :=
        ReadOne(src, counter, maxSymbolValue, ip, bitCount, bitStream, charnum, remaining, threshold, nbBits, tableLog, whole);
      charnum := charnum + 1;
    }
    LoopEnd(src, whole, maxSymbolValue, counter[..charnum], previous0, remaining, ip, bitCount, bitStream);
    assert counter[..charnum] <= counter[..];
    if remaining != 1 { return CorruptionDetected; }
    if bitCount > 32 { return CorruptionDetected; }
    r := Read(tableLog, charnum - 1, ip + (bitCount + 7) / 8);
  }

  lemma {:induction false} NoZeros(src: seq<byte>, whole: HeaderRead, max: nat, got: seq<int>, remaining: nat, ip: nat, bitCount: nat, bitStream: nat)
    requires AtLoop(src, whole, max, got, false, remaining, ip, bitCount, bitStream) && remaining > 1 && |got| <= max
    ensures AtSymbol(src, whole, max, got, remaining, ip, bitCount, bitStream)
  {
    hide Shows, Near, SymbolFrom;
  }

  lemma {:induction false} LoopEnd(src: seq<byte>, whole: HeaderRead, max: nat, got: seq<int>, previous0: bool, remaining: nat, ip: nat, bitCount: nat, bitStream: nat)
    requires AtLoop(src, whole, max, got, previous0, remaining, ip, bitCount, bitStream) && remaining >= 1 && (remaining == 1 || |got| > max)
    ensures whole == Cut || (bitCount <= 32 && ip + (bitCount + 7) / 8 == BytesFor(8 * ip + bitCount) && whole == if remaining == 1 then Norms(got, 8 * ip + bitCount) else PointsLeft)
  {
    hide BytesToBits, ToNat, SymbolFrom;
  }

  lemma {:induction false} TallyStart(counter: seq<int>, tableLog: nat)
    ensures Tally(counter, 0, Pow2(tableLog) + 1, tableLog)
  {
    LowNone(counter[..0]);
  }

  /** The two ways to say that norms share out the table. */
  lemma {:induction false} TailIsRest(norm: seq<int>, i: nat)
    requires IsNorm(norm) && i <= |norm|
    ensures TailWeight(norm, i) + PosSum(norm[..i]) + LowCount(norm[..i]) == TailWeight(norm, 0)
    ensures i == |norm| ==> TailWeight(norm, 0) == PosSum(norm) + LowCount(norm)
  {
    hide PosSum, LowCount;
    if i == 0 {
      LowNone(norm[..0]);
    } else {
      TailIsRest(norm, i - 1);
      PosSumNext(norm, i - 1);
    }
    if i == |norm| { assert norm[..i] == norm; }
  }
}
