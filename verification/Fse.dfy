/** The whole FSE compressor and decompressor: histogram, table log, normalised counts,
    header, tables and stream, and the round trip of `FSE_compress2` and
    `FSE_decompress`. */
module Fse {
  import opened Bits
  import opened BitStream
  import opened Counts
  import opened FseSpread
  import opened FseTable
  import FseNormalize
  import FseHeader
  import FseStream

  /** `Overrun`: an unchecked write would leave the destination. `Undefined`: the size of the work
      space is computed with a shift that C leaves undefined. */
  datatype Compressed =
    | Block(bytes: seq<byte>)
    | NotCompressible
    | SingleSymbol
    | Error
    | Overrun
    | Undefined

  datatype Decompressed = Regenerated(size: nat) | DstTooSmall | Refused

  // ---------- the histogram ----------

  /** Counts of the symbols up to the largest one that occurs. */
  ghost predicate IsHistogram(count: seq<nat>, src: seq<byte>) {
    && 1 <= |count| <= 256 && count[|count| - 1] > 0
    && (forall s :: 0 <= s < |count| ==> count[s] == Count(src, s))
    && (forall i :: 0 <= i < |src| ==> src[i] < |count|)
    && Sum(count) == |src|
  }

  lemma {:induction false} SumBump(count: seq<nat>, s: nat)
    requires s < |count|
    ensures Sum(count[s := count[s] + 1]) == Sum(count) + 1
  {
    var n := |count| - 1;
    if s < n {
      SumBump(count[..n], s);
      assert count[s := count[s] + 1][..n] == count[..n][s := count[s] + 1];
    } else {
      assert count[s := count[s] + 1][..n] == count[..n];
    }
  }

  lemma {:induction false} SumZeros(count: seq<nat>)
    requires forall s :: 0 <= s < |count| ==> count[s] == 0
    ensures Sum(count) == 0
  {
    if count != [] { SumZeros(count[..|count| - 1]); }
  }

  lemma {:induction false} CountPositive(src: seq<byte>, i: nat)
    requires i < |src|
    ensures Count(src, src[i]) > 0
  {
    var n := |src| - 1;
    if i < n { CountPositive(src[..n], i); }
  }

  /** `FSE_count_simple`: counts, the largest symbol and the largest count. */
  method Histogram(src: seq<byte>) returns (count: seq<nat>, max: nat)
    requires |src| > 0
    ensures IsHistogram(count, src)
    ensures forall s :: 0 <= s < |count| ==> count[s] <= max
    ensures exists s :: 0 <= s < |count| && count[s] == max
  {
    hide Count, Sum;
    var table := new nat[256](_ => 0);
    SumZeros(table[..]);
    forall s: nat ensures Count(src[..0], s) == 0 { CountEmpty(src[..0], s); }
    for ip := 0 to |src|
      invariant forall s :: 0 <= s < 256 ==> table[s] == Count(src[..ip], s)
      invariant Sum(table[..]) == ip
    {
      ghost var before := table[..];
      SumBump(before, src[ip]);
      table[src[ip]] := table[src[ip]] + 1;
      assert table[..] == before[src[ip] := before[src[ip]] + 1];
      forall s: nat ensures Count(src[..ip + 1], s) == Count(src[..ip], s) + if src[ip] == s then 1 else 0 {
        CountNext(src, ip, s);
      }
    }
    assert src[..|src|] == src;
    forall i | 0 <= i < |src| ensures table[src[i]] > 0 { CountPositive(src, i); }
    assert table[src[0]] > 0;
    var maxSymbolValue := 255;
    while table[maxSymbolValue] == 0
      invariant src[0] <= maxSymbolValue <= 255
      invariant forall s :: maxSymbolValue < s < 256 ==> table[s] == 0
      decreases maxSymbolValue
    {
      maxSymbolValue := maxSymbolValue - 1;
    }
    SumTrim(table[..], maxSymbolValue + 1);
    count := table[..maxSymbolValue + 1];
    assert table[..][..maxSymbolValue + 1] == count;
    max := 0;
    for s := 0 to maxSymbolValue + 1
      invariant forall t :: 0 <= t < s ==> count[t] <= max
      invariant s == 0 ==> max == 0
      invariant s > 0 ==> exists t :: 0 <= t < s && count[t] == max
    {
      if count[s] > max { max := count[s]; }
    }
  }

  lemma {:induction false} SumTrim(count: seq<nat>, n: nat)
    requires n <= |count| && forall s :: n <= s < |count| ==> count[s] == 0
    ensures Sum(count[..n]) == Sum(count)
  {
    if n < |count| {
      SumTrim(count[..|count| - 1], n);
      assert count[..|count| - 1][..n] == count[..n];
    } else {
      assert count[..n] == count;
    }
  }

  // ---------- the table log ----------

  /** `FSE_optimalTableLog`: `highbit - 2` is unsigned and wraps for tiny sources. */
  function OptimalTableLog(maxTableLog: nat, srcSize: nat, maxSymbolValue: nat): nat
    requires srcSize > 1 && maxSymbolValue > 0
  {
    var h := HighBit(srcSize - 1);
    var maxBitsSrc := if h >= 2 then h - 2 else h + 0xFFFF_FFFE;
    var minBits := FseNormalize.MinTableLog(srcSize, maxSymbolValue);
    var t0 := if maxTableLog == 0 then FseNormalize.DEFAULT_TABLELOG else maxTableLog;
    var t1 := if maxBitsSrc < t0 then maxBitsSrc else t0;
    var t2 := if minBits > t1 then minBits else t1;
    var t3 := if t2 < MIN_TABLELOG then MIN_TABLELOG else t2;
    if t3 > MAX_TABLELOG then MAX_TABLELOG else t3
  }

  /** The chosen table log is legal and never below the minimum for a byte alphabet. */
  lemma {:induction false} OptimalIsEnough(maxTableLog: nat, srcSize: nat, maxSymbolValue: nat)
    requires srcSize > 1 && 0 < maxSymbolValue < 256
    ensures var L := OptimalTableLog(maxTableLog, srcSize, maxSymbolValue);
            MIN_TABLELOG <= L <= MAX_TABLELOG && L >= FseNormalize.MinTableLog(srcSize, maxSymbolValue)
  {
    LastByteHighBit(maxSymbolValue);
  }

  lemma {:induction false} PowFour()
    ensures Pow2(2) == 4
  {
  }

  /** The largest table log that is neither above the one asked for nor finer than a quarter of the
      source's size, unless a source or an alphabet of that size, or the format, needs more. A
      source of at most four bytes has no such limit, because two is subtracted from an unsigned
      number. */
  lemma {:induction false} OptimalIsLargest(maxTableLog: nat, srcSize: nat, maxSymbolValue: nat)
    requires srcSize > 1 && 0 < maxSymbolValue < 256
    ensures var L := OptimalTableLog(maxTableLog, srcSize, maxSymbolValue);
      var t := if maxTableLog == 0 then 11 else maxTableLog;
      && 5 <= L <= 12 && (srcSize <= Pow2(L) || 2 * (maxSymbolValue + 1) <= Pow2(L))
      && (L > 5 && (srcSize <= Pow2(L - 1) || 2 * (maxSymbolValue + 1) <= Pow2(L - 1)) ==> L <= t && (srcSize > 4 ==> Pow2(L + 2) < srcSize))
      && (L < 12 ==> L >= t || (srcSize > 4 && Pow2(L + 3) >= srcSize))
  {
    hide Pow2, HighBit;
    var L := OptimalTableLog(maxTableLog, srcSize, maxSymbolValue);
    OptimalIsEnough(maxTableLog, srcSize, maxSymbolValue);
    FseNormalize.MinIsLeast(srcSize, maxSymbolValue, L);
    FseNormalize.MinIsLeast(srcSize, maxSymbolValue, L - 1);
    HighBitBelow(srcSize - 1, L + 2);
    HighBitBelow(srcSize - 1, L + 3);
    HighBitBelow(srcSize - 1, 2);
    assert Pow2(2) == 4 by { PowFour(); }
    LastByteHighBit(maxSymbolValue);
  }

  // ---------- compressing ----------

  /** Norms and tables fit for a source: the header can describe them, every symbol of the
      source has a cell, and the last but one does not own the table. */
  ghost predicate Prepared(norm: seq<int>, L: nat, spread: seq<byte>, ct: CTable, src: seq<byte>) {
    && |src| > 2
    && FseHeader.Describable(norm, L) && FseHeader.Recorded(norm) == |norm|
    && IsCTable(norm, L, spread, ct) && FseStream.Codable(norm, src)
    && Weight(norm[src[|src| - 2]]) < Pow2(L)
  }

  ghost function HeaderSize(norm: seq<int>, L: nat): nat
    requires IsNorm(norm) && L >= MIN_TABLELOG
  {
    FseHeader.BytesFor(|FseHeader.HeaderBits(norm, L)|)
  }

  /** What a compressed block is made of: the header of norms that share out the table
      and give every symbol of the source a cell, and the stream of the source. */
  ghost predicate IsBlock(bytes: seq<byte>, norm: seq<int>, L: nat, spread: seq<byte>, ct: CTable, src: seq<byte>) {
    && Prepared(norm, L, spread, ct, src)
    && var headerSize := HeaderSize(norm, L);
    && headerSize <= |bytes|
    && FseHeader.HeaderBits(norm, L) <= BytesToBits(bytes[..headerSize])
    && IsStream(bytes[headerSize..], FseStream.BlockBits(norm, L, spread, ct, src))
  }

  /** A symbol that is not alone does not own the table. */
  lemma {:induction false} NotWhole(norm: seq<int>, s: nat, t: nat)
    requires s < |norm| && t < |norm| && s != t && norm[t] != 0
    ensures Weight(norm[s]) < FseNormalize.Shares(norm)
  {
    FseNormalize.SharesUpdate(norm, t, 0);
    OneShare(norm[t := 0], s);
  }

  lemma {:induction false} OneShare(norm: seq<int>, s: nat)
    requires s < |norm|
    ensures Weight(norm[s]) <= FseNormalize.Shares(norm)
  {
    FseNormalize.SharesUpdate(norm, s, 0);
  }

  /** Another symbol occurs when no symbol is the whole source. */
  lemma {:induction false} AnotherOccurs(count: seq<nat>, s: nat) returns (t: nat)
    requires s < |count| && count[s] != Sum(count)
    ensures t < |count| && t != s && count[t] > 0
  {
    var n := |count| - 1;
    if s == n {
      t := SomeOccurs(count[..n]);
    } else if count[n] > 0 {
      t := n;
    } else {
      t := AnotherOccurs(count[..n], s);
    }
  }

  lemma {:induction false} SomeOccurs(count: seq<nat>) returns (t: nat)
    requires Sum(count) > 0
    ensures t < |count| && count[t] > 0
  {
    var n := |count| - 1;
    if count[n] > 0 { t := n; } else { t := SomeOccurs(count[..n]); }
  }

  /** Normalised counts of a histogram meet every demand of the header, the tables and
      the stream. */
  lemma {:induction false} NormsFit(norm: seq<int>, count: seq<nat>, L: nat, src: seq<byte>)
    requires IsHistogram(count, src) && FseNormalize.IsNormalized(norm, count, L)
    requires MIN_TABLELOG <= L <= MAX_TABLELOG && |src| > 2
    requires forall s :: 0 <= s < |count| ==> count[s] != |src|
    ensures SharesOut(norm, L) && Checkable(norm, L)
    ensures FseHeader.Describable(norm, L) && FseHeader.Recorded(norm) == |norm|
    ensures FseStream.Codable(norm, src) && Weight(norm[src[|src| - 2]]) < Pow2(L)
  {
    hide Count, Sum, FseNormalize.Shares, PosSum, LowCount, Pow2, WholeRounds, FseHeader.TailWeight;
    FseNormalize.SharesAreNorms(norm, |norm|);
    assert norm[..|norm|] == norm;
    FseHeader.TailIsRest(norm, |norm|);
    FseStream.CheckableShares(norm, L);
    forall i | 0 <= i < |src| ensures norm[src[i]] != 0 { CountPositive(src, i); }
    var s := src[|src| - 2];
    var t := AnotherOccurs(count, s);
    NotWhole(norm, s, t);
    LastRecorded(norm);
  }

  lemma {:induction false} LastRecorded(norm: seq<int>)
    requires norm != [] && norm[|norm| - 1] != 0
    ensures FseHeader.Recorded(norm) == |norm|
  {
  }

  /** The norms of a source: its counts, normalised for the table log that its size suggests. */
  ghost predicate Chosen(norm: seq<int>, L: nat, count: seq<nat>, src: seq<byte>, tableLog: nat) {
    && IsHistogram(count, src) && |src| > 1 && |count| > 1
    && L == OptimalTableLog(tableLog, |src|, |count| - 1) && L <= MAX_TABLELOG
    && FseNormalize.IsNormalized(norm, count, L) && FseNormalize.Corrected(norm, count, L)
  }

  /** Norms for a source with at least two symbols, one of them repeated. They always exist. */
  method ChooseNorms(src: seq<byte>, count: seq<nat>, max: nat, tableLog: nat) returns (norm: seq<int>, L: nat)
    requires IsHistogram(count, src) && 2 < |src| < Pow2(32) && 2 <= max < |src|
    requires forall s :: 0 <= s < |count| ==> count[s] <= max
    requires exists s :: 0 <= s < |count| && count[s] == max
    ensures SharesOut(norm, L) && Checkable(norm, L) && Chosen(norm, L, count, src, tableLog)
    ensures FseHeader.Describable(norm, L) && FseHeader.Recorded(norm) == |norm|
    ensures FseStream.Codable(norm, src) && Weight(norm[src[|src| - 2]]) < Pow2(L)
  {
    hide Count, Sum, FseNormalize.Shares, PosSum, LowCount, Pow2, FseHeader.TailWeight, OptimalTableLog, FseNormalize.MinTableLog, FseNormalize.Corrected;
    ghost var s :| 0 <= s < |count| && count[s] == max;
    ghost var t := AnotherOccurs(count, s);
    OptimalIsEnough(tableLog, |src|, |count| - 1);
    L := OptimalTableLog(tableLog, |src|, |count| - 1);
    var table := new int[|count|];
    var r := FseNormalize.NormalizeCount(table, L, count);
    norm := table[..];
    NormsFit(norm, count, L, src);
  }

  ghost predicate AllSame(src: seq<byte>) { forall i :: 0 <= i < |src| ==> src[i] == src[0] }

  /** Some symbol is repeated, and makes up a hundred and twenty-eighth of the source. */
  ghost predicate Promising(src: seq<byte>) { exists s :: 0 <= s < 256 && Count(src, s) >= 2 && Count(src, s) >= |src| / 128 }

  /** What becomes of a source once its norms are chosen. The header and then the stream must
      have room; where the sizes promise it too early, an unchecked write leaves the
      destination. A block must be smaller than the source. */
  ghost predicate Follows(r: Compressed, capacity: nat, norm: seq<int>, L: nat, spread: seq<byte>, ct: CTable, src: seq<byte>)
    requires Prepared(norm, L, spread, ct, src) && |FseHeader.HeaderBits(norm, L)| > 0
  {
    var need, size, bits := FseHeader.RoomFor(|FseHeader.HeaderBits(norm, L)|), HeaderSize(norm, L), FseStream.BlockBits(norm, L, spread, ct, src);
    if capacity < need then
      r == if capacity >= FseHeader.WriteBound(|norm| - 1, L) then Overrun else Error
    else
      HeaderRoom(norm, L);
      if capacity - size >= FseStream.BlockBound(|src|) && !FseStream.FlushesFit(norm, L, spread, ct, src, capacity - size) then
        r == Overrun
      else if FseStream.Refuses(norm, L, spread, ct, src, capacity - size) || size + |bits| / 8 + 1 >= |src| - 1 then
        r == NotCompressible
      else
        r.Block? && IsBlock(r.bytes, norm, L, spread, ct, src) && |r.bytes| == size + |bits| / 8 + 1 <= capacity
  }

  /** With the general bound for the header and twelve bits a symbol, nothing overruns. */
  lemma {:induction false} AmpleCapacity(r: Compressed, capacity: nat, norm: seq<int>, L: nat, spread: seq<byte>, ct: CTable, src: seq<byte>)
    requires Prepared(norm, L, spread, ct, src) && |FseHeader.HeaderBits(norm, L)| > 0 && Follows(r, capacity, norm, L, spread, ct, src)
    requires MAX_TABLELOG * |src| <= 8 * (capacity - FseHeader.NCOUNT_BOUND - REGISTER_BYTES)
    ensures r != Overrun && r != Error
  {
    hide FseHeader.HeaderBits, FseStream.FlushesFit, FseStream.Refuses, FseStream.BlockBits, IsBlock, Pow2, FseHeader.TailWeight, IsSpread, IsTransform, FseStream.Codable;
    FseHeader.HeaderFits(norm, L);
    HeaderRoom(norm, L);
    FseStream.AmpleRoom(norm, L, spread, ct, src, capacity - HeaderSize(norm, L));
  }

  /** `FSE_compress2` for byte symbols: every outcome, with its exact condition. */
  method Compress(capacity: nat, src: seq<byte>, tableLog: nat)
    returns (r: Compressed, ghost count: seq<nat>, ghost norm: seq<int>, ghost L: nat, ghost spread: seq<byte>, ghost ct: CTable)
    requires |src| < Pow2(32)
    ensures r == Undefined <==> tableLog == 0
    ensures tableLog > MAX_TABLELOG ==> r == Error
    ensures 1 <= tableLog <= MAX_TABLELOG && |src| <= 1 ==> r == NotCompressible
    ensures r == SingleSymbol <==> 1 <= tableLog <= MAX_TABLELOG && |src| > 1 && AllSame(src)
    ensures 1 <= tableLog <= MAX_TABLELOG && |src| > 1 && !AllSame(src) && !Promising(src) ==> r == NotCompressible
    ensures 1 <= tableLog <= MAX_TABLELOG && |src| > 1 && !AllSame(src) && Promising(src) ==>
      && Chosen(norm, L, count, src, tableLog) && Prepared(norm, L, spread, ct, src)
      && |FseHeader.HeaderBits(norm, L)| > 0 && Follows(r, capacity, norm, L, spread, ct, src)
  {
    hide Count, Sum, PosSum, LowCount, Pow2, FseHeader.HeaderBits, BytesToBits, FseStream.BlockBits, FseStream.Codable, IsSpread, Prepared, Follows, Promising, AllSame, Chosen;
    count, norm, L, spread, ct := [], [], 0, [], CTable(0, [], []);
    if tableLog > MAX_TABLELOG { r := Error; return; }
    if tableLog == 0 { r := Undefined; return; }
    if |src| <= 1 { r := NotCompressible; return; }
    var counts, max := Histogram(src);
    count := counts;
    Measured(counts, src, max);
    if max == |src| { r := SingleSymbol; return; }
    if max == 1 { r := NotCompressible; return; }
    if max < |src| / 128 { r := NotCompressible; return; }
    AtLeastThree(counts, src, max);
    r, norm, L, spread, ct := CompressCounted(capacity, src, tableLog, counts, max);
  }

  /** The part of it behind the histogram. */
  method CompressCounted(capacity: nat, src: seq<byte>, tableLog: nat, count: seq<nat>, max: nat)
    returns (r: Compressed, ghost norm: seq<int>, ghost L: nat, ghost spread: seq<byte>, ghost ct: CTable)
    requires IsHistogram(count, src) && 2 < |src| < Pow2(32) && 2 <= max < |src|
    requires forall s :: 0 <= s < |count| ==> count[s] <= max
    requires exists s :: 0 <= s < |count| && count[s] == max
    ensures Chosen(norm, L, count, src, tableLog) && Prepared(norm, L, spread, ct, src)
    ensures |FseHeader.HeaderBits(norm, L)| > 0 && Follows(r, capacity, norm, L, spread, ct, src)
    ensures r != SingleSymbol && r != Undefined
  {
    hide Chosen, Count, Sum, PosSum, LowCount, Pow2, FseHeader.HeaderBits, BytesToBits, FseStream.BlockBits, FseStream.Codable, IsSpread, FseStream.FlushesFit, FseStream.Refuses, IsTransform, FseHeader.RoomFor, FseHeader.WriteBound;
    var norms, log := ChooseNorms(src, count, max, tableLog);
    norm, L := norms, log;
    TableFits(log);
    var c; c, spread := BuildCTable(norms, log, 4096);
    ct := c.table;
    assert Prepared(norm, L, spread, ct, src);
    HeaderRoom(norm, L);
    var header := new byte[capacity];
    var h := FseHeader.WriteNCount(header, norms, log);
    if h == FseHeader.Overrun { r := Overrun; return; }
    if !h.Size? { r := Error; return; }
    var block := new byte[capacity - h.size];
    var inside, cSize := FseStream.CompressChoosing(norms, log, spread, block, src, c.table);
    if !inside { r := Overrun; return; }
    if cSize == 0 { r := NotCompressible; return; }
    var bytes := header[..h.size] + block[..cSize];
    assert bytes[..h.size] == header[..h.size] && bytes[h.size..] == block[..cSize];
    StreamSize(block[..cSize], FseStream.BlockBits(norm, L, spread, ct, src));
    if |bytes| >= |src| - 1 { r := NotCompressible; return; }
    r := Block(bytes);
  }

  lemma {:induction false} StreamSize(bytes: seq<byte>, bits: seq<bool>)
    requires IsStream(bytes, bits)
    ensures |bytes| == |bits| / 8 + 1
  {
    hide BytesToBits;
  }

  /** A header that has room leaves it to itself. */
  lemma {:induction false} HeaderRoom(norm: seq<int>, L: nat)
    requires FseHeader.Describable(norm, L)
    ensures |FseHeader.HeaderBits(norm, L)| > 0 && HeaderSize(norm, L) <= FseHeader.RoomFor(|FseHeader.HeaderBits(norm, L)|)
    ensures FseHeader.HeaderCourse(norm, L) == FseHeader.Course(FseHeader.HeaderBits(norm, L), FseHeader.Finished)
  {
    hide FseHeader.HeaderBits;
    FseHeader.HeaderHasBits(norm, L);
    FseHeader.WholeDescribed(norm, L);
  }

  /** The histogram tells which sources are worth it. */
  lemma {:induction false} Measured(count: seq<nat>, src: seq<byte>, max: nat)
    requires IsHistogram(count, src) && |src| > 0 && forall s :: 0 <= s < |count| ==> count[s] <= max
    requires exists s :: 0 <= s < |count| && count[s] == max
    ensures max >= 1 && (max == |src| <==> AllSame(src)) && (Promising(src) <==> max >= 2 && max >= |src| / 128)
  {
    hide Count, Sum;
    CountPositive(src, 0);
    if max == |src| { WholeSource(count, src); }
    if AllSame(src) { CountSame(src, src[0]); SumPrefix(count, src[0]); }
    var t :| 0 <= t < |count| && count[t] == max;
    SumPrefix(count, t);
    assert Count(src, t) == max;
    if Promising(src) {
      var s :| 0 <= s < 256 && Count(src, s) >= 2 && Count(src, s) >= |src| / 128;
      if s >= |count| { CountNone(src, s); }
      assert count[s] == Count(src, s);
    }
  }

  lemma {:induction false} CountSame(src: seq<byte>, s: nat)
    requires forall i :: 0 <= i < |src| ==> src[i] == s
    ensures Count(src, s) == |src|
  {
    if src != [] { CountSame(src[..|src| - 1], s); }
  }

  lemma {:induction false} CountNone(src: seq<byte>, s: nat)
    requires forall i :: 0 <= i < |src| ==> src[i] != s
    ensures Count(src, s) == 0
  {
    if src != [] { CountNone(src[..|src| - 1], s); }
  }

  lemma {:induction false} TableFits(L: nat)
    requires L <= MAX_TABLELOG
    ensures Pow2(L) <= 4096
  {
    Pow2Twelve(L);
  }

  lemma {:induction false} WholeSource(count: seq<nat>, src: seq<byte>)
    requires IsHistogram(count, src) && |src| > 0 && exists s :: 0 <= s < |count| && count[s] == |src|
    ensures forall i :: 0 <= i < |src| ==> src[i] == src[0]
  {
    hide Count, Sum;
    var s :| 0 <= s < |count| && count[s] == |src|;
    forall i | 0 <= i < |src| ensures src[i] == s { FseStream.CountAll(src, s, i); }
  }

  /** A repeated symbol and another one make three. */
  lemma {:induction false} AtLeastThree(count: seq<nat>, src: seq<byte>, max: nat)
    requires IsHistogram(count, src) && max != |src| && max > 1
    requires exists s :: 0 <= s < |count| && count[s] == max
    ensures max < |src| && |src| > 2
  {
    hide Count, Sum;
    var s :| 0 <= s < |count| && count[s] == max;
    SumPrefix(count, s);
  }

  // ---------- decompressing ----------

  /** What becomes of the bytes behind a header. */
  ghost predicate DecodesTo(r: Decompressed, dst: seq<byte>, rest: seq<byte>, dt: DTable)
    requires FseStream.IsDecoder(dt)
  {
    if !HasEndMark(rest) then r == Refused
    else if |Payload(rest)| < 2 * dt.tableLog then r == if |dst| < 2 then DstTooSmall else Regenerated(2)
    else match FseStream.DecodeBlock(dt, Payload(rest), |dst|)
      case Symbols(out) => r == Regenerated(|out|) && out <= dst
      case TooSmall => r == DstTooSmall
  }

  /** What becomes of an input whose header is clear without its last byte. */
  ghost predicate Understood(r: Decompressed, dst: seq<byte>, cSrc: seq<byte>, spread: seq<byte>, dt: DTable)
    requires |cSrc| >= 4
  {
    match FseHeader.HeaderOf(cSrc, 255)
    case Norms(norm, end) =>
      && FseHeader.BytesFor(end) <= |cSrc| && IsDTable(norm, FseHeader.LogOf(cSrc), spread, dt) && FseStream.IsDecoder(dt)
      && DecodesTo(r, dst, cSrc[FseHeader.BytesFor(end)..], dt)
    case TooManySymbols => r == Refused
    case PointsLeft => r == Refused
    case Cut => true
  }

  /** `FSE_decompress`, on any input; from a compressed block it regenerates the source. */
  method Decompress(dst: array<byte>, cSrc: seq<byte>,
                    ghost norm: seq<int>, ghost L: nat, ghost spread: seq<byte>, ghost ct: CTable, ghost src: seq<byte>)
    returns (r: Decompressed, ghost spreadD: seq<byte>, ghost dt: DTable)
    modifies dst
    ensures |cSrc| < 4 || FseHeader.LogOf(cSrc) > MAX_TABLELOG ==> r == Refused
    ensures |cSrc| >= 4 && FseHeader.LogOf(cSrc) <= MAX_TABLELOG ==> Understood(r, dst[..], cSrc, spreadD, dt)
    ensures IsBlock(cSrc, norm, L, spread, ct, src) ==>
              if dst.Length >= |src| then r == Regenerated(|src|) && dst[..|src|] == src else r == DstTooSmall
  {
    hide PosSum, LowCount, Pow2, WholeRounds, FseHeader.HeaderBits, BytesToBits, IsSpread, FseStream.Codable, FseStream.BlockBits, FseHeader.Recorded, FseHeader.HeaderOf, FseHeader.LogOf, IsStream, IsTransform, Understood, FseStream.DecodeBlock, Payload;
    ghost var valid := IsBlock(cSrc, norm, L, spread, ct, src);
    if valid { HeaderInFront(cSrc, norm, L, spread, ct, src); }
    spreadD, dt := [], DTable(0, false, []);
    var counting := new int[256];
    var h := FseHeader.ReadNCount(counting, 255, cSrc);
    if !h.Read? {
      r := Refused;
      NotUnderstood(h, cSrc, counting[..], dst[..], spreadD, dt);
      return;
    }
    if h.tableLog > MAX_TABLELOG { r := Refused; return; }
    var norms := counting[..h.maxSymbolValue + 1];
    assert norms == counting[..][..h.maxSymbolValue + 1];
    assert valid ==> norms == norm;
    TallyShares(counting[..], h.maxSymbolValue + 1, h.tableLog);
    var d;
    d, spreadD := BuildDTable(norms, h.maxSymbolValue, h.tableLog);
    if !d.Built? { r := Refused; return; }
    dt := d.table;
    FseStream.DTableDecodes(norms, h.tableLog, spreadD, d.table);
    if valid { BlockBehind(cSrc, norm, L, spread, ct, src, spreadD, d.table, dst.Length); }
    var o := FseStream.DecompressUsingDTable(dst, cSrc[h.size..], d.table);
    match o {
      case Decompressed(size) => r := Regenerated(size);
      case DstSizeTooSmall => r := DstTooSmall;
      case _ => r := Refused;
    }
    IsUnderstood(r, dst[..], cSrc, h, counting[..], spreadD, dt);
  }

  lemma {:induction false} NotUnderstood(h: FseHeader.ReadResult, cSrc: seq<byte>, counter: seq<int>, dst: seq<byte>, spread: seq<byte>, dt: DTable)
    requires !h.Read? && (|cSrc| >= 4 && FseHeader.LogOf(cSrc) <= FseHeader.TABLELOG_ABSOLUTE_MAX ==>
      FseHeader.Answers(h, FseHeader.HeaderOf(cSrc, 255), FseHeader.LogOf(cSrc), counter))
    ensures |cSrc| >= 4 && FseHeader.LogOf(cSrc) <= MAX_TABLELOG ==> Understood(Refused, dst, cSrc, spread, dt)
  {
    hide FseHeader.HeaderOf, FseHeader.LogOf;
  }

  lemma {:induction false} IsUnderstood(r: Decompressed, dst: seq<byte>, cSrc: seq<byte>, h: FseHeader.ReadResult, counter: seq<int>, spread: seq<byte>, dt: DTable)
    requires |cSrc| >= 4 && h.Read? && h.size <= |cSrc| && FseStream.IsDecoder(dt) && h.maxSymbolValue < |counter|
    requires FseHeader.Answers(h, FseHeader.HeaderOf(cSrc, 255), FseHeader.LogOf(cSrc), counter)
    requires IsDTable(counter[..h.maxSymbolValue + 1], FseHeader.LogOf(cSrc), spread, dt) && DecodesTo(r, dst, cSrc[h.size..], dt)
    ensures Understood(r, dst, cSrc, spread, dt)
  {
    hide FseHeader.HeaderOf, FseHeader.LogOf, IsDTable, DecodesTo;
    var said := FseHeader.HeaderOf(cSrc, 255);
    if said.Norms? { assert counter[..h.maxSymbolValue + 1] == said.norm; }
  }

  lemma {:induction false} TallyShares(counter: seq<int>, n: nat, L: nat)
    requires 1 <= n <= 256 && FseHeader.Tally(counter, n, 1, L) && MIN_TABLELOG <= L <= MAX_TABLELOG
    ensures SharesOut(counter[..n], L) && Checkable(counter[..n], L)
  {
    hide PosSum, LowCount, Pow2;
    FseStream.CheckableShares(counter[..n], L);
  }

  /** A header has nine bits at least, and the stream behind it the two states and the end mark: so
      the reader finds the four bytes it starts with, and one that is not the header's. */
  lemma {:induction false} BlockLong(bytes: seq<byte>, norm: seq<int>, L: nat, spread: seq<byte>, ct: CTable, src: seq<byte>)
    requires IsBlock(bytes, norm, L, spread, ct, src)
    ensures |bytes| >= 4 && |bytes| >= HeaderSize(norm, L) + 2
  {
    hide FseHeader.HeaderBits, BytesToBits, FseHeader.Recorded, IsTransform, IsSpread, Pow2, FseHeader.TailWeight, FseStream.BlockBits, FseStream.Codable;
    FseHeader.HeaderLong(norm, L);
    StreamSize(bytes[HeaderSize(norm, L)..], FseStream.BlockBits(norm, L, spread, ct, src));
    FseStream.BlockBitsLong(norm, L, spread, ct, src);
  }

  lemma {:induction false} HeaderInFront(bytes: seq<byte>, norm: seq<int>, L: nat, spread: seq<byte>, ct: CTable, src: seq<byte>)
    requires IsBlock(bytes, norm, L, spread, ct, src)
    ensures |bytes| >= 4 && FseHeader.LogOf(bytes) == L
    ensures FseHeader.HeaderOf(bytes, 255) == FseHeader.Norms(norm, |FseHeader.HeaderBits(norm, L)|)
  {
    BlockLong(bytes, norm, L, spread, ct, src);
    hide FseHeader.HeaderOf, FseHeader.LogOf, FseHeader.HeaderBits, BytesToBits, FseHeader.Recorded, IsTransform, IsSpread, Pow2, FseHeader.TailWeight;
    var headerSize := HeaderSize(norm, L);
    BytesToBitsSlice(bytes, 0, headerSize);
    assert bytes[0..headerSize] == bytes[..headerSize];
    FseHeader.HeaderIsRead(bytes, norm, L, 255);
    assert norm[..|norm|] == norm;
  }

  lemma {:induction false} BlockBehind(bytes: seq<byte>, norm: seq<int>, L: nat, spread: seq<byte>, ct: CTable, src: seq<byte>,
                                       spreadD: seq<byte>, dt: DTable, room: nat)
    requires IsBlock(bytes, norm, L, spread, ct, src) && IsDTable(norm, L, spreadD, dt)
    ensures HasEndMark(bytes[HeaderSize(norm, L)..])
    ensures FseStream.IsDecoder(dt) && |Payload(bytes[HeaderSize(norm, L)..])| >= 2 * dt.tableLog
    ensures FseStream.DecodeBlock(dt, Payload(bytes[HeaderSize(norm, L)..]), room)
            == if room >= |src| then FseStream.Symbols(src) else FseStream.TooSmall
  {
    hide PosSum, LowCount, Pow2, FseHeader.HeaderBits, BytesToBits, FseStream.Codable, FseStream.BlockBits, IsStream, IsTransform, IsCell, FseStream.DecodeBlock;
    SpreadUnique(norm, L, spread, spreadD);
    PayloadOfStream(bytes[HeaderSize(norm, L)..], FseStream.BlockBits(norm, L, spread, ct, src));
    FseStream.BlockRoundTrip(norm, L, spread, ct, dt, src, room);
  }

  /** Compressing and decompressing: whatever comes out as a block comes back as the source. */
  method RoundTrip(capacity: nat, src: seq<byte>, tableLog: nat, dst: array<byte>)
    returns (c: Compressed, d: Decompressed, ghost count: seq<nat>, ghost norm: seq<int>, ghost L: nat, ghost spread: seq<byte>, ghost ct: CTable)
    requires |src| < Pow2(32) && dst.Length >= |src|
    modifies dst
    ensures c.Block? ==> IsBlock(c.bytes, norm, L, spread, ct, src) && |c.bytes| < |src| - 1
    ensures c.Block? ==> d == Regenerated(|src|) && dst[..|src|] == src
  {
    hide IsBlock, Pow2, Prepared, AllSame, Promising, Chosen;
    c, count, norm, L, spread, ct := Compress(capacity, src, tableLog);
    d := Refused;
    if c.Block? {
      ghost var spreadD, dt;
      d, spreadD, dt := Decompress(dst, c.bytes, norm, L, spread, ct, src);
    }
  }
}
