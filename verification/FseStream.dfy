/** A block coded with two interleaved FSE states: the encoder and decoder loops, and
    the proof that decoding returns the source. */
module FseStream {
  import opened Bits
  import opened BitStream
  import opened FseSpread
  import opened FseTable

  // ---------- what the encoder computes ----------

  /** The states waiting for symbols `i` and `i + 1`, and the bits below them. */
  datatype Coder = Coder(next: nat, other: nat, bits: seq<bool>)

  /** Symbols the table can code. */
  ghost predicate Codable(norm: seq<int>, src: seq<byte>) {
    forall i :: 0 <= i < |src| ==> src[i] < |norm| && norm[src[i]] != 0
  }

  lemma {:induction false} EncodeStepRange(norm: seq<int>, L: nat, spread: seq<byte>, ct: CTable, s: nat, x: nat)
    requires IsCTable(norm, L, spread, ct) && s < |norm| && norm[s] != 0 && IsState(L, x)
    ensures x + ct.symbolTT[s].deltaNbBits >= 0 && BitsOut(ct, x, s) <= L
    ensures 0 <= Shr(x, BitsOut(ct, x, s)) + ct.symbolTT[s].deltaFindState < |ct.stateTable|
    ensures IsState(L, EncodeStep(ct, x, s))
  {
    hide Shr, Pow2, Start, PosSum, LowCount, Count, IsTransform, BitsOut, LowLaid, Filled;
    TransformWorks(norm, L, spread, ct, s, x);
    var u := CellOf(norm, L, spread, ct, s, Shr(x, BitsOut(ct, x, s)));
    Pow2Twice(L);
  }

  lemma {:induction false} InitRange(norm: seq<int>, L: nat, spread: seq<byte>, ct: CTable, s: nat)
    requires IsCTable(norm, L, spread, ct) && s < |norm| && norm[s] != 0
    ensures CanInit(ct, s) && IsState(L, InitState(ct, s))
  {
    hide Shr, Pow2, Start, PosSum, LowCount, Count, IsTransform, LowLaid, Filled, InitBits, InitQuotient;
    ShareFits(norm, L, s);
    InitTransform(norm[s], L, Start(norm, s), ct.symbolTT[s]);
    var u := CellOf(norm, L, spread, ct, s, Weight(norm[s]));
    Pow2Twice(L);
  }

  /** The coder after symbols `i ..` of the block, last symbol first. The two states take
      turns; the last two symbols only choose the initial states. */
  ghost function Encode(norm: seq<int>, L: nat, spread: seq<byte>, ct: CTable, src: seq<byte>, i: nat): (c: Coder)
    requires IsCTable(norm, L, spread, ct) && Codable(norm, src) && i + 2 <= |src|
    ensures IsState(L, c.next) && IsState(L, c.other)
    decreases |src| - i
  {
    if i + 2 == |src| then
      InitRange(norm, L, spread, ct, src[i]);
      InitRange(norm, L, spread, ct, src[i + 1]);
      Coder(InitState(ct, src[i]), InitState(ct, src[i + 1]), [])
    else
      var c := Encode(norm, L, spread, ct, src, i + 1);
      EncodeStepRange(norm, L, spread, ct, src[i], c.other);
      Coder(EncodeStep(ct, c.other, src[i]), c.next, c.bits + ToBits(c.other, BitsOut(ct, c.other, src[i])))
  }

  /** The whole block: the coded symbols, then both states. */
  ghost function BlockBits(norm: seq<int>, L: nat, spread: seq<byte>, ct: CTable, src: seq<byte>): seq<bool>
    requires IsCTable(norm, L, spread, ct) && Codable(norm, src) && |src| >= 2
  {
    var c := Encode(norm, L, spread, ct, src, 0);
    c.bits + ToBits(c.other, L) + ToBits(c.next, L)
  }

  lemma {:induction false} BlockBitsLong(norm: seq<int>, L: nat, spread: seq<byte>, ct: CTable, src: seq<byte>)
    requires IsCTable(norm, L, spread, ct) && Codable(norm, src) && |src| >= 2
    ensures |BlockBits(norm, L, spread, ct, src)| >= 2 * L
  {
    hide Encode, IsTransform;
  }

  // ---------- what the decoder computes ----------

  datatype Decoded = Symbols(out: seq<byte>) | TooSmall

  ghost predicate IsDecoder(dt: DTable) {
    && MIN_TABLELOG <= dt.tableLog <= MAX_TABLELOG
    && |dt.cells| == Pow2(dt.tableLog)
    && forall u :: 0 <= u < |dt.cells| ==>
         && dt.cells[u].nbBits <= dt.tableLog
         && dt.cells[u].newState + Pow2(dt.cells[u].nbBits) <= Pow2(dt.tableLog)
         && (dt.fastMode ==> dt.cells[u].nbBits >= 1)
  }

  ghost predicate CanRead(dt: DTable, a: nat, bits: seq<bool>)
    requires a < |dt.cells|
  {
    dt.cells[a].nbBits <= |bits|
  }

  /** The state after decoding state `a`, and what it leaves of the stream. */
  ghost function Refill(dt: DTable, a: nat, bits: seq<bool>): nat
    requires a < |dt.cells| && CanRead(dt, a, bits)
  {
    dt.cells[a].newState + ToNat(bits[|bits| - dt.cells[a].nbBits..])
  }

  ghost function Rest(dt: DTable, a: nat, bits: seq<bool>): seq<bool>
    requires a < |dt.cells| && CanRead(dt, a, bits)
  {
    bits[..|bits| - dt.cells[a].nbBits]
  }

  lemma {:induction false} RefillRange(dt: DTable, a: nat, bits: seq<bool>)
    requires IsDecoder(dt) && a < |dt.cells| && CanRead(dt, a, bits)
    ensures Refill(dt, a, bits) < |dt.cells|
  {
    ToNatBound(bits[|bits| - dt.cells[a].nbBits..]);
  }

  function Prepend(out: seq<byte>, r: Decoded): Decoded {
    if r.Symbols? then Symbols(out + r.out) else TooSmall
  }

  /** Decoding bit by bit, without registers: a state that asks for more bits than remain
      is the last but one symbol. `room` is the space left in the destination. */
  ghost function Decode(dt: DTable, a: nat, b: nat, bits: seq<bool>, room: int): Decoded
    requires IsDecoder(dt) && a < |dt.cells| && b < |dt.cells|
    decreases if room < 2 then 0 else room
  {
    if room < 2 then TooSmall
    else if !CanRead(dt, a, bits) then Symbols([dt.cells[a].symbol, dt.cells[b].symbol])
    else
      RefillRange(dt, a, bits);
      Prepend([dt.cells[a].symbol], Decode(dt, b, Refill(dt, a, bits), Rest(dt, a, bits), room - 1))
  }

  /** One symbol, whatever the room. */
  lemma {:induction false} DecodeOne(dt: DTable, a: nat, b: nat, bits: seq<bool>, room: int)
    requires IsDecoder(dt) && a < |dt.cells| && b < |dt.cells| && CanRead(dt, a, bits)
    ensures Refill(dt, a, bits) < |dt.cells|
    ensures Decode(dt, a, b, bits, room)
            == Prepend([dt.cells[a].symbol], Decode(dt, b, Refill(dt, a, bits), Rest(dt, a, bits), room - 1))
  {
    RefillRange(dt, a, bits);
  }

  lemma {:induction false} PrependTwice(x: seq<byte>, y: seq<byte>, r: Decoded)
    ensures Prepend(x, Prepend(y, r)) == Prepend(x + y, r)
  {
    if r.Symbols? { assert x + (y + r.out) == (x + y) + r.out; }
  }

  // ---------- the round trip ----------

  lemma {:induction false} DTableDecodes(norm: seq<int>, L: nat, spread: seq<byte>, dt: DTable)
    requires IsDTable(norm, L, spread, dt)
    ensures IsDecoder(dt)
  {
    hide Pow2, IsSpread, IsCell;
    forall u | 0 <= u < |dt.cells|
      ensures dt.cells[u].nbBits <= L && dt.cells[u].newState + Pow2(dt.cells[u].nbBits) <= Pow2(L)
      ensures dt.fastMode ==> dt.cells[u].nbBits >= 1
    {
      CellInRange(norm, L, spread, dt, u);
    }
  }

  /** Decoding from the coder of symbols `i ..` gives those symbols when there is room
      for them, and reports the lack of room otherwise. The stream runs dry exactly at
      the last two symbols, whose states still ask for bits. */
  lemma {:induction false} DecodeEncode(norm: seq<int>, L: nat, spread: seq<byte>, ct: CTable, dt: DTable, src: seq<byte>, i: nat, room: int)
    requires IsCTable(norm, L, spread, ct) && IsDTable(norm, L, spread, dt) && IsDecoder(dt)
    requires Codable(norm, src) && i + 2 <= |src|
    requires Weight(norm[src[|src| - 2]]) < Pow2(L)
    ensures var c := Encode(norm, L, spread, ct, src, i);
            c.next - Pow2(L) < |dt.cells| && c.other - Pow2(L) < |dt.cells|
            && Decode(dt, c.next - Pow2(L), c.other - Pow2(L), c.bits, room)
               == if room >= |src| - i then Symbols(src[i..]) else TooSmall
    decreases |src| - i
  {
    hide Pow2, IsCTable, IsDTable, Codable, Encode, Decode, CanRead, Refill, Rest, IsDecoder;
    StatesInTable(norm, L, spread, ct, dt, src, i);
    if i + 2 == |src| {
      LastSymbols(norm, L, spread, ct, dt, src, room);
    } else {
      DecodeEncode(norm, L, spread, ct, dt, src, i + 1, room - 1);
      StepBack(norm, L, spread, ct, dt, src, i);
      var c, d := Encode(norm, L, spread, ct, src, i), Encode(norm, L, spread, ct, src, i + 1);
      DecodeOne(dt, c.next - Pow2(L), c.other - Pow2(L), c.bits, room);
      assert [src[i]] + src[i + 1..] == src[i..];
    }
  }

  lemma {:induction false} StatesInTable(norm: seq<int>, L: nat, spread: seq<byte>, ct: CTable, dt: DTable, src: seq<byte>, i: nat)
    requires IsCTable(norm, L, spread, ct) && IsDTable(norm, L, spread, dt)
    requires Codable(norm, src) && i + 2 <= |src|
    ensures var c := Encode(norm, L, spread, ct, src, i);
            Pow2(L) <= c.next < 2 * Pow2(L) && Pow2(L) <= c.other < 2 * Pow2(L) && |dt.cells| == Pow2(L)
  {
    Pow2Twice(L);
  }

  lemma {:induction false} LastSymbols(norm: seq<int>, L: nat, spread: seq<byte>, ct: CTable, dt: DTable, src: seq<byte>, room: int)
    requires IsCTable(norm, L, spread, ct) && IsDTable(norm, L, spread, dt) && IsDecoder(dt)
    requires Codable(norm, src) && |src| >= 2
    requires Weight(norm[src[|src| - 2]]) < Pow2(L)
    ensures var c := Encode(norm, L, spread, ct, src, |src| - 2);
            c.next - Pow2(L) < |dt.cells| && c.other - Pow2(L) < |dt.cells|
            && Decode(dt, c.next - Pow2(L), c.other - Pow2(L), c.bits, room)
               == if room >= 2 then Symbols(src[|src| - 2..]) else TooSmall
  {
    hide Pow2, IsCTable, IsDTable, InitState, CanInit;
    var i := |src| - 2;
    StatesInTable(norm, L, spread, ct, dt, src, i);
    InitWorks(norm, L, spread, ct, dt, src[i]);
    InitWorks(norm, L, spread, ct, dt, src[i + 1]);
    assert src[i..] == [src[i], src[i + 1]];
  }

  /** Decoding the coder of symbols `i ..` yields symbol `i` and the coder of `i + 1 ..`. */
  lemma {:induction false} StepBack(norm: seq<int>, L: nat, spread: seq<byte>, ct: CTable, dt: DTable, src: seq<byte>, i: nat)
    requires IsCTable(norm, L, spread, ct) && IsDTable(norm, L, spread, dt) && IsDecoder(dt)
    requires Codable(norm, src) && i + 2 < |src|
    ensures var c := Encode(norm, L, spread, ct, src, i);
            var d := Encode(norm, L, spread, ct, src, i + 1);
            && 0 <= c.next - Pow2(L) < |dt.cells|
            && c.other == d.next
            && CanRead(dt, c.next - Pow2(L), c.bits)
            && dt.cells[c.next - Pow2(L)].symbol == src[i]
            && Refill(dt, c.next - Pow2(L), c.bits) == d.other - Pow2(L)
            && Rest(dt, c.next - Pow2(L), c.bits) == d.bits
  {
    hide Pow2, IsCTable, IsDTable, BitsOut, EncodeStep, IsDecoder, ToBits, ToNat, Mask;
    StatesInTable(norm, L, spread, ct, dt, src, i);
    var d := Encode(norm, L, spread, ct, src, i + 1);
    CoderStep(norm, L, spread, ct, dt, src[i], d.other);
    var nb := BitsOut(ct, d.other, src[i]);
    var pushed := ToBits(d.other, nb);
    ToBitsToNat(d.other, nb);
    assert (d.bits + pushed)[|d.bits|..] == pushed;
    assert (d.bits + pushed)[..|d.bits|] == d.bits;
  }

  lemma {:induction false} CoderStep(norm: seq<int>, L: nat, spread: seq<byte>, ct: CTable, dt: DTable, s: nat, x: nat)
    requires IsCTable(norm, L, spread, ct) && IsDTable(norm, L, spread, dt)
    requires s < |norm| && norm[s] != 0 && IsState(L, x)
    ensures |ct.symbolTT| == |norm| && x + ct.symbolTT[s].deltaNbBits >= 0 && |dt.cells| == Pow2(L)
    ensures 0 <= Shr(x, BitsOut(ct, x, s)) + ct.symbolTT[s].deltaFindState < |ct.stateTable|
    ensures 0 <= EncodeStep(ct, x, s) - Pow2(L) < |dt.cells|
    ensures var nb := BitsOut(ct, x, s);
            var cell := dt.cells[EncodeStep(ct, x, s) - Pow2(L)];
            cell.symbol == s && cell.nbBits == nb && Pow2(L) + cell.newState + Mask(x, nb) == x
  {
    hide BitsOut, EncodeStep, Mask, IsTransform, IsSpread, Shr;
    StepInverse(norm, L, spread, ct, dt, s, x);
    Pow2Twice(L);
  }

  /** Reading the two states off the top, then decoding: the block as the decoder sees
      it. */
  ghost function DecodeBlock(dt: DTable, bits: seq<bool>, room: int): Decoded
    requires IsDecoder(dt) && |bits| >= 2 * dt.tableLog
  {
    var n, L := |bits|, dt.tableLog;
    ToNatBound(bits[n - L..]);
    ToNatBound(bits[n - 2 * L..n - L]);
    Decode(dt, ToNat(bits[n - L..]), ToNat(bits[n - 2 * L..n - L]), bits[..n - 2 * L], room)
  }

  lemma {:induction false} StateBits(L: nat, x: nat)
    requires IsState(L, x)
    ensures ToNat(ToBits(x, L)) == x - Pow2(L)
  {
    ToBitsToNat(x, L);
    ShlMul(1, L);
    ShrUnique(x - Pow2(L), 1, L);
  }

  lemma {:induction false} BlockStart(norm: seq<int>, L: nat, spread: seq<byte>, ct: CTable, dt: DTable, src: seq<byte>, room: int)
    requires IsCTable(norm, L, spread, ct) && IsDTable(norm, L, spread, dt) && IsDecoder(dt)
    requires Codable(norm, src) && |src| >= 2
    ensures var c := Encode(norm, L, spread, ct, src, 0);
            && Pow2(L) <= c.next < Pow2(L) + |dt.cells| && Pow2(L) <= c.other < Pow2(L) + |dt.cells|
            && |BlockBits(norm, L, spread, ct, src)| >= 2 * L && dt.tableLog == L
            && DecodeBlock(dt, BlockBits(norm, L, spread, ct, src), room)
               == Decode(dt, c.next - Pow2(L), c.other - Pow2(L), c.bits, room)
  {
    hide Pow2, IsCTable, IsSpread, Encode, Decode, ToBits, ToNat, IsCell, IsDecoder;
    StatesInTable(norm, L, spread, ct, dt, src, 0);
    var c := Encode(norm, L, spread, ct, src, 0);
    StateBits(L, c.next);
    StateBits(L, c.other);
    DecodeTop(dt, L, c.bits, ToBits(c.other, L), ToBits(c.next, L), room);
  }

  lemma {:induction false} DecodeTop(dt: DTable, L: nat, bits: seq<bool>, second: seq<bool>, first: seq<bool>, room: int)
    requires IsDecoder(dt) && L == dt.tableLog && |first| == |second| == L
    requires ToNat(first) < |dt.cells| && ToNat(second) < |dt.cells|
    ensures DecodeBlock(dt, bits + second + first, room) == Decode(dt, ToNat(first), ToNat(second), bits, room)
  {
    hide Decode, ToNat, Pow2;
    var b := bits + second + first;
    assert b[|b| - L..] == first;
    assert b[|b| - 2 * L..|b| - L] == second;
    assert b[..|b| - 2 * L] == bits;
  }

  /** The block round trip: when the last symbol but one does not own the whole table,
      decoding returns the source exactly if the destination has room for it. */
  lemma {:induction false} BlockRoundTrip(norm: seq<int>, L: nat, spread: seq<byte>, ct: CTable, dt: DTable, src: seq<byte>, room: int)
    requires IsCTable(norm, L, spread, ct) && IsDTable(norm, L, spread, dt)
    requires Codable(norm, src) && |src| >= 2 && Weight(norm[src[|src| - 2]]) < Pow2(L)
    ensures IsDecoder(dt) && |BlockBits(norm, L, spread, ct, src)| >= 2 * dt.tableLog
    ensures DecodeBlock(dt, BlockBits(norm, L, spread, ct, src), room)
            == if room >= |src| then Symbols(src) else TooSmall
  {
    hide Pow2, IsCTable, IsDTable, Codable, Encode, Decode, BlockBits, DecodeBlock;
    DTableDecodes(norm, L, spread, dt);
    BlockStart(norm, L, spread, ct, dt, src, room);
    DecodeEncode(norm, L, spread, ct, dt, src, 0, room);
    assert src[0..] == src;
  }

  /** A table owned by one symbol asks for no bits in any cell ... */
  lemma {:induction false} OwnedTable(norm: seq<int>, L: nat, spread: seq<byte>, dt: DTable, s: byte, u: nat)
    requires IsDTable(norm, L, spread, dt) && s < |norm| && Weight(norm[s]) == Pow2(L) && u < Pow2(L)
    ensures dt.cells[u].nbBits == 0
  {
    hide Pow2, Count, LowLaid, Filled, PosSum, LowCount, HighBit, Shl, Start;
    SpreadCounts(norm, L, spread, s);
    CountAll(spread, s, u);
    assert IsCell(norm, L, spread, u, dt.cells[u]);
    CellFacts(norm, L, spread, u);
    Pow2Twice(L);
    HighBitUnique(NextState(norm, spread, u), L);
  }

  lemma {:induction false} CountAll(t: seq<byte>, s: byte, u: nat)
    requires Count(t, s) == |t| && u < |t|
    ensures t[u] == s
  {
    var n := |t| - 1;
    if u < n { CountAll(t[..n], s, u); }
  }

  lemma {:induction false} NeverDry(dt: DTable, a: nat, b: nat, bits: seq<bool>, room: int)
    requires IsDecoder(dt) && a < |dt.cells| && b < |dt.cells|
    requires forall u :: 0 <= u < |dt.cells| ==> dt.cells[u].nbBits == 0
    ensures Decode(dt, a, b, bits, room) == TooSmall
    decreases if room < 2 then 0 else room
  {
    hide Pow2;
    if room >= 2 {
      RefillRange(dt, a, bits);
      NeverDry(dt, b, Refill(dt, a, bits), Rest(dt, a, bits), room - 1);
    }
  }

  /** ... so its stream never runs dry, and no room is enough. Together with
      BlockRoundTrip: the round trip holds exactly for a last-but-one symbol whose share
      is not the whole table. */
  lemma {:induction false} OwnedTableFails(norm: seq<int>, L: nat, spread: seq<byte>, ct: CTable, dt: DTable, src: seq<byte>, room: int)
    requires IsCTable(norm, L, spread, ct) && IsDTable(norm, L, spread, dt)
    requires Codable(norm, src) && |src| >= 2 && Weight(norm[src[|src| - 2]]) == Pow2(L)
    ensures IsDecoder(dt) && |BlockBits(norm, L, spread, ct, src)| >= 2 * dt.tableLog
    ensures DecodeBlock(dt, BlockBits(norm, L, spread, ct, src), room) == TooSmall
  {
    hide Pow2, IsCTable, Encode, Decode, BlockBits, DecodeBlock, IsCell, IsSpread;
    DTableDecodes(norm, L, spread, dt);
    BlockStart(norm, L, spread, ct, dt, src, room);
    forall u | 0 <= u < |dt.cells| ensures dt.cells[u].nbBits == 0 {
      OwnedTable(norm, L, spread, dt, src[|src| - 2], u);
    }
    var c := Encode(norm, L, spread, ct, src, 0);
    NeverDry(dt, c.next - Pow2(L), c.other - Pow2(L), c.bits, room);
  }

  // ---------- the encoder ----------

  method EncodeSymbol(ghost norm: seq<int>, ghost L: nat, ghost spread: seq<byte>, bitC: CStream, ct: CTable, value: nat, symbol: byte)
    returns (next: nat)
    requires bitC.Valid()
    requires IsCTable(norm, L, spread, ct) && symbol < |norm| && norm[symbol] != 0 && IsState(L, value)
    requires bitC.bitPos + MAX_TABLELOG < REGISTER
    modifies bitC`bitContainer, bitC`bitPos, bitC`bits
    ensures bitC.Valid()
    ensures value + ct.symbolTT[symbol].deltaNbBits >= 0
    ensures 0 <= Shr(value, BitsOut(ct, value, symbol)) + ct.symbolTT[symbol].deltaFindState < |ct.stateTable|
    ensures next == EncodeStep(ct, value, symbol) && IsState(L, next)
    ensures bitC.bits == old(bitC.bits) + ToBits(value, BitsOut(ct, value, symbol))
    ensures bitC.bitPos <= old(bitC.bitPos) + MAX_TABLELOG
  {
    hide Pow2, ToBits, ToNat, Shr, IsTransform, IsSpread, BytesToBits, IsState;
    EncodeStepRange(norm, L, spread, ct, symbol, value);
    var nbBitsOut := Shr(value + ct.symbolTT[symbol].deltaNbBits, 16);
    bitC.AddBits(value, nbBitsOut);
    next := ct.stateTable[Shr(value, nbBitsOut) + ct.symbolTT[symbol].deltaFindState];
  }

  /** What coding symbol `i` adds. */
  lemma {:induction false} CodedMore(norm: seq<int>, L: nat, spread: seq<byte>, ct: CTable, src: seq<byte>, i: nat)
    requires IsCTable(norm, L, spread, ct) && Codable(norm, src) && i + 2 < |src|
    ensures var x := Encode(norm, L, spread, ct, src, i + 1).other;
      && IsState(L, x) && x + ct.symbolTT[src[i]].deltaNbBits >= 0 && BitsOut(ct, x, src[i]) <= L
      && |Encode(norm, L, spread, ct, src, i).bits| == |Encode(norm, L, spread, ct, src, i + 1).bits| + BitsOut(ct, x, src[i])
  {
    hide IsTransform, IsSpread, BitsOut, EncodeStep, Pow2, Shr, ToBits;
    EncodeStepRange(norm, L, spread, ct, src[i], Encode(norm, L, spread, ct, src, i + 1).other);
  }

  lemma {:induction false} CodedSize(norm: seq<int>, L: nat, spread: seq<byte>, ct: CTable, src: seq<byte>, i: nat)
    requires IsCTable(norm, L, spread, ct) && Codable(norm, src) && i + 2 <= |src|
    ensures |Encode(norm, L, spread, ct, src, i).bits| <= MAX_TABLELOG * (|src| - 2 - i)
    decreases |src| - i
  {
    hide IsTransform, IsSpread, BitsOut, Codable;
    if i + 2 < |src| {
      hide Encode;
      CodedSize(norm, L, spread, ct, src, i + 1);
      CodedMore(norm, L, spread, ct, src, i);
    }
  }

  /** Codes symbol `i` on the state that last coded symbol `i + 2`. */
  method EncodeNext(ghost norm: seq<int>, ghost L: nat, ghost spread: seq<byte>, bitC: CStream, ct: CTable,
                    src: seq<byte>, i: nat, value: nat)
    returns (next: nat)
    requires bitC.Valid() && bitC.bitPos + MAX_TABLELOG < REGISTER
    requires IsCTable(norm, L, spread, ct) && Codable(norm, src) && i + 2 < |src|
    requires value == Encode(norm, L, spread, ct, src, i + 1).other
    requires bitC.bits == Encode(norm, L, spread, ct, src, i + 1).bits
    modifies bitC`bitContainer, bitC`bitPos, bitC`bits
    ensures bitC.Valid() && bitC.bitPos <= old(bitC.bitPos) + MAX_TABLELOG
    ensures bitC.bits == Encode(norm, L, spread, ct, src, i).bits
    ensures next == Encode(norm, L, spread, ct, src, i).next
    ensures Encode(norm, L, spread, ct, src, i).other == Encode(norm, L, spread, ct, src, i + 1).next
  {
    hide IsTransform, IsSpread, BitsOut, EncodeStep, Pow2, Shr, ToBits, ToNat, BytesToBits, IsState, IsCTable;
    next := EncodeSymbol(norm, L, spread, bitC, ct, value, src[i]);
  }

  /** What the unchecked flush of `coded` bits demands: it must not move the pointer past the
      end. The word written next would begin there and leave the buffer. */
  ghost predicate Room(fast: bool, coded: seq<bool>, endPtr: nat) { fast ==> |coded| / 8 <= endPtr }

  /** `FSE_FLUSHBITS`: the checked flush, or the unchecked one on the fast path. The latter is
      not carried out when it would lead out of the buffer. */
  method Flush(bitC: CStream, fast: bool) returns (inside: bool)
    requires bitC.Valid() && (fast ==> bitC.flushed <= bitC.endPtr)
    modifies bitC`bitContainer, bitC`bitPos, bitC`ptr, bitC`flushed, bitC.dst
    ensures inside <==> Room(fast, bitC.bits, bitC.endPtr)
    ensures inside ==> bitC.Valid() && bitC.bitPos <= 7 && (fast ==> bitC.flushed <= bitC.endPtr)
  {
    hide ToNat, BytesToBits;
    if fast {
      if bitC.ptr + bitC.bitPos / 8 > bitC.endPtr { return false; }
      bitC.FlushBitsFast();
    } else {
      bitC.FlushBits();
    }
    inside := true;
  }

  /** `FSE_flushCState`. */
  method FlushCState(bitC: CStream, value: nat, stateLog: nat)
    requires bitC.Valid() && bitC.bitPos + MAX_TABLELOG < REGISTER && stateLog <= MAX_TABLELOG
    modifies bitC`bitContainer, bitC`bitPos, bitC`bits, bitC`ptr, bitC`flushed, bitC.dst
    ensures bitC.Valid() && bitC.bitPos <= 7
    ensures bitC.bits == old(bitC.bits) + ToBits(value, stateLog)
  {
    hide ToNat, BytesToBits, ToBits;
    bitC.AddBits(value, stateLog);
    bitC.FlushBits();
  }

  /** Where the encoder loop stands: symbols `i ..` coded, at most a byte in the register. */
  ghost predicate EncodedFrom(norm: seq<int>, L: nat, spread: seq<byte>, ct: CTable, src: seq<byte>, i: nat,
                              bitC: CStream, next: nat, other: nat, fast: bool)
    reads bitC, bitC.dst
  {
    && (fast ==> bitC.flushed <= bitC.endPtr)
    && IsCTable(norm, L, spread, ct) && Codable(norm, src) && i + 2 <= |src|
    && bitC.Valid() && bitC.bitPos <= 7
    && var c := Encode(norm, L, spread, ct, src, i);
       bitC.bits == c.bits && next == c.next && other == c.other
  }

  /** Two symbols, one on each state, without a flush between them. */
  method EncodePair(ghost norm: seq<int>, ghost L: nat, ghost spread: seq<byte>, bitC: CStream, ct: CTable,
                    src: seq<byte>, i: nat, value1: nat, value2: nat)
    returns (v1: nat, v2: nat)
    requires bitC.Valid() && bitC.bitPos + 2 * MAX_TABLELOG < REGISTER
    requires IsCTable(norm, L, spread, ct) && Codable(norm, src) && 2 <= i && i + 2 <= |src|
    requires var c := Encode(norm, L, spread, ct, src, i);
             bitC.bits == c.bits && value1 == c.next && value2 == c.other
    modifies bitC`bitContainer, bitC`bitPos, bitC`bits
    ensures bitC.Valid() && bitC.bitPos <= old(bitC.bitPos) + 2 * MAX_TABLELOG
    ensures var c := Encode(norm, L, spread, ct, src, i - 2);
            bitC.bits == c.bits && v1 == c.next && v2 == c.other
  {
    hide Encode, ToNat, BytesToBits, Pow2, IsCTable;
    v2 := EncodeNext(norm, L, spread, bitC, ct, src, i - 1, value2);
    v1 := EncodeNext(norm, L, spread, bitC, ct, src, i - 2, value1);
  }

  lemma {:induction false} EncodeBase(norm: seq<int>, L: nat, spread: seq<byte>, ct: CTable, src: seq<byte>)
    requires IsCTable(norm, L, spread, ct) && Codable(norm, src) && |src| >= 2
    ensures CanInit(ct, src[|src| - 2]) && CanInit(ct, src[|src| - 1])
    ensures Encode(norm, L, spread, ct, src, |src| - 2)
            == Coder(InitState(ct, src[|src| - 2]), InitState(ct, src[|src| - 1]), [])
  {
    InitRange(norm, L, spread, ct, src[|src| - 2]);
    InitRange(norm, L, spread, ct, src[|src| - 1]);
  }

  /** Starts both states; a source of odd length codes one symbol at once. */
  method EncodeStart(ghost norm: seq<int>, ghost L: nat, ghost spread: seq<byte>, bitC: CStream, ct: CTable,
                     src: seq<byte>, fast: bool)
    returns (inside: bool, ip: nat, value1: nat, value2: nat)
    requires bitC.Valid() && bitC.bits == [] && bitC.bitPos == 0
    requires IsCTable(norm, L, spread, ct) && Codable(norm, src) && |src| > 2
    modifies bitC, bitC.dst
    ensures ip % 2 == 0 && ip == |src| - (if |src| % 2 == 1 then 3 else 2)
    ensures inside <==> Room(fast, Encode(norm, L, spread, ct, src, ip).bits, bitC.endPtr)
    ensures inside ==> EncodedFrom(norm, L, spread, ct, src, ip, bitC, value1, value2, fast)
  {
    hide ToNat, BytesToBits, Pow2, IsCTable, InitState, Encode, CanInit;
    ip, inside := |src|, true;
    EncodeBase(norm, L, spread, ct, src);
    if |src| % 2 == 1 {
      ip := ip - 1;
      value1 := InitState(ct, src[ip]);
      ip := ip - 1;
      value2 := InitState(ct, src[ip]);
      ip := ip - 1;
      value1 := EncodeNext(norm, L, spread, bitC, ct, src, ip, value1);
      inside := Flush(bitC, fast);
    } else {
      ip := ip - 1;
      value2 := InitState(ct, src[ip]);
      ip := ip - 1;
      value1 := InitState(ct, src[ip]);
    }
  }

  /** Brings the number of symbols left to a multiple of four. */
  method EncodeJoin(ghost norm: seq<int>, ghost L: nat, ghost spread: seq<byte>, bitC: CStream, ct: CTable,
                    src: seq<byte>, start: nat, first: nat, second: nat, fast: bool)
    returns (inside: bool, ip: nat, value1: nat, value2: nat)
    requires |src| > 2 && start % 2 == 0 && start == |src| - (if |src| % 2 == 1 then 3 else 2)
    requires EncodedFrom(norm, L, spread, ct, src, start, bitC, first, second, fast)
    requires Room(fast, Encode(norm, L, spread, ct, src, start).bits, bitC.endPtr)
    modifies bitC, bitC.dst
    ensures ip % 4 == 0 && ip <= start
    ensures inside <==> Room(fast, Encode(norm, L, spread, ct, src, ip).bits, bitC.endPtr)
    ensures inside ==> EncodedFrom(norm, L, spread, ct, src, ip, bitC, value1, value2, fast)
  {
    hide Encode, ToNat, BytesToBits, Pow2, IsCTable;
    inside, ip, value1, value2 := true, start, first, second;
    if ((|src| - 2) / 2) % 2 == 1 {
      value1, value2 := EncodePair(norm, L, spread, bitC, ct, src, ip, value1, value2);
      ip := ip - 2;
      inside := Flush(bitC, fast);
    }
  }

  lemma {:induction false} EncodeGrows(norm: seq<int>, L: nat, spread: seq<byte>, ct: CTable, src: seq<byte>, i: nat, j: nat)
    requires IsCTable(norm, L, spread, ct) && Codable(norm, src) && i <= j && j + 2 <= |src|
    ensures |Encode(norm, L, spread, ct, src, j).bits| <= |Encode(norm, L, spread, ct, src, i).bits|
    decreases j - i
  {
    hide IsTransform, IsSpread, BitsOut, Encode, Codable;
    if i < j {
      EncodeGrows(norm, L, spread, ct, src, i + 1, j);
      CodedMore(norm, L, spread, ct, src, i);
    }
  }

  /** Once outside, always outside. */
  lemma {:induction false} OutsideStays(norm: seq<int>, L: nat, spread: seq<byte>, ct: CTable, src: seq<byte>, i: nat, fast: bool, endPtr: nat)
    requires IsCTable(norm, L, spread, ct) && Codable(norm, src) && i + 2 <= |src| && !Room(fast, Encode(norm, L, spread, ct, src, i).bits, endPtr)
    ensures !Room(fast, Encode(norm, L, spread, ct, src, 0).bits, endPtr)
  {
    hide IsTransform, IsSpread, Encode;
    EncodeGrows(norm, L, spread, ct, src, 0, i);
  }

  /** The main loop: four symbols to a flush. */
  method EncodeFours(ghost norm: seq<int>, ghost L: nat, ghost spread: seq<byte>, bitC: CStream, ct: CTable,
                     src: seq<byte>, start: nat, first: nat, second: nat, fast: bool)
    returns (inside: bool, value1: nat, value2: nat)
    requires start % 4 == 0 && EncodedFrom(norm, L, spread, ct, src, start, bitC, first, second, fast)
    requires Room(fast, Encode(norm, L, spread, ct, src, start).bits, bitC.endPtr)
    modifies bitC, bitC.dst
    ensures inside <==> Room(fast, Encode(norm, L, spread, ct, src, 0).bits, bitC.endPtr)
    ensures inside ==> EncodedFrom(norm, L, spread, ct, src, 0, bitC, value1, value2, fast)
  {
    hide Encode, ToNat, ToBits, BytesToBits, Pow2, IsCTable, Room, Codable;
    var ip := start;
    value1, value2 := first, second;
    while ip > 0
      invariant ip % 4 == 0 && EncodedFrom(norm, L, spread, ct, src, ip, bitC, value1, value2, fast)
      invariant Room(fast, Encode(norm, L, spread, ct, src, ip).bits, bitC.endPtr)
    {
      value1, value2 := EncodePair(norm, L, spread, bitC, ct, src, ip, value1, value2);
      value1, value2 := EncodePair(norm, L, spread, bitC, ct, src, ip - 2, value1, value2);
      ip := ip - 4;
      inside := Flush(bitC, fast);
      if !inside {
        OutsideStays(norm, L, spread, ct, src, ip, fast, bitC.endPtr);
        return;
      }
    }
    inside := true;
  }

  /** Sends both states and closes the stream. */
  method EncodeFinish(ghost norm: seq<int>, ghost L: nat, ghost spread: seq<byte>, bitC: CStream, ct: CTable,
                      src: seq<byte>, value1: nat, value2: nat)
    returns (size: nat)
    requires |src| > 2 && EncodedFrom(norm, L, spread, ct, src, 0, bitC, value1, value2, false)
    modifies bitC, bitC.dst
    ensures size == 0 <==> (|BlockBits(norm, L, spread, ct, src)| + 1) / 8 >= bitC.endPtr
    ensures size <= bitC.dst.Length
    ensures size != 0 ==> IsStream(bitC.dst[..size], BlockBits(norm, L, spread, ct, src))
  {
    hide Encode, ToNat, ToBits, BytesToBits, Pow2, IsSpread, IsTransform;
    FlushCState(bitC, value2, ct.tableLog);
    FlushCState(bitC, value1, ct.tableLog);
    size := bitC.Close();
  }

  /** The bits of a block that are flushed before the states: the unchecked flushes stay inside
      the buffer exactly when these do. */
  ghost predicate FlushesFit(norm: seq<int>, L: nat, spread: seq<byte>, ct: CTable, src: seq<byte>, capacity: nat)
    requires IsCTable(norm, L, spread, ct) && Codable(norm, src)
  {
    |src| > 2 && capacity > REGISTER_BYTES ==> Room(true, Encode(norm, L, spread, ct, src, 0).bits, capacity - REGISTER_BYTES)
  }

  lemma {:induction false} OutsideEarly(norm: seq<int>, L: nat, spread: seq<byte>, ct: CTable, src: seq<byte>, i: nat, fast: bool, capacity: nat)
    requires IsCTable(norm, L, spread, ct) && Codable(norm, src) && i + 2 <= |src| && |src| > 2 && capacity > REGISTER_BYTES
    requires !Room(fast, Encode(norm, L, spread, ct, src, i).bits, capacity - REGISTER_BYTES)
    ensures fast && !FlushesFit(norm, L, spread, ct, src, capacity)
  {
    hide IsTransform, IsSpread, Encode;
    OutsideStays(norm, L, spread, ct, src, i, fast, capacity - REGISTER_BYTES);
  }

  /** When the compressor refuses a block. */
  ghost predicate Refuses(norm: seq<int>, L: nat, spread: seq<byte>, ct: CTable, src: seq<byte>, capacity: nat)
    requires IsCTable(norm, L, spread, ct) && Codable(norm, src)
  {
    || |src| <= 2
    || capacity <= REGISTER_BYTES
    || (|BlockBits(norm, L, spread, ct, src)| + 1) / 8 >= capacity - REGISTER_BYTES
  }

  /** `FSE_compress_usingCTable_generic`: 0 when the source is too short or the destination too
      small, otherwise the size of the stream that holds the block. With unchecked flushes it
      stays inside the destination exactly when the coded symbols do. */
  method CompressUsingCTable(ghost norm: seq<int>, ghost L: nat, ghost spread: seq<byte>,
                             dst: array<byte>, src: seq<byte>, ct: CTable, fast: bool)
    returns (inside: bool, size: nat)
    requires IsCTable(norm, L, spread, ct) && Codable(norm, src)
    modifies dst
    ensures inside <==> fast ==> FlushesFit(norm, L, spread, ct, src, dst.Length)
    ensures inside ==> size <= dst.Length && (size == 0 <==> Refuses(norm, L, spread, ct, src, dst.Length))
    ensures inside && size != 0 ==> IsStream(dst[..size], BlockBits(norm, L, spread, ct, src))
  {
    hide Encode, ToNat, ToBits, BytesToBits, Pow2, IsSpread, IsTransform, Room, BlockBits, Codable;
    if |src| <= 2 { return true, 0; }
    if dst.Length <= REGISTER_BYTES { return true, 0; }
    var bitC := new CStream(dst);
    var ip, value1, value2;
    inside, ip, value1, value2 := EncodeStart(norm, L, spread, bitC, ct, src, fast);
    if !inside { OutsideEarly(norm, L, spread, ct, src, ip, fast, dst.Length); return false, 0; }
    inside, ip, value1, value2 := EncodeJoin(norm, L, spread, bitC, ct, src, ip, value1, value2, fast);
    if !inside { OutsideEarly(norm, L, spread, ct, src, ip, fast, dst.Length); return false, 0; }
    inside, value1, value2 := EncodeFours(norm, L, spread, bitC, ct, src, ip, value1, value2, fast);
    if !inside { OutsideEarly(norm, L, spread, ct, src, 0, fast, dst.Length); return false, 0; }
    FitsAtLast(norm, L, spread, ct, src, fast, dst.Length);
    size := EncodeFinish(norm, L, spread, bitC, ct, src, value1, value2);
  }

  lemma {:induction false} FitsAtLast(norm: seq<int>, L: nat, spread: seq<byte>, ct: CTable, src: seq<byte>, fast: bool, capacity: nat)
    requires IsCTable(norm, L, spread, ct) && Codable(norm, src) && |src| > 2 && capacity > REGISTER_BYTES
    requires Room(fast, Encode(norm, L, spread, ct, src, 0).bits, capacity - REGISTER_BYTES)
    ensures fast ==> FlushesFit(norm, L, spread, ct, src, capacity)
  {
  }

  /** `FSE_BLOCKBOUND` */
  function BlockBound(size: nat): nat { size + size / 128 }

  /** `FSE_compress_usingCTable`: unchecked flushes exactly from the block bound on. */
  method CompressChoosing(ghost norm: seq<int>, ghost L: nat, ghost spread: seq<byte>, dst: array<byte>, src: seq<byte>, ct: CTable)
    returns (inside: bool, size: nat)
    requires IsCTable(norm, L, spread, ct) && Codable(norm, src)
    modifies dst
    ensures inside <==> dst.Length >= BlockBound(|src|) ==> FlushesFit(norm, L, spread, ct, src, dst.Length)
    ensures inside ==> size <= dst.Length && (size == 0 <==> Refuses(norm, L, spread, ct, src, dst.Length))
    ensures inside && size != 0 ==> IsStream(dst[..size], BlockBits(norm, L, spread, ct, src))
  {
    hide Encode, BytesToBits, Pow2, IsSpread, IsTransform, BlockBits, FlushesFit;
    var fast := dst.Length >= BlockBound(|src|);
    if fast {
      inside, size := CompressUsingCTable(norm, L, spread, dst, src, ct, true);
    } else {
      inside, size := CompressUsingCTable(norm, L, spread, dst, src, ct, false);
    }
  }

  /** Room for twelve bits a symbol is enough for any block. */
  lemma {:induction false} AmpleRoom(norm: seq<int>, L: nat, spread: seq<byte>, ct: CTable, src: seq<byte>, capacity: nat)
    requires IsCTable(norm, L, spread, ct) && Codable(norm, src) && MAX_TABLELOG * |src| <= 8 * (capacity - REGISTER_BYTES)
    ensures FlushesFit(norm, L, spread, ct, src, capacity)
  {
    hide IsTransform, IsSpread, Encode;
    if |src| > 2 { CodedSize(norm, L, spread, ct, src, 0); }
  }

  /** A symbol whose share is a power of two costs the same from every state. */
  lemma {:induction false} PowerBits(norm: seq<int>, L: nat, spread: seq<byte>, ct: CTable, s: nat, x: nat, j: nat)
    requires IsCTable(norm, L, spread, ct) && s < |norm| && Weight(norm[s]) == Pow2(j) && IsState(L, x) && x + ct.symbolTT[s].deltaNbBits >= 0
    ensures j <= L && BitsOut(ct, x, s) == L - j
  {
    hide Shr, Pow2, IsTransform, IsSpread, BitsOut;
    TransformWorks(norm, L, spread, ct, s, x);
    EncodeStepRange(norm, L, spread, ct, s, x);
    var nb := BitsOut(ct, x, s);
    Pow2Twice(L);
    Pow2Twice(j);
    ShrBounds(x, nb, L);
    HighBitUnique(Shr(x, nb), L - nb);
    HighBitUnique(Shr(x, nb), j);
  }

  /** What a symbol costs at least: exactly that, for a power of two. */
  ghost predicate IsPrice(n: int, L: nat, price: nat) { price == 0 || (price <= L && Weight(n) == Pow2(L - price)) }

  ghost predicate ArePrices(norm: seq<int>, L: nat, prices: seq<nat>) {
    |prices| == |norm| && forall s :: 0 <= s < |norm| ==> IsPrice(norm[s], L, prices[s])
  }

  function PriceOf(prices: seq<nat>, s: nat): nat { if s < |prices| then prices[s] else 0 }

  /** The prices of the symbols from `i` on, but for the two that only choose the states. */
  ghost function Bill(prices: seq<nat>, src: seq<byte>, i: nat): nat
    decreases |src| - i
  {
    if i + 2 >= |src| then 0 else PriceOf(prices, src[i]) + Bill(prices, src, i + 1)
  }

  /** A block is at least as long as its bill. */
  lemma {:induction false} Billed(norm: seq<int>, L: nat, spread: seq<byte>, ct: CTable, src: seq<byte>, prices: seq<nat>, i: nat)
    requires IsCTable(norm, L, spread, ct) && Codable(norm, src) && i + 2 <= |src| && ArePrices(norm, L, prices)
    ensures |Encode(norm, L, spread, ct, src, i).bits| >= Bill(prices, src, i)
    decreases |src| - i
  {
    hide IsTransform, IsSpread, BitsOut, IsCTable, Encode;
    if i + 2 < |src| {
      Billed(norm, L, spread, ct, src, prices, i + 1);
      CodedMore(norm, L, spread, ct, src, i);
      var s := src[i];
      assert IsPrice(norm[s], L, prices[s]);
      if prices[s] != 0 {
        PowerBits(norm, L, spread, ct, s, Encode(norm, L, spread, ct, src, i + 1).other, L - prices[s]);
      }
    }
  }

  lemma {:induction false} EqualBill(prices: seq<nat>, src: seq<byte>, i: nat, p: nat)
    requires i + 2 <= |src| && forall k :: 0 <= k < |src| ==> PriceOf(prices, src[k]) == p
    ensures Bill(prices, src, i) == (|src| - 2 - i) * p
    decreases |src| - i
  {
    if i + 2 < |src| {
      EqualBill(prices, src, i + 1, p);
      OneMoreTimes(|src| - 2 - (i + 1), p);
    }
  }

  /** A source of nothing but symbols of one cell each leaves a destination of the block bound,
      whatever its length: the unchecked flushes are chosen and run over. */
  lemma {:induction false} BoundOverrun(norm: seq<int>, spread: seq<byte>, ct: CTable, src: seq<byte>)
    requires IsCTable(norm, MAX_TABLELOG, spread, ct) && Codable(norm, src) && BlockBound(|src|) > REGISTER_BYTES
    requires forall k :: 0 <= k < |src| ==> Weight(norm[src[k]]) == 1
    ensures !FlushesFit(norm, MAX_TABLELOG, spread, ct, src, BlockBound(|src|))
  {
    hide IsTransform, IsSpread, Encode, Pow2, IsCTable;
    var prices: seq<nat> := seq(|norm|, s requires 0 <= s < |norm| => if Weight(norm[s]) == 1 then MAX_TABLELOG else 0);
    assert Pow2(0) == 1 by { PowZero(); }
    Billed(norm, MAX_TABLELOG, spread, ct, src, prices, 0);
    EqualBill(prices, src, 0, MAX_TABLELOG);
  }

  // ---------- the decoder ----------

  /** What a reload that does not overflow establishes: a full register, or the end of the
      buffer in it. */
  ghost predicate Settled(bitD: DStream)
    reads bitD
  {
    bitD.bitsConsumed <= 7 || (bitD.ptr == 0 && bitD.bitsConsumed <= REGISTER)
  }

  /** `FSE_decodeSymbol` and, in fast mode, `FSE_decodeSymbolFast`. */
  method DecodeSymbol(dt: DTable, bitD: DStream, state: nat) returns (symbol: byte, next: nat)
    requires bitD.Valid() && IsDecoder(dt) && state < |dt.cells|
    modifies bitD`bitsConsumed
    ensures bitD.Valid() && bitD.bitsConsumed == old(bitD.bitsConsumed) + dt.cells[state].nbBits
    ensures symbol == dt.cells[state].symbol
    ensures bitD.bitsConsumed <= REGISTER ==>
              && CanRead(dt, state, old(Left(bitD)))
              && next == Refill(dt, state, old(Left(bitD)))
              && Left(bitD) == Rest(dt, state, old(Left(bitD)))
  {
    hide Pow2, ToNat, BytesToBits, LittleEndian;
    var cell := dt.cells[state];
    symbol := cell.symbol;
    var lowBits;
    if dt.fastMode {
      lowBits := bitD.ReadBitsFast(cell.nbBits);
    } else {
      lowBits := bitD.ReadBits(cell.nbBits);
    }
    next := cell.newState + lowBits;
    if bitD.bitsConsumed <= REGISTER {
      TopBits(BytesToBits(bitD.src), bitD.Remaining(), cell.nbBits);
    }
  }

  lemma {:induction false} TopBits(all: seq<bool>, r: nat, n: nat)
    requires r + n <= |all|
    ensures all[..r + n][r..] == all[r..r + n] && all[..r + n][..r] == all[..r]
  {
  }

  /** `FSE_initDState`. */
  method InitDState(dt: DTable, bitD: DStream) returns (state: nat)
    requires bitD.Valid() && IsDecoder(dt)
    modifies bitD
    ensures bitD.Valid() && state < |dt.cells|
    ensures bitD.Remaining() == old(bitD.Remaining()) - dt.tableLog
    ensures old(bitD.bitsConsumed) + dt.tableLog <= REGISTER ==>
              Settled(bitD)
              && state == ToNat(BytesToBits(bitD.src)[bitD.Remaining()..old(bitD.Remaining())])
    ensures old(bitD.bitsConsumed) + dt.tableLog > REGISTER ==>
              bitD.bitsConsumed == old(bitD.bitsConsumed) + dt.tableLog
  {
    hide Pow2, ToNat, BytesToBits, LittleEndian;
    state := bitD.ReadBits(dt.tableLog);
    var _ := bitD.Reload();
  }

  lemma {:induction false} ProgressOne(dt: DTable, a: nat, b: nat, left: seq<bool>, room: int, out: seq<byte>, total: Decoded)
    requires IsDecoder(dt) && a < |dt.cells| && b < |dt.cells| && CanRead(dt, a, left)
    requires total == Prepend(out, Decode(dt, a, b, left, room))
    ensures Refill(dt, a, left) < |dt.cells|
    ensures total == Prepend(out + [dt.cells[a].symbol], Decode(dt, b, Refill(dt, a, left), Rest(dt, a, left), room - 1))
  {
    hide Decode, Refill, Rest, IsDecoder, CanRead;
    DecodeOne(dt, a, b, left, room);
    PrependTwice(out, [dt.cells[a].symbol], Decode(dt, b, Refill(dt, a, left), Rest(dt, a, left), room - 1));
  }

  /** How far decoding has come: `total` is the answer, the first `op` symbols of it are
      in place and the rest is what remains to decode. */
  ghost predicate Progress(dt: DTable, a: nat, b: nat, bitD: DStream, dst: array<byte>, op: nat, total: Decoded)
    reads bitD, dst
  {
    && bitD.Valid() && IsDecoder(dt) && a < |dt.cells| && b < |dt.cells| && op <= dst.Length
    && total == Prepend(dst[..op], Decode(dt, a, b, Left(bitD), dst.Length - op))
  }

  /** One symbol that the register certainly holds. */
  method DecodeInside(dt: DTable, bitD: DStream, dst: array<byte>, op: nat, a: nat, ghost b: nat, ghost total: Decoded)
    returns (next: nat)
    requires Progress(dt, a, b, bitD, dst, op, total) && op < dst.Length
    requires bitD.bitsConsumed + MAX_TABLELOG <= REGISTER
    modifies bitD`bitsConsumed, dst
    ensures bitD.bitsConsumed <= old(bitD.bitsConsumed) + MAX_TABLELOG
    ensures Progress(dt, b, next, bitD, dst, op + 1, total)
  {
    hide Pow2, Decode, Refill, Rest, CanRead, BytesToBits, LittleEndian, Left;
    ghost var left := Left(bitD);
    var symbol;
    symbol, next := DecodeSymbol(dt, bitD, a);
    ProgressOne(dt, a, b, left, dst.Length - op, dst[..op], total);
    dst[op] := symbol;
    assert dst[..op + 1] == old(dst[..op]) + [symbol];
  }

  /** A stream too short for its two states: the reader is past the end from the start,
      and two symbols are all that follows. */
  ghost predicate Overrun(dt: DTable, a: nat, b: nat, bitD: DStream, dst: array<byte>, op: nat, total: Decoded)
    reads bitD, dst
  {
    && bitD.Valid() && IsDecoder(dt) && a < |dt.cells| && b < |dt.cells| && op <= dst.Length
    && bitD.bitsConsumed > REGISTER
    && total == if dst.Length - op < 2 then TooSmall
                else Symbols(dst[..op] + [dt.cells[a].symbol, dt.cells[b].symbol])
  }

  ghost predicate Tailing(dt: DTable, a: nat, b: nat, bitD: DStream, dst: array<byte>, op: nat, total: Decoded)
    reads bitD, dst
  {
    (Progress(dt, a, b, bitD, dst, op, total) && Settled(bitD)) || Overrun(dt, a, b, bitD, dst, op, total)
  }

  /** One symbol of the tail: with room for two, decode, reload, and finish with the other
      state's symbol if the stream has been read past its end. */
  method DecodeTail(dt: DTable, bitD: DStream, dst: array<byte>, op: nat, a: nat, b: nat, ghost total: Decoded)
    returns (small: bool, done: bool, end: nat, next: nat)
    requires Tailing(dt, a, b, bitD, dst, op, total)
    modifies bitD, dst
    ensures small <==> op > dst.Length - 2
    ensures small ==> total == TooSmall
    ensures !small && done ==> end <= dst.Length && total == Symbols(dst[..end])
    ensures !small && !done ==> end == op + 1 && Tailing(dt, b, next, bitD, dst, end, total)
  {
    hide Pow2, Refill, Rest, BytesToBits, LittleEndian;
    small, done, end, next := false, false, op, 0;
    if op > dst.Length - 2 { return true, false, end, next; }
    ghost var left, over := Left(bitD), Overrun(dt, a, b, bitD, dst, op, total);
    if !over { SettledReads(bitD, dt.cells[a].nbBits); }
    var symbol;
    symbol, next := DecodeSymbol(dt, bitD, a);
    dst[op] := symbol;
    assert dst[..op + 1] == old(dst[..op]) + [symbol];
    if !over && CanRead(dt, a, left) {
      ProgressOne(dt, a, b, left, dst.Length - op, old(dst[..op]), total);
    }
    end := op + 1;
    var status := bitD.Reload();
    if status == Overflow {
      var last, _ := DecodeSymbol(dt, bitD, b);
      dst[end] := last;
      end := end + 1;
      assert dst[..end] == old(dst[..op]) + [symbol, last];
      done := true;
    }
  }

  /** From a settled reader, running out of register is running out of stream. */
  lemma {:induction false} SettledReads(bitD: DStream, nb: nat)
    requires bitD.Valid() && Settled(bitD) && nb <= MAX_TABLELOG
    ensures nb <= |Left(bitD)| <==> bitD.bitsConsumed + nb <= REGISTER
  {
  }

  datatype Outcome = Decompressed(size: nat) | DstSizeTooSmall | SrcSizeWrong | EndMarkMissing

  /** The unrolled loop: four symbols at a time while the register is known to be full. */
  method DecodeFours(dt: DTable, bitD: DStream, dst: array<byte>, state1: nat, state2: nat, ghost total: Decoded)
    returns (op: nat, s1: nat, s2: nat)
    requires Tailing(dt, state1, state2, bitD, dst, 0, total)
    modifies bitD, dst
    ensures Tailing(dt, s1, s2, bitD, dst, op, total)
  {
    hide Pow2, Decode, IsDecoder, BytesToBits, LittleEndian;
    op, s1, s2 := 0, state1, state2;
    var status := bitD.Reload();
    while status == Unfinished && op < dst.Length - 3
      invariant Tailing(dt, s1, s2, bitD, dst, op, total)
      invariant status == Unfinished ==> bitD.bitsConsumed <= 7
      decreases dst.Length - op
    {
      s1 := DecodeInside(dt, bitD, dst, op, s1, s2, total);
      s2 := DecodeInside(dt, bitD, dst, op + 1, s2, s1, total);
      s1 := DecodeInside(dt, bitD, dst, op + 2, s1, s2, total);
      s2 := DecodeInside(dt, bitD, dst, op + 3, s2, s1, total);
      op := op + 4;
      status := bitD.Reload();
    }
  }

  /** What a stream decodes to, long enough for its two states or not. */
  ghost predicate Answers(dt: DTable, payload: seq<bool>, room: nat, total: Decoded)
    requires IsDecoder(dt)
  {
    if |payload| >= 2 * dt.tableLog then total == DecodeBlock(dt, payload, room)
    else if room < 2 then total == TooSmall
    else total.Symbols? && |total.out| == 2
  }

  /** Reads both initial states. */
  method DecodeStart(dt: DTable, bitD: DStream, ghost dst: array<byte>) returns (s1: nat, s2: nat, ghost total: Decoded)
    requires bitD.Valid() && IsDecoder(dt) && HasEndMark(bitD.src)
    requires bitD.Remaining() == |Payload(bitD.src)|
    requires bitD.bitsConsumed <= REGISTER && (bitD.bitsConsumed <= 8 || bitD.ptr == 0)
    modifies bitD
    ensures Answers(dt, Payload(bitD.src), dst.Length, total)
    ensures Tailing(dt, s1, s2, bitD, dst, 0, total)
  {
    hide Pow2, Decode, BytesToBits, LittleEndian, ToNat, HighBit;
    ghost var payload := Payload(bitD.src);
    s1 := InitDState(dt, bitD);
    s2 := InitDState(dt, bitD);
    assert dst[..0] == [];
    if |payload| >= 2 * dt.tableLog {
      total := DecodeBlock(dt, payload, dst.Length);
      PayloadParts(BytesToBits(bitD.src), payload, dt.tableLog);
      PrependNothing(Decode(dt, s1, s2, Left(bitD), dst.Length));
    } else {
      total := if dst.Length < 2 then TooSmall else Symbols([dt.cells[s1].symbol, dt.cells[s2].symbol]);
      assert Overrun(dt, s1, s2, bitD, dst, 0, total);
    }
  }

  lemma {:induction false} PrependNothing(r: Decoded)
    ensures Prepend([], r) == r
  {
    if r.Symbols? { assert [] + r.out == r.out; }
  }

  lemma {:induction false} PayloadParts(all: seq<bool>, payload: seq<bool>, L: nat)
    requires |payload| <= |all| && payload == all[..|payload|] && 2 * L <= |payload|
    ensures var n := |payload|;
            && payload[n - L..] == all[n - L..n]
            && payload[n - 2 * L..n - L] == all[n - 2 * L..n - L]
            && payload[..n - 2 * L] == all[..n - 2 * L]
  {
  }

  /** `FSE_decompress_usingDTable`: on any input, the register decoder with its unrolled
      loop computes what the bit-by-bit decoder computes. */
  method DecompressUsingDTable(dst: array<byte>, cSrc: seq<byte>, dt: DTable) returns (r: Outcome)
    requires IsDecoder(dt)
    modifies dst
    ensures r == Outcome.SrcSizeWrong <==> cSrc == []
    ensures r == EndMarkMissing <==> cSrc != [] && cSrc[|cSrc| - 1] == 0
    ensures HasEndMark(cSrc) && |Payload(cSrc)| < 2 * dt.tableLog ==>
              r == if dst.Length < 2 then DstSizeTooSmall else Decompressed(2)
    ensures HasEndMark(cSrc) && |Payload(cSrc)| >= 2 * dt.tableLog ==>
              match DecodeBlock(dt, Payload(cSrc), dst.Length)
              case Symbols(out) => r == Decompressed(|out|) && |out| <= dst.Length && dst[..|out|] == out
              case TooSmall => r == DstSizeTooSmall
  {
    hide Pow2, BytesToBits, LittleEndian, ToNat, HighBit, Decode, DecodeBlock, Payload, IsDecoder, Tailing;
    if |cSrc| < 1 { return Outcome.SrcSizeWrong; }
    if cSrc[|cSrc| - 1] == 0 { return EndMarkMissing; }
    var bitD := new DStream(cSrc);
    var s1, s2; ghost var total;
    s1, s2, total := DecodeStart(dt, bitD, dst);
    var op;
    op, s1, s2 := DecodeFours(dt, bitD, dst, s1, s2, total);
    while true
      invariant Tailing(dt, s1, s2, bitD, dst, op, total)
      decreases dst.Length - op
    {
      var small, done;
      small, done, op, s1 := DecodeTail(dt, bitD, dst, op, s1, s2, total);
      if small { return DstSizeTooSmall; }
      if done { return Decompressed(op); }
      small, done, op, s2 := DecodeTail(dt, bitD, dst, op, s2, s1, total);
      if small { return DstSizeTooSmall; }
      if done { return Decompressed(op); }
    }
  }

  /** Tables, coder and decoder together, on bytes: whatever the compressor does not
      refuse, the decompressor gives back. It leaves its destination only between the block
      bound and twelve bits a symbol. */
  method CompressThenDecompress(norm: seq<int>, L: nat, src: seq<byte>, dst: array<byte>, out: array<byte>)
    returns (inside: bool, size: nat, r: Outcome)
    requires SharesOut(norm, L) && Codable(norm, src) && dst != out
    requires |src| >= 2 ==> Weight(norm[src[|src| - 2]]) < Pow2(L)
    modifies dst, out
    ensures !inside ==> BlockBound(|src|) <= dst.Length && 8 * (dst.Length - REGISTER_BYTES) < MAX_TABLELOG * |src|
    ensures inside && size != 0 && out.Length >= |src| ==> r == Decompressed(|src|) && out[..|src|] == src
    ensures inside && size != 0 && out.Length < |src| ==> r == DstSizeTooSmall
    ensures inside && size == 0 && |src| > 2 ==> (MAX_TABLELOG * |src| + 1) / 8 >= dst.Length - REGISTER_BYTES
  {
    hide Pow2, PosSum, LowCount, IsSpread, WholeRounds, IsCell, IsTransform, BytesToBits, DecodeBlock, Codable, BlockBits, FlushesFit;
    var wksp := Pow2(L);
    CheckableShares(norm, L);
    var c, spreadC := BuildCTable(norm, L, wksp);
    var d, spreadD := BuildDTable(norm, |norm| - 1, L);
    SpreadUnique(norm, L, spreadC, spreadD);
    var ct, dt := c.table, d.table;
    DTableDecodes(norm, L, spreadC, dt);
    if MAX_TABLELOG * |src| <= 8 * (dst.Length - REGISTER_BYTES) { AmpleRoom(norm, L, spreadC, ct, src, dst.Length); }
    inside, size := CompressChoosing(norm, L, spreadC, dst, src, ct);
    if |src| > 2 { BlockSize(norm, L, spreadC, ct, src); }
    r := DstSizeTooSmall;
    if inside && size != 0 {
      PayloadOfStream(dst[..size], BlockBits(norm, L, spreadC, ct, src));
      BlockRoundTrip(norm, L, spreadC, ct, dt, src, out.Length);
      r := DecompressUsingDTable(out, dst[..size], dt);
    }
  }

  lemma {:induction false} CheckableShares(norm: seq<int>, L: nat)
    requires SharesOut(norm, L)
    ensures Checkable(norm, L)
  {
  }

  lemma {:induction false} RareShares()
    ensures SharesOut([-1, 4095], MAX_TABLELOG)
  {
    assert [-1, 4095][..1] == [-1] && [-1][..0] == [];
    assert Pow2(MAX_TABLELOG) == 4096;
  }

  /** A source of one rare symbol, of any length with a stream at all, overruns a destination of
      the block bound. */
  method RareOverrun(size: nat) returns (inside: bool)
    requires BlockBound(size) > REGISTER_BYTES
    ensures !inside
  {
    hide Pow2, PosSum, LowCount, IsSpread, WholeRounds, IsTransform, FlushesFit;
    var norm := [-1, 4095];
    var src: seq<byte> := seq(size, _ => 0);
    RareShares();
    CheckableShares(norm, MAX_TABLELOG);
    var c, spread := BuildCTable(norm, MAX_TABLELOG, Pow2(MAX_TABLELOG));
    BoundOverrun(norm, spread, c.table, src);
    var dst := new byte[BlockBound(size)];
    var size';
    inside, size' := CompressChoosing(norm, MAX_TABLELOG, spread, dst, src, c.table);
  }

  lemma {:induction false} BlockSize(norm: seq<int>, L: nat, spread: seq<byte>, ct: CTable, src: seq<byte>)
    requires IsCTable(norm, L, spread, ct) && Codable(norm, src) && |src| >= 2
    ensures |BlockBits(norm, L, spread, ct, src)| <= MAX_TABLELOG * |src|
  {
    hide Encode;
    CodedSize(norm, L, spread, ct, src, 0);
  }
}
