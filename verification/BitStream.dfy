/** The backward bit stream of bitstream.h: a 64-bit register in front of a byte
    buffer, written upward by CStream and read downward by DStream. Both sides are
    proved against one bit string, used as a stack. */
module BitStream {
  import opened Bits

  const REGISTER := 64
  const REGISTER_BYTES := 8

  function Min(a: int, b: int): int { if a <= b then a else b }

  function Zeros(n: nat): (b: seq<bool>)
    ensures |b| == n && forall i :: 0 <= i < n ==> !b[i]
  {
    seq(n, _ => false)
  }

  // ---------- facts about registers ----------

  lemma {:induction false} ToNatZeros(n: nat)
    ensures ToNat(Zeros(n)) == 0
  {
    if n != 0 {
      assert Zeros(n)[1..] == Zeros(n - 1);
      ToNatZeros(n - 1);
    }
  }

  /** Writing a short bit string in a wide field fills up with zeros. */
  lemma {:induction false} PadBits(b: seq<bool>, n: nat)
    requires |b| <= n
    ensures ToBits(ToNat(b), n) == b + Zeros(n - |b|)
  {
    var p := b + Zeros(n - |b|);
    ToNatConcat(b, Zeros(n - |b|));
    ToNatZeros(n - |b|);
    ShlZero(|b|);
    ToNatToBits(p);
  }

  lemma {:induction false} ShrShr(v: nat, m: nat, n: nat)
    ensures Shr(Shr(v, m), n) == Shr(v, m + n)
  {
    if m != 0 { ShrShr(v / 2, m - 1, n); }
  }

  /** Shifting a register left by `c` and then right keeps the `n` bits below the
      `c` highest ones. */
  lemma {:induction false} RegisterField(r: nat, c: nat, n: nat)
    requires c + n <= REGISTER
    ensures var b := ToBits(r, REGISTER);
            Shr(Mask(Shl(r, c), REGISTER), REGISTER - n) == ToNat(b[REGISTER - c - n..REGISTER - c])
  {
    hide ToNat, ToBits, Shl, Shr, Mask, Pow2;
    var b := ToBits(r, REGISTER);
    var wide := Zeros(c) + ToBits(r, REGISTER - c);
    ShiftedRegister(r, c);
    ToNatSplit(wide, REGISTER - n);
    ToBitsConcat(r, REGISTER - c, c);
    assert wide[REGISTER - n..] == b[REGISTER - c - n..REGISTER - c];
  }

  lemma {:induction false} ShiftedRegister(r: nat, c: nat)
    requires c <= REGISTER
    ensures Mask(Shl(r, c), REGISTER) == ToNat(Zeros(c) + ToBits(r, REGISTER - c))
  {
    var low := ToBits(r, REGISTER - c);
    ToBitsToNat(Shl(r, c), REGISTER);
    ToBitsConcat(Shl(r, c), c, REGISTER - c);
    ShrUnique(0, r, c);
    ToBitsMask(Shl(r, c), c);
    assert ToBits(0, c) == Zeros(c) by {
      ToNatZeros(c);
      ToNatToBits(Zeros(c));
    }
  }

  // ---------- writing ----------

  /** `MEM_writeLEST` on the 64-bit build. */
  method WriteRegister(dst: array<byte>, at: nat, v: nat)
    requires at + REGISTER_BYTES <= dst.Length
    modifies dst
    ensures dst[..at] == old(dst[..at])
    ensures dst[at..at + REGISTER_BYTES] == ToBytes(v, REGISTER_BYTES)
    ensures dst[at + REGISTER_BYTES..] == old(dst[at + REGISTER_BYTES..])
  {
    var w := v;
    for i := 0 to REGISTER_BYTES
      invariant dst[..at] == old(dst[..at])
      invariant dst[at + REGISTER_BYTES..] == old(dst[at + REGISTER_BYTES..])
      invariant dst[at..at + i] + ToBytes(w, REGISTER_BYTES - i) == ToBytes(v, REGISTER_BYTES)
    {
      ghost var before := dst[at..at + i];
      dst[at + i] := w % 256;
      assert dst[at..at + i + 1] == before + [w % 256];
      w := w / 256;
    }
  }

  class CStream {
    var bitContainer: nat
    var bitPos: nat
    var ptr: nat
    const dst: array<byte>
    const endPtr: nat
    ghost var bits: seq<bool>  // every bit added so far, oldest first
    ghost var flushed: nat  // whole bytes handed to the buffer, whether or not they fitted

    ghost predicate Valid()
      reads this, dst
    {
      && dst.Length == endPtr + REGISTER_BYTES
      && bitPos < REGISTER
      && |bits| == 8 * flushed + bitPos
      && bitContainer == ToNat(bits[8 * flushed..])
      && ptr == Min(flushed, endPtr)
      && (flushed <= endPtr ==> BytesToBits(dst[..ptr]) == bits[..8 * ptr])
    }

    constructor (dst: array<byte>)
      requires dst.Length > REGISTER_BYTES
      ensures Valid() && this.dst == dst && bits == [] && bitPos == 0
      ensures endPtr == dst.Length - REGISTER_BYTES
    {
      bitContainer, bitPos, ptr := 0, 0, 0;
      this.dst := dst;
      endPtr := dst.Length - REGISTER_BYTES;
      bits, flushed := [], 0;
    }

    method AddBits(value: nat, nbBits: nat)
      requires Valid()
      requires nbBits < 32 && nbBits + bitPos < REGISTER
      modifies this`bitContainer, this`bitPos, this`bits
      ensures Valid()
      ensures bits == old(bits) + ToBits(value, nbBits)
      ensures bitPos == old(bitPos) + nbBits
    {
      hide ToNat, ToBits, Shl, Mask, Pow2, Or, BytesToBits;
      Appended(bits, bitPos, value, nbBits);
      bitContainer := Or(bitContainer, Mask(Shl(Mask(value, nbBits), bitPos), REGISTER));
      bitPos := bitPos + nbBits;
      bits := bits + ToBits(value, nbBits);
      assert bits[..8 * ptr] == old(bits)[..8 * ptr];
    }

    /** Works only on values that fit in `nbBits`. */
    method AddBitsFast(value: nat, nbBits: nat)
      requires Valid()
      requires value < Pow2(nbBits) && nbBits + bitPos < REGISTER
      modifies this`bitContainer, this`bitPos, this`bits
      ensures Valid()
      ensures bits == old(bits) + ToBits(value, nbBits)
      ensures bitPos == old(bitPos) + nbBits
    {
      hide ToNat, ToBits, Shl, Mask, Pow2, Or, BytesToBits;
      MaskSmall(value, nbBits);
      Appended(bits, bitPos, value, nbBits);
      bitContainer := Or(bitContainer, Mask(Shl(value, bitPos), REGISTER));
      bitPos := bitPos + nbBits;
      bits := bits + ToBits(value, nbBits);
      assert bits[..8 * ptr] == old(bits)[..8 * ptr];
    }

    /** Moves the whole bytes of the register to the buffer; stops the pointer at
        `endPtr` instead of running past the buffer. */
    method FlushBits()
      requires Valid()
      modifies this`bitContainer, this`bitPos, this`ptr, this`flushed, dst
      ensures Valid()
      ensures bitPos == old(bitPos) % 8
      ensures flushed < endPtr ==>
                BytesToBits(dst[..ptr + 1]) == bits + Zeros(8 - bitPos)
    {
      hide ToNat, ToBits, BytesToBits, Shr, Pow2, ToBytes, Zeros;
      var nbBytes, rest := bitPos / 8, bitPos % 8;
      WriteRegister(dst, ptr, bitContainer);
      ghost var buf := dst[..];
      assert buf[..ptr] == old(dst[..ptr]);
      assert buf[ptr..ptr + REGISTER_BYTES] == ToBytes(bitContainer, REGISTER_BYTES);
      FlushStep(bits, nbBytes, rest, ptr, flushed, endPtr, buf);
      ptr := ptr + nbBytes;
      if ptr > endPtr { ptr := endPtr; }
      bitPos := rest;
      bitContainer := Shr(bitContainer, 8 * nbBytes);
      flushed := flushed + nbBytes;
      assert dst[..ptr] == buf[..ptr] && dst[..ptr + 1] == buf[..ptr + 1];
    }

    /** The flush of the fast path: nothing stops the pointer, so the caller guarantees that it
        stays at or before `endPtr`. */
    method FlushBitsFast()
      requires Valid() && flushed <= endPtr
      requires ptr + bitPos / 8 <= endPtr
      modifies this`bitContainer, this`bitPos, this`ptr, this`flushed, dst
      ensures Valid() && flushed == old(flushed) + old(bitPos) / 8 <= endPtr
      ensures bitPos == old(bitPos) % 8
    {
      hide ToNat, ToBits, BytesToBits, Shr, Pow2, ToBytes, Zeros;
      var nbBytes, rest := bitPos / 8, bitPos % 8;
      WriteRegister(dst, ptr, bitContainer);
      ghost var buf := dst[..];
      assert buf[..ptr] == old(dst[..ptr]);
      assert buf[ptr..ptr + REGISTER_BYTES] == ToBytes(bitContainer, REGISTER_BYTES);
      FlushStep(bits, nbBytes, rest, ptr, flushed, endPtr, buf);
      ptr := ptr + nbBytes;
      bitPos := rest;
      bitContainer := Shr(bitContainer, 8 * nbBytes);
      flushed := flushed + nbBytes;
      assert dst[..ptr] == buf[..ptr];
    }

    /** Adds the end mark; the size of the stream, or 0 when it did not fit. */
    method Close() returns (size: nat)
      requires Valid() && bitPos + 1 < REGISTER
      modifies this`bitContainer, this`bitPos, this`ptr, this`flushed, this`bits, dst
      ensures size == 0 <==> (|old(bits)| + 1) / 8 >= endPtr
      ensures size != 0 ==> size <= dst.Length
      ensures size != 0 ==> IsStream(dst[..size], old(bits))
    {
      hide ToNat, BytesToBits, Pow2;
      AddBitsFast(1, 1);
      assert ToBits(1, 1) == [true];
      FlushBits();
      if ptr >= endPtr { return 0; }
      ghost var whole := bits + Zeros(8 - bitPos);
      if bitPos > 0 {
        size := ptr + 1;
        Closed(dst[..size], old(bits), 8 - bitPos);
      } else {
        size := ptr;
        Closed(dst[..size], old(bits), 0);
      }
    }
  }

  /** The bytes of a closed stream: the bits, a one, and zeros up to a byte boundary. */
  ghost predicate IsStream(bytes: seq<byte>, bits: seq<bool>) {
    && |bits| < 8 * |bytes| <= |bits| + 8
    && BytesToBits(bytes) == bits + [true] + Zeros(8 * |bytes| - |bits| - 1)
  }

  lemma {:induction false} Closed(bytes: seq<byte>, bits: seq<bool>, pad: nat)
    requires pad < 8
    requires BytesToBits(bytes) == (bits + [true]) + Zeros(pad)
    ensures IsStream(bytes, bits)
  {
  }

  lemma {:induction false} Appended(bits: seq<bool>, bitPos: nat, value: nat, nbBits: nat)
    requires bitPos <= |bits| && nbBits + bitPos < REGISTER
    ensures var held := bits[|bits| - bitPos..];
            Or(ToNat(held), Mask(Shl(Mask(value, nbBits), bitPos), REGISTER))
            == ToNat((bits + ToBits(value, nbBits))[|bits| - bitPos..])
  {
    hide ToNat, ToBits, Shl, Mask, Pow2, Or;
    var held := bits[|bits| - bitPos..];
    var added := ToBits(value, nbBits);
    assert (bits + added)[|bits| - bitPos..] == held + added;
    ToBitsToNat(value, nbBits);
    ToNatConcat(held, added);
    ToNatBound(held);
    ToNatBound(held + added);
    Pow2Mono(bitPos + nbBits, REGISTER);
    MaskSmall(Shl(Mask(value, nbBits), bitPos), REGISTER);
    OrDisjoint(ToNat(held), Mask(value, nbBits), bitPos);
  }

  lemma {:induction false} FlushedRegister(bits: seq<bool>, bitPos: nat)
    requires bitPos <= |bits| && bitPos < REGISTER
    ensures var held := bits[|bits| - bitPos..];
            BytesToBits(ToBytes(ToNat(held), REGISTER_BYTES)) == held + Zeros(REGISTER - bitPos)
  {
    var held := bits[|bits| - bitPos..];
    ToBytesBits(ToNat(held), REGISTER_BYTES);
    PadBits(held, REGISTER);
  }

  lemma {:induction false} RegisterTail(held: seq<bool>, k: nat)
    requires k <= |held|
    ensures Shr(ToNat(held), k) == ToNat(held[k..])
  {
    ToNatSplit(held, k);
  }

  /** What flushing `k` bytes, which leaves `rest` bits, does to the buffer and to the
      register. */
  lemma {:induction false} FlushStep(bits: seq<bool>, k: nat, rest: nat, at: nat, flushed: nat, endPtr: nat, buf: seq<byte>)
    requires rest < 8 && 8 * k + rest < REGISTER && |bits| == 8 * flushed + 8 * k + rest
    requires at == Min(flushed, endPtr) && |buf| == endPtr + REGISTER_BYTES
    requires flushed <= endPtr ==> BytesToBits(buf[..at]) == bits[..8 * at]
    requires buf[at..at + REGISTER_BYTES] == ToBytes(ToNat(bits[8 * flushed..]), REGISTER_BYTES)
    ensures Shr(ToNat(bits[8 * flushed..]), 8 * k) == ToNat(bits[8 * flushed + 8 * k..])
    ensures flushed + k <= endPtr ==>
              && BytesToBits(buf[..at + k]) == bits[..8 * (at + k)]
              && BytesToBits(buf[..at + k + 1]) == bits + Zeros(8 - rest)
  {
    hide ToNat, ToBytes, BytesToBits, Shr, Zeros, Pow2;
    var held := bits[8 * flushed..];
    RegisterTail(held, 8 * k);
    assert held[8 * k..] == bits[8 * flushed + 8 * k..];
    if flushed + k <= endPtr {
      FlushedRegister(bits, 8 * k + rest);
      WrittenPrefix(buf, at, k, bits[..8 * at], held);
      assert bits == bits[..8 * at] + held;
      assert bits[..8 * (at + k)] == bits[..8 * at] + held[..8 * k];
    }
  }

  /** After writing the register at `at`, the bytes before `at + k + 1` hold the old
      prefix and the register's low bits. */
  lemma {:induction false} WrittenPrefix(buf: seq<byte>, at: nat, k: nat, prefix: seq<bool>, held: seq<bool>)
    requires at + REGISTER_BYTES <= |buf| && k == |held| / 8 && |held| < REGISTER
    requires BytesToBits(buf[..at]) == prefix
    requires BytesToBits(buf[at..at + REGISTER_BYTES]) == held + Zeros(REGISTER - |held|)
    ensures BytesToBits(buf[..at + k]) == prefix + held[..8 * k]
    ensures BytesToBits(buf[..at + k + 1]) == prefix + held + Zeros(8 - |held| % 8)
  {
    hide BytesToBits;
    var reg := held + Zeros(REGISTER - |held|);
    PrefixBytes(buf, at, k, prefix, reg);
    PrefixBytes(buf, at, k + 1, prefix, reg);
    assert reg[..8 * (k + 1)] == held + Zeros(8 - |held| % 8);
    assert reg[..8 * k] == held[..8 * k];
  }

  lemma {:induction false} PrefixBytes(buf: seq<byte>, at: nat, k: nat, prefix: seq<bool>, reg: seq<bool>)
    requires at + REGISTER_BYTES <= |buf| && k <= REGISTER_BYTES
    requires BytesToBits(buf[..at]) == prefix
    requires BytesToBits(buf[at..at + REGISTER_BYTES]) == reg
    ensures BytesToBits(buf[..at + k]) == prefix + reg[..8 * k]
  {
    hide BytesToBits;
    var w := buf[at..at + REGISTER_BYTES];
    BytesToBitsSlice(w, 0, k);
    assert buf[..at + k] == buf[..at] + w[0..k];
    BytesToBitsConcat(buf[..at], w[0..k]);
  }

  // ---------- reading ----------

  datatype Status = Unfinished | EndOfBuffer | Completed | Overflow

  /** The bits below the end mark. */
  ghost function Payload(bytes: seq<byte>): (bits: seq<bool>)
    requires HasEndMark(bytes)
  {
    LastByteHighBit(bytes[|bytes| - 1]);
    BytesToBits(bytes)[..8 * (|bytes| - 1) + HighBit(bytes[|bytes| - 1])]
  }

  predicate HasEndMark(bytes: seq<byte>) {
    |bytes| >= 1 && bytes[|bytes| - 1] != 0
  }

  /** `BIT_lookBits`: shifts of a 64-bit register, amounts taken modulo 64. */
  function LookBits(container: nat, consumed: nat, nbBits: nat): (v: nat)
    requires nbBits < REGISTER
  {
    Shr(Shr(Mask(Shl(container, consumed % REGISTER), REGISTER), 1), REGISTER - 1 - nbBits)
  }

  /** `BIT_lookBitsFast`: one shift fewer. */
  function LookBitsFast(container: nat, consumed: nat, nbBits: nat): (v: nat)
    requires nbBits < REGISTER
  {
    Shr(Mask(Shl(container, consumed % REGISTER), REGISTER), (REGISTER - nbBits) % REGISTER)
  }

  lemma {:induction false} LookBitsBound(container: nat, consumed: nat, nbBits: nat)
    requires nbBits < REGISTER
    ensures LookBits(container, consumed, nbBits) < Pow2(nbBits)
  {
    hide ToNat, ToBits, BytesToBits, LittleEndian, Shl, Shr, Mask, Pow2;
    var m := Mask(Shl(container, consumed % REGISTER), REGISTER);
    MaskShr(Shl(container, consumed % REGISTER), REGISTER);
    ShrShr(m, 1, REGISTER - 1 - nbBits);
    ShrBelow(m, REGISTER - nbBits, nbBits);
  }

  /** The fast look needs at least one bit to look at, and then agrees. */
  lemma {:induction false} LookBitsFastAgrees(container: nat, consumed: nat, nbBits: nat)
    requires 1 <= nbBits < REGISTER
    ensures LookBitsFast(container, consumed, nbBits) == LookBits(container, consumed, nbBits)
  {
    hide ToNat, ToBits, BytesToBits, LittleEndian, Shl, Shr, Mask, Pow2;
    ShrShr(Mask(Shl(container, consumed % REGISTER), REGISTER), 1, REGISTER - 1 - nbBits);
  }

  /** Looking inside the register reads the next bits of the register's own string. */
  lemma {:induction false} LookBitsField(container: nat, consumed: nat, nbBits: nat)
    requires nbBits < REGISTER && consumed + nbBits <= REGISTER
    ensures LookBits(container, consumed, nbBits)
            == ToNat(ToBits(container, REGISTER)[REGISTER - consumed - nbBits..REGISTER - consumed])
  {
    hide ToNat, ToBits, BytesToBits, LittleEndian, Shl, Shr, Mask, Pow2;
    var c := consumed % REGISTER;
    ShrShr(Mask(Shl(container, c), REGISTER), 1, REGISTER - 1 - nbBits);
    RegisterField(container, c, nbBits);
    if consumed == REGISTER {
      RegisterField(container, 0, 0);
      var b := ToBits(container, REGISTER);
      assert b[REGISTER..REGISTER] == b[0..0];
    }
  }

  class DStream {
    const src: seq<byte>
    var bitContainer: nat
    var bitsConsumed: nat
    var ptr: nat

    /** Bits of the stream not yet read; negative after reading too far. */
    ghost function Remaining(): int
      reads this
    {
      8 * ptr + REGISTER - bitsConsumed
    }

    ghost predicate Valid()
      reads this
    {
      && |src| >= 1
      && (ptr + REGISTER_BYTES <= |src| || (ptr == 0 && |src| < REGISTER_BYTES))
      && bitContainer == LittleEndian(src[ptr..Min(ptr + REGISTER_BYTES, |src|)])
      && Remaining() <= 8 * |src|
    }

    constructor (src: seq<byte>)
      requires HasEndMark(src)
      ensures Valid() && this.src == src
      ensures Remaining() == |Payload(src)|
      ensures ptr == (if |src| >= REGISTER_BYTES then |src| - REGISTER_BYTES else 0)
      ensures bitsConsumed <= 8 || ptr == 0
      ensures bitsConsumed <= REGISTER
    {
      this.src := src;
      var lastByte := src[|src| - 1];
      LastByteHighBit(lastByte);
      if |src| >= REGISTER_BYTES {
        ptr := |src| - REGISTER_BYTES;
        bitContainer := LittleEndian(src[|src| - REGISTER_BYTES..|src|]);
        bitsConsumed := 8 - HighBit(lastByte);
      } else {
        ptr := 0;
        bitContainer := LittleEndian(src[0..|src|]);
        bitsConsumed := 8 - HighBit(lastByte) + (REGISTER_BYTES - |src|) * 8;
      }
    }

    /** Reads within the register pop the top of the remaining string. */
    method ReadBits(nbBits: nat) returns (v: nat)
      requires Valid() && nbBits < REGISTER
      modifies this`bitsConsumed
      ensures Valid() && bitsConsumed == old(bitsConsumed) + nbBits
      ensures v < Pow2(nbBits)
      ensures old(bitsConsumed) + nbBits <= REGISTER ==>
                v == ToNat(BytesToBits(src)[Remaining()..old(Remaining())])
    {
      hide ToNat, ToBits, BytesToBits, LittleEndian, Shl, Shr, Mask, Pow2, LookBits;
      v := LookBits(bitContainer, bitsConsumed, nbBits);
      LookBitsBound(bitContainer, bitsConsumed, nbBits);
      if bitsConsumed + nbBits <= REGISTER { LookInStream(src, ptr, bitsConsumed, nbBits); }
      bitsConsumed := bitsConsumed + nbBits;
    }

    method ReadBitsFast(nbBits: nat) returns (v: nat)
      requires Valid() && 1 <= nbBits < REGISTER
      modifies this`bitsConsumed
      ensures Valid() && bitsConsumed == old(bitsConsumed) + nbBits
      ensures v < Pow2(nbBits)
      ensures old(bitsConsumed) + nbBits <= REGISTER ==>
                v == ToNat(BytesToBits(src)[Remaining()..old(Remaining())])
    {
      hide ToNat, ToBits, BytesToBits, LittleEndian, Shl, Shr, Mask, Pow2, LookBits, LookBitsFast;
      LookBitsFastAgrees(bitContainer, bitsConsumed, nbBits);
      v := LookBitsFast(bitContainer, bitsConsumed, nbBits);
      LookBitsBound(bitContainer, bitsConsumed, nbBits);
      if bitsConsumed + nbBits <= REGISTER { LookInStream(src, ptr, bitsConsumed, nbBits); }
      bitsConsumed := bitsConsumed + nbBits;
    }

    /** Refills the register; never changes what remains to be read. */
    method Reload() returns (status: Status)
      requires Valid()
      modifies this`bitContainer, this`bitsConsumed, this`ptr
      ensures Valid() && Remaining() == old(Remaining())
      ensures status == Overflow <==> old(bitsConsumed) > REGISTER
      ensures status == Unfinished <==> old(bitsConsumed) <= REGISTER && old(ptr) > 0 && old(bitsConsumed) / 8 <= old(ptr)
      ensures status == Completed <==> old(bitsConsumed) == REGISTER && old(ptr) == 0
      ensures status == Unfinished ==> bitsConsumed <= 7
      ensures status == EndOfBuffer || status == Completed ==> ptr == 0 && bitsConsumed <= REGISTER
      ensures status == Completed ==> Remaining() == 0
      ensures status == EndOfBuffer && old(ptr) == 0 ==> Remaining() > 0
      ensures status == Overflow ==> bitsConsumed == old(bitsConsumed) && ptr == old(ptr)
      ensures status != Overflow ==> ptr == old(ptr) - Min(old(bitsConsumed) / 8, old(ptr))
    {
      if bitsConsumed > REGISTER { return Overflow; }
      if ptr >= REGISTER_BYTES {
        ptr := ptr - bitsConsumed / 8;
        bitsConsumed := bitsConsumed % 8;
        bitContainer := LittleEndian(src[ptr..ptr + REGISTER_BYTES]);
        return Unfinished;
      }
      if ptr == 0 {
        if bitsConsumed < REGISTER { return EndOfBuffer; }
        return Completed;
      }
      var nbBytes := bitsConsumed / 8;
      status := Unfinished;
      if nbBytes > ptr {
        nbBytes := ptr;
        status := EndOfBuffer;
      }
      ptr := ptr - nbBytes;
      bitsConsumed := bitsConsumed - nbBytes * 8;
      bitContainer := LittleEndian(src[ptr..ptr + REGISTER_BYTES]);
    }

    method EndOfDStream() returns (end: bool)
      requires Valid() && bitsConsumed <= REGISTER
      ensures end <==> Remaining() == 0
    {
      end := ptr == 0 && bitsConsumed == REGISTER;
    }
  }

  /** The bits a reader still has in front of it. */
  ghost function Left(bitD: DStream): seq<bool>
    requires bitD.Valid()
    reads bitD
  {
    if bitD.Remaining() < 0 then [] else BytesToBits(bitD.src)[..bitD.Remaining()]
  }

  lemma {:induction false} LastByteHighBit(b: byte)
    requires b != 0
    ensures HighBit(b) <= 7
  {
    assert Pow2(8) == 256;
    if HighBit(b) >= 8 { Pow2Mono(8, HighBit(b)); }
  }

  /** A field of the register is a field of the stream, `ptr` bytes further up. */
  lemma {:induction false} RegisterWindow(src: seq<byte>, ptr: nat, lo: nat, hi: nat)
    requires ptr + REGISTER_BYTES <= |src| || (ptr == 0 && |src| < REGISTER_BYTES)
    requires lo <= hi <= REGISTER && 8 * ptr + hi <= 8 * |src|
    ensures var c := LittleEndian(src[ptr..Min(ptr + REGISTER_BYTES, |src|)]);
            ToBits(c, REGISTER)[lo..hi] == BytesToBits(src)[8 * ptr + lo..8 * ptr + hi]
  {
    hide ToNat, ToBits, LittleEndian, BytesToBits;
    var top := Min(ptr + REGISTER_BYTES, |src|);
    var w := src[ptr..top];
    LittleEndianBits(w);
    PadBits(BytesToBits(w), REGISTER);
    BytesToBitsSlice(src, ptr, top);
    var b, s := ToBits(LittleEndian(w), REGISTER), BytesToBits(src);
    forall i | lo <= i < hi ensures b[i] == s[8 * ptr + i] {
      assert b[i] == BytesToBits(w)[i];
    }
  }

  lemma {:induction false} LookInStream(src: seq<byte>, ptr: nat, consumed: nat, nbBits: nat)
    requires ptr + REGISTER_BYTES <= |src| || (ptr == 0 && |src| < REGISTER_BYTES)
    requires nbBits < REGISTER && consumed + nbBits <= REGISTER
    requires 8 * ptr + REGISTER - consumed <= 8 * |src|
    ensures var r := 8 * ptr + REGISTER - consumed;
            LookBits(LittleEndian(src[ptr..Min(ptr + REGISTER_BYTES, |src|)]), consumed, nbBits)
            == ToNat(BytesToBits(src)[r - nbBits..r])
  {
    hide ToNat, ToBits, BytesToBits, LittleEndian, Shl, Shr, Mask, Pow2, LookBits;
    LookBitsField(LittleEndian(src[ptr..Min(ptr + REGISTER_BYTES, |src|)]), consumed, nbBits);
    RegisterWindow(src, ptr, REGISTER - consumed - nbBits, REGISTER - consumed);
  }

  /** A closed stream starts reading exactly at its end mark. */
  lemma {:induction false} PayloadOfStream(bytes: seq<byte>, bits: seq<bool>)
    requires IsStream(bytes, bits)
    ensures HasEndMark(bytes) && Payload(bytes) == bits
  {
    hide ToNat, ToBits, BytesToBits, Pow2, HighBit;
    var n := |bytes| - 1;
    var last := bytes[n];
    var k := |bits| - 8 * n;
    BytesToBitsSlice(bytes, n, n + 1);
    assert bytes[n..n + 1] == [last];
    var top := bits[8 * n..] + [true] + Zeros(7 - k);
    assert BytesToBits([last]) == top by {
      assert (bits + [true] + Zeros(7 - k))[8 * n..8 * n + 8] == top;
    }
    LastByte(last, top);
    EndMarkBit(bits[8 * n..], 7 - k);
    HighBitUnique(last, k);
  }

  lemma {:induction false} LastByte(last: byte, top: seq<bool>)
    requires BytesToBits([last]) == top
    ensures ToNat(top) == last
  {
    LittleEndianBits([last]);
  }

  lemma {:induction false} EndMarkBit(low: seq<bool>, pad: nat)
    ensures Pow2(|low|) <= ToNat(low + [true] + Zeros(pad)) < Pow2(|low| + 1)
  {
    assert low + [true] + Zeros(pad) == low + ([true] + Zeros(pad));
    ToNatConcat(low, [true] + Zeros(pad));
    ToNatConcat([true], Zeros(pad));
    ToNatZeros(pad);
    ShlZero(1);
    assert ToNat([true]) == 1;
    ShlMul(1, |low|);
    ToNatBound(low);
  }
}
