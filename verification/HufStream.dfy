/** The single Huffman stream (`HUF_compress1X`, `HUF_decompress1X2`): codes are written from
    the last symbol to the first, and read back through the single-symbol table. */
module HufStream {
  import opened Bits
  import opened BitStream
  import T = HufTable
  import HufHeight

  const TABLELOG_MAX := HufHeight.TABLELOG_MAX

  // ---------- what is written ----------

  /** Codes and lengths of a complete code. */
  ghost predicate IsCodes(vals: seq<nat>, lens: seq<nat>, ws: seq<nat>, log: nat) {
    && T.IsWeights(ws, log) && 1 <= log <= TABLELOG_MAX && |vals| == |ws| <= 256 && T.IsLengths(lens, ws, log)
    && (forall s :: 0 <= s < |lens| ==> lens[s] <= log)
    && forall s :: 0 <= s < |ws| && ws[s] >= 1 ==> T.IsCode(ws, log, s, vals[s])
  }

  ghost predicate Codable(src: seq<byte>, ws: seq<nat>) {
    forall i :: 0 <= i < |src| ==> src[i] < |ws| && ws[src[i]] >= 1
  }

  function SymbolBits(vals: seq<nat>, lens: seq<nat>, s: byte): seq<bool> {
    if s < |vals| && s < |lens| then ToBits(vals[s], lens[s]) else []
  }

  /** The bits of a text; the first symbol is on top. */
  function CodeBits(vals: seq<nat>, lens: seq<nat>, src: seq<byte>): seq<bool> {
    if src == [] then [] else CodeBits(vals, lens, src[1..]) + SymbolBits(vals, lens, src[0])
  }

  lemma {:induction false} CodableFacts(vals: seq<nat>, lens: seq<nat>, ws: seq<nat>, log: nat, s: byte)
    requires IsCodes(vals, lens, ws, log) && s < |ws| && ws[s] >= 1
    ensures s < |vals| == |lens| && 1 <= lens[s] <= log && lens[s] == log + 1 - ws[s] && vals[s] < Pow2(lens[s])
    ensures T.IsCode(ws, log, s, vals[s]) && |SymbolBits(vals, lens, s)| == lens[s]
  {
    hide Pow2, T.Start, T.Below;
    assert T.IsCode(ws, log, s, vals[s]);
    T.CodeFits(ws, log, s, vals[s]);
  }

  // ---------- reading one symbol ----------

  /** A code on top of anything, seen through a window of `log` bits, is in its range. */
  lemma {:induction false} WindowFinds(dt: seq<T.Entry>, vals: seq<nat>, lens: seq<nat>, ws: seq<nat>, log: nat, s: byte, x: seq<bool>)
    requires IsCodes(vals, lens, ws, log) && T.IsTable(dt, ws, log) && s < |ws| && ws[s] >= 1 && |x| + |SymbolBits(vals, lens, s)| == log
    ensures var v := ToNat(x + SymbolBits(vals, lens, s)); v < |dt| && dt[v] == T.Entry(s, lens[s])
  {
    hide ToNat, ToBits, Pow2, T.IsTable, T.IsWeights, Shl;
    CodableFacts(vals, lens, ws, log, s);
    ToNatConcat(x, SymbolBits(vals, lens, s));
    ToBitsToNat(vals[s], lens[s]);
    MaskSmall(vals[s], lens[s]);
    ToNatBound(x);
    T.CellsAre(ws[s]);
    T.CodeFindsSymbol(dt, ws, log, s, vals[s], ToNat(x));
  }

  /** Looking past the end of the stream fills up with zeros below. */
  lemma {:induction false} LookShort(container: nat, consumed: nat, n: nat)
    requires consumed < REGISTER < consumed + n && n < REGISTER
    ensures LookBits(container, consumed, n) == ToNat(Zeros(n - (REGISTER - consumed)) + ToBits(container, REGISTER - consumed))
  {
    hide ToNat, ToBits, Shl, Shr, Mask, Pow2;
    var wide := Zeros(consumed) + ToBits(container, REGISTER - consumed);
    ShrShr(Mask(Shl(container, consumed), REGISTER), 1, REGISTER - 1 - n);
    ShiftedRegister(container, consumed);
    ToNatSplit(wide, REGISTER - n);
    assert wide[REGISTER - n..] == Zeros(n - (REGISTER - consumed)) + ToBits(container, REGISTER - consumed);
  }

  /** The window of `n` bits at the top of what is left. */
  ghost function Window(left: seq<bool>, n: nat): (w: seq<bool>)
    ensures |w| == n
  {
    if n <= |left| then left[|left| - n..] else Zeros(n - |left|) + left
  }

  /** What is left is not empty, and either all of it or at least `n` bits are in the register. */
  ghost predicate Ready(bitD: DStream, n: nat)
    requires bitD.Valid()
    reads bitD
  {
    bitD.Remaining() >= 1 && (bitD.bitsConsumed + n <= REGISTER || bitD.ptr == 0)
  }

  lemma {:induction false} LookIsWindow(bitD: DStream, n: nat)
    requires bitD.Valid() && Ready(bitD, n) && 1 <= n <= TABLELOG_MAX
    ensures LookBitsFast(bitD.bitContainer, bitD.bitsConsumed, n) == ToNat(Window(Left(bitD), n))
  {
    hide ToNat, ToBits, BytesToBits, LittleEndian, Shl, Shr, Mask, Pow2, LookBits, LookBitsFast;
    var src, ptr, consumed := bitD.src, bitD.ptr, bitD.bitsConsumed;
    LookBitsFastAgrees(bitD.bitContainer, consumed, n);
    var r := bitD.Remaining();
    if consumed + n <= REGISTER {
      LookInStream(src, ptr, consumed, n);
      assert Left(bitD)[r - n..] == BytesToBits(src)[r - n..r];
    } else {
      LookShort(bitD.bitContainer, consumed, n);
      RegisterWindow(src, 0, 0, REGISTER - consumed);
      LowRegister(bitD.bitContainer, REGISTER - consumed);
    }
  }

  lemma {:induction false} LowRegister(v: nat, n: nat)
    requires n <= REGISTER
    ensures ToBits(v, REGISTER)[..n] == ToBits(v, n)
  {
    hide ToBits;
    ToBitsConcat(v, n, REGISTER - n);
  }

  /** `HUF_decodeSymbolX2`: safe on any stream, and a pop when a code is on top. */
  method DecodeSymbol(bitD: DStream, dt: seq<T.Entry>, log: nat, ghost vals: seq<nat>, ghost lens: seq<nat>, ghost ws: seq<nat>, ghost good: bool, ghost text: seq<byte>)
    returns (c: byte)
    requires bitD.Valid() && IsCodes(vals, lens, ws, log) && T.IsTable(dt, ws, log)
    requires good ==> text != [] && Codable(text, ws) && Ready(bitD, log) && Left(bitD) == CodeBits(vals, lens, text)
    modifies bitD`bitsConsumed
    ensures bitD.Valid()
    ensures good ==> c == text[0] && Left(bitD) == CodeBits(vals, lens, text[1..])
    ensures good ==> bitD.Remaining() >= 0 && bitD.bitsConsumed <= old(bitD.bitsConsumed) + TABLELOG_MAX
  {
    hide ToNat, BytesToBits, LittleEndian, Shl, Shr, Mask, Pow2, LookBits, LookBitsFast, T.IsTable, CodeBits, SymbolBits, T.Start, T.Below, Codable;
    var val := LookBitsFast(bitD.bitContainer, bitD.bitsConsumed, log);
    LookIndex(bitD.bitContainer, bitD.bitsConsumed, log);
    EntryIsByte(dt, ws, log, val);
    if good {
      LookIsWindow(bitD, log);
      TopSymbol(dt, vals, lens, ws, log, text, Left(bitD));
    }
    c := dt[val].symbol;
    bitD.bitsConsumed := bitD.bitsConsumed + dt[val].nbBits;
  }

  lemma {:induction false} LookIndex(container: nat, consumed: nat, n: nat)
    requires 1 <= n < REGISTER
    ensures LookBitsFast(container, consumed, n) < Pow2(n)
  {
    LookBitsFastAgrees(container, consumed, n);
    LookBitsBound(container, consumed, n);
  }

  lemma {:induction false} EntryIsByte(dt: seq<T.Entry>, ws: seq<nat>, log: nat, v: nat)
    requires T.IsTable(dt, ws, log) && v < Pow2(log) && |ws| <= 256
    ensures v < |dt| && dt[v].symbol < 256
  {
    hide T.Start, T.Below, T.Owns, Pow2;
    var s := T.TableLookup(dt, ws, log, v);
    T.OwnerIs(ws, s, v);
  }

  /** The table finds the first symbol of what is left, and its length leads to the next. */
  lemma {:induction false} TopSymbol(dt: seq<T.Entry>, vals: seq<nat>, lens: seq<nat>, ws: seq<nat>, log: nat, text: seq<byte>, left: seq<bool>)
    requires IsCodes(vals, lens, ws, log) && T.IsTable(dt, ws, log) && text != [] && Codable(text, ws) && left == CodeBits(vals, lens, text)
    ensures var v := ToNat(Window(left, log));
      && v < |dt| && text[0] < |lens| && dt[v] == T.Entry(text[0], lens[text[0]]) && 1 <= dt[v].nbBits <= log && dt[v].nbBits <= |left|
      && left[..|left| - dt[v].nbBits] == CodeBits(vals, lens, text[1..])
  {
    hide ToNat, T.IsTable, SymbolBits, Pow2;
    var s := text[0];
    CodableFacts(vals, lens, ws, log, s);
    var rest, code := CodeBits(vals, lens, text[1..]), SymbolBits(vals, lens, s);
    assert left == rest + code;
    var b := lens[s];
    var x := if log <= |left| then left[|left| - log..|left| - b] else Zeros(log - |left|) + rest;
    assert Window(left, log) == x + code;
    WindowFinds(dt, vals, lens, ws, log, s, x);
  }

  // ---------- the encoder ----------

  /** The stream so far holds the text from `i` on. */
  ghost predicate Coded(bitC: CStream, vals: seq<nat>, lens: seq<nat>, src: seq<byte>, i: nat)
    requires i <= |src|
    reads bitC, bitC.dst
  {
    bitC.Valid() && bitC.bits == CodeBits(vals, lens, src[i..])
  }

  /** `HUF_encodeSymbol` */
  method EncodeSymbol(bitC: CStream, src: seq<byte>, i: nat, vals: seq<nat>, lens: seq<nat>, ghost ws: seq<nat>, ghost log: nat)
    requires IsCodes(vals, lens, ws, log) && Codable(src, ws) && i < |src| && Coded(bitC, vals, lens, src, i + 1)
    requires bitC.bitPos + TABLELOG_MAX < REGISTER
    modifies bitC`bitContainer, bitC`bitPos, bitC`bits
    ensures Coded(bitC, vals, lens, src, i) && bitC.bitPos <= old(bitC.bitPos) + TABLELOG_MAX
  {
    hide ToNat, BytesToBits, ToBits, Pow2;
    CodableFacts(vals, lens, ws, log, src[i]);
    assert src[i..][1..] == src[i + 1..];
    bitC.AddBitsFast(vals[src[i]], lens[src[i]]);
  }

  /** The symbols that do not fill a group of four. */
  method EncodeRest(bitC: CStream, src: seq<byte>, vals: seq<nat>, lens: seq<nat>, ghost ws: seq<nat>, ghost log: nat) returns (n: nat)
    requires IsCodes(vals, lens, ws, log) && Codable(src, ws) && bitC.Valid() && bitC.bits == [] && bitC.bitPos == 0
    modifies bitC`bitContainer, bitC`bitPos, bitC`bits, bitC`ptr, bitC`flushed, bitC.dst
    ensures n <= |src| && n % 4 == 0 && Coded(bitC, vals, lens, src, n) && bitC.bitPos <= 7
  {
    hide ToNat, BytesToBits, CodeBits, IsCodes, Codable;
    n := |src| - |src| % 4;
    NothingCoded(vals, lens, src);
    var r := |src| % 4;
    if r == 3 { EncodeSymbol(bitC, src, n + 2, vals, lens, ws, log); }
    if r >= 2 { EncodeSymbol(bitC, src, n + 1, vals, lens, ws, log); }
    if r >= 1 {
      EncodeSymbol(bitC, src, n, vals, lens, ws, log);
      bitC.FlushBits();
    }
  }

  method EncodeFour(bitC: CStream, src: seq<byte>, n: nat, vals: seq<nat>, lens: seq<nat>, ghost ws: seq<nat>, ghost log: nat)
    requires IsCodes(vals, lens, ws, log) && Codable(src, ws) && 4 <= n <= |src| && Coded(bitC, vals, lens, src, n) && bitC.bitPos <= 7
    modifies bitC`bitContainer, bitC`bitPos, bitC`bits, bitC`ptr, bitC`flushed, bitC.dst
    ensures Coded(bitC, vals, lens, src, n - 4) && bitC.bitPos <= 7
  {
    hide ToNat, BytesToBits, CodeBits, IsCodes, Codable;
    EncodeSymbol(bitC, src, n - 1, vals, lens, ws, log);
    EncodeSymbol(bitC, src, n - 2, vals, lens, ws, log);
    EncodeSymbol(bitC, src, n - 3, vals, lens, ws, log);
    EncodeSymbol(bitC, src, n - 4, vals, lens, ws, log);
    bitC.FlushBits();
  }

  /** `HUF_compress1X_usingCTable`: zero exactly when the stream does not fit. */
  method Compress1X(dst: array<byte>, src: seq<byte>, vals: seq<nat>, lens: seq<nat>, ghost ws: seq<nat>, ghost log: nat) returns (size: nat)
    requires IsCodes(vals, lens, ws, log) && Codable(src, ws)
    modifies dst
    ensures size <= dst.Length
    ensures size == 0 <==> dst.Length <= REGISTER_BYTES || (|CodeBits(vals, lens, src)| + 1) / 8 >= dst.Length - REGISTER_BYTES
    ensures size != 0 ==> IsStream(dst[..size], CodeBits(vals, lens, src))
  {
    hide ToNat, BytesToBits, CodeBits, IsCodes, Codable, IsStream;
    if dst.Length < 8 { return 0; }
    if dst.Length <= REGISTER_BYTES { return 0; }
    var bitC := new CStream(dst);
    var n := EncodeRest(bitC, src, vals, lens, ws, log);
    while n > 0
      invariant 0 <= n <= |src| && n % 4 == 0 && Coded(bitC, vals, lens, src, n) && bitC.bitPos <= 7
      invariant bitC.dst == dst && bitC.endPtr == dst.Length - REGISTER_BYTES
    {
      EncodeFour(bitC, src, n, vals, lens, ws, log);
      n := n - 4;
    }
    assert src[0..] == src;
    size := bitC.Close();
  }

  lemma {:induction false} NothingCoded(vals: seq<nat>, lens: seq<nat>, src: seq<byte>)
    ensures CodeBits(vals, lens, src[|src|..]) == []
  {
  }

  // ---------- the decoder ----------

  /** `p` symbols are decoded, and what is left codes the others. */
  ghost predicate Decoding(bitD: DStream, out: seq<byte>, p: nat, vals: seq<nat>, lens: seq<nat>, text: seq<byte>)
    reads bitD
  {
    && bitD.Valid() && p <= |text| == |out| && out[..p] == text[..p] && Left(bitD) == CodeBits(vals, lens, text[p..])
    && bitD.Remaining() >= 0
  }

  /** One symbol into the output. */
  method DecodeOne(bitD: DStream, dst: array<byte>, p: nat, dt: seq<T.Entry>, log: nat,
                   ghost vals: seq<nat>, ghost lens: seq<nat>, ghost ws: seq<nat>, ghost good: bool, ghost text: seq<byte>)
    requires bitD.Valid() && IsCodes(vals, lens, ws, log) && T.IsTable(dt, ws, log) && p < dst.Length
    requires good ==> Codable(text, ws) && Decoding(bitD, dst[..], p, vals, lens, text)
    requires good ==> bitD.bitsConsumed + TABLELOG_MAX <= REGISTER || bitD.ptr == 0
    modifies bitD`bitsConsumed, dst
    ensures bitD.Valid()
    ensures good ==> Decoding(bitD, dst[..], p + 1, vals, lens, text) && bitD.bitsConsumed <= old(bitD.bitsConsumed) + TABLELOG_MAX
  {
    hide ToNat, BytesToBits, T.IsTable, CodeBits, Codable, IsCodes;
    LogRange(vals, lens, ws, log);
    ghost var rest := if good then text[p..] else [];
    ghost var before := dst[..];
    if good {
      RestCodable(text, ws, p);
      SomeLeft(vals, lens, ws, log, rest);
      assert rest[1..] == text[p + 1..];
    }
    var c := DecodeSymbol(bitD, dt, log, vals, lens, ws, good, rest);
    dst[p] := c;
    assert dst[..] == before[p := c];
    if good {
      assert dst[..][..p + 1] == before[..p] + [c];
      assert text[..p + 1] == text[..p] + [text[p]];
    }
  }

  lemma {:induction false} LogRange(vals: seq<nat>, lens: seq<nat>, ws: seq<nat>, log: nat)
    requires IsCodes(vals, lens, ws, log)
    ensures 1 <= log <= TABLELOG_MAX
  {
  }

  lemma {:induction false} RestCodable(text: seq<byte>, ws: seq<nat>, p: nat)
    requires Codable(text, ws) && p <= |text|
    ensures Codable(text[p..], ws)
  {
  }

  lemma {:induction false} SomeLeft(vals: seq<nat>, lens: seq<nat>, ws: seq<nat>, log: nat, rest: seq<byte>)
    requires IsCodes(vals, lens, ws, log) && Codable(rest, ws) && rest != []
    ensures |CodeBits(vals, lens, rest)| >= 1
  {
    CodableFacts(vals, lens, ws, log, rest[0]);
  }

  /** `HUF_decodeStreamX2`: four symbols to a reload, then the rest without one. */
  method DecodeStream(bitD: DStream, dst: array<byte>, dt: seq<T.Entry>, log: nat,
                      ghost vals: seq<nat>, ghost lens: seq<nat>, ghost ws: seq<nat>, ghost good: bool, ghost text: seq<byte>)
    requires bitD.Valid() && IsCodes(vals, lens, ws, log) && T.IsTable(dt, ws, log)
    requires good ==> Codable(text, ws) && Decoding(bitD, dst[..], 0, vals, lens, text) && bitD.bitsConsumed <= REGISTER
    modifies bitD`bitContainer, bitD`bitsConsumed, bitD`ptr, dst
    ensures bitD.Valid()
    ensures good ==> Decoding(bitD, dst[..], dst.Length, vals, lens, text) && bitD.bitsConsumed <= REGISTER
  {
    hide ToNat, BytesToBits, T.IsTable, CodeBits, Codable, IsCodes, Decoding;
    var p := 0;
    var status := Reloaded(bitD, dst, p, vals, lens, good, text);
    while status == Unfinished && p < dst.Length - 3
      invariant 0 <= p <= dst.Length && bitD.Valid()
      invariant good ==> Decoding(bitD, dst[..], p, vals, lens, text) && bitD.bitsConsumed <= REGISTER && status != Overflow
      invariant status == Unfinished ==> bitD.bitsConsumed <= 7
      invariant good && status != Unfinished ==> bitD.ptr == 0
      decreases dst.Length - p
    {
      DecodeOne(bitD, dst, p, dt, log, vals, lens, ws, good, text);
      DecodeOne(bitD, dst, p + 1, dt, log, vals, lens, ws, good, text);
      DecodeOne(bitD, dst, p + 2, dt, log, vals, lens, ws, good, text);
      DecodeOne(bitD, dst, p + 3, dt, log, vals, lens, ws, good, text);
      p := p + 4;
      status := Reloaded(bitD, dst, p, vals, lens, good, text);
    }
    while p < dst.Length
      invariant 0 <= p <= dst.Length && bitD.Valid()
      invariant good ==> Decoding(bitD, dst[..], p, vals, lens, text) && bitD.bitsConsumed <= REGISTER
      invariant good ==> bitD.ptr == 0 || bitD.bitsConsumed + TABLELOG_MAX * (dst.Length - p) <= REGISTER
    {
      DecodeOne(bitD, dst, p, dt, log, vals, lens, ws, good, text);
      p := p + 1;
      if good { StillInside(bitD, dst[..], p, vals, lens, text); }
    }
  }

  /** A reload changes nothing about what is left. */
  method Reloaded(bitD: DStream, ghost dst: array<byte>, ghost p: nat, ghost vals: seq<nat>, ghost lens: seq<nat>, ghost good: bool, ghost text: seq<byte>)
    returns (status: Status)
    requires bitD.Valid()
    requires good ==> Decoding(bitD, dst[..], p, vals, lens, text) && bitD.bitsConsumed <= REGISTER
    modifies bitD`bitContainer, bitD`bitsConsumed, bitD`ptr
    ensures bitD.Valid() && (status == Unfinished ==> bitD.bitsConsumed <= 7)
    ensures good ==> Decoding(bitD, dst[..], p, vals, lens, text) && bitD.bitsConsumed <= REGISTER && status != Overflow
    ensures good && status != Unfinished ==> bitD.ptr == 0
  {
    hide BytesToBits, CodeBits, LittleEndian;
    status := bitD.Reload();
  }

  lemma {:induction false} StillInside(bitD: DStream, out: seq<byte>, p: nat, vals: seq<nat>, lens: seq<nat>, text: seq<byte>)
    requires Decoding(bitD, out, p, vals, lens, text)
    ensures bitD.ptr == 0 ==> bitD.bitsConsumed <= REGISTER
  {
  }

  /** `HUF_decompress1X2_usingDTable`: safe on any input, and the inverse of the encoder. */
  method Decompress1X(dst: array<byte>, src: seq<byte>, dt: seq<T.Entry>, log: nat,
                      ghost vals: seq<nat>, ghost lens: seq<nat>, ghost ws: seq<nat>, ghost text: seq<byte>)
    returns (ok: bool)
    requires IsCodes(vals, lens, ws, log) && T.IsTable(dt, ws, log) && Codable(text, ws)
    modifies dst
    ensures IsStream(src, CodeBits(vals, lens, text)) && |text| == dst.Length ==> ok && dst[..] == text
  {
    hide ToNat, BytesToBits, T.IsTable, CodeBits, Codable, IsCodes, Payload, IsStream;
    ghost var bits := CodeBits(vals, lens, text);
    ghost var good := IsStream(src, bits) && |text| == dst.Length;
    if good { PayloadOfStream(src, bits); }
    if |src| < 1 || src[|src| - 1] == 0 { return false; }
    var bitD := new DStream(src);
    assert text[0..] == text;
    if good { PayloadLeft(src, bits); }
    DecodeStream(bitD, dst, dt, log, vals, lens, ws, good, text);
    ok := bitD.ptr == 0 && bitD.bitsConsumed == REGISTER;
    if good { AllDecoded(bitD, dst[..], vals, lens, text); }
  }

  lemma {:induction false} PayloadLeft(src: seq<byte>, bits: seq<bool>)
    requires HasEndMark(src) && Payload(src) == bits
    ensures |bits| <= 8 * |src| && BytesToBits(src)[..|bits|] == bits
  {
    hide BytesToBits;
    LastByteHighBit(src[|src| - 1]);
  }

  lemma {:induction false} AllDecoded(bitD: DStream, out: seq<byte>, vals: seq<nat>, lens: seq<nat>, text: seq<byte>)
    requires Decoding(bitD, out, |out|, vals, lens, text) && bitD.bitsConsumed <= REGISTER
    ensures out == text && bitD.ptr == 0 && bitD.bitsConsumed == REGISTER
  {
    hide BytesToBits, LittleEndian;
    assert text[|out|..] == [];
    NothingCoded(vals, lens, text);
    assert out[..|out|] == out && text[..|out|] == text;
  }
}
