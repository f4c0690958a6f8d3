/** The LZ4 block format: sequences of literals and back references, their bytes, and the
    text they stand for. */
module Lz4Format {
  import opened Bits

  const MINMATCH := 4
  const COPYLENGTH := 8
  const LASTLITERALS := 5
  const MFLIMIT := 12
  const MINLENGTH := 13
  const MAX_DISTANCE := 65535
  const ML_MASK := 15
  const RUN_MASK := 15

  /** Literals, then `length` bytes copied from `offset` bytes back. */
  datatype Sequence = Sequence(literals: seq<byte>, offset: nat, length: nat)

  // ---------- meaning ----------

  /** Byte-at-a-time copy from `d` bytes back; the copy may overlap itself. */
  function CopyMatch(out: seq<byte>, d: nat, m: nat): (r: seq<byte>)
    requires 1 <= d <= |out|
    ensures |r| == |out| + m
    decreases m
  {
    if m == 0 then out else CopyMatch(out + [out[|out| - d]], d, m - 1)
  }

  /** A text that repeats itself `d` bytes back from position `n` on. */
  ghost predicate Repeats(r: seq<byte>, n: nat, d: nat)
    requires 1 <= d <= n
  {
    forall i :: n <= i < |r| ==> r[i] == r[i - d]
  }

  /** The copy is the only extension that repeats itself. */
  lemma {:induction false} CopyMatchUnique(out: seq<byte>, d: nat, r: seq<byte>)
    requires 1 <= d <= |out| <= |r| && r[..|out|] == out && Repeats(r, |out|, d)
    ensures r == CopyMatch(out, d, |r| - |out|)
    decreases |r| - |out|
  {
    if |r| == |out| {
      assert r[..|out|] == r;
    } else {
      var next := out + [out[|out| - d]];
      assert r[|out|] == r[|out| - d] == out[|out| - d];
      assert r[..|next|] == r[..|out|] + [r[|out|]];
      CopyMatchUnique(next, d, r);
    }
  }

  ghost predicate IsSequence(s: Sequence, pos: nat, n: nat) {
    && s.length >= MINMATCH
    && 1 <= s.offset <= MAX_DISTANCE && s.offset <= pos + |s.literals|
    && pos + |s.literals| + MFLIMIT <= n
    && pos + |s.literals| + s.length + LASTLITERALS <= n
  }

  function Append(out: seq<byte>, s: Sequence): (r: seq<byte>)
    requires 1 <= s.offset <= |out| + |s.literals|
    ensures |r| == |out| + |s.literals| + s.length
  {
    CopyMatch(out + s.literals, s.offset, s.length)
  }

  function TextLength(seqs: seq<Sequence>): nat {
    if seqs == [] then 0
    else TextLength(seqs[..|seqs| - 1]) + |seqs[|seqs| - 1].literals| + seqs[|seqs| - 1].length
  }

  /** A legal list of sequences for a text of `n` bytes: no match starts in the last 12
      bytes or reaches into the last 5, and offsets stay inside the text so far. */
  ghost predicate Legal(seqs: seq<Sequence>, n: nat) {
    seqs == []
    || (Legal(seqs[..|seqs| - 1], n) && IsSequence(seqs[|seqs| - 1], TextLength(seqs[..|seqs| - 1]), n))
  }

  /** The text of a list of sequences. */
  ghost function Expand(seqs: seq<Sequence>, n: nat): (r: seq<byte>)
    requires Legal(seqs, n)
    ensures |r| == TextLength(seqs)
  {
    if seqs == [] then [] else Append(Expand(seqs[..|seqs| - 1], n), seqs[|seqs| - 1])
  }

  // ---------- bytes ----------

  /** The extension bytes of a length that overflows its nibble. */
  function Extension(k: nat): (e: seq<byte>)
    ensures |e| == k / 255 + 1
  {
    if k < 255 then [k] else [255] + Extension(k - 255)
  }

  function LengthBytes(l: nat): seq<byte> {
    if l < 15 then [] else Extension(l - 15)
  }

  function Nibble(l: nat): (v: nat)
    ensures v <= 15
  {
    if l < 15 then l else 15
  }

  function LiteralBytes(token: byte, literals: seq<byte>): seq<byte> {
    [token] + LengthBytes(|literals|) + literals
  }

  function SequenceBytes(s: Sequence): seq<byte>
    requires s.length >= MINMATCH && s.offset <= MAX_DISTANCE
  {
    LiteralBytes(16 * Nibble(|s.literals|) + Nibble(s.length - MINMATCH), s.literals)
    + [s.offset % 256, s.offset / 256] + LengthBytes(s.length - MINMATCH)
  }

  ghost function SequencesBytes(seqs: seq<Sequence>, n: nat): seq<byte>
    requires Legal(seqs, n)
  {
    if seqs == [] then [] else SequencesBytes(seqs[..|seqs| - 1], n) + SequenceBytes(seqs[|seqs| - 1])
  }

  function LastBytes(literals: seq<byte>): seq<byte> {
    LiteralBytes(16 * Nibble(|literals|), literals)
  }

  /** `bytes` is a block that stands for `text`. */
  ghost predicate IsBlock(bytes: seq<byte>, seqs: seq<Sequence>, last: seq<byte>, text: seq<byte>) {
    && Legal(seqs, |text|)
    && Expand(seqs, |text|) + last == text
    && bytes == SequencesBytes(seqs, |text|) + LastBytes(last)
  }

  // ---------- size ----------

  lemma {:induction false} ExtensionSize(l: nat)
    ensures 255 * |LengthBytes(l)| <= l + 240
    ensures l < 15 ==> |LengthBytes(l)| == 0
  {
  }

  /** A sequence is at most 256/255 as long as the text it stands for. */
  lemma {:induction false} SequenceSize(s: Sequence)
    requires s.length >= MINMATCH && s.offset <= MAX_DISTANCE
    ensures 255 * |SequenceBytes(s)| <= 256 * (|s.literals| + s.length)
  {
    hide LengthBytes;
    ExtensionSize(|s.literals|);
    ExtensionSize(s.length - MINMATCH);
  }

  lemma {:induction false} LastSize(literals: seq<byte>)
    ensures 255 * |LastBytes(literals)| <= 256 * |literals| + 495
  {
    hide LengthBytes;
    ExtensionSize(|literals|);
  }

  /** `LZ4_compressBound` */
  function CompressBound(n: nat): nat { n + n / 255 + 16 }

  /** After at least one match, five literals remain; a block tail has at least six
      bytes. */
  lemma {:induction false} LastAfterMatch(bytes: seq<byte>, seqs: seq<Sequence>, last: seq<byte>, text: seq<byte>)
    requires IsBlock(bytes, seqs, last, text) && seqs != []
    ensures |last| >= LASTLITERALS
  {
  }
}
