/** The LZ4 decoder for untrusted input (`LZ4_decompress_safe`), proved against a parser of
    the block format. */
module Lz4Decompress {
  import opened Bits
  import opened Lz4Format
  import opened Lz4Copy
  import C = Lz4Compress

  // ---------- the parser ----------

  datatype Number = Number(value: nat, used: nat)

  /** The sum of the bytes up to the first that is not 255, or up to the end. */
  function ReadExtension(s: seq<byte>): (n: Number)
    ensures n.used <= |s| && (s != [] ==> n.used >= 1)
  {
    if s == [] then Number(0, 0)
    else if s[0] == 255 then var n := ReadExtension(s[1..]); Number(n.value + 255, n.used + 1)
    else Number(s[0], 1)
  }

  function ReadLength(nibble: nat, s: seq<byte>): (n: Number)
    ensures n.used <= |s|
  {
    if nibble == 15 then var n := ReadExtension(s); Number(n.value + 15, n.used) else Number(nibble, 0)
  }

  datatype Step = Bad(at: nat) | Last(literals: seq<byte>) | Next(s: Sequence, ip: nat, op: nat)

  /** One token with what belongs to it. */
  function ParseStep(src: seq<byte>, cap: nat, ip: nat, op: nat): (r: Step)
    requires ip < |src|
    ensures r.Next? ==> ip < r.ip && r.ip + 6 <= |src| && r.op + LASTLITERALS <= cap
  {
    var run := ReadLength(src[ip] / 16, src[ip + 1..]);
    var p := ip + 1 + run.used;
    if op + run.value + MFLIMIT > cap || p + run.value + 8 > |src| then
      if p + run.value != |src| || op + run.value > cap then Bad(p) else Last(src[p..])
    else
      ParseMatch(src, cap, src[ip] % 16, src[p..p + run.value], p + run.value, op + run.value)
  }

  function ParseMatch(src: seq<byte>, cap: nat, nibble: nat, literals: seq<byte>, q: nat, op: nat): (r: Step)
    requires q + 8 <= |src|
    ensures !r.Last?
    ensures r.Next? ==> q < r.ip && r.ip + 6 <= |src| && r.op + LASTLITERALS <= cap && r.s.literals == literals
  {
    var low: int, high: int := src[q], src[q + 1];
    var offset := low + 256 * high;
    if offset > op then Bad(q + 2)
    else
      var m := ReadLength(nibble, src[q + 2..|src| - 6]);
      if op + m.value + MINMATCH + LASTLITERALS > cap then Bad(q + 2 + m.used)
      else Next(Sequence(literals, offset, m.value + MINMATCH), q + 2 + m.used, op + m.value + MINMATCH)
  }

  datatype Outcome = Refused(at: nat) | Accepted(seqs: seq<Sequence>, last: seq<byte>)

  function Prepend(seqs: seq<Sequence>, o: Outcome): Outcome {
    if o.Refused? then o else Accepted(seqs + o.seqs, o.last)
  }

  function ParseFrom(src: seq<byte>, cap: nat, ip: nat, op: nat): Outcome
    requires ip < |src|
    decreases |src| - ip
  {
    match ParseStep(src, cap, ip, op)
    case Bad(at) => Refused(at)
    case Last(literals) => Accepted([], literals)
    case Next(s, ip2, op2) => Prepend([s], ParseFrom(src, cap, ip2, op2))
  }

  /** What the decoder makes of any input for an output buffer of `cap` bytes. */
  function Parse(src: seq<byte>, cap: nat): Outcome
    requires |src| >= 1 || cap == 0
  {
    if cap == 0 then (if |src| == 1 && src[0] == 0 then Accepted([], []) else Refused(0))
    else ParseFrom(src, cap, 0, 0)
  }

  /** No offset is zero; a zero offset would leave bytes of the buffer as they were. */
  ghost predicate Sound(seqs: seq<Sequence>) {
    forall i :: 0 <= i < |seqs| ==> seqs[i].offset >= 1
  }

  // ---------- the parser inverts the encoding ----------

  lemma {:induction false} ReadWritten(k: nat, rest: seq<byte>)
    ensures ReadExtension(Extension(k) + rest) == Number(k, k / 255 + 1)
  {
    if k >= 255 {
      ReadWritten(k - 255, rest);
      assert (Extension(k) + rest)[1..] == Extension(k - 255) + rest;
    }
  }

  lemma {:induction false} ReadWrittenLength(l: nat, s: seq<byte>, rest: seq<byte>)
    requires s == LengthBytes(l) + rest
    ensures ReadLength(Nibble(l), s) == Number(l, |LengthBytes(l)|)
  {
    hide ReadExtension, Extension;
    if l >= 15 { ReadWritten(l - 15, rest); }
  }

  /** What the decoder asks of a sequence; unlike a block, it takes an offset of zero. */
  ghost predicate HasRoom(s: Sequence, op: nat, cap: nat) {
    && s.length >= MINMATCH && s.offset <= MAX_DISTANCE && s.offset <= op + |s.literals|
    && op + |s.literals| + MFLIMIT <= cap && op + |s.literals| + s.length + LASTLITERALS <= cap
  }

  /** The parser reads back a sequence. */
  lemma {:induction false} StepBack(src: seq<byte>, cap: nat, ip: nat, op: nat, s: Sequence, rest: seq<byte>)
    requires HasRoom(s, op, cap) && ip < |src| && src[ip..] == SequenceBytes(s) + rest && |rest| >= 6
    ensures ParseStep(src, cap, ip, op) == Next(s, ip + |SequenceBytes(s)|, op + |s.literals| + s.length)
  {
    hide LengthBytes, ReadLength, ParseMatch;
    var token := 16 * Nibble(|s.literals|) + Nibble(s.length - MINMATCH);
    var tail := [s.offset % 256, s.offset / 256] + LengthBytes(s.length - MINMATCH) + rest;
    assert src[ip..] == [token] + LengthBytes(|s.literals|) + s.literals + tail;
    RunBack(src, ip, token, s.literals, tail);
    NibblesApart(Nibble(|s.literals|), Nibble(s.length - MINMATCH));
    var q := ip + 1 + |LengthBytes(|s.literals|)| + |s.literals|;
    MatchBack(src, cap, q, op + |s.literals|, s, rest);
  }

  /** A token, a literal length and literals, cut apart. */
  lemma {:induction false} RunBack(src: seq<byte>, ip: nat, token: byte, literals: seq<byte>, tail: seq<byte>)
    requires ip < |src| && src[ip..] == [token] + LengthBytes(|literals|) + literals + tail
    ensures src[ip] == token
    ensures ReadLength(Nibble(|literals|), src[ip + 1..]) == Number(|literals|, |LengthBytes(|literals|)|)
    ensures var p := ip + 1 + |LengthBytes(|literals|)|;
            p + |literals| <= |src| && src[p..p + |literals|] == literals && src[p + |literals|..] == tail
  {
    hide LengthBytes, ReadLength, Nibble;
    var l := LengthBytes(|literals|);
    assert src[ip] == src[ip..][0];
    assert src[ip + 1..] == src[ip..][1..] == l + (literals + tail);
    ReadWrittenLength(|literals|, src[ip + 1..], literals + tail);
    var p := ip + 1 + |l|;
    assert src[p..] == src[ip + 1..][|l|..] == literals + tail;
    assert src[p..p + |literals|] == src[p..][..|literals|];
    assert src[p + |literals|..] == src[p..][|literals|..];
  }

  lemma {:induction false} NibblesApart(a: nat, b: nat)
    requires a <= 15 && b <= 15
    ensures (16 * a + b) / 16 == a && (16 * a + b) % 16 == b
  {
  }

  lemma {:induction false} AfterOffset(src: seq<byte>, q: nat, low: byte, high: byte, l: seq<byte>, rest: seq<byte>)
    requires q + 8 <= |src| && |rest| >= 6 && src[q..] == [low, high] + l + rest
    ensures src[q] == low && src[q + 1] == high && src[q + 2..|src| - 6] == l + rest[..|rest| - 6]
  {
    var all := src[q..];
    assert all[0] == src[q] && all[1] == src[q + 1] && |all| == |src| - q;
    var tail := all[2..];
    assert tail == l + rest && |tail| == |src| - q - 2;
    assert src[q + 2..|src| - 6] == tail[..|tail| - 6];
    assert (l + rest)[..|l| + (|rest| - 6)] == l + rest[..|rest| - 6];
  }

  lemma {:induction false} MatchBack(src: seq<byte>, cap: nat, q: nat, op: nat, s: Sequence, rest: seq<byte>)
    requires s.length >= MINMATCH && s.offset <= MAX_DISTANCE && s.offset <= op
    requires op + s.length + LASTLITERALS <= cap && q + 8 <= |src| && |rest| >= 6
    requires src[q..] == [s.offset % 256, s.offset / 256] + LengthBytes(s.length - MINMATCH) + rest
    ensures ParseMatch(src, cap, Nibble(s.length - MINMATCH), s.literals, q, op)
         == Next(s, q + 2 + |LengthBytes(s.length - MINMATCH)|, op + s.length)
  {
    hide LengthBytes, ReadLength, Nibble;
    var l := LengthBytes(s.length - MINMATCH);
    AfterOffset(src, q, s.offset % 256, s.offset / 256, l, rest);
    ReadWrittenLength(s.length - MINMATCH, src[q + 2..|src| - 6], rest[..|rest| - 6]);
  }

  lemma {:induction false} LastBack(src: seq<byte>, cap: nat, ip: nat, op: nat, last: seq<byte>)
    requires ip < |src| && src[ip..] == LastBytes(last) && op + |last| <= cap
    ensures ParseStep(src, cap, ip, op) == Last(last)
  {
    hide LengthBytes, ReadLength, ParseMatch;
    assert src[ip..] == [16 * Nibble(|last|)] + LengthBytes(|last|) + last + [];
    RunBack(src, ip, 16 * Nibble(|last|), last, []);
    NibblesApart(Nibble(|last|), 0);
    var p := ip + 1 + |LengthBytes(|last|)|;
    assert src[p..p + |last|] == src[p..];
  }

  /** The sequences of a legal list, taken from the front. */
  lemma {:induction false} Front(seqs: seq<Sequence>, n: nat, i: nat)
    requires Legal(seqs, n) && i <= |seqs|
    ensures Legal(seqs[..i], n)
    ensures |SequencesBytes(seqs[..i], n)| <= |SequencesBytes(seqs, n)|
    ensures SequencesBytes(seqs, n)[..|SequencesBytes(seqs[..i], n)|] == SequencesBytes(seqs[..i], n)
    ensures |Expand(seqs[..i], n)| <= |Expand(seqs, n)|
    ensures i < |seqs| ==> IsSequence(seqs[i], TextLength(seqs[..i]), n)
    decreases |seqs|
  {
    hide SequenceBytes, IsSequence, Append;
    if i == |seqs| {
      assert seqs[..i] == seqs;
    } else {
      var shorter := seqs[..|seqs| - 1];
      assert shorter[..i] == seqs[..i];
      Front(shorter, n, i);
      FrontLength(seqs, n);
      if i == |seqs| - 1 {
        assert shorter == seqs[..i];
      }
    }
  }

  lemma {:induction false} FrontLength(seqs: seq<Sequence>, n: nat)
    requires Legal(seqs, n) && seqs != []
    ensures |Expand(seqs[..|seqs| - 1], n)| <= |Expand(seqs, n)|
  {
  }

  /** Where the parser stands in a block after `i` sequences. */
  ghost predicate At(src: seq<byte>, seqs: seq<Sequence>, last: seq<byte>, text: seq<byte>, i: nat, ip: nat, op: nat) {
    && IsBlock(src, seqs, last, text) && i <= |seqs| && Legal(seqs[..i], |text|)
    && ip == |SequencesBytes(seqs[..i], |text|)| && op == TextLength(seqs[..i])
  }

  lemma {:induction false} AtEnd(src: seq<byte>, seqs: seq<Sequence>, last: seq<byte>, text: seq<byte>, i: nat, ip: nat, op: nat)
    requires At(src, seqs, last, text, i, ip, op) && i == |seqs|
    ensures ip < |src| && src[ip..] == LastBytes(last) && op + |last| == |text|
  {
    hide LastBytes, SequencesBytes, Legal, Expand;
    assert seqs[..i] == seqs;
    C.LastNotEmpty(last);
  }

  lemma {:induction false} AtSequence(src: seq<byte>, seqs: seq<Sequence>, last: seq<byte>, text: seq<byte>, i: nat, ip: nat, op: nat) returns (rest: seq<byte>)
    requires At(src, seqs, last, text, i, ip, op) && i < |seqs|
    ensures IsSequence(seqs[i], op, |text|)
    ensures ip < |src| && src[ip..] == SequenceBytes(seqs[i]) + rest && |rest| >= 6
    ensures At(src, seqs, last, text, i + 1, ip + |SequenceBytes(seqs[i])|, op + |seqs[i].literals| + seqs[i].length)
  {
    hide SequencesBytes, Legal, Expand, SequenceBytes, LastBytes;
    var n := |text|;
    var s := seqs[i];
    assert seqs[..i + 1] == seqs[..i] + [s];
    Front(seqs, n, i);
    Front(seqs, n, i + 1);
    assert IsSequence(s, |Expand(seqs[..i], n)|, n);
    C.OneMore(seqs[..i], s, n);
    var all := SequencesBytes(seqs, n);
    var e := ip + |SequenceBytes(s)|;
    assert all[..e] == SequencesBytes(seqs[..i], n) + SequenceBytes(s);
    assert all[ip..e] == all[..e][ip..] == SequenceBytes(s);
    rest := src[e..];
    assert src[ip..] == src[ip..e] + src[e..];
    assert src[ip..e] == all[ip..e];
    LastSizeAfter(src, seqs, last, text);
  }

  lemma {:induction false} LastSizeAfter(src: seq<byte>, seqs: seq<Sequence>, last: seq<byte>, text: seq<byte>)
    requires IsBlock(src, seqs, last, text) && seqs != []
    ensures |src| >= |SequencesBytes(seqs, |text|)| + 6
  {
    LastAfterMatch(src, seqs, last, text);
  }

  lemma {:induction false} ParseBlockFrom(src: seq<byte>, seqs: seq<Sequence>, last: seq<byte>, text: seq<byte>, cap: nat, i: nat, ip: nat, op: nat)
    requires At(src, seqs, last, text, i, ip, op) && cap >= |text|
    ensures ip < |src| && ParseFrom(src, cap, ip, op) == Accepted(seqs[i..], last)
    decreases |seqs| - i
  {
    hide At, ParseStep, SequenceBytes;
    assert i <= |seqs| by { AtRange(src, seqs, last, text, i, ip, op); }
    if i == |seqs| {
      AtEnd(src, seqs, last, text, i, ip, op);
      LastBack(src, cap, ip, op, last);
    } else {
      var rest := AtSequence(src, seqs, last, text, i, ip, op);
      StepBack(src, cap, ip, op, seqs[i], rest);
      ParseBlockFrom(src, seqs, last, text, cap, i + 1, ip + |SequenceBytes(seqs[i])|, op + |seqs[i].literals| + seqs[i].length);
      assert seqs[i..] == [seqs[i]] + seqs[i + 1..];
    }
  }

  lemma {:induction false} AtRange(src: seq<byte>, seqs: seq<Sequence>, last: seq<byte>, text: seq<byte>, i: nat, ip: nat, op: nat)
    requires At(src, seqs, last, text, i, ip, op)
    ensures i <= |seqs|
  {
  }

  /** Every block, read into a buffer that holds its text, is parsed into the sequences it
      was made of; no earlier sequence is taken for the last one. */
  lemma {:induction false} ParseBlock(src: seq<byte>, seqs: seq<Sequence>, last: seq<byte>, text: seq<byte>, cap: nat)
    requires IsBlock(src, seqs, last, text) && cap >= |text|
    ensures |src| >= 1 && Parse(src, cap) == Accepted(seqs, last)
  {
    assert seqs[..0] == [];
    assert seqs[0..] == seqs;
    ParseBlockFrom(src, seqs, last, text, cap, 0, 0, 0);
    if cap == 0 {
      EmptyBlock(src, seqs, last, text);
    }
  }

  lemma {:induction false} EmptyBlock(src: seq<byte>, seqs: seq<Sequence>, last: seq<byte>, text: seq<byte>)
    requires IsBlock(src, seqs, last, text) && |text| == 0
    ensures seqs == [] && last == [] && src == [0]
  {
  }

  // ---------- the decoder ----------

  method ReadRunLength(src: seq<byte>, ip0: nat, length0: nat) returns (length: nat, ip: nat)
    requires ip0 <= |src|
    ensures var n := ReadExtension(src[ip0..]); length == length0 + n.value && ip == ip0 + n.used
  {
    length, ip := length0, ip0;
    var s: byte := 255;
    while ip < |src| && s == 255
      invariant ip0 <= ip <= |src|
      invariant var n, m := ReadExtension(src[ip0..]), ReadExtension(src[ip..]);
        if s == 255 then length + m.value == length0 + n.value && ip + m.used == ip0 + n.used
        else length == length0 + n.value && ip == ip0 + n.used
    {
      assert src[ip..][1..] == src[ip + 1..];
      s := src[ip];
      ip := ip + 1;
      length := length + s;
    }
  }

  method ReadMatchLength(src: seq<byte>, ip0: nat, length0: nat) returns (length: nat, ip: nat)
    requires ip0 + 6 <= |src|
    ensures var n := ReadExtension(src[ip0..|src| - 6]); length == length0 + n.value && ip == ip0 + n.used
  {
    length, ip := length0, ip0;
    while ip < |src| - (LASTLITERALS + 1)
      invariant ip0 <= ip <= |src| - 6
      invariant var n, m := ReadExtension(src[ip0..|src| - 6]), ReadExtension(src[ip..|src| - 6]);
        length + m.value == length0 + n.value && ip + m.used == ip0 + n.used
    {
      assert src[ip..|src| - 6][1..] == src[ip + 1..|src| - 6];
      var s := src[ip];
      ip := ip + 1;
      length := length + s;
      if s == 255 { continue; }
      break;
    }
  }

  /** Offset, match length and match copy of one sequence. */
  method DecodeMatch(src: seq<byte>, dst: array<byte>, nibble: nat, q: nat, op0: nat, ghost literals: seq<byte>)
    returns (bad: bool, ip: nat, op: nat)
    requires q + 8 <= |src| && op0 + MFLIMIT <= dst.Length
    modifies dst
    ensures match ParseMatch(src, dst.Length, nibble, literals, q, op0)
            case Bad(at) => bad && ip == at
            case Last(_) => false
            case Next(s, ip2, op2) =>
              && !bad && ip == ip2 && op == op2
              && (s.offset >= 1 ==> s.offset <= op0 && op <= dst.Length && dst[..op] == CopyMatch(old(dst[..op0]), s.offset, s.length))
  {
    hide ReadExtension, CopyMatch, Spread;
    op := op0;
    var low: int, high: int := src[q], src[q + 1];
    var ref := op - (low + 256 * high);
    ip := q + 2;
    if ref < 0 { return true, ip, op; }
    var length := nibble;
    if length == ML_MASK {
      length, ip := ReadMatchLength(src, ip, length);
    }
    var ok;
    ok, op := CopySequence(dst, op, ref, length);
    bad := !ok;
    if ok && ref < op0 {
      SpreadIsCopy(dst[..], op0, op0 - ref, op);
      assert dst[..][..op0] == dst[..op0];
      assert dst[..][..op] == dst[..op];
    }
  }

  lemma {:induction false} PrependMore(acc: seq<Sequence>, s: Sequence, o: Outcome)
    ensures Prepend(acc, Prepend([s], o)) == Prepend(acc + [s], o)
  {
    if o.Accepted? { assert acc + ([s] + o.seqs) == (acc + [s]) + o.seqs; }
  }

  /** The decoded text: the sequences so far, as long as no offset was zero. */
  ghost predicate Decoded(out: seq<byte>, seqs: seq<Sequence>, cap: nat) {
    && |out| == TextLength(seqs)
    && (Sound(seqs) ==> Legal(seqs, cap) && out == Expand(seqs, cap))
  }

  lemma {:induction false} NextIsSequence(src: seq<byte>, cap: nat, ip: nat, op: nat, s: Sequence, ip2: nat, op2: nat)
    requires ip < |src| && ParseStep(src, cap, ip, op) == Next(s, ip2, op2)
    ensures s.offset >= 1 ==> IsSequence(s, op, cap)
    ensures op2 == op + |s.literals| + s.length
  {
    hide ReadLength;
  }

  lemma {:induction false} DecodedMore(out: seq<byte>, seqs: seq<Sequence>, cap: nat, s: Sequence, more: seq<byte>)
    requires Decoded(out, seqs, cap) && |more| == |out| + |s.literals| + s.length
    requires s.offset >= 1 ==> IsSequence(s, |out|, cap) && more == Append(out, s)
    ensures Decoded(more, seqs + [s], cap)
  {
    hide Legal, Expand, IsSequence;
    var all := seqs + [s];
    assert all[..|all| - 1] == seqs && all[|all| - 1] == s;
    if Sound(all) {
      assert s.offset >= 1;
      forall i | 0 <= i < |seqs| ensures seqs[i].offset >= 1 { assert all[i] == seqs[i]; }
      C.OneMore(seqs, s, cap);
    }
  }

  function ErrorCode(at: int): int { -at - 1 }

  /** The return value and the buffer after decoding: an error position, or the length of
      the text, which is in the buffer unless some offset was zero. */
  ghost predicate IsAnswer(o: Outcome, r: int, dst: seq<byte>) {
    match o
    case Refused(at) => r == ErrorCode(at)
    case Accepted(seqs, last) =>
      && 0 <= r <= |dst| && r == TextLength(seqs) + |last|
      && (Sound(seqs) ==> Legal(seqs, |dst|) && dst[..r] == Expand(seqs, |dst|) + last)
  }

  lemma {:induction false} LastAnswers(acc: seq<Sequence>, literals: seq<byte>, was: seq<byte>, dst: seq<byte>, r: nat)
    requires Decoded(was, acc, |dst|) && r == |was| + |literals| <= |dst| && dst[..r] == was + literals
    ensures IsAnswer(Prepend(acc, Accepted([], literals)), r, dst)
  {
    hide Legal, Expand, Sound;
    assert acc + [] == acc;
  }

  /** `LZ4_decompress_safe`: the parser's verdict, and the text of the sequences it found. For an
      empty input the first token would be read outside of it, unless the output is empty. */
  method Decompress(src: seq<byte>, dst: array<byte>) returns (r: int)
    requires |src| >= 1 || dst.Length == 0
    modifies dst
    ensures IsAnswer(Parse(src, dst.Length), r, dst[..])
  {
    hide ParseStep, Legal, Expand, Append, Sound, IsSequence, Decoded, IsAnswer, Prepend;
    if dst.Length == 0 {
      EmptyAnswers(dst[..]);
      return if |src| == 1 && src[0] == 0 then 0 else -1;
    }
    var ip: nat, op: nat := 0, 0;
    ghost var acc: seq<Sequence> := [];
    EmptyDecoded(ParseFrom(src, dst.Length, 0, 0), dst.Length);
    while true
      invariant ip < |src| && op <= dst.Length
      invariant Parse(src, dst.Length) == Prepend(acc, ParseFrom(src, dst.Length, ip, op))
      invariant Decoded(dst[..op], acc, dst.Length)
      decreases |src| - ip
    {
      ghost var was := dst[..op];
      ghost var step := ParseStep(src, dst.Length, ip, op);
      var kind, ip2, op2 := DecodeStep(src, dst, ip, op);
      if kind == Failed {
        RefusedAnswers(acc, ip2, dst[..]);
        return ErrorCode(ip2);
      }
      if kind == Ended {
        assert dst[..][..op2] == dst[..op2];
        LastAnswers(acc, step.literals, was, dst[..], op2);
        return op2;
      }
      NextIsSequence(src, dst.Length, ip, op, step.s, ip2, op2);
      PrependMore(acc, step.s, ParseFrom(src, dst.Length, ip2, op2));
      DecodedMore(was, acc, dst.Length, step.s, dst[..op2]);
      acc := acc + [step.s];
      ip, op := ip2, op2;
    }
  }

  datatype Kind = Failed | Ended | Going

  lemma {:induction false} EmptyDecoded(o: Outcome, cap: nat)
    ensures Decoded([], [], cap) && Prepend([], o) == o
  {
    if o.Accepted? { assert [] + o.seqs == o.seqs; }
  }

  lemma {:induction false} EmptyAnswers(dst: seq<byte>)
    requires dst == []
    ensures IsAnswer(Accepted([], []), 0, dst) && IsAnswer(Refused(0), -1, dst)
  {
  }

  lemma {:induction false} RefusedAnswers(acc: seq<Sequence>, at: nat, dst: seq<byte>)
    ensures IsAnswer(Prepend(acc, Refused(at)), ErrorCode(at), dst)
  {
  }

  /** One turn of the main loop. */
  method DecodeStep(src: seq<byte>, dst: array<byte>, ip0: nat, op0: nat) returns (kind: Kind, ip: nat, op: nat)
    requires ip0 < |src| && op0 <= dst.Length
    modifies dst
    ensures match ParseStep(src, dst.Length, ip0, op0)
            case Bad(at) => kind == Failed && ip == at
            case Last(literals) =>
              && kind == Ended && op == op0 + |literals| <= dst.Length
              && dst[..op] == old(dst[..op0]) + literals
            case Next(s, ip2, op2) =>
              && kind == Going && ip == ip2 && op == op2 <= dst.Length
              && (s.offset >= 1 ==> s.offset <= op0 + |s.literals| && dst[..op] == Append(old(dst[..op0]), s))
  {
    hide ReadExtension, ParseMatch, CopyMatch;
    var token: int := src[ip0];
    ip, op := ip0 + 1, op0;
    var length := token / 16;
    if length == RUN_MASK {
      length, ip := ReadRunLength(src, ip, length);
    }
    var cpy := op + length;
    if cpy > dst.Length - MFLIMIT || ip + length > |src| - (2 + 1 + LASTLITERALS) {
      if ip + length != |src| || cpy > dst.Length { return Failed, ip, op; }
      C.CopyBytes(dst, op, src[ip..]);
      return Ended, ip + length, op + length;
    }
    ghost var literals := src[ip..ip + length];
    WildCopy(dst, op, src, ip, cpy);
    assert dst[..cpy] == old(dst[..op0]) + literals;
    var bad;
    bad, ip, op := DecodeMatch(src, dst, token % 16, ip + length, cpy, literals);
    kind := if bad then Failed else Going;
  }

  // ---------- round trip ----------

  /** A decoded block holds its text. */
  lemma {:induction false} BlockAnswer(block: seq<byte>, seqs: seq<Sequence>, last: seq<byte>, text: seq<byte>, r: int, dst: seq<byte>)
    requires IsBlock(block, seqs, last, text) && |dst| >= |text| && |block| >= 1
    requires IsAnswer(Parse(block, |dst|), r, dst)
    ensures r == |text| && dst[..r] == text
  {
    hide Parse, Legal, Expand, SequencesBytes, LastBytes, Sound;
    ParseBlock(block, seqs, last, text, |dst|);
    LegalIsSound(seqs, |text|);
    ExpandAnywhere(seqs, |text|, |dst|);
  }

  lemma {:induction false} LegalIsSound(seqs: seq<Sequence>, n: nat)
    requires Legal(seqs, n)
    ensures Sound(seqs)
  {
    if seqs != [] {
      LegalIsSound(seqs[..|seqs| - 1], n);
      forall i | 0 <= i < |seqs| ensures seqs[i].offset >= 1 {
        if i < |seqs| - 1 { assert seqs[..|seqs| - 1][i] == seqs[i]; }
      }
    }
  }

  lemma {:induction false} ExpandAnywhere(seqs: seq<Sequence>, n: nat, m: nat)
    requires Legal(seqs, n) && Legal(seqs, m)
    ensures Expand(seqs, n) == Expand(seqs, m)
  {
    if seqs != [] { ExpandAnywhere(seqs[..|seqs| - 1], n, m); }
  }

  /** Compressing any input and decompressing the result into any buffer that is large
      enough gives the input back. */
  method RoundTrip(text: seq<byte>, dest: array<byte>, out: array<byte>) returns (size: nat, r: int)
    requires CompressBound(|text|) <= C.INT_MAX && dest.Length >= CompressBound(|text|) && out.Length >= |text|
    requires dest != out
    modifies dest, out
    ensures 1 <= size <= CompressBound(|text|)
    ensures r == |text| && out[..r] == text
  {
    hide IsBlock, CompressBound, Parse, IsAnswer;
    ghost var seqs, last;
    size, seqs, last := C.Compress(text, dest);
    var block := dest[..size];
    r := Decompress(block, out);
    BlockAnswer(block, seqs, last, text, r, out[..]);
    assert out[..][..r] == out[..r];
  }
}
