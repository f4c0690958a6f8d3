/** What the LZ4 decoder accepts, said without its parser: which inputs spell a list of sequences
    and last literals, and how much room these need. */
module Lz4Verdict {
  import opened Bits
  import opened Lz4Format
  import opened Lz4Decompress

  // ---------- what an input spells ----------

  /** Last literals; the low half of their token is ignored. */
  ghost predicate SpellsLast(src: seq<byte>, last: seq<byte>) {
    |src| >= 1 && src[0] / 16 == Nibble(|last|) && src[1..] == LengthBytes(|last|) + last
  }

  function Full(k: nat): (r: seq<byte>)
    ensures |r| == k && forall i :: 0 <= i < k ==> r[i] == 255
  {
    seq(k, _ => 255)
  }

  /** A match length may lack its last byte if the last six bytes of the input come up. */
  ghost predicate Unended(s: Sequence, bytes: seq<byte>) {
    && s.length >= MINMATCH && s.offset <= MAX_DISTANCE && |bytes| >= |LengthBytes(|s.literals|)| + |s.literals| + 3
    && var k := |bytes| - |LengthBytes(|s.literals|)| - |s.literals| - 3;
    && s.length == MINMATCH + ML_MASK + 255 * k
    && bytes == LiteralBytes(16 * Nibble(|s.literals|) + ML_MASK, s.literals) + [s.offset % 256, s.offset / 256] + Full(k)
  }

  /** The first `n` bytes stand for a sequence. */
  ghost predicate SpellsOne(src: seq<byte>, s: Sequence, n: nat) {
    && s.length >= MINMATCH && s.offset <= MAX_DISTANCE && n + 6 <= |src|
    && (src[..n] == SequenceBytes(s) || (n + 6 == |src| && Unended(s, src[..n])))
  }

  ghost predicate Spells(src: seq<byte>, seqs: seq<Sequence>, last: seq<byte>)
    decreases |seqs|
  {
    if seqs == [] then SpellsLast(src, last)
    else exists n: nat :: SpellsOne(src, seqs[0], n) && Spells(src[n..], seqs[1..], last)
  }

  /** No match starts in the last 12 bytes of the output or reaches into the last 5, offsets stay
      inside the text so far, and the text fits. */
  ghost predicate RoomFor(seqs: seq<Sequence>, last: seq<byte>, op: nat, cap: nat)
    decreases |seqs|
  {
    if seqs == [] then op + |last| <= cap
    else HasRoom(seqs[0], op, cap) && RoomFor(seqs[1..], last, op + |seqs[0].literals| + seqs[0].length, cap)
  }

  // ---------- lengths ----------

  /** What is read as a length was written as one, or the input ended before its last byte. */
  lemma {:induction false} ExtensionRead(s: seq<byte>)
    ensures var n := ReadExtension(s);
      s[..n.used] == Extension(n.value) || (n.used == |s| && s == Full(|s|) && n.value == 255 * |s|)
  {
    if s != [] && s[0] == 255 {
      ExtensionRead(s[1..]);
      var n := ReadExtension(s[1..]);
      assert s[..n.used + 1] == [255] + s[1..][..n.used];
      if n.used == |s[1..]| && s[1..] == Full(|s| - 1) { assert s == Full(|s|); }
    } else if s != [] {
      assert s[..1] == [s[0]];
    }
  }

  /** The first `n` bytes, behind a nibble, are a length, or the input ended before its last byte. */
  ghost predicate SpellsLength(nibble: nat, s: seq<byte>, l: nat, n: nat) {
    && n <= |s|
    && ((nibble == Nibble(l) && s[..n] == LengthBytes(l)) || (nibble == 15 && n == |s| && s == Full(n) && l == 15 + 255 * n))
  }

  lemma {:induction false} LengthRead(nibble: nat, s: seq<byte>)
    requires nibble <= 15
    ensures var n := ReadLength(nibble, s); SpellsLength(nibble, s, n.value, n.used)
  {
    hide ReadExtension, Extension;
    if nibble == 15 { ExtensionRead(s); }
  }

  lemma {:induction false} FullRead(k: nat)
    ensures ReadExtension(Full(k)) == Number(255 * k, k)
  {
    if k > 0 {
      FullRead(k - 1);
      assert Full(k)[1..] == Full(k - 1);
    }
  }

  // ---------- one step ----------

  /** The parser takes the rest for last literals exactly if it spells them and there is room. */
  lemma {:induction false} LastVerdict(src: seq<byte>, cap: nat, ip: nat, op: nat, last: seq<byte>)
    requires ip < |src|
    ensures ParseStep(src, cap, ip, op) == Last(last) <==> SpellsLast(src[ip..], last) && op + |last| <= cap
  {
    hide LengthBytes, ReadLength, ParseMatch;
    var rest := src[ip..];
    assert rest[0] == src[ip] && rest[1..] == src[ip + 1..];
    if SpellsLast(rest, last) {
      var low := rest[0] % 16;
      assert rest == [rest[0]] + LengthBytes(|last|) + last + [];
      RunBack(src, ip, rest[0], last, []);
      assert src[ip + 1 + |LengthBytes(|last|)|..] == last;
    }
    if ParseStep(src, cap, ip, op) == Last(last) {
      var run := ReadLength(src[ip] / 16, src[ip + 1..]);
      LengthRead(src[ip] / 16, src[ip + 1..]);
      assert src[ip + 1..] == src[ip + 1..][..run.used] + src[ip + 1 + run.used..];
    }
  }

  lemma {:induction false} OffsetBytes(low: nat, high: nat)
    requires low < 256 && high < 256
    ensures (low + 256 * high) % 256 == low && (low + 256 * high) / 256 == high && low + 256 * high <= 65535
  {
  }

  /** A match that is taken: its offset and its length. */
  lemma {:induction false} MatchSpells(src: seq<byte>, cap: nat, nibble: nat, literals: seq<byte>, q: nat, op: nat, s: Sequence, ip2: nat, op2: nat)
    requires q + 8 <= |src| && nibble <= 15 && op + MFLIMIT <= cap && ParseMatch(src, cap, nibble, literals, q, op) == Next(s, ip2, op2)
    ensures q + 2 <= ip2 && ip2 + 6 <= |src| && s.length >= MINMATCH && s.literals == literals && op2 == op + s.length
    ensures s.offset <= op && s.offset <= MAX_DISTANCE && op2 + LASTLITERALS <= cap
    ensures src[q..q + 2] == [s.offset % 256, s.offset / 256]
    ensures SpellsLength(nibble, src[q + 2..|src| - 6], s.length - MINMATCH, ip2 - q - 2)
  {
    hide LengthBytes, ReadLength, Nibble, SpellsLength;
    OffsetBytes(src[q], src[q + 1]);
    LengthRead(nibble, src[q + 2..|src| - 6]);
  }

  /** Token, literals, offset and match length together. */
  lemma {:induction false} SpellsWhole(src: seq<byte>, ip: nat, p: nat, q: nat, ip2: nat, s: Sequence)
    requires ip < p <= q && q + 2 <= ip2 && ip2 + 6 <= |src| && s.length >= MINMATCH && s.offset <= MAX_DISTANCE
    requires s.literals == src[p..q] && src[ip] / 16 == Nibble(|s.literals|) && src[ip + 1..p] == LengthBytes(|s.literals|)
    requires src[q..q + 2] == [s.offset % 256, s.offset / 256]
    requires SpellsLength(src[ip] % 16, src[q + 2..|src| - 6], s.length - MINMATCH, ip2 - q - 2)
    ensures SpellsOne(src[ip..], s, ip2 - ip)
  {
    hide LengthBytes, Nibble;
    var all, tail, n := src[ip..][..ip2 - ip], src[q + 2..|src| - 6], ip2 - q - 2;
    assert all == [src[ip]] + src[ip + 1..p] + src[p..q] + src[q..q + 2] + src[q + 2..ip2];
    assert tail[..n] == src[q + 2..ip2];
    assert src[ip] == 16 * (src[ip] / 16) + src[ip] % 16;
  }

  /** The parser takes only what spells a sequence that has room. */
  lemma {:induction false} NextSpells(src: seq<byte>, cap: nat, ip: nat, op: nat, s: Sequence, ip2: nat, op2: nat)
    requires ip < |src| && ParseStep(src, cap, ip, op) == Next(s, ip2, op2)
    ensures ip < ip2 && ip2 + 6 <= |src| && op2 == op + |s.literals| + s.length
    ensures HasRoom(s, op, cap) && SpellsOne(src[ip..], s, ip2 - ip)
  {
    hide LengthBytes, ReadLength, Nibble, ParseMatch, SpellsOne;
    var run := ReadLength(src[ip] / 16, src[ip + 1..]);
    LengthRead(src[ip] / 16, src[ip + 1..]);
    var p := ip + 1 + run.used;
    var q := p + run.value;
    MatchSpells(src, cap, src[ip] % 16, src[p..q], q, op + run.value, s, ip2, op2);
    assert src[ip + 1..][..run.used] == src[ip + 1..p];
    hide SpellsLength;
    SpellsWhole(src, ip, p, q, ip2, s);
  }

  /** And it takes every one of them. */
  lemma {:induction false} SpelledNext(src: seq<byte>, cap: nat, ip: nat, op: nat, s: Sequence, n: nat)
    requires ip < |src| && HasRoom(s, op, cap) && SpellsOne(src[ip..], s, n)
    ensures ParseStep(src, cap, ip, op) == Next(s, ip + n, op + |s.literals| + s.length)
  {
    hide SequenceBytes, LengthBytes, ParseStep, Nibble;
    var rest := src[ip..];
    assert rest == rest[..n] + rest[n..];
    if rest[..n] == SequenceBytes(s) {
      StepBack(src, cap, ip, op, s, rest[n..]);
    } else {
      UnendedNext(src, cap, ip, op, s, n);
    }
  }

  lemma {:induction false} UnendedNext(src: seq<byte>, cap: nat, ip: nat, op: nat, s: Sequence, n: nat)
    requires ip < |src| && HasRoom(s, op, cap) && ip + n + 6 == |src| && Unended(s, src[ip..][..n])
    ensures ParseStep(src, cap, ip, op) == Next(s, ip + n, op + |s.literals| + s.length)
  {
    hide LengthBytes, ReadLength, Nibble, SequenceBytes, ParseMatch, Full;
    var l := |LengthBytes(|s.literals|)|;
    var k := n - l - |s.literals| - 3;
    var token := 16 * Nibble(|s.literals|) + ML_MASK;
    var tail := [s.offset % 256, s.offset / 256] + Full(k) + src[ip + n..];
    var q := ip + 1 + l + |s.literals|;
    assert src[ip..] == src[ip..][..n] + src[ip + n..] == [token] + LengthBytes(|s.literals|) + s.literals + tail;
    RunBack(src, ip, token, s.literals, tail);
    NibblesApart(Nibble(|s.literals|), ML_MASK);
    UnendedTail(src, q, s, k, tail);
    UnendedMatch(src, cap, q, op + |s.literals|, s, k);
  }

  lemma {:induction false} UnendedTail(src: seq<byte>, q: nat, s: Sequence, k: nat, tail: seq<byte>)
    requires q + k + 8 == |src| && s.offset <= MAX_DISTANCE && src[q..] == tail
    requires tail == [s.offset % 256, s.offset / 256] + Full(k) + src[|src| - 6..]
    ensures src[q] == s.offset % 256 && src[q + 1] == s.offset / 256 && src[q + 2..|src| - 6] == Full(k)
  {
    hide Full;
    assert src[q] == tail[0] && src[q + 1] == tail[1];
    assert src[q + 2..|src| - 6] == tail[2..2 + k];
  }

  lemma {:induction false} UnendedMatch(src: seq<byte>, cap: nat, q: nat, op: nat, s: Sequence, k: nat)
    requires q + 2 + k + 6 == |src| && src[q] == s.offset % 256 && src[q + 1] == s.offset / 256 && src[q + 2..|src| - 6] == Full(k)
    requires s.length == MINMATCH + ML_MASK + 255 * k && s.offset <= op && op + s.length + LASTLITERALS <= cap
    ensures ParseMatch(src, cap, ML_MASK, s.literals, q, op) == Next(s, q + 2 + k, op + s.length)
  {
    hide ReadExtension, Full;
    FullRead(k);
  }

  // ---------- the whole input ----------

  lemma {:induction false} AcceptedSpells(src: seq<byte>, cap: nat, ip: nat, op: nat, seqs: seq<Sequence>, last: seq<byte>)
    requires ip < |src| && ParseFrom(src, cap, ip, op) == Accepted(seqs, last)
    ensures Spells(src[ip..], seqs, last) && RoomFor(seqs, last, op, cap)
    decreases |src| - ip
  {
    hide ParseStep, SpellsOne, SpellsLast, HasRoom;
    var step := ParseStep(src, cap, ip, op);
    if step.Last? {
      LastVerdict(src, cap, ip, op, last);
    } else {
      NextSpells(src, cap, ip, op, step.s, step.ip, step.op);
      var o := ParseFrom(src, cap, step.ip, step.op);
      assert seqs[0] == step.s && seqs[1..] == o.seqs;
      AcceptedSpells(src, cap, step.ip, step.op, o.seqs, last);
      assert src[ip..][step.ip - ip..] == src[step.ip..];
    }
  }

  lemma {:induction false} SpelledFirst(src: seq<byte>, seqs: seq<Sequence>, last: seq<byte>) returns (n: nat)
    requires seqs != [] && Spells(src, seqs, last)
    ensures n + 6 <= |src| && SpellsOne(src, seqs[0], n) && Spells(src[n..], seqs[1..], last)
  {
    hide SequenceBytes, Unended, SpellsLast;
    n :| SpellsOne(src, seqs[0], n) && Spells(src[n..], seqs[1..], last);
  }

  lemma {:induction false} RoomFirst(seqs: seq<Sequence>, last: seq<byte>, op: nat, cap: nat)
    requires RoomFor(seqs, last, op, cap)
    ensures if seqs == [] then op + |last| <= cap
      else HasRoom(seqs[0], op, cap) && RoomFor(seqs[1..], last, op + |seqs[0].literals| + seqs[0].length, cap)
  {
  }

  lemma {:induction false} SpelledEnd(src: seq<byte>, cap: nat, ip: nat, op: nat, last: seq<byte>)
    requires ip < |src| && Spells(src[ip..], [], last) && op + |last| <= cap
    ensures ParseFrom(src, cap, ip, op) == Accepted([], last)
  {
    hide ParseStep, SpellsLast;
    LastVerdict(src, cap, ip, op, last);
  }

  lemma {:induction false} SpelledAccepted(src: seq<byte>, cap: nat, ip: nat, op: nat, seqs: seq<Sequence>, last: seq<byte>)
    requires ip < |src| && Spells(src[ip..], seqs, last) && RoomFor(seqs, last, op, cap)
    ensures ParseFrom(src, cap, ip, op) == Accepted(seqs, last)
    decreases |seqs|
  {
    hide ParseStep, Spells, SpellsOne, RoomFor, HasRoom;
    RoomFirst(seqs, last, op, cap);
    if seqs == [] {
      SpelledEnd(src, cap, ip, op, last);
    } else {
      var n := SpelledFirst(src[ip..], seqs, last);
      SpelledNext(src, cap, ip, op, seqs[0], n);
      assert src[ip..][n..] == src[ip + n..];
      SpelledAccepted(src, cap, ip + n, op + |seqs[0].literals| + seqs[0].length, seqs[1..], last);
      assert [seqs[0]] + seqs[1..] == seqs;
    }
  }

  /** The decoder accepts exactly the inputs that spell sequences and last literals for which the
      output has room, and then it finds these. */
  lemma {:induction false} Verdict(src: seq<byte>, cap: nat, seqs: seq<Sequence>, last: seq<byte>)
    requires |src| >= 1
    ensures cap >= 1 ==> (Parse(src, cap) == Accepted(seqs, last) <==> Spells(src, seqs, last) && RoomFor(seqs, last, 0, cap))
    ensures cap == 0 ==> (Parse(src, cap) == Accepted(seqs, last) <==> src == [0] && seqs == [] && last == [])
  {
    hide Spells, RoomFor, ParseFrom;
    assert src[0..] == src;
    if cap >= 1 {
      if Parse(src, cap) == Accepted(seqs, last) { AcceptedSpells(src, cap, 0, 0, seqs, last); }
      if Spells(src, seqs, last) && RoomFor(seqs, last, 0, cap) { SpelledAccepted(src, cap, 0, 0, seqs, last); }
    }
  }

  // ---------- where it stops ----------

  /** Neither a sequence nor last literals can be read from the front: the literals have no room
      or are not all there, the offset leads in front of the text, or the match has no room. The
      input has been read up to `at`. */
  ghost predicate Stuck(src: seq<byte>, op: nat, cap: nat, at: nat) {
    |src| >= 1 && exists l: nat, n: nat :: SpellsLength(src[0] / 16, src[1..], l, n) && StuckBy(src, op, cap, l, n, at)
  }

  ghost predicate StuckBy(src: seq<byte>, op: nat, cap: nat, l: nat, n: nat, at: nat)
    requires |src| >= 1
  {
    if op + l + MFLIMIT > cap || n + l + 9 > |src| then at == n + 1 && (n + l + 1 != |src| || op + l > cap)
    else StuckInMatch(src, src[0] % 16, n + l + 1, op + l, cap, at)
  }

  ghost predicate StuckInMatch(src: seq<byte>, nibble: nat, q: nat, op: nat, cap: nat, at: nat)
    requires q + 8 <= |src|
  {
    var low: int, high: int := src[q], src[q + 1];
    if low + 256 * high > op then at == q + 2
    else at >= q + 2 && TooLong(nibble, src[q + 2..|src| - 6], op, cap, at - q - 2)
  }

  /** The length of a match that would reach into the last five bytes takes `n` bytes. */
  ghost predicate TooLong(nibble: nat, s: seq<byte>, op: nat, cap: nat, n: nat) {
    exists m: nat :: SpellsLength(nibble, s, m, n) && op + m + MINMATCH + LASTLITERALS > cap
  }

  /** Some sequences that have room, and then nothing can be read. */
  ghost predicate StuckBehind(src: seq<byte>, seqs: seq<Sequence>, op: nat, cap: nat, at: nat)
    decreases |seqs|
  {
    if seqs == [] then Stuck(src, op, cap, at)
    else HasRoom(seqs[0], op, cap) && exists n: nat ::
      SpellsOne(src, seqs[0], n) && n <= at && StuckBehind(src[n..], seqs[1..], op + |seqs[0].literals| + seqs[0].length, cap, at - n)
  }

  lemma {:induction false} BadStuck(src: seq<byte>, cap: nat, ip: nat, op: nat, at: nat)
    requires ip < |src| && ParseStep(src, cap, ip, op) == Bad(at)
    ensures ip < at && Stuck(src[ip..], op, cap, at - ip)
  {
    hide ReadLength, Nibble, LengthBytes, SpellsLength;
    var rest := src[ip..];
    var run := ReadLength(src[ip] / 16, src[ip + 1..]);
    LengthRead(src[ip] / 16, src[ip + 1..]);
    assert rest[0] == src[ip] && rest[1..] == src[ip + 1..];
    var q := 1 + run.used + run.value;
    if op + run.value + MFLIMIT <= cap && ip + q + 8 <= |src| {
      var m := ReadLength(src[ip] % 16, src[ip + q + 2..|src| - 6]);
      LengthRead(src[ip] % 16, src[ip + q + 2..|src| - 6]);
      assert rest[q] == src[ip + q] && rest[q + 1] == src[ip + q + 1] && rest[q + 2..|rest| - 6] == src[ip + q + 2..|src| - 6];
      assert StuckInMatch(rest, rest[0] % 16, q, op + run.value, cap, at - ip);
    }
    assert StuckBy(rest, op, cap, run.value, run.used, at - ip);
  }

  /** A refusal says how far the input was read. */
  lemma {:induction false} RefusedBehind(src: seq<byte>, cap: nat, ip: nat, op: nat, at: nat) returns (seqs: seq<Sequence>)
    requires ip < |src| && ParseFrom(src, cap, ip, op) == Refused(at)
    ensures ip < at && StuckBehind(src[ip..], seqs, op, cap, at - ip)
    decreases |src| - ip
  {
    hide ParseStep, SpellsOne, HasRoom, Stuck;
    var step := ParseStep(src, cap, ip, op);
    seqs := [];
    if step.Bad? {
      BadStuck(src, cap, ip, op, at);
    } else {
      NextSpells(src, cap, ip, op, step.s, step.ip, step.op);
      var more := RefusedBehind(src, cap, step.ip, step.op, at);
      seqs := [step.s] + more;
      assert seqs[0] == step.s && seqs[1..] == more;
      assert src[ip..][step.ip - ip..] == src[step.ip..];
    }
  }

  /** And the decoder stops behind the last byte it looked at. */
  lemma {:induction false} Refusal(src: seq<byte>, cap: nat, at: nat)
    requires |src| >= 1 && Parse(src, cap) == Refused(at)
    ensures if cap == 0 then at == 0 else exists seqs :: StuckBehind(src, seqs, 0, cap, at)
  {
    hide ParseFrom, StuckBehind;
    assert src[0..] == src;
    if cap >= 1 { var seqs := RefusedBehind(src, cap, 0, 0, at); }
  }

  // ---------- what follows ----------

  /** More room changes nothing. */
  lemma {:induction false} RoomStays(seqs: seq<Sequence>, last: seq<byte>, op: nat, cap: nat, cap2: nat)
    requires RoomFor(seqs, last, op, cap) && cap <= cap2
    ensures RoomFor(seqs, last, op, cap2)
    decreases |seqs|
  {
    if seqs != [] { RoomStays(seqs[1..], last, op + |seqs[0].literals| + seqs[0].length, cap, cap2); }
  }

  lemma {:induction false} TextFront(seqs: seq<Sequence>)
    requires seqs != []
    ensures TextLength(seqs) == |seqs[0].literals| + seqs[0].length + TextLength(seqs[1..])
    decreases |seqs|
  {
    var n := |seqs| - 1;
    if n > 0 {
      TextFront(seqs[..n]);
      assert seqs[..n][1..] == seqs[1..][..n - 1];
    }
  }

  lemma {:induction false} RoomNeeds(seqs: seq<Sequence>, last: seq<byte>, op: nat, cap: nat)
    requires RoomFor(seqs, last, op, cap)
    ensures op + TextLength(seqs) + |last| <= cap
    decreases |seqs|
  {
    if seqs != [] {
      TextFront(seqs);
      RoomNeeds(seqs[1..], last, op + |seqs[0].literals| + seqs[0].length, cap);
    }
  }

  /** The return value tells exactly whether the input spells something that has room. */
  lemma {:induction false} Answered(src: seq<byte>, dst: seq<byte>, r: int)
    requires |src| >= 1 && |dst| >= 1 && IsAnswer(Parse(src, |dst|), r, dst)
    ensures r >= 0 <==> exists seqs, last :: Spells(src, seqs, last) && RoomFor(seqs, last, 0, |dst|)
    ensures forall seqs, last :: Spells(src, seqs, last) && RoomFor(seqs, last, 0, |dst|) ==> r == TextLength(seqs) + |last|
  {
    hide Spells, RoomFor, Parse, Legal, Expand, Sound;
    var o := Parse(src, |dst|);
    if o.Accepted? { Verdict(src, |dst|, o.seqs, o.last); }
    forall seqs, last | Spells(src, seqs, last) && RoomFor(seqs, last, 0, |dst|)
      ensures o == Accepted(seqs, last)
    {
      Verdict(src, |dst|, seqs, last);
    }
  }

  /** No input spells two lists: what it stands for does not depend on the room. */
  lemma {:induction false} SpelledOnce(src: seq<byte>, a: seq<Sequence>, x: seq<byte>, b: seq<Sequence>, y: seq<byte>, cap: nat, cap2: nat)
    requires |src| >= 1 && 1 <= cap <= cap2 && Spells(src, a, x) && RoomFor(a, x, 0, cap) && Spells(src, b, y) && RoomFor(b, y, 0, cap2)
    ensures a == b && x == y
  {
    hide Spells, RoomFor, Parse;
    RoomStays(a, x, 0, cap, cap2);
    Verdict(src, cap2, a, x);
    Verdict(src, cap2, b, y);
  }

  /** So room decides what becomes of a block: it is parsed exactly if its text fits. */
  lemma {:induction false} RoomDecides(src: seq<byte>, seqs: seq<Sequence>, last: seq<byte>, text: seq<byte>, cap: nat)
    requires IsBlock(src, seqs, last, text)
    ensures |src| >= 1
    ensures Parse(src, cap).Accepted? <==> |text| <= cap
  {
    hide Spells, RoomFor, Parse, Legal, Expand, SequencesBytes, LastBytes;
    ParseBlock(src, seqs, last, text, |text|);
    if cap >= |text| {
      ParseBlock(src, seqs, last, text, cap);
    } else if Parse(src, cap).Accepted? {
      var o := Parse(src, cap);
      Verdict(src, cap, o.seqs, o.last);
      Verdict(src, |text|, seqs, last);
      assert TextLength(seqs) + |last| == |text| by { BlockLength(src, seqs, last, text); }
      if cap == 0 {
        Verdict(src, 0, o.seqs, o.last);
        ZeroSpells(seqs, last);
      } else {
        SpelledOnce(src, o.seqs, o.last, seqs, last, cap, |text|);
        RoomNeeds(o.seqs, o.last, 0, cap);
      }
    }
  }

  lemma {:induction false} BlockLength(src: seq<byte>, seqs: seq<Sequence>, last: seq<byte>, text: seq<byte>)
    requires IsBlock(src, seqs, last, text)
    ensures TextLength(seqs) + |last| == |text|
  {
  }

  /** The single byte zero stands for nothing. */
  lemma {:induction false} ZeroSpells(seqs: seq<Sequence>, last: seq<byte>)
    requires Spells([0], seqs, last)
    ensures seqs == [] && last == []
  {
    hide LengthBytes;
    var src: seq<byte> := [0];
    if seqs == [] { assert src[1..] == []; }
  }
}
