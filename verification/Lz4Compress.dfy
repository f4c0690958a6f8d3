/** The LZ4 compressor: a greedy matcher over a table of earlier positions. */
module Lz4Compress {
  import opened Bits
  import opened Lz4Format
  import opened Lz4Copy
  import opened Lz4Greedy

  const HASHLOG := 12
  const SKIPSTRENGTH := 6
  const LIMIT64K := 65536 + 11

  // ---------- the position table ----------

  /** A position as the table stores it, in 16 or in 32 bits. */
  function Stored(p: nat, small: bool): nat { if small then p % 65536 else p % 4294967296 }

  ghost predicate Earlier(table: seq<nat>, ip: nat) {
    forall h :: 0 <= h < |table| ==> table[h] < ip
  }

  /** What the matcher may rely on: the table has the size of the hash, and positions fit
      its entries. */
  ghost predicate Fits(src: seq<byte>, size: nat, log: nat, small: bool) {
    log <= 32 && size == Pow2(log) && |src| <= (if small then LIMIT64K - 1 else 0x7FFF_FFFF)
  }

  /** The table has, for each hash, the latest of the positions recorded. */
  ghost predicate Tracks(src: seq<byte>, log: nat, table: seq<nat>, puts: seq<nat>) {
    log <= 32 && |table| == Pow2(log) && Recordable(src, puts) && forall h :: 0 <= h < |table| ==> table[h] == Latest(src, log, puts, h)
  }

  lemma {:induction false} TracksMore(src: seq<byte>, log: nat, table: seq<nat>, puts: seq<nat>, p: nat)
    requires Tracks(src, log, table, puts) && p + MFLIMIT <= |src|
    ensures Tracks(src, log, table[Hash(src, p, log) := p], puts + [p])
  {
    hide Hash;
    assert (puts + [p])[..|puts|] == puts;
  }

  lemma {:induction false} TracksNone(src: seq<byte>, log: nat, table: seq<nat>)
    requires log <= 32 && |table| == Pow2(log) && Earlier(table, 1)
    ensures Tracks(src, log, table, [])
  {
  }

  lemma {:induction false} TracksCandidate(src: seq<byte>, log: nat, table: seq<nat>, puts: seq<nat>, p: nat)
    requires Tracks(src, log, table, puts) && p + 4 <= |src|
    ensures table[Hash(src, p, log)] == Candidate(src, log, puts, p)
  {
    hide Hash;
  }

  /** `LZ4_putPosition` */
  method PutPosition(src: seq<byte>, p: nat, table: array<nat>, log: nat, small: bool, ghost bound: nat, ghost puts: seq<nat>)
    requires Fits(src, table.Length, log, small) && p + MFLIMIT <= |src| && p < bound
    requires Earlier(table[..], bound) && Tracks(src, log, table[..], puts)
    modifies table
    ensures Earlier(table[..], bound)
    ensures table[..] == old(table[..])[Hash(src, p, log) := p] && Tracks(src, log, table[..], puts + [p])
  {
    hide Hash, Tracks;
    TracksMore(src, log, table[..], puts, p);
    table[Hash(src, p, log)] := Stored(p, small);
  }

  // ---------- finding and extending a match ----------

  lemma {:induction false} SameFromSlices(src: seq<byte>, p: nat, r: nat, w: nat)
    requires r <= p && p + w <= |src|
    ensures src[r..r + w] == src[p..p + w] <==> Same(src, p, p - r, p + w)
  {
    if src[r..r + w] == src[p..p + w] {
      forall j | p <= j < p + w ensures src[j] == src[j - (p - r)] {
        assert src[r..r + w][j - p] == src[p..p + w][j - p];
      }
    }
  }

  /** The number of attempts gives the distance of the next probe. */
  lemma {:induction false} StepIs(k: nat)
    ensures (Pow2(SKIPSTRENGTH) + 3 + k) / 64 == Distance(k)
  {
    assert Pow2(6) == 64;
  }

  /** Where the search stands before probe number `k`. */
  ghost predicate Searching(src: seq<byte>, log: nat, table: seq<nat>, puts: seq<nat>, start: nat, k: nat) {
    log <= 32 && Misses(src, log, puts, start, k) && Tracks(src, log, table, puts + Probes(start, k))
  }

  lemma {:induction false} SearchStart(src: seq<byte>, log: nat, table: seq<nat>, puts: seq<nat>, start: nat)
    requires Tracks(src, log, table, puts)
    ensures Searching(src, log, table, puts, start, 0) && ProbeAt(start, 0) == start
  {
    TracksRecordable(src, log, table, puts);
    hide Tracks;
    assert puts + Probes(start, 0) == puts;
  }

  /** A probe is decided by what the table has for it. */
  lemma {:induction false} ProbeDecides(src: seq<byte>, log: nat, table: seq<nat>, puts: seq<nat>, p: nat, ref: nat)
    requires Tracks(src, log, table, puts) && p + 4 <= |src| && ref == table[Hash(src, p, log)] && ref < p
    ensures ref == Candidate(src, log, puts, p)
    ensures Hit(src, log, puts, p) <==> ref + MAX_DISTANCE >= p && src[ref..ref + 4] == src[p..p + 4]
  {
    hide Tracks, Hash, Candidate, Same;
    TracksCandidate(src, log, table, puts, p);
    SameFromSlices(src, p, ref, 4);
    assert Recordable(src, puts) by { TracksRecordable(src, log, table, puts); }
  }

  lemma {:induction false} TracksRecordable(src: seq<byte>, log: nat, table: seq<nat>, puts: seq<nat>)
    requires Tracks(src, log, table, puts)
    ensures log <= 32 && |table| == Pow2(log) && Recordable(src, puts)
  {
  }

  lemma {:induction false} SearchMissed(src: seq<byte>, log: nat, before: seq<nat>, table: seq<nat>, puts: seq<nat>, start: nat, k: nat, p: nat, next: nat)
    requires Searching(src, log, before, puts, start, k) && p == ProbeAt(start, k) && next == ProbeAt(start, k + 1) && p < next && next + MFLIMIT <= |src|
    requires Recordable(src, puts + Probes(start, k)) && !Hit(src, log, puts + Probes(start, k), p)
    requires Tracks(src, log, table, puts + Probes(start, k) + [p])
    ensures Searching(src, log, table, puts, start, k + 1)
  {
    hide Tracks, Hit, ProbeAt, Recordable;
    assert puts + Probes(start, k) + [p] == puts + Probes(start, k + 1);
    assert Missed(src, log, puts + Probes(start, k), p, next);
    hide Missed, Probes;
  }

  lemma {:induction false} SearchFound(src: seq<byte>, log: nat, before: seq<nat>, table: seq<nat>, puts: seq<nat>, start: nat, k: nat, p: nat, next: nat)
    requires Searching(src, log, before, puts, start, k) && p == ProbeAt(start, k) && next == ProbeAt(start, k + 1) && p < next && next + MFLIMIT <= |src|
    requires Recordable(src, puts + Probes(start, k)) && Hit(src, log, puts + Probes(start, k), p)
    requires Tracks(src, log, table, puts + Probes(start, k) + [p])
    ensures LandsFrom(src, log, start, puts, p, Candidate(src, log, puts + Probes(start, k), p), puts + Probes(start, k + 1))
    ensures Tracks(src, log, table, puts + Probes(start, k + 1))
  {
    hide Tracks, Hit, Candidate, Misses;
    assert puts + Probes(start, k) + [p] == puts + Probes(start, k + 1);
    assert LandsBy(src, log, start, puts, k, p, Candidate(src, log, puts + Probes(start, k), p), puts + Probes(start, k + 1));
  }

  lemma {:induction false} SearchEnds(src: seq<byte>, log: nat, table: seq<nat>, puts: seq<nat>, start: nat, k: nat, next: nat)
    requires Searching(src, log, table, puts, start, k) && next == ProbeAt(start, k + 1) && next + MFLIMIT > |src|
    ensures FindsNone(src, log, puts, start)
  {
    hide Tracks, Misses;
  }

  lemma {:induction false} SearchTracks(src: seq<byte>, log: nat, table: seq<nat>, puts: seq<nat>, start: nat, k: nat)
    requires Searching(src, log, table, puts, start, k)
    ensures log <= 32 && Tracks(src, log, table, puts + Probes(start, k)) && Recordable(src, puts + Probes(start, k))
  {
  }

  /** The search, with steps that grow after every 64 failures: it returns the first hit, or finds
      that there is none. */
  method FindMatch(src: seq<byte>, table: array<nat>, log: nat, small: bool, ip0: nat, ghost puts: seq<nat>)
    returns (found: bool, ip: nat, ref: nat, ghost puts2: seq<nat>)
    requires Fits(src, table.Length, log, small) && ip0 + MFLIMIT <= |src| + 1
    requires Earlier(table[..], ip0) && Tracks(src, log, table[..], puts)
    modifies table
    ensures found ==> ref < ip <= ref + MAX_DISTANCE && ip0 <= ip && ip + MFLIMIT < |src|
    ensures found ==> Same(src, ip, ip - ref, ip + MINMATCH) && Earlier(table[..], ip + 1)
    ensures found ==> LandsFrom(src, log, ip0, puts, ip, ref, puts2) && Tracks(src, log, table[..], puts2)
    ensures !found ==> FindsNone(src, log, puts, ip0)
  {
    hide Hash, Same, Searching, Tracks, Hit, Candidate, Misses, Recordable, LandsFrom, FindsNone, Distance, Probes;
    var attempts := Pow2(SKIPSTRENGTH) + 3;
    var forwardIp := ip0;
    var forwardH := Hash(src, ip0, log);
    found, ip, ref, puts2 := false, ip0, 0, [];
    ghost var k: nat := 0;
    SearchStart(src, log, table[..], puts, ip0);
    while true
      invariant ip0 <= forwardIp && forwardIp + MFLIMIT <= |src| + 1
      invariant attempts == Pow2(SKIPSTRENGTH) + 3 + k && forwardIp == ProbeAt(ip0, k)
      invariant forwardH == Hash(src, forwardIp, log)
      invariant Earlier(table[..], forwardIp) && Searching(src, log, table[..], puts, ip0, k)
      decreases |src| - forwardIp
    {
      var h := forwardH;
      var step := attempts / 64;
      StepIs(k);
      DistancePositive(k);
      attempts := attempts + 1;
      ip := forwardIp;
      forwardIp := ip + step;
      if forwardIp + MFLIMIT > |src| {
        SearchEnds(src, log, table[..], puts, ip0, k, forwardIp);
        return;
      }
      forwardH := Hash(src, forwardIp, log);
      ghost var before := table[..];
      ghost var known := puts + Probes(ip0, k);
      SearchTracks(src, log, before, puts, ip0, k);
      ref := table[h];
      assert ref == table[..][h];
      EarlierMore(table[..], ip, ip + 1);
      PutPosition(src, ip, table, log, small, ip + 1, known);
      ProbeDecides(src, log, before, known, ip, ref);
      SameFromSlices(src, ip, ref, 4);
      if ref + MAX_DISTANCE >= ip && src[ref..ref + 4] == src[ip..ip + 4] {
        found, puts2 := true, puts + Probes(ip0, k + 1);
        SearchFound(src, log, before, table[..], puts, ip0, k, ip, forwardIp);
        return;
      }
      SearchMissed(src, log, before, table[..], puts, ip0, k, ip, forwardIp);
      EarlierMore(table[..], ip + 1, forwardIp);
      k := k + 1;
    }
  }

  lemma {:induction false} DistancePositive(k: nat)
    ensures Distance(k) >= 1
  {
  }

  lemma {:induction false} EarlierMore(table: seq<nat>, a: nat, b: nat)
    requires Earlier(table, a) && a <= b
    ensures Earlier(table, b)
  {
  }

  /** Walks a match backwards over equal bytes. */
  method CatchUp(src: seq<byte>, anchor: nat, ip0: nat, ref0: nat, ghost e: nat) returns (ip: nat, ref: nat)
    requires ref0 < ip0 && anchor <= ip0 <= e && Same(src, ip0, ip0 - ref0, e)
    ensures anchor <= ip <= ip0 && ref <= ref0 && ip - ref == ip0 - ref0
    ensures Same(src, ip, ip - ref, e)
    ensures ip > anchor && ref > 0 ==> src[ip - 1] != src[ref - 1]
  {
    ip, ref := ip0, ref0;
    while ip > anchor && ref > 0 && src[ip - 1] == src[ref - 1]
      invariant anchor <= ip <= ip0 && ref <= ref0 && ip - ref == ip0 - ref0
      invariant Same(src, ip, ip - ref, e)
    {
      ip, ref := ip - 1, ref - 1;
    }
  }

  /** `m` is where the longest match at distance `d` from `p` ends, below `limit`. */
  ghost predicate IsEnd(src: seq<byte>, p: nat, d: nat, limit: nat, m: nat) {
    && p <= m <= limit <= |src| && Same(src, p, d, m)
    && (m == limit || src[m] != src[m - d])
  }

  lemma {:induction false} MatchEnd(src: seq<byte>, p: nat, d: nat, limit: nat) returns (m: nat)
    requires 1 <= d <= p <= limit <= |src|
    ensures IsEnd(src, p, d, limit, m)
    decreases limit - p
  {
    if p == limit || src[p] != src[p - d] { return p; }
    m := MatchEnd(src, p + 1, d, limit);
  }

  /** `LZ4_NbCommonBytes` of the difference of two words: the equal bytes at their start. */
  method CommonBytes(src: seq<byte>, ip: nat, ref: nat) returns (k: nat)
    requires ref < ip && ip + 8 <= |src| && src[ref..ref + 8] != src[ip..ip + 8]
    ensures k < 8 && Same(src, ip, ip - ref, ip + k) && src[ip + k] != src[ref + k]
  {
    SameFromSlices(src, ip, ref, 8);
    k := 0;
    while k < 7 && src[ip + k] == src[ref + k]
      invariant k < 8 && Same(src, ip, ip - ref, ip + k)
    {
      k := k + 1;
    }
  }

  lemma {:induction false} EndUnique(src: seq<byte>, p: nat, d: nat, limit: nat, m: nat, k: nat)
    requires IsEnd(src, p, d, limit, m) && Same(src, p, d, p + k) && d >= 1
    requires p + k < limit && src[p + k] != src[p + k - d]
    ensures m == p + k
  {
  }

  /** Words that agree lie inside the longest match, words that differ do not. */
  lemma {:induction false} WordStep(src: seq<byte>, p: nat, r: nat, w: nat, limit: nat, m: nat)
    requires r < p && w >= 1 && p + w <= limit && IsEnd(src, p, p - r, limit, m)
    ensures p + w <= |src|
    ensures src[r..r + w] == src[p..p + w] ==> IsEnd(src, p + w, p - r, limit, m)
    ensures src[r..r + w] != src[p..p + w] ==> m < p + w
  {
    SameFromSlices(src, p, r, w);
  }

  /** The match length count: words, then four, two and one byte. It finds the longest match
      that leaves the last five bytes alone. */
  method CountMatch(src: seq<byte>, ip0: nat, ref0: nat) returns (ip: nat)
    requires ref0 < ip0 && ip0 + LASTLITERALS <= |src|
    ensures IsEnd(src, ip0, ip0 - ref0, |src| - LASTLITERALS, ip)
  {
    hide IsEnd, Same;
    var matchlimit := |src| - LASTLITERALS;
    ghost var d := ip0 - ref0;
    ghost var m := MatchEnd(src, ip0, d, matchlimit);
    ip := ip0;
    var ref := ref0;
    while ip < matchlimit - 7
      invariant ip0 <= ip <= matchlimit && ip - ref == d && IsEnd(src, ip, d, matchlimit, m)
    {
      WordStep(src, ip, ref, 8, matchlimit, m);
      if src[ref..ref + 8] == src[ip..ip + 8] {
        ip, ref := ip + 8, ref + 8;
      } else {
        var k := CommonBytes(src, ip, ref);
        EndUnique(src, ip, d, matchlimit, m, k);
        return ip + k;
      }
    }
    EndRange(src, ip, d, matchlimit, m);
    ip, ref := CountStep(src, ip, ref, 4, m);
    ip, ref := CountStep(src, ip, ref, 2, m);
    ip, ref := CountStep(src, ip, ref, 1, m);
    EndRange(src, ip, d, matchlimit, m);
  }

  lemma {:induction false} EndRange(src: seq<byte>, p: nat, d: nat, limit: nat, m: nat)
    requires IsEnd(src, p, d, limit, m)
    ensures p <= m <= limit
  {
  }

  /** One halving of the count's last steps. */
  method CountStep(src: seq<byte>, ip0: nat, ref0: nat, w: nat, ghost m: nat) returns (ip: nat, ref: nat)
    requires ref0 < ip0 && ip0 + LASTLITERALS <= |src| && w >= 1
    requires IsEnd(src, ip0, ip0 - ref0, |src| - LASTLITERALS, m) && m < ip0 + 2 * w
    ensures ip0 <= ip && ip - ref == ip0 - ref0 && m < ip + w && ip + LASTLITERALS <= |src|
    ensures IsEnd(src, ip, ip - ref, |src| - LASTLITERALS, m)
  {
    hide IsEnd, Same;
    ip, ref := ip0, ref0;
    var matchlimit := |src| - LASTLITERALS;
    EndRange(src, ip, ip - ref, matchlimit, m);
    if ip < matchlimit - (w - 1) {
      WordStep(src, ip, ref, w, matchlimit, m);
      if src[ref..ref + w] == src[ip..ip + w] {
        ip, ref := ip + w, ref + w;
      }
    }
  }

  /** The found match is not lost: the counted one reaches at least as far. */
  lemma {:induction false} CountReaches(src: seq<byte>, p: nat, d: nat, e: nat, q: nat, m: nat)
    requires Same(src, p, d, e) && p <= q && d >= 1 && e + LASTLITERALS <= |src|
    requires IsEnd(src, q, d, |src| - LASTLITERALS, m)
    ensures m >= e
  {
  }

  // ---------- writing a sequence ----------

  method PutByte(dest: array<byte>, op: nat, b: byte)
    requires op < dest.Length
    modifies dest
    ensures dest[..op + 1] == old(dest[..op]) + [b]
  {
    dest[op] := b;
  }

  /** The extension bytes of a literal length, one at a time. */
  method PutRunLength(dest: array<byte>, op0: nat, run: nat) returns (op: nat)
    requires op0 + run / 255 + 1 <= dest.Length
    modifies dest
    ensures op == op0 + run / 255 + 1
    ensures dest[..op] == old(dest[..op0]) + Extension(run)
  {
    var len := run;
    op := op0;
    while len >= 255
      invariant op + len / 255 == op0 + run / 255 && op0 <= op
      invariant dest[..op] + Extension(len) == old(dest[..op0]) + Extension(run)
    {
      ghost var before := dest[..op];
      PutByte(dest, op, 255);
      assert before + ([255] + Extension(len - 255)) == (before + [255]) + Extension(len - 255);
      op, len := op + 1, len - 255;
    }
    PutByte(dest, op, len);
    op := op + 1;
  }

  /** The extension bytes of a match length, two at a time. */
  method PutMatchLength(dest: array<byte>, op0: nat, length0: nat) returns (op: nat)
    requires op0 + length0 / 255 + 1 <= dest.Length
    modifies dest
    ensures op == op0 + length0 / 255 + 1
    ensures dest[..op] == old(dest[..op0]) + Extension(length0)
  {
    var length := length0;
    op := op0;
    while length > 509
      invariant op + length / 255 == op0 + length0 / 255 && op0 <= op
      invariant dest[..op] + Extension(length) == old(dest[..op0]) + Extension(length0)
    {
      ghost var before := dest[..op];
      PutByte(dest, op, 255);
      PutByte(dest, op + 1, 255);
      ExtensionStep(before, length);
      ExtensionStep(before + [255], length - 255);
      op, length := op + 2, length - 510;
    }
    if length >= 255 {
      ExtensionStep(dest[..op], length);
      length := length - 255;
      PutByte(dest, op, 255);
      op := op + 1;
    }
    PutByte(dest, op, length);
    op := op + 1;
  }

  lemma {:induction false} ExtensionStep(before: seq<byte>, length: nat)
    requires length >= 255
    ensures before + Extension(length) == (before + [255]) + Extension(length - 255)
  {
    assert before + ([255] + Extension(length - 255)) == (before + [255]) + Extension(length - 255);
  }

  /** Token and literal length. */
  method PutRun(dest: array<byte>, op0: nat, length: nat) returns (op: nat)
    requires op0 + 1 + |LengthBytes(length)| <= dest.Length
    modifies dest
    ensures op == op0 + 1 + |LengthBytes(length)|
    ensures dest[..op] == old(dest[..op0]) + ([16 * Nibble(length)] + LengthBytes(length))
  {
    hide Extension;
    op := op0 + 1;
    PutByte(dest, op0, 16 * Nibble(length));
    if length >= RUN_MASK {
      op := PutRunLength(dest, op, length - RUN_MASK);
    }
  }

  /** Token, literal length and literals, copied eight bytes at a time. */
  method EncodeLiterals(dest: array<byte>, op0: nat, src: seq<byte>, anchor: nat, ip: nat) returns (op: nat)
    requires anchor <= ip && ip + 8 <= |src|
    requires op0 + |LiteralBytes(16 * Nibble(ip - anchor), src[anchor..ip])| + 8 <= dest.Length
    modifies dest
    ensures dest[..op0] == old(dest[..op0]) && op0 < op <= dest.Length
    ensures dest[..op] == old(dest[..op0]) + LiteralBytes(16 * Nibble(ip - anchor), src[anchor..ip])
  {
    hide LengthBytes, Nibble;
    var length := ip - anchor;
    op := PutRun(dest, op0, length);
    ghost var head := dest[..op];
    WildCopy(dest, op, src, anchor, op + length);
    op := op + length;
    assert dest[..op] == head + src[anchor..ip];
    assert dest[..op] == old(dest[..op0]) + LiteralBytes(16 * Nibble(length), src[anchor..ip]);
    assert dest[..op0] == dest[..op][..op0];
  }

  method PutOffset(dest: array<byte>, op: nat, offset: nat)
    requires op + 2 <= dest.Length && offset <= MAX_DISTANCE
    modifies dest
    ensures dest[..op + 2] == old(dest[..op]) + [offset % 256, offset / 256]
  {
    PutByte(dest, op, offset % 256);
    PutByte(dest, op + 1, offset / 256);
  }

  /** Offset and match length, added to the token that was written before. */
  method EncodeMatch(dest: array<byte>, token: nat, op0: nat, offset: nat, length: nat, ghost literals: seq<byte>)
    returns (op: nat)
    requires token < op0 && offset <= MAX_DISTANCE && op0 + 2 + |LengthBytes(length)| <= dest.Length
    requires dest[..op0] == dest[..token] + LiteralBytes(16 * Nibble(|literals|), literals)
    modifies dest
    ensures op <= dest.Length
    ensures dest[..op] == old(dest[..token]) + SequenceBytes(Sequence(literals, offset, length + MINMATCH))
  {
    hide LengthBytes, SequenceBytes;
    ghost var pre := dest[..token];
    ghost var run := LengthBytes(|literals|) + literals;
    assert dest[..op0] == pre + [16 * Nibble(|literals|)] + run;
    PutOffset(dest, op0, offset);
    op := op0 + 2;
    ghost var tail := run + [offset % 256, offset / 256];
    assert dest[..op] == pre + [16 * Nibble(|literals|)] + tail;
    assert dest[token] == 16 * Nibble(|literals|) by { assert dest[token] == dest[..op][token]; }
    op := EncodeMatchLength(dest, token, op, length, pre, tail);
    MatchBytes(pre, literals, offset, length);
  }

  method EncodeMatchLength(dest: array<byte>, token: nat, op0: nat, length: nat, ghost pre: seq<byte>, ghost tail: seq<byte>)
    returns (op: nat)
    requires token < op0 && op0 + |LengthBytes(length)| <= dest.Length && dest[token] <= 240
    requires |pre| == token && dest[..op0] == pre + [dest[token]] + tail
    modifies dest
    ensures op <= dest.Length
    ensures dest[..op] == pre + [old(dest[token]) + Nibble(length)] + tail + LengthBytes(length)
  {
    hide Extension;
    op := op0;
    if length >= ML_MASK {
      AddToken(dest, token, op, ML_MASK, pre, tail);
      op := PutMatchLength(dest, op, length - ML_MASK);
    } else {
      AddToken(dest, token, op, length, pre, tail);
    }
  }

  /** `*token += v` */
  method AddToken(dest: array<byte>, token: nat, op: nat, v: nat, ghost pre: seq<byte>, ghost tail: seq<byte>)
    requires token < op <= dest.Length && dest[token] + v < 256
    requires |pre| == token && dest[..op] == pre + [dest[token]] + tail
    modifies dest
    ensures old(dest[token]) + v < 256 && dest[..op] == pre + [old(dest[token]) + v] + tail
  {
    ghost var before := dest[..op];
    dest[token] := dest[token] + v;
    assert dest[..op] == before[token := before[token] + v];
  }

  lemma {:induction false} MatchBytes(pre: seq<byte>, literals: seq<byte>, offset: nat, length: nat)
    requires offset <= MAX_DISTANCE
    ensures pre + SequenceBytes(Sequence(literals, offset, length + MINMATCH))
      == pre + [16 * Nibble(|literals|) + Nibble(length)]
        + (LengthBytes(|literals|) + literals + [offset % 256, offset / 256]) + LengthBytes(length)
  {
    hide LengthBytes;
  }

  method CopyBytes(dest: array<byte>, op: nat, bytes: seq<byte>)
    requires op + |bytes| <= dest.Length
    modifies dest
    ensures dest[..op + |bytes|] == old(dest[..op]) + bytes
  {
    for i := 0 to |bytes|
      invariant dest[..op + i] == old(dest[..op]) + bytes[..i]
    {
      PutByte(dest, op + i, bytes[i]);
    }
  }

  /** The last literals. */
  method EncodeLast(dest: array<byte>, op0: nat, src: seq<byte>, anchor: nat) returns (op: nat)
    requires anchor <= |src| && op0 + |LastBytes(src[anchor..])| <= dest.Length
    modifies dest
    ensures op <= dest.Length
    ensures dest[..op] == old(dest[..op0]) + LastBytes(src[anchor..])
  {
    hide LengthBytes, Nibble;
    var lastRun := |src| - anchor;
    op := PutRun(dest, op0, lastRun);
    CopyBytes(dest, op, src[anchor..]);
    op := op + lastRun;
  }

  // ---------- the whole block ----------

  /** The sequences so far stand for the text up to `anchor` and are not too long. */
  ghost predicate Progress(src: seq<byte>, out: seq<byte>, seqs: seq<Sequence>, anchor: nat) {
    && anchor <= |src| && Legal(seqs, |src|) && Expand(seqs, |src|) == src[..anchor]
    && out == SequencesBytes(seqs, |src|) && 255 * |out| <= 256 * anchor
  }

  lemma {:induction false} SameIsCopy(src: seq<byte>, p: nat, d: nat, e: nat)
    requires 1 <= d && p <= e && Same(src, p, d, e)
    ensures src[..e] == CopyMatch(src[..p], d, e - p)
  {
    assert src[..e][..p] == src[..p];
    assert Repeats(src[..e], p, d);
    CopyMatchUnique(src[..p], d, src[..e]);
  }

  /** One more sequence. */
  lemma {:induction false} Extend(src: seq<byte>, out: seq<byte>, seqs: seq<Sequence>, anchor: nat, ip: nat, d: nat, e: nat)
    requires Progress(src, out, seqs, anchor) && anchor <= ip && 1 <= d <= MAX_DISTANCE
    requires ip + MFLIMIT <= |src| && ip + MINMATCH <= e && e + LASTLITERALS <= |src| && Same(src, ip, d, e)
    ensures var s := Sequence(src[anchor..ip], d, e - ip);
            Progress(src, out + SequenceBytes(s), seqs + [s], e)
  {
    hide Same, SequenceBytes, Legal, Expand, SequencesBytes, CopyMatch;
    var s := Sequence(src[anchor..ip], d, e - ip);
    assert d <= ip by { SameRange(src, ip, d, e); }
    assert src[..anchor] + src[anchor..ip] == src[..ip];
    SameIsCopy(src, ip, d, e);
    SequenceSize(s);
    OneMore(seqs, s, |src|);
  }

  lemma {:induction false} OneMore(seqs: seq<Sequence>, s: Sequence, n: nat)
    requires Legal(seqs, n) && IsSequence(s, |Expand(seqs, n)|, n)
    ensures Legal(seqs + [s], n) && Expand(seqs + [s], n) == Append(Expand(seqs, n), s)
    ensures SequencesBytes(seqs + [s], n) == SequencesBytes(seqs, n) + SequenceBytes(s)
  {
    hide SequenceBytes, Append, IsSequence;
    var more := seqs + [s];
    assert more[..|more| - 1] == seqs && more[|more| - 1] == s;
  }

  lemma {:induction false} SameRange(src: seq<byte>, p: nat, d: nat, e: nat)
    requires Same(src, p, d, e)
    ensures d <= p && e <= |src|
  {
  }

  /** Room for a literal run with its eight-byte overrun, and for a match. */
  lemma {:induction false} RoomForLiterals(src: seq<byte>, op: nat, anchor: nat, ip: nat, size: nat)
    requires anchor <= ip && ip + MFLIMIT <= |src| && 255 * op <= 256 * anchor && size >= CompressBound(|src|)
    ensures op + |LiteralBytes(16 * Nibble(ip - anchor), src[anchor..ip])| + 8 <= size
  {
    hide LengthBytes;
    ExtensionSize(ip - anchor);
  }

  lemma {:induction false} RoomForMatch(src: seq<byte>, token: nat, anchor: nat, ip: nat, e: nat, size: nat)
    requires anchor <= ip && ip + MINMATCH <= e <= |src| && 255 * token <= 256 * anchor && size >= CompressBound(|src|)
    ensures token + |LiteralBytes(16 * Nibble(ip - anchor), src[anchor..ip])| + 2 + |LengthBytes(e - ip - MINMATCH)| <= size
  {
    hide LengthBytes;
    SequenceSize(Sequence(src[anchor..ip], 1, e - ip));
  }

  lemma {:induction false} RoomForLast(src: seq<byte>, op: nat, anchor: nat, size: nat)
    requires anchor <= |src| && 255 * op <= 256 * anchor && size >= CompressBound(|src|)
    ensures op + |LastBytes(src[anchor..])| <= CompressBound(|src|)
  {
    hide LastBytes;
    LastSize(src[anchor..]);
  }

  /** How the match from `ip` came about: `q` is where the search landed, and there is no equal
      byte in front of `ip`. */
  ghost predicate Found(src: seq<byte>, log: nat, seqs: seq<Sequence>, anchor: nat, puts: seq<nat>, q: nat, ip: nat, ref: nat, puts2: seq<nat>) {
    && log <= 32 && Run(src, log, seqs, puts) && Recordable(src, puts) && anchor + MFLIMIT <= |src| && TextLength(seqs) == anchor
    && ref < ip && anchor <= ip <= q && Lands(src, log, anchor, puts, q, q - (ip - ref), puts2)
    && (ip > anchor && ref > 0 ==> src[ip - 1] != src[ref - 1])
  }

  /** And what it becomes. */
  lemma {:induction false} Taken(src: seq<byte>, log: nat, seqs: seq<Sequence>, anchor: nat, puts: seq<nat>, q: nat, ip: nat, ref: nat, puts2: seq<nat>, e: nat)
    requires Found(src, log, seqs, anchor, puts, q, ip, ref, puts2)
    requires q + MINMATCH <= e && e + LASTLITERALS <= |src| && Same(src, ip, ip - ref, e) && (e + LASTLITERALS == |src| || src[e] != src[e - (ip - ref)])
    ensures Run(src, log, seqs + [Sequence(src[anchor..ip], ip - ref, e - ip)], puts2)
  {
    hide Same, Lands, Recordable;
    var d := ip - ref;
    var s := Sequence(src[anchor..ip], d, e - ip);
    assert d <= ip by { SameRange(src, ip, d, e); }
    assert ExtendsTo(src, anchor, q, d, ip, e, s);
    assert Extends(src, anchor, q, d, s);
    assert Takes(src, log, anchor, puts, s, puts2);
    hide Takes;
    assert (seqs + [s])[..|seqs|] == seqs;
  }

  /** A token with its literals is written, and the match behind them is known up to `e`. */
  ghost predicate Pending(src: seq<byte>, pre: seq<byte>, out: seq<byte>, seqs: seq<Sequence>, anchor: nat, ip: nat, ref: nat, e: nat) {
    && Progress(src, pre, seqs, anchor) && anchor <= ip
    && ref < ip <= ref + MAX_DISTANCE && ip + MFLIMIT <= |src|
    && ip + MINMATCH <= e && e + LASTLITERALS <= |src| && Same(src, ip, ip - ref, e)
    && out == pre + LiteralBytes(16 * Nibble(ip - anchor), src[anchor..ip])
  }

  /** Offset, count and match length: one sequence is complete. */
  method FinishSequence(src: seq<byte>, dest: array<byte>, token: nat, op0: nat, ip0: nat, ref: nat,
                        ghost log: nat, ghost seqs0: seq<Sequence>, ghost anchor: nat, ghost q: nat, ghost e: nat, ghost puts: seq<nat>, ghost puts2: seq<nat>)
    returns (op: nat, ip: nat, ghost seqs: seq<Sequence>)
    requires token < op0 <= dest.Length && dest.Length >= CompressBound(|src|) && log <= 32
    requires Pending(src, dest[..token], dest[..op0], seqs0, anchor, ip0, ref, e)
    requires e == q + MINMATCH && Found(src, log, seqs0, anchor, puts, q, ip0, ref, puts2)
    modifies dest
    ensures op <= dest.Length && e <= ip && ip + LASTLITERALS <= |src|
    ensures Progress(src, dest[..op], seqs, ip) && Run(src, log, seqs, puts2)
  {
    hide Run, Found, Same, IsEnd, Legal, Expand, SequencesBytes, SequenceBytes, LiteralBytes, LengthBytes, CompressBound, Nibble;
    ghost var d := ip0 - ref;
    ghost var literals := src[anchor..ip0];
    ip := CountMatch(src, ip0 + MINMATCH, ref + MINMATCH);
    CountWhole(src, ip0, d, e, ip);
    RoomForMatch(src, token, anchor, ip0, ip, dest.Length);
    Extend(src, dest[..token], seqs0, anchor, ip0, d, ip);
    op := EncodeMatch(dest, token, op0, ip0 - ref, ip - (ip0 + MINMATCH), literals);
    seqs := seqs0 + [Sequence(literals, d, ip - ip0)];
    Taken(src, log, seqs0, anchor, puts, q, ip0, ref, puts2, ip);
  }

  lemma {:induction false} CountWhole(src: seq<byte>, p: nat, d: nat, e: nat, m: nat)
    requires Same(src, p, d, e) && d >= 1 && p + MINMATCH <= e && e + LASTLITERALS <= |src|
    requires IsEnd(src, p + MINMATCH, d, |src| - LASTLITERALS, m)
    ensures Same(src, p, d, m) && e <= m && m + LASTLITERALS <= |src| && (m + LASTLITERALS == |src| || src[m] != src[m - d])
  {
    CountReaches(src, p, d, e, p + MINMATCH, m);
  }

  /** Behind `ip` there is no immediate match, and the table is ready for the next search. */
  ghost predicate Ready(src: seq<byte>, log: nat, table: seq<nat>, seqs: seq<Sequence>, puts: seq<nat>, anchor: nat) {
    && log <= 32 && Run(src, log, seqs, puts) && Recordable(src, puts) && anchor + MFLIMIT <= |src|
    && !Immediate(src, log, anchor, puts) && Tracks(src, log, table, Primed(puts, anchor))
  }

  /** A match and those that follow it without literals between. */
  method FinishSequences(src: seq<byte>, dest: array<byte>, table: array<nat>, log: nat, small: bool,
                         token0: nat, op0: nat, ip0: nat, ref0: nat, ghost seqs0: seq<Sequence>, ghost anchor0: nat, ghost q0: nat,
                         ghost before0: seq<nat>, ghost puts0: seq<nat>)
    returns (done: bool, op: nat, ip: nat, ghost seqs: seq<Sequence>, ghost puts: seq<nat>)
    requires Fits(src, table.Length, log, small) && token0 < op0 <= dest.Length && dest.Length >= CompressBound(|src|)
    requires Pending(src, dest[..token0], dest[..op0], seqs0, anchor0, ip0, ref0, q0 + MINMATCH)
    requires Found(src, log, seqs0, anchor0, before0, q0, ip0, ref0, puts0)
    requires Earlier(table[..], q0 + 1) && Tracks(src, log, table[..], puts0)
    modifies dest, table
    ensures op <= dest.Length && q0 + MINMATCH <= ip && ip + LASTLITERALS <= |src|
    ensures Progress(src, dest[..op], seqs, ip) && Run(src, log, seqs, puts)
    ensures if done then ip + MFLIMIT > |src| else Earlier(table[..], ip + 1) && Ready(src, log, table[..], seqs, puts, ip)
  {
    hide Same, Progress, Hash, LiteralBytes, CompressBound, Earlier, Fits, Found, Run, Lands, Immediate, Tracks, Recordable, Hit, Candidate;
    FitsLog(src, table.Length, log, small);
    ghost var anchor, q, before := anchor0, q0, before0;
    var token: nat, ref: nat := token0, ref0;
    op, ip, seqs, puts := op0, ip0, seqs0, puts0;
    while true
      invariant token < op <= dest.Length && q0 <= q
      invariant Pending(src, dest[..token], dest[..op], seqs, anchor, ip, ref, q + MINMATCH)
      invariant Found(src, log, seqs, anchor, before, q, ip, ref, puts)
      invariant Earlier(table[..], q + 1) && Tracks(src, log, table[..], puts)
      decreases |src| - q
    {
      op, ip, seqs := FinishSequence(src, dest, token, op, ip, ref, log, seqs, anchor, q, q + MINMATCH, before, puts);
      if ip + MFLIMIT > |src| { return true, op, ip, seqs, puts; }
      ghost var known := puts;
      ref := NextPosition(src, table, log, small, ip, q + 1, puts);
      ProgressLength(src, dest[..op], seqs, ip);
      if ref + MAX_DISTANCE < ip || src[ref..ref + 4] != src[ip..ip + 4] { return false, op, ip, seqs, puts; }
      SameFromSlices(src, ip, ref, 4);
      IsFound(src, log, seqs, ip, puts, ref);
      token, op := StartEmpty(src, dest, op, seqs, ip);
      anchor, q, before, puts := ip, ip, puts, Primed(puts, ip);
    }
  }

  lemma {:induction false} ProgressLength(src: seq<byte>, out: seq<byte>, seqs: seq<Sequence>, anchor: nat)
    requires Progress(src, out, seqs, anchor)
    ensures TextLength(seqs) == anchor
  {
    hide Expand, Legal;
  }

  /** An immediate match. */
  lemma {:induction false} IsFound(src: seq<byte>, log: nat, seqs: seq<Sequence>, ip: nat, puts: seq<nat>, ref: nat)
    requires log <= 32 && Run(src, log, seqs, puts) && Recordable(src, puts) && ip + MFLIMIT <= |src| && TextLength(seqs) == ip
    requires Immediate(src, log, ip, puts) && ref < ip && ref == Candidate(src, log, puts + [ip - 2], ip)
    ensures Found(src, log, seqs, ip, puts, ip, ip, ref, Primed(puts, ip))
  {
    hide Run, Hit, Candidate, Recordable;
  }

  /** The empty literal run in front of an immediate match. */
  method StartEmpty(src: seq<byte>, dest: array<byte>, op0: nat, ghost seqs: seq<Sequence>, ghost ip: nat) returns (token: nat, op: nat)
    requires op0 <= dest.Length && dest.Length >= CompressBound(|src|) && ip + MFLIMIT <= |src|
    requires Progress(src, dest[..op0], seqs, ip)
    modifies dest
    ensures token == op0 < op <= dest.Length && dest[..token] == old(dest[..op0])
    ensures dest[..op] == dest[..token] + LiteralBytes(16 * Nibble(ip - ip), src[ip..ip])
  {
    hide Legal, Expand, SequencesBytes;
    token, op := op0, op0 + 1;
    PutByte(dest, token, 0);
    assert dest[..token] == dest[..op][..token];
    assert LiteralBytes(16 * Nibble(ip - ip), src[ip..ip]) == [0];
  }

  /** Records `ip - 2` and `ip`, and returns what the table had for `ip`. */
  method NextPosition(src: seq<byte>, table: array<nat>, log: nat, small: bool, ip: nat, ghost bound: nat, ghost puts: seq<nat>) returns (ref: nat)
    requires Fits(src, table.Length, log, small) && ip + MFLIMIT <= |src| && bound + 3 <= ip
    requires Earlier(table[..], bound) && Tracks(src, log, table[..], puts)
    modifies table
    ensures ref < ip && Earlier(table[..], ip + 1) && Tracks(src, log, table[..], Primed(puts, ip))
    ensures Recordable(src, puts) && Recordable(src, puts + [ip - 2]) && ref == Candidate(src, log, puts + [ip - 2], ip)
    ensures Immediate(src, log, ip, puts) <==> ref + MAX_DISTANCE >= ip && src[ref..ref + 4] == src[ip..ip + 4]
  {
    hide Hash, Tracks, Hit, Candidate, Recordable;
    TracksRecordable(src, log, table[..], puts);
    EarlierMore(table[..], bound, ip);
    PutPosition(src, ip - 2, table, log, small, ip, puts);
    var h := Hash(src, ip, log);
    ref := table[h];
    assert ref == table[..][h];
    ProbeDecides(src, log, table[..], puts + [ip - 2], ip, ref);
    TracksRecordable(src, log, table[..], puts + [ip - 2]);
    EarlierMore(table[..], ip, ip + 1);
    PutPosition(src, ip, table, log, small, ip + 1, puts + [ip - 2]);
    assert puts + [ip - 2] + [ip] == Primed(puts, ip);
  }

  /** The main loop: leaves everything but the last literals encoded. */
  method EncodeSequences(src: seq<byte>, dest: array<byte>, table: array<nat>, log: nat, small: bool)
    returns (op: nat, anchor: nat, ghost seqs: seq<Sequence>)
    requires Fits(src, table.Length, log, small) && dest.Length >= CompressBound(|src|) && |src| >= MINLENGTH
    requires Earlier(table[..], 1)
    modifies dest, table
    ensures op <= dest.Length && Progress(src, dest[..op], seqs, anchor) && log <= 32 && Greedy(src, log, seqs)
  {
    hide Same, Progress, Hash, LiteralBytes, CompressBound, Earlier, Fits, Tracks, Hit, Candidate, Recordable, Run, Found, Lands, LandsFrom, Immediate, FindsNone, Greedy, Barren;
    op, anchor, seqs := 0, 0, [];
    StartProgress(src);
    FitsLog(src, table.Length, log, small);
    TracksNone(src, log, table[..]);
    PutPosition(src, 0, table, log, small, 1, []);
    ghost var puts: seq<nat> := [];
    assert [] + [0] == Primed(puts, 0);
    ReadyAtFirst(src, log, table[..]);
    var ip: nat := 1;
    while true
      invariant op <= dest.Length && Progress(src, dest[..op], seqs, anchor)
      invariant ip == anchor + 1 && ip + MFLIMIT <= |src| + 1
      invariant Earlier(table[..], ip) && Ready(src, log, table[..], seqs, puts, anchor)
      decreases |src| - ip
    {
      var found, ref: nat;
      ghost var puts2;
      ProgressLength(src, dest[..op], seqs, anchor);
      found, ip, ref, puts2 := FindMatch(src, table, log, small, ip, Primed(puts, anchor));
      if !found {
        IsBarren(src, log, seqs, puts, anchor);
        break;
      }
      ghost var q := ip;
      ghost var d := ip - ref;
      ip, ref := CatchUp(src, anchor, ip, ref, q + MINMATCH);
      SearchIsFound(src, log, seqs, anchor, puts, q, ip, ref, puts2);
      ProgressRoom(src, dest[..op], seqs, anchor, ip, dest.Length);
      var token := op;
      op := EncodeLiterals(dest, op, src, anchor, ip);
      var done;
      done, op, ip, seqs, puts := FinishSequences(src, dest, table, log, small, token, op, ip, ref, seqs, anchor, q, puts, puts2);
      anchor := ip;
      if done {
        ProgressLength(src, dest[..op], seqs, anchor);
        NoRoomLeft(src, log, seqs, puts, anchor);
        break;
      }
      ip := ip + 1;
    }
  }

  lemma {:induction false} FitsLog(src: seq<byte>, size: nat, log: nat, small: bool)
    requires Fits(src, size, log, small)
    ensures log <= 32 && size == Pow2(log)
  {
  }

  lemma {:induction false} ReadyAtFirst(src: seq<byte>, log: nat, table: seq<nat>)
    requires |src| >= MINLENGTH && Tracks(src, log, table, [0])
    ensures Ready(src, log, table, [], [], 0)
  {
    hide Tracks;
    TracksRecordable(src, log, table, [0]);
  }

  lemma {:induction false} SearchIsFound(src: seq<byte>, log: nat, seqs: seq<Sequence>, anchor: nat, puts: seq<nat>, q: nat, ip: nat, ref: nat, puts2: seq<nat>)
    requires log <= 32 && Run(src, log, seqs, puts) && Recordable(src, puts) && anchor + MFLIMIT <= |src| && TextLength(seqs) == anchor
    requires !Immediate(src, log, anchor, puts) && ref < ip && anchor <= ip <= q
    requires LandsFrom(src, log, anchor + 1, Primed(puts, anchor), q, q - (ip - ref), puts2)
    requires ip > anchor && ref > 0 ==> src[ip - 1] != src[ref - 1]
    ensures Found(src, log, seqs, anchor, puts, q, ip, ref, puts2)
  {
    hide Run, LandsFrom, Immediate, Recordable, Primed;
  }

  lemma {:induction false} IsBarren(src: seq<byte>, log: nat, seqs: seq<Sequence>, puts: seq<nat>, anchor: nat)
    requires log <= 32 && Run(src, log, seqs, puts) && Recordable(src, puts) && anchor + MFLIMIT <= |src| && TextLength(seqs) == anchor
    requires !Immediate(src, log, anchor, puts) && FindsNone(src, log, Primed(puts, anchor), anchor + 1) && |src| >= MINLENGTH
    ensures Greedy(src, log, seqs)
  {
    hide Run, FindsNone, Immediate, Recordable, Primed;
    assert Barren(src, log, TextLength(seqs), puts);
  }

  lemma {:induction false} NoRoomLeft(src: seq<byte>, log: nat, seqs: seq<Sequence>, puts: seq<nat>, anchor: nat)
    requires log <= 32 && Run(src, log, seqs, puts) && anchor + MFLIMIT > |src| && TextLength(seqs) == anchor && |src| >= MINLENGTH
    ensures Greedy(src, log, seqs)
  {
    hide Run;
    assert Barren(src, log, TextLength(seqs), puts);
  }

  lemma {:induction false} StartProgress(src: seq<byte>)
    ensures Progress(src, [], [], 0)
  {
  }

  lemma {:induction false} ProgressRoom(src: seq<byte>, out: seq<byte>, seqs: seq<Sequence>, anchor: nat, ip: nat, size: nat)
    requires Progress(src, out, seqs, anchor) && anchor <= ip && ip + MFLIMIT <= |src| && size >= CompressBound(|src|)
    ensures |out| + |LiteralBytes(16 * Nibble(ip - anchor), src[anchor..ip])| + 8 <= size
  {
    hide LiteralBytes, Legal, Expand, SequencesBytes;
    RoomForLiterals(src, |out|, anchor, ip, size);
  }

  /** The sizes that an `int` returns. */
  const INT_MAX := 0x7FFF_FFFF

  lemma {:induction false} BoundInRange(n: nat)
    requires CompressBound(n) <= INT_MAX
    ensures n <= INT_MAX
  {
  }

  /** `LZ4_compress_generic` without an output limit: zero for a large input and a 16-bit
      table, otherwise a block for the input of at most `CompressBound` bytes. The bound must be
      an `int`, as the interface says. */
  method CompressGeneric(src: seq<byte>, dest: array<byte>, table: array<nat>, log: nat, small: bool)
    returns (size: nat, ghost seqs: seq<Sequence>, ghost last: seq<byte>)
    requires log <= 32 && table.Length == Pow2(log) && CompressBound(|src|) <= INT_MAX
    requires Earlier(table[..], 1) && dest.Length >= CompressBound(|src|)
    modifies dest, table
    ensures size == 0 <==> small && |src| >= LIMIT64K
    ensures size != 0 ==> size <= CompressBound(|src|) && IsBlock(dest[..size], seqs, last, src) && Greedy(src, log, seqs)
  {
    hide LastBytes, Legal, Expand, SequencesBytes, CompressBound, Run, Barren;
    var op: nat, anchor: nat := 0, 0;
    seqs, last := [], [];
    BoundInRange(|src|);
    StartProgress(src);
    if |src| >= MINLENGTH {
      if small && |src| >= LIMIT64K { return 0, seqs, last; }
      op, anchor, seqs := EncodeSequences(src, dest, table, log, small);
    }
    last := src[anchor..];
    RoomForLast(src, op, anchor, dest.Length);
    size := EncodeLast(dest, op, src, anchor);
    LastNotEmpty(last);
    assert src[..anchor] + last == src;
  }

  lemma {:induction false} LastNotEmpty(last: seq<byte>)
    ensures |LastBytes(last)| >= 1
  {
  }

  /** `LZ4_compress` */
  method Compress(src: seq<byte>, dest: array<byte>) returns (size: nat, ghost seqs: seq<Sequence>, ghost last: seq<byte>)
    requires CompressBound(|src|) <= INT_MAX && dest.Length >= CompressBound(|src|)
    modifies dest
    ensures 1 <= size <= CompressBound(|src|) <= dest.Length && IsBlock(dest[..size], seqs, last, src)
    ensures Greedy(src, if |src| < LIMIT64K then HASHLOG + 1 else HASHLOG, seqs)
  {
    hide IsBlock, CompressBound, Pow2, Greedy;
    var small := |src| < LIMIT64K;
    var log := if small then HASHLOG + 1 else HASHLOG;
    var table := new nat[Pow2(log)](_ => 0);
    size, seqs, last := CompressGeneric(src, dest, table, log, small);
  }
}
