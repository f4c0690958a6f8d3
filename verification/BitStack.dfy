/** The bit stream as a whole: fields pushed by the writer come off the reader last in, first
    out, for every schedule of flushes and reloads that stays inside the registers. */
module BitStack {
  import opened Bits
  import opened BitStream

  /** A value and the number of its low bits that are sent. */
  datatype Field = Field(value: nat, width: nat)

  ghost function Pushed(fields: seq<Field>): seq<bool> {
    if fields == [] then [] else Pushed(fields[..|fields| - 1]) + ToBits(fields[|fields| - 1].value, fields[|fields| - 1].width)
  }

  ghost predicate Narrow(fields: seq<Field>) { forall i :: 0 <= i < |fields| ==> fields[i].width < 32 }

  // ---------- where a schedule leads ----------

  /** The bits in the writer's register after `n` fields, with a flush behind those that the
      schedule names. */
  ghost function WriterAt(fields: seq<Field>, flush: seq<bool>, n: nat): nat
    requires n <= |fields| == |flush|
  {
    if n == 0 then 0
    else
      var held := WriterAt(fields, flush, n - 1) + fields[n - 1].width;
      if flush[n - 1] then held % 8 else held
  }

  /** Every field, and the end mark behind them, finds room in the register. */
  ghost predicate WritesInside(fields: seq<Field>, flush: seq<bool>)
    requires |fields| == |flush|
  {
    && (forall i :: 0 <= i < |fields| ==> WriterAt(fields, flush, i) + fields[i].width < REGISTER)
    && WriterAt(fields, flush, |fields|) + 1 < REGISTER
  }

  /** Where the reader's register stands: its first byte in the stream, and the bits of it that
      are used up. */
  datatype Window = Window(ptr: nat, consumed: nat)

  /** Opened on a stream of `bits` bits and its end mark. */
  ghost function Opened(bits: nat): Window {
    var size := bits / 8 + 1;
    if size >= REGISTER_BYTES then Window(size - REGISTER_BYTES, 8 * size - bits) else Window(0, REGISTER - bits)
  }

  /** Moved down by the whole bytes used up, as far as the stream goes. */
  ghost function Reloaded(w: Window): Window {
    var bytes := Min(w.consumed / 8, w.ptr);
    Window(w.ptr - bytes, w.consumed - 8 * bytes)
  }

  /** The window in front of read number `i`, reloaded if the schedule says so. */
  ghost function Before(w: Window, reload: seq<bool>, i: nat): Window
    requires i < |reload|
  {
    if reload[i] then Reloaded(w) else w
  }

  /** The window after `n` reads, from the last field down. */
  ghost function ReaderAt(fields: seq<Field>, reload: seq<bool>, n: nat): Window
    requires n <= |fields| == |reload|
  {
    if n == 0 then Opened(|Pushed(fields)|)
    else
      var w := Before(ReaderAt(fields, reload, n - 1), reload, n - 1);
      w.(consumed := w.consumed + fields[|fields| - n].width)
  }

  /** Every read is of bits that the register holds. */
  ghost predicate ReadsInside(fields: seq<Field>, reload: seq<bool>)
    requires |fields| == |reload|
  {
    forall i :: 0 <= i < |fields| ==>
      Before(ReaderAt(fields, reload, i), reload, i).consumed + fields[|fields| - 1 - i].width <= REGISTER
  }

  // ---------- writing ----------

  lemma {:induction false} PushedNone(fields: seq<Field>, flush: seq<bool>)
    requires |fields| == |flush|
    ensures Pushed(fields[..0]) == [] && WriterAt(fields, flush, 0) == 0
  {
  }

  lemma {:induction false} PushedMore(fields: seq<Field>, flush: seq<bool>, i: nat)
    requires i < |fields| == |flush|
    ensures Pushed(fields[..i + 1]) == Pushed(fields[..i]) + ToBits(fields[i].value, fields[i].width)
    ensures WriterAt(fields, flush, i + 1) == var held := WriterAt(fields, flush, i) + fields[i].width; if flush[i] then held % 8 else held
  {
    hide ToBits;
    assert fields[..i + 1][..i] == fields[..i];
  }

  /** Adds every field. The register overflows exactly when the schedule leads out of it. */
  method PushAll(bitC: CStream, fields: seq<Field>, flush: seq<bool>) returns (inside: bool)
    requires bitC.Valid() && bitC.bits == [] && bitC.bitPos == 0 && Narrow(fields) && |flush| == |fields|
    modifies bitC, bitC.dst
    ensures inside <==> WritesInside(fields, flush)
    ensures inside ==> bitC.Valid() && bitC.bits == Pushed(fields) && bitC.bitPos + 1 < REGISTER
  {
    hide ToNat, ToBits, BytesToBits, CStream.Valid, WriterAt, Pushed;
    PushedNone(fields, flush);
    for i := 0 to |fields|
      invariant bitC.Valid() && bitC.bits == Pushed(fields[..i]) && bitC.bitPos == WriterAt(fields, flush, i)
      invariant forall j :: 0 <= j < i ==> WriterAt(fields, flush, j) + fields[j].width < REGISTER
    {
      if bitC.bitPos + fields[i].width >= REGISTER { return false; }
      bitC.AddBits(fields[i].value, fields[i].width);
      if flush[i] { bitC.FlushBits(); }
      PushedMore(fields, flush, i);
    }
    assert fields[..|fields|] == fields;
    inside := bitC.bitPos + 1 < REGISTER;
  }

  // ---------- reading ----------

  /** What is on top, and what is below it. */
  lemma {:induction false} TopField(all: seq<bool>, fields: seq<Field>, n: nat)
    requires 0 < n <= |fields| && Pushed(fields[..n]) <= all
    ensures var below := |Pushed(fields[..n - 1])|;
      && below + fields[n - 1].width == |Pushed(fields[..n])| <= |all| && Pushed(fields[..n - 1]) <= all
      && ToNat(all[below..below + fields[n - 1].width]) == Mask(fields[n - 1].value, fields[n - 1].width)
  {
    hide ToNat, Mask, ToBits;
    var f := fields[n - 1];
    assert fields[..n][..n - 1] == fields[..n - 1] && fields[..n][n - 1] == f;
    var below, bits := Pushed(fields[..n - 1]), ToBits(f.value, f.width);
    var whole := all[..|Pushed(fields[..n])|];
    assert whole == below + bits;
    assert all[|below|..|below| + f.width] == whole[|below|..] == bits;
    ToBitsToNat(f.value, f.width);
  }

  lemma {:induction false} ReaderFirst(fields: seq<Field>, reload: seq<bool>)
    requires |fields| == |reload|
    ensures ReaderAt(fields, reload, 0) == Opened(|Pushed(fields)|)
  {
  }

  lemma {:induction false} ReaderNext(fields: seq<Field>, reload: seq<bool>, i: nat)
    requires i < |fields| == |reload|
    ensures var w := ReaderAt(fields, reload, i); var b := Before(w, reload, i);
      && b == (if reload[i] then Window(w.ptr - Min(w.consumed / 8, w.ptr), w.consumed - 8 * Min(w.consumed / 8, w.ptr)) else w)
      && ReaderAt(fields, reload, i + 1) == Window(b.ptr, b.consumed + fields[|fields| - 1 - i].width)
  {
    hide Pushed;
  }

  /** Where the reader stands after `i` reads. */
  ghost predicate Popped(bitD: DStream, fields: seq<Field>, reload: seq<bool>, i: nat)
    requires i <= |fields| == |reload|
    reads bitD
  {
    && bitD.Valid() && bitD.bitsConsumed <= REGISTER && Window(bitD.ptr, bitD.bitsConsumed) == ReaderAt(fields, reload, i)
    && bitD.Remaining() == |Pushed(fields[..|fields| - i])| && Pushed(fields[..|fields| - i]) <= BytesToBits(bitD.src)
  }

  /** One read, and the question whether it was the last. */
  method PopOne(bitD: DStream, fields: seq<Field>, reload: seq<bool>, i: nat) returns (inside: bool, v: nat, end: bool)
    requires i < |fields| == |reload| && Narrow(fields) && Popped(bitD, fields, reload, i)
    modifies bitD
    ensures var f := fields[|fields| - 1 - i];
      && (inside <==> Before(ReaderAt(fields, reload, i), reload, i).consumed + f.width <= REGISTER)
      && (inside ==> Popped(bitD, fields, reload, i + 1) && v == Mask(f.value, f.width) && (end <==> Pushed(fields[..|fields| - 1 - i]) == []))
  {
    hide ToNat, ToBits, BytesToBits, Mask, LittleEndian, Pushed, ReaderAt, Before;
    var f := fields[|fields| - 1 - i];
    TopField(BytesToBits(bitD.src), fields, |fields| - i);
    ReaderNext(fields, reload, i);
    v, end := 0, false;
    if reload[i] { var _ := bitD.Reload(); }
    if bitD.bitsConsumed + f.width > REGISTER { return false, v, end; }
    v := bitD.ReadBits(f.width);
    end := bitD.EndOfDStream();
    inside := true;
  }

  /** Reads the widths back from the last to the first, and asks after each read whether the
      stream is at its end. A read leaves the register exactly when the schedule leads out of
      it. */
  method PopAll(bitD: DStream, fields: seq<Field>, reload: seq<bool>) returns (inside: bool, values: seq<nat>, ends: seq<bool>)
    requires bitD.Valid() && HasEndMark(bitD.src) && Payload(bitD.src) == Pushed(fields) && Narrow(fields) && |reload| == |fields|
    requires Window(bitD.ptr, bitD.bitsConsumed) == Opened(|Pushed(fields)|) && bitD.Remaining() == |Pushed(fields)|
    modifies bitD
    ensures inside <==> ReadsInside(fields, reload)
    ensures inside ==> |values| == |ends| == |fields|
    ensures inside ==> forall j :: 0 <= j < |fields| ==> values[j] == Mask(fields[|fields| - 1 - j].value, fields[|fields| - 1 - j].width)
    ensures inside ==> forall j :: 0 <= j < |fields| ==> (ends[j] <==> Pushed(fields[..|fields| - 1 - j]) == [])
  {
    hide ToNat, ToBits, BytesToBits, Mask, LittleEndian, HighBit, Pushed, ReaderAt, Opened, Before;
    values, ends := [], [];
    assert fields[..|fields|] == fields;
    ReaderFirst(fields, reload);
    OpenedHolds(|Pushed(fields)|);
    assert Popped(bitD, fields, reload, 0);
    hide Popped;
    for i := 0 to |fields|
      invariant Popped(bitD, fields, reload, i) && |values| == |ends| == i
      invariant forall j :: 0 <= j < i ==> Before(ReaderAt(fields, reload, j), reload, j).consumed + fields[|fields| - 1 - j].width <= REGISTER
      invariant forall j :: 0 <= j < i ==> values[j] == Mask(fields[|fields| - 1 - j].value, fields[|fields| - 1 - j].width)
      invariant forall j :: 0 <= j < i ==> (ends[j] <==> Pushed(fields[..|fields| - 1 - j]) == [])
    {
      var v, end;
      inside, v, end := PopOne(bitD, fields, reload, i);
      if !inside { return false, values, ends; }
      values, ends := values + [v], ends + [end];
    }
    inside := true;
  }

  // ---------- the stack ----------

  /** Flushing behind every field keeps the writer inside. */
  lemma {:induction false} FlushingAlways(fields: seq<Field>, flush: seq<bool>)
    requires |fields| == |flush| && Narrow(fields) && forall i :: 0 <= i < |flush| ==> flush[i]
    ensures WritesInside(fields, flush)
  {
    forall i | 0 <= i <= |fields| ensures WriterAt(fields, flush, i) <= 7 {
      if i > 0 { assert flush[i - 1]; }
    }
  }

  /** Reloading in front of every field keeps the reader inside. */
  lemma {:induction false} ReloadingAlways(fields: seq<Field>, reload: seq<bool>)
    requires |fields| == |reload| && Narrow(fields) && forall i :: 0 <= i < |reload| ==> reload[i]
    ensures ReadsInside(fields, reload)
  {
    hide Pushed;
    forall i | 0 <= i < |fields|
      ensures Before(ReaderAt(fields, reload, i), reload, i).consumed + fields[|fields| - 1 - i].width <= REGISTER
    {
      ReaderKeeps(fields, reload, i);
    }
  }

  /** With those reloads, what is left of the stream is what the register and the bytes below it
      hold. */
  lemma {:induction false} ReaderKeeps(fields: seq<Field>, reload: seq<bool>, n: nat)
    requires n <= |fields| == |reload| && Narrow(fields) && forall i :: 0 <= i < |reload| ==> reload[i]
    ensures var w := ReaderAt(fields, reload, n);
      8 * w.ptr + REGISTER - w.consumed == |Pushed(fields[..|fields| - n])| && w.consumed <= REGISTER
    ensures n < |fields| ==> Before(ReaderAt(fields, reload, n), reload, n).consumed + fields[|fields| - 1 - n].width <= REGISTER
  {
    hide ReaderAt, Before, Pushed, Opened;
    if n == 0 {
      assert fields[..|fields|] == fields;
      ReaderFirst(fields, reload);
      OpenedHolds(|Pushed(fields)|);
    } else {
      ReaderKeeps(fields, reload, n - 1);
      PushedLast(fields, |fields| - n + 1);
      ReaderNext(fields, reload, n - 1);
    }
    if n < |fields| {
      PushedLast(fields, |fields| - n);
      ReaderNext(fields, reload, n);
    }
  }

  lemma {:induction false} OpenedHolds(bits: nat)
    ensures var w := Opened(bits); 8 * w.ptr + REGISTER - w.consumed == bits && w.consumed <= REGISTER
  {
  }

  lemma {:induction false} PushedLast(fields: seq<Field>, n: nat)
    requires 0 < n <= |fields|
    ensures |Pushed(fields[..n])| == |Pushed(fields[..n - 1])| + fields[n - 1].width
  {
    assert fields[..n][..n - 1] == fields[..n - 1];
  }

  /** The stream is a stack: what closing it does not refuse comes back, masked, last in, first
      out, for every list of widths and every schedule of flushes and reloads that stays inside
      the registers. The end test holds exactly when no bits are left. */
  method PushThenPop(fields: seq<Field>, flush: seq<bool>, reload: seq<bool>, dst: array<byte>)
    returns (size: nat, values: seq<nat>, ends: seq<bool>)
    requires Narrow(fields) && |flush| == |reload| == |fields| && dst.Length > REGISTER_BYTES
    requires WritesInside(fields, flush) && ReadsInside(fields, reload)
    modifies dst
    ensures size == 0 <==> (|Pushed(fields)| + 1) / 8 >= dst.Length - REGISTER_BYTES
    ensures size != 0 ==> |values| == |ends| == |fields|
    ensures size != 0 ==>
      forall j :: 0 <= j < |fields| ==> values[j] == Mask(fields[|fields| - 1 - j].value, fields[|fields| - 1 - j].width)
    ensures size != 0 ==> forall j :: 0 <= j < |fields| ==> (ends[j] <==> Pushed(fields[..|fields| - 1 - j]) == [])
  {
    hide ToNat, ToBits, BytesToBits, Mask, LittleEndian, HighBit, Pushed, Payload, WritesInside, ReadsInside;
    size, values, ends := 0, [], [];
    var bitC := new CStream(dst);
    var pushed := PushAll(bitC, fields, flush);
    size := bitC.Close();
    if size != 0 {
      PayloadOfStream(dst[..size], Pushed(fields));
      var bitD := new DStream(dst[..size]);
      var popped;
      popped, values, ends := PopAll(bitD, fields, reload);
    }
  }
}
