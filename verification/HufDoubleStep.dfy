/** Decoding with the double-symbol table: one lookup gives exactly the next one or two
    symbols of the text. */
module HufDoubleStep {
  import opened Bits
  import opened BitStream
  import T = HufTable
  import D = HufDouble
  import opened HufStream

  /** A window whose cell holds a symbol has that symbol's code on top. */
  lemma {:induction false} WindowShows(dt: seq<T.Entry>, vals: seq<nat>, lens: seq<nat>, ws: seq<nat>, log: nat, w: seq<bool>) returns (s: nat)
    requires IsCodes(vals, lens, ws, log) && T.IsTable(dt, ws, log) && |w| == log
    ensures ToNat(w) < |dt| && s < |ws| == |lens| == |vals| && ws[s] >= 1 && 1 <= lens[s] <= log && dt[ToNat(w)] == T.Entry(s, lens[s])
    ensures w[log - lens[s]..] == ToBits(vals[s], lens[s])
  {
    hide ToNat, ToBits, Pow2, T.IsTable, T.Start, T.Below, Shl, Shr, Mask;
    ToNatBound(w);
    assert |dt| == Pow2(log) by { TableSize(dt, ws, log); }
    s := T.TableLookup(dt, ws, log, ToNat(w));
    T.OwnerIs(ws, s, ToNat(w));
    CodableFacts(vals, lens, ws, log, s);
    var k := log - lens[s];
    var top := w[k..];
    ToNatSplit(w, k);
    TopOfRange(ws, log, s, vals[s], ToNat(w));
    ToNatToBits(top);
  }

  lemma {:induction false} TableSize(dt: seq<T.Entry>, ws: seq<nat>, log: nat)
    requires T.IsTable(dt, ws, log)
    ensures |dt| == Pow2(log)
  {
  }

  lemma {:induction false} TopOfRange(ws: seq<nat>, log: nat, s: nat, val: nat, v: nat)
    requires T.Owns(ws, s, v) && T.IsCode(ws, log, s, val)
    ensures Shr(v, ws[s] - 1) == val
  {
    hide T.Start, T.Below, Shl, Shr, Mask;
    T.CellsAre(ws[s]);
    ShrUnique(v - Shl(val, ws[s] - 1), val, ws[s] - 1);
  }

  /** Indexing a wider window and shifting out `b` bits, as bit strings. */
  lemma {:induction false} WindowIndex(w: seq<bool>, log: nat, b: nat)
    requires log <= |w| && b <= |w|
    ensures Shr(ToNat(w), |w| - log) == ToNat(w[|w| - log..])
    ensures Mask(Shl(ToNat(w), b), |w|) == ToNat(Zeros(b) + w[..|w| - b])
  {
    hide ToNat, ToBits, Pow2, Shl, Shr, Mask;
    var n := |w|;
    ToNatSplit(w, n - log);
    ToNatConcat(Zeros(b), w);
    ToNatZeros(b);
    var wide := Zeros(b) + w;
    ToNatSplit(wide, n);
    assert wide[..n] == Zeros(b) + w[..n - b];
  }

  /** The next symbol through a window that may be too narrow for it. */
  lemma {:induction false} NarrowWindow(dt: seq<T.Entry>, vals: seq<nat>, lens: seq<nat>, ws: seq<nat>, log: nat, text: seq<byte>, left: seq<bool>, a: nat)
    requires IsCodes(vals, lens, ws, log) && T.IsTable(dt, ws, log) && text != [] && Codable(text, ws) && left == CodeBits(vals, lens, text) && a < log
    ensures var v := ToNat(Zeros(log - a) + Window(left, a));
      && v < |dt| && (dt[v].nbBits <= a ==> dt[v] == T.Entry(text[0], lens[text[0]]))
      && text[0] < |lens| && (lens[text[0]] <= a ==> dt[v] == T.Entry(text[0], lens[text[0]]))
  {
    hide ToNat, ToBits, T.IsTable, SymbolBits, Pow2, IsCodes;
    var t := text[0];
    CodableFacts(vals, lens, ws, log, t);
    var w := Zeros(log - a) + Window(left, a);
    var rest, code := CodeBits(vals, lens, text[1..]), SymbolBits(vals, lens, t);
    assert left == rest + code;
    if lens[t] <= a {
      var x := Zeros(log - a) + Window(left, a)[..a - lens[t]];
      assert w == x + code;
      WindowFinds(dt, vals, lens, ws, log, t, x);
    } else {
      var s := WindowShows(dt, vals, lens, ws, log, w);
      if lens[s] <= a { ShortInside(dt, vals, lens, ws, log, text, left, a, s); }
    }
  }

  /** A code that fits a narrow window is on top of the whole, and so is the next symbol. */
  lemma {:induction false} ShortInside(dt: seq<T.Entry>, vals: seq<nat>, lens: seq<nat>, ws: seq<nat>, log: nat, text: seq<byte>, left: seq<bool>, a: nat, s: nat)
    requires IsCodes(vals, lens, ws, log) && T.IsTable(dt, ws, log) && text != [] && Codable(text, ws) && left == CodeBits(vals, lens, text) && a < log
    requires s < |ws| && ws[s] >= 1 && s < |lens| && s < |vals| && lens[s] <= a && lens[s] <= |left|
    requires (Zeros(log - a) + Window(left, a))[log - lens[s]..] == ToBits(vals[s], lens[s])
    ensures s == text[0]
  {
    hide ToNat, ToBits, T.IsTable, Pow2, CodeBits;
    CodableFacts(vals, lens, ws, log, s);
    TopSymbol(dt, vals, lens, ws, log, text, left);
    var w := Window(left, log);
    var b := lens[s];
    assert w[log - b..] == left[|left| - b..];
    assert (Zeros(log - a) + Window(left, a))[log - b..] == left[|left| - b..];
    assert w == w[..log - b] + SymbolBits(vals, lens, s);
    WindowFinds(dt, vals, lens, ws, log, s, w[..log - b]);
  }

  lemma {:induction false} WindowTop(left: seq<bool>, target: nat, log: nat)
    requires log <= target
    ensures Window(left, target)[target - log..] == Window(left, log)
  {
  }

  lemma {:induction false} WindowPop(left: seq<bool>, left2: seq<bool>, target: nat, b: nat)
    requires b <= |left| && b <= target && left2 == left[..|left| - b]
    ensures Window(left, target)[..target - b] == Window(left2, target - b)
  {
  }

  /** The index of the second lookup. */
  lemma {:induction false} SecondIndex(w: seq<bool>, log: nat, b: nat)
    requires log <= |w| && b <= |w|
    ensures var y := w[..|w| - b];
      Shr(ToNat(Zeros(b) + y), |w| - log) == ToNat(if log <= |y| then y[|y| - log..] else Zeros(log - |y|) + y)
  {
    hide ToNat, Shr, Mask;
    var y := w[..|w| - b];
    var wide := Zeros(b) + y;
    ToNatSplit(wide, |w| - log);
    if log <= |y| {
      assert wide[|w| - log..] == y[|y| - log..];
    } else {
      assert wide[|w| - log..] == Zeros(log - |y|) + y;
    }
  }

  /** One lookup in the double-symbol table, with at least two symbols to come: the entry
      holds the next symbol, or the next two, and their total length. */
  lemma {:induction false} DoubleStep(x2: seq<T.Entry>, vals: seq<nat>, lens: seq<nat>, ws: seq<nat>, log: nat, target: nat, text: seq<byte>)
    requires IsCodes(vals, lens, ws, log) && T.IsTable(x2, ws, log) && log <= target && |text| >= 2 && Codable(text, ws)
    ensures |x2| == Pow2(log) && ToNat(Window(CodeBits(vals, lens, text), target)) < Pow2(target)
    ensures text[0] < |lens| && text[1] < |lens|
    ensures var e := D.Greedy(x2, log, target, ToNat(Window(CodeBits(vals, lens, text), target)));
      var first: int, second: int := text[0], text[1];
      || e == D.DoubleEntry(first, lens[first], 1)
      || e == D.DoubleEntry(first + 256 * second, lens[first] + lens[second], 2)
  {
    hide ToNat, ToBits, T.IsTable, Pow2, Shl, Shr, Mask, CodeBits, SymbolBits, Window;
    TableSize(x2, ws, log);
    var left := CodeBits(vals, lens, text);
    var w := Window(left, target);
    ToNatBound(w);
    CodableFacts(vals, lens, ws, log, text[0]);
    CodableFacts(vals, lens, ws, log, text[1]);
    TopSymbol(x2, vals, lens, ws, log, text, left);
    var b := lens[text[0]];
    var left2 := CodeBits(vals, lens, text[1..]);
    WindowTop(left, target, log);
    WindowPop(left, left2, target, b);
    WindowIndex(w, log, b);
    SecondIndex(w, log, b);
    RestCodable(text, ws, 1);
    if log <= target - b {
      WindowTop(left2, target - b, log);
      TopSymbol(x2, vals, lens, ws, log, text[1..], left2);
    } else {
      NarrowWindow(x2, vals, lens, ws, log, text[1..], left2, target - b);
    }
  }
}
