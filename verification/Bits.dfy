/** Bit strings, shifts, masks and little-endian bytes: the arithmetic in which the
    codecs' registers and buffers are explained. A bit string is stored with its
    least significant bit at index 0. */
module Bits {

  type byte = x: int | 0 <= x < 256

  /** `1 << n`, without a register width. */
  function Pow2(n: nat): (r: nat)
    ensures r >= 1
    ensures n >= 1 ==> r >= 2
  {
    if n == 0 then 1 else 2 * Pow2(n - 1)
  }

  /** `v << n`, without a register width. */
  function Shl(v: nat, n: nat): nat {
    if n == 0 then v else 2 * Shl(v, n - 1)
  }

  /** `v >> n` */
  function Shr(v: nat, n: nat): nat {
    if n == 0 then v else Shr(v / 2, n - 1)
  }

  /** `v & ((1 << n) - 1)` */
  function Mask(v: nat, n: nat): nat {
    if n == 0 then 0 else v % 2 + 2 * Mask(v / 2, n - 1)
  }

  /** Bitwise or. */
  function Or(x: nat, y: nat): nat
    decreases x + y
  {
    if x == 0 then y
    else if y == 0 then x
    else (if x % 2 == 1 || y % 2 == 1 then 1 else 0) + 2 * Or(x / 2, y / 2)
  }

  /** Position of the highest set bit: `BIT_highbit32`. */
  function HighBit(v: nat): (h: nat)
    requires v > 0
    ensures Pow2(h) <= v < Pow2(h + 1)
  {
    if v == 1 then 0 else 1 + HighBit(v / 2)
  }

  function ToNat(b: seq<bool>): nat {
    if b == [] then 0 else (if b[0] then 1 else 0) + 2 * ToNat(b[1..])
  }

  /** The `n` low bits of `v`. */
  function ToBits(v: nat, n: nat): (b: seq<bool>)
    ensures |b| == n
  {
    if n == 0 then [] else [v % 2 == 1] + ToBits(v / 2, n - 1)
  }

  // ---------- powers of two ----------

  lemma {:induction false} MulAssoc(a: int, b: int, c: int)
    ensures (a * b) * c == a * (b * c)
  {
  }

  lemma {:induction false} OneMoreTimes(k: int, x: int)
    ensures (k + 1) * x == k * x + x
  {
  }

  lemma {:induction false} MulMono(a: int, b: int, c: nat)
    requires a <= b
    ensures a * c <= b * c
  {
  }

  lemma {:induction false} PowZero()
    ensures Pow2(0) == 1
  {
  }

  lemma {:induction false} Pow2Add(a: nat, b: nat)
    ensures Pow2(a + b) == Pow2(a) * Pow2(b)
  {
    if a != 0 {
      Pow2Add(a - 1, b);
      MulAssoc(2, Pow2(a - 1), Pow2(b));
    }
  }

  lemma {:induction false} Pow2Mono(a: nat, b: nat)
    requires a <= b
    ensures Pow2(a) <= Pow2(b)
  {
    if a < b { Pow2Mono(a, b - 1); }
  }

  lemma {:induction false} HighBitBelow(v: nat, n: nat)
    requires v > 0
    ensures v < Pow2(n) <==> HighBit(v) < n
  {
    var h := HighBit(v);
    if h < n { Pow2Mono(h + 1, n); } else { Pow2Mono(n, h); }
  }

  lemma {:induction false} HighBitUnique(v: nat, h: nat)
    requires Pow2(h) <= v < Pow2(h + 1)
    ensures HighBit(v) == h
  {
    var g := HighBit(v);
    if g < h { Pow2Mono(g + 1, h); }
    if h < g { Pow2Mono(h + 1, g); }
  }

  /** Quotient and remainder of a number written as `lo + d * hi`. */
  lemma {:induction false} DivModUnique(x: int, d: int, hi: int, lo: int)
    requires d > 0 && 0 <= lo < d && x == lo + d * hi
    ensures x / d == hi && x % d == lo
  {
    var q, r := x / d, x % d;
    assert x == d * q + r && 0 <= r < d;
    assert d * (q - hi) == lo - r;
    if q - hi >= 1 {
      MulMono(1, q - hi, d);
    } else if q - hi <= -1 {
      MulMono(q - hi, -1, d);
    }
  }

  // ---------- shifts and masks ----------

  lemma {:induction false} ShlAdd(v: nat, m: nat, n: nat)
    ensures Shl(Shl(v, m), n) == Shl(v, m + n)
  {
    if n != 0 { ShlAdd(v, m, n - 1); }
  }

  lemma {:induction false} ShlMul(v: nat, n: nat)
    ensures Shl(v, n) == v * Pow2(n)
  {
    if n != 0 {
      ShlMul(v, n - 1);
      assert 2 * (v * Pow2(n - 1)) == v * (2 * Pow2(n - 1));
    }
  }

  lemma {:induction false} ShlDouble(v: nat, n: nat)
    ensures Shl(2 * v, n) == 2 * Shl(v, n)
  {
    if n != 0 { ShlDouble(v, n - 1); }
  }

  lemma {:induction false} ShlMono(v: nat, w: nat, n: nat)
    requires v <= w
    ensures Shl(v, n) <= Shl(w, n)
    ensures v < w ==> Shl(v, n) + Pow2(n) <= Shl(w, n)
  {
    if n != 0 { ShlMono(v, w, n - 1); }
  }

  lemma {:induction false} MaskShr(v: nat, n: nat)
    ensures v == Mask(v, n) + Shl(Shr(v, n), n)
    ensures Mask(v, n) < Pow2(n)
  {
    if n != 0 {
      MaskShr(v / 2, n - 1);
    }
  }

  /** The unique split of a number at bit `n`. */
  lemma {:induction false} ShrUnique(lo: nat, hi: nat, n: nat)
    requires lo < Pow2(n)
    ensures Shr(lo + Shl(hi, n), n) == hi
    ensures Mask(lo + Shl(hi, n), n) == lo
  {
    if n != 0 {
      var v := lo + Shl(hi, n);
      assert v / 2 == lo / 2 + Shl(hi, n - 1) && v % 2 == lo % 2;
      ShrUnique(lo / 2, hi, n - 1);
    }
  }

  /** Shifting right moves the highest bit down. */
  lemma {:induction false} ShrBounds(v: nat, n: nat, k: nat)
    requires n <= k && Pow2(k) <= v < Pow2(k + 1)
    ensures Pow2(k - n) <= Shr(v, n) < Pow2(k - n + 1)
  {
    if n != 0 {
      assert Pow2(k + 1) == 2 * Pow2(k) && Pow2(k) == 2 * Pow2(k - 1);
      ShrBounds(v / 2, n - 1, k - 1);
    }
  }

  /** Comparing a shifted value with `m` is comparing the value with `m << n`. */
  lemma {:induction false} ShrCompare(v: nat, m: nat, n: nat)
    ensures m <= Shr(v, n) <==> Shl(m, n) <= v
  {
    if n != 0 { ShrCompare(v / 2, m, n - 1); }
  }

  lemma {:induction false} ShlZero(n: nat)
    ensures Shl(0, n) == 0
  {
    if n != 0 { ShlZero(n - 1); }
  }

  lemma {:induction false} ShrBelow(v: nat, m: nat, n: nat)
    requires v < Pow2(m + n)
    ensures Shr(v, m) < Pow2(n)
  {
    if m != 0 { ShrBelow(v / 2, m - 1, n); }
  }

  lemma {:induction false} OrDisjoint(x: nat, y: nat, k: nat)
    requires x < Pow2(k)
    ensures Or(x, Shl(y, k)) == x + Shl(y, k)
  {
    if k != 0 { OrDisjoint(x / 2, y, k - 1); }
  }

  // ---------- bit strings as numbers ----------

  lemma {:induction false} ToNatBound(b: seq<bool>)
    ensures ToNat(b) < Pow2(|b|)
  {
    if b != [] { ToNatBound(b[1..]); }
  }

  lemma {:induction false} ToNatConcat(a: seq<bool>, b: seq<bool>)
    ensures ToNat(a + b) == ToNat(a) + Shl(ToNat(b), |a|)
  {
    if a == [] {
      assert a + b == b;
    } else {
      ToNatConcat(a[1..], b);
      assert (a + b)[1..] == a[1..] + b;
    }
  }

  /** Dropping the low bits shifts; keeping them masks. */
  lemma {:induction false} ToNatSplit(b: seq<bool>, k: nat)
    requires k <= |b|
    ensures Shr(ToNat(b), k) == ToNat(b[k..])
    ensures Mask(ToNat(b), k) == ToNat(b[..k])
  {
    hide ToNat, Shr, Shl, Mask, Pow2;
    assert b == b[..k] + b[k..];
    ToNatConcat(b[..k], b[k..]);
    ToNatBound(b[..k]);
    ShrUnique(ToNat(b[..k]), ToNat(b[k..]), k);
  }

  lemma {:induction false} ToBitsToNat(v: nat, n: nat)
    ensures ToNat(ToBits(v, n)) == Mask(v, n)
  {
    if n != 0 {
      ToBitsToNat(v / 2, n - 1);
      assert ToBits(v, n)[1..] == ToBits(v / 2, n - 1);
    }
  }

  lemma {:induction false} ToNatToBits(b: seq<bool>)
    ensures ToBits(ToNat(b), |b|) == b
  {
    if b != [] {
      ToNatToBits(b[1..]);
      assert b == [b[0]] + b[1..];
    }
  }

  lemma {:induction false} MaskSmall(v: nat, n: nat)
    requires v < Pow2(n)
    ensures Mask(v, n) == v
  {
    if n != 0 { MaskSmall(v / 2, n - 1); }
  }

  lemma {:induction false} ToBitsMask(v: nat, n: nat)
    ensures ToBits(Mask(v, n), n) == ToBits(v, n)
  {
    ToBitsToNat(v, n);
    ToNatToBits(ToBits(v, n));
  }

  lemma {:induction false} ToBitsConcat(v: nat, m: nat, n: nat)
    ensures ToBits(v, m + n) == ToBits(v, m) + ToBits(Shr(v, m), n)
  {
    if m != 0 {
      ToBitsConcat(v / 2, m - 1, n);
      assert m + n - 1 == m - 1 + n;
    }
  }

  // ---------- bytes ----------

  function BytesToBits(s: seq<byte>): (b: seq<bool>)
    ensures |b| == 8 * |s|
  {
    if s == [] then [] else ToBits(s[0], 8) + BytesToBits(s[1..])
  }

  lemma {:induction false} BytesToBitsConcat(s: seq<byte>, t: seq<byte>)
    ensures BytesToBits(s + t) == BytesToBits(s) + BytesToBits(t)
  {
    hide ToBits;
    if s == [] {
      assert s + t == t;
    } else {
      BytesToBitsConcat(s[1..], t);
      assert (s + t)[1..] == s[1..] + t;
    }
  }

  lemma {:induction false} BytesToBitsSlice(s: seq<byte>, i: nat, j: nat)
    requires i <= j <= |s|
    ensures BytesToBits(s[i..j]) == BytesToBits(s)[8 * i..8 * j]
  {
    assert s == s[..i] + s[i..j] + s[j..];
    BytesToBitsConcat(s[..i] + s[i..j], s[j..]);
    BytesToBitsConcat(s[..i], s[i..j]);
  }

  /** Little-endian value of a run of bytes: `MEM_readLEST`, `MEM_readLE32`. */
  function LittleEndian(s: seq<byte>): nat {
    if s == [] then 0 else s[0] + 256 * LittleEndian(s[1..])
  }

  lemma {:induction false} ByteBound()
    ensures Pow2(8) == 256
  {
  }

  lemma {:induction false} LittleEndianBits(s: seq<byte>)
    ensures LittleEndian(s) == ToNat(BytesToBits(s))
  {
    if s != [] {
      hide ToBits, ToNat, Shl, Mask, Pow2;
      LittleEndianBits(s[1..]);
      ToNatConcat(ToBits(s[0], 8), BytesToBits(s[1..]));
      ToBitsToNat(s[0], 8);
      assert s[0] < Pow2(8) by { ByteBound(); }
      MaskSmall(s[0], 8);
      ShlByte(ToNat(BytesToBits(s[1..])));
    }
  }

  lemma {:induction false} ShlByte(v: nat)
    ensures Shl(v, 8) == 256 * v
  {
    ShlMul(v, 8);
    assert Pow2(8) == 256;
  }

  lemma {:induction false} ShrByte(v: nat)
    ensures Shr(v, 8) == v / 256 && Mask(v, 8) == v % 256
  {
    assert Pow2(8) == 256;
    ShlByte(v / 256);
    ShrUnique(v % 256, v / 256, 8);
  }

  /** The `n` low bytes of `v`, lowest first: `MEM_writeLEST`. */
  function ToBytes(v: nat, n: nat): (s: seq<byte>)
    ensures |s| == n
  {
    if n == 0 then [] else [v % 256] + ToBytes(v / 256, n - 1)
  }

  lemma {:induction false} ToBytesBits(v: nat, n: nat)
    ensures BytesToBits(ToBytes(v, n)) == ToBits(v, 8 * n)
  {
    if n != 0 {
      ToBytesBits(v / 256, n - 1);
      ToBitsConcat(v, 8, 8 * (n - 1));
      ShrByte(v);
      ToBitsMask(v, 8);
    }
  }
}
