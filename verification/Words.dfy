/**
 Machine words as natural numbers, with the bit operations the ROM uses, and the
 thermometer code (a run of ones from bit 0) that its fuse counters rely on.
 */
module Words {
  type u32 = x: int | 0 <= x < 0x1_0000_0000
  type byte = x: int | 0 <= x < 0x100

  function Min(a: nat, b: nat): nat { if a <= b then a else b }

  function Max(a: nat, b: nat): nat { if a >= b then a else b }

  /** `1 << n`. */
  function Pow2(n: nat): (r: nat)
    ensures r >= 1
  {
    if n == 0 then 1 else 2 * Pow2(n - 1)
  }

  /** `(1 << n) - 1`: the lowest n bits set. */
  function Ones(n: nat): nat { Pow2(n) - 1 }

  predicate Bit(w: nat, i: nat) {
    if i == 0 then w % 2 == 1 else Bit(w / 2, i - 1)
  }

  /** `a | b`. */
  function Or(a: nat, b: nat): nat {
    if a == 0 then b else if b == 0 then a
    else (if a % 2 == 1 || b % 2 == 1 then 1 else 0) + 2 * Or(a / 2, b / 2)
  }

  /** `w.count_ones()`. */
  function PopCount(w: nat): nat {
    if w == 0 then 0 else w % 2 + PopCount(w / 2)
  }

  /** `(!w).trailing_zeros()`: the length of the run of ones from bit 0. */
  function TrailingOnes(w: nat): nat {
    if w % 2 == 1 then 1 + TrailingOnes(w / 2) else 0
  }

  lemma {:induction false} OrStep(a: nat, b: nat)
    ensures Or(a, b) % 2 == (if a % 2 == 1 || b % 2 == 1 then 1 else 0)
    ensures Or(a, b) / 2 == Or(a / 2, b / 2)
  {
    if a == 0 || b == 0 {
      assert Or(a / 2, b / 2) == (if a == 0 then b / 2 else a / 2);
    }
  }

  lemma {:induction false} OrBit(a: nat, b: nat, i: nat)
    ensures Bit(Or(a, b), i) == (Bit(a, i) || Bit(b, i))
  {
    OrStep(a, b);
    if i > 0 { OrBit(a / 2, b / 2, i - 1); }
  }

  lemma {:induction false} OrBound(a: nat, b: nat, n: nat)
    requires a < Pow2(n) && b < Pow2(n)
    ensures Or(a, b) < Pow2(n)
  {
    if n > 0 {
      OrStep(a, b);
      OrBound(a / 2, b / 2, n - 1);
    }
  }

  lemma {:induction false} OrIdempotent(a: nat)
    ensures Or(a, a) == a
  {
    if a > 0 { OrIdempotent(a / 2); }
  }

  lemma {:induction false} OrOnes(m: nat, n: nat)
    ensures Or(Ones(m), Ones(n)) == Ones(Max(m, n))
  {
    if m > 0 && n > 0 {
      OrOnes(m - 1, n - 1);
      OrStep(Ones(m), Ones(n));
      OnesStep(m);
      OnesStep(n);
    }
  }

  lemma OnesStep(n: nat)
    requires n > 0
    ensures Ones(n) % 2 == 1 && Ones(n) / 2 == Ones(n - 1)
  {
  }

  lemma {:induction false} OnesBit(n: nat, i: nat)
    ensures Bit(Ones(n), i) == (i < n)
  {
    if n == 0 {
      ZeroBit(i);
    } else if i > 0 {
      OnesBit(n - 1, i - 1);
    }
  }

  lemma {:induction false} ZeroBit(i: nat)
    ensures !Bit(0, i)
  {
    if i > 0 { ZeroBit(i - 1); }
  }

  lemma {:induction false} PopCountOnes(n: nat)
    ensures PopCount(Ones(n)) == n
  {
    if n > 0 {
      PopCountOnes(n - 1);
      OnesStep(n);
    }
  }

  lemma {:induction false} PopCountBound(w: nat, n: nat)
    requires w < Pow2(n)
    ensures PopCount(w) <= n
  {
    if n > 0 { PopCountBound(w / 2, n - 1); }
  }

  lemma {:induction false} PopCountMonotone(a: nat, b: nat)
    ensures PopCount(Or(a, b)) >= PopCount(a)
    ensures PopCount(Or(a, b)) >= PopCount(b)
  {
    if a > 0 && b > 0 {
      OrStep(a, b);
      PopCountMonotone(a / 2, b / 2);
    }
  }

  /** Setting one bit adds one to the count exactly when it was clear. */
  lemma {:induction false} PopCountSetBit(w: nat, i: nat)
    ensures PopCount(Or(w, Pow2(i))) == PopCount(w) + (if Bit(w, i) then 0 else 1)
  {
    var v := Pow2(i);
    OrStep(w, v);
    if i == 0 {
      assert v / 2 == 0;
      assert Or(w / 2, 0) == w / 2;
    } else {
      assert v / 2 == Pow2(i - 1);
      PopCountSetBit(w / 2, i - 1);
    }
    assert PopCount(Or(w, v)) == Or(w, v) % 2 + PopCount(Or(w, v) / 2);
    assert PopCount(w) == w % 2 + PopCount(w / 2);
  }

  lemma {:induction false} SetNextBit(n: nat)
    ensures Or(Ones(n), Pow2(n)) == Ones(n + 1)
  {
    if n > 0 {
      SetNextBit(n - 1);
      OrStep(Ones(n), Pow2(n));
      OnesStep(n);
      assert Pow2(n) / 2 == Pow2(n - 1);
    }
  }

  lemma {:induction false} SetOldBit(n: nat, i: nat)
    requires i < n
    ensures Or(Ones(n), Pow2(i)) == Ones(n)
  {
    OrStep(Ones(n), Pow2(i));
    if i > 0 {
      SetOldBit(n - 1, i - 1);
    } else {
      assert Pow2(i) / 2 == 0;
      assert Or(Ones(n) / 2, 0) == Ones(n) / 2;
    }
  }

  lemma {:induction false} Pow2Monotone(m: nat, n: nat)
    requires m <= n
    ensures Pow2(m) <= Pow2(n)
  {
    if m < n { Pow2Monotone(m, n - 1); }
  }

  lemma Pow2At32()
    ensures Pow2(32) == 0x1_0000_0000
    ensures Pow2(8) == 0x100
  {
    assert Pow2(4) == 16;
    assert Pow2(8) == 256;
    assert Pow2(12) == 0x1000;
    assert Pow2(16) == 0x1_0000;
    assert Pow2(20) == 0x10_0000;
    assert Pow2(24) == 0x100_0000;
    assert Pow2(28) == 0x1000_0000;
  }

  // ----- bytes of a word, least significant first -----

  function ByteOf(w: u32, k: nat): byte
    requires k < 4
  {
    if k == 0 then w % 0x100
    else if k == 1 then (w / 0x100) % 0x100
    else if k == 2 then (w / 0x100 / 0x100) % 0x100
    else w / 0x100 / 0x100 / 0x100
  }

  function FromBytes(b0: byte, b1: byte, b2: byte, b3: byte): u32 {
    b0 + 0x100 * (b1 + 0x100 * (b2 + 0x100 * b3))
  }

  lemma BytesRoundTrip(b0: byte, b1: byte, b2: byte, b3: byte)
    ensures ByteOf(FromBytes(b0, b1, b2, b3), 0) == b0
    ensures ByteOf(FromBytes(b0, b1, b2, b3), 1) == b1
    ensures ByteOf(FromBytes(b0, b1, b2, b3), 2) == b2
    ensures ByteOf(FromBytes(b0, b1, b2, b3), 3) == b3
  {
  }

  lemma WordRoundTrip(w: u32)
    ensures FromBytes(ByteOf(w, 0), ByteOf(w, 1), ByteOf(w, 2), ByteOf(w, 3)) == w
  {
  }

  /** Byte 0 is the least significant. */
  lemma ByteValue(w: u32)
    ensures var a: nat, b: nat, c: nat, d: nat := ByteOf(w, 0), ByteOf(w, 1), ByteOf(w, 2), ByteOf(w, 3);
            w == a + 0x100 * b + 0x1_0000 * c + 0x100_0000 * d
  {
  }

  /** Byte k of a word buffer read as little-endian bytes. */
  function ByteAt(ws: seq<u32>, k: nat): byte
    requires k < 4 * |ws|
  {
    ByteOf(ws[k / 4], k % 4)
  }

  lemma ByteInWord(ws: seq<u32>, j: nat, k: nat)
    requires j < |ws| && k < 4
    ensures ByteAt(ws, 4 * j + k) == ByteOf(ws[j], k)
  {
  }

  /** `w << n`. */
  function Shl(w: nat, n: nat): nat { if n == 0 then w else 2 * Shl(w, n - 1) }

  lemma ShlTwice(w: nat, n: nat)
    ensures Shl(w, n + 2) == 4 * Shl(w, n)
  {
    assert Shl(w, n + 2) == 2 * Shl(w, n + 1);
  }

  lemma {:induction false} PopCountSplit(hi: nat, lo: nat, n: nat)
    requires lo < Pow2(n)
    ensures PopCount(Shl(hi, n) + lo) == PopCount(hi) + PopCount(lo)
  {
    if n > 0 {
      PopCountSplit(hi, lo / 2, n - 1);
      PopCountDouble(Shl(hi, n - 1), lo);
    }
  }

  lemma PopCountDouble(h: nat, lo: nat)
    ensures PopCount(2 * h + lo) - PopCount(lo) == PopCount(h + lo / 2) - PopCount(lo / 2)
  {
    var w := 2 * h + lo;
    assert w % 2 == lo % 2 && w / 2 == h + lo / 2;
    assert PopCount(w) == w % 2 + PopCount(w / 2);
    assert PopCount(lo) == lo % 2 + PopCount(lo / 2);
  }

  lemma PopCountByte(hi: nat, lo: byte)
    ensures PopCount(0x100 * hi + lo) == PopCount(hi) + PopCount(lo)
  {
    ShlTwice(hi, 0);
    ShlTwice(hi, 2);
    ShlTwice(hi, 4);
    ShlTwice(hi, 6);
    PopCountSplit(hi, lo, 8);
  }

  lemma DivModUnique(w: nat, d: nat, q: nat, r: nat)
    requires d >= 1 && w == d * q + r && r < d
    ensures w / d == q && w % d == r
  {
    var q', r' := w / d, w % d;
    assert d * (q' - q) == r - r';
    if q' > q {
      MultipleAtLeast(d, q' - q);
    } else if q' < q {
      MultipleAtLeast(d, q - q');
    }
  }

  lemma MultipleAtLeast(d: nat, k: nat)
    requires k >= 1
    ensures d * k >= d
  {
  }

  lemma PopCountBytes(w: u32)
    ensures PopCount(w) == PopCount(ByteOf(w, 0)) + PopCount(ByteOf(w, 1))
                           + PopCount(ByteOf(w, 2)) + PopCount(ByteOf(w, 3))
  {
    var a: nat := w / 0x100;
    var b: nat := a / 0x100;
    PopCountByte(a, ByteOf(w, 0));
    PopCountByte(b, ByteOf(w, 1));
    PopCountByte(b / 0x100, ByteOf(w, 2));
    assert w == 0x100 * a + ByteOf(w, 0) && a == 0x100 * b + ByteOf(w, 1);
  }
}
