/**
 Multi-word fuse counters.  Bits are numbered from bit 0 of word 0.  A fuse can only
 go from 0 to 1, so a counter is advanced by setting its lowest clear bit; an array
 that has only been used that way is a run of ones from bit 0 (a thermometer).
 */
module Thermometer {
  import opened Words

  /** The contents of 32-bit words. */
  predicate AreWords(ws: seq<nat>) { forall i | 0 <= i < |ws| :: ws[i] < Pow2(32) }

  /** How many of the bits of word j lie below n. */
  function Share(n: nat, j: nat): nat {
    if n <= 32 * j then 0 else Min(n - 32 * j, 32)
  }

  /** The thermometer of value n over `len` words. */
  function Encode(n: nat, len: nat): (ws: seq<nat>)
    ensures |ws| == len
    ensures forall j | 0 <= j < len :: ws[j] == Ones(Share(n, j))
  {
    seq(len, j requires j >= 0 => Ones(Share(n, j)))
  }

  /** Number of set bits: the DOT counter's reading. */
  function Count(ws: seq<nat>): nat {
    if ws == [] then 0 else PopCount(ws[0]) + Count(ws[1..])
  }

  /** Length of the run of ones from bit 0: the SVN counter's reading. */
  function Decode(ws: seq<nat>): nat {
    if ws == [] then 0
    else
      var t := TrailingOnes(ws[0]);
      if t < 32 then t else t + Decode(ws[1..])
  }

  predicate BitAt(ws: seq<nat>, i: nat)
    requires i < 32 * |ws|
  {
    Bit(ws[i / 32], i % 32)
  }

  function SetBit(ws: seq<nat>, i: nat): (r: seq<nat>)
    requires i < 32 * |ws|
    ensures |r| == |ws|
  {
    ws[i / 32 := Or(ws[i / 32], Pow2(i % 32))]
  }

  /** What an OR-only memory holds after `tgt` is written over `cur`. */
  function OrAll(cur: seq<nat>, tgt: seq<nat>): (r: seq<nat>)
    requires |cur| == |tgt|
    ensures |r| == |cur|
  {
    seq(|cur|, i requires 0 <= i < |cur| => Or(cur[i], tgt[i]))
  }

  ghost predicate IsThermometer(ws: seq<nat>) {
    ws == Encode(Count(ws), |ws|)
  }

  lemma {:induction false} CountBound(ws: seq<nat>)
    requires AreWords(ws)
    ensures Count(ws) <= 32 * |ws|
  {
    if ws != [] {
      PopCountBound(ws[0], 32);
      CountBound(ws[1..]);
    }
  }

  lemma EncodeWords(n: nat, len: nat)
    ensures AreWords(Encode(n, len))
  {
    forall j | 0 <= j < len
      ensures Ones(Share(n, j)) < Pow2(32)
    {
      Pow2Monotone(Share(n, j), 32);
    }
  }

  lemma CountCons(w: nat, ws: seq<nat>)
    ensures Count([w] + ws) == PopCount(w) + Count(ws)
  {
    assert ([w] + ws)[1..] == ws;
  }

  lemma {:induction false} CountEncode(n: nat, len: nat)
    requires n <= 32 * len
    ensures Count(Encode(n, len)) == n
  {
    if len > 0 {
      EncodeCons(n, len);
      CountCons(Ones(Min(n, 32)), Encode(n - Min(n, 32), len - 1));
      PopCountOnes(Min(n, 32));
      CountEncode(n - Min(n, 32), len - 1);
    }
  }

  lemma EncodeCons(n: nat, len: nat)
    requires len > 0
    ensures Encode(n, len) == [Ones(Min(n, 32))] + Encode(n - Min(n, 32), len - 1)
  {
    forall j | 1 <= j < len
      ensures Share(n, j) == Share(n - Min(n, 32), j - 1)
    {
    }
  }

  lemma EncodeBit(n: nat, len: nat, i: nat)
    requires i < 32 * len
    ensures BitAt(Encode(n, len), i) == (i < n)
  {
    OnesBit(Share(n, i / 32), i % 32);
  }

  lemma {:induction false} CountUpdate(ws: seq<nat>, j: nat, v: nat)
    requires j < |ws|
    ensures Count(ws[j := v]) == Count(ws) - PopCount(ws[j]) + PopCount(v)
  {
    if j == 0 {
      assert ws[0 := v][1..] == ws[1..];
    } else {
      CountUpdate(ws[1..], j - 1, v);
      assert ws[j := v][1..] == ws[1..][j - 1 := v];
    }
  }

  /** Setting bit i advances the count exactly when bit i was clear. */
  lemma CountSetBit(ws: seq<nat>, i: nat)
    requires i < 32 * |ws|
    ensures Count(SetBit(ws, i)) == Count(ws) + (if BitAt(ws, i) then 0 else 1)
  {
    CountUpdate(ws, i / 32, Or(ws[i / 32], Pow2(i % 32)));
    PopCountSetBit(ws[i / 32], i % 32);
  }

  lemma SetBitKeepsOthers(ws: seq<nat>, i: nat, j: nat)
    requires i < 32 * |ws| && j < 32 * |ws|
    ensures BitAt(SetBit(ws, i), j) == (BitAt(ws, j) || j == i)
  {
    if j / 32 == i / 32 {
      OrBit(ws[i / 32], Pow2(i % 32), j % 32);
      Pow2Bit(i % 32, j % 32);
    }
  }

  lemma {:induction false} Pow2Bit(i: nat, j: nat)
    ensures Bit(Pow2(i), j) == (i == j)
  {
    if i == 0 {
      if j > 0 { ZeroBit(j - 1); }
    } else if j > 0 {
      Pow2Bit(i - 1, j - 1);
    }
  }

  /** On a thermometer, setting the bit numbered by its value gives the next one. */
  lemma SetNext(n: nat, len: nat)
    requires n < 32 * len
    ensures SetBit(Encode(n, len), n) == Encode(n + 1, len)
  {
    SetNextBit(n % 32);
    assert Encode(n, len)[n / 32] == Ones(n % 32);
    assert SetBit(Encode(n, len), n) == Encode(n + 1, len);
  }

  /** Setting a bit below the value changes nothing: a burn can be repeated. */
  lemma SetOld(n: nat, len: nat, i: nat)
    requires i < n <= 32 * len
    ensures SetBit(Encode(n, len), i) == Encode(n, len)
  {
    SetOldBit(Share(n, i / 32), i % 32);
    assert SetBit(Encode(n, len), i) == Encode(n, len);
  }

  lemma {:induction false} BitsDetermineWord(a: nat, b: nat, n: nat)
    requires a < Pow2(n) && b < Pow2(n)
    requires forall i | 0 <= i < n :: Bit(a, i) == Bit(b, i)
    ensures a == b
  {
    if n > 0 {
      assert Bit(a, 0) == Bit(b, 0);
      forall i | 0 <= i < n - 1
        ensures Bit(a / 2, i) == Bit(b / 2, i)
      {
        assert Bit(a, i + 1) == Bit(b, i + 1);
      }
      BitsDetermineWord(a / 2, b / 2, n - 1);
    }
  }

  lemma BitsDetermineArray(a: seq<nat>, b: seq<nat>)
    requires |a| == |b| && AreWords(a) && AreWords(b)
    requires forall i | 0 <= i < 32 * |a| :: BitAt(a, i) == BitAt(b, i)
    ensures a == b
  {
    forall j | 0 <= j < |a|
      ensures a[j] == b[j]
    {
      forall i | 0 <= i < 32
        ensures Bit(a[j], i) == Bit(b[j], i)
      {
        var k := 32 * j + i;
        assert k / 32 == j && k % 32 == i;
        assert BitAt(a, k) == BitAt(b, k);
      }
      BitsDetermineWord(a[j], b[j], 32);
    }
  }

  /** The set bits are exactly those below the count. */
  ghost predicate PrefixOfOnes(ws: seq<nat>) {
    forall i | 0 <= i < 32 * |ws| :: BitAt(ws, i) == (i < Count(ws))
  }

  /** Being a thermometer, bit by bit. */
  lemma ThermometerBits(ws: seq<nat>)
    requires AreWords(ws)
    ensures IsThermometer(ws) <==> PrefixOfOnes(ws)
  {
    var t := Encode(Count(ws), |ws|);
    EncodeWords(Count(ws), |ws|);
    forall i | 0 <= i < 32 * |ws|
      ensures BitAt(t, i) == (i < Count(ws))
    {
      EncodeBit(Count(ws), |ws|, i);
    }
    if PrefixOfOnes(ws) {
      BitsDetermineArray(ws, t);
    }
  }

  lemma {:induction false} TrailingOnesBits(w: nat, n: nat)
    requires w < Pow2(n)
    ensures TrailingOnes(w) <= n
    ensures forall i | 0 <= i < TrailingOnes(w) :: Bit(w, i)
    ensures !Bit(w, TrailingOnes(w))
  {
    if w % 2 == 1 {
      TrailingOnesBits(w / 2, n - 1);
      forall i | 0 <= i < TrailingOnes(w)
        ensures Bit(w, i)
      {
        if i > 0 { assert Bit(w / 2, i - 1); }
      }
    }
  }

  /** Decode finds the first clear bit, or the width when every bit is set. */
  lemma {:induction false} DecodeBits(ws: seq<nat>)
    requires AreWords(ws)
    ensures Decode(ws) <= 32 * |ws|
    ensures forall i | 0 <= i < Decode(ws) :: BitAt(ws, i)
    ensures Decode(ws) < 32 * |ws| ==> !BitAt(ws, Decode(ws))
  {
    if ws != [] {
      TrailingOnesBits(ws[0], 32);
      var n := Decode(ws);
      if TrailingOnes(ws[0]) == 32 {
        DecodeBits(ws[1..]);
        if n < 32 * |ws| { TailBit(ws, n); }
      } else {
        HeadBit(ws, n);
      }
      forall i | 0 <= i < n
        ensures BitAt(ws, i)
      {
        if i >= 32 { TailBit(ws, i); } else { HeadBit(ws, i); }
      }
    }
  }

  lemma HeadBit(ws: seq<nat>, i: nat)
    requires i < 32 && ws != []
    ensures BitAt(ws, i) == Bit(ws[0], i)
  {
  }

  lemma TailBit(ws: seq<nat>, i: nat)
    requires 32 <= i < 32 * |ws|
    ensures BitAt(ws, i) == BitAt(ws[1..], i - 32)
  {
    assert (i - 32) / 32 == i / 32 - 1;
  }

  lemma DecodeUnique(ws: seq<nat>, n: nat)
    requires AreWords(ws)
    requires n <= 32 * |ws|
    requires forall i | 0 <= i < n :: BitAt(ws, i)
    requires n < 32 * |ws| ==> !BitAt(ws, n)
    ensures Decode(ws) == n
  {
    DecodeBits(ws);
  }

  /** Setting more bits never shortens the run of ones. */
  lemma DecodeMonotone(a: seq<nat>, b: seq<nat>)
    requires |a| == |b| && AreWords(a) && AreWords(b)
    requires forall i | 0 <= i < 32 * |a| :: BitAt(a, i) ==> BitAt(b, i)
    ensures Decode(a) <= Decode(b)
  {
    DecodeBits(a);
    DecodeBits(b);
  }

  lemma OrAllBit(a: seq<nat>, b: seq<nat>, i: nat)
    requires |a| == |b| && i < 32 * |a|
    ensures BitAt(OrAll(a, b), i) == (BitAt(a, i) || BitAt(b, i))
  {
    OrBit(a[i / 32], b[i / 32], i % 32);
  }
}
