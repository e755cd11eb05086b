/**
 How a counter is laid out in one 32-bit fuse word (romtime/src/fuse_layout.rs): each
 counting bit is stored as `dupe` copies, and counts when enough copies read as 1.
 */
module FuseLayout {
  import opened Words
  import opened Wrappers

  datatype Layout =
    | Single(bits: nat)
    | OneHot(bits: nat)
    | OneHotMajority(bits: nat, dupe: nat)
    | OneHotOr(bits: nat, dupe: nat)
    | Unsupported

  /** bit_count_bits: the largest value a counter can hold, 0 if it is not a counter. */
  function CountBits(l: Layout): nat {
    match l
    case OneHot(b) => b
    case OneHotMajority(b, _) => b
    case OneHotOr(b, _) => b
    case _ => 0
  }

  function Copies(l: Layout): nat {
    match l
    case OneHotMajority(_, d) => d
    case OneHotOr(_, d) => d
    case _ => 1
  }

  /** Copies that must read as 1 for the bit to count. */
  function Quorum(l: Layout): nat {
    if l.OneHotMajority? then (l.dupe + 1) / 2 else 1
  }

  /** The layouts that fit one word; the others make every read fail.  Thirty-two copies are
      left out: building their mask shifts a word by its width. */
  predicate Fits(l: Layout) {
    match l
    case Single(b) => 1 <= b <= 32
    case OneHot(b) => 1 <= b <= 32
    case OneHotMajority(b, d) => 1 <= b && 1 <= d < 32 && b * d <= 32
    case OneHotOr(b, d) => 1 <= b && 1 <= d < 32 && b * d <= 32
    case Unsupported => false
  }

  /** `w & ((1 << d) - 1)`. */
  function Low(w: nat, d: nat): nat {
    if d == 0 then 0 else w % 2 + 2 * Low(w / 2, d - 1)
  }

  /** `w >> d`. */
  function High(w: nat, d: nat): nat {
    if d == 0 then w else High(w / 2, d - 1)
  }

  /** `lo | hi << d`, for a lo of at most d bits. */
  function Join(lo: nat, hi: nat, d: nat): nat {
    if d == 0 then hi else lo % 2 + 2 * Join(lo / 2, hi, d - 1)
  }

  /** Counting bits set among the lowest `bits` groups of d copies. */
  function Groups(bits: nat, d: nat, w: nat, quorum: nat): nat {
    if bits == 0 then 0
    else (if PopCount(Low(w, d)) >= quorum then 1 else 0) + Groups(bits - 1, d, High(w, d), quorum)
  }

  /** write_majority_vote_u32: every bit of v repeated d times. */
  function Repeated(bits: nat, d: nat, v: nat): nat {
    if bits == 0 then 0
    else Join(if v % 2 == 1 then Ones(d) else 0, Repeated(bits - 1, d, v / 2), d)
  }

  /** extract_single_fuse_value. */
  function Extract(l: Layout, raw: nat): Option<nat> {
    if !Fits(l) then None
    else if l.Single? then Some(Low(raw, l.bits))
    else if l.OneHot? then Some(PopCount(Low(raw, l.bits)))
    else Some(Groups(l.bits, l.dupe, raw, Quorum(l)))
  }

  /** write_single_fuse_value. */
  function Encode(l: Layout, v: nat): Option<nat> {
    match l
    case Single(_) => Some(v)
    case OneHot(_) => if v > 32 then None else Some(Ones(v))
    case Unsupported => None
    case _ => if v > 32 || !Fits(l) then None else Some(Repeated(l.bits, l.dupe, Ones(v)))
  }

  /** Low and High are the remainder and quotient by a power of two. */
  lemma {:induction false} LowHighSplit(w: nat, d: nat)
    ensures w == Low(w, d) + Shl(High(w, d), d) && Low(w, d) < Pow2(d)
  {
    if d > 0 { LowHighSplit(w / 2, d - 1); }
  }

  lemma {:induction false} LowAll(v: nat, b: nat)
    requires v < Pow2(b)
    ensures Low(v, b) == v
  {
    if b > 0 { LowAll(v / 2, b - 1); }
  }

  /** Without counting bits: every value that fits 1 to 32 bits reads back, other widths never read. */
  lemma SingleReads(b: nat, v: nat)
    requires v < Pow2(b)
    ensures Encode(Single(b), v).Some?
    ensures Extract(Single(b), Encode(Single(b), v).value) == if 1 <= b <= 32 then Some(v) else None
  {
    LowAll(v, b);
  }

  /** One counting bit: by majority it reads as set when at least half its copies are, by OR when
      any is. */
  lemma OneBitReads(raw: nat, d: nat)
    requires 1 <= d < 32
    ensures Extract(OneHotMajority(1, d), raw) == Some(if 2 * PopCount(Low(raw, d)) >= d then 1 else 0)
    ensures Extract(OneHotOr(1, d), raw) == Some(if Low(raw, d) != 0 then 1 else 0)
  {
    PopCountPositive(Low(raw, d));
    GroupsOne(d, raw, (d + 1) / 2);
    GroupsOne(d, raw, 1);
  }

  lemma GroupsOne(d: nat, w: nat, q: nat)
    ensures Groups(1, d, w, q) == if PopCount(Low(w, d)) >= q then 1 else 0
  {
    assert Groups(0, d, High(w, d), q) == 0;
  }

  lemma {:induction false} PopCountPositive(w: nat)
    ensures PopCount(w) >= 1 <==> w != 0
  {
    if w > 1 { PopCountPositive(w / 2); }
  }

  lemma {:induction false} OrHigh(a: nat, b: nat, d: nat)
    ensures High(Or(a, b), d) == Or(High(a, d), High(b, d))
  {
    if d > 0 {
      OrStep(a, b);
      OrHigh(a / 2, b / 2, d - 1);
    }
  }

  lemma {:induction false} OrLow(a: nat, b: nat, d: nat)
    ensures Low(Or(a, b), d) == Or(Low(a, d), Low(b, d))
  {
    if d > 0 {
      OrStep(a, b);
      OrLow(a / 2, b / 2, d - 1);
      OrDouble(a % 2, b % 2, Low(a / 2, d - 1), Low(b / 2, d - 1));
    }
  }

  lemma OrDouble(x: nat, y: nat, a: nat, b: nat)
    requires x < 2 && y < 2
    ensures Or(x + 2 * a, y + 2 * b) == Max(x, y) + 2 * Or(a, b)
  {
    OrStep(x + 2 * a, y + 2 * b);
  }

  lemma {:induction false} JoinParts(lo: nat, hi: nat, d: nat)
    requires lo < Pow2(d)
    ensures Low(Join(lo, hi, d), d) == lo && High(Join(lo, hi, d), d) == hi
  {
    if d > 0 { JoinParts(lo / 2, hi, d - 1); }
  }

  lemma LowStep(w: nat, d: nat)
    requires d > 0
    ensures Low(w, d) % 2 == w % 2 && Low(w, d) / 2 == Low(w / 2, d - 1)
  {
    DivModUnique(Low(w, d), 2, Low(w / 2, d - 1), w % 2);
  }

  lemma {:induction false} PartsDetermine(a: nat, b: nat, d: nat)
    requires Low(a, d) == Low(b, d) && High(a, d) == High(b, d)
    ensures a == b
  {
    if d > 0 {
      LowStep(a, d);
      LowStep(b, d);
      PartsDetermine(a / 2, b / 2, d - 1);
    }
  }

  function Less(v: nat): nat { if v == 0 then 0 else v - 1 }

  /** The lowest v of `bits` groups all ones, the others zero. */
  function Bars(bits: nat, d: nat, v: nat): nat {
    if bits == 0 then 0 else Join(if v > 0 then Ones(d) else 0, Bars(bits - 1, d, Less(v)), d)
  }

  lemma {:induction false} RepeatedOnes(bits: nat, d: nat, v: nat)
    ensures Repeated(bits, d, Ones(v)) == Bars(bits, d, v)
  {
    if bits > 0 {
      assert Ones(v) / 2 == Ones(Less(v));
      RepeatedOnes(bits - 1, d, Less(v));
    }
  }

  lemma BarsGroup(bits: nat, d: nat, v: nat)
    requires bits > 0
    ensures Low(Bars(bits, d, v), d) == (if v > 0 then Ones(d) else 0)
    ensures High(Bars(bits, d, v), d) == Bars(bits - 1, d, Less(v))
  {
    JoinParts(if v > 0 then Ones(d) else 0, Bars(bits - 1, d, Less(v)), d);
  }

  lemma {:induction false} GroupsOfBars(bits: nat, d: nat, v: nat, quorum: nat)
    requires v <= bits && 1 <= quorum <= d
    ensures Groups(bits, d, Bars(bits, d, v), quorum) == v
  {
    if bits > 0 {
      BarsGroup(bits, d, v);
      PopCountOnes(d);
      GroupsOfBars(bits - 1, d, Less(v), quorum);
    }
  }

  lemma {:induction false} OrBars(bits: nat, d: nat, u: nat, v: nat)
    ensures Or(Bars(bits, d, u), Bars(bits, d, v)) == Bars(bits, d, Max(u, v))
  {
    if bits > 0 {
      var a, b := Bars(bits, d, u), Bars(bits, d, v);
      OrLow(a, b, d);
      OrHigh(a, b, d);
      BarsGroup(bits, d, u);
      BarsGroup(bits, d, v);
      BarsGroup(bits, d, Max(u, v));
      OrIdempotent(Ones(d));
      OrBars(bits - 1, d, Less(u), Less(v));
      PartsDetermine(Or(a, b), Bars(bits, d, Max(u, v)), d);
    }
  }

  lemma {:induction false} GroupsMonotone(bits: nat, d: nat, a: nat, b: nat, quorum: nat)
    ensures Groups(bits, d, Or(a, b), quorum) >= Groups(bits, d, a, quorum)
    ensures Groups(bits, d, Or(a, b), quorum) >= Groups(bits, d, b, quorum)
  {
    if bits > 0 {
      OrLow(a, b, d);
      OrHigh(a, b, d);
      PopCountMonotone(Low(a, d), Low(b, d));
      GroupsMonotone(bits - 1, d, High(a, d), High(b, d), quorum);
    }
  }

  lemma {:induction false} OneHotIsUndoubled(bits: nat, w: nat)
    ensures PopCount(Low(w, bits)) == Groups(bits, 1, w, 1)
  {
    if bits > 0 {
      OneHotIsUndoubled(bits - 1, w / 2);
      SingleCopy(w, 1);
      PopCountLow(w, bits);
    }
  }

  lemma SingleCopy(w: nat, d: nat)
    requires d == 1
    ensures Low(w, d) == w % 2 && High(w, d) == w / 2 && PopCount(w % 2) == w % 2
  {
    assert Low(w / 2, d - 1) == 0 && High(w / 2, d - 1) == w / 2;
  }

  lemma PopCountLow(w: nat, n: nat)
    requires n > 0
    ensures PopCount(Low(w, n)) == w % 2 + PopCount(Low(w / 2, n - 1))
  {
    var lo := Low(w, n);
    LowStep(w, n);
    assert PopCount(lo) == lo % 2 + PopCount(lo / 2);
  }

  lemma JoinOne(lo: nat, hi: nat, d: nat)
    requires lo < 2 && d == 1
    ensures Join(lo, hi, d) == lo + 2 * hi
  {
  }

  lemma {:induction false} OnesIsUndoubled(bits: nat, d: nat, v: nat)
    requires v <= bits && d == 1
    ensures Bars(bits, d, v) == Ones(v)
  {
    if bits > 0 {
      OnesIsUndoubled(bits - 1, d, Less(v));
      JoinOne(if v > 0 then Ones(d) else 0, Ones(Less(v)), d);
    }
  }

  predicate IsCounter(l: Layout) { Fits(l) && !l.Single? }

  /** Every counting layout is one repetition code. */
  lemma AsGroups(l: Layout, raw: nat, v: nat)
    requires IsCounter(l) && v <= CountBits(l)
    ensures CountBits(l) <= 32 && 1 <= Quorum(l) <= Copies(l)
    ensures Extract(l, raw) == Some(Groups(CountBits(l), Copies(l), raw, Quorum(l)))
    ensures Encode(l, v) == Some(Bars(CountBits(l), Copies(l), v))
  {
    if l.OneHot? {
      OneHotIsUndoubled(l.bits, raw);
      OnesIsUndoubled(l.bits, 1, v);
    } else {
      MultipleAtLeast(l.bits, l.dupe);
      RepeatedOnes(l.bits, l.dupe, v);
    }
  }

  /** A word written with u and then with v reads as the larger, and is what writing the
      larger alone would have left. */
  lemma BurnTakesMax(l: Layout, u: nat, v: nat)
    requires IsCounter(l) && u <= CountBits(l) && v <= CountBits(l)
    ensures Encode(l, u).Some? && Encode(l, v).Some?
    ensures Encode(l, Max(u, v)) == Some(Or(Encode(l, u).value, Encode(l, v).value))
    ensures Extract(l, Encode(l, v).value) == Some(v)
  {
    AsGroups(l, 0, u);
    AsGroups(l, Encode(l, v).value, v);
    AsGroups(l, 0, Max(u, v));
    OrBars(CountBits(l), Copies(l), u, v);
    GroupsOfBars(CountBits(l), Copies(l), v, Quorum(l));
  }

  /** Whatever the word held, writing v never lowers the reading and brings it to at least v. */
  lemma BurnNeverLowers(l: Layout, raw: nat, v: nat)
    requires IsCounter(l) && v <= CountBits(l)
    ensures Encode(l, v).Some? && Extract(l, raw).Some?
    ensures var after := Extract(l, Or(raw, Encode(l, v).value));
            after.Some? && after.value >= Max(Extract(l, raw).value, v)
  {
    AsGroups(l, raw, v);
    var code := Encode(l, v).value;
    AsGroups(l, Or(raw, code), v);
    GroupsMonotone(CountBits(l), Copies(l), raw, code, Quorum(l));
    GroupsOfBars(CountBits(l), Copies(l), v, Quorum(l));
  }
}
