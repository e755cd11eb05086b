/**
 The Caliptra-owned SVN floors (rom/src/caliptra_svn.rs): 128 fuse bits whose value is
 the run of ones from bit 0, raised by writing the thermometer of the new floor.
 */
module CaliptraSvn {
  import opened Words
  import opened Thermometer

  const CALIPTRA_SVN_BITS := 128
  const SVN_WORDS := 4

  /** encode_svn. */
  method EncodeSvn(svn: nat) returns (words: seq<nat>)
    ensures words == Encode(Min(svn, CALIPTRA_SVN_BITS), SVN_WORDS)
  {
    var n := Min(svn, CALIPTRA_SVN_BITS);
    var remaining := n;
    words := [];
    for j := 0 to SVN_WORDS
      invariant |words| == j && remaining == if n <= 32 * j then 0 else n - 32 * j
      invariant forall k | 0 <= k < j :: words[k] == Ones(Share(n, k))
    {
      var take := Min(remaining, 32);
      words := words + [Pow2(take) - 1];
      remaining := remaining - take;
    }
  }

  /** decode_svn: stop at the first word that is not all ones. */
  method DecodeSvn(words: seq<nat>) returns (total: nat)
    requires AreWords(words)
    ensures total == Decode(words)
  {
    total := 0;
    for j := 0 to |words|
      invariant total + Decode(words[j..]) == Decode(words)
    {
      var ones := TrailingOnes(words[j]);
      TrailingOnesBits(words[j], 32);
      assert words[j..][1..] == words[j + 1..];
      total := total + ones;
      if ones < 32 { return; }
    }
  }

  /** Writing a floor and reading it back. */
  lemma RoundTrip(n: nat)
    requires n <= CALIPTRA_SVN_BITS
    ensures Decode(Encode(n, SVN_WORDS)) == n && AreWords(Encode(n, SVN_WORDS))
  {
    var ws := Encode(n, SVN_WORDS);
    EncodeWords(n, SVN_WORDS);
    forall i | 0 <= i < 32 * SVN_WORDS
      ensures BitAt(ws, i) == (i < n)
    {
      EncodeBit(n, SVN_WORDS, i);
    }
    DecodeUnique(ws, n);
  }

  /** A lower floor's code lies inside a higher one's: no fuse has to go back to 0. */
  lemma EncodeMonotone(m: nat, n: nat)
    ensures OrAll(Encode(m, SVN_WORDS), Encode(n, SVN_WORDS)) == Encode(Max(m, n), SVN_WORDS)
  {
    var or := OrAll(Encode(m, SVN_WORDS), Encode(n, SVN_WORDS));
    forall j | 0 <= j < SVN_WORDS
      ensures or[j] == Ones(Share(Max(m, n), j))
    {
      OrOnes(Share(m, j), Share(n, j));
      ShareMax(m, n, j);
    }
  }

  lemma ShareMax(m: nat, n: nat, j: nat)
    ensures Max(Share(m, j), Share(n, j)) == Share(Max(m, n), j)
  {
  }

  lemma OrAllWords(a: seq<nat>, b: seq<nat>)
    requires |a| == |b| && AreWords(a) && AreWords(b)
    ensures AreWords(OrAll(a, b))
  {
    forall i | 0 <= i < |a|
      ensures Or(a[i], b[i]) < Pow2(32)
    {
      OrBound(a[i], b[i], 32);
    }
  }

  /** Raising fuses in any condition to `target` gives a floor of at least `target`, and
      exactly `target` if and only if no fuse was set at that position. */
  lemma BurnAnyFuses(cur: seq<nat>, target: nat)
    requires |cur| == SVN_WORDS && AreWords(cur) && Decode(cur) < target <= CALIPTRA_SVN_BITS
    ensures var after := OrAll(cur, Encode(target, SVN_WORDS));
            && AreWords(after) && Decode(after) >= target
            && (Decode(after) == target <==> target == CALIPTRA_SVN_BITS || !BitAt(cur, target))
  {
    var tgt := Encode(target, SVN_WORDS);
    var after := OrAll(cur, tgt);
    EncodeWords(target, SVN_WORDS);
    OrAllWords(cur, tgt);
    forall i | 0 <= i < CALIPTRA_SVN_BITS
      ensures BitAt(after, i) == (BitAt(cur, i) || i < target)
    {
      OrAllBit(cur, tgt, i);
      EncodeBit(target, SVN_WORDS, i);
    }
    DecodeBits(after);
    if target == CALIPTRA_SVN_BITS || !BitAt(cur, target) { DecodeUnique(after, target); }
  }

  /** The words after `done` of the four have been rewritten. */
  function Mixed(cur: seq<nat>, tgt: seq<nat>, done: nat): seq<nat>
    requires |cur| == |tgt| && done <= |cur|
  {
    OrAll(cur, tgt)[..done] + cur[done..]
  }

  /** A burn cut off between words leaves a thermometer between the old floor and the new. */
  lemma CutBurn(n: nat, target: nat, done: nat)
    requires n < target <= CALIPTRA_SVN_BITS && done <= SVN_WORDS
    ensures Mixed(Encode(n, SVN_WORDS), Encode(target, SVN_WORDS), done)
            == Encode(Max(n, Min(target, 32 * done)), SVN_WORDS)
  {
    EncodeMonotone(n, target);
    var m := Max(n, Min(target, 32 * done));
    forall j | 0 <= j < SVN_WORDS
      ensures Share(m, j) == if j < done then Share(target, j) else Share(n, j)
    {
    }
  }

  lemma MixedAll(cur: seq<nat>, tgt: seq<nat>)
    requires |cur| == |tgt|
    ensures Mixed(cur, tgt, |cur|) == OrAll(cur, tgt)
  {
  }

  lemma MixedBit(cur: seq<nat>, tgt: seq<nat>, done: nat, i: nat)
    requires |cur| == |tgt| && done <= |cur| && i < 32 * |cur|
    ensures BitAt(cur, i) ==> BitAt(Mixed(cur, tgt, done), i)
    ensures BitAt(Mixed(cur, tgt, done), i) ==> BitAt(OrAll(cur, tgt), i)
  {
    OrAllBit(cur, tgt, i);
  }

  lemma MixedWords(cur: seq<nat>, tgt: seq<nat>, done: nat)
    requires |cur| == |tgt| && done <= |cur| && AreWords(cur) && AreWords(tgt)
    ensures AreWords(Mixed(cur, tgt, done))
  {
    OrAllWords(cur, tgt);
  }

  /** On fuses in any condition, a burn cut off between words reads between the old floor and
      what the whole burn would read. */
  lemma CutNeverLowers(cur: seq<nat>, target: nat, done: nat)
    requires |cur| == SVN_WORDS && AreWords(cur) && done <= SVN_WORDS
    ensures var tgt := Encode(target, SVN_WORDS);
            && AreWords(Mixed(cur, tgt, done))
            && Decode(cur) <= Decode(Mixed(cur, tgt, done)) <= Decode(OrAll(cur, tgt))
  {
    var tgt := Encode(target, SVN_WORDS);
    EncodeWords(target, SVN_WORDS);
    MixedWords(cur, tgt, done);
    OrAllWords(cur, tgt);
    forall i | 0 <= i < 32 * SVN_WORDS
      ensures BitAt(cur, i) ==> BitAt(Mixed(cur, tgt, done), i)
      ensures BitAt(Mixed(cur, tgt, done), i) ==> BitAt(OrAll(cur, tgt), i)
    {
      MixedBit(cur, tgt, done, i);
    }
    DecodeMonotone(cur, Mixed(cur, tgt, done));
    DecodeMonotone(Mixed(cur, tgt, done), OrAll(cur, tgt));
  }

  /** One 128-bit floor in OTP; writing a word can only set bits. */
  class SvnFuse {
    var words: seq<nat>

    ghost predicate Valid()
      reads this
    {
      |words| == SVN_WORDS && AreWords(words)
    }

    constructor (words: seq<nat>)
      requires |words| == SVN_WORDS && AreWords(words)
      ensures Valid() && this.words == words
    {
      this.words := words;
    }

    method WriteWord(j: nat, w: nat)
      requires Valid() && j < SVN_WORDS && w < Pow2(32)
      modifies this
      ensures Valid() && words == old(words)[j := Or(old(words)[j], w)]
    {
      OrBound(words[j], w, 32);
      words := words[j := Or(words[j], w)];
    }

    /** burn_svn: refused above the width, idle at or below the floor, otherwise written
        word by word and read back. */
    method Burn(target: nat) returns (ok: bool)
      requires Valid()
      modifies this
      ensures Valid()
      ensures ok <==> target <= CALIPTRA_SVN_BITS
      ensures words == if !ok || target <= Decode(old(words)) then old(words)
                       else OrAll(old(words), Encode(target, SVN_WORDS))
      ensures ok ==> Decode(words) >= target
    {
      if target > CALIPTRA_SVN_BITS { return false; }
      var current := DecodeSvn(words);
      if target <= current { return true; }
      var tgt := EncodeSvn(target);
      EncodeWords(target, SVN_WORDS);
      BurnAnyFuses(words, target);
      MixedAll(words, tgt);
      WriteFirst(words, tgt, SVN_WORDS);
      var after := DecodeSvn(words);
      ok := after >= target;
    }

    /** burn_svn when power is lost after the first `done` words. */
    method BurnCut(target: nat, done: nat)
      requires Valid() && target <= CALIPTRA_SVN_BITS && done <= SVN_WORDS
      modifies this
      ensures Valid()
      ensures words == if target <= Decode(old(words)) then old(words)
                       else Mixed(old(words), Encode(target, SVN_WORDS), done)
    {
      var current := DecodeSvn(words);
      if target <= current { return; }
      var tgt := EncodeSvn(target);
      EncodeWords(target, SVN_WORDS);
      WriteFirst(words, tgt, done);
    }

    /** The write loop: words that already match are skipped. */
    method WriteFirst(cur: seq<nat>, tgt: seq<nat>, done: nat)
      requires Valid() && cur == words && |tgt| == SVN_WORDS && AreWords(tgt) && done <= SVN_WORDS
      modifies this
      ensures Valid() && words == Mixed(cur, tgt, done)
    {
      for j := 0 to done
        invariant Valid()
        invariant forall k | 0 <= k < SVN_WORDS :: words[k] == if k < j then Or(cur[k], tgt[k]) else cur[k]
      {
        if cur[j] != tgt[j] {
          WriteWord(j, tgt[j]);
        } else {
          OrIdempotent(cur[j]);
        }
      }
    }
  }
}
