/**
 Reading a byte range from OTP (romtime/src/otp.rs).  Some regions answer only 64-bit
 reads; the reader walks the range granule by granule and must agree with one flat memory.
 */
module OtpReader {
  import opened Words
  import opened Wrappers

  /** Secret partitions and digest fields. */
  predicate Is64BitGranule(b: nat) {
    || 0x40 <= b <= 0xcf
    || 0x2d0 <= b <= 0x38f
    || 0x3f0 <= b <= 0x3f7
    || 0x430 <= b <= 0x437
    || 0x790 <= b <= 0x797
    || 0x868 <= b <= 0xa77
    || 0xc78 <= b <= 0xc7f
  }

  /** A read the controller performs, by its unit address. */
  datatype Access = Word(index: nat) | Dword(index: nat)

  function GranuleSize(b: nat): nat { if Is64BitGranule(b) then 8 else 4 }

  /** The read that covers byte b. */
  function Covering(b: nat): Access {
    if Is64BitGranule(b) then Dword(b / 8) else Word(b / 4)
  }

  /** The controller's memory, and the accesses it answers with an error. */
  datatype Otp = Otp(words: seq<u32>, faulty: set<Access>)

  predicate Readable(otp: Otp, a: Access) {
    && a !in otp.faulty
    && (if a.Word? then a.index < |otp.words| else 2 * a.index + 1 < |otp.words|)
  }

  function ReadWord(otp: Otp, i: nat): u32
    requires Readable(otp, Word(i))
  {
    otp.words[i]
  }

  /** `lo | hi << 32`. */
  function ReadDword(otp: Otp, i: nat): nat
    requires Readable(otp, Dword(i))
  {
    var lo: nat, hi: nat := otp.words[2 * i], otp.words[2 * i + 1];
    lo + 0x1_0000_0000 * hi
  }

  function WordBytes(w: u32): seq<byte> {
    [ByteOf(w, 0), ByteOf(w, 1), ByteOf(w, 2), ByteOf(w, 3)]
  }

  function DwordBytes(d: nat): seq<byte>
    requires d < 0x1_0000_0000_0000_0000
  {
    WordBytes(d % 0x1_0000_0000) + WordBytes(d / 0x1_0000_0000)
  }

  /** An access never mixes granule kinds: all bytes it covers agree. */
  predicate Uniform(a: Access) {
    match a
    case Word(i) => forall b: nat | 4 * i <= b < 4 * i + 4 :: !Is64BitGranule(b)
    case Dword(i) => forall b: nat | 8 * i <= b < 8 * i + 8 :: Is64BitGranule(b)
  }

  /** The 64-bit granules, counted in granules. */
  lemma GranuleTable(b: nat)
    ensures var g := b / 8;
            Is64BitGranule(b)
            <==> 8 <= g <= 25 || 90 <= g <= 113 || g == 126 || g == 134 || g == 242 || 269 <= g <= 334 || g == 399
  {
  }

  lemma CoveringUniform(b: nat)
    ensures Uniform(Covering(b))
  {
    var a := Covering(b);
    var from, n := if a.Word? then 4 * a.index else 8 * a.index, GranuleSize(b);
    forall c: nat | from <= c < from + n
      ensures Is64BitGranule(c) == Is64BitGranule(b)
    {
      SameBlock(b, c);
    }
  }

  lemma SameBlock(b: nat, c: nat)
    requires b / 8 == c / 8
    ensures Is64BitGranule(c) == Is64BitGranule(b)
  {
    GranuleOfBlock(b);
    GranuleOfBlock(c);
  }

  /** The granule kind only depends on the 8-byte block. */
  lemma GranuleOfBlock(b: nat)
    ensures Is64BitGranule(b) == Is64BitGranule(8 * (b / 8))
  {
  }

  method ReadGranule(otp: Otp, b: nat) returns (r: Option<seq<byte>>)
    ensures r.Some? <==> Readable(otp, Covering(b))
    ensures r.Some? ==>
              && |r.value| == GranuleSize(b)
              && b - b % |r.value| + |r.value| <= 4 * |otp.words|
              && forall k | 0 <= k < |r.value| :: r.value[k] == ByteAt(otp.words, b - b % |r.value| + k)
  {
    if !Readable(otp, Covering(b)) { return None; }
    if Is64BitGranule(b) {
      r := Some(DwordBytes(DwordBound(otp, b / 8)));
      forall k | 0 <= k < 8
        ensures r.value[k] == ByteAt(otp.words, 8 * (b / 8) + k)
      {
        DwordByteAt(otp, b / 8, k);
      }
    } else {
      r := Some(WordBytes(ReadWord(otp, b / 4)));
      forall k | 0 <= k < 4
        ensures r.value[k] == ByteAt(otp.words, 4 * (b / 4) + k)
      {
        ByteInWord(otp.words, b / 4, k);
      }
    }
  }

  function DwordBound(otp: Otp, i: nat): (d: nat)
    requires Readable(otp, Dword(i))
    ensures d == ReadDword(otp, i) < 0x1_0000_0000_0000_0000
  {
    DwordSplit(otp.words[2 * i], otp.words[2 * i + 1]);
    ReadDword(otp, i)
  }

  lemma DwordByteAt(otp: Otp, i: nat, k: nat)
    requires Readable(otp, Dword(i)) && k < 8
    ensures DwordBytes(DwordBound(otp, i))[k] == ByteAt(otp.words, 8 * i + k)
  {
    DwordSplit(otp.words[2 * i], otp.words[2 * i + 1]);
    ByteInWord(otp.words, 2 * i + k / 4, k % 4);
  }

  lemma DwordSplit(lo: u32, hi: u32)
    ensures (lo + 0x1_0000_0000 * hi) % 0x1_0000_0000 == lo
    ensures (lo + 0x1_0000_0000 * hi) / 0x1_0000_0000 == hi
    ensures lo + 0x1_0000_0000 * hi < 0x1_0000_0000_0000_0000
  {
  }

  /** read_data_with: for any address and length it either fills the range with the bytes
      of the flat memory, or meets an access the controller refuses.  Every access it makes
      covers some byte of the range with the granule that byte requires. */
  method ReadDataWith(otp: Otp, addr: nat, len: nat, data: array<byte>) returns (ok: bool, ghost log: seq<Access>)
    requires len <= data.Length
    modifies data
    ensures ok <==> forall b: nat | addr <= b < addr + len :: Readable(otp, Covering(b))
    ensures ok && len > 0 ==> addr + len <= 4 * |otp.words|
    ensures ok ==> forall k | 0 <= k < len :: data[k] == ByteAt(otp.words, addr + k)
    ensures forall k | len <= k < data.Length :: data[k] == old(data[k])
    ensures forall a | a in log :: Uniform(a) && exists b: nat :: addr <= b < addr + len && a == Covering(b)
  {
    log := [];
    var offset := 0;
    while offset < len
      invariant 0 <= offset <= len
      invariant forall b: nat | addr <= b < addr + offset :: Readable(otp, Covering(b))
      invariant offset > 0 ==> addr + offset <= 4 * |otp.words|
      invariant forall k | 0 <= k < offset :: data[k] == ByteAt(otp.words, addr + k)
      invariant forall k | len <= k < data.Length :: data[k] == old(data[k])
      invariant forall a | a in log :: Uniform(a) && exists b: nat :: addr <= b < addr + len && a == Covering(b)
      decreases len - offset
    {
      var byteAddr := addr + offset;
      CoveringUniform(byteAddr);
      log := log + [Covering(byteAddr)];
      var granule := ReadGranule(otp, byteAddr);
      if granule.None? {
        assert !Readable(otp, Covering(byteAddr));
        return false, log;
      }
      var size := |granule.value|;
      var granuleOffset := byteAddr % size;
      var copyLen := Min(size - granuleOffset, len - offset);
      CopyGranule(granule.value, granuleOffset, data, offset, copyLen);
      SameGranule(byteAddr, copyLen);
      offset := offset + copyLen;
    }
    ok := true;
  }

  method CopyGranule(granule: seq<byte>, from: nat, data: array<byte>, at: nat, n: nat)
    requires from + n <= |granule| && at + n <= data.Length
    modifies data
    ensures forall k | 0 <= k < data.Length ::
      data[k] == if at <= k < at + n then granule[from + k - at] else old(data[k])
  {
    for idx := 0 to n
      invariant forall k | 0 <= k < data.Length ::
        data[k] == if at <= k < at + idx then granule[from + k - at] else old(data[k])
    {
      data[at + idx] := granule[from + idx];
    }
  }

  /** The bytes copied from one granule are all covered by the access that read it. */
  lemma SameGranule(b: nat, n: nat)
    requires b % GranuleSize(b) + n <= GranuleSize(b)
    ensures forall c: nat | b <= c < b + n :: Covering(c) == Covering(b)
  {
    forall c: nat | b <= c < b + n
      ensures Covering(c) == Covering(b)
    {
      SameBlock(b, c);
    }
  }

  datatype Error = InvalidData | ReadError

  /** read_data: the alignment and length checks in front of the walk. */
  method ReadData(otp: Otp, addr: nat, len: nat, data: array<byte>) returns (r: Result<(), Error>)
    modifies data
    ensures r == Failure(InvalidData) <==> data.Length < len || addr % 4 != 0 || len % 4 != 0
    ensures r.Success? <==> && data.Length >= len && addr % 4 == 0 && len % 4 == 0
                            && forall b: nat | addr <= b < addr + len :: Readable(otp, Covering(b))
    ensures r.Success? && len > 0 ==> addr + len <= 4 * |otp.words|
    ensures r.Success? ==> forall k | 0 <= k < len :: data[k] == ByteAt(otp.words, addr + k)
  {
    if data.Length < len || addr % 4 != 0 || len % 4 != 0 { return Failure(InvalidData); }
    var ok, log := ReadDataWith(otp, addr, len, data);
    return if ok then Success(()) else Failure(ReadError);
  }

  /** read_entry_raw: an entry's size is rounded up to whole words. */
  method ReadEntryRaw(otp: Otp, byteOffset: nat, byteSize: nat, buf: array<byte>) returns (r: Result<(), Error>)
    modifies buf
    ensures r == Failure(InvalidData) <==> buf.Length < (byteSize + 3) / 4 * 4 || byteOffset % 4 != 0
    ensures r.Success? <==> && buf.Length >= (byteSize + 3) / 4 * 4 && byteOffset % 4 == 0
                            && forall b: nat | byteOffset <= b < byteOffset + (byteSize + 3) / 4 * 4 ::
                                 Readable(otp, Covering(b))
    ensures r.Success? ==> byteSize <= buf.Length && (byteSize > 0 ==> byteOffset + byteSize <= 4 * |otp.words|)
    ensures r.Success? ==> forall k | 0 <= k < byteSize :: buf[k] == ByteAt(otp.words, byteOffset + k)
  {
    var readLen := (byteSize + 3) / 4 * 4;
    if buf.Length < readLen { return Failure(InvalidData); }
    r := ReadData(otp, byteOffset, readLen, buf);
  }
}
