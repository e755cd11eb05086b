/** The on-flash headers (common/flash-image/src/lib.rs): little-endian, checksum last. */
module FlashFormat {
  import opened Words

  type Bytes = seq<byte>

  const HEADER_SIZE := 12
  const INFO_SIZE := 84
  const FILENAME_SIZE := 64
  const HEADER_CHECKSUM_AT := 8
  const INFO_CHECKSUM_AT := 80
  const HEADER_VERSION := 3

  type u16 = x: int | 0 <= x < 0x1_0000

  type Filename = f: Bytes | |f| == FILENAME_SIZE witness seq(64, _ => 0)

  datatype FlashHeader = FlashHeader(version: u16, imageCount: u16, headersOffset: u32, checksum: u32)

  datatype ImageHeader = ImageHeader(
    identifier: u32, offset: u32, size: u32, filename: Filename, imageChecksum: u32, headerChecksum: u32)

  function Put16(n: u16): Bytes { [n % 0x100, n / 0x100] }

  function Get16(b: Bytes, at: nat): u16
    requires at + 2 <= |b|
  {
    var lo: int, hi: int := b[at], b[at + 1];
    lo + 0x100 * hi
  }

  function Put32(w: u32): Bytes { seq(4, k requires 0 <= k < 4 => ByteOf(w, k)) }

  function Get32(b: Bytes, at: nat): u32
    requires at + 4 <= |b|
  {
    FromBytes(b[at], b[at + 1], b[at + 2], b[at + 3])
  }

  function HeaderBytes(h: FlashHeader): (b: Bytes)
    ensures |b| == HEADER_SIZE
  {
    Put16(h.version) + Put16(h.imageCount) + Put32(h.headersOffset) + Put32(h.checksum)
  }

  function ParseHeader(b: Bytes): FlashHeader
    requires |b| == HEADER_SIZE
  {
    FlashHeader(Get16(b, 0), Get16(b, 2), Get32(b, 4), Get32(b, 8))
  }

  function InfoBytes(i: ImageHeader): (b: Bytes)
    ensures |b| == INFO_SIZE
  {
    Put32(i.identifier) + Put32(i.offset) + Put32(i.size) + i.filename
    + Put32(i.imageChecksum) + Put32(i.headerChecksum)
  }

  function ParseInfo(b: Bytes): ImageHeader
    requires |b| == INFO_SIZE
  {
    ImageHeader(Get32(b, 0), Get32(b, 4), Get32(b, 8), b[12..76], Get32(b, 76), Get32(b, 80))
  }

  lemma Get32Put32(b: Bytes, at: nat, w: u32)
    requires at + 4 <= |b| && b[at..at + 4] == Put32(w)
    ensures Get32(b, at) == w
  {
    var s := b[at..at + 4];
    assert b[at] == s[0] && b[at + 1] == s[1] && b[at + 2] == s[2] && b[at + 3] == s[3];
    WordRoundTrip(w);
  }

  lemma Put32Get32(b: Bytes, at: nat)
    requires at + 4 <= |b|
    ensures Put32(Get32(b, at)) == b[at..at + 4]
  {
    BytesRoundTrip(b[at], b[at + 1], b[at + 2], b[at + 3]);
  }

  lemma Put16Get16(b: Bytes, at: nat)
    requires at + 2 <= |b|
    ensures Put16(Get16(b, at)) == b[at..at + 2]
  {
  }

  lemma Get16Put16(b: Bytes, at: nat, n: u16)
    requires at + 2 <= |b| && b[at..at + 2] == Put16(n)
    ensures Get16(b, at) == n
  {
    var s := b[at..at + 2];
    assert b[at] == s[0] && b[at + 1] == s[1];
  }

  lemma First(f: Bytes, c: Bytes)
    ensures (f + c)[0..|f|] == f
  {
  }

  /** A field keeps its place behind what is put in front and before what follows. */
  lemma Middle(a: Bytes, f: Bytes, c: Bytes)
    ensures (a + f + c)[|a|..|a| + |f|] == f
  {
  }

  lemma Longer(b: Bytes, c: Bytes, at: nat, n: nat)
    requires at + n <= |b|
    ensures (b + c)[at..at + n] == b[at..at + n]
  {
  }

  lemma HeaderRoundTrip(h: FlashHeader)
    ensures ParseHeader(HeaderBytes(h)) == h
  {
    var v, n, o, c := Put16(h.version), Put16(h.imageCount), Put32(h.headersOffset), Put32(h.checksum);
    var b := HeaderBytes(h);
    First(v, n);
    Longer(v + n, o, 0, 2);
    Longer(v + n + o, c, 0, 2);
    Get16Put16(b, 0, h.version);
    Middle(v, n, o);
    Longer(v + n + o, c, 2, 2);
    Get16Put16(b, 2, h.imageCount);
    Middle(v + n, o, c);
    Get32Put32(b, 4, h.headersOffset);
    Middle(v + n + o, c, []);
    assert b + [] == b;
    Get32Put32(b, 8, h.checksum);
  }

  lemma InfoIdentifier(i: ImageHeader)
    ensures InfoBytes(i)[0..4] == Put32(i.identifier)
  {
  }

  lemma InfoOffset(i: ImageHeader)
    ensures InfoBytes(i)[4..8] == Put32(i.offset)
  {
  }

  lemma InfoSize(i: ImageHeader)
    ensures InfoBytes(i)[8..12] == Put32(i.size)
  {
  }

  lemma InfoFilename(i: ImageHeader)
    ensures InfoBytes(i)[12..76] == i.filename
  {
  }

  lemma InfoImageChecksum(i: ImageHeader)
    ensures InfoBytes(i)[76..80] == Put32(i.imageChecksum)
  {
  }

  lemma InfoHeaderChecksum(i: ImageHeader)
    ensures InfoBytes(i)[80..84] == Put32(i.headerChecksum)
  {
  }

  lemma InfoRoundTrip(i: ImageHeader)
    ensures ParseInfo(InfoBytes(i)) == i
  {
    var b := InfoBytes(i);
    InfoIdentifier(i);
    Get32Put32(b, 0, i.identifier);
    InfoOffset(i);
    Get32Put32(b, 4, i.offset);
    InfoSize(i);
    Get32Put32(b, 8, i.size);
    InfoFilename(i);
    InfoImageChecksum(i);
    Get32Put32(b, 76, i.imageChecksum);
    InfoHeaderChecksum(i);
    Get32Put32(b, 80, i.headerChecksum);
  }

  /** The number four bytes spell, least significant first. */
  function Number(b: Bytes, at: nat): nat
    requires at + 4 <= |b|
  {
    var b0: nat, b1: nat, b2: nat, b3: nat := b[at], b[at + 1], b[at + 2], b[at + 3];
    b0 + 0x100 * b1 + 0x1_0000 * b2 + 0x100_0000 * b3
  }

  lemma NumberPut32(b: Bytes, at: nat, w: u32)
    requires at + 4 <= |b| && b[at..at + 4] == Put32(w)
    ensures Number(b, at) == w
  {
    var s := b[at..at + 4];
    assert b[at] == s[0] && b[at + 1] == s[1] && b[at + 2] == s[2] && b[at + 3] == s[3];
    ByteValue(w);
  }

  /** Where each header field lies on flash. */
  lemma HeaderLayout(h: FlashHeader)
    ensures var b := HeaderBytes(h);
            && |b| == 12
            && b[0] == h.version % 0x100 && b[1] == h.version / 0x100
            && b[2] == h.imageCount % 0x100 && b[3] == h.imageCount / 0x100
            && Number(b, 4) == h.headersOffset && Number(b, 8) == h.checksum
  {
    var v, n, o, c := Put16(h.version), Put16(h.imageCount), Put32(h.headersOffset), Put32(h.checksum);
    var b := HeaderBytes(h);
    Middle(v + n, o, c);
    NumberPut32(b, 4, h.headersOffset);
    Middle(v + n + o, c, []);
    assert b + [] == b;
    NumberPut32(b, 8, h.checksum);
  }

  /** Where each field of an image record lies on flash. */
  lemma InfoLayout(i: ImageHeader)
    ensures var b := InfoBytes(i);
            && |b| == 84
            && Number(b, 0) == i.identifier && Number(b, 4) == i.offset && Number(b, 8) == i.size
            && b[12..76] == i.filename
            && Number(b, 76) == i.imageChecksum && Number(b, 80) == i.headerChecksum
  {
    var b := InfoBytes(i);
    InfoIdentifier(i);
    NumberPut32(b, 0, i.identifier);
    InfoOffset(i);
    NumberPut32(b, 4, i.offset);
    InfoSize(i);
    NumberPut32(b, 8, i.size);
    InfoFilename(i);
    InfoImageChecksum(i);
    NumberPut32(b, 76, i.imageChecksum);
    InfoHeaderChecksum(i);
    NumberPut32(b, 80, i.headerChecksum);
  }

  lemma HeaderBytesParsed(b: Bytes)
    requires |b| == HEADER_SIZE
    ensures HeaderBytes(ParseHeader(b)) == b
  {
    Put32Get32(b, 4);
    Put32Get32(b, 8);
    Put16Get16(b, 0);
    Put16Get16(b, 2);
    assert b == b[0..2] + b[2..4] + b[4..8] + b[8..12];
  }

  lemma InfoBytesParsed(b: Bytes)
    requires |b| == INFO_SIZE
    ensures InfoBytes(ParseInfo(b)) == b
  {
    Put32Get32(b, 0);
    Put32Get32(b, 4);
    Put32Get32(b, 8);
    Put32Get32(b, 76);
    Put32Get32(b, 80);
    assert b == b[0..4] + b[4..8] + b[8..12] + b[12..76] + b[76..80] + b[80..84];
  }

  // ----- the checksum -----

  function Sum(b: Bytes): nat {
    if b == [] then 0 else Sum(b[..|b| - 1]) + b[|b| - 1]
  }

  /** calculate_checksum: minus the byte sum, in 32 bits. */
  function Checksum(b: Bytes): u32 {
    (0x1_0000_0000 - Sum(b) % 0x1_0000_0000) % 0x1_0000_0000
  }

  /** The fold with wrapping additions computes it. */
  method CalculateChecksum(b: Bytes) returns (c: u32)
    ensures c == Checksum(b)
  {
    var sum: u32 := 0;
    for i := 0 to |b|
      invariant sum == Sum(b[..i]) % 0x1_0000_0000
    {
      assert b[..i + 1][..i] == b[..i];
      sum := (sum + b[i]) % 0x1_0000_0000;
    }
    assert b[..|b|] == b;
    c := (0x1_0000_0000 - sum) % 0x1_0000_0000;
  }

  lemma {:induction false} SumUpdate(b: Bytes, p: nat, v: byte)
    requires p < |b|
    ensures Sum(b[p := v]) == Sum(b) - b[p] + v
  {
    var n := |b| - 1;
    if p == n {
      assert b[p := v][..n] == b[..n];
    } else {
      assert b[p := v][..n] == b[..n][p := v];
      SumUpdate(b[..n], p, v);
    }
  }

  /** The bytes and their checksum add up to zero. */
  lemma ChecksumCancels(b: Bytes)
    ensures (Sum(b) + Checksum(b)) % 0x1_0000_0000 == 0
  {
    var r := Sum(b) % 0x1_0000_0000;
    if r > 0 { assert Checksum(b) == 0x1_0000_0000 - r; }
  }

  lemma ChecksumIff(b: Bytes, c: u32)
    ensures Checksum(b) == c <==> (Sum(b) + c) % 0x1_0000_0000 == 0
  {
    ChecksumCancels(b);
    OneCancels(Sum(b), Checksum(b), c);
  }

  lemma OneCancels(sum: nat, x: u32, c: u32)
    requires (sum + x) % 0x1_0000_0000 == 0
    ensures x == c <==> (sum + c) % 0x1_0000_0000 == 0
  {
    if (sum + c) % 0x1_0000_0000 == 0 {
      var p, q := (sum + x) / 0x1_0000_0000, (sum + c) / 0x1_0000_0000;
      assert x - c == 0x1_0000_0000 * (p - q);
    }
  }

  /** Changing one byte always changes the checksum. */
  lemma ChecksumDetects(b: Bytes, p: nat, v: byte)
    requires p < |b| && v != b[p]
    ensures Checksum(b[p := v]) != Checksum(b)
  {
    SumUpdate(b, p, v);
  }

  /** Changing one byte of a stored word changes the word. */
  lemma WordDetects(b: Bytes, at: nat, p: nat, v: byte)
    requires at <= p < at + 4 <= |b| && v != b[p]
    ensures Get32(b[p := v], at) != Get32(b, at)
  {
    Put32Get32(b, at);
    Put32Get32(b[p := v], at);
    assert b[p := v][at..at + 4][p - at] == v;
    assert b[at..at + 4][p - at] == b[p];
  }
}
