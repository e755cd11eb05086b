/**
 Building a flash image (builder/src/flash_image.rs): a header, one info record per image,
 then the images back to back.
 */
module FlashImage {
  import opened Words
  import opened FlashFormat

  // ----- byte strings laid end to end -----

  function Joined(chunks: seq<Bytes>): Bytes {
    if chunks == [] then [] else Joined(chunks[..|chunks| - 1]) + chunks[|chunks| - 1]
  }

  /** Where chunk i starts. */
  function Offset(chunks: seq<Bytes>, i: nat): nat
    requires i <= |chunks|
  {
    if i == 0 then 0 else Offset(chunks, i - 1) + |chunks[i - 1]|
  }

  lemma {:induction false} OffsetPrefix(chunks: seq<Bytes>, k: nat, i: nat)
    requires i <= k <= |chunks|
    ensures Offset(chunks[..k], i) == Offset(chunks, i)
  {
    if i > 0 { OffsetPrefix(chunks, k, i - 1); }
  }

  lemma {:induction false} OffsetMonotone(chunks: seq<Bytes>, i: nat, j: nat)
    requires i <= j <= |chunks|
    ensures Offset(chunks, i) <= Offset(chunks, j)
  {
    if i < j { OffsetMonotone(chunks, i, j - 1); }
  }

  lemma {:induction false} JoinedLength(chunks: seq<Bytes>)
    ensures |Joined(chunks)| == Offset(chunks, |chunks|)
  {
    if chunks != [] {
      var k := |chunks| - 1;
      JoinedLength(chunks[..k]);
      OffsetPrefix(chunks, k, k);
    }
  }

  lemma {:induction false} JoinedAt(chunks: seq<Bytes>, i: nat)
    requires i < |chunks|
    ensures Offset(chunks, i) + |chunks[i]| <= |Joined(chunks)|
    ensures Joined(chunks)[Offset(chunks, i)..Offset(chunks, i) + |chunks[i]|] == chunks[i]
  {
    var k := |chunks| - 1;
    JoinedLength(chunks[..k]);
    OffsetPrefix(chunks, k, k);
    OffsetPrefix(chunks, k, i);
    if i < k { JoinedAt(chunks[..k], i); }
  }

  lemma {:induction false} EqualChunks(chunks: seq<Bytes>, n: nat, i: nat)
    requires i <= |chunks| && forall j | 0 <= j < |chunks| :: |chunks[j]| == n
    ensures Offset(chunks, i) == n * i
  {
    if i > 0 { EqualChunks(chunks, n, i - 1); }
  }

  lemma JoinedSnoc(chunks: seq<Bytes>, i: nat)
    requires i < |chunks|
    ensures Joined(chunks[..i + 1]) == Joined(chunks[..i]) + chunks[i]
  {
    assert chunks[..i + 1][..i] == chunks[..i];
  }

  lemma SliceSecond(a: Bytes, b: Bytes, c: Bytes, i: nat, n: nat)
    requires i + n <= |b|
    ensures (a + b + c)[|a| + i..|a| + i + n] == b[i..i + n]
  {
  }

  // ----- the image -----

  datatype Firmware = Firmware(identifier: u32, data: Bytes, filename: Filename)

  function DataChunks(images: seq<Firmware>): seq<Bytes> {
    seq(|images|, i requires 0 <= i < |images| => images[i].data)
  }

  /** Where image i starts; for i == |images|, the length of the whole. */
  function Start(images: seq<Firmware>, i: nat): nat
    requires i <= |images|
  {
    HEADER_SIZE + INFO_SIZE * |images| + Offset(DataChunks(images), i)
  }

  /** The 16-bit image count and 32-bit offsets of the format. */
  predicate WithinLimits(images: seq<Firmware>) {
    |images| < 0x1_0000 && Start(images, |images|) < 0x1_0000_0000
  }

  lemma StartBound(images: seq<Firmware>, i: nat)
    requires i < |images|
    ensures Start(images, i + 1) == Start(images, i) + |images[i].data| <= Start(images, |images|)
  {
    OffsetMonotone(DataChunks(images), i + 1, |images|);
  }

  /** The image regions follow each other without gaps and do not overlap. */
  lemma RegionsDisjoint(images: seq<Firmware>, i: nat, j: nat)
    requires i < j < |images|
    ensures Start(images, i + 1) == Start(images, i) + |images[i].data|
    ensures Start(images, i) + |images[i].data| <= Start(images, j)
    ensures Start(images, j) + |images[j].data| <= Start(images, |images|)
  {
    OffsetMonotone(DataChunks(images), i + 1, j);
    StartBound(images, j);
  }

  function SealedInfo(info: ImageHeader): ImageHeader {
    info.(headerChecksum := Checksum(InfoBytes(info.(headerChecksum := 0))[..INFO_CHECKSUM_AT]))
  }

  function Unsealed(images: seq<Firmware>, i: nat): ImageHeader
    requires WithinLimits(images) && i < |images|
  {
    StartBound(images, i);
    ImageHeader(images[i].identifier, Start(images, i), |images[i].data|, images[i].filename,
                Checksum(images[i].data), 0)
  }

  function Info(images: seq<Firmware>, i: nat): ImageHeader
    requires WithinLimits(images) && i < |images|
  {
    SealedInfo(Unsealed(images, i))
  }

  function InfoChunks(images: seq<Firmware>): (chunks: seq<Bytes>)
    requires WithinLimits(images)
    ensures |chunks| == |images| && forall i | 0 <= i < |chunks| :: |chunks[i]| == INFO_SIZE
  {
    seq(|images|, i requires 0 <= i < |images| => InfoBytes(Info(images, i)))
  }

  function SealedHeader(count: u16): FlashHeader {
    var h := FlashHeader(HEADER_VERSION, count, HEADER_SIZE, 0);
    h.(checksum := Checksum(HeaderBytes(h)[..HEADER_CHECKSUM_AT]))
  }

  function Image(images: seq<Firmware>): Bytes
    requires WithinLimits(images)
  {
    HeaderBytes(SealedHeader(|images|)) + Joined(InfoChunks(images)) + Joined(DataChunks(images))
  }

  /** generate_image_info: one pass with a running 32-bit offset. */
  method GenerateImageInfo(images: seq<Firmware>) returns (infos: seq<ImageHeader>)
    requires WithinLimits(images)
    ensures |infos| == |images| && forall i | 0 <= i < |images| :: infos[i] == Info(images, i)
  {
    infos := [];
    OffsetMonotone(DataChunks(images), 0, |images|);
    var offset: u32 := HEADER_SIZE + INFO_SIZE * |images|;
    for i := 0 to |images|
      invariant offset == Start(images, i)
      invariant |infos| == i && forall j | 0 <= j < i :: infos[j] == Info(images, j)
    {
      StartBound(images, i);
      var data := images[i].data;
      var imageChecksum := CalculateChecksum(data);
      var header := ImageHeader(images[i].identifier, offset, |data|, images[i].filename, imageChecksum, 0);
      var headerChecksum := CalculateChecksum(InfoBytes(header)[..INFO_CHECKSUM_AT]);
      infos := infos + [header.(headerChecksum := headerChecksum)];
      offset := offset + |data|;
    }
  }

  method Append(front: Bytes, chunks: seq<Bytes>) returns (bytes: Bytes)
    ensures bytes == front + Joined(chunks)
  {
    bytes := front;
    for i := 0 to |chunks|
      invariant bytes == front + Joined(chunks[..i])
    {
      JoinedSnoc(chunks, i);
      bytes := bytes + chunks[i];
    }
    assert chunks[..|chunks|] == chunks;
  }

  /** FlashImage::new followed by to_bytes. */
  method BuildImage(images: seq<Firmware>) returns (bytes: Bytes)
    requires WithinLimits(images)
    ensures bytes == Image(images)
  {
    var infos := GenerateImageInfo(images);
    var header := FlashHeader(HEADER_VERSION, |infos|, HEADER_SIZE, 0);
    var checksum := CalculateChecksum(HeaderBytes(header)[..HEADER_CHECKSUM_AT]);
    header := header.(checksum := checksum);
    bytes := HeaderBytes(header);
    var infoChunks := seq(|infos|, i requires 0 <= i < |infos| => InfoBytes(infos[i]));
    assert infoChunks == InfoChunks(images);
    bytes := Append(bytes, infoChunks);
    bytes := Append(bytes, DataChunks(images));
  }

  // ----- where things are -----

  lemma ImageLength(images: seq<Firmware>)
    requires WithinLimits(images)
    ensures |Joined(InfoChunks(images))| == INFO_SIZE * |images|
    ensures |Image(images)| == Start(images, |images|)
  {
    JoinedLength(InfoChunks(images));
    EqualChunks(InfoChunks(images), INFO_SIZE, |images|);
    JoinedLength(DataChunks(images));
  }

  function InfoAt(i: nat): nat { HEADER_SIZE + INFO_SIZE * i }

  lemma SecondChunk(head: Bytes, chunks: seq<Bytes>, tail: Bytes, n: nat, i: nat)
    requires i < |chunks| && forall j | 0 <= j < |chunks| :: |chunks[j]| == n
    ensures var b := head + Joined(chunks) + tail;
            |head| + n * i + n <= |b| && b[|head| + n * i..|head| + n * i + n] == chunks[i]
  {
    EqualChunks(chunks, n, i);
    JoinedAt(chunks, i);
    SliceSecond(head, Joined(chunks), tail, n * i, n);
  }

  lemma ImageInfo(images: seq<Firmware>, rest: Bytes, i: nat)
    requires WithinLimits(images) && i < |images|
    ensures var b := Image(images) + rest;
            InfoAt(i) + INFO_SIZE <= |b| && b[InfoAt(i)..InfoAt(i) + INFO_SIZE] == InfoChunks(images)[i]
  {
    var head := HeaderBytes(SealedHeader(|images|));
    var tail := Joined(DataChunks(images)) + rest;
    SecondChunk(head, InfoChunks(images), tail, INFO_SIZE, i);
    JoinAgain(head, Joined(InfoChunks(images)), Joined(DataChunks(images)), rest);
  }

  lemma JoinAgain(a: Bytes, b: Bytes, c: Bytes, d: Bytes)
    ensures a + b + c + d == a + b + (c + d)
  {
  }

  lemma ImageData(images: seq<Firmware>, rest: Bytes, i: nat)
    requires WithinLimits(images) && i < |images|
    ensures var b := Image(images) + rest;
            && Start(images, i) + |images[i].data| <= |Image(images)|
            && b[Start(images, i)..Start(images, i) + |images[i].data|] == images[i].data
  {
    ImageLength(images);
    JoinedAt(DataChunks(images), i);
    LastSlice(HeaderBytes(SealedHeader(|images|)), Joined(InfoChunks(images)), Joined(DataChunks(images)), rest,
              Offset(DataChunks(images), i), images[i].data);
  }

  lemma LastSlice(a: Bytes, b: Bytes, c: Bytes, d: Bytes, i: nat, part: Bytes)
    requires i + |part| <= |c| && c[i..i + |part|] == part
    ensures (a + b + c + d)[|a| + |b| + i..|a| + |b| + i + |part|] == part
  {
    SliceSecond(a + b, c, d, i, |part|);
  }

  lemma ImageHead(images: seq<Firmware>, rest: Bytes)
    requires WithinLimits(images)
    ensures var b := Image(images) + rest;
            |b| >= HEADER_SIZE && b[..HEADER_SIZE] == HeaderBytes(SealedHeader(|images|))
  {
  }
}
