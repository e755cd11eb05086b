/** The builder's own verifier, against what was built and against corruption. */
module FlashVerify {
  import opened Words
  import opened FlashFormat
  import opened FlashImage

  /** An out-of-range slice stops the verifier with a panic. */
  datatype Verdict = Valid | Rejected | Panics

  predicate HeaderOk(b: Bytes) {
    && |b| >= HEADER_SIZE
    && ParseHeader(b[..HEADER_SIZE]).version == HEADER_VERSION
    && Checksum(b[..HEADER_CHECKSUM_AT]) == Get32(b, HEADER_CHECKSUM_AT)
  }

  function Table(b: Bytes): FlashHeader
    requires |b| >= HEADER_SIZE
  {
    ParseHeader(b[..HEADER_SIZE])
  }

  /** The verdict on the info record at this address, Valid if the loop goes on. */
  function CheckRecord(b: Bytes, at: nat): Verdict {
    if at + INFO_SIZE > |b| then Panics
    else CheckInfo(b, at, ParseInfo(b[at..at + INFO_SIZE]))
  }

  function CheckInfo(b: Bytes, at: nat, info: ImageHeader): Verdict
    requires at + INFO_SIZE <= |b|
  {
    if info.offset + info.size > |b| then Panics
    else if Checksum(b[info.offset..info.offset + info.size]) != info.imageChecksum then Rejected
    else if Checksum(b[at..at + INFO_CHECKSUM_AT]) != info.headerChecksum then Rejected
    else Valid
  }

  function RecordAt(b: Bytes, i: nat): nat
    requires |b| >= HEADER_SIZE
  {
    Table(b).headersOffset + INFO_SIZE * i
  }

  ghost predicate Accepted(b: Bytes) {
    HeaderOk(b) && forall i | 0 <= i < Table(b).imageCount :: CheckRecord(b, RecordAt(b, i)) == Valid
  }

  /** The verdict on the first record from i on that is not valid. */
  function FirstFault(b: Bytes, start: nat, i: nat, count: nat): Verdict
    decreases count - i
  {
    if i >= count then Valid
    else
      var v := CheckRecord(b, start + INFO_SIZE * i);
      if v != Valid then v else FirstFault(b, start, i + 1, count)
  }

  function Verify(b: Bytes): Verdict {
    if !HeaderOk(b) then Rejected else FirstFault(b, Table(b).headersOffset, 0, Table(b).imageCount)
  }

  /** verify_flash_image. */
  method VerifyFlashImage(b: Bytes) returns (v: Verdict)
    ensures v == Verify(b)
  {
    if |b| < HEADER_SIZE { return Rejected; }
    var header := ParseHeader(b[..HEADER_SIZE]);
    if header.version != HEADER_VERSION { return Rejected; }
    HeaderPrefix(b);
    var headerChecksum := CalculateChecksum(HeaderBytes(header)[..HEADER_CHECKSUM_AT]);
    if headerChecksum != header.checksum { return Rejected; }
    v := VerifyRecords(b, header.headersOffset, header.imageCount);
  }

  method VerifyRecords(b: Bytes, start: nat, count: nat) returns (v: Verdict)
    ensures v == FirstFault(b, start, 0, count)
  {
    for i := 0 to count
      invariant FirstFault(b, start, 0, count) == FirstFault(b, start, i, count)
    {
      v := VerifyRecord(b, start + INFO_SIZE * i);
      if v != Valid { return; }
    }
    return Valid;
  }

  lemma {:induction false} NoFault(b: Bytes, i: nat, count: nat)
    requires |b| >= HEADER_SIZE
    requires forall j | i <= j < count :: CheckRecord(b, RecordAt(b, j)) == Valid
    ensures FirstFault(b, Table(b).headersOffset, i, count) == Valid
    decreases count - i
  {
    if i < count {
      assert CheckRecord(b, RecordAt(b, i)) == Valid;
      NoFault(b, i + 1, count);
    }
  }

  lemma {:induction false} FaultFound(b: Bytes, start: nat, i: nat, j: nat, count: nat)
    requires i <= j < count && FirstFault(b, start, i, count) == Valid
    ensures CheckRecord(b, start + INFO_SIZE * j) == Valid
    decreases j - i
  {
    FirstFaultStep(b, start, i, count);
    if i < j { FaultFound(b, start, i + 1, j, count); }
  }

  lemma FirstFaultStep(b: Bytes, start: nat, i: nat, count: nat)
    requires i < count && FirstFault(b, start, i, count) == Valid
    ensures CheckRecord(b, start + INFO_SIZE * i) == Valid && FirstFault(b, start, i + 1, count) == Valid
  {
  }

  /** The loop accepts exactly when the header and every record check out. */
  lemma VerifyExact(b: Bytes)
    ensures Verify(b) == Valid <==> Accepted(b)
  {
    if Accepted(b) {
      NoFault(b, 0, Table(b).imageCount);
    } else if HeaderOk(b) && Verify(b) == Valid {
      forall i | 0 <= i < Table(b).imageCount
        ensures CheckRecord(b, RecordAt(b, i)) == Valid
      {
        FaultFound(b, Table(b).headersOffset, 0, i, Table(b).imageCount);
      }
    }
  }

  // ----- acceptance, in bytes -----

  /** Version 3, and eight bytes that cancel with the checksum behind them. */
  predicate SoundHeader(b: Bytes) {
    |b| >= 12 && b[0] == 3 && b[1] == 0 && Cancels(b[..8], Number(b, 8))
  }

  /** A record inside the bytes, naming data inside the bytes, both cancelling with their checksums. */
  predicate SoundRecord(b: Bytes, at: nat) {
    && at + 84 <= |b|
    && SoundData(b, Number(b, at + 4), Number(b, at + 8), Number(b, at + 76))
    && Cancels(b[at..at + 80], Number(b, at + 80))
  }

  predicate SoundData(b: Bytes, from: nat, n: nat, checksum: nat) {
    from + n <= |b| && Cancels(b[from..from + n], checksum)
  }

  predicate Cancels(b: Bytes, checksum: nat) { (Sum(b) + checksum) % 0x1_0000_0000 == 0 }

  lemma HeaderMeans(b: Bytes)
    ensures HeaderOk(b) <==> SoundHeader(b)
    ensures |b| >= 12 ==> Table(b).headersOffset == Number(b, 4)
    ensures |b| >= 12 ==> var lo: nat, hi: nat := b[2], b[3]; Table(b).imageCount == lo + 0x100 * hi
  {
    if |b| >= 12 { ChecksumIff(b[..8], Get32(b, 8)); }
  }

  lemma InfoNumbers(b: Bytes, at: nat)
    requires at + 84 <= |b|
    ensures var info := ParseInfo(b[at..at + 84]);
            && info.offset == Number(b, at + 4) && info.size == Number(b, at + 8)
            && info.imageChecksum == Number(b, at + 76) && info.headerChecksum == Number(b, at + 80)
  {
    WordAt(b, at, 4);
    WordAt(b, at, 8);
    WordAt(b, at, 76);
    WordAt(b, at, 80);
  }

  lemma WordAt(b: Bytes, at: nat, k: nat)
    requires at + 84 <= |b| && k <= 80
    ensures Get32(b[at..at + 84], k) == Number(b, at + k)
  {
  }

  lemma InfoMeans(b: Bytes, at: nat, info: ImageHeader)
    requires at + 84 <= |b|
    ensures CheckInfo(b, at, info) == Valid
            <==> && SoundData(b, info.offset, info.size, info.imageChecksum)
                 && Cancels(b[at..at + 80], info.headerChecksum)
  {
    if info.offset + info.size <= |b| {
      ChecksumIff(b[info.offset..info.offset + info.size], info.imageChecksum);
      ChecksumIff(b[at..at + 80], info.headerChecksum);
    }
  }

  lemma RecordMeans(b: Bytes, at: nat)
    ensures CheckRecord(b, at) == Valid <==> SoundRecord(b, at)
  {
    if at + 84 <= |b| {
      InfoNumbers(b, at);
      var info := ParseInfo(b[at..at + 84]);
      InfoMeans(b, at, info);
      assert CheckRecord(b, at) == CheckInfo(b, at, info);
    }
  }

  /** The verifier accepts exactly the bytes whose header and records are sound. */
  lemma VerifyMeans(b: Bytes)
    ensures Verify(b) == Valid
            <==> SoundHeader(b) && forall i | 0 <= i < Table(b).imageCount :: SoundRecord(b, RecordAt(b, i))
  {
    VerifyExact(b);
    HeaderMeans(b);
    if |b| >= 12 {
      forall i | 0 <= i < Table(b).imageCount
        ensures CheckRecord(b, RecordAt(b, i)) == Valid <==> SoundRecord(b, RecordAt(b, i))
      {
        RecordMeans(b, RecordAt(b, i));
      }
    }
  }

  lemma HeaderPrefix(b: Bytes)
    requires |b| >= HEADER_SIZE
    ensures HeaderBytes(Table(b))[..HEADER_CHECKSUM_AT] == b[..HEADER_CHECKSUM_AT]
    ensures Table(b).checksum == Get32(b, HEADER_CHECKSUM_AT)
  {
    HeaderBytesParsed(b[..HEADER_SIZE]);
    assert b[..HEADER_SIZE][..HEADER_CHECKSUM_AT] == b[..HEADER_CHECKSUM_AT];
  }

  method VerifyRecord(b: Bytes, at: nat) returns (v: Verdict)
    ensures v == CheckRecord(b, at)
  {
    if at + INFO_SIZE > |b| { return Panics; }
    InfoPrefix(b, at);
    v := VerifyInfo(b, at, ParseInfo(b[at..at + INFO_SIZE]));
  }

  method VerifyInfo(b: Bytes, ghost at: nat, info: ImageHeader) returns (v: Verdict)
    requires at + INFO_SIZE <= |b| && InfoBytes(info)[..INFO_CHECKSUM_AT] == b[at..at + INFO_CHECKSUM_AT]
    ensures v == CheckInfo(b, at, info)
  {
    if info.offset + info.size > |b| { return Panics; }
    var imageChecksum := CalculateChecksum(b[info.offset..info.offset + info.size]);
    if imageChecksum != info.imageChecksum { return Rejected; }
    var headerChecksum := CalculateChecksum(InfoBytes(info)[..INFO_CHECKSUM_AT]);
    return if headerChecksum != info.headerChecksum then Rejected else Valid;
  }

  lemma InfoPrefix(b: Bytes, at: nat)
    requires at + INFO_SIZE <= |b|
    ensures InfoBytes(ParseInfo(b[at..at + INFO_SIZE]))[..INFO_CHECKSUM_AT] == b[at..at + INFO_CHECKSUM_AT]
  {
    InfoBytesParsed(b[at..at + INFO_SIZE]);
    assert b[at..at + INFO_SIZE][..INFO_CHECKSUM_AT] == b[at..at + INFO_CHECKSUM_AT];
  }

  // ----- what a built image holds -----

  ghost predicate HoldsRecord(b: Bytes, images: seq<Firmware>, i: nat)
    requires WithinLimits(images) && i < |images|
  {
    && InfoAt(i) + INFO_SIZE <= |b| && Start(images, i) + |images[i].data| <= |b|
    && HoldsInfo(b, InfoAt(i), images[i], Start(images, i), ParseInfo(b[InfoAt(i)..InfoAt(i) + INFO_SIZE]))
  }

  ghost predicate HoldsInfo(b: Bytes, at: nat, image: Firmware, start: nat, info: ImageHeader)
    requires at + INFO_SIZE <= |b| && start + |image.data| <= |b|
  {
    && info.identifier == image.identifier && info.offset == start && info.size == |image.data|
    && info.filename == image.filename && info.imageChecksum == Checksum(image.data)
    && info.headerChecksum == Checksum(b[at..at + INFO_CHECKSUM_AT])
    && b[start..start + |image.data|] == image.data
  }

  lemma BuiltHeader(images: seq<Firmware>, rest: Bytes)
    requires WithinLimits(images)
    ensures var b := Image(images) + rest;
            |b| >= HEADER_SIZE && HeaderOk(b) && Table(b) == SealedHeader(|images|)
  {
    var b := Image(images) + rest;
    var h := SealedHeader(|images|);
    ImageHead(images, rest);
    HeaderRoundTrip(h);
    var unsealed := h.(checksum := 0);
    assert b[..HEADER_CHECKSUM_AT] == HeaderBytes(h)[..HEADER_CHECKSUM_AT];
    assert HeaderBytes(h)[..HEADER_CHECKSUM_AT] == HeaderBytes(unsealed)[..HEADER_CHECKSUM_AT];
    assert Get32(b, HEADER_CHECKSUM_AT) == Get32(b[..HEADER_SIZE], HEADER_CHECKSUM_AT);
  }

  lemma SealedInfoChecks(info: ImageHeader)
    ensures var s := SealedInfo(info);
            Checksum(InfoBytes(s)[..INFO_CHECKSUM_AT]) == s.headerChecksum
  {
    var s := SealedInfo(info);
    assert InfoBytes(s)[..INFO_CHECKSUM_AT] == InfoBytes(info.(headerChecksum := 0))[..INFO_CHECKSUM_AT];
  }

  lemma InfoHolds(b: Bytes, at: nat, info: ImageHeader)
    requires at + INFO_SIZE <= |b| && b[at..at + INFO_SIZE] == InfoBytes(SealedInfo(info))
    ensures ParseInfo(b[at..at + INFO_SIZE]) == SealedInfo(info)
    ensures Checksum(b[at..at + INFO_CHECKSUM_AT]) == SealedInfo(info).headerChecksum
  {
    InfoRoundTrip(SealedInfo(info));
    SealedInfoChecks(info);
    assert b[at..at + INFO_CHECKSUM_AT] == b[at..at + INFO_SIZE][..INFO_CHECKSUM_AT];
  }

  lemma RecordHeld(b: Bytes, images: seq<Firmware>, i: nat)
    requires WithinLimits(images) && i < |images|
    requires InfoAt(i) + INFO_SIZE <= |b| && Start(images, i) + |images[i].data| <= |b|
    requires b[InfoAt(i)..InfoAt(i) + INFO_SIZE] == InfoBytes(Info(images, i))
    requires b[Start(images, i)..Start(images, i) + |images[i].data|] == images[i].data
    ensures HoldsRecord(b, images, i)
  {
    InfoHolds(b, InfoAt(i), Unsealed(images, i));
  }

  lemma BuiltRecord(images: seq<Firmware>, rest: Bytes, i: nat)
    requires WithinLimits(images) && i < |images|
    ensures HoldsRecord(Image(images) + rest, images, i)
  {
    ImageInfo(images, rest, i);
    ImageData(images, rest, i);
    RecordHeld(Image(images) + rest, images, i);
  }

  lemma HeldRecordValid(b: Bytes, images: seq<Firmware>, i: nat)
    requires WithinLimits(images) && i < |images| && HoldsRecord(b, images, i)
    ensures CheckRecord(b, InfoAt(i)) == Valid
  {
  }

  lemma AllValid(b: Bytes)
    requires HeaderOk(b) && Table(b).headersOffset == HEADER_SIZE
    requires forall i | 0 <= i < Table(b).imageCount :: CheckRecord(b, InfoAt(i)) == Valid
    ensures Accepted(b)
  {
    forall i | 0 <= i < Table(b).imageCount
      ensures CheckRecord(b, RecordAt(b, i)) == Valid
    {
      assert RecordAt(b, i) == InfoAt(i);
    }
  }

  lemma BuiltAccepted(images: seq<Firmware>, rest: Bytes)
    requires WithinLimits(images)
    ensures Accepted(Image(images) + rest)
  {
    BuiltHeader(images, rest);
    forall i | 0 <= i < |images|
      ensures CheckRecord(Image(images) + rest, InfoAt(i)) == Valid
    {
      BuiltRecord(images, rest, i);
      HeldRecordValid(Image(images) + rest, images, i);
    }
    AllValid(Image(images) + rest);
  }

  /** Every image list within the format's limits builds to bytes the verifier accepts,
      also when other data follows them. */
  lemma BuiltImageVerifies(images: seq<Firmware>, rest: Bytes)
    requires WithinLimits(images)
    ensures Verify(Image(images) + rest) == Valid
  {
    BuiltAccepted(images, rest);
    VerifyExact(Image(images) + rest);
  }

  // ----- corruption -----

  lemma HeaderCorruption(b: Bytes, p: nat, v: byte)
    requires HeaderOk(b) && p < HEADER_SIZE && v != b[p]
    ensures !HeaderOk(b[p := v])
  {
    var c := b[p := v];
    if p < HEADER_CHECKSUM_AT {
      assert c[..HEADER_CHECKSUM_AT] == b[..HEADER_CHECKSUM_AT][p := v];
      ChecksumDetects(b[..HEADER_CHECKSUM_AT], p, v);
    } else {
      assert c[..HEADER_CHECKSUM_AT] == b[..HEADER_CHECKSUM_AT];
      WordDetects(b, HEADER_CHECKSUM_AT, p, v);
    }
  }

  /** A valid record's first 80 bytes sum to the word that follows them. */
  lemma ValidRecord(b: Bytes, at: nat)
    requires CheckRecord(b, at) == Valid
    ensures at + INFO_SIZE <= |b|
    ensures Checksum(b[at..at + INFO_CHECKSUM_AT]) == Get32(b, at + INFO_CHECKSUM_AT)
  {
  }

  lemma RecordCorruption(b: Bytes, at: nat, p: nat, v: byte)
    requires CheckRecord(b, at) == Valid && at <= p < at + INFO_SIZE <= |b| && v != b[p]
    ensures CheckRecord(b[p := v], at) != Valid
  {
    var c := b[p := v];
    var n := INFO_CHECKSUM_AT;
    ValidRecord(b, at);
    if CheckRecord(c, at) == Valid {
      ValidRecord(c, at);
      if p < at + n {
        assert c[at..at + n] == b[at..at + n][p - at := v];
        ChecksumDetects(b[at..at + n], p - at, v);
      } else {
        assert c[at..at + n] == b[at..at + n];
        WordDetects(b, at + n, p, v);
      }
    }
  }

  lemma DataCorruption(b: Bytes, at: nat, info: ImageHeader, p: nat, v: byte)
    requires at + INFO_SIZE <= |b| && p < |b| && v != b[p] && CheckInfo(b, at, info) == Valid
    requires info.offset <= p < info.offset + info.size
    ensures CheckInfo(b[p := v], at, info) != Valid
  {
    var data := b[info.offset..info.offset + info.size];
    assert b[p := v][info.offset..info.offset + info.size] == data[p - info.offset := v];
    ChecksumDetects(data, p - info.offset, v);
  }

  lemma TableKept(b: Bytes, p: nat, v: byte)
    requires HEADER_SIZE <= p < |b|
    ensures Table(b[p := v]) == Table(b)
  {
    assert b[p := v][..HEADER_SIZE] == b[..HEADER_SIZE];
  }

  /** The image whose data covers an address past the records. */
  lemma {:induction false} Covering(images: seq<Firmware>, p: nat, n: nat) returns (i: nat)
    requires n <= |images| && Start(images, 0) <= p < Start(images, n)
    ensures i < |images| && Start(images, i) <= p < Start(images, i) + |images[i].data|
  {
    if Start(images, n - 1) <= p { i := n - 1; } else { i := Covering(images, p, n - 1); }
  }

  lemma Rejects(b: Bytes, i: nat)
    requires |b| >= HEADER_SIZE && i < Table(b).imageCount && CheckRecord(b, RecordAt(b, i)) != Valid
    ensures !Accepted(b)
  {
  }

  /** Any accepted image: no byte of a record can change unnoticed. */
  lemma RecordsProtected(b: Bytes, i: nat, p: nat, v: byte)
    requires Accepted(b) && i < Table(b).imageCount && p < |b| && v != b[p]
    requires RecordAt(b, i) <= p < RecordAt(b, i) + INFO_SIZE
    ensures !Accepted(b[p := v])
  {
    assert CheckRecord(b, RecordAt(b, i)) == Valid;
    if p < HEADER_SIZE {
      HeaderCorruption(b, p, v);
    } else {
      RecordCorruption(b, RecordAt(b, i), p, v);
      RejectsAt(b, i, p, v);
    }
  }

  lemma DataBesideRecord(b: Bytes, at: nat, p: nat, v: byte)
    requires CheckRecord(b, at) == Valid && at + INFO_SIZE <= |b| && p < |b| && v != b[p]
    requires p < at || at + INFO_SIZE <= p
    requires var info := ParseInfo(b[at..at + INFO_SIZE]); info.offset <= p < info.offset + info.size
    ensures CheckRecord(b[p := v], at) != Valid
  {
    DataCorruption(b, at, ParseInfo(b[at..at + INFO_SIZE]), p, v);
    assert b[p := v][at..at + INFO_SIZE] == b[at..at + INFO_SIZE];
  }

  /** A fault at a record the table of the unchanged bytes names. */
  lemma RejectsAt(b: Bytes, i: nat, p: nat, v: byte)
    requires HEADER_SIZE <= p < |b| && i < Table(b).imageCount
    requires CheckRecord(b[p := v], RecordAt(b, i)) != Valid
    ensures !Accepted(b[p := v])
  {
    TableKept(b, p, v);
    Rejects(b[p := v], i);
  }

  /** Any accepted image: no byte of an image's data can change unnoticed, even where the data
      overlaps the header or a record. */
  lemma DataProtected(b: Bytes, i: nat, p: nat, v: byte)
    requires Accepted(b) && i < Table(b).imageCount && p < |b| && v != b[p]
    requires var at := RecordAt(b, i);
             && at + INFO_SIZE <= |b|
             && var info := ParseInfo(b[at..at + INFO_SIZE]);
             info.offset <= p < info.offset + info.size
    ensures !Accepted(b[p := v])
  {
    var at := RecordAt(b, i);
    if p < HEADER_SIZE {
      HeaderCorruption(b, p, v);
    } else if at <= p < at + INFO_SIZE {
      RecordsProtected(b, i, p, v);
    } else {
      assert CheckRecord(b, RecordAt(b, i)) == Valid;
      DataBesideRecord(b, at, p, v);
      RejectsAt(b, i, p, v);
    }
  }

  lemma BuiltRecordProtected(images: seq<Firmware>, rest: Bytes, p: nat, v: byte)
    requires WithinLimits(images) && HEADER_SIZE <= p < InfoAt(|images|) <= |Image(images) + rest|
    requires v != (Image(images) + rest)[p]
    ensures !Accepted((Image(images) + rest)[p := v])
  {
    BuiltAccepted(images, rest);
    BuiltHeader(images, rest);
    var i := (p - HEADER_SIZE) / INFO_SIZE;
    RecordsProtected(Image(images) + rest, i, p, v);
  }

  lemma HeldDataProtected(b: Bytes, images: seq<Firmware>, i: nat, p: nat, v: byte)
    requires WithinLimits(images) && i < |images| && Accepted(b) && HoldsRecord(b, images, i)
    requires Table(b).headersOffset == HEADER_SIZE && i < Table(b).imageCount
    requires InfoAt(i) + INFO_SIZE <= Start(images, i) <= p < Start(images, i) + |images[i].data|
    requires v != b[p]
    ensures !Accepted(b[p := v])
  {
    assert RecordAt(b, i) == InfoAt(i);
    DataProtected(b, i, p, v);
  }

  lemma BuiltDataProtected(images: seq<Firmware>, rest: Bytes, i: nat, p: nat, v: byte)
    requires WithinLimits(images) && i < |images|
    requires Start(images, i) <= p < Start(images, i) + |images[i].data| <= |Image(images) + rest|
    requires v != (Image(images) + rest)[p]
    ensures !Accepted((Image(images) + rest)[p := v])
  {
    BuiltAccepted(images, rest);
    BuiltHeader(images, rest);
    BuiltRecord(images, rest, i);
    HeldDataProtected(Image(images) + rest, images, i, p, v);
  }

  lemma BuiltProtected(images: seq<Firmware>, rest: Bytes, p: nat, v: byte)
    requires WithinLimits(images) && p < |Image(images)| && v != Image(images)[p]
    ensures !Accepted((Image(images) + rest)[p := v])
  {
    ImageLength(images);
    if p < HEADER_SIZE {
      BuiltHeader(images, rest);
      HeaderCorruption(Image(images) + rest, p, v);
    } else if p < InfoAt(|images|) {
      BuiltRecordProtected(images, rest, p, v);
    } else {
      var i := Covering(images, p, |images|);
      StartBound(images, i);
      BuiltDataProtected(images, rest, i, p, v);
    }
  }

  /** No byte of a built image can change unnoticed. */
  lemma CorruptionDetected(images: seq<Firmware>, rest: Bytes, p: nat, v: byte)
    requires WithinLimits(images) && p < |Image(images)| && v != Image(images)[p]
    ensures Verify((Image(images) + rest)[p := v]) != Valid
  {
    BuiltProtected(images, rest, p, v);
    VerifyExact((Image(images) + rest)[p := v]);
  }
}
