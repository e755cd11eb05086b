/** From the builder's inputs to the words on the recovery interface. */
module RecoveryDelivery {
  import opened Words
  import opened Wrappers
  import opened FlashFormat
  import opened FlashImage
  import opened FlashLookup
  import opened Recovery
  import RecoveryRounds

  /** The one condition on a built image: its last 256-byte read stays inside the partition. */
  lemma BuiltStreamable(images: seq<Firmware>, rest: Bytes, i: nat)
    requires WithinLimits(images) && i < |images| && images[i].identifier <= 2
    requires forall j | 0 <= j < i :: images[j].identifier != images[i].identifier
    ensures var flash := Image(images) + rest;
            && Finding(flash)(images[i].identifier) == Some(ImageRegion(images, i))
            && (Streamable(flash, Finding(flash), images[i].identifier)
                <==> (|images[i].data| > 0 ==> Start(images, i) + Covered(|images[i].data|) <= |flash|))
  {
    RomFindsImage(images, rest, i);
  }

  /** Some run sends a built image completely, if and only if its last 256-byte read stays
      inside the partition. */
  lemma BuiltImageStreamsIff(images: seq<Firmware>, rest: Bytes, i: nat)
    requires WithinLimits(images) && i < |images| && images[i].identifier <= 2
    requires forall j | 0 <= j < i :: images[j].identifier != images[i].identifier
    ensures var flash := Image(images) + rest;
            Completes(flash, Finding(flash), images[i].identifier)
            <==> (|images[i].data| > 0 ==> Start(images, i) + Covered(|images[i].data|) <= |flash|)
  {
    BuiltStreamable(images, rest, i);
    CompletesIff(Image(images) + rest, Finding(Image(images) + rest), images[i].identifier);
  }

  lemma SentBuilt(images: seq<Firmware>, rest: Bytes, i: nat)
    requires WithinLimits(images) && i < |images| && images[i].identifier <= 2
    requires forall j | 0 <= j < i :: images[j].identifier != images[i].identifier
    requires |images[i].data| % 4 == 0
    ensures var flash, index := Image(images) + rest, images[i].identifier;
            Streamable(flash, Finding(flash), index)
            ==> Delivers(Sent(flash, Finding(flash), index), index, images[i].data)
  {
    var flash, index := Image(images) + rest, images[i].identifier;
    BuiltStreamable(images, rest, i);
    RomFindsImage(images, rest, i);
    if Streamable(flash, Finding(flash), index) {
      SentDelivers(flash, Finding(flash), index, images[i].data);
    }
  }

  /** Every run that gets to the end of a transfer of a built dword-sized image has just sent
      exactly that image. */
  lemma BuiltImageDelivered(images: seq<Firmware>, rest: Bytes, i: nat, answers: seq<Answer>) returns (start: nat)
    requires WithinLimits(images) && i < |images| && images[i].identifier <= 2
    requires forall j | 0 <= j < i :: images[j].identifier != images[i].identifier
    requires |images[i].data| % 4 == 0
    requires var flash := Image(images) + rest; Completed(flash, Finding(flash), images[i].identifier, answers)
    ensures var flash := Image(images) + rest;
            var log := Run(flash, Finding(flash), answers).log;
            start <= |log| && Delivers(log[start..], images[i].identifier, images[i].data)
  {
    var flash := Image(images) + rest;
    start := CompletedSent(flash, Finding(flash), images[i].identifier, answers);
    SentBuilt(images, rest, i);
  }

  lemma CompletedSent(flash: Bytes, find: Finder, index: nat, answers: seq<Answer>) returns (start: nat)
    requires Completed(flash, find, index, answers)
    ensures Streamable(flash, find, index)
    ensures var log := Run(flash, find, answers).log; start <= |log| && log[start..] == Sent(flash, find, index)
  {
    ResumeKeeps(flash, find, START, answers);
    start := |Rounds(flash, find, Run(flash, find, answers).activated)|;
  }

  lemma CoveredBeyond(n: nat)
    requires n % CHUNK != 0
    ensures Covered(n) > n
  {
  }

  /** Padding to dwords is not enough: when the last image of the built bytes is not a whole
      number of 256-byte chunks and nothing follows it, no run can send it. */
  lemma LastImageStuck(images: seq<Firmware>)
    requires WithinLimits(images) && images != []
    requires var last := images[|images| - 1];
             && last.identifier <= 2 && |last.data| % 4 == 0 && |last.data| % CHUNK != 0
             && forall j | 0 <= j < |images| - 1 :: images[j].identifier != last.identifier
    ensures !Completes(Image(images), Finding(Image(images)), images[|images| - 1].identifier)
  {
    var i := |images| - 1;
    assert Image(images) + [] == Image(images);
    BuiltImageStreamsIff(images, [], i);
    StartBound(images, i);
    ImageLength(images);
    CoveredBeyond(|images[i].data|);
  }

  /** For instance a four-byte image alone. */
  lemma FourBytesStuck(images: seq<Firmware>)
    requires |images| == 1 && images[0].identifier == 0 && |images[0].data| == 4
    ensures WithinLimits(images) && !Completes(Image(images), Finding(Image(images)), 0)
  {
    assert Offset(DataChunks(images), 1) == Offset(DataChunks(images), 0) + 4;
    LastImageStuck(images);
  }

  /** Without any padding the announced length can be short: five bytes are announced as one
      dword and sent as two. */
  lemma FiveBytesMisannounced(images: seq<Firmware>, rest: Bytes)
    requires |images| == 1 && images[0].identifier == 0 && |images[0].data| == 5 && |rest| >= CHUNK
    ensures WithinLimits(images)
    ensures var flash := Image(images) + rest;
            && Streamable(flash, Finding(flash), 0)
            && var log := Sent(flash, Finding(flash), 0);
            |log| == 3 + 2 && log[1] == Announce(1)
  {
    assert Offset(DataChunks(images), 1) == Offset(DataChunks(images), 0) + 5;
    BuiltStreamable(images, rest, 0);
    ImageLength(images);
    AnnouncedExact(Image(images) + rest, Finding(Image(images) + rest), 0);
  }

  // ----- build_flash_image_bytes -----

  function NoName(): Filename { seq(FILENAME_SIZE, _ => 0) }

  function Padded(id: u32, data: Option<Bytes>): seq<Firmware> {
    match data
    case None => []
    case Some(d) => [Firmware(id, Pad(d, 256), NoName())]
  }

  function Inputs(caliptra: Option<Bytes>, soc: Option<Bytes>, mcu: Option<Bytes>): seq<Firmware> {
    Padded(0, caliptra) + Padded(1, soc) + Padded(2, mcu)
  }

  method BuildFlashImageBytes(caliptra: Option<Bytes>, soc: Option<Bytes>, mcu: Option<Bytes>) returns (b: Bytes)
    requires WithinLimits(Inputs(caliptra, soc, mcu))
    ensures b == if caliptra.None? && soc.None? && mcu.None? then [] else Image(Inputs(caliptra, soc, mcu))
  {
    var images := [];
    if caliptra.Some? { images := images + [Firmware(0, Pad(caliptra.value, 256), NoName())]; }
    if soc.Some? { images := images + [Firmware(1, Pad(soc.value, 256), NoName())]; }
    if mcu.Some? { images := images + [Firmware(2, Pad(mcu.value, 256), NoName())]; }
    assert images == Inputs(caliptra, soc, mcu);
    if images == [] { return []; }
    b := BuildImage(images);
  }

  function Input(caliptra: Option<Bytes>, soc: Option<Bytes>, mcu: Option<Bytes>, index: nat): Option<Bytes>
    requires index <= 2
  {
    if index == 0 then caliptra else if index == 1 then soc else mcu
  }

  lemma InputAt(caliptra: Option<Bytes>, soc: Option<Bytes>, mcu: Option<Bytes>, index: nat) returns (i: nat)
    requires index <= 2 && Input(caliptra, soc, mcu, index).Some?
    ensures var images := Inputs(caliptra, soc, mcu);
            && i < |images| && images[i].identifier == index
            && images[i].data == Pad(Input(caliptra, soc, mcu, index).value, 256)
            && forall j | 0 <= j < i :: images[j].identifier != index
  {
    i := if index == 0 then 0 else |Padded(0, caliptra)| + if index == 1 then 0 else |Padded(1, soc)|;
  }

  lemma WholeChunks(n: nat)
    requires n % 256 == 0
    ensures Covered(n) == n && n % 4 == 0
  {
    var q := n / 256;
    assert n == 256 * q == 4 * (64 * q);
    assert (n + 255) / 256 == q;
  }

  /** Whatever firmware the builder is given, the ROM can stream each piece from the built bytes
      alone, and what it sends is that firmware, zero-padded to a multiple of 256. */
  lemma BuiltBytesDelivered(caliptra: Option<Bytes>, soc: Option<Bytes>, mcu: Option<Bytes>, index: nat)
    requires WithinLimits(Inputs(caliptra, soc, mcu))
    requires index <= 2 && Input(caliptra, soc, mcu, index).Some?
    ensures var flash := Image(Inputs(caliptra, soc, mcu));
            var data := Pad(Input(caliptra, soc, mcu, index).value, 256);
            && Streamable(flash, Finding(flash), index)
            && Delivers(Sent(flash, Finding(flash), index), index, data)
  {
    var images := Inputs(caliptra, soc, mcu);
    var i := InputAt(caliptra, soc, mcu, index);
    WholeChunks(|images[i].data|);
    StartBound(images, i);
    ImageLength(images);
    assert Image(images) + [] == Image(images);
    BuiltStreamable(images, [], i);
    SentBuilt(images, [], i);
  }

  /** Index 0 is the Caliptra firmware, 1 the SoC manifest, 2 the MCU runtime. */
  lemma EachInputDelivered(caliptra: Bytes, soc: Bytes, mcu: Bytes)
    requires WithinLimits(Inputs(Some(caliptra), Some(soc), Some(mcu)))
    ensures var flash := Image(Inputs(Some(caliptra), Some(soc), Some(mcu)));
            && Streamable(flash, Finding(flash), 0) && Streamable(flash, Finding(flash), 1)
            && Streamable(flash, Finding(flash), 2)
            && Delivers(Sent(flash, Finding(flash), 0), 0, Pad(caliptra, 256))
            && Delivers(Sent(flash, Finding(flash), 1), 1, Pad(soc, 256))
            && Delivers(Sent(flash, Finding(flash), 2), 2, Pad(mcu, 256))
  {
    BuiltBytesDelivered(Some(caliptra), Some(soc), Some(mcu), 0);
    BuiltBytesDelivered(Some(caliptra), Some(soc), Some(mcu), 1);
    BuiltBytesDelivered(Some(caliptra), Some(soc), Some(mcu), 2);
  }

  /** From a built image the whole recovery goes through: some answers send the Caliptra firmware,
      the SoC manifest and the MCU runtime, activate each in this order, and finish. */
  lemma BuiltImageRecovers(caliptra: Bytes, soc: Bytes, mcu: Bytes)
    returns (answers: seq<Answer>, first: seq<Event>, second: seq<Event>, third: seq<Event>)
    requires WithinLimits(Inputs(Some(caliptra), Some(soc), Some(mcu)))
    ensures Delivers(first, 0, Pad(caliptra, 256)) && Delivers(second, 1, Pad(soc, 256))
    ensures Delivers(third, 2, Pad(mcu, 256))
    ensures var flash := Image(Inputs(Some(caliptra), Some(soc), Some(mcu)));
            var t := Run(flash, Finding(flash), answers);
            && t.phase == Done
            && t.log == first + [ActivateImage] + second + [ActivateImage] + third + [ActivateImage]
  {
    var flash := Image(Inputs(Some(caliptra), Some(soc), Some(mcu)));
    var find := Finding(flash);
    EachInputDelivered(caliptra, soc, mcu);
    first, second, third := Sent(flash, find, 0), Sent(flash, find, 1), Sent(flash, find, 2);
    answers := RecoveryRounds.ThreeImagesActivated(flash, find);
  }

  lemma NoInputId(caliptra: Option<Bytes>, soc: Option<Bytes>, mcu: Option<Bytes>, index: nat)
    requires index <= 2 && Input(caliptra, soc, mcu, index).None?
    ensures var images := Inputs(caliptra, soc, mcu);
            forall i | 0 <= i < |images| :: images[i].identifier != index
  {
  }

  lemma Missing(images: seq<Firmware>, index: nat)
    requires WithinLimits(images) && index <= 2
    requires forall i | 0 <= i < |images| :: images[i].identifier != index
    ensures Finding(Image(images))(index) == None
  {
    RomMissesImage(images, [], index);
    assert Image(images) + [] == Image(images);
  }

  lemma OnlyInputs(caliptra: Option<Bytes>, soc: Option<Bytes>, mcu: Option<Bytes>, index: nat)
    requires WithinLimits(Inputs(caliptra, soc, mcu))
    requires Finding(Image(Inputs(caliptra, soc, mcu)))(index).Some?
    ensures index <= 2 && Input(caliptra, soc, mcu, index).Some?
  {
    if index <= 2 && Input(caliptra, soc, mcu, index).None? {
      NoInputId(caliptra, soc, mcu, index);
      Missing(Inputs(caliptra, soc, mcu), index);
    }
  }

  /** End to end: with the built bytes in flash, whatever the registers answer, an image is
      activated only right after exactly the firmware given for its index has been sent. */
  lemma EveryActivationDelivers(
    caliptra: Option<Bytes>, soc: Option<Bytes>, mcu: Option<Bytes>, answers: seq<Answer>, k: nat)
    returns (start: nat, index: nat)
    requires WithinLimits(Inputs(caliptra, soc, mcu))
    requires var flash := Image(Inputs(caliptra, soc, mcu));
             var log := Run(flash, Finding(flash), answers).log;
             k < |log| && log[k] == ActivateImage
    ensures index <= 2 && Input(caliptra, soc, mcu, index).Some?
    ensures var flash := Image(Inputs(caliptra, soc, mcu));
            var log := Run(flash, Finding(flash), answers).log;
            start <= k && Delivers(log[start..k], index, Pad(Input(caliptra, soc, mcu, index).value, 256))
  {
    var flash := Image(Inputs(caliptra, soc, mcu));
    start, index := ActivationFollowsTransfer(flash, Finding(flash), answers, k);
    OnlyInputs(caliptra, soc, mcu, index);
    BuiltBytesDelivered(caliptra, soc, mcu, index);
  }
}
