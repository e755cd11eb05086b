/** Finding an image by identifier in flash (get_flash_image_info in rom/src/recovery.rs). */
module FlashLookup {
  import opened Words
  import opened Wrappers
  import opened FlashFormat
  import opened FlashImage
  import opened FlashVerify

  datatype Region = Region(offset: u32, size: u32)

  /** The records from i on; a read past the end of the partition is an error. */
  function Scan(flash: Bytes, id: u32, i: nat, count: nat): Option<Region>
    decreases count - i
  {
    if i >= count || InfoAt(i) + INFO_SIZE > |flash| then None
    else
      var info := ParseInfo(flash[InfoAt(i)..InfoAt(i) + INFO_SIZE]);
      if info.identifier == id then Some(Region(info.offset, info.size)) else Scan(flash, id, i + 1, count)
  }

  function Lookup(flash: Bytes, id: u32): Option<Region> {
    if |flash| < HEADER_SIZE then None else Scan(flash, id, 0, Table(flash).imageCount)
  }

  method GetFlashImageInfo(flash: Bytes, id: u32) returns (r: Option<Region>)
    ensures r == Lookup(flash, id)
  {
    if |flash| < HEADER_SIZE { return None; }
    var header := ParseHeader(flash[..HEADER_SIZE]);
    for i := 0 to header.imageCount
      invariant Lookup(flash, id) == Scan(flash, id, i, header.imageCount)
    {
      var offset := HEADER_SIZE + i * INFO_SIZE;
      if offset + INFO_SIZE > |flash| { return None; }
      var info := ParseInfo(flash[offset..offset + INFO_SIZE]);
      if info.identifier == id { return Some(Region(info.offset, info.size)); }
    }
    return None;
  }

  // ----- the lookup, in bytes -----

  /** Record i lies inside the partition. */
  predicate Inside(flash: Bytes, i: nat) { 12 + 84 * i + 84 <= |flash| }

  /** Record i is the first with this identifier. */
  ghost predicate FirstRecord(flash: Bytes, id: u32, i: nat) {
    && Inside(flash, i) && Number(flash, 12 + 84 * i) == id
    && forall j | 0 <= j < i :: Inside(flash, j) && Number(flash, 12 + 84 * j) != id
  }

  lemma RecordNumbers(flash: Bytes, i: nat)
    requires Inside(flash, i)
    ensures InfoAt(i) == 12 + 84 * i
    ensures var info := ParseInfo(flash[InfoAt(i)..InfoAt(i) + INFO_SIZE]);
            && info.identifier == Number(flash, 12 + 84 * i)
            && info.offset == Number(flash, 16 + 84 * i) && info.size == Number(flash, 20 + 84 * i)
  {
    WordAt(flash, InfoAt(i), 0);
    WordAt(flash, InfoAt(i), 4);
    WordAt(flash, InfoAt(i), 8);
  }

  lemma {:induction false} ScanMeans(flash: Bytes, id: u32, k: nat, i: nat, count: nat)
    requires k <= i < count && FirstRecord(flash, id, i)
    ensures Scan(flash, id, k, count) == Some(Region(Number(flash, 16 + 84 * i), Number(flash, 20 + 84 * i)))
    decreases i - k
  {
    assert k < i ==> Inside(flash, k);
    RecordNumbers(flash, k);
    if k < i { ScanMeans(flash, id, k + 1, i, count); }
  }

  lemma {:induction false} ScanNone(flash: Bytes, id: u32, k: nat, count: nat) returns (i: nat)
    requires forall j | 0 <= j < k :: Inside(flash, j) && Number(flash, 12 + 84 * j) != id
    requires Scan(flash, id, k, count).Some?
    ensures i < count && FirstRecord(flash, id, i)
    decreases count - k
  {
    RecordNumbers(flash, k);
    if Number(flash, 12 + 84 * k) == id { i := k; } else { i := ScanNone(flash, id, k + 1, count); }
  }

  /** On any bytes: the offset and size stored in the first of the counted records with this
      identifier; an error exactly when there is none inside the partition. */
  lemma LookupMeans(flash: Bytes, id: u32)
    ensures |flash| < 12 ==> Lookup(flash, id) == None
    ensures |flash| >= 12 ==>
      var lo: nat, hi: nat := flash[2], flash[3];
      && (Lookup(flash, id).Some? <==> exists i | 0 <= i < lo + 0x100 * hi :: FirstRecord(flash, id, i))
      && forall i | 0 <= i < lo + 0x100 * hi && FirstRecord(flash, id, i) ::
           Lookup(flash, id) == Some(Region(Number(flash, 16 + 84 * i), Number(flash, 20 + 84 * i)))
  {
    if |flash| >= 12 {
      HeaderMeans(flash);
      var count: nat := Table(flash).imageCount;
      if Lookup(flash, id).Some? {
        var i := ScanNone(flash, id, 0, count);
      }
      forall i: nat | i < count && FirstRecord(flash, id, i)
        ensures Lookup(flash, id) == Some(Region(Number(flash, 16 + 84 * i), Number(flash, 20 + 84 * i)))
      {
        ScanMeans(flash, id, 0, i, count);
      }
    }
  }

  lemma ScanHeld(b: Bytes, images: seq<Firmware>, id: u32, i: nat)
    requires WithinLimits(images) && i < |images| && HoldsRecord(b, images, i)
    ensures Scan(b, id, i, |images|)
         == if images[i].identifier == id then Some(ImageRegion(images, i)) else Scan(b, id, i + 1, |images|)
  {
  }

  function ImageRegion(images: seq<Firmware>, i: nat): Region
    requires WithinLimits(images) && i < |images|
  {
    StartBound(images, i);
    Region(Start(images, i), |images[i].data|)
  }

  ghost predicate HoldsAll(b: Bytes, images: seq<Firmware>)
    requires WithinLimits(images)
  {
    forall i | 0 <= i < |images| :: HoldsRecord(b, images, i)
  }

  lemma {:induction false} ScanFinds(b: Bytes, images: seq<Firmware>, i: nat, k: nat)
    requires WithinLimits(images) && HoldsAll(b, images) && k <= i < |images|
    requires forall j | k <= j < i :: images[j].identifier != images[i].identifier
    ensures Scan(b, images[i].identifier, k, |images|) == Some(ImageRegion(images, i))
    decreases i - k
  {
    assert HoldsRecord(b, images, k);
    ScanHeld(b, images, images[i].identifier, k);
    if k < i { ScanFinds(b, images, i, k + 1); }
  }

  lemma {:induction false} ScanMisses(b: Bytes, images: seq<Firmware>, id: u32, k: nat)
    requires WithinLimits(images) && HoldsAll(b, images) && k <= |images|
    requires forall j | k <= j < |images| :: images[j].identifier != id
    ensures Scan(b, id, k, |images|) == None
    decreases |images| - k
  {
    if k < |images| {
      ScanHeld(b, images, id, k);
      ScanMisses(b, images, id, k + 1);
    }
  }

  lemma BuiltHoldsAll(images: seq<Firmware>, rest: Bytes)
    requires WithinLimits(images)
    ensures HoldsAll(Image(images) + rest, images)
  {
    forall i | 0 <= i < |images|
      ensures HoldsRecord(Image(images) + rest, images, i)
    {
      BuiltRecord(images, rest, i);
    }
  }

  /** The ROM finds the first image with its identifier, and the region holds that image's data. */
  lemma RomFindsImage(images: seq<Firmware>, rest: Bytes, i: nat)
    requires WithinLimits(images) && i < |images|
    requires forall j | 0 <= j < i :: images[j].identifier != images[i].identifier
    ensures var b := Image(images) + rest;
            && Start(images, i) + |images[i].data| <= |Image(images)|
            && Lookup(b, images[i].identifier) == Some(ImageRegion(images, i))
            && b[Start(images, i)..Start(images, i) + |images[i].data|] == images[i].data
  {
    BuiltHeader(images, rest);
    BuiltHoldsAll(images, rest);
    ScanFinds(Image(images) + rest, images, i, 0);
    ImageLength(images);
    ImageData(images, rest, i);
  }

  /** It reports an error exactly when no image has the identifier. */
  lemma RomMissesImage(images: seq<Firmware>, rest: Bytes, id: u32)
    requires WithinLimits(images)
    ensures Lookup(Image(images) + rest, id) == None <==> forall i | 0 <= i < |images| :: images[i].identifier != id
  {
    BuiltHeader(images, rest);
    BuiltHoldsAll(images, rest);
    if forall i | 0 <= i < |images| :: images[i].identifier != id {
      ScanMisses(Image(images) + rest, images, id, 0);
    } else {
      var i := FirstMatch(images, id);
      ScanFinds(Image(images) + rest, images, i, 0);
    }
  }

  lemma FirstMatch(images: seq<Firmware>, id: u32) returns (i: nat)
    requires exists k | 0 <= k < |images| :: images[k].identifier == id
    ensures i < |images| && images[i].identifier == id
    ensures forall j | 0 <= j < i :: images[j].identifier != id
  {
    i := 0;
    var k :| 0 <= k < |images| && images[k].identifier == id;
    while images[i].identifier != id
      invariant i <= k && forall j | 0 <= j < i :: images[j].identifier != id
      decreases k - i
    {
      i := i + 1;
    }
  }

  // ----- padding -----

  function PadLength(len: nat, n: nat): (p: nat)
    requires n > 0
    ensures p < n && (len + p) % n == 0
  {
    var r := len % n;
    if r == 0 then 0 else
      DivModUnique(len + (n - r), n, len / n + 1, 0);
      n - r
  }

  /** The builder's zero padding up to a multiple of n. */
  function Pad(data: Bytes, n: nat): (r: Bytes)
    requires n > 0
    ensures |r| % n == 0 && |data| <= |r| < |data| + n && r[..|data|] == data
    ensures forall k | |data| <= k < |r| :: r[k] == 0
  {
    data + seq(PadLength(|data|, n), _ => 0)
  }
}
