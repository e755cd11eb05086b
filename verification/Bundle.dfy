/** Combining a kernel and its apps into one binary (firmware-bundler/src/bundle.rs). */
module Bundle {
  import opened Wrappers
  import opened FlashFormat
  import opened MemoryLayout

  /** An app's block, its TBF header and its binary. */
  datatype App = App(block: Memory, header: Bytes, binary: Bytes)

  /** Bytes and where they belong in the bundle. */
  datatype Piece = Piece(start: nat, content: Bytes)

  function Zeros(n: nat): Bytes { seq(n, _ => 0) }

  ghost predicate After(apps: seq<App>, base: nat) {
    forall i | 0 <= i < |apps| :: base <= apps[i].block.offset
  }

  function PieceOf(app: App, base: nat, headerLen: nat): Piece
    requires base <= app.block.offset
  {
    Piece(app.block.offset - base + headerLen, app.header + app.binary)
  }

  function Pieces(apps: seq<App>, base: nat, headerLen: nat): seq<Piece>
    requires After(apps, base)
  {
    seq(|apps|, i requires 0 <= i < |apps| => PieceOf(apps[i], base, headerLen))
  }

  /** Zeros up to the start, then the content. */
  function Extend(b: Bytes, p: Piece): Bytes
    requires |b| <= p.start
  {
    b + Zeros(p.start - |b|) + p.content
  }

  /** The pieces one after the other; None if one would have to start inside what is there. */
  function Placed(front: Bytes, pieces: seq<Piece>): Option<Bytes> {
    if pieces == [] then Some(front)
    else
      var k := |pieces| - 1;
      match Placed(front, pieces[..k])
      case None => None
      case Some(b) => if |b| > pieces[k].start then None else Some(Extend(b, pieces[k]))
  }

  function Rounded(b: Bytes): Bytes { b + Zeros(Padding(|b|, 256)) }

  function Bundled(header: Bytes, kernel: Bytes, apps: seq<App>, base: nat): Option<Bytes>
    requires After(apps, base)
  {
    match Placed(header + kernel, Pieces(apps, base, |header|))
    case None => None
    case Some(b) => Some(Rounded(b))
  }

  lemma {:induction false} PlacedFails(front: Bytes, pieces: seq<Piece>, k: nat)
    requires k <= |pieces| && Placed(front, pieces[..k]).None?
    ensures Placed(front, pieces).None?
  {
    if k < |pieces| {
      assert pieces[..|pieces| - 1][..k] == pieces[..k];
      PlacedFails(front, pieces[..|pieces| - 1], k);
    } else {
      assert pieces[..k] == pieces;
    }
  }

  lemma PlacedNext(front: Bytes, pieces: seq<Piece>, k: nat)
    requires k < |pieces| && Placed(front, pieces[..k]).Some?
    ensures var b := Placed(front, pieces[..k]).value;
            Placed(front, pieces[..k + 1]) == if |b| > pieces[k].start then None else Some(Extend(b, pieces[k]))
  {
    assert pieces[..k + 1][..k] == pieces[..k];
  }

  /** One growing buffer, resized up to each app's start. */
  method BundleKernel(header: Bytes, kernel: Bytes, instructions: Memory, apps: seq<App>) returns (r: Option<Bytes>)
    requires After(apps, instructions.offset)
    ensures r == Bundled(header, kernel, apps, instructions.offset)
  {
    var runtime := header;
    var headerLen := |runtime|;
    runtime := runtime + kernel;
    var base := instructions.offset;
    ghost var pieces := Pieces(apps, base, headerLen);
    for k := 0 to |apps|
      invariant Placed(header + kernel, pieces[..k]) == Some(runtime)
    {
      PlacedNext(header + kernel, pieces, k);
      var start := apps[k].block.offset - base + headerLen;
      if |runtime| > start {
        PlacedFails(header + kernel, pieces, k + 1);
        return None;
      }
      runtime := AppendApp(runtime, start, apps[k].header, apps[k].binary);
    }
    assert pieces[..|apps|] == pieces;
    r := Some(runtime + Zeros(Padding(|runtime|, 256)));
  }

  method AppendApp(b: Bytes, start: nat, header: Bytes, binary: Bytes) returns (r: Bytes)
    requires |b| <= start
    ensures r == Extend(b, Piece(start, header + binary))
  {
    r := b + Zeros(start - |b|);
    r := r + header;
    r := r + binary;
  }

  // ----- when bundling succeeds -----

  /** Where the bytes before piece i end. */
  function FrontEnd(front: nat, pieces: seq<Piece>, i: nat): nat
    requires i <= |pieces|
  {
    if i == 0 then front else pieces[i - 1].start + |pieces[i - 1].content|
  }

  ghost predicate InOrder(front: nat, pieces: seq<Piece>) {
    forall i | 0 <= i < |pieces| :: Clear(front, pieces, i)
  }

  /** Nothing in front of piece i reaches into it. */
  predicate Clear(front: nat, pieces: seq<Piece>, i: nat)
    requires i < |pieces|
  {
    FrontEnd(front, pieces, i) <= pieces[i].start
  }

  lemma InOrderNext(front: nat, pieces: seq<Piece>)
    requires pieces != []
    ensures var k := |pieces| - 1;
            InOrder(front, pieces) <==> InOrder(front, pieces[..k]) && Clear(front, pieces, k)
  {
    var k := |pieces| - 1;
    forall i | 0 <= i < k
      ensures Clear(front, pieces[..k], i) == Clear(front, pieces, i)
    {
      FrontEndPrefix(front, pieces, k, i);
    }
  }

  lemma FrontEndPrefix(front: nat, pieces: seq<Piece>, k: nat, i: nat)
    requires i <= k <= |pieces|
    ensures FrontEnd(front, pieces[..k], i) == FrontEnd(front, pieces, i)
  {
  }

  lemma {:induction false} PlacedIff(front: Bytes, pieces: seq<Piece>)
    ensures Placed(front, pieces).Some? <==> InOrder(|front|, pieces)
    ensures Placed(front, pieces).Some? ==> |Placed(front, pieces).value| == FrontEnd(|front|, pieces, |pieces|)
  {
    if pieces != [] {
      PlacedIff(front, pieces[..|pieces| - 1]);
      InOrderNext(|front|, pieces);
    }
  }

  /** Bundling fails exactly when some app would start before the bytes in front of it end. */
  lemma BundlesIff(header: Bytes, kernel: Bytes, apps: seq<App>, base: nat)
    requires After(apps, base)
    ensures Bundled(header, kernel, apps, base).Some?
            <==> InOrder(|header + kernel|, Pieces(apps, base, |header|))
  {
    PlacedIff(header + kernel, Pieces(apps, base, |header|));
  }

  // ----- what the bundle holds -----

  /** The piece at its place, and zeros between what comes before and it. */
  ghost predicate HoldsPiece(r: Bytes, from: nat, p: Piece) {
    && from <= p.start && p.start + |p.content| <= |r|
    && r[p.start..p.start + |p.content|] == p.content
    && forall q | from <= q < p.start :: r[q] == 0
  }

  lemma ExtendHolds(b: Bytes, p: Piece)
    requires |b| <= p.start
    ensures b <= Extend(b, p) && HoldsPiece(Extend(b, p), |b|, p)
  {
  }

  lemma LongerHolds(b: Bytes, r: Bytes, from: nat, p: Piece)
    requires b <= r && HoldsPiece(b, from, p)
    ensures HoldsPiece(r, from, p)
  {
    assert r[p.start..p.start + |p.content|] == b[p.start..p.start + |p.content|];
  }

  lemma {:induction false} PlacedHolds(front: Bytes, pieces: seq<Piece>, i: nat)
    requires i < |pieces| && Placed(front, pieces).Some?
    ensures HoldsPiece(Placed(front, pieces).value, FrontEnd(|front|, pieces, i), pieces[i])
  {
    var k := |pieces| - 1;
    var b := Placed(front, pieces[..k]).value;
    PlacedIff(front, pieces[..k]);
    ExtendHolds(b, pieces[k]);
    FrontEndPrefix(|front|, pieces, k, i);
    if i < k {
      PlacedHolds(front, pieces[..k], i);
      LongerHolds(b, Extend(b, pieces[k]), FrontEnd(|front|, pieces, i), pieces[i]);
    }
  }

  lemma {:induction false} PlacedFront(front: Bytes, pieces: seq<Piece>)
    requires Placed(front, pieces).Some?
    ensures front <= Placed(front, pieces).value
  {
    if pieces != [] {
      PlacedFront(front, pieces[..|pieces| - 1]);
      ExtendHolds(Placed(front, pieces[..|pieces| - 1]).value, pieces[|pieces| - 1]);
    }
  }

  /** The bundle is a multiple of 256 bytes; the header and kernel come first; each app is at its
      place; everything else is zero. */
  ghost predicate Faithful(r: Bytes, front: Bytes, pieces: seq<Piece>) {
    && |r| % 256 == 0 && front <= r
    && (forall i | 0 <= i < |pieces| :: HoldsPiece(r, FrontEnd(|front|, pieces, i), pieces[i]))
    && ZeroTail(r, FrontEnd(|front|, pieces, |pieces|))
  }

  ghost predicate ZeroTail(r: Bytes, from: nat) {
    from <= |r| < from + 256 && forall q | from <= q < |r| :: r[q] == 0
  }

  lemma RoundedTail(b: Bytes)
    ensures b <= Rounded(b) && |Rounded(b)| % 256 == 0 && ZeroTail(Rounded(b), |b|)
  {
  }

  lemma PlacedFaithful(front: Bytes, pieces: seq<Piece>)
    requires Placed(front, pieces).Some?
    ensures Faithful(Rounded(Placed(front, pieces).value), front, pieces)
  {
    var b := Placed(front, pieces).value;
    PlacedIff(front, pieces);
    PlacedFront(front, pieces);
    RoundedTail(b);
    forall i | 0 <= i < |pieces|
      ensures HoldsPiece(Rounded(b), FrontEnd(|front|, pieces, i), pieces[i])
    {
      PlacedHolds(front, pieces, i);
      LongerHolds(b, Rounded(b), FrontEnd(|front|, pieces, i), pieces[i]);
    }
  }

  ghost predicate Holds(r: Bytes, at: int, content: Bytes) {
    0 <= at && at + |content| <= |r| && r[at..at + |content|] == content
  }

  lemma FaithfulHolds(r: Bytes, front: Bytes, pieces: seq<Piece>, i: nat)
    requires Faithful(r, front, pieces) && i < |pieces|
    ensures Holds(r, pieces[i].start, pieces[i].content)
  {
    assert HoldsPiece(r, FrontEnd(|front|, pieces, i), pieces[i]);
  }

  ghost predicate AppAt(r: Bytes, headerLen: nat, app: App, base: nat) {
    Holds(r, headerLen + app.block.offset - base, app.header + app.binary)
  }

  lemma PieceAt(r: Bytes, apps: seq<App>, base: nat, headerLen: nat, i: nat)
    requires After(apps, base) && i < |apps|
    requires var p := Pieces(apps, base, headerLen)[i]; Holds(r, p.start, p.content)
    ensures AppAt(r, headerLen, apps[i], base)
  {
    assert Pieces(apps, base, headerLen)[i] == PieceOf(apps[i], base, headerLen);
  }

  lemma FaithfulInPlace(r: Bytes, header: Bytes, kernel: Bytes, apps: seq<App>, base: nat)
    requires After(apps, base) && Faithful(r, header + kernel, Pieces(apps, base, |header|))
    ensures InPlace(r, header, kernel, apps, base)
  {
    FrontOf(r, header, kernel);
    forall i | 0 <= i < |apps|
      ensures AppAt(r, |header|, apps[i], base)
    {
      FaithfulHolds(r, header + kernel, Pieces(apps, base, |header|), i);
      PieceAt(r, apps, base, |header|, i);
    }
  }

  /** Every app, header and binary, behind the image header at the distance its block has from
      the kernel's; the kernel directly behind the image header. */
  ghost predicate InPlace(r: Bytes, header: Bytes, kernel: Bytes, apps: seq<App>, base: nat) {
    && Holds(r, 0, header) && Holds(r, |header|, kernel)
    && forall i | 0 <= i < |apps| :: AppAt(r, |header|, apps[i], base)
  }

  lemma AppsInPlace(header: Bytes, kernel: Bytes, apps: seq<App>, base: nat)
    requires After(apps, base) && Bundled(header, kernel, apps, base).Some?
    ensures InPlace(Bundled(header, kernel, apps, base).value, header, kernel, apps, base)
  {
    PlacedFaithful(header + kernel, Pieces(apps, base, |header|));
    FaithfulInPlace(Bundled(header, kernel, apps, base).value, header, kernel, apps, base);
  }

  lemma FrontOf(r: Bytes, header: Bytes, kernel: Bytes)
    requires header + kernel <= r
    ensures Holds(r, 0, header) && Holds(r, |header|, kernel)
  {
    assert (header + kernel)[..|header|] == header;
    assert (header + kernel)[|header|..] == kernel;
  }

  // ----- bundling what was laid out -----

  ghost predicate Built(l: Layout, kernel: Bytes, apps: seq<App>) {
    && |l.blocks| == |apps| + 1 && |kernel| <= l.blocks[0].size
    && forall i | 0 <= i < |apps| ::
         apps[i].block == l.blocks[i + 1] && |apps[i].header + apps[i].binary| <= apps[i].block.size
  }

  lemma BuiltAfter(l: Layout, kernel: Bytes, apps: seq<App>)
    requires Built(l, kernel, apps)
    requires forall i, j | 0 <= i < j < |l.blocks| :: End(l.blocks[i]) <= l.blocks[j].offset
    ensures After(apps, l.blocks[0].offset)
  {
    forall i | 0 <= i < |apps|
      ensures l.blocks[0].offset <= apps[i].block.offset
    {
      assert End(l.blocks[0]) <= l.blocks[i + 1].offset;
    }
  }

  lemma BuiltInOrder(l: Layout, headerLen: nat, kernel: Bytes, apps: seq<App>)
    requires Built(l, kernel, apps) && After(apps, l.blocks[0].offset)
    requires forall i, j | 0 <= i < j < |l.blocks| :: End(l.blocks[i]) <= l.blocks[j].offset
    ensures InOrder(headerLen + |kernel|, Pieces(apps, l.blocks[0].offset, headerLen))
  {
    var front := headerLen + |kernel|;
    var pieces := Pieces(apps, l.blocks[0].offset, headerLen);
    forall i | 0 <= i < |pieces|
      ensures Clear(front, pieces, i)
    {
      assert End(l.blocks[i]) <= l.blocks[i + 1].offset;
      if i > 0 { assert apps[i - 1].block == l.blocks[i]; }
    }
  }

  lemma BuiltBundles(l: Layout, header: Bytes, kernel: Bytes, apps: seq<App>)
    requires Built(l, kernel, apps) && After(apps, l.blocks[0].offset)
    requires forall i, j | 0 <= i < j < |l.blocks| :: End(l.blocks[i]) <= l.blocks[j].offset
    ensures Bundled(header, kernel, apps, l.blocks[0].offset).Some?
  {
    BuiltInOrder(l, |header|, kernel, apps);
    BundlesIff(header, kernel, apps, l.blocks[0].offset);
  }

  /** If every binary, with its header, fits the block the allocator gave it, bundling never
      fails, and every app lands where it was linked. */
  lemma LaidOutBundles(
    m: Memory, requests: seq<Request>, default: Alignment, header: Bytes, kernel: Bytes, apps: seq<App>)
    requires AllocateAll(m, requests, default).Some?
    requires Built(AllocateAll(m, requests, default).value, kernel, apps)
    ensures var base := AllocateAll(m, requests, default).value.blocks[0].offset;
            && After(apps, base)
            && Bundled(header, kernel, apps, base).Some?
            && var r := Bundled(header, kernel, apps, base).value;
            Faithful(r, header + kernel, Pieces(apps, base, |header|)) && InPlace(r, header, kernel, apps, base)
  {
    var l := AllocateAll(m, requests, default).value;
    LayoutSound(m, requests, default);
    BuiltAfter(l, kernel, apps);
    BuiltBundles(l, header, kernel, apps);
    PlacedFaithful(header + kernel, Pieces(apps, l.blocks[0].offset, |header|));
    AppsInPlace(header, kernel, apps, l.blocks[0].offset);
  }
}
