/**
 SVN anti-rollback (rom/src/firmware_headers.rs): validate the manifest, check every
 floor, and only then raise them.  Fuses only gain bits, so each raise is an OR.
 */
module Svn {
  import opened Words
  import opened Wrappers
  import opened SvnManifest
  import L = FuseLayout
  import T = Thermometer
  import C = CaliptraSvn

  /** The fuse table: one word per slot; `header` is the manifest's own floor. */
  datatype Platform = Platform(layouts: seq<L.Layout>, header: nat, fuseMap: seq<MapEntry>)

  predicate PlatformOk(pf: Platform) {
    pf.header < |pf.layouts| && forall e | e in pf.fuseMap :: e.slot < |pf.layouts|
  }

  datatype Fuses = Fuses(slots: seq<nat>, runtime: seq<nat>, soc: seq<nat>)

  datatype Target = Slot(index: nat) | Runtime | Soc

  datatype Request = Request(target: Target, floor: nat)

  predicate Shaped(pf: Platform, f: Fuses) {
    && |f.slots| == |pf.layouts|
    && |f.runtime| == C.SVN_WORDS && |f.soc| == C.SVN_WORDS
  }

  predicate Names(pf: Platform, t: Target) { t.Slot? ==> t.index < |pf.layouts| }

  /** What the fuses read as; None when the layout cannot be read. */
  function Level(pf: Platform, f: Fuses, t: Target): Option<nat>
    requires Shaped(pf, f) && Names(pf, t)
  {
    match t
    case Slot(i) => L.Extract(pf.layouts[i], f.slots[i])
    case Runtime => Some(T.Decode(f.runtime))
    case Soc => Some(T.Decode(f.soc))
  }

  /** The fuses after writing floor v over them. */
  function Written(pf: Platform, f: Fuses, t: Target, v: nat): Option<Fuses>
    requires Shaped(pf, f) && Names(pf, t)
  {
    match t
    case Slot(i) =>
      var code := L.Encode(pf.layouts[i], v);
      if code.None? then None else Some(f.(slots := f.slots[i := Or(f.slots[i], code.value)]))
    case Runtime =>
      if v > C.CALIPTRA_SVN_BITS then None
      else Some(f.(runtime := T.OrAll(f.runtime, T.Encode(v, C.SVN_WORDS))))
    case Soc =>
      if v > C.CALIPTRA_SVN_BITS then None
      else Some(f.(soc := T.OrAll(f.soc, T.Encode(v, C.SVN_WORDS))))
  }

  /** Raise a floor if the request exceeds it; None when the read, write or read-back fails. */
  function Raise(pf: Platform, f: Fuses, r: Request): Option<Fuses>
    requires Shaped(pf, f) && Names(pf, r.target)
  {
    var level := Level(pf, f, r.target);
    if level.None? then None
    else if r.floor <= level.value then Some(f)
    else
      var f' := Written(pf, f, r.target, r.floor);
      if f'.Some? && Shaped(pf, f'.value) && Level(pf, f'.value, r.target).Some?
         && Level(pf, f'.value, r.target).value >= r.floor
      then f' else None
  }

  predicate AllNamed(pf: Platform, reqs: seq<Request>) { forall r | r in reqs :: Names(pf, r.target) }

  function Burn(pf: Platform, f: Fuses, reqs: seq<Request>): (r: Option<Fuses>)
    requires Shaped(pf, f) && AllNamed(pf, reqs)
    ensures r.Some? ==> Shaped(pf, r.value)
    decreases |reqs|
  {
    if reqs == [] then Some(f)
    else
      assert reqs[0] in reqs && forall r | r in reqs[1..] :: r in reqs;
      var f' := Raise(pf, f, reqs[0]);
      if f'.None? then None else Burn(pf, f'.value, reqs[1..])
  }

  // ----- one boot -----

  function LimitsOf(pf: Platform): Limits
    requires PlatformOk(pf)
  {
    Limits(L.CountBits(pf.layouts[pf.header]), C.CALIPTRA_SVN_BITS, C.CALIPTRA_SVN_BITS)
  }

  predicate HeaderOk(pf: Platform, m: Manifest, f: Fuses)
    requires PlatformOk(pf) && Shaped(pf, f)
  {
    var level := Level(pf, f, Slot(pf.header));
    level.Some? && m.currentSvn >= level.value
  }

  /** The slot an entry is checked against: none for empty and unmapped entries. */
  function SlotOf(pf: Platform, e: Entry): (r: Option<nat>)
    requires PlatformOk(pf)
    ensures r.Some? ==> r.value < |pf.layouts|
  {
    var slot := Lookup(pf.fuseMap, e.componentId);
    MappedSlot(pf.fuseMap, e.componentId);
    if IsEmpty(e) then None else slot
  }

  lemma MappedSlot(fuseMap: seq<MapEntry>, componentId: nat)
    ensures Lookup(fuseMap, componentId).Some?
            ==> exists e | e in fuseMap :: Lookup(fuseMap, componentId) == Some(e.slot)
  {
    var i := LookupFirst(fuseMap, componentId);
    if Lookup(fuseMap, componentId).Some? { assert fuseMap[i] in fuseMap; }
  }

  predicate EntryOk(pf: Platform, e: Entry, f: Fuses)
    requires PlatformOk(pf) && Shaped(pf, f)
  {
    var slot := SlotOf(pf, e);
    slot.Some? ==>
      var max := L.CountBits(pf.layouts[slot.value]);
      var level := Level(pf, f, Slot(slot.value));
      e.currentSvn <= max && e.minSvn <= max && level.Some? && e.currentSvn >= level.value
  }

  predicate RuntimeOk(m: Manifest, fwSvn: Option<nat>) {
    m.runtimeMinSvn == 0 || (fwSvn.Some? && fwSvn.value >= m.runtimeMinSvn)
  }

  predicate Passes(pf: Platform, m: Manifest, f: Fuses, fwSvn: Option<nat>)
    requires PlatformOk(pf) && Shaped(pf, f)
  {
    HeaderOk(pf, m, f) && (forall e | e in m.entries :: EntryOk(pf, e, f)) && RuntimeOk(m, fwSvn)
  }

  function EntryRequest(pf: Platform, e: Entry): (reqs: seq<Request>)
    requires PlatformOk(pf)
    ensures AllNamed(pf, reqs)
  {
    var slot := SlotOf(pf, e);
    if slot.Some? then [Request(Slot(slot.value), e.minSvn)] else []
  }

  function EntryRequests(pf: Platform, es: seq<Entry>): (reqs: seq<Request>)
    requires PlatformOk(pf)
    ensures AllNamed(pf, reqs)
  {
    if es == [] then [] else EntryRequest(pf, es[0]) + EntryRequests(pf, es[1..])
  }

  function CaliptraRequests(m: Manifest): seq<Request> {
    (if m.runtimeMinSvn > 0 then [Request(Runtime, m.runtimeMinSvn)] else [])
    + (if m.socManifestMinSvn > 0 then [Request(Soc, m.socManifestMinSvn)] else [])
  }

  /** Every floor the manifest asks for, in the order it is burned. */
  function Requests(pf: Platform, m: Manifest): (reqs: seq<Request>)
    requires PlatformOk(pf)
    ensures AllNamed(pf, reqs)
  {
    [Request(Slot(pf.header), m.minSvn)] + EntryRequests(pf, m.entries) + CaliptraRequests(m)
  }

  datatype Outcome = NoManifest | NotEnforced | Rejected | BurnFailed | PowerLost | Committed

  /** What is left of a raise that loses power after `words` of its fuse words: the Caliptra
      floors take four, a slot's single word is written or not. */
  function Cut(pf: Platform, f: Fuses, r: Request, words: nat): (g: Fuses)
    requires Shaped(pf, f) && Names(pf, r.target)
    ensures Shaped(pf, g)
  {
    var done := Min(words, C.SVN_WORDS);
    match r.target
    case Slot(_) => f
    case Runtime =>
      if r.floor <= T.Decode(f.runtime) then f
      else f.(runtime := C.Mixed(f.runtime, T.Encode(r.floor, C.SVN_WORDS), done))
    case Soc =>
      if r.floor <= T.Decode(f.soc) then f
      else f.(soc := C.Mixed(f.soc, T.Encode(r.floor, C.SVN_WORDS), done))
  }

  /** Carry out requests; power is lost `words` fuse words into request number `power`. */
  function Spend(pf: Platform, f: Fuses, reqs: seq<Request>, power: nat, words: nat): (r: Option<Fuses>)
    requires Shaped(pf, f) && AllNamed(pf, reqs)
    ensures r.Some? ==> Shaped(pf, r.value)
  {
    var k := Min(power, |reqs|);
    assert forall r | r in reqs[..k] :: r in reqs;
    var f' := Burn(pf, f, reqs[..k]);
    if f'.None? || k == |reqs| then f'
    else
      assert reqs[k] in reqs;
      Some(Cut(pf, f'.value, reqs[k], words))
  }

  /** One boot, losing power `words` fuse words into request number `power`. */
  function Process(pf: Platform, m: Manifest, f: Fuses, fwSvn: Option<nat>, enforced: bool, power: nat, words: nat)
    : (Fuses, Outcome)
    requires PlatformOk(pf) && Shaped(pf, f)
  {
    if m.magic != MAGIC then (f, NoManifest)
    else if Validate(m, LimitsOf(pf)).Failure? then (f, Rejected)
    else if !enforced then (f, NotEnforced)
    else if !Passes(pf, m, f, fwSvn) then (f, Rejected)
    else
      var reqs := Requests(pf, m);
      var f' := Spend(pf, f, reqs, power, words);
      if f'.None? then (f, BurnFailed) else (f'.value, if power < |reqs| then PowerLost else Committed)
  }

  /** One boot that keeps power to the end. */
  function Boot(pf: Platform, m: Manifest, f: Fuses, fwSvn: Option<nat>): (Fuses, Outcome)
    requires PlatformOk(pf) && Shaped(pf, f)
  {
    Process(pf, m, f, fwSvn, true, |Requests(pf, m)|, 0)
  }
}
