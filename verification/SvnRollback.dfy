/** What a boot admits, in terms of manifest and fuses only, and that rollback stays out. */
module SvnRollback {
  import opened Words
  import opened Wrappers
  import opened SvnManifest
  import opened Svn
  import opened SvnSafety
  import opened SvnCommit
  import L = FuseLayout
  import T = Thermometer

  /** A readable counter that is not above this version. */
  predicate AtMostFuse(l: L.Layout, raw: nat, svn: nat) {
    L.Extract(l, raw).Some? && L.Extract(l, raw).value <= svn
  }

  /** What the documentation demands of one entry: nothing of an empty one; otherwise a minimum
      not above the current version and, if the first map entry for the component names a slot,
      both in the slot's range and the current version not below its fuse. */
  ghost predicate EntryAdmissible(pf: Platform, e: Entry, f: Fuses)
    requires PlatformOk(pf) && Shaped(pf, f)
  {
    (e.componentId != 0 || e.currentSvn != 0 || e.minSvn != 0) ==>
      && e.minSvn <= e.currentSvn
      && forall k | 0 <= k < |pf.fuseMap| && FirstFor(pf.fuseMap, e.componentId, k) ::
           var slot := pf.fuseMap[k].slot;
           slot < |pf.layouts| && e.currentSvn <= L.CountBits(pf.layouts[slot])
           && AtMostFuse(pf.layouts[slot], f.slots[slot], e.currentSvn)
  }

  ghost predicate Admissible(pf: Platform, m: Manifest, f: Fuses, fwSvn: Option<nat>)
    requires PlatformOk(pf) && Shaped(pf, f)
  {
    && m.magic == 0x4D43_5356 && m.formatVersion == 1
    && m.minSvn <= m.currentSvn <= L.CountBits(pf.layouts[pf.header])
    && m.runtimeMinSvn <= 128 && m.socManifestMinSvn <= 128
    && AtMostFuse(pf.layouts[pf.header], f.slots[pf.header], m.currentSvn)
    && (m.runtimeMinSvn > 0 ==> fwSvn.Some? && fwSvn.value >= m.runtimeMinSvn)
    && forall e | e in m.entries :: EntryAdmissible(pf, e, f)
  }

  lemma {:induction false} FirstIsLookup(fuseMap: seq<MapEntry>, id: nat, k: nat)
    requires k < |fuseMap| && FirstFor(fuseMap, id, k)
    ensures Lookup(fuseMap, id) == Some(fuseMap[k].slot)
  {
    if k > 0 { FirstIsLookup(fuseMap[1..], id, k - 1); }
  }

  /** A mapped, non-empty entry has the slot of its first map entry. */
  lemma MappedEntry(pf: Platform, e: Entry, k: nat)
    requires PlatformOk(pf) && k < |pf.fuseMap| && FirstFor(pf.fuseMap, e.componentId, k)
    requires e.componentId != 0 || e.currentSvn != 0 || e.minSvn != 0
    ensures SlotOf(pf, e) == Some(pf.fuseMap[k].slot)
  {
    FirstIsLookup(pf.fuseMap, e.componentId, k);
  }

  lemma EntryMeans(pf: Platform, e: Entry, f: Fuses)
    requires PlatformOk(pf) && Shaped(pf, f)
    ensures EntryFormed(e) && EntryOk(pf, e, f) <==> EntryAdmissible(pf, e, f)
  {
    if !IsEmpty(e) {
      var i := LookupFirst(pf.fuseMap, e.componentId);
      if Lookup(pf.fuseMap, e.componentId).Some? {
        MappedEntry(pf, e, i);
        forall k | 0 <= k < |pf.fuseMap| && FirstFor(pf.fuseMap, e.componentId, k)
          ensures pf.fuseMap[k].slot == pf.fuseMap[i].slot
        {
          FirstIsLookup(pf.fuseMap, e.componentId, k);
        }
      }
    }
  }

  lemma EntriesMean(pf: Platform, es: seq<Entry>, f: Fuses)
    requires PlatformOk(pf) && Shaped(pf, f)
    ensures (forall e | e in es :: EntryFormed(e)) && (forall e | e in es :: EntryOk(pf, e, f))
            <==> forall e | e in es :: EntryAdmissible(pf, e, f)
  {
    forall e | e in es
      ensures EntryFormed(e) && EntryOk(pf, e, f) <==> EntryAdmissible(pf, e, f)
    {
      EntryMeans(pf, e, f);
    }
  }

  lemma AcceptableMeans(pf: Platform, m: Manifest, f: Fuses, fwSvn: Option<nat>)
    requires PlatformOk(pf) && Shaped(pf, f)
    ensures Acceptable(pf, m, f, fwSvn) <==> Admissible(pf, m, f, fwSvn)
  {
    EntriesMean(pf, m.entries, f);
  }

  /** A boot burns anything at all exactly when it enforces anti-rollback and the manifest is
      admissible; otherwise a manifest that is present and enforced is rejected. */
  lemma BootAdmitsIff(
    pf: Platform, m: Manifest, f: Fuses, fwSvn: Option<nat>, enforced: bool, power: nat, words: nat)
    requires PlatformOk(pf) && Words32(pf, f)
    ensures var out := Process(pf, m, f, fwSvn, enforced, power, words).1;
            && (out in {Committed, PowerLost} <==> enforced && Admissible(pf, m, f, fwSvn))
            && (m.magic == 0x4D43_5356 && enforced && !Admissible(pf, m, f, fwSvn)
                ==> Process(pf, m, f, fwSvn, enforced, power, words) == (f, Rejected))
            && (m.magic != 0x4D43_5356 ==> Process(pf, m, f, fwSvn, enforced, power, words) == (f, NoManifest))
  {
    ValidateExact(m, LimitsOf(pf));
    AcceptableMeans(pf, m, f, fwSvn);
    ProcessNeverFails(pf, m, f, fwSvn, enforced, power, words);
  }

  // ----- the floors a boot leaves -----

  lemma {:induction false} EntriesLeave(pf: Platform, es: seq<Entry>, t: Target)
    requires PlatformOk(pf) && !t.Slot?
    ensures MaxRequested(EntryRequests(pf, es), t) == 0
  {
    EntriesAvoid(pf, es, t);
  }

  /** The two Caliptra floors asked for are the header's. */
  lemma CaliptraFloors(pf: Platform, m: Manifest)
    requires PlatformOk(pf)
    ensures MaxRequested(Requests(pf, m), Runtime) == m.runtimeMinSvn
    ensures MaxRequested(Requests(pf, m), Soc) == m.socManifestMinSvn
  {
    var own, es, cal := [Request(Slot(pf.header), m.minSvn)], EntryRequests(pf, m.entries), CaliptraRequests(m);
    forall t | t == Runtime || t == Soc
      ensures MaxRequested(Requests(pf, m), t) == MaxRequested(cal, t)
    {
      EntriesLeave(pf, m.entries, t);
      MaxRequestedSplit(own + es, cal, t);
      MaxRequestedSplit(own, es, t);
      assert own[1..] == [];
    }
    CaliptraOnly(m);
  }

  lemma CaliptraOnly(m: Manifest)
    ensures MaxRequested(CaliptraRequests(m), Runtime) == m.runtimeMinSvn
    ensures MaxRequested(CaliptraRequests(m), Soc) == m.socManifestMinSvn
  {
    var r := if m.runtimeMinSvn > 0 then [Request(Runtime, m.runtimeMinSvn)] else [];
    var s := if m.socManifestMinSvn > 0 then [Request(Soc, m.socManifestMinSvn)] else [];
    assert |r| == 1 ==> r[1..] == [];
    assert |s| == 1 ==> s[1..] == [];
    MaxRequestedSplit(r, s, Runtime);
    MaxRequestedSplit(r, s, Soc);
  }

  /** After a commit on clean fuses: both Caliptra floors, the manifest's own, and that of a
      component alone on its slot are the larger of old and requested. */
  lemma CommittedFloors(pf: Platform, m: Manifest, f: Fuses, fwSvn: Option<nat>, i: nat, k: nat)
    requires PlatformOk(pf) && Clean(pf, f) && HeaderApart(pf, m) && Boot(pf, m, f, fwSvn).1 == Committed
    requires i < |m.entries| && k < |pf.fuseMap| && FirstFor(pf.fuseMap, m.entries[i].componentId, k)
    requires !IsEmpty(m.entries[i])
    requires forall j | 0 <= j < |m.entries| && j != i :: SlotOf(pf, m.entries[j]) != Some(pf.fuseMap[k].slot)
    ensures var g := Boot(pf, m, f, fwSvn).0;
            && Shaped(pf, g)
            && T.Decode(g.runtime) == Max(T.Decode(f.runtime), m.runtimeMinSvn)
            && T.Decode(g.soc) == Max(T.Decode(f.soc), m.socManifestMinSvn)
            && Level(pf, g, Slot(pf.header)) == Raised(Level(pf, f, Slot(pf.header)), m.minSvn)
            && Level(pf, g, Slot(pf.fuseMap[k].slot))
               == Raised(Level(pf, f, Slot(pf.fuseMap[k].slot)), m.entries[i].minSvn)
  {
    var slot := pf.fuseMap[k].slot;
    assert pf.fuseMap[k] in pf.fuseMap;
    CommitTakesMax(pf, m, f, fwSvn, Runtime);
    CommitTakesMax(pf, m, f, fwSvn, Soc);
    CommitTakesMax(pf, m, f, fwSvn, Slot(pf.header));
    CommitTakesMax(pf, m, f, fwSvn, Slot(slot));
    CaliptraFloors(pf, m);
    HeaderRequested(pf, m);
    MappedEntry(pf, m.entries[i], k);
    OnlyEntry(pf, m.entries, i);
    SlotRequested(pf, m, slot);
  }

  // ----- rollback -----

  /** Every request carried out is met from then on. */
  lemma {:induction false} BurnReaches(pf: Platform, f: Fuses, reqs: seq<Request>, r: Request)
    requires Words32(pf, f) && AllInRange(pf, reqs) && r in reqs
    ensures Burn(pf, f, reqs).Some? && Words32(pf, Burn(pf, f, reqs).value) && InRange(pf, r)
    ensures var level := Level(pf, Burn(pf, f, reqs).value, r.target);
            level.Some? && level.value >= r.floor
    decreases |reqs|
  {
    assert reqs[0] in reqs && forall q | q in reqs[1..] :: q in reqs;
    RaiseWorks(pf, f, reqs[0]);
    var g := Raise(pf, f, reqs[0]).value;
    if r == reqs[0] {
      BurnWorks(pf, g, reqs[1..]);
      LevelKept(pf, g, Burn(pf, g, reqs[1..]).value, r.target);
    } else {
      BurnReaches(pf, g, reqs[1..], r);
    }
  }

  lemma LevelKept(pf: Platform, f: Fuses, g: Fuses, t: Target)
    requires Shaped(pf, f) && Shaped(pf, g) && NoLower(pf, f, g) && Names(pf, t)
    ensures Higher(Level(pf, f, t), Level(pf, g, t))
  {
  }

  /** A floor a commit asked for holds over every later boot and power loss. */
  lemma FloorHolds(
    pf: Platform, m: Manifest, f: Fuses, fwSvn: Option<nat>, ins: seq<BootInput>, r: Request)
    requires PlatformOk(pf) && Words32(pf, f) && Boot(pf, m, f, fwSvn).1 == Committed && r in Requests(pf, m)
    ensures Words32(pf, Boot(pf, m, f, fwSvn).0) && Names(pf, r.target)
    ensures var level := Level(pf, Boots(pf, Boot(pf, m, f, fwSvn).0, ins), r.target);
            level.Some? && level.value >= r.floor
  {
    var reqs := Requests(pf, m);
    ValidateExact(m, LimitsOf(pf));
    RequestsInRange(pf, m, f, fwSvn);
    BurnReaches(pf, f, reqs, r);
    assert reqs[..|reqs|] == reqs;
    var g := Boot(pf, m, f, fwSvn).0;
    FloorsNeverDrop(pf, g, ins);
    LevelKept(pf, g, Boots(pf, g, ins), r.target);
  }

  /** Once a manifest has committed, no later boot admits one whose own version is below the
      minimum it set, whatever happened in between. */
  lemma HeaderRollbackRejected(
    pf: Platform, m: Manifest, f: Fuses, fwSvn: Option<nat>, ins: seq<BootInput>, later: BootInput)
    requires PlatformOk(pf) && Words32(pf, f) && Boot(pf, m, f, fwSvn).1 == Committed
    requires later.enforced && later.manifest.magic == 0x4D43_5356 && later.manifest.currentSvn < m.minSvn
    ensures Words32(pf, Boot(pf, m, f, fwSvn).0)
    ensures var g := Boots(pf, Boot(pf, m, f, fwSvn).0, ins);
            Process(pf, later.manifest, g, later.fwSvn, true, later.power, later.words) == (g, Rejected)
  {
    FloorHolds(pf, m, f, fwSvn, ins, Request(Slot(pf.header), m.minSvn));
    var g := Boots(pf, Boot(pf, m, f, fwSvn).0, ins);
    BootAdmitsIff(pf, later.manifest, g, later.fwSvn, true, later.power, later.words);
  }

  lemma {:induction false} EntryRequested(pf: Platform, es: seq<Entry>, e: Entry)
    requires PlatformOk(pf) && e in es && SlotOf(pf, e).Some?
    ensures Request(Slot(SlotOf(pf, e).value), e.minSvn) in EntryRequests(pf, es)
  {
    if e != es[0] {
      assert e in es[1..];
      EntryRequested(pf, es[1..], e);
    }
  }

  /** Likewise for components: no later manifest may carry a component on the same slot with a
      version below the minimum that was set. */
  lemma ComponentRollbackRejected(
    pf: Platform, m: Manifest, f: Fuses, fwSvn: Option<nat>, ins: seq<BootInput>, later: BootInput,
    e: Entry, k: nat, stale: Entry, j: nat)
    requires PlatformOk(pf) && Words32(pf, f) && Boot(pf, m, f, fwSvn).1 == Committed
    requires e in m.entries && !IsEmpty(e) && k < |pf.fuseMap| && FirstFor(pf.fuseMap, e.componentId, k)
    requires stale in later.manifest.entries && !IsEmpty(stale)
    requires j < |pf.fuseMap| && FirstFor(pf.fuseMap, stale.componentId, j) && pf.fuseMap[j].slot == pf.fuseMap[k].slot
    requires later.enforced && later.manifest.magic == 0x4D43_5356 && stale.currentSvn < e.minSvn
    ensures Words32(pf, Boot(pf, m, f, fwSvn).0)
    ensures var g := Boots(pf, Boot(pf, m, f, fwSvn).0, ins);
            Process(pf, later.manifest, g, later.fwSvn, true, later.power, later.words) == (g, Rejected)
  {
    MappedEntry(pf, e, k);
    EntryRequested(pf, m.entries, e);
    FloorHolds(pf, m, f, fwSvn, ins, Request(Slot(pf.fuseMap[k].slot), e.minSvn));
    var g := Boots(pf, Boot(pf, m, f, fwSvn).0, ins);
    BootAdmitsIff(pf, later.manifest, g, later.fwSvn, true, later.power, later.words);
    assert !EntryAdmissible(pf, stale, g);
  }
}
