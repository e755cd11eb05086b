/**
 The MCU component SVN manifest (romtime/src/component_svn_manifest.rs): its structural
 validation, which entries count, and which fuse slot a component maps to.
 */
module SvnManifest {
  import opened Words
  import opened Wrappers

  const MAGIC: u32 := 0x4D43_5356
  const FORMAT_VERSION := 1

  datatype Entry = Entry(componentId: nat, currentSvn: nat, minSvn: nat)

  datatype Manifest = Manifest(
    magic: u32, formatVersion: nat, currentSvn: byte, minSvn: byte,
    runtimeMinSvn: byte, socManifestMinSvn: byte, entries: seq<Entry>)

  datatype Limits = Limits(manifestMax: nat, runtimeMax: nat, socMax: nat)

  datatype Error =
    | MagicMismatch
    | UnsupportedVersion(version: nat)
    | HeaderMinExceedsCurrent(minSvn: nat, currentSvn: nat)
    | HeaderExceedsFuse(value: nat, max: nat)
    | EntryMinExceedsCurrent(index: nat, minSvn: nat, currentSvn: nat)

  predicate IsEmpty(e: Entry) { e.componentId == 0 && e.currentSvn == 0 && e.minSvn == 0 }

  predicate EntryFormed(e: Entry) { IsEmpty(e) || e.minSvn <= e.currentSvn }

  function CheckEntries(es: seq<Entry>, i: nat): Result<(), Error>
    requires i <= |es|
    decreases |es| - i
  {
    if i == |es| then Success(())
    else if !EntryFormed(es[i]) then Failure(EntryMinExceedsCurrent(i, es[i].minSvn, es[i].currentSvn))
    else CheckEntries(es, i + 1)
  }

  function Validate(m: Manifest, l: Limits): Result<(), Error> {
    if m.magic != MAGIC then Failure(MagicMismatch)
    else if m.formatVersion != FORMAT_VERSION then Failure(UnsupportedVersion(m.formatVersion))
    else if m.minSvn > m.currentSvn then Failure(HeaderMinExceedsCurrent(m.minSvn, m.currentSvn))
    else if m.currentSvn > l.manifestMax then Failure(HeaderExceedsFuse(m.currentSvn, l.manifestMax))
    else if m.runtimeMinSvn > l.runtimeMax then Failure(HeaderExceedsFuse(m.runtimeMinSvn, l.runtimeMax))
    else if m.socManifestMinSvn > l.socMax then Failure(HeaderExceedsFuse(m.socManifestMinSvn, l.socMax))
    else CheckEntries(m.entries, 0)
  }

  /** The documented constraints, as one condition. */
  ghost predicate WellFormed(m: Manifest, l: Limits) {
    && m.magic == MAGIC && m.formatVersion == FORMAT_VERSION
    && m.minSvn <= m.currentSvn <= l.manifestMax
    && m.runtimeMinSvn <= l.runtimeMax && m.socManifestMinSvn <= l.socMax
    && forall e | e in m.entries :: EntryFormed(e)
  }

  lemma {:induction false} CheckEntriesExact(es: seq<Entry>, i: nat)
    requires i <= |es|
    ensures CheckEntries(es, i).Success? <==> forall e | e in es[i..] :: EntryFormed(e)
    ensures CheckEntries(es, i).Failure? ==>
              && CheckEntries(es, i).error.EntryMinExceedsCurrent?
              && i <= CheckEntries(es, i).error.index < |es|
              && !EntryFormed(es[CheckEntries(es, i).error.index])
              && forall j | i <= j < CheckEntries(es, i).error.index :: EntryFormed(es[j])
    decreases |es| - i
  {
    if i < |es| {
      assert es[i..] == [es[i]] + es[i + 1..];
      CheckEntriesExact(es, i + 1);
    }
  }

  /** Validation accepts exactly the well-formed manifests; a refused entry is the first bad one. */
  lemma ValidateExact(m: Manifest, l: Limits)
    ensures Validate(m, l).Success? <==> WellFormed(m, l)
    ensures Validate(m, l).Failure? && Validate(m, l).error.EntryMinExceedsCurrent? ==>
              var i := Validate(m, l).error.index;
              i < |m.entries| && !EntryFormed(m.entries[i]) && forall j | 0 <= j < i :: EntryFormed(m.entries[j])
  {
    CheckEntriesExact(m.entries, 0);
    assert m.entries[0..] == m.entries;
  }

  // ----- component to slot -----

  datatype MapEntry = MapEntry(componentId: nat, slot: nat)

  function Lookup(fuseMap: seq<MapEntry>, componentId: nat): Option<nat> {
    if fuseMap == [] then None
    else if fuseMap[0].componentId == componentId then Some(fuseMap[0].slot)
    else Lookup(fuseMap[1..], componentId)
  }

  ghost predicate FirstFor(fuseMap: seq<MapEntry>, componentId: nat, i: nat) {
    && i < |fuseMap| && fuseMap[i].componentId == componentId
    && forall j | 0 <= j < i :: fuseMap[j].componentId != componentId
  }

  /** Lookup finds the slot of the first map entry for the component, if there is one. */
  lemma {:induction false} LookupFirst(fuseMap: seq<MapEntry>, componentId: nat) returns (i: nat)
    ensures Lookup(fuseMap, componentId).Some? ==>
              FirstFor(fuseMap, componentId, i) && Lookup(fuseMap, componentId) == Some(fuseMap[i].slot)
    ensures Lookup(fuseMap, componentId).None? ==>
              forall j | 0 <= j < |fuseMap| :: fuseMap[j].componentId != componentId
  {
    i := 0;
    if fuseMap != [] && fuseMap[0].componentId != componentId {
      i := LookupFirst(fuseMap[1..], componentId);
      i := i + 1;
      assert forall j | 1 <= j < |fuseMap| :: fuseMap[1..][j - 1] == fuseMap[j];
    }
  }
}
