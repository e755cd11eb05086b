/**
 SVN processing as the ROM runs it: checks that only read, then burns that write one fuse
 word after another.  Proved to be `Svn.Process`, and never to fail for range.
 */
module SvnRom {
  import opened Words
  import opened Wrappers
  import opened SvnManifest
  import opened Svn
  import opened SvnSafety
  import L = FuseLayout
  import C = CaliptraSvn

  lemma PrefixStep(r: Request, todo: seq<Request>, k: nat)
    requires k <= |todo|
    ensures ([r] + todo)[..k + 1] == [r] + todo[..k]
  {
  }

  lemma BurnFirst(pf: Platform, f: Fuses, r: Request, todo: seq<Request>)
    requires Words32(pf, f) && InRange(pf, r) && AllNamed(pf, todo) && AllNamed(pf, [r] + todo)
    ensures Raise(pf, f, r).Some? && Words32(pf, Raise(pf, f, r).value)
    ensures Burn(pf, f, [r] + todo) == Burn(pf, Raise(pf, f, r).value, todo)
  {
    RaiseWorks(pf, f, r);
    assert ([r] + todo)[1..] == todo;
  }

  /** One request carried out: what remains is spent on the others. */
  lemma SpendStep(pf: Platform, f: Fuses, r: Request, todo: seq<Request>, left: nat, words: nat)
    requires Words32(pf, f) && InRange(pf, r) && AllNamed(pf, todo) && left > 0
    ensures Raise(pf, f, r).Some? && Words32(pf, Raise(pf, f, r).value)
    ensures AllNamed(pf, [r] + todo)
    ensures Spend(pf, f, [r] + todo, left, words) == Spend(pf, Raise(pf, f, r).value, todo, left - 1, words)
  {
    var k := Min(left - 1, |todo|);
    PrefixStep(r, todo, k);
    NamedPrefix(pf, todo, k);
    BurnFirst(pf, f, r, todo[..k]);
    if k < |todo| { assert ([r] + todo)[k + 1] == todo[k]; }
  }

  lemma NamedPrefix(pf: Platform, todo: seq<Request>, k: nat)
    requires k <= |todo| && AllNamed(pf, todo)
    ensures AllNamed(pf, todo[..k])
  {
    assert forall q | q in todo[..k] :: q in todo;
  }

  /** The request power is lost in. */
  lemma SpendCut(pf: Platform, f: Fuses, r: Request, todo: seq<Request>, words: nat)
    requires Shaped(pf, f) && AllNamed(pf, [r] + todo) && Names(pf, r.target)
    ensures Spend(pf, f, [r] + todo, 0, words) == Some(Cut(pf, f, r, words))
  {
    assert ([r] + todo)[..0] == [];
  }

  class Rom {
    const pf: Platform
    const runtime: C.SvnFuse
    const soc: C.SvnFuse
    var slots: seq<nat>

    ghost predicate Valid()
      reads this, runtime, soc
    {
      && PlatformOk(pf) && |slots| == |pf.layouts|
      && runtime != soc && runtime.Valid() && soc.Valid()
    }

    ghost function View(): Fuses
      reads this, runtime, soc
    {
      Fuses(slots, runtime.words, soc.words)
    }

    constructor (pf: Platform, slots: seq<nat>, runtime: C.SvnFuse, soc: C.SvnFuse)
      requires PlatformOk(pf) && |slots| == |pf.layouts| && runtime != soc && runtime.Valid() && soc.Valid()
      ensures Valid() && View() == Fuses(slots, runtime.words, soc.words)
      ensures this.pf == pf && this.runtime == runtime && this.soc == soc
    {
      this.pf, this.slots, this.runtime, this.soc := pf, slots, runtime, soc;
    }

    method ReadFuse(slot: nat) returns (r: Option<nat>)
      requires Valid() && slot < |pf.layouts|
      ensures r == Level(pf, View(), Slot(slot))
    {
      r := L.Extract(pf.layouts[slot], slots[slot]);
    }

    /** check_per_component_min_svn. */
    method CheckComponents(m: Manifest) returns (ok: bool)
      requires Valid()
      ensures ok <==> forall e | e in m.entries :: EntryOk(pf, e, View())
    {
      for i := 0 to |m.entries|
        invariant forall j | 0 <= j < i :: EntryOk(pf, m.entries[j], View())
      {
        var e := m.entries[i];
        var slot := SlotOf(pf, e);
        if slot.Some? {
          var max := L.CountBits(pf.layouts[slot.value]);
          if e.currentSvn > max || e.minSvn > max {
            assert !EntryOk(pf, m.entries[i], View());
            return false;
          }
          var level := ReadFuse(slot.value);
          if level.None? || e.currentSvn < level.value {
            assert !EntryOk(pf, m.entries[i], View());
            return false;
          }
        }
      }
      ok := true;
    }

    /** read_fuse and burn_min_svn: written only if it raises the floor, and read back; for a
        request in range neither the write nor the read-back is ever refused. */
    method BurnSlot(slot: nat, requested: nat) returns (ok: bool)
      requires Valid() && InRange(pf, Request(Slot(slot), requested))
      modifies this
      ensures Valid() && ok
      ensures Some(View()) == Raise(pf, old(View()), Request(Slot(slot), requested))
    {
      RaiseWorks(pf, View(), Request(Slot(slot), requested));
      var current := ReadFuse(slot);
      if requested <= current.value { return true; }
      var code := L.Encode(pf.layouts[slot], requested);
      if code.None? { return false; }
      slots := slots[slot := Or(slots[slot], code.value)];
      var after := ReadFuse(slot);
      ok := after.Some? && after.value >= requested;
    }

    /** The runtime floor, with power for `words` of its four words or, if None, for all of it. */
    method BurnRuntime(target: nat, words: Option<nat>)
      requires Valid() && target <= C.CALIPTRA_SVN_BITS
      modifies runtime
      ensures Valid()
      ensures if words.None? then Some(View()) == Raise(pf, old(View()), Request(Runtime, target))
              else View() == Cut(pf, old(View()), Request(Runtime, target), words.value)
    {
      RaiseWorks(pf, View(), Request(Runtime, target));
      if words.None? {
        var ok := runtime.Burn(target);
      } else {
        C.CutNeverLowers(runtime.words, target, Min(words.value, C.SVN_WORDS));
        runtime.BurnCut(target, Min(words.value, C.SVN_WORDS));
      }
    }

    /** The SoC floor, likewise. */
    method BurnSoc(target: nat, words: Option<nat>)
      requires Valid() && target <= C.CALIPTRA_SVN_BITS
      modifies soc
      ensures Valid()
      ensures if words.None? then Some(View()) == Raise(pf, old(View()), Request(Soc, target))
              else View() == Cut(pf, old(View()), Request(Soc, target), words.value)
    {
      RaiseWorks(pf, View(), Request(Soc, target));
      if words.None? {
        var ok := soc.Burn(target);
      } else {
        C.CutNeverLowers(soc.words, target, Min(words.value, C.SVN_WORDS));
        soc.BurnCut(target, Min(words.value, C.SVN_WORDS));
      }
    }

    /** One entry of burn_per_component_min_svn; `cut` when power is lost before its burn. */
    method BurnEntry(e: Entry, power: nat, ghost words: nat, ghost after: seq<Request>) returns (left: nat, cut: bool)
      requires Valid() && AllInRange(pf, EntryRequest(pf, e)) && AllNamed(pf, after)
      modifies this
      ensures Valid()
      ensures var todo := EntryRequest(pf, e) + after;
              && (cut ==> power == 0 && EntryRequest(pf, e) != []
                          && Some(View()) == Spend(pf, old(View()), todo, power, words))
              && (!cut ==> left == power - |EntryRequest(pf, e)|
                           && Spend(pf, View(), after, left, words) == Spend(pf, old(View()), todo, power, words))
    {
      var slot := SlotOf(pf, e);
      if slot.None? {
        assert [] + after == after;
        return power, false;
      }
      ghost var r := Request(Slot(slot.value), e.minSvn);
      assert r in EntryRequest(pf, e);
      if power == 0 {
        SpendCut(pf, View(), r, after, words);
        return 0, true;
      }
      SpendStep(pf, View(), r, after, power, words);
      var ok := BurnSlot(slot.value, e.minSvn);
      return power - 1, false;
    }

    /** burn_per_component_min_svn, stopping when power is lost. */
    method BurnComponents(m: Manifest, power: nat, ghost words: nat, ghost after: seq<Request>)
      returns (left: nat, cut: bool)
      requires Valid() && AllInRange(pf, EntryRequests(pf, m.entries)) && AllNamed(pf, after)
      modifies this
      ensures Valid()
      ensures var todo := EntryRequests(pf, m.entries) + after;
              && (cut ==> power < |EntryRequests(pf, m.entries)|
                          && Some(View()) == Spend(pf, old(View()), todo, power, words))
              && (!cut ==> left == power - |EntryRequests(pf, m.entries)|
                           && Spend(pf, View(), after, left, words) == Spend(pf, old(View()), todo, power, words))
    {
      left := power;
      ghost var es := m.entries;
      assert es[0..] == es;
      for i := 0 to |m.entries|
        invariant Valid() && AllInRange(pf, EntryRequests(pf, es[i..]))
        invariant left - |EntryRequests(pf, es[i..])| == power - |EntryRequests(pf, es)|
        invariant Spend(pf, View(), EntryRequests(pf, es[i..]) + after, left, words)
                  == Spend(pf, old(View()), EntryRequests(pf, es) + after, power, words)
      {
        EntryRequestsFrom(pf, es, i, after);
        left, cut := BurnEntry(m.entries[i], left, words, EntryRequests(pf, es[i + 1..]) + after);
        if cut { return; }
      }
      assert EntryRequests(pf, es[|es|..]) + after == after;
      cut := false;
    }

    /** burn_caliptra_owned_svns. */
    method BurnCaliptra(m: Manifest, power: nat, words: nat) returns (cut: bool)
      requires Valid() && AllInRange(pf, CaliptraRequests(m))
      modifies runtime, soc
      ensures Valid()
      ensures Some(View()) == Spend(pf, old(View()), CaliptraRequests(m), power, words)
      ensures cut <==> power < |CaliptraRequests(m)|
    {
      ghost var reqs := CaliptraRequests(m);
      ghost var socReqs := if m.socManifestMinSvn > 0 then [Request(Soc, m.socManifestMinSvn)] else [];
      var left := power;
      if m.runtimeMinSvn > 0 {
        ghost var r := Request(Runtime, m.runtimeMinSvn);
        assert r in reqs && reqs == [r] + socReqs;
        if left == 0 {
          SpendCut(pf, View(), r, socReqs, words);
          BurnRuntime(m.runtimeMinSvn, Some(words));
          return true;
        }
        SpendStep(pf, View(), r, socReqs, left, words);
        BurnRuntime(m.runtimeMinSvn, None);
        left := left - 1;
      } else {
        assert reqs == socReqs;
      }
      if m.socManifestMinSvn > 0 { assert Request(Soc, m.socManifestMinSvn) in reqs; }
      cut := BurnLast(m, left, words, socReqs);
    }

    method BurnLast(m: Manifest, power: nat, words: nat, ghost todo: seq<Request>) returns (cut: bool)
      requires Valid() && m.socManifestMinSvn <= C.CALIPTRA_SVN_BITS
      requires todo == if m.socManifestMinSvn > 0 then [Request(Soc, m.socManifestMinSvn)] else []
      modifies soc
      ensures Valid()
      ensures Some(View()) == Spend(pf, old(View()), todo, power, words)
      ensures cut <==> power < |todo|
    {
      if m.socManifestMinSvn == 0 { return false; }
      ghost var r := Request(Soc, m.socManifestMinSvn);
      assert todo == [r] + [];
      if power == 0 {
        SpendCut(pf, View(), r, [], words);
        BurnSoc(m.socManifestMinSvn, Some(words));
        return true;
      }
      SpendStep(pf, View(), r, [], power, words);
      BurnSoc(m.socManifestMinSvn, None);
      return false;
    }

    /** process_svn_manifest; power is lost `words` fuse words into request number `power`. */
    method ProcessManifest(m: Manifest, fwSvn: Option<nat>, enforced: bool, power: nat, words: nat)
      returns (out: Outcome)
      requires Valid()
      modifies this, runtime, soc
      ensures Valid()
      ensures (View(), out) == Process(pf, m, old(View()), fwSvn, enforced, power, words)
      ensures out != BurnFailed
      ensures out == Rejected ==> View() == old(View())
    {
      if m.magic != MAGIC { return NoManifest; }
      if Validate(m, LimitsOf(pf)).Failure? { return Rejected; }
      if !enforced { return NotEnforced; }
      var level := ReadFuse(pf.header);
      if level.None? || m.currentSvn < level.value { return Rejected; }
      var componentsOk := CheckComponents(m);
      if !componentsOk || !RuntimeOk(m, fwSvn) { return Rejected; }
      ValidateExact(m, LimitsOf(pf));
      RequestsInRange(pf, m, View(), fwSvn);
      var cut := BurnAll(m, power, words);
      return if cut then PowerLost else Committed;
    }

    method BurnAll(m: Manifest, power: nat, words: nat) returns (cut: bool)
      requires Valid() && AllInRange(pf, Requests(pf, m))
      modifies this, runtime, soc
      ensures Valid()
      ensures Some(View()) == Spend(pf, old(View()), Requests(pf, m), power, words)
      ensures cut <==> power < |Requests(pf, m)|
    {
      ghost var own := Request(Slot(pf.header), m.minSvn);
      ghost var others := EntryRequests(pf, m.entries) + CaliptraRequests(m);
      RequestParts(pf, m);
      if power == 0 {
        SpendCut(pf, View(), own, others, words);
        return true;
      }
      SpendStep(pf, View(), own, others, power, words);
      var ok := BurnSlot(pf.header, m.minSvn);
      cut := BurnOthers(m, power - 1, words, others);
    }

    method BurnOthers(m: Manifest, power: nat, words: nat, ghost todo: seq<Request>) returns (cut: bool)
      requires Valid() && AllInRange(pf, EntryRequests(pf, m.entries)) && AllInRange(pf, CaliptraRequests(m))
      requires todo == EntryRequests(pf, m.entries) + CaliptraRequests(m) && AllNamed(pf, todo)
      modifies this, runtime, soc
      ensures Valid()
      ensures Some(View()) == Spend(pf, old(View()), todo, power, words)
      ensures cut <==> power < |todo|
    {
      var left;
      left, cut := BurnComponents(m, power, words, CaliptraRequests(m));
      if cut { return; }
      cut := BurnCaliptra(m, left, words);
    }
  }

  lemma RequestParts(pf: Platform, m: Manifest)
    requires PlatformOk(pf) && AllInRange(pf, Requests(pf, m))
    ensures var own, es, cal := Request(Slot(pf.header), m.minSvn), EntryRequests(pf, m.entries), CaliptraRequests(m);
            && Requests(pf, m) == [own] + (es + cal)
            && InRange(pf, own) && AllInRange(pf, es) && AllInRange(pf, cal) && AllNamed(pf, es + cal)
  {
    var own, es, cal := Request(Slot(pf.header), m.minSvn), EntryRequests(pf, m.entries), CaliptraRequests(m);
    assert Requests(pf, m) == [own] + (es + cal);
    assert own in Requests(pf, m);
    assert forall r | r in es || r in cal :: r in Requests(pf, m);
  }

  lemma EntryRequestsFrom(pf: Platform, es: seq<Entry>, i: nat, after: seq<Request>)
    requires PlatformOk(pf) && i < |es|
    ensures EntryRequests(pf, es[i..]) == EntryRequest(pf, es[i]) + EntryRequests(pf, es[i + 1..])
    ensures EntryRequests(pf, es[i..]) + after == EntryRequest(pf, es[i]) + (EntryRequests(pf, es[i + 1..]) + after)
  {
    assert es[i..][1..] == es[i + 1..];
  }
}
