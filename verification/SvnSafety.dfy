/** What SVN processing guarantees: all-or-nothing checks, floors that only rise, and when
    the same manifest can boot again. */
module SvnSafety {
  import opened Words
  import opened Wrappers
  import opened SvnManifest
  import opened Svn
  import L = FuseLayout
  import T = Thermometer
  import C = CaliptraSvn

  function Cap(pf: Platform, t: Target): nat
    requires Names(pf, t)
  {
    if t.Slot? then L.CountBits(pf.layouts[t.index]) else C.CALIPTRA_SVN_BITS
  }

  /** A request the checks let through: a readable target, within its range. */
  predicate InRange(pf: Platform, r: Request) {
    && Names(pf, r.target)
    && (r.target.Slot? ==> L.Fits(pf.layouts[r.target.index]))
    && r.floor <= Cap(pf, r.target)
  }

  predicate AllInRange(pf: Platform, reqs: seq<Request>) { forall r | r in reqs :: InRange(pf, r) }

  /** Fuses in any condition, as long as they are 32-bit words. */
  predicate Words32(pf: Platform, f: Fuses) {
    Shaped(pf, f) && T.AreWords(f.runtime) && T.AreWords(f.soc)
  }

  // ----- no request is refused -----

  lemma {:induction false} EntriesInRange(pf: Platform, es: seq<Entry>, f: Fuses)
    requires PlatformOk(pf) && Shaped(pf, f) && forall e | e in es :: EntryOk(pf, e, f)
    ensures AllInRange(pf, EntryRequests(pf, es))
  {
    if es != [] {
      assert es[0] in es && forall e | e in es[1..] :: e in es;
      EntriesInRange(pf, es[1..], f);
    }
  }

  lemma RequestsInRange(pf: Platform, m: Manifest, f: Fuses, fwSvn: Option<nat>)
    requires PlatformOk(pf) && Shaped(pf, f)
    requires WellFormed(m, LimitsOf(pf)) && Passes(pf, m, f, fwSvn)
    ensures AllInRange(pf, Requests(pf, m))
  {
    EntriesInRange(pf, m.entries, f);
  }

  lemma RaiseFuse(cur: seq<nat>, v: nat)
    requires |cur| == C.SVN_WORDS && T.AreWords(cur) && T.Decode(cur) < v <= C.CALIPTRA_SVN_BITS
    ensures var after := T.OrAll(cur, T.Encode(v, C.SVN_WORDS));
            |after| == C.SVN_WORDS && T.AreWords(after) && T.Decode(after) >= v
  {
    C.BurnAnyFuses(cur, v);
  }

  /** A request in range is carried out; its target rises to at least the request, and
      no other target changes. */
  lemma RaiseWorks(pf: Platform, f: Fuses, r: Request)
    requires Words32(pf, f) && InRange(pf, r)
    ensures Raise(pf, f, r).Some? && Words32(pf, Raise(pf, f, r).value)
    ensures var f' := Raise(pf, f, r).value;
            && Level(pf, f, r.target).Some? && Level(pf, f', r.target).Some?
            && Level(pf, f', r.target).value >= Max(Level(pf, f, r.target).value, r.floor)
    ensures var f' := Raise(pf, f, r).value;
            forall t | Names(pf, t) && t != r.target :: Level(pf, f', t) == Level(pf, f, t)
  {
    match r.target
    case Slot(i) =>
      var l := pf.layouts[i];
      if r.floor > Level(pf, f, r.target).value { L.BurnNeverLowers(l, f.slots[i], r.floor); }
    case Runtime =>
      if r.floor > T.Decode(f.runtime) { RaiseFuse(f.runtime, r.floor); }
    case Soc =>
      if r.floor > T.Decode(f.soc) { RaiseFuse(f.soc, r.floor); }
  }

  /** Levels only rise, request by request. */
  predicate NoLower(pf: Platform, f: Fuses, g: Fuses)
    requires Shaped(pf, f) && Shaped(pf, g)
  {
    && (forall i | 0 <= i < |pf.layouts| :: Higher(Level(pf, f, Slot(i)), Level(pf, g, Slot(i))))
    && Higher(Level(pf, f, Runtime), Level(pf, g, Runtime))
    && Higher(Level(pf, f, Soc), Level(pf, g, Soc))
  }

  predicate Higher(a: Option<nat>, b: Option<nat>) { a == b || (a.Some? && b.Some? && a.value <= b.value) }

  lemma {:induction false} BurnWorks(pf: Platform, f: Fuses, reqs: seq<Request>)
    requires Words32(pf, f) && AllInRange(pf, reqs)
    ensures Burn(pf, f, reqs).Some? && Words32(pf, Burn(pf, f, reqs).value)
    ensures NoLower(pf, f, Burn(pf, f, reqs).value)
    decreases |reqs|
  {
    if reqs != [] {
      assert reqs[0] in reqs && forall r | r in reqs[1..] :: r in reqs;
      RaiseWorks(pf, f, reqs[0]);
      BurnWorks(pf, Raise(pf, f, reqs[0]).value, reqs[1..]);
    }
  }

  /** A cut raise lowers nothing. */
  lemma CutLowersNothing(pf: Platform, f: Fuses, r: Request, words: nat)
    requires Words32(pf, f) && Names(pf, r.target)
    ensures Words32(pf, Cut(pf, f, r, words)) && NoLower(pf, f, Cut(pf, f, r, words))
  {
    var done := Min(words, C.SVN_WORDS);
    C.CutNeverLowers(f.runtime, r.floor, done);
    C.CutNeverLowers(f.soc, r.floor, done);
  }

  lemma NoLowerTwice(pf: Platform, f: Fuses, g: Fuses, h: Fuses)
    requires Shaped(pf, f) && Shaped(pf, g) && Shaped(pf, h) && NoLower(pf, f, g) && NoLower(pf, g, h)
    ensures NoLower(pf, f, h)
  {
    forall i | 0 <= i < |pf.layouts|
      ensures Higher(Level(pf, f, Slot(i)), Level(pf, h, Slot(i)))
    {
      assert Higher(Level(pf, f, Slot(i)), Level(pf, g, Slot(i)));
      assert Higher(Level(pf, g, Slot(i)), Level(pf, h, Slot(i)));
    }
  }

  lemma SpendWorks(pf: Platform, f: Fuses, reqs: seq<Request>, power: nat, words: nat)
    requires Words32(pf, f) && AllInRange(pf, reqs)
    ensures AllNamed(pf, reqs)
    ensures var g := Spend(pf, f, reqs, power, words);
            g.Some? && Words32(pf, g.value) && NoLower(pf, f, g.value)
  {
    var k := Min(power, |reqs|);
    assert forall r | r in reqs[..k] :: r in reqs;
    BurnWorks(pf, f, reqs[..k]);
    if k < |reqs| {
      assert reqs[k] in reqs;
      var g := Burn(pf, f, reqs[..k]).value;
      CutLowersNothing(pf, g, reqs[k], words);
      NoLowerTwice(pf, f, g, Cut(pf, g, reqs[k], words));
    }
  }

  /** Once the checks have passed, no burn is refused, whatever the fuses held before, so
      only a power loss can keep a passing boot from committing; and no boot lowers a floor,
      wherever inside its burns it loses power. */
  lemma ProcessNeverFails(
    pf: Platform, m: Manifest, f: Fuses, fwSvn: Option<nat>, enforced: bool, power: nat, words: nat)
    requires PlatformOk(pf) && Words32(pf, f)
    ensures var (f', out) := Process(pf, m, f, fwSvn, enforced, power, words);
            && out != BurnFailed
            && Words32(pf, f') && NoLower(pf, f, f')
            && (out in {NoManifest, NotEnforced, Rejected} ==> f' == f)
  {
    if m.magic == MAGIC && Validate(m, LimitsOf(pf)).Success? && Passes(pf, m, f, fwSvn) {
      ValidateExact(m, LimitsOf(pf));
      RequestsInRange(pf, m, f, fwSvn);
      SpendWorks(pf, f, Requests(pf, m), power, words);
    }
  }

  datatype BootInput = BootInput(manifest: Manifest, fwSvn: Option<nat>, enforced: bool, power: nat, words: nat)

  function Boots(pf: Platform, f: Fuses, ins: seq<BootInput>): (r: Fuses)
    requires PlatformOk(pf) && Words32(pf, f)
    ensures Words32(pf, r)
    decreases |ins|
  {
    if ins == [] then f
    else
      var b := ins[0];
      ProcessNeverFails(pf, b.manifest, f, b.fwSvn, b.enforced, b.power, b.words);
      Boots(pf, Process(pf, b.manifest, f, b.fwSvn, b.enforced, b.power, b.words).0, ins[1..])
  }

  /** Over any sequence of boots, with any manifests and any power losses between or inside
      burns, no floor drops. */
  lemma {:induction false} FloorsNeverDrop(pf: Platform, f: Fuses, ins: seq<BootInput>)
    requires PlatformOk(pf) && Words32(pf, f)
    ensures NoLower(pf, f, Boots(pf, f, ins))
    decreases |ins|
  {
    if ins != [] {
      var b := ins[0];
      ProcessNeverFails(pf, b.manifest, f, b.fwSvn, b.enforced, b.power, b.words);
      var g := Process(pf, b.manifest, f, b.fwSvn, b.enforced, b.power, b.words).0;
      FloorsNeverDrop(pf, g, ins[1..]);
      NoLowerTwice(pf, f, g, Boots(pf, g, ins[1..]));
    }
  }
}
