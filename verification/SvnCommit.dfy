/** Exact results on fuses that have only ever been written by this code. */
module SvnCommit {
  import opened Words
  import opened Wrappers
  import opened SvnManifest
  import opened Svn
  import opened SvnSafety
  import L = FuseLayout
  import T = Thermometer
  import C = CaliptraSvn

  predicate CleanFuse(ws: seq<nat>) {
    T.Decode(ws) <= C.CALIPTRA_SVN_BITS && ws == T.Encode(T.Decode(ws), C.SVN_WORDS)
  }

  predicate CleanSlot(l: L.Layout, raw: nat) {
    L.IsCounter(l) ==>
      && L.Extract(l, raw).Some? && L.Extract(l, raw).value <= L.CountBits(l)
      && L.Encode(l, L.Extract(l, raw).value) == Some(raw)
  }

  /** Every counter holds exactly the code of its value. */
  predicate Clean(pf: Platform, f: Fuses) {
    && Words32(pf, f)
    && CleanFuse(f.runtime) && CleanFuse(f.soc)
    && forall i | 0 <= i < |pf.layouts| :: CleanSlot(pf.layouts[i], f.slots[i])
  }

  function MaxRequested(reqs: seq<Request>, t: Target): nat {
    if reqs == [] then 0
    else Max(if reqs[0].target == t then reqs[0].floor else 0, MaxRequested(reqs[1..], t))
  }

  lemma RaiseCleanFuse(ws: seq<nat>, v: nat)
    requires CleanFuse(ws) && T.Decode(ws) < v <= C.CALIPTRA_SVN_BITS
    ensures var after := T.OrAll(ws, T.Encode(v, C.SVN_WORDS));
            T.Decode(after) == v && CleanFuse(after)
  {
    C.EncodeMonotone(T.Decode(ws), v);
    C.RoundTrip(v);
  }

  lemma RaiseCleanSlot(l: L.Layout, raw: nat, v: nat)
    requires L.IsCounter(l) && CleanSlot(l, raw)
    requires L.Extract(l, raw).value < v <= L.CountBits(l)
    ensures L.Encode(l, v).Some?
    ensures var after := Or(raw, L.Encode(l, v).value);
            L.Extract(l, after) == Some(v) && CleanSlot(l, after)
  {
    L.BurnTakesMax(l, L.Extract(l, raw).value, v);
  }

  lemma RaiseClean(pf: Platform, f: Fuses, r: Request)
    requires Clean(pf, f) && InRange(pf, r)
    ensures Raise(pf, f, r).Some? && Clean(pf, Raise(pf, f, r).value)
    ensures Level(pf, f, r.target).Some?
    ensures Level(pf, Raise(pf, f, r).value, r.target) == Some(Max(Level(pf, f, r.target).value, r.floor))
  {
    RaiseWorks(pf, f, r);
    match r.target
    case Slot(i) =>
      if r.floor > Level(pf, f, r.target).value { RaiseCleanSlot(pf.layouts[i], f.slots[i], r.floor); }
    case Runtime =>
      if r.floor > T.Decode(f.runtime) { RaiseCleanFuse(f.runtime, r.floor); }
    case Soc =>
      if r.floor > T.Decode(f.soc) { RaiseCleanFuse(f.soc, r.floor); }
  }

  /** The reading of any target once floor `v` has been asked for it. */
  function Raised(level: Option<nat>, v: nat): Option<nat> {
    if level.None? then None else Some(Max(level.value, v))
  }

  lemma RaiseLevel(pf: Platform, f: Fuses, r: Request, t: Target)
    requires Clean(pf, f) && InRange(pf, r) && Names(pf, t)
    ensures Raise(pf, f, r).Some? && Clean(pf, Raise(pf, f, r).value)
    ensures Level(pf, Raise(pf, f, r).value, t) == Raised(Level(pf, f, t), if r.target == t then r.floor else 0)
  {
    RaiseWorks(pf, f, r);
    RaiseClean(pf, f, r);
  }

  /** Burning a list of requests leaves every target at the larger of its old floor and
      the largest floor requested for it. */
  lemma {:induction false} BurnTakesMax(pf: Platform, f: Fuses, reqs: seq<Request>, t: Target)
    requires Clean(pf, f) && AllInRange(pf, reqs) && Names(pf, t)
    ensures Burn(pf, f, reqs).Some? && Clean(pf, Burn(pf, f, reqs).value)
    ensures Level(pf, Burn(pf, f, reqs).value, t) == Raised(Level(pf, f, t), MaxRequested(reqs, t))
    decreases |reqs|
  {
    if reqs != [] {
      assert reqs[0] in reqs && forall r | r in reqs[1..] :: r in reqs;
      RaiseLevel(pf, f, reqs[0], t);
      var f' := BurnStep(pf, f, reqs);
      BurnTakesMax(pf, f', reqs[1..], t);
      RaisedTwice(Level(pf, f, t), if reqs[0].target == t then reqs[0].floor else 0, MaxRequested(reqs[1..], t));
    }
  }

  lemma RaisedTwice(level: Option<nat>, a: nat, b: nat)
    ensures Raised(Raised(level, a), b) == Raised(level, Max(a, b))
  {
  }

  lemma BurnStep(pf: Platform, f: Fuses, reqs: seq<Request>) returns (f': Fuses)
    requires Shaped(pf, f) && reqs != [] && AllNamed(pf, reqs) && AllNamed(pf, reqs[1..])
    requires Names(pf, reqs[0].target) && Raise(pf, f, reqs[0]).Some? && Shaped(pf, Raise(pf, f, reqs[0]).value)
    ensures Raise(pf, f, reqs[0]) == Some(f') && Shaped(pf, f')
    ensures Burn(pf, f, reqs) == Burn(pf, f', reqs[1..])
  {
    f' := Raise(pf, f, reqs[0]).value;
  }

  ghost predicate Acceptable(pf: Platform, m: Manifest, f: Fuses, fwSvn: Option<nat>) {
    PlatformOk(pf) && Shaped(pf, f) && WellFormed(m, LimitsOf(pf)) && Passes(pf, m, f, fwSvn)
  }

  /** A boot commits exactly when the manifest is well-formed and passes every check; then
      every floor is the maximum of its old value and everything requested for it. */
  lemma CommitTakesMax(pf: Platform, m: Manifest, f: Fuses, fwSvn: Option<nat>, t: Target)
    requires PlatformOk(pf) && Clean(pf, f) && Names(pf, t)
    ensures var (f', out) := Boot(pf, m, f, fwSvn);
            && (out == Committed <==> Acceptable(pf, m, f, fwSvn))
            && Clean(pf, f')
            && Level(pf, f', t)
               == Raised(Level(pf, f, t), if out == Committed then MaxRequested(Requests(pf, m), t) else 0)
  {
    ValidateExact(m, LimitsOf(pf));
    if Acceptable(pf, m, f, fwSvn) {
      var reqs := Requests(pf, m);
      RequestsInRange(pf, m, f, fwSvn);
      BurnTakesMax(pf, f, reqs, t);
      assert reqs[..|reqs|] == reqs;
    }
  }

  // ----- booting the same manifest again -----

  /** No entry has fallen behind a floor requested for the slot it shares. */
  predicate KeepsUp(pf: Platform, m: Manifest)
    requires PlatformOk(pf)
  {
    forall e | e in m.entries ::
      SlotOf(pf, e).Some? ==> e.currentSvn >= MaxRequested(Requests(pf, m), Slot(SlotOf(pf, e).value))
  }

  /** The manifest's own floor is not shared with a component. */
  predicate HeaderApart(pf: Platform, m: Manifest)
    requires PlatformOk(pf)
  {
    forall e | e in m.entries :: SlotOf(pf, e) != Some(pf.header)
  }

  lemma {:induction false} MaxRequestedBounds(reqs: seq<Request>, t: Target, r: Request)
    requires r in reqs && r.target == t
    ensures MaxRequested(reqs, t) >= r.floor
  {
    if reqs[0] != r { MaxRequestedBounds(reqs[1..], t, r); }
  }

  lemma {:induction false} MaxRequestedSplit(a: seq<Request>, b: seq<Request>, t: Target)
    ensures MaxRequested(a + b, t) == Max(MaxRequested(a, t), MaxRequested(b, t))
  {
    if a == [] {
      assert a + b == b;
    } else {
      assert (a + b)[1..] == a[1..] + b;
      MaxRequestedSplit(a[1..], b, t);
    }
  }

  lemma {:induction false} EntriesAvoid(pf: Platform, es: seq<Entry>, t: Target)
    requires PlatformOk(pf) && forall e | e in es :: SlotOf(pf, e).None? || Slot(SlotOf(pf, e).value) != t
    ensures MaxRequested(EntryRequests(pf, es), t) == 0
  {
    if es != [] {
      assert es[0] in es && forall e | e in es[1..] :: e in es;
      EntriesAvoid(pf, es[1..], t);
      MaxRequestedSplit(EntryRequest(pf, es[0]), EntryRequests(pf, es[1..]), t);
    }
  }

  /** Only the header and the entries ask for slots. */
  lemma SlotRequested(pf: Platform, m: Manifest, i: nat)
    requires PlatformOk(pf)
    ensures MaxRequested(Requests(pf, m), Slot(i))
            == Max(if i == pf.header then m.minSvn else 0, MaxRequested(EntryRequests(pf, m.entries), Slot(i)))
  {
    var t := Slot(i);
    var own, es := [Request(Slot(pf.header), m.minSvn)], EntryRequests(pf, m.entries);
    MaxRequestedSplit(own + es, CaliptraRequests(m), t);
    MaxRequestedSplit(own, es, t);
    var rt := if m.runtimeMinSvn > 0 then [Request(Runtime, m.runtimeMinSvn)] else [];
    var soc := if m.socManifestMinSvn > 0 then [Request(Soc, m.socManifestMinSvn)] else [];
    MaxRequestedSplit(rt, soc, t);
  }

  /** What is requested for the manifest's own slot is its own minimum. */
  lemma HeaderRequested(pf: Platform, m: Manifest)
    requires PlatformOk(pf) && HeaderApart(pf, m)
    ensures MaxRequested(Requests(pf, m), Slot(pf.header)) == m.minSvn
  {
    EntriesAvoid(pf, m.entries, Slot(pf.header));
    SlotRequested(pf, m, pf.header);
  }

  lemma {:induction false} BurnIdle(pf: Platform, f: Fuses, reqs: seq<Request>)
    requires Words32(pf, f) && AllNamed(pf, reqs)
    requires forall r | r in reqs :: Level(pf, f, r.target).Some? && r.floor <= Level(pf, f, r.target).value
    ensures Burn(pf, f, reqs) == Some(f)
  {
    if reqs != [] {
      assert reqs[0] in reqs && forall r | r in reqs[1..] :: r in reqs;
      BurnIdle(pf, f, reqs[1..]);
    }
  }

  predicate AtMost(a: Option<nat>, b: Option<nat>) { b.Some? ==> a.Some? && a.value <= b.value }

  /** The checks of a manifest on fuses some of its requests have already raised. */
  lemma PassesAgain(pf: Platform, m: Manifest, f: Fuses, g: Fuses, fwSvn: Option<nat>)
    requires Acceptable(pf, m, f, fwSvn) && HeaderApart(pf, m) && KeepsUp(pf, m) && Shaped(pf, g)
    requires forall t | Names(pf, t) ::
      AtMost(Level(pf, g, t), Raised(Level(pf, f, t), MaxRequested(Requests(pf, m), t)))
    ensures Passes(pf, m, g, fwSvn)
  {
    HeaderRequested(pf, m);
    assert Level(pf, f, Slot(pf.header)).Some?;
    forall e | e in m.entries
      ensures EntryOk(pf, e, g)
    {
      assert EntryOk(pf, e, f);
    }
  }

  lemma PassesIff(pf: Platform, m: Manifest, f: Fuses, g: Fuses, fwSvn: Option<nat>)
    requires Acceptable(pf, m, f, fwSvn) && HeaderApart(pf, m) && Shaped(pf, g)
    requires forall t | Names(pf, t) :: Level(pf, g, t) == Raised(Level(pf, f, t), MaxRequested(Requests(pf, m), t))
    ensures Passes(pf, m, g, fwSvn) <==> KeepsUp(pf, m)
  {
    if KeepsUp(pf, m) {
      PassesAgain(pf, m, f, g, fwSvn);
    } else {
      var e :| e in m.entries && SlotOf(pf, e).Some?
               && e.currentSvn < MaxRequested(Requests(pf, m), Slot(SlotOf(pf, e).value));
      assert EntryOk(pf, e, f);
      assert !EntryOk(pf, e, g);
    }
  }

  lemma RequestsMet(pf: Platform, f: Fuses, g: Fuses, reqs: seq<Request>)
    requires Words32(pf, f) && Words32(pf, g) && AllInRange(pf, reqs)
    requires forall t | Names(pf, t) :: Level(pf, g, t) == Raised(Level(pf, f, t), MaxRequested(reqs, t))
    ensures Burn(pf, g, reqs) == Some(g)
  {
    forall r | r in reqs
      ensures Level(pf, g, r.target).Some? && r.floor <= Level(pf, g, r.target).value
    {
      assert InRange(pf, r);
      MaxRequestedBounds(reqs, r.target, r);
    }
    BurnIdle(pf, g, reqs);
  }

  /** After a committed boot, the same manifest passes again, and then changes nothing, if
      and only if no entry has fallen behind a floor requested for its slot. */
  lemma RerunIff(pf: Platform, m: Manifest, f: Fuses, fwSvn: Option<nat>)
    requires PlatformOk(pf) && Clean(pf, f) && HeaderApart(pf, m)
    requires Boot(pf, m, f, fwSvn).1 == Committed
    ensures var f' := Boot(pf, m, f, fwSvn).0;
            && Shaped(pf, f')
            && Boot(pf, m, f', fwSvn) == (f', if KeepsUp(pf, m) then Committed else Rejected)
  {
    var reqs := Requests(pf, m);
    var f' := Boot(pf, m, f, fwSvn).0;
    CommitTakesMax(pf, m, f, fwSvn, Runtime);
    RequestsInRange(pf, m, f, fwSvn);
    forall t | Names(pf, t)
      ensures Level(pf, f', t) == Raised(Level(pf, f, t), MaxRequested(reqs, t))
    {
      CommitTakesMax(pf, m, f, fwSvn, t);
    }
    PassesIff(pf, m, f, f', fwSvn);
    RequestsMet(pf, f, f', reqs);
    assert reqs[..|reqs|] == reqs;
  }

  /** Entries that share no slot can never fall behind. */
  lemma UnsharedKeepsUp(pf: Platform, m: Manifest)
    requires PlatformOk(pf) && WellFormed(m, LimitsOf(pf)) && HeaderApart(pf, m)
    requires forall i, j | 0 <= i < j < |m.entries| ::
      SlotOf(pf, m.entries[i]).None? || SlotOf(pf, m.entries[i]) != SlotOf(pf, m.entries[j])
    ensures KeepsUp(pf, m)
  {
    forall i | 0 <= i < |m.entries| && SlotOf(pf, m.entries[i]).Some?
      ensures m.entries[i].currentSvn >= MaxRequested(Requests(pf, m), Slot(SlotOf(pf, m.entries[i]).value))
    {
      var t := Slot(SlotOf(pf, m.entries[i]).value);
      assert m.entries[i] in m.entries && EntryFormed(m.entries[i]);
      OnlyEntry(pf, m.entries, i);
      SlotRequested(pf, m, t.index);
    }
  }

  lemma {:induction false} OnlyEntry(pf: Platform, es: seq<Entry>, i: nat)
    requires PlatformOk(pf) && i < |es| && SlotOf(pf, es[i]).Some?
    requires forall j | 0 <= j < |es| && j != i :: SlotOf(pf, es[j]) != SlotOf(pf, es[i])
    ensures MaxRequested(EntryRequests(pf, es), Slot(SlotOf(pf, es[i]).value)) == es[i].minSvn
  {
    var t := Slot(SlotOf(pf, es[i]).value);
    MaxRequestedSplit(EntryRequest(pf, es[0]), EntryRequests(pf, es[1..]), t);
    if i == 0 {
      EntriesAvoid(pf, es[1..], t);
    } else {
      OnlyEntry(pf, es[1..], i - 1);
    }
  }

  // ----- power loss between and inside burns -----

  lemma {:induction false} NonCountersKept(pf: Platform, f: Fuses, reqs: seq<Request>, i: nat)
    requires Clean(pf, f) && AllInRange(pf, reqs) && i < |pf.layouts| && !L.IsCounter(pf.layouts[i])
    ensures Burn(pf, f, reqs).Some? && Shaped(pf, Burn(pf, f, reqs).value)
    ensures Burn(pf, f, reqs).value.slots[i] == f.slots[i]
    decreases |reqs|
  {
    if reqs != [] {
      assert reqs[0] in reqs && forall r | r in reqs[1..] :: r in reqs;
      RaiseLevel(pf, f, reqs[0], Runtime);
      var f' := BurnStep(pf, f, reqs);
      NonCountersKept(pf, f', reqs[1..], i);
    }
  }

  lemma CleanDetermined(pf: Platform, f: Fuses, g: Fuses)
    requires Clean(pf, f) && Clean(pf, g)
    requires forall t | Names(pf, t) :: Level(pf, f, t) == Level(pf, g, t)
    requires forall i | 0 <= i < |pf.layouts| && !L.IsCounter(pf.layouts[i]) :: f.slots[i] == g.slots[i]
    ensures f == g
  {
    assert Level(pf, f, Runtime) == Level(pf, g, Runtime) && Level(pf, f, Soc) == Level(pf, g, Soc);
    forall i | 0 <= i < |pf.layouts|
      ensures f.slots[i] == g.slots[i]
    {
      assert Level(pf, f, Slot(i)) == Level(pf, g, Slot(i));
      assert CleanSlot(pf.layouts[i], f.slots[i]) && CleanSlot(pf.layouts[i], g.slots[i]);
    }
  }

  /** Nothing is asked for that is not asked for later. */
  ghost predicate Dominated(pf: Platform, pre: seq<Request>, reqs: seq<Request>) {
    forall t | Names(pf, t) :: MaxRequested(pre, t) <= MaxRequested(reqs, t)
  }

  lemma AbsorbLevels(pf: Platform, f: Fuses, pre: seq<Request>, reqs: seq<Request>, t: Target)
    requires Clean(pf, f) && AllInRange(pf, pre) && AllInRange(pf, reqs) && Names(pf, t)
    requires MaxRequested(pre, t) <= MaxRequested(reqs, t)
    ensures Burn(pf, f, pre).Some? && Clean(pf, Burn(pf, f, pre).value)
    ensures var f1 := Burn(pf, f, pre).value;
            && Burn(pf, f1, reqs).Some? && Burn(pf, f, reqs).Some?
            && Clean(pf, Burn(pf, f1, reqs).value) && Clean(pf, Burn(pf, f, reqs).value)
            && Level(pf, Burn(pf, f1, reqs).value, t) == Level(pf, Burn(pf, f, reqs).value, t)
            && AtMost(Level(pf, f1, t), Raised(Level(pf, f, t), MaxRequested(reqs, t)))
  {
    BurnTakesMax(pf, f, pre, t);
    BurnTakesMax(pf, f, reqs, t);
    BurnTakesMax(pf, Burn(pf, f, pre).value, reqs, t);
    RaisedTwice(Level(pf, f, t), MaxRequested(pre, t), MaxRequested(reqs, t));
  }

  /** Burning something dominated first and the requests later equals burning them once. */
  lemma BurnAbsorbs(pf: Platform, f: Fuses, pre: seq<Request>, reqs: seq<Request>)
    requires Clean(pf, f) && AllInRange(pf, pre) && AllInRange(pf, reqs) && Dominated(pf, pre, reqs)
    ensures Burn(pf, f, pre).Some? && Clean(pf, Burn(pf, f, pre).value)
    ensures Burn(pf, Burn(pf, f, pre).value, reqs) == Burn(pf, f, reqs)
    ensures forall t | Names(pf, t) ::
      AtMost(Level(pf, Burn(pf, f, pre).value, t), Raised(Level(pf, f, t), MaxRequested(reqs, t)))
  {
    AbsorbLevels(pf, f, pre, reqs, Runtime);
    var f1 := Burn(pf, f, pre).value;
    forall t | Names(pf, t)
      ensures Level(pf, Burn(pf, f1, reqs).value, t) == Level(pf, Burn(pf, f, reqs).value, t)
      ensures AtMost(Level(pf, f1, t), Raised(Level(pf, f, t), MaxRequested(reqs, t)))
    {
      AbsorbLevels(pf, f, pre, reqs, t);
    }
    forall i | 0 <= i < |pf.layouts| && !L.IsCounter(pf.layouts[i])
      ensures Burn(pf, f1, reqs).value.slots[i] == Burn(pf, f, reqs).value.slots[i]
    {
      NonCountersKept(pf, f, pre, i);
      NonCountersKept(pf, f1, reqs, i);
      NonCountersKept(pf, f, reqs, i);
    }
    CleanDetermined(pf, Burn(pf, f1, reqs).value, Burn(pf, f, reqs).value);
  }

  /** How far a cut raise got, as a floor of its own. */
  function Reached(r: Request, words: nat): nat {
    if r.target.Slot? then 0 else Min(r.floor, 32 * Min(words, C.SVN_WORDS))
  }

  lemma CutFuse(ws: seq<nat>, target: nat, done: nat)
    requires CleanFuse(ws) && T.Decode(ws) < target <= C.CALIPTRA_SVN_BITS && done <= C.SVN_WORDS
    ensures var v := Min(target, 32 * done);
            C.Mixed(ws, T.Encode(target, C.SVN_WORDS), done)
            == if v <= T.Decode(ws) then ws else T.OrAll(ws, T.Encode(v, C.SVN_WORDS))
  {
    var n, v := T.Decode(ws), Min(target, 32 * done);
    C.CutBurn(n, target, done);
    C.EncodeMonotone(n, v);
  }

  /** On clean fuses a cut raise is a complete raise to a lower floor. */
  lemma CutIsRaise(pf: Platform, f: Fuses, r: Request, words: nat)
    requires Clean(pf, f) && InRange(pf, r)
    ensures var lower := Request(r.target, Reached(r, words));
            InRange(pf, lower) && Raise(pf, f, lower) == Some(Cut(pf, f, r, words))
  {
    var lower := Request(r.target, Reached(r, words));
    var done := Min(words, C.SVN_WORDS);
    RaiseClean(pf, f, lower);
    match r.target
    case Slot(_) =>
    case Runtime =>
      if r.floor > T.Decode(f.runtime) { CutFuse(f.runtime, r.floor, done); }
    case Soc =>
      if r.floor > T.Decode(f.soc) { CutFuse(f.soc, r.floor, done); }
  }

  lemma {:induction false} BurnSnoc(pf: Platform, f: Fuses, a: seq<Request>, r: Request)
    requires Clean(pf, f) && AllInRange(pf, a) && InRange(pf, r)
    ensures AllInRange(pf, a + [r])
    ensures Burn(pf, f, a).Some? && Clean(pf, Burn(pf, f, a).value)
    ensures Burn(pf, f, a + [r]) == Raise(pf, Burn(pf, f, a).value, r)
    decreases |a|
  {
    BurnTakesMax(pf, f, a, Runtime);
    if a == [] {
      RaiseClean(pf, f, r);
      assert [] + [r] == [r] && [r][1..] == [];
    } else {
      assert a[0] in a && forall q | q in a[1..] :: q in a;
      assert (a + [r])[1..] == a[1..] + [r];
      RaiseClean(pf, f, a[0]);
      BurnSnoc(pf, Raise(pf, f, a[0]).value, a[1..], r);
    }
  }

  lemma CutDominated(pf: Platform, reqs: seq<Request>, k: nat, v: nat)
    requires k < |reqs| && v <= reqs[k].floor
    ensures Dominated(pf, reqs[..k], reqs) && Dominated(pf, reqs[..k] + [Request(reqs[k].target, v)], reqs)
  {
    var last := Request(reqs[k].target, v);
    assert reqs[..k] + reqs[k..] == reqs;
    forall t | Names(pf, t)
      ensures MaxRequested(reqs[..k], t) <= MaxRequested(reqs, t)
      ensures MaxRequested(reqs[..k] + [last], t) <= MaxRequested(reqs, t)
    {
      MaxRequestedSplit(reqs[..k], reqs[k..], t);
      MaxRequestedSplit(reqs[..k], [last], t);
      assert MaxRequested([last], t) == (if last.target == t then v else 0) by { assert [last][1..] == []; }
      if last.target == t { MaxRequestedBounds(reqs, t, reqs[k]); }
    }
  }

  /** Wherever power is lost, what was burned so far is what some dominated requests burn. */
  lemma SpendIsBurn(pf: Platform, f: Fuses, reqs: seq<Request>, power: nat, words: nat) returns (pre: seq<Request>)
    requires Clean(pf, f) && AllInRange(pf, reqs)
    ensures AllNamed(pf, reqs) && AllInRange(pf, pre) && Dominated(pf, pre, reqs)
    ensures Spend(pf, f, reqs, power, words) == Burn(pf, f, pre)
  {
    var k := Min(power, |reqs|);
    pre := reqs[..k];
    assert forall r | r in pre :: r in reqs;
    if k < |reqs| {
      assert reqs[k] in reqs;
      BurnTakesMax(pf, f, pre, Runtime);
      var lower := Request(reqs[k].target, Reached(reqs[k], words));
      CutIsRaise(pf, Burn(pf, f, pre).value, reqs[k], words);
      BurnSnoc(pf, f, pre, lower);
      CutDominated(pf, reqs, k, lower.floor);
      pre := pre + [lower];
    } else {
      assert pre == reqs;
    }
  }

  /** A boot that loses power between burns or inside one is made good by booting the same
      manifest again: it commits, and the fuses are those of a boot that kept power. */
  lemma CutThenRerun(pf: Platform, m: Manifest, f: Fuses, fwSvn: Option<nat>, power: nat, words: nat)
    requires PlatformOk(pf) && Clean(pf, f) && HeaderApart(pf, m) && KeepsUp(pf, m)
    requires Acceptable(pf, m, f, fwSvn)
    ensures var f1 := Process(pf, m, f, fwSvn, true, power, words).0;
            Shaped(pf, f1) && Boot(pf, m, f1, fwSvn) == (Boot(pf, m, f, fwSvn).0, Committed)
  {
    var reqs := Requests(pf, m);
    ValidateExact(m, LimitsOf(pf));
    RequestsInRange(pf, m, f, fwSvn);
    var pre := SpendIsBurn(pf, f, reqs, power, words);
    BurnAbsorbs(pf, f, pre, reqs);
    BurnTakesMax(pf, f, reqs, Runtime);
    PassesAgain(pf, m, f, Burn(pf, f, pre).value, fwSvn);
    assert reqs[..|reqs|] == reqs;
  }
}
