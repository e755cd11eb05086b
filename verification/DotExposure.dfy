/** Which recovery chains can end in a success that leaves a blob nobody can open. */
module DotExposure {
  import opened Wrappers
  import opened Dot
  import opened DotSafety
  import opened DotRecovery

  /** Some backup authentic at the snapshot is tried after an authorized challenge, before any
      services handler; `burned` says whether such a challenge lies behind already. */
  predicate Exposed(
    ps: seq<Policy>, tries: (nat, nat) -> Try, current: nat, retries: nat, snapshot: nat, kt: KeyType, burned: bool)
    requires current < |ps| ==> retries < Limit(ps[current])
    decreases |ps| - current, if current < |ps| then Limit(ps[current]) - retries else 0
  {
    current < |ps| &&
    var (next, again) := Next(ps[current], current, retries);
    match tries(current, retries)
    case Services(_, _) => false
    case Challenge(authorized) => Exposed(ps, tries, next, again, snapshot, kt, burned || authorized)
    case Backup(None) => Exposed(ps, tries, next, again, snapshot, kt, burned)
    case Backup(Some(blob)) =>
      (burned && Authentic(kt, snapshot, blob)) || Exposed(ps, tries, next, again, snapshot, kt, burned)
  }

  /** Reported as recovered by backup or override, and not openable. */
  ghost predicate Stale(c: Chain, kt: KeyType) {
    c.winner.Some? && !c.winner.value.Services? && !Sealed(kt, c.state)
  }

  ghost predicate EndsStale(
    ps: seq<Policy>, tries: (nat, nat) -> Try, current: nat, retries: nat, s: State, snapshot: nat, kt: KeyType,
    plan: FaultPlan)
    requires current < |ps| ==> retries < Limit(ps[current])
  {
    Stale(RunChain(ps, tries, HandlerOf(snapshot, kt, plan), current, retries, s), kt)
  }

  // ----- only exposed chains -----

  lemma {:induction false} StaleIsExposed(
    ps: seq<Policy>, tries: (nat, nat) -> Try, current: nat, retries: nat, s: State, snapshot: nat, kt: KeyType,
    plan: FaultPlan, burned: bool)
    requires current < |ps| ==> retries < Limit(ps[current])
    requires Near(snapshot, s) && Odd(snapshot) && (s.burned != snapshot ==> burned)
    requires EndsStale(ps, tries, current, retries, s, snapshot, kt, plan)
    ensures Exposed(ps, tries, current, retries, snapshot, kt, burned)
    decreases |ps| - current, if current < |ps| then Limit(ps[current]) - retries else 0
  {
    var t := tries(current, retries);
    var r := Attempted(s, snapshot, kt, t, plan);
    var (next, again) := Next(ps[current], current, retries);
    AttemptNear(s, snapshot, kt, t, plan);
    if r.ok {
      AttemptSealedIff(s, snapshot, kt, t, plan);
      Exec1(s, Write(t.blob.value), plan);
    } else {
      if t.Backup? && t.blob.Some? { Exec1(s, Write(t.blob.value), plan); }
      var later := burned || (t.Challenge? && t.authorized);
      StaleIsExposed(ps, tries, next, again, r.state, snapshot, kt, plan, later);
    }
  }

  // ----- every exposed chain -----

  ghost predicate Agree(p: FaultPlan, q: FaultPlan, from: nat) {
    forall t: nat | t >= from :: p(t) == q(t)
  }

  lemma AttemptAgrees(s: State, snapshot: nat, kt: KeyType, t: Try, p: FaultPlan, q: FaultPlan)
    requires !t.Services? && Agree(p, q, s.clock)
    ensures Attempted(s, snapshot, kt, t, p) == Attempted(s, snapshot, kt, t, q)
    ensures Attempted(s, snapshot, kt, t, p).state.clock >= s.clock
  {
    match t
    case Backup(None) =>
    case Backup(Some(blob)) =>
      Exec1(s, Write(blob), p);
      Exec1(s, Write(blob), q);
    case Challenge(_) =>
      Exec2(s, Burn(snapshot), Write(Seal(kt, snapshot + 1, EMPTY_FIELDS)), p);
      Exec2(s, Burn(snapshot), Write(Seal(kt, snapshot + 1, EMPTY_FIELDS)), q);
  }

  /** Only the faults still to come matter. */
  lemma {:induction false} StaleAgrees(
    ps: seq<Policy>, tries: (nat, nat) -> Try, current: nat, retries: nat, s: State, snapshot: nat, kt: KeyType,
    p: FaultPlan, q: FaultPlan)
    requires current < |ps| ==> retries < Limit(ps[current])
    requires Agree(p, q, s.clock) && EndsStale(ps, tries, current, retries, s, snapshot, kt, p)
    ensures EndsStale(ps, tries, current, retries, s, snapshot, kt, q)
    decreases |ps| - current, if current < |ps| then Limit(ps[current]) - retries else 0
  {
    var t := tries(current, retries);
    AttemptAgrees(s, snapshot, kt, t, p, q);
    var r := Attempted(s, snapshot, kt, t, p);
    var (next, again) := Next(ps[current], current, retries);
    if !r.ok { StaleAgrees(ps, tries, next, again, r.state, snapshot, kt, p, q); }
  }

  /** The plan that puts one fault at this point in front of another plan. */
  function Ahead(clock: nat, fault: Fault, later: FaultPlan): FaultPlan {
    (t: nat) => if t == clock then fault else later(t)
  }

  /** The state an exposed chain is in: burned or not, as told. */
  predicate Told(s: State, snapshot: nat, burned: bool) {
    Near(snapshot, s) && s.burned == if burned then snapshot + 1 else snapshot
  }

  /** An authorized challenge cut off right after its burn. */
  lemma ChallengeCut(s: State, snapshot: nat, kt: KeyType, burned: bool, plan: FaultPlan)
    requires Told(s, snapshot, burned) && Odd(snapshot) && snapshot < TOTAL_FUSES && plan(s.clock) == Late
    ensures var r := Attempted(s, snapshot, kt, Challenge(true), plan);
            !r.ok && r.state == s.(burned := snapshot + 1, clock := s.clock + 1)
  {
    Exec2(s, Burn(snapshot), Write(Seal(kt, snapshot + 1, EMPTY_FIELDS)), plan);
  }

  /** A backup whose write is lost. */
  lemma BackupLost(s: State, snapshot: nat, kt: KeyType, blob: Blob, plan: FaultPlan)
    requires Near(snapshot, s) && Authentic(kt, snapshot, blob) && plan(s.clock) == Lost
    ensures Attempted(s, snapshot, kt, Backup(Some(blob)), plan) == Run(s.(clock := s.clock + 1), false)
  {
    Exec1(s, Write(blob), plan);
  }

  /** A backup written on a device that has moved on. */
  lemma BackupStale(
    ps: seq<Policy>, tries: (nat, nat) -> Try, current: nat, retries: nat, s: State, snapshot: nat, kt: KeyType,
    blob: Blob, plan: FaultPlan)
    requires current < |ps| && retries < Limit(ps[current]) && tries(current, retries) == Backup(Some(blob))
    requires Told(s, snapshot, true) && Odd(snapshot) && Authentic(kt, snapshot, blob) && plan(s.clock) == Works
    ensures EndsStale(ps, tries, current, retries, s, snapshot, kt, plan)
  {
    Exec1(s, Write(blob), plan);
    AttemptSealedIff(s, snapshot, kt, Backup(Some(blob)), plan);
  }

  /** A failed attempt hands the chain on. */
  lemma HandOn(
    ps: seq<Policy>, tries: (nat, nat) -> Try, current: nat, retries: nat, s: State, snapshot: nat, kt: KeyType,
    plan: FaultPlan)
    requires current < |ps| && retries < Limit(ps[current])
    requires !Attempted(s, snapshot, kt, tries(current, retries), plan).ok
    requires var (next, again) := Next(ps[current], current, retries);
             EndsStale(ps, tries, next, again, Attempted(s, snapshot, kt, tries(current, retries), plan).state,
                       snapshot, kt, plan)
    ensures EndsStale(ps, tries, current, retries, s, snapshot, kt, plan)
  {
  }

  /** The faults that make an exposed chain end badly, found back to front. */
  lemma {:induction false} ExposedFaults(
    ps: seq<Policy>, tries: (nat, nat) -> Try, current: nat, retries: nat, s: State, snapshot: nat, kt: KeyType,
    burned: bool) returns (plan: FaultPlan)
    requires current < |ps| ==> retries < Limit(ps[current])
    requires Told(s, snapshot, burned) && Odd(snapshot) && snapshot < TOTAL_FUSES
    requires Exposed(ps, tries, current, retries, snapshot, kt, burned)
    ensures EndsStale(ps, tries, current, retries, s, snapshot, kt, plan)
    decreases |ps| - current, if current < |ps| then Limit(ps[current]) - retries else 0
  {
    var t := tries(current, retries);
    var (next, again) := Next(ps[current], current, retries);
    if t == Challenge(true) {
      var s' := s.(burned := snapshot + 1, clock := s.clock + 1);
      var later := ExposedFaults(ps, tries, next, again, s', snapshot, kt, true);
      plan := Ahead(s.clock, Late, later);
      ChallengeCut(s, snapshot, kt, burned, plan);
      StaleAgrees(ps, tries, next, again, s', snapshot, kt, later, plan);
      HandOn(ps, tries, current, retries, s, snapshot, kt, plan);
    } else if t.Backup? && t.blob.Some? && Authentic(kt, snapshot, t.blob.value) {
      if burned {
        plan := (i: nat) => Works;
        BackupStale(ps, tries, current, retries, s, snapshot, kt, t.blob.value, plan);
      } else {
        var s' := s.(clock := s.clock + 1);
        var later := ExposedFaults(ps, tries, next, again, s', snapshot, kt, burned);
        plan := Ahead(s.clock, Lost, later);
        BackupLost(s, snapshot, kt, t.blob.value, plan);
        StaleAgrees(ps, tries, next, again, s', snapshot, kt, later, plan);
        HandOn(ps, tries, current, retries, s, snapshot, kt, plan);
      }
    } else {
      plan := ExposedFaults(ps, tries, next, again, s, snapshot, kt, burned);
      HandOn(ps, tries, current, retries, s, snapshot, kt, plan);
    }
  }

  /** Some faults make a locked device's chain report a recovery that left a blob nobody can
      open, if and only if the handlers are exposed: an authentic backup is tried after an
      authorized challenge. */
  lemma ChainStaleIff(
    ps: seq<Policy>, tries: (nat, nat) -> Try, s: State, snapshot: nat, kt: KeyType)
    requires Near(snapshot, s) && Odd(snapshot) && s.burned == snapshot < TOTAL_FUSES
    ensures (exists plan :: EndsStale(ps, tries, 0, 0, s, snapshot, kt, plan))
            <==> Exposed(ps, tries, 0, 0, snapshot, kt, false)
  {
    if Exposed(ps, tries, 0, 0, snapshot, kt, false) {
      var plan := ExposedFaults(ps, tries, 0, 0, s, snapshot, kt, false);
    }
    forall plan | EndsStale(ps, tries, 0, 0, s, snapshot, kt, plan)
      ensures Exposed(ps, tries, 0, 0, snapshot, kt, false)
    {
      StaleIsExposed(ps, tries, 0, 0, s, snapshot, kt, plan, false);
    }
  }

  /** For instance a challenge handler in front of a backup handler. */
  lemma ChallengeThenBackup(
    ps: seq<Policy>, tries: (nat, nat) -> Try, s: State, snapshot: nat, kt: KeyType, blob: Blob)
    requires Near(snapshot, s) && Odd(snapshot) && s.burned == snapshot < TOTAL_FUSES
    requires |ps| == 2 && ps[0].Continue? && Authentic(kt, snapshot, blob)
    requires tries(0, 0) == Challenge(true) && tries(1, 0) == Backup(Some(blob))
    ensures exists plan :: EndsStale(ps, tries, 0, 0, s, snapshot, kt, plan)
  {
    assert Exposed(ps, tries, 1, 0, snapshot, kt, true);
    ChainStaleIff(ps, tries, s, snapshot, kt);
  }

  /** All backups in front of all challenges is always safe. */
  lemma {:induction false} ChallengesLast(
    ps: seq<Policy>, tries: (nat, nat) -> Try, current: nat, retries: nat, snapshot: nat, kt: KeyType, burned: bool)
    requires current < |ps| ==> retries < Limit(ps[current])
    requires forall i: nat, j: nat, a: nat, b: nat :: tries(i, a).Challenge? && tries(j, b).Backup? ==> j < i
    requires burned ==> exists i: nat, a: nat :: i <= current && tries(i, a).Challenge?
    ensures !Exposed(ps, tries, current, retries, snapshot, kt, burned)
    decreases |ps| - current, if current < |ps| then Limit(ps[current]) - retries else 0
  {
    if current < |ps| {
      var (next, again) := Next(ps[current], current, retries);
      var t := tries(current, retries);
      ChallengesLast(ps, tries, next, again, snapshot, kt, burned || (t.Challenge? && t.authorized));
    }
  }
}
