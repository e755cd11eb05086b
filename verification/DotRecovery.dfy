/**
 What a locked device does at boot when its blob is missing or cannot be opened: restore a
 backup, or work through a chain of recovery handlers, all on the fuse snapshot of the boot
 (rom/src/cold_boot.rs, DotLockedRecoveryManager in rom/src/device_ownership_transfer.rs).
 */
module DotRecovery {
  import opened Wrappers
  import opened Dot
  import opened DotSafety
  import opened DotDevice
  import Session
  import Mailbox

  type Retries = n: nat | n >= 1 witness 1

  datatype Policy = Continue | Retry(n: Retries)

  function Limit(p: Policy): Retries { if p.Continue? then 1 else p.n }

  /** After a failure: the same handler again, or the next one. */
  function Next(p: Policy, current: nat, retries: nat): (nat, nat) {
    match p
    case Continue => (current + 1, 0)
    case Retry(n) => if retries + 1 >= n then (current + 1, 0) else (current, retries + 1)
  }

  /** What one attempt of a handler finds: a backup blob if it can be read, a challenge answered
      or not, or the packets of an I3C session. */
  datatype Try =
    | Backup(blob: Option<Blob>)
    | Challenge(authorized: bool)
    | Services(cfg: Session.Config, polls: seq<Mailbox.Poll>)

  /** A session runs on the boot's snapshot and key type. */
  function At(cfg: Session.Config, snapshot: nat, kt: KeyType): Session.Config {
    cfg.(snapshot := snapshot, keyType := kt)
  }

  /** One attempt; the services handler reports success however its session ended. */
  ghost function Attempted(s: State, snapshot: nat, kt: KeyType, t: Try, plan: FaultPlan): Run {
    match t
    case Backup(None) => Run(s, false)
    case Backup(Some(blob)) => Recover(s, snapshot, blob, kt, plan)
    case Challenge(authorized) =>
      if Odd(snapshot) && authorized then Override(s, snapshot, kt, plan) else Run(s, false)
    case Services(cfg, polls) =>
      Run(Mailbox.After(At(cfg, snapshot, kt), Session.Session(s, None, false), polls, plan).dev, true)
  }

  type Handler = (Try, State) -> Run

  ghost function HandlerOf(snapshot: nat, kt: KeyType, plan: FaultPlan): Handler {
    (t, s) => Attempted(s, snapshot, kt, t, plan)
  }

  datatype Chain = Chain(state: State, winner: Option<Try>)

  /** Handler by handler, each up to its limit, until one succeeds. */
  ghost function RunChain(
    ps: seq<Policy>, tries: (nat, nat) -> Try, attempt: Handler, current: nat, retries: nat, s: State): Chain
    requires current < |ps| ==> retries < Limit(ps[current])
    decreases |ps| - current, if current < |ps| then Limit(ps[current]) - retries else 0
  {
    if current >= |ps| then Chain(s, None)
    else
      var r := attempt(tries(current, retries), s);
      if r.ok then Chain(r.state, Some(tries(current, retries)))
      else
        var (next, again) := Next(ps[current], current, retries);
        RunChain(ps, tries, attempt, next, again, r.state)
  }

  lemma ChainStep(
    ps: seq<Policy>, tries: (nat, nat) -> Try, attempt: Handler, current: nat, retries: nat, s: State)
    requires current < |ps| && retries < Limit(ps[current])
    ensures var r := attempt(tries(current, retries), s);
            RunChain(ps, tries, attempt, current, retries, s)
            == if r.ok then Chain(r.state, Some(tries(current, retries)))
               else
                 var (next, again) := Next(ps[current], current, retries);
                 RunChain(ps, tries, attempt, next, again, r.state)
  {
  }

  /** The state after k attempts of one handler. */
  ghost function Tried(tries: (nat, nat) -> Try, attempt: Handler, current: nat, k: nat, s: State): State {
    if k == 0 then s else attempt(tries(current, k - 1), Tried(tries, attempt, current, k - 1, s)).state
  }

  ghost predicate Fails(tries: (nat, nat) -> Try, attempt: Handler, current: nat, k: nat, s: State) {
    !attempt(tries(current, k), Tried(tries, attempt, current, k, s)).ok
  }

  lemma TryAgain(
    ps: seq<Policy>, tries: (nat, nat) -> Try, attempt: Handler, current: nat, k: nat, s: State)
    requires current < |ps| && k + 1 < Limit(ps[current]) && !attempt(tries(current, k), s).ok
    ensures RunChain(ps, tries, attempt, current, k, s)
         == RunChain(ps, tries, attempt, current, k + 1, attempt(tries(current, k), s).state)
  {
    ChainStep(ps, tries, attempt, current, k, s);
  }

  lemma GiveUp(ps: seq<Policy>, tries: (nat, nat) -> Try, attempt: Handler, current: nat, k: nat, s: State)
    requires current < |ps| && k + 1 == Limit(ps[current]) && !attempt(tries(current, k), s).ok
    ensures RunChain(ps, tries, attempt, current, k, s)
         == RunChain(ps, tries, attempt, current + 1, 0, attempt(tries(current, k), s).state)
  {
    ChainStep(ps, tries, attempt, current, k, s);
  }

  lemma {:induction false} StillTrying(
    ps: seq<Policy>, tries: (nat, nat) -> Try, attempt: Handler, current: nat, s: State, k: nat)
    requires current < |ps| && k < Limit(ps[current])
    requires forall i | 0 <= i < k :: Fails(tries, attempt, current, i, s)
    ensures RunChain(ps, tries, attempt, current, 0, s)
         == RunChain(ps, tries, attempt, current, k, Tried(tries, attempt, current, k, s))
  {
    if k > 0 {
      StillTrying(ps, tries, attempt, current, s, k - 1);
      var t := Tried(tries, attempt, current, k - 1, s);
      assert Fails(tries, attempt, current, k - 1, s);
      TryAgain(ps, tries, attempt, current, k - 1, t);
    }
  }

  /** A handler that keeps failing is tried once under Continue and n times under Retry(n);
      then the next one starts afresh. */
  lemma RetriesExact(
    ps: seq<Policy>, tries: (nat, nat) -> Try, attempt: Handler, current: nat, s: State, n: nat)
    requires current < |ps| && n == if ps[current].Continue? then 1 else ps[current].n
    requires forall i | 0 <= i < n :: Fails(tries, attempt, current, i, s)
    ensures RunChain(ps, tries, attempt, current, 0, s)
         == RunChain(ps, tries, attempt, current + 1, 0, Tried(tries, attempt, current, n, s))
  {
    StillTrying(ps, tries, attempt, current, s, n - 1);
    var t := Tried(tries, attempt, current, n - 1, s);
    assert Fails(tries, attempt, current, n - 1, s);
    GiveUp(ps, tries, attempt, current, n - 1, t);
  }

  // ----- what every chain keeps -----

  /** The count is at most one past the snapshot, on a device with flash. */
  predicate Near(snapshot: nat, s: State) {
    snapshot <= s.burned <= snapshot + 1 && !s.flash.NoFlash?
  }

  lemma AttemptNear(s: State, snapshot: nat, kt: KeyType, t: Try, plan: FaultPlan)
    requires Near(snapshot, s)
    ensures var u := Attempted(s, snapshot, kt, t, plan).state;
            Near(snapshot, u) && s.burned <= u.burned && (u.burned != s.burned ==> Odd(snapshot))
  {
    match t
    case Backup(None) =>
    case Backup(Some(blob)) => Exec1(s, Write(blob), plan);
    case Challenge(_) => Exec2(s, Burn(snapshot), Write(Seal(kt, snapshot + 1, EMPTY_FIELDS)), plan);
    case Services(cfg, polls) =>
      var inputs := Mailbox.Inputs(polls);
      Session.SessionBurnsAtMostOne(
        At(cfg, snapshot, kt), Session.Session(s, None, false), inputs, |inputs|, plan);
  }

  /** However many handlers are tried, however often, and whichever writes fail, the whole chain
      takes the count at most one past the boot's snapshot. */
  lemma {:induction false} ChainBurnsAtMostOne(
    ps: seq<Policy>, tries: (nat, nat) -> Try, current: nat, retries: nat, s: State, snapshot: nat, kt: KeyType,
    plan: FaultPlan)
    requires current < |ps| ==> retries < Limit(ps[current])
    requires Near(snapshot, s)
    ensures var u := RunChain(ps, tries, HandlerOf(snapshot, kt, plan), current, retries, s).state;
            Near(snapshot, u) && s.burned <= u.burned && (u.burned != s.burned ==> Odd(snapshot))
    decreases |ps| - current, if current < |ps| then Limit(ps[current]) - retries else 0
  {
    if current < |ps| {
      AttemptNear(s, snapshot, kt, tries(current, retries), plan);
      var r := Attempted(s, snapshot, kt, tries(current, retries), plan);
      if !r.ok {
        if retries + 1 >= Limit(ps[current]) {
          ChainBurnsAtMostOne(ps, tries, current + 1, 0, r.state, snapshot, kt, plan);
        } else {
          ChainBurnsAtMostOne(ps, tries, current, retries + 1, r.state, snapshot, kt, plan);
        }
      }
    }
  }

  lemma AttemptSealedIff(s: State, snapshot: nat, kt: KeyType, t: Try, plan: FaultPlan)
    requires Near(snapshot, s) && Odd(snapshot) && !t.Services?
    requires Attempted(s, snapshot, kt, t, plan).ok
    ensures var u := Attempted(s, snapshot, kt, t, plan).state;
            Sealed(kt, u) <==> t.Challenge? || u.burned == snapshot
  {
    match t
    case Backup(Some(blob)) => Exec1(s, Write(blob), plan);
    case Challenge(_) => Exec2(s, Burn(snapshot), Write(Seal(kt, snapshot + 1, EMPTY_FIELDS)), plan);
  }

  /** A chain that succeeds by override or backup leaves an openable blob, unless a backup
      succeeded after an earlier override had already burned its fuse. */
  lemma {:induction false} ChainSealedIff(
    ps: seq<Policy>, tries: (nat, nat) -> Try, current: nat, retries: nat, s: State, snapshot: nat, kt: KeyType,
    plan: FaultPlan)
    requires current < |ps| ==> retries < Limit(ps[current])
    requires Near(snapshot, s) && Odd(snapshot)
    requires var c := RunChain(ps, tries, HandlerOf(snapshot, kt, plan), current, retries, s);
             c.winner.Some? && !c.winner.value.Services?
    ensures var c := RunChain(ps, tries, HandlerOf(snapshot, kt, plan), current, retries, s);
            Sealed(kt, c.state) <==> c.winner.value.Challenge? || c.state.burned == snapshot
    decreases |ps| - current, if current < |ps| then Limit(ps[current]) - retries else 0
  {
    var t := tries(current, retries);
    var r := Attempted(s, snapshot, kt, t, plan);
    AttemptNear(s, snapshot, kt, t, plan);
    if r.ok {
      AttemptSealedIff(s, snapshot, kt, t, plan);
    } else if retries + 1 >= Limit(ps[current]) {
      ChainSealedIff(ps, tries, current + 1, 0, r.state, snapshot, kt, plan);
    } else {
      ChainSealedIff(ps, tries, current, retries + 1, r.state, snapshot, kt, plan);
    }
  }

  // ----- the services handler -----

  lemma ServicesSealedIff(
    s: State, snapshot: nat, kt: KeyType, cfg: Session.Config, polls: seq<Mailbox.Poll>, plan: FaultPlan)
    requires Near(snapshot, s) && s.burned == snapshot < TOTAL_FUSES && !Sealed(kt, s)
    requires forall t: nat :: plan(t).Works?
    ensures var inputs := Mailbox.Inputs(polls);
            Sealed(kt, Attempted(s, snapshot, kt, Services(cfg, polls), plan).state)
            <==> Session.SomeRestores(At(cfg, snapshot, kt), inputs)
  {
    var at, start := At(cfg, snapshot, kt), Session.Session(s, None, false);
    Session.SessionRestoresIff(at, start, Mailbox.Inputs(polls), plan);
    assert Mailbox.After(at, start, polls, plan)
        == Session.Before(at, start, Mailbox.Inputs(polls), |Mailbox.Inputs(polls)|, plan);
  }

  /** A services handler ends the chain as a success in any case.  Under working writes the
      success is true, a locked device that could not open its blob now can, if and only if
      some delivered command was a recovery with an authentic blob or a verified override. */
  lemma ServicesSuccessIff(
    ps: seq<Policy>, tries: (nat, nat) -> Try, s: State, snapshot: nat, kt: KeyType, plan: FaultPlan)
    requires ps != [] && tries(0, 0).Services?
    requires Near(snapshot, s) && s.burned == snapshot < TOTAL_FUSES && !Sealed(kt, s)
    requires forall t: nat :: plan(t).Works?
    ensures var c := RunChain(ps, tries, HandlerOf(snapshot, kt, plan), 0, 0, s);
            var cfg, inputs := At(tries(0, 0).cfg, snapshot, kt), Mailbox.Inputs(tries(0, 0).polls);
            && c.winner == Some(tries(0, 0))
            && (Sealed(kt, c.state) <==> Session.SomeRestores(cfg, inputs))
  {
    ServicesSealedIff(s, snapshot, kt, tries(0, 0).cfg, tries(0, 0).polls, plan);
    ChainStep(ps, tries, HandlerOf(snapshot, kt, plan), 0, 0, s);
  }

  /** In particular a session that only ever reads empty queues is a success that leaves the
      device exactly as it was, under any faults. */
  lemma SilentServicesSucceed(
    ps: seq<Policy>, tries: (nat, nat) -> Try, s: State, snapshot: nat, kt: KeyType, plan: FaultPlan)
    requires ps != [] && tries(0, 0).Services?
    requires var polls := tries(0, 0).polls; forall i | 0 <= i < |polls| :: polls[i].packet.dataLen == 0
    ensures RunChain(ps, tries, HandlerOf(snapshot, kt, plan), 0, 0, s) == Chain(s, Some(tries(0, 0)))
  {
    Mailbox.SilentPolls(tries(0, 0).polls);
  }

  // ----- the whole boot -----

  /** A backup written and the normal flow run on it. */
  function Restored(
    s: State, snapshot: nat, backup: Blob, kt: KeyType, fuseOwner: Option<KeyHash>, plan: FaultPlan): Boot
  {
    var r := Recover(s, snapshot, backup, kt, plan);
    if !r.ok || !r.state.flash.Holds? then Boot(r.state, Failure(())) else DotFlow(r.state, kt, fuseOwner, plan)
  }

  /** Cold boot with the recovery of a locked device behind it: a backup when resets are
      reported to the host, the handler chain otherwise. */
  ghost function FullBoot(
    s: State, kt: KeyType, fuseOwner: Option<KeyHash>, resetFlow: bool, backup: Option<Blob>, ps: seq<Policy>,
    tries: (nat, nat) -> Try, plan: FaultPlan): Boot
  {
    var b := ColdBoot(s, kt, fuseOwner, plan);
    if b.owner.Success? || !Odd(s.burned) then b
    else if !resetFlow then Boot(RunChain(ps, tries, HandlerOf(s.burned, kt, plan), 0, 0, b.state).state, Failure(()))
    else if backup.None? then b
    else Restored(b.state, s.burned, backup.value, kt, fuseOwner, plan)
  }

  /** On a locked device the boot flow itself writes nothing. */
  lemma LockedBootWrites(s: State, kt: KeyType, fuseOwner: Option<KeyHash>, plan: FaultPlan)
    requires Odd(s.burned)
    ensures ColdBoot(s, kt, fuseOwner, plan).state == s
  {
  }

  /** One boot, with whatever recovery it runs into, burns at most one fuse. */
  lemma FullBootBurnsAtMostOne(
    s: State, kt: KeyType, fuseOwner: Option<KeyHash>, resetFlow: bool, backup: Option<Blob>, ps: seq<Policy>,
    tries: (nat, nat) -> Try, plan: FaultPlan)
    ensures s.burned <= FullBoot(s, kt, fuseOwner, resetFlow, backup, ps, tries, plan).state.burned <= s.burned + 1
  {
    Exec1(s, Burn(s.burned), plan);
    if Odd(s.burned) && ColdBoot(s, kt, fuseOwner, plan).owner.Failure? {
      LockedBootWrites(s, kt, fuseOwner, plan);
      ChainBurnsAtMostOne(ps, tries, 0, 0, s, s.burned, kt, plan);
      if backup.Some? { Exec1(s, Write(backup.value), plan); }
    }
  }

  /** A boot that answers with an owner while a blob is in play leaves one that opens. */
  lemma FullBootSealed(
    s: State, kt: KeyType, fuseOwner: Option<KeyHash>, resetFlow: bool, backup: Option<Blob>, ps: seq<Policy>,
    tries: (nat, nat) -> Try, plan: FaultPlan)
    requires s.flash.Holds? || (s.flash.Blank? && s.enabled && Odd(s.burned))
    requires FullBoot(s, kt, fuseOwner, resetFlow, backup, ps, tries, plan).owner.Success?
    ensures Sealed(kt, FullBoot(s, kt, fuseOwner, resetFlow, backup, ps, tries, plan).state)
  {
    Exec1(s, Burn(s.burned), plan);
    if Odd(s.burned) && ColdBoot(s, kt, fuseOwner, plan).owner.Failure? && backup.Some? {
      LockedBootWrites(s, kt, fuseOwner, plan);
      Exec1(s, Write(backup.value), plan);
    }
  }

  /** Recovery steps in only for a locked device whose boot failed, and with resets reported only
      for a backup sealed for the current lock period; otherwise the boot stands. */
  lemma RecoversOnlyLocked(
    s: State, kt: KeyType, fuseOwner: Option<KeyHash>, resetFlow: bool, backup: Option<Blob>, ps: seq<Policy>,
    tries: (nat, nat) -> Try, plan: FaultPlan)
    requires FullBoot(s, kt, fuseOwner, resetFlow, backup, ps, tries, plan) != ColdBoot(s, kt, fuseOwner, plan)
    ensures s.burned % 2 == 1 && ColdBoot(s, kt, fuseOwner, plan).owner == Failure(())
    ensures resetFlow ==>
              backup.Some? && backup.value.tag == Mac(kt, s.burned / 2 * 2 + 1, backup.value.fields)
  {
    assert s.burned % 2 == 1 ==> s.burned / 2 * 2 + 1 == s.burned;
  }

  /** A locked device whose blob is gone or corrupt boots with the owner of an authentic backup. */
  lemma BackupRestoresOwner(
    s: State, kt: KeyType, fuseOwner: Option<KeyHash>, blob: Blob, ps: seq<Policy>, tries: (nat, nat) -> Try,
    plan: FaultPlan)
    requires s.enabled && Odd(s.burned) && !s.flash.NoFlash? && !Sealed(kt, s)
    requires Authentic(kt, s.burned, blob) && !IsZero(blob.fields.cak) && plan(s.clock).Works?
    ensures var b := FullBoot(s, kt, fuseOwner, true, Some(blob), ps, tries, plan);
            && b.owner == Success(Some(blob.fields.cak))
            && b.state.burned == s.burned && b.state.flash == Holds(blob)
  {
    Exec1(s, Write(blob), plan);
  }

  // ----- as the ROM runs it -----

  class Manager {
    const policies: seq<Policy>
    var current: nat
    var retries: nat

    constructor (policies: seq<Policy>)
      ensures this.policies == policies && current == 0 && retries == 0
    {
      this.policies, current, retries := policies, 0, 0;
    }

    method RunAttempt(dev: Device, snapshot: nat, kt: KeyType, t: Try, ghost attempt: Handler) returns (ok: bool)
      requires dev.Valid() && Near(snapshot, dev.View()) && attempt == HandlerOf(snapshot, kt, dev.plan)
      modifies dev
      ensures dev.Valid() && Near(snapshot, dev.View())
      ensures Run(dev.View(), ok) == attempt(t, old(dev.View()))
    {
      AttemptNear(dev.View(), snapshot, kt, t, dev.plan);
      match t
      case Backup(None) =>
        ok := false;
      case Backup(Some(blob)) =>
        ok := dev.RecoverBackup(snapshot, blob, kt);
      case Challenge(authorized) =>
        ok := false;
        if Odd(snapshot) && authorized { ok := dev.ApplyOverride(snapshot, kt); }
      case Services(cfg, polls) =>
        var handler := new Mailbox.Handler(At(cfg, snapshot, kt), dev);
        handler.Serve(polls);
        ok := true;
    }

    /** One turn of the loop. */
    method Turn(dev: Device, snapshot: nat, kt: KeyType, tries: (nat, nat) -> Try, ghost attempt: Handler)
      returns (ok: bool)
      requires dev.Valid() && Near(snapshot, dev.View()) && attempt == HandlerOf(snapshot, kt, dev.plan)
      requires current < |policies| && retries < Limit(policies[current])
      modifies this, dev
      ensures dev.Valid() && Near(snapshot, dev.View())
      ensures current < |policies| ==> retries < Limit(policies[current])
      ensures !ok ==> (current, retries) == Next(policies[old(current)], old(current), old(retries))
      ensures var c := RunChain(policies, tries, attempt, old(current), old(retries), old(dev.View()));
              if ok then dev.View() == c.state && c.winner.Some?
              else RunChain(policies, tries, attempt, current, retries, dev.View()) == c
    {
      ChainStep(policies, tries, attempt, current, retries, dev.View());
      ok := RunAttempt(dev, snapshot, kt, tries(current, retries), attempt);
      if !ok {
        var (next, again) := Next(policies[current], current, retries);
        current, retries := next, again;
      }
    }

    /** DotLockedRecoveryManager::run. */
    method RunHandlers(dev: Device, snapshot: nat, kt: KeyType, tries: (nat, nat) -> Try) returns (ok: bool)
      requires dev.Valid() && Near(snapshot, dev.View()) && current == 0 && retries == 0
      modifies this, dev
      ensures dev.Valid()
      ensures var c := RunChain(policies, tries, HandlerOf(snapshot, kt, dev.plan), 0, 0, old(dev.View()));
              dev.View() == c.state && ok == c.winner.Some?
    {
      ghost var attempt := HandlerOf(snapshot, kt, dev.plan);
      ghost var goal := RunChain(policies, tries, attempt, 0, 0, dev.View());
      while current < |policies|
        invariant dev.Valid() && Near(snapshot, dev.View())
        invariant current < |policies| ==> retries < Limit(policies[current])
        invariant RunChain(policies, tries, attempt, current, retries, dev.View()) == goal
        decreases |policies| - current, if current < |policies| then Limit(policies[current]) - retries else 0
      {
        ok := Turn(dev, snapshot, kt, tries, attempt);
        if ok { return; }
      }
      ok := false;
    }
  }

  /** The cold-boot branch with recover_locked_dot_or_fail. */
  method BootOrRecover(
    dev: Device, kt: KeyType, fuseOwner: Option<KeyHash>, resetFlow: bool, backup: Option<Blob>, ps: seq<Policy>,
    tries: (nat, nat) -> Try) returns (r: Result<Option<KeyHash>, ()>)
    requires dev.Valid()
    modifies dev
    ensures dev.Valid()
    ensures Boot(dev.View(), r) == FullBoot(old(dev.View()), kt, fuseOwner, resetFlow, backup, ps, tries, dev.plan)
  {
    var snapshot := dev.LoadBurned();
    r := dev.BootOwner(kt, fuseOwner);
    if r.Success? || !Odd(snapshot) { return; }
    LockedBootWrites(old(dev.View()), kt, fuseOwner, dev.plan);
    if !resetFlow {
      var manager := new Manager(ps);
      var ok := manager.RunHandlers(dev, snapshot, kt, tries);
      return Failure(());
    }
    if backup.None? { return; }
    r := RestoreBackup(dev, snapshot, backup.value, kt, fuseOwner);
  }

  /** attempt_dot_backup_recovery: write the backup, then run the normal flow on it. */
  method RestoreBackup(dev: Device, snapshot: nat, backup: Blob, kt: KeyType, fuseOwner: Option<KeyHash>)
    returns (r: Result<Option<KeyHash>, ()>)
    requires dev.Valid() && !dev.flash.NoFlash?
    modifies dev
    ensures dev.Valid()
    ensures Boot(dev.View(), r) == Restored(old(dev.View()), snapshot, backup, kt, fuseOwner, dev.plan)
  {
    var ok := dev.RecoverBackup(snapshot, backup, kt);
    if !ok || !dev.flash.Holds? { return Failure(()); }
    r := dev.BootOwner(kt, fuseOwner);
  }
}
