/** The life of a device: every flow there is, completed or cut off, in any order. */
module DotLifetime {
  import opened Words
  import opened Wrappers
  import opened Dot
  import opened DotSafety
  import opened DotSeal
  import opened DotRecovery
  import Session
  import Mailbox

  /** A single flow, or a whole boot: with its recovery, and with a forced services session on
      the snapshot taken before the boot. */
  datatype Flow =
    | Single(event: Event)
    | PowerOn(
        fuseOwner: Option<KeyHash>, resetFlow: bool, backup: Option<Blob>, ps: seq<Policy>,
        tries: (nat, nat) -> Try, session: Option<(Session.Config, seq<Mailbox.Poll>)>)

  ghost function Served(
    s: State, snapshot: nat, kt: KeyType, cfg: Session.Config, polls: seq<Mailbox.Poll>, plan: FaultPlan): State
  {
    Mailbox.After(At(cfg, snapshot, kt), Session.Session(s, None, false), polls, plan).dev
  }

  ghost function FlowStep(s: State, f: Flow, kt: KeyType, plan: FaultPlan): State {
    match f
    case Single(e) => Step(s, e, kt, plan).state
    case PowerOn(fuseOwner, resetFlow, backup, ps, tries, session) =>
      var b := FullBoot(s, kt, fuseOwner, resetFlow, backup, ps, tries, plan);
      if b.owner.Failure? || session.None? || b.state.flash.NoFlash? then b.state
      else Served(b.state, s.burned, kt, session.value.0, session.value.1, plan)
  }

  ghost function Life(s: State, fs: seq<Flow>, kt: KeyType, plan: FaultPlan): State
    decreases |fs|
  {
    if fs == [] then s else Life(FlowStep(s, fs[0], kt, plan), fs[1..], kt, plan)
  }

  lemma ServedCapped(
    s: State, snapshot: nat, kt: KeyType, cfg: Session.Config, polls: seq<Mailbox.Poll>, plan: FaultPlan)
    requires Near(snapshot, s)
    ensures s.burned <= Served(s, snapshot, kt, cfg, polls, plan).burned <= Max(s.burned, TOTAL_FUSES)
    ensures Served(s, snapshot, kt, cfg, polls, plan).burned <= snapshot + 1
  {
    var inputs, session := Mailbox.Inputs(polls), Session.Session(s, None, false);
    Session.SessionBurnsAtMostOne(At(cfg, snapshot, kt), session, inputs, |inputs|, plan);
    Session.SessionCapped(At(cfg, snapshot, kt), session, inputs, |inputs|, plan);
  }

  lemma AttemptCapped(s: State, snapshot: nat, kt: KeyType, t: Try, plan: FaultPlan)
    requires Near(snapshot, s)
    ensures Attempted(s, snapshot, kt, t, plan).state.burned <= Max(s.burned, TOTAL_FUSES)
  {
    match t
    case Backup(None) =>
    case Backup(Some(blob)) => Exec1(s, Write(blob), plan);
    case Challenge(_) => Exec2(s, Burn(snapshot), Write(Seal(kt, snapshot + 1, EMPTY_FIELDS)), plan);
    case Services(cfg, polls) => ServedCapped(s, snapshot, kt, cfg, polls, plan);
  }

  lemma {:induction false} ChainCapped(
    ps: seq<Policy>, tries: (nat, nat) -> Try, current: nat, retries: nat, s: State, snapshot: nat, kt: KeyType,
    plan: FaultPlan)
    requires current < |ps| ==> retries < Limit(ps[current])
    requires Near(snapshot, s)
    ensures RunChain(ps, tries, HandlerOf(snapshot, kt, plan), current, retries, s).state.burned
            <= Max(s.burned, TOTAL_FUSES)
    decreases |ps| - current, if current < |ps| then Limit(ps[current]) - retries else 0
  {
    if current < |ps| {
      var t := tries(current, retries);
      AttemptNear(s, snapshot, kt, t, plan);
      AttemptCapped(s, snapshot, kt, t, plan);
      var r := Attempted(s, snapshot, kt, t, plan);
      var (next, again) := Next(ps[current], current, retries);
      if !r.ok { ChainCapped(ps, tries, next, again, r.state, snapshot, kt, plan); }
    }
  }

  lemma FullBootCapped(
    s: State, kt: KeyType, fuseOwner: Option<KeyHash>, resetFlow: bool, backup: Option<Blob>, ps: seq<Policy>,
    tries: (nat, nat) -> Try, plan: FaultPlan)
    requires s.burned <= TOTAL_FUSES
    ensures FullBoot(s, kt, fuseOwner, resetFlow, backup, ps, tries, plan).state.burned <= TOTAL_FUSES
  {
    StepMonotone(s, Booted(fuseOwner), kt, plan);
    if Odd(s.burned) && ColdBoot(s, kt, fuseOwner, plan).owner.Failure? {
      LockedBootWrites(s, kt, fuseOwner, plan);
      ChainCapped(ps, tries, 0, 0, s, s.burned, kt, plan);
      if backup.Some? { Exec1(s, Write(backup.value), plan); }
    }
  }

  /** One boot with its recovery and a session behind it burns at most one fuse. */
  lemma PowerOnBurnsAtMostOne(s: State, f: Flow, kt: KeyType, plan: FaultPlan)
    requires f.PowerOn? && s.burned <= TOTAL_FUSES
    ensures s.burned <= FlowStep(s, f, kt, plan).burned <= s.burned + 1
    ensures FlowStep(s, f, kt, plan).burned <= TOTAL_FUSES
  {
    FullBootBurnsAtMostOne(s, kt, f.fuseOwner, f.resetFlow, f.backup, f.ps, f.tries, plan);
    FullBootCapped(s, kt, f.fuseOwner, f.resetFlow, f.backup, f.ps, f.tries, plan);
    var b := FullBoot(s, kt, f.fuseOwner, f.resetFlow, f.backup, f.ps, f.tries, plan).state;
    if f.session.Some? && !b.flash.NoFlash? {
      ServedCapped(b, s.burned, kt, f.session.value.0, f.session.value.1, plan);
    }
  }

  /** No sequence of flows lowers the count or takes it past the array. */
  lemma {:induction false} LifetimeMonotone(s: State, fs: seq<Flow>, kt: KeyType, plan: FaultPlan)
    requires s.burned <= TOTAL_FUSES
    ensures s.burned <= Life(s, fs, kt, plan).burned <= TOTAL_FUSES
    decreases |fs|
  {
    if fs != [] {
      if fs[0].Single? {
        StepMonotone(s, fs[0].event, kt, plan);
      } else {
        PowerOnBurnsAtMostOne(s, fs[0], kt, plan);
      }
      LifetimeMonotone(FlowStep(s, fs[0], kt, plan), fs[1..], kt, plan);
    }
  }

  /** Once the device has moved past the lock period a blob was sealed for, no later state,
      after any flows completed or cut off, authenticates it again. */
  lemma RetiredBlob(s: State, fs: seq<Flow>, kt: KeyType, plan: FaultPlan, blob: Blob, sealedAt: nat)
    requires Authentic(kt, sealedAt, blob) && s.burned <= TOTAL_FUSES
    requires s.burned > Derivation(sealedAt)
    ensures !Authentic(kt, Life(s, fs, kt, plan).burned, blob)
  {
    LifetimeMonotone(s, fs, kt, plan);
  }
}
