/** When the blob in flash can be opened: across completed flows, across power loss,
    and across repeated boots. */
module DotSeal {
  import opened Words
  import opened Wrappers
  import opened Dot
  import opened DotSafety

  // ----- completed flows -----

  lemma {:induction false} CommandsKeepSeal(sec: Section, cmds: seq<byte>, s: State, plan: FaultPlan)
    requires RunCommands(sec, cmds, s, plan).ok && !s.flash.NoFlash?
    ensures var t := RunCommands(sec, cmds, s, plan).state;
            t == s || (t.burned > s.burned && Sealed(IDevId, t))
    decreases |cmds|
  {
    if cmds != [] && (s.enabled || cmds[0] == NOP) {
      CommandEffect(sec, cmds[0], s, plan);
      CommandsKeepSeal(sec, cmds[1..], Exec(s, Program(sec, cmds[0], s.burned), plan).state, plan);
    }
  }

  lemma StepKeepsSeal(s: State, e: Event, plan: FaultPlan)
    requires Sealed(IDevId, s) && Step(s, e, IDevId, plan).ok
    ensures Sealed(IDevId, Step(s, e, IDevId, plan).state)
  {
    match e
    case Booted(_) =>
      if LockPending(s) { Exec1(s, Burn(s.burned), plan); }
    case Manifest(sec) =>
      if Accepted(sec) { CommandsKeepSeal(sec, Commands(sec), s, plan); }
    case Recovered(backup) =>
      Exec1(s, Write(backup), plan);
    case Overridden =>
      Exec2(s, Burn(s.burned), Write(Seal(IDevId, s.burned + 1, EMPTY_FIELDS)), plan);
    case Resealed =>
      Exec1(s, Write(Seal(IDevId, s.burned, OwnerFields(ZERO_HASH, ZERO_HASH))), plan);
  }

  /** Any sequence of completed boots, manifest runs, recoveries and overrides leaves a
      blob that authenticates at the count it leaves. */
  lemma {:induction false} SealInvariant(s: State, es: seq<Event>, plan: FaultPlan)
    requires Sealed(IDevId, s) && AllComplete(s, es, IDevId, plan)
    ensures Sealed(IDevId, Lifetime(s, es, IDevId, plan))
    decreases |es|
  {
    if es != [] {
      StepKeepsSeal(s, es[0], plan);
      SealInvariant(Step(s, es[0], IDevId, plan).state, es[1..], plan);
    }
  }

  /** Manifest commands always seal with the IDevId key, so a platform that boots with
      another key type cannot open the blob of a manifest that acted. */
  lemma ManifestSealKey(sec: Section, s: State, plan: FaultPlan, kt: KeyType)
    requires !s.flash.NoFlash? && RunManifest(sec, s, plan).ok
    requires RunManifest(sec, s, plan).state != s
    ensures Sealed(kt, RunManifest(sec, s, plan).state) <==> kt == IDevId
  {
    CommandsKeepSeal(sec, Commands(sec), s, plan);
  }

  // ----- power loss inside a manifest command -----

  /** The flash stays openable wherever this one command is cut off. */
  ghost predicate CrashSafe(sec: Section, cmd: byte, s: State) {
    forall plan: FaultPlan :: Sealed(IDevId, RunCommands(sec, [cmd], s, plan).state)
  }

  predicate Unsafe(sec: Section, cmd: byte, s: State) {
    && s.enabled
    && (|| (cmd == UNLOCK && Odd(s.burned))
        || (cmd == ROTATE && s.burned < Min(sec.minFuseCount, TOTAL_FUSES)))
  }

  lemma OneCommand(sec: Section, cmd: byte, s: State, plan: FaultPlan)
    requires s.enabled && cmd <= DISABLE
    ensures RunCommands(sec, [cmd], s, plan).state == Exec(s, Program(sec, cmd, s.burned), plan).state
  {
    assert [cmd][1..] == [];
    var r := Exec(s, Program(sec, cmd, s.burned), plan);
    assert RunCommands(sec, [], r.state, plan) == Run(r.state, true);
  }

  /** LOCK and DISABLE are safe at every cut; UNLOCK and ROTATE are not whenever they act. */
  lemma CrashSafeIff(sec: Section, cmd: byte, s: State)
    requires Sealed(IDevId, s)
    ensures CrashSafe(sec, cmd, s) <==> !Unsafe(sec, cmd, s)
  {
    if Unsafe(sec, cmd, s) {
      UnsafeCut(sec, cmd, s);
    } else {
      forall plan: FaultPlan
        ensures Sealed(IDevId, RunCommands(sec, [cmd], s, plan).state)
      {
        SafeCut(sec, cmd, s, plan);
      }
    }
  }

  lemma SafeCut(sec: Section, cmd: byte, s: State, plan: FaultPlan)
    requires Sealed(IDevId, s) && !Unsafe(sec, cmd, s)
    ensures Sealed(IDevId, RunCommands(sec, [cmd], s, plan).state)
  {
    if s.enabled && cmd <= DISABLE {
      OneCommand(sec, cmd, s, plan);
      ProgramSafe(sec, cmd, s, plan);
    } else if !s.enabled {
      DisabledIdle(sec, [cmd], s, plan);
    }
  }

  lemma ProgramSafe(sec: Section, cmd: byte, s: State, plan: FaultPlan)
    requires Sealed(IDevId, s) && s.enabled && !Unsafe(sec, cmd, s)
    ensures Sealed(IDevId, Exec(s, Program(sec, cmd, s.burned), plan).state)
  {
    var n := s.burned;
    var blob := NewBlob(sec, cmd, n);
    if Advance(sec, cmd, n) == 1 {
      assert Authentic(IDevId, n, blob);
      WriteBurnSafe(s, blob, plan);
    } else if Advance(sec, cmd, n) == 2 {
      RefusedBurn(s, Burn(n + 1), Write(blob), plan);
    }
  }

  lemma WriteBurnSafe(s: State, blob: Blob, plan: FaultPlan)
    requires Sealed(IDevId, s) && !Odd(s.burned) && Authentic(IDevId, s.burned, blob)
    ensures Sealed(IDevId, Exec(s, [Write(blob), Burn(s.burned)], plan).state)
  {
    Exec2(s, Write(blob), Burn(s.burned), plan);
  }

  lemma RefusedBurn(s: State, b: Op, c: Op, plan: FaultPlan)
    requires s.burned >= TOTAL_FUSES
    ensures Exec(s, [Burn(s.burned), b, c], plan) == Run(s, false)
  {
  }

  lemma UnsafeCut(sec: Section, cmd: byte, s: State)
    requires Sealed(IDevId, s) && Unsafe(sec, cmd, s)
    ensures !CrashSafe(sec, cmd, s)
  {
    var n := s.burned;
    var last := if cmd == ROTATE && !Odd(n) then s.clock + 1 else s.clock;
    var plan: FaultPlan := t => if t == last then Late else Works;
    OneCommand(sec, cmd, s, plan);
    var blob := NewBlob(sec, cmd, n);
    if cmd == UNLOCK {
      Exec2(s, Write(blob), Burn(n), plan);
    } else {
      Exec3(s, Burn(n), Burn(n + 1), Write(blob), plan);
      Exec2(Do(s, Burn(n), plan).state, Burn(n + 1), Write(blob), plan);
    }
    assert !Sealed(IDevId, RunCommands(sec, [cmd], s, plan).state);
  }

  /** A whole manifest of LOCK, DISABLE and NOP commands is safe at every cut. */
  lemma {:induction false} LockingManifestCrashSafe(sec: Section, cmds: seq<byte>, s: State, plan: FaultPlan)
    requires Sealed(IDevId, s) && UNLOCK !in cmds && ROTATE !in cmds
    ensures Sealed(IDevId, RunCommands(sec, cmds, s, plan).state)
    decreases |cmds|
  {
    if cmds != [] && cmds[0] <= DISABLE && (s.enabled || cmds[0] == NOP) {
      assert cmds[0] in cmds && forall c | c in cmds[1..] :: c in cmds;
      var r := Exec(s, Program(sec, cmds[0], s.burned), plan);
      if s.enabled { ProgramSafe(sec, cmds[0], s, plan); }
      if r.ok { LockingManifestCrashSafe(sec, cmds[1..], r.state, plan); }
    }
  }

  /** Wherever a LOCK is cut off after its blob reached the flash, the next boot arrives at
      the count and blob of a LOCK that was not cut off. */
  lemma InterruptedLockFinishes(sec: Section, s: State, cut: FaultPlan, plan: FaultPlan, fuseOwner: Option<KeyHash>)
    requires s.enabled && !Odd(s.burned) && s.burned < TOTAL_FUSES && !s.flash.NoFlash?
    requires !IsZero(sec.cak) && !IsZero(sec.lak)
    requires !cut(s.clock).Lost?
    requires forall t: nat :: plan(t).Works?
    ensures var b := ColdBoot(RunCommands(sec, [LOCK], s, cut).state, IDevId, fuseOwner, plan);
            var full := RunCommands(sec, [LOCK], s, plan);
            && full.ok && b.owner.Success?
            && b.state.burned == full.state.burned == s.burned + 1
            && b.state.flash == full.state.flash
  {
    var blob := NewBlob(sec, LOCK, s.burned);
    Exec2(s, Write(blob), Burn(s.burned), cut);
    Exec2(s, Write(blob), Burn(s.burned), plan);
    OneCommand(sec, LOCK, s, cut);
    OneCommand(sec, LOCK, s, plan);
    var full := Exec(s, Program(sec, LOCK, s.burned), plan);
    assert [LOCK][1..] == [];
    assert RunCommands(sec, [], full.state, plan).ok;
    var t := RunCommands(sec, [LOCK], s, cut).state;
    Exec1(t, Burn(t.burned), plan);
  }

  // ----- repeated boots -----

  function Boots(s: State, kt: KeyType, fuseOwner: Option<KeyHash>, plan: FaultPlan, k: nat): State {
    if k == 0 then s
    else ColdBoot(Boots(s, kt, fuseOwner, plan, k - 1), kt, fuseOwner, plan).state
  }

  /** With an owner blob in place, over any number of boots and wherever each is cut off, the
      blob stays and stays openable and at most the one fuse that locks the device is burned;
      a boot that succeeds leaves it burned, and on a locked device every boot answers with
      the CAK and writes nothing. */
  lemma {:induction false} BootsBurnOnce(s: State, kt: KeyType, fuseOwner: Option<KeyHash>, plan: FaultPlan, k: nat)
    requires s.enabled && s.burned < TOTAL_FUSES && Sealed(kt, s)
    requires !IsZero(s.flash.blob.fields.cak) && !IsZero(s.flash.blob.fields.lak)
    ensures var t := Boots(s, kt, fuseOwner, plan, k);
            var b := ColdBoot(t, kt, fuseOwner, plan);
            && t.enabled && t.flash == s.flash && Sealed(kt, t)
            && s.burned <= t.burned <= b.state.burned <= Derivation(s.burned)
            && (b.owner.Success? ==> b.state.burned == Derivation(s.burned))
            && (b.owner.Success? && !Odd(t.burned) ==> b.owner.value == fuseOwner)
            && (Odd(t.burned) ==> b == Boot(t, Success(Some(s.flash.blob.fields.cak))))
  {
    var t := Boots(s, kt, fuseOwner, plan, k);
    if k > 0 {
      var u := Boots(s, kt, fuseOwner, plan, k - 1);
      BootsBurnOnce(s, kt, fuseOwner, plan, k - 1);
      Exec1(u, Burn(u.burned), plan);
    }
    Exec1(t, Burn(t.burned), plan);
  }

  /** When no boot is cut off, the first locks the device and every later one answers with the CAK. */
  lemma UncutBoots(s: State, kt: KeyType, fuseOwner: Option<KeyHash>, plan: FaultPlan, k: nat)
    requires s.enabled && s.burned < TOTAL_FUSES && Sealed(kt, s)
    requires !IsZero(s.flash.blob.fields.cak) && !IsZero(s.flash.blob.fields.lak)
    requires k > 0 && forall t: nat :: plan(t).Works?
    ensures var t := Boots(s, kt, fuseOwner, plan, k);
            && t.burned == Derivation(s.burned)
            && ColdBoot(t, kt, fuseOwner, plan).owner == Success(Some(s.flash.blob.fields.cak))
  {
    var u := Boots(s, kt, fuseOwner, plan, k - 1);
    BootsBurnOnce(s, kt, fuseOwner, plan, k - 1);
    BootsBurnOnce(s, kt, fuseOwner, plan, k);
    BootRefusedIff(u, kt, fuseOwner, plan);
  }

  /** With an authentic blob, a boot is refused for one reason only: a lock is pending
      and no fuse is left for it. */
  lemma BootRefusedIff(s: State, kt: KeyType, fuseOwner: Option<KeyHash>, plan: FaultPlan)
    requires Sealed(kt, s) && forall t: nat :: plan(t).Works?
    ensures ColdBoot(s, kt, fuseOwner, plan).owner.Failure?
            <==> LockPending(s) && s.burned >= TOTAL_FUSES
  {
    if LockPending(s) { Exec1(s, Burn(s.burned), plan); }
  }

  // ----- the counter over one flow -----

  lemma StepMonotone(s: State, e: Event, kt: KeyType, plan: FaultPlan)
    requires s.burned <= TOTAL_FUSES
    ensures s.burned <= Step(s, e, kt, plan).state.burned <= TOTAL_FUSES
  {
    match e
    case Booted(_) =>
      if s.flash.Holds? && LockPending(s) { ExecRange(s, [Burn(s.burned)], plan, s.burned + 1); }
    case Manifest(sec) =>
      if Accepted(sec) {
        CommandsWithin(sec, Commands(sec), s, plan, Max(s.burned, sec.minFuseCount + 1), UNLOCK in Commands(sec));
      }
    case Recovered(backup) => ExecRange(s, [Write(backup)], plan, s.burned);
    case Overridden =>
      ExecRange(s, [Burn(s.burned), Write(Seal(kt, s.burned + 1, EMPTY_FIELDS))], plan, s.burned + 1);
    case Resealed =>
      ExecRange(s, [Write(Seal(IDevId, s.burned, OwnerFields(ZERO_HASH, ZERO_HASH)))], plan, s.burned);
  }
}
